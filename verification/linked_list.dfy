/**
 `LinkedList<E>` from Include/Ds/LinkedList.h, modelled over an explicit heap
 of cells. A list is its three fields `m_head`, `m_tail`, `m_size` together
 with the heap they point into. `delete` only takes a cell out of `live`:
 the cell stays in the heap, so a stale pointer can still be followed, which
 is what the C++ program does in practice when it touches freed memory.
 Each operation is a function from list to list (or to an error); its
 meaning in terms of the abstract contents is stated by the lemmas below.
 */
module LinkedList {
  import opened Nodes

  /** The thrown `string("Empty List")`, and the faults of the C++ code:
      following a null pointer, and a scan that never stops. */
  datatype Error = EmptyList | NullDereference | Diverges

  datatype Result<T> = Ok(value: T) | Err(error: Error)

  /** What `removeFirst`/`removeLast` return: the element and the list after. */
  datatype Removed<E> = Removed(elem: E, rest: List<E>)

  /** The object: `m_head`, `m_tail`, `m_size`, plus the heap of cells, the
      cells not yet deleted, and the next address the allocator hands out. */
  datatype List<E> = List(heap: Heap<E>, live: set<nat>, head: Ptr, tail: Ptr, size: int, nextAddr: nat)

  /** Memory safety of the model: every pointer names an allocated cell, the
      allocator's next address is unused, and the size never went below 0. */
  predicate Closed<E>(l: List<E>)
  {
    && (forall a :: a in l.heap ==> a < l.nextAddr)
    && l.live <= l.heap.Keys
    && PtrOk(l.heap, l.head)
    && PtrOk(l.heap, l.tail)
    && LinksOk(l.heap)
    && l.size >= 0
  }

  /** How the `m_size` cells reached from `m_head` must sit: distinct, not
      deleted, the last one is `m_tail` and has a null `next`; an empty list
      has null head and tail. */
  predicate WellLinked<E>(l: List<E>, spine: seq<nat>)
  {
    && Distinct(spine)
    && (forall i :: 0 <= i < |spine| ==> spine[i] in l.live)
    && (|spine| == 0 ==> l.head == Null && l.tail == Null)
    && (|spine| > 0 ==>
          && spine[|spine| - 1] in l.heap
          && l.tail == Addr(spine[|spine| - 1])
          && l.heap[spine[|spine| - 1]].next == Null)
  }

  /** The representation invariant: exactly `m_size` nodes are reachable from
      `m_head`, `m_tail` is the last of them, and its `next` is null. */
  predicate Valid<E>(l: List<E>)
  {
    && Closed(l)
    && Path(l.heap, l.head, l.size).Some?
    && WellLinked(l, Path(l.heap, l.head, l.size).value)
  }

  /** The addresses of the nodes, head to tail. */
  function Spine<E>(l: List<E>): (s: seq<nat>)
    requires Valid(l)
    ensures |s| == l.size
    ensures IsChain(l.heap, l.head, s)
    ensures WellLinked(l, s)
  {
    var s := Path(l.heap, l.head, l.size).value;
    PathLength(l.heap, l.head, l.size);
    PathIsChain(l.heap, l.head, s);
    s
  }

  /** The abstract value: the elements from head to tail. */
  function Contents<E>(l: List<E>): (c: seq<E>)
    requires Valid(l)
    ensures |c| == l.size
  {
    Elems(l.heap, Spine(l))
  }

  /** A list is valid with spine `s` exactly when `s` is a chain from the
      head of the list's size that is well linked. */
  lemma ValidFromChain<E>(l: List<E>, s: seq<nat>)
    requires Closed(l)
    requires |s| == l.size
    requires IsChain(l.heap, l.head, s)
    requires WellLinked(l, s)
    ensures Valid(l) && Spine(l) == s
  {
    PathIsChain(l.heap, l.head, s);
  }

  // ---------------------------------------------------------------------------
  // Operations, in the order of the header.
  // ---------------------------------------------------------------------------

  /** `LinkedList()`: null head, null tail, size 0. */
  function Empty<E>(): (l: List<E>)
    ensures Valid(l) && Contents(l) == []
  {
    List(map[], {}, Null, Null, 0, 0)
  }

  /** `insertTop(elem)`: a new node in front of `m_head`; the tail is moved to
      it only when the size has just become 1. */
  function InsertTop<E>(l: List<E>, e: E): (l': List<E>)
    requires Closed(l)
    ensures Closed(l')
  {
    var n := l.nextAddr;
    var size := l.size + 1;
    List(l.heap[n := Node(e, l.head)], l.live + {n}, Addr(n),
         if size == 1 then Addr(n) else l.tail, size, n + 1)
  }

  /** `insertLast(elem)`: a new node with null `next`; when `m_tail` is not
      null it is linked after the tail, otherwise it becomes head and tail. */
  function InsertLast<E>(l: List<E>, e: E): (l': List<E>)
    requires Closed(l)
    ensures Closed(l')
  {
    var n := l.nextAddr;
    var heap := l.heap[n := Node(e, Null)];
    if l.tail != Null then
      List(SetNext(heap, l.tail.a, Addr(n)), l.live + {n}, l.head, Addr(n), l.size + 1, n + 1)
    else
      List(heap, l.live + {n}, Addr(n), Addr(n), l.size + 1, n + 1)
  }

  /** `getSize()`: on a valid list, the number of elements. */
  function GetSize<E>(l: List<E>): (r: int)
    ensures Valid(l) ==> r == |Contents(l)|
  {
    l.size
  }

  /** `getHead()`: "Empty List" when the size is 0, else `m_head`'s element. */
  function GetHead<E>(l: List<E>): (r: Result<E>)
    requires Closed(l)
    ensures r == Err(EmptyList) <==> l.size == 0
    ensures Valid(l) && l.size > 0 ==> r == Ok(Contents(l)[0])
  {
    if l.size == 0 then Err(EmptyList)
    else if l.head.Null? then Err(NullDereference)
    else Ok(l.heap[l.head.a].elem)
  }

  /** `getTail()`: "Empty List" when the size is 0, else `m_tail`'s element. */
  function GetTail<E>(l: List<E>): (r: Result<E>)
    requires Closed(l)
    ensures r == Err(EmptyList) <==> l.size == 0
    ensures Valid(l) && l.size > 0 ==> r == Ok(Contents(l)[l.size - 1])
  {
    if l.size == 0 then Err(EmptyList)
    else if l.tail.Null? then Err(NullDereference)
    else Ok(l.heap[l.tail.a].elem)
  }

  /** `removeFirst()`: "Empty List" when the size is 0; otherwise the head
      node is deleted and `m_head` moves to its `next`. `m_tail` is left as
      it was, whatever the new size. */
  function RemoveFirst<E>(l: List<E>): (r: Result<Removed<E>>)
    requires Closed(l)
    ensures r == Err(EmptyList) <==> l.size == 0
    ensures r.Ok? ==> Closed(r.value.rest) && r.value.rest.size == l.size - 1
  {
    if l.size == 0 then Err(EmptyList)
    else if l.head.Null? then Err(NullDereference)
    else
      var h := l.head.a;
      Ok(Removed(l.heap[h].elem,
                 l.(live := l.live - {h}, head := l.heap[h].next, size := l.size - 1)))
  }

  /** The loop of `removeLast`: starting at `t`, move along `next` until the
      node after `t` holds `zero`. Following a null `next` is a fault; after
      `fuel` moves the walk has revisited a cell, so it would never stop. */
  function Scan<E(==)>(h: Heap<E>, t: nat, zero: E, fuel: nat): (r: Result<nat>)
    requires t in h
    requires LinksOk(h)
    ensures r.Ok? ==> r.value in h && h[r.value].next.Addr?
                      && h[h[r.value].next.a].elem == zero
    ensures r.Err? ==> r.error != EmptyList
    decreases fuel
  {
    var nx := h[t].next;
    if nx.Null? then Err(NullDereference)
    else if h[nx.a].elem != zero then
      if fuel == 0 then Err(Diverges) else Scan(h, nx.a, zero, fuel - 1)
    else Ok(t)
  }

  /** `removeLast()`: "Empty List" when the size is 0; otherwise the tail's
      element is taken and overwritten with `zero`, the node before the first
      `zero` after the head becomes the tail with a null `next`, and the size
      drops by one. The old tail cell is not deleted. */
  function RemoveLast<E(==)>(l: List<E>, zero: E): (r: Result<Removed<E>>)
    requires Closed(l)
    ensures r == Err(EmptyList) <==> l.size == 0
    ensures r.Ok? ==> Closed(r.value.rest) && r.value.rest.size == l.size - 1
  {
    if l.size == 0 then Err(EmptyList)
    else if l.tail.Null? then Err(NullDereference)
    else
      var e := l.heap[l.tail.a].elem;
      var heap := SetElem(l.heap, l.tail.a, zero);
      if l.head.Null? then Err(NullDereference)
      else match Scan(heap, l.head.a, zero, |heap|)
        case Err(err) => Err(err)
        case Ok(t) =>
          Ok(Removed(e, l.(heap := SetNext(heap, t, Null), tail := Addr(t), size := l.size - 1)))
  }

  /** `toArray()`: an array of `m_size + 1` slots filled by walking from the
      head until a null pointer; the last slot is never written, and `unset`
      stands for whatever it holds. */
  method ToArray<E>(l: List<E>, unset: E) returns (tab: seq<E>)
    requires Valid(l)
    ensures |tab| == l.size + 1
    ensures tab[..l.size] == Contents(l)
  {
    ghost var spine := Spine(l);
    tab := seq(l.size + 1, _ => unset);
    var temp := l.head;
    var i := 0;
    while temp != Null
      invariant 0 <= i <= l.size
      invariant |tab| == l.size + 1
      invariant temp == if i < l.size then Addr(spine[i]) else Null
      invariant tab[..i] == Contents(l)[..i]
      decreases l.size - i
    {
      tab := tab[i := l.heap[temp.a].elem];
      temp := l.heap[temp.a].next;
      i := i + 1;
    }
  }
}
