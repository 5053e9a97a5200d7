/**
 What each operation of `LinkedList<E>` does to a valid list, stated on the
 abstract contents (a `seq<E>` from head to tail), and the representation
 invariant it keeps.
 */
module ListLemmas {
  import opened Nodes
  import opened LinkedList

  /** `insertTop(e)`: contents `[e] + old`, size up by one, `e` at the head;
      the tail becomes the new node on an empty list and is kept otherwise. */
  lemma InsertTopCorrect<E>(l: List<E>, e: E)
    requires Valid(l)
    ensures var l' := InsertTop(l, e);
      && Valid(l')
      && Contents(l') == [e] + Contents(l)
      && GetSize(l') == GetSize(l) + 1
      && GetHead(l') == Ok(e)
      && (l.size == 0 ==> l'.tail == l'.head)
      && (l.size > 0 ==> l'.tail == l.tail)
  {
    var l' := InsertTop(l, e);
    var s := Spine(l);
    var s' := [l.nextAddr] + s;
    ChainCons(l.heap, l.head, s, l.nextAddr, e);
    assert WellLinked(l', s') by {
      if l.size > 0 {
        assert s'[|s'| - 1] == s[|s| - 1];
      }
    }
    ValidFromChain(l', s');
  }

  /** `insertLast(e)`: contents `old + [e]`, size up by one, `e` at the tail;
      on an empty list head and tail are both the new node. */
  lemma InsertLastCorrect<E>(l: List<E>, e: E)
    requires Valid(l)
    ensures var l' := InsertLast(l, e);
      && Valid(l')
      && Contents(l') == Contents(l) + [e]
      && GetSize(l') == GetSize(l) + 1
      && GetTail(l') == Ok(e)
      && (l.size == 0 ==> l'.head == l'.tail)
  {
    var l' := InsertLast(l, e);
    var s := Spine(l);
    var n := l.nextAddr;
    if l.size == 0 {
      ValidFromChain(l', [n]);
    } else {
      ChainSnoc(l.heap, l.head, s, n, e);
      ValidFromChain(l', s + [n]);
    }
  }

  /** `removeFirst()` on a non-empty list: returns the first element, the
      size drops by one, and the nodes left are the old ones but the first.
      With more than one element the result is valid with contents
      `old[1..]`; with exactly one, the head is null but `m_tail` still names
      the deleted node. */
  lemma RemoveFirstCorrect<E>(l: List<E>)
    requires Valid(l) && l.size > 0
    ensures var r := RemoveFirst(l);
      && r.Ok?
      && r.value.elem == Contents(l)[0]
      && GetSize(r.value.rest) == GetSize(l) - 1
      && Path(r.value.rest.heap, r.value.rest.head, r.value.rest.size) == Some(Spine(l)[1..])
      && (l.size > 1 ==> Valid(r.value.rest) && Contents(r.value.rest) == Contents(l)[1..])
      && (l.size == 1 ==> r.value.rest.head == Null
                          && r.value.rest.tail == l.tail
                          && l.tail.a !in r.value.rest.live)
  {
    var s := Spine(l);
    assert Contents(l) == Elems(l.heap, s);
    ChainTail(l.heap, l.head, s);
    DropFirst(l, s, RemoveFirst(l).value.rest);
  }

  /** The list `removeFirst` leaves behind, for a list given by its chain of
      nodes `s`: the walk from the new head visits `s[1..]`, and with more
      than one node the list is valid with that spine. */
  lemma DropFirst<E>(l: List<E>, s: seq<nat>, rest: List<E>)
    requires Closed(l) && |s| == l.size > 0
    requires IsChain(l.heap, l.head, s) && WellLinked(l, s)
    requires rest == l.(live := l.live - {s[0]}, head := l.heap[s[0]].next, size := l.size - 1)
    ensures Path(rest.heap, rest.head, rest.size) == Some(s[1..])
    ensures l.size > 1 ==> Valid(rest) && Spine(rest) == s[1..]
  {
    ChainTail(l.heap, l.head, s);
    PathIsChain(rest.heap, rest.head, s[1..]);
    if l.size > 1 {
      assert s[|s| - 1] == s[1..][|s| - 2];
      ValidFromChain(rest, s[1..]);
    }
  }

  /** `Scan` from the `j`-th node stops at the node before the first later
      node holding `zero`, provided there is one and fuel suffices. */
  lemma {:induction false} ScanFinds<E>(h: Heap<E>, s: seq<nat>, j: nat, k: nat, zero: E, fuel: nat)
    requires LinksOk(h)
    requires 0 < k < |s| && IsChain(h, Addr(s[0]), s)
    requires j < k
    requires h[s[k]].elem == zero
    requires forall i :: j < i < k ==> h[s[i]].elem != zero
    requires fuel >= k - 1 - j
    ensures Scan(h, s[j], zero, fuel) == Ok(s[k - 1])
    decreases k - j
  {
    if j + 1 < k {
      ScanFinds(h, s, j + 1, k, zero, fuel - 1);
    }
  }

  /** The scan of `removeLast`, run along a distinct chain after its last
      element has been overwritten with `zero`, stops at the node before
      position `k` when `k` is the first position after the head holding
      `zero`. */
  lemma ScanAfterOverwrite<E>(h: Heap<E>, s: seq<nat>, zero: E, k: nat)
    requires LinksOk(h)
    requires 1 <= k < |s| && IsChain(h, Addr(s[0]), s) && Distinct(s)
    requires k == |s| - 1 || h[s[k]].elem == zero
    requires forall i :: 1 <= i < k ==> h[s[i]].elem != zero
    ensures var h1 := SetElem(h, s[|s| - 1], zero);
      Scan(h1, s[0], zero, |h1|) == Ok(s[k - 1])
  {
    var last := s[|s| - 1];
    var h1 := SetElem(h, last, zero);
    ChainFrame(h, h1, Addr(s[0]), s);
    forall i | 0 < i < k
      ensures h1[s[i]].elem != zero
    {
      assert s[i] != last;
    }
    assert h1[s[k]].elem == zero by {
      if k < |s| - 1 {
        assert s[k] != last;
      }
    }
    DistinctWithinHeap(h1, s);
    ScanFinds(h1, s, 0, k, zero, |h1|);
  }

  /** Where `removeLast` cuts: with no `zero` at positions 1 to `k - 1`,
      and `zero` at `k` (or `k` the last position, whose element has just
      been overwritten with `zero`), the node at `k - 1` becomes the tail. */
  lemma RemoveLastStopsAt<E>(l: List<E>, zero: E, k: nat)
    requires Valid(l) && 1 <= k < l.size
    requires k == l.size - 1 || Contents(l)[k] == zero
    requires forall i :: 1 <= i < k ==> Contents(l)[i] != zero
    ensures var s := Spine(l);
      RemoveLast(l, zero)
        == Ok(Removed(Contents(l)[l.size - 1],
                      l.(heap := SetNext(SetElem(l.heap, s[l.size - 1], zero), s[k - 1], Null),
                         tail := Addr(s[k - 1]),
                         size := l.size - 1)))
  {
    var s := Spine(l);
    assert Contents(l) == Elems(l.heap, s);
    ChainCutAt(l, s, zero, k);
  }

  /** `RemoveLastStopsAt` for a list given by its chain of nodes. */
  lemma ChainCutAt<E>(l: List<E>, s: seq<nat>, zero: E, k: nat)
    requires Closed(l) && IsChain(l.heap, l.head, s) && WellLinked(l, s) && |s| == l.size
    requires 1 <= k < l.size
    requires k == l.size - 1 || l.heap[s[k]].elem == zero
    requires forall i :: 1 <= i < k ==> l.heap[s[i]].elem != zero
    ensures RemoveLast(l, zero)
        == Ok(Removed(l.heap[s[l.size - 1]].elem,
                      l.(heap := SetNext(SetElem(l.heap, s[l.size - 1], zero), s[k - 1], Null),
                         tail := Addr(s[k - 1]),
                         size := l.size - 1)))
  {
    assert l.tail == Addr(s[|s| - 1]);
    ScanAfterOverwrite(l.heap, s, zero, k);
  }

  /** After the last element of a distinct chain is overwritten and the node
      at `k - 1` gets a null `next`, the first `k` nodes still form a chain,
      still hold the first `k` elements, and end in a null `next`. */
  lemma CutKeepsPrefix<E>(h: Heap<E>, p: Ptr, s: seq<nat>, n: nat, zero: E, k: nat)
    requires IsChain(h, p, s) && Distinct(s) && n == |s| && 1 <= k < n
    ensures var h' := SetNext(SetElem(h, s[n - 1], zero), s[k - 1], Null);
      && IsChain(h', p, s[..k])
      && Path(h', p, k) == Some(s[..k])
      && Elems(h', s[..k]) == Elems(h, s)[..k]
      && h'[s[k - 1]].next == Null
  {
    var last := s[n - 1];
    var h' := SetNext(SetElem(h, last, zero), s[k - 1], Null);
    var q := s[..k];
    ChainPrefix(h, p, s, k);
    assert forall i :: 0 <= i < |q| ==> q[i] != last;
    ChainFrame(h, h', p, q);
    PathIsChain(h', p, q);
    ElemsFrame(h, h', q);
  }

  /** `removeLast()` on a list of at least two elements, none of them `zero`
      at positions 1 to size-2: returns the last element, contents
      `old[..size-1]`, the tail is the new last node with a null `next`, and
      the size drops by one. */
  lemma RemoveLastCorrect<E>(l: List<E>, zero: E)
    requires Valid(l) && l.size >= 2
    requires forall i :: 1 <= i < l.size - 1 ==> Contents(l)[i] != zero
    ensures var r := RemoveLast(l, zero);
      && r.Ok?
      && r.value.elem == Contents(l)[l.size - 1]
      && GetSize(r.value.rest) == GetSize(l) - 1
      && Valid(r.value.rest)
      && Contents(r.value.rest) == Contents(l)[..l.size - 1]
      && GetTail(r.value.rest) == Ok(Contents(l)[l.size - 2])
  {
    var s := Spine(l);
    RemoveLastStopsAt(l, zero, l.size - 1);
    assert Contents(l) == Elems(l.heap, s);
    CutAtLastIsValid(l, s, zero, l.size - 1, RemoveLast(l, zero).value.rest);
  }

  /** The list `removeLast` leaves when it stops at the node before the tail
      of a list given by its chain of nodes `s`: valid, with all nodes of
      `s` but the last and their elements. */
  lemma CutAtLastIsValid<E>(l: List<E>, s: seq<nat>, zero: E, k: nat, rest: List<E>)
    requires Closed(l) && IsChain(l.heap, l.head, s) && WellLinked(l, s)
    requires |s| == l.size >= 2 && k == l.size - 1
    requires rest == l.(heap := SetNext(SetElem(l.heap, s[l.size - 1], zero), s[k - 1], Null),
                        tail := Addr(s[k - 1]),
                        size := l.size - 1)
    ensures Valid(rest) && Spine(rest) == s[..k]
    ensures Contents(rest) == Elems(l.heap, s)[..k]
  {
    CutKeepsPrefix(l.heap, l.head, s, l.size, zero, k);
    ChainPrefix(l.heap, l.head, s, k);
    ValidFromChain(rest, s[..k]);
  }
}
