/**
 A heap of `Node<E>` cells, as `LinkedList<E>` uses them: each cell holds an
 element and a `next` pointer. Addresses are naturals; the null pointer is a
 separate constructor. A chain of cells is described two ways: by walking the
 `next` pointers (`Path`) and by a closed-form predicate (`IsChain`); the two
 are shown to agree.
 */
module Nodes {

  datatype Option<T> = None | Some(value: T)

  /** A `Node<E>*`: null, or the address of a cell. */
  datatype Ptr = Null | Addr(a: nat)

  /** `Node(elem, next)`. */
  datatype Node<E> = Node(elem: E, next: Ptr)

  /** Every cell ever allocated, by address. */
  type Heap<E> = map<nat, Node<E>>

  /** A pointer that is null or names an allocated cell. */
  predicate PtrOk<E>(h: Heap<E>, p: Ptr)
  {
    p.Null? || p.a in h
  }

  /** Every `next` pointer stored in the heap is null or names a cell. */
  predicate LinksOk<E>(h: Heap<E>)
  {
    forall a :: a in h ==> PtrOk(h, h[a].next)
  }

  /** `n->setElem(e)`: only the element of cell `a` changes. */
  function SetElem<E>(h: Heap<E>, a: nat, e: E): (h': Heap<E>)
    requires a in h
    ensures h'.Keys == h.Keys
    ensures h'[a].elem == e && h'[a].next == h[a].next
    ensures forall b :: b in h && b != a ==> h'[b] == h[b]
  {
    h[a := Node(e, h[a].next)]
  }

  /** `n->setNext(p)`: only the pointer of cell `a` changes. */
  function SetNext<E>(h: Heap<E>, a: nat, p: Ptr): (h': Heap<E>)
    requires a in h
    ensures h'.Keys == h.Keys
    ensures h'[a].elem == h[a].elem && h'[a].next == p
    ensures forall b :: b in h && b != a ==> h'[b] == h[b]
  {
    h[a := Node(h[a].elem, p)]
  }

  /** No address occurs twice. */
  predicate Distinct(s: seq<nat>)
  {
    forall i, j :: 0 <= i < j < |s| ==> s[i] != s[j]
  }

  /** The addresses of the first `n` cells met by following `next` from `p`,
      or `None` when a null or unallocated pointer comes first. */
  function Path<E>(h: Heap<E>, p: Ptr, n: nat): Option<seq<nat>>
    decreases n
  {
    if n == 0 then Some([])
    else if p.Null? || p.a !in h then None
    else match Path(h, h[p.a].next, n - 1)
      case None => None
      case Some(rest) => Some([p.a] + rest)
  }

  /** `s` is a chain starting at `p`: allocated cells, the first is `p`, and
      each cell's `next` is the following one. */
  predicate IsChain<E>(h: Heap<E>, p: Ptr, s: seq<nat>)
  {
    && (forall i :: 0 <= i < |s| ==> s[i] in h)
    && (|s| > 0 ==> p == Addr(s[0]))
    && (forall i :: 0 <= i < |s| - 1 ==> s[i] in h && h[s[i]].next == Addr(s[i + 1]))
  }

  /** The elements held by the cells of `s`, in order. */
  function Elems<E>(h: Heap<E>, s: seq<nat>): (r: seq<E>)
    requires forall i :: 0 <= i < |s| ==> s[i] in h
    ensures |r| == |s|
    ensures forall i :: 0 <= i < |s| ==> r[i] == h[s[i]].elem
  {
    if |s| == 0 then [] else [h[s[0]].elem] + Elems(h, s[1..])
  }

  /** A walk of `n` steps, when it succeeds, yields exactly `n` addresses. */
  lemma {:induction false} PathLength<E>(h: Heap<E>, p: Ptr, n: nat)
    requires Path(h, p, n).Some?
    ensures |Path(h, p, n).value| == n
    decreases n
  {
    if n > 0 {
      PathLength(h, h[p.a].next, n - 1);
    }
  }

  /** Walking the pointers and the closed-form chain agree, both ways. */
  lemma {:induction false} PathIsChain<E>(h: Heap<E>, p: Ptr, s: seq<nat>)
    ensures Path(h, p, |s|) == Some(s) <==> IsChain(h, p, s)
    decreases |s|
  {
    if |s| > 0 {
      PathIsChain(h, if p.Addr? && p.a in h then h[p.a].next else Null, s[1..]);
      if IsChain(h, p, s) {
        assert IsChain(h, h[p.a].next, s[1..]) by {
          forall i | 0 <= i < |s[1..]| - 1
            ensures h[s[1..][i]].next == Addr(s[1..][i + 1])
          {
            assert h[s[i + 1]].next == Addr(s[i + 2]);
          }
        }
        assert s == [s[0]] + s[1..];
      }
      if Path(h, p, |s|) == Some(s) {
        var rest := Path(h, h[p.a].next, |s| - 1);
        assert rest.Some? && [p.a] + rest.value == s;
        assert rest.value == s[1..];
        assert IsChain(h, h[p.a].next, s[1..]);
        forall i | 0 <= i < |s| - 1
          ensures h[s[i]].next == Addr(s[i + 1])
        {
          if i > 0 {
            assert s[i] == s[1..][i - 1];
          }
        }
      }
    }
  }

  /** A shorter walk from the same pointer sees a prefix of a longer one. */
  lemma {:induction false} PathPrefix<E>(h: Heap<E>, p: Ptr, n: nat, m: nat)
    requires m <= n
    requires Path(h, p, n).Some?
    ensures Path(h, p, m).Some?
    ensures |Path(h, p, n).value| == n
    ensures Path(h, p, m).value == Path(h, p, n).value[..m]
    decreases m
  {
    PathLength(h, p, n);
    if m > 0 {
      PathPrefix(h, h[p.a].next, n - 1, m - 1);
    }
  }

  /** A new cell in front of a chain, pointing at its start, extends it. */
  lemma ChainCons<E>(h: Heap<E>, p: Ptr, s: seq<nat>, a: nat, e: E)
    requires IsChain(h, p, s) && a !in h
    ensures IsChain(h[a := Node(e, p)], Addr(a), [a] + s)
    ensures Distinct(s) ==> Distinct([a] + s)
    ensures Elems(h[a := Node(e, p)], [a] + s) == [e] + Elems(h, s)
  {
    var h' := h[a := Node(e, p)];
    var s' := [a] + s;
    forall i | 0 <= i < |s'| - 1
      ensures h'[s'[i]].next == Addr(s'[i + 1])
    {
      if i > 0 {
        assert s'[i] == s[i - 1];
      }
    }
    ElemsFrame(h, h', s);
    assert Elems(h', s') == [e] + Elems(h', s) by {
      assert s'[1..] == s;
    }
  }

  /** A new cell linked after the last cell of a non-empty chain extends it
      at the end. */
  lemma ChainSnoc<E>(h: Heap<E>, p: Ptr, s: seq<nat>, a: nat, e: E)
    requires IsChain(h, p, s) && |s| > 0 && Distinct(s) && a !in h
    ensures var h' := SetNext(h[a := Node(e, Null)], s[|s| - 1], Addr(a));
      && IsChain(h', p, s + [a])
      && Distinct(s + [a])
      && Elems(h', s + [a]) == Elems(h, s) + [e]
  {
    var last := s[|s| - 1];
    var h' := SetNext(h[a := Node(e, Null)], last, Addr(a));
    var s' := s + [a];
    forall i | 0 <= i < |s'| - 1
      ensures s'[i] in h' && h'[s'[i]].next == Addr(s'[i + 1])
    {
      assert s'[i] == s[i];
      if i < |s| - 1 {
        assert s[i] != last;
      }
    }
    assert IsChain(h', p, s');
    forall i | 0 <= i < |s'|
      ensures Elems(h', s')[i] == (Elems(h, s) + [e])[i]
    {
      if i < |s| {
        assert s'[i] == s[i];
      }
    }
  }

  /** Dropping the first cell of a chain leaves a chain from its `next`. */
  lemma ChainTail<E>(h: Heap<E>, p: Ptr, s: seq<nat>)
    requires IsChain(h, p, s) && |s| > 0
    ensures IsChain(h, h[s[0]].next, s[1..])
    ensures Elems(h, s[1..]) == Elems(h, s)[1..]
    ensures Distinct(s) ==> Distinct(s[1..]) && s[0] !in s[1..]
  {
    var s' := s[1..];
    forall i | 0 <= i < |s'| - 1
      ensures h[s'[i]].next == Addr(s'[i + 1])
    {
      assert s'[i] == s[i + 1];
    }
  }

  /** The first `k` cells of a chain form a chain with the first `k`
      elements. */
  lemma ChainPrefix<E>(h: Heap<E>, p: Ptr, s: seq<nat>, k: nat)
    requires IsChain(h, p, s) && k <= |s|
    ensures IsChain(h, p, s[..k])
    ensures Elems(h, s[..k]) == Elems(h, s)[..k]
    ensures Distinct(s) ==> Distinct(s[..k]) && forall i :: k <= i < |s| ==> s[i] !in s[..k]
  {
    var s' := s[..k];
    forall i | 0 <= i < |s'| - 1
      ensures h[s'[i]].next == Addr(s'[i + 1])
    {
      assert s'[i] == s[i];
    }
  }

  /** Elements read through cells that keep their elements are unchanged. */
  lemma ElemsFrame<E>(h: Heap<E>, h': Heap<E>, s: seq<nat>)
    requires forall i :: 0 <= i < |s| ==> s[i] in h && s[i] in h' && h'[s[i]].elem == h[s[i]].elem
    ensures Elems(h', s) == Elems(h, s)
  {
  }

  /** A chain stays a chain in a heap that keeps the `next` pointer of
      every cell of it but the last, and still holds the last cell. */
  lemma ChainFrame<E>(h: Heap<E>, h': Heap<E>, p: Ptr, s: seq<nat>)
    requires IsChain(h, p, s)
    requires forall i :: 0 <= i < |s| - 1 ==> s[i] in h' && h'[s[i]].next == h[s[i]].next
    requires |s| > 0 ==> s[|s| - 1] in h'
    ensures IsChain(h', p, s)
  {
  }

  /** The cells of a distinct sequence all lie in `k`, so there are no more of
      them than `k` has elements. */
  lemma {:induction false} DistinctWithin(s: seq<nat>, k: set<nat>)
    requires Distinct(s)
    requires forall i :: 0 <= i < |s| ==> s[i] in k
    ensures |s| <= |k|
    decreases |s|
  {
    if |s| > 0 {
      var k' := k - {s[0]};
      forall i | 0 <= i < |s[1..]|
        ensures s[1..][i] in k'
      {
        assert s[1..][i] == s[i + 1] && s[i + 1] != s[0];
      }
      DistinctWithin(s[1..], k');
    }
  }

  /** A distinct chain is no longer than the heap it lives in. */
  lemma DistinctWithinHeap<E>(h: Heap<E>, s: seq<nat>)
    requires Distinct(s)
    requires forall i :: 0 <= i < |s| ==> s[i] in h
    ensures |s| <= |h|
  {
    DistinctWithin(s, h.Keys);
    assert |h.Keys| == |h|;
  }
}
