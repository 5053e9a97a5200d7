/**
 Corrected `removeFirst` and `removeLast` for `LinkedList<E>`, and the list
 they give together with `insertTop` and `insertLast`: any sequence of these
 operations on a valid list behaves as the same operations on a `seq<E>`.
 */
module Fixed {
  import opened Nodes
  import opened LinkedList
  import opened ListLemmas

  /** `removeFirst` that also resets `m_tail` to null when the list becomes
      empty. */
  function RemoveFirstFixed<E>(l: List<E>): (r: Result<Removed<E>>)
    requires Closed(l)
    ensures r == Err(EmptyList) <==> l.size == 0
    ensures r.Ok? ==> Closed(r.value.rest) && r.value.rest.size == l.size - 1
  {
    match RemoveFirst(l)
    case Err(err) => Err(err)
    case Ok(Removed(e, rest)) =>
      Ok(Removed(e, if rest.size == 0 then rest.(tail := Null) else rest))
  }

  /** The corrected scan: from `t`, move along `next` until the node whose
      `next` is the cell `target`, comparing pointers rather than elements. */
  function ScanTo<E>(h: Heap<E>, t: nat, target: nat, fuel: nat): (r: Result<nat>)
    requires t in h
    requires LinksOk(h)
    ensures r.Ok? ==> r.value in h && h[r.value].next == Addr(target)
    ensures r.Err? ==> r.error != EmptyList
    decreases fuel
  {
    var nx := h[t].next;
    if nx.Null? then Err(NullDereference)
    else if nx.a == target then Ok(t)
    else if fuel == 0 then Err(Diverges)
    else ScanTo(h, nx.a, target, fuel - 1)
  }

  /** `removeLast` that empties a one-element list, finds the node before the
      tail by pointer, and deletes the old tail. */
  function RemoveLastFixed<E>(l: List<E>): (r: Result<Removed<E>>)
    requires Closed(l)
    ensures r == Err(EmptyList) <==> l.size == 0
    ensures r.Ok? ==> Closed(r.value.rest) && r.value.rest.size == l.size - 1
  {
    if l.size == 0 then Err(EmptyList)
    else if l.tail.Null? then Err(NullDereference)
    else
      var last := l.tail.a;
      var e := l.heap[last].elem;
      if l.head == l.tail then
        Ok(Removed(e, l.(live := l.live - {last}, head := Null, tail := Null, size := l.size - 1)))
      else if l.head.Null? then Err(NullDereference)
      else match ScanTo(l.heap, l.head.a, last, |l.heap|)
        case Err(err) => Err(err)
        case Ok(t) =>
          Ok(Removed(e, l.(heap := SetNext(l.heap, t, Null), live := l.live - {last},
                           tail := Addr(t), size := l.size - 1)))
  }

  /** The corrected `removeFirst` keeps the invariant on every non-empty
      valid list, one element included: it returns `old[0]` and leaves
      `old[1..]`. */
  lemma RemoveFirstFixedCorrect<E>(l: List<E>)
    requires Valid(l) && l.size > 0
    ensures var r := RemoveFirstFixed(l);
      && r.Ok?
      && r.value.elem == Contents(l)[0]
      && Valid(r.value.rest)
      && Contents(r.value.rest) == Contents(l)[1..]
      && Spine(r.value.rest) == Spine(l)[1..]
      && GetTail(r.value.rest) == (if l.size == 1 then Err(EmptyList) else GetTail(l))
  {
    RemoveFirstCorrect(l);
    var rest := RemoveFirstFixed(l).value.rest;
    if l.size == 1 {
      ValidFromChain(rest, []);
    }
  }

  /** `ScanTo` from the `j`-th node of a distinct chain, looking for its last
      cell, stops at the node before it. */
  lemma {:induction false} ScanToFinds<E>(h: Heap<E>, s: seq<nat>, j: nat, fuel: nat)
    requires LinksOk(h)
    requires 1 < |s| && IsChain(h, Addr(s[0]), s) && Distinct(s)
    requires j < |s| - 1
    requires fuel >= |s| - 2 - j
    ensures ScanTo(h, s[j], s[|s| - 1], fuel) == Ok(s[|s| - 2])
    decreases |s| - j
  {
    if j + 1 < |s| - 1 {
      ScanToFinds(h, s, j + 1, fuel - 1);
    }
  }

  /** On two or more elements the corrected `removeLast` cuts after the
      node before the tail and deletes the tail. */
  lemma RemoveLastFixedCuts<E>(l: List<E>)
    requires Valid(l) && l.size > 1
    ensures var s := Spine(l);
      RemoveLastFixed(l)
        == Ok(Removed(Contents(l)[l.size - 1],
                      l.(heap := SetNext(l.heap, s[l.size - 2], Null),
                         live := l.live - {s[l.size - 1]},
                         tail := Addr(s[l.size - 2]),
                         size := l.size - 1)))
  {
    var s := Spine(l);
    assert l.head != l.tail by {
      assert s[0] != s[|s| - 1];
    }
    DistinctWithinHeap(l.heap, s);
    ScanToFinds(l.heap, s, 0, |l.heap|);
  }

  /** The corrected `removeLast` on any non-empty valid list, whatever its
      elements: returns the last element and leaves `old[..size-1]`. */
  lemma RemoveLastFixedCorrect<E>(l: List<E>)
    requires Valid(l) && l.size > 0
    ensures var r := RemoveLastFixed(l);
      && r.Ok?
      && r.value.elem == Contents(l)[l.size - 1]
      && Valid(r.value.rest)
      && Contents(r.value.rest) == Contents(l)[..l.size - 1]
  {
    var s := Spine(l);
    if l.size == 1 {
      assert l.head == l.tail;
      ValidFromChain(RemoveLastFixed(l).value.rest, []);
    } else {
      RemoveLastFixedCuts(l);
      assert Contents(l) == Elems(l.heap, s);
      CutBeforeTailIsValid(l, s, RemoveLastFixed(l).value.rest);
    }
  }

  /** Cutting a list of two or more, given by its chain of nodes `s`, after
      the node before the tail, and deleting the tail, leaves a valid list
      whose nodes are all of `s` but the last. */
  lemma CutBeforeTailIsValid<E>(l: List<E>, s: seq<nat>, rest: List<E>)
    requires Closed(l) && IsChain(l.heap, l.head, s) && WellLinked(l, s) && |s| == l.size > 1
    requires rest == l.(heap := SetNext(l.heap, s[l.size - 2], Null),
                        live := l.live - {s[l.size - 1]},
                        tail := Addr(s[l.size - 2]),
                        size := l.size - 1)
    ensures Valid(rest) && Spine(rest) == s[..l.size - 1]
    ensures Contents(rest) == Elems(l.heap, s)[..l.size - 1]
  {
    var n := l.size;
    var s' := s[..n - 1];
    CutBeforeLast(l.heap, l.head, s, n);
    assert WellLinked(rest, s') by {
      forall i | 0 <= i < |s'|
        ensures s'[i] in rest.live
      {
        assert s'[i] == s[i] && s[i] != s[n - 1];
      }
    }
    ValidFromChain(rest, s');
  }

  /** Giving the node before the last of a distinct chain a null `next`
      leaves the chain of all nodes but the last, with their elements. */
  lemma CutBeforeLast<E>(h: Heap<E>, p: Ptr, s: seq<nat>, n: nat)
    requires IsChain(h, p, s) && Distinct(s) && n == |s| > 1
    ensures var h' := SetNext(h, s[n - 2], Null);
      && IsChain(h', p, s[..n - 1])
      && Elems(h', s[..n - 1]) == Elems(h, s)[..n - 1]
  {
    var t := s[n - 2];
    var h' := SetNext(h, t, Null);
    var q := s[..n - 1];
    ChainPrefix(h, p, s, n - 1);
    assert forall i :: 0 <= i < |q| - 1 ==> q[i] != t;
    ChainFrame(h, h', p, q);
    ElemsFrame(h, h', q);
  }

  /** `insertTop` followed by the corrected `removeFirst` gives back the
      element and the original contents. */
  lemma InsertTopThenRemoveFirst<E>(l: List<E>, e: E)
    requires Valid(l)
    ensures var r := RemoveFirstFixed(InsertTop(l, e));
      r.Ok? && r.value.elem == e && Valid(r.value.rest) && Contents(r.value.rest) == Contents(l)
  {
    InsertTopCorrect(l, e);
    RemoveFirstFixedCorrect(InsertTop(l, e));
  }

  /** `insertLast` followed by the corrected `removeLast` gives back the
      element and the original contents, even when `e` is 0. */
  lemma InsertLastThenRemoveLast<E>(l: List<E>, e: E)
    requires Valid(l)
    ensures var r := RemoveLastFixed(InsertLast(l, e));
      r.Ok? && r.value.elem == e && Valid(r.value.rest) && Contents(r.value.rest) == Contents(l)
  {
    InsertLastCorrect(l, e);
    RemoveLastFixedCorrect(InsertLast(l, e));
    assert (Contents(l) + [e])[..|Contents(l)|] == Contents(l);
  }

  // ---------------------------------------------------------------------------
  // Sequences of operations, against the abstract `seq<E>`.
  // ---------------------------------------------------------------------------

  /** The mutating operations of the list. */
  datatype Op<E> = InsertTopOp(e: E) | InsertLastOp(e: E) | RemoveFirstOp | RemoveLastOp

  /** One operation on the list, with the corrected removals. */
  function Apply<E>(l: List<E>, op: Op<E>): (r: Result<List<E>>)
    requires Closed(l)
    ensures r.Ok? ==> Closed(r.value)
  {
    match op
    case InsertTopOp(e) => Ok(InsertTop(l, e))
    case InsertLastOp(e) => Ok(InsertLast(l, e))
    case RemoveFirstOp =>
      (match RemoveFirstFixed(l) case Ok(rm) => Ok(rm.rest) case Err(err) => Err(err))
    case RemoveLastOp =>
      (match RemoveLastFixed(l) case Ok(rm) => Ok(rm.rest) case Err(err) => Err(err))
  }

  /** The operations in order; the first error stops the run. */
  function Run<E>(l: List<E>, ops: seq<Op<E>>): (r: Result<List<E>>)
    requires Closed(l)
    ensures r.Ok? ==> Closed(r.value)
    decreases |ops|
  {
    if |ops| == 0 then Ok(l)
    else match Apply(l, ops[0])
      case Err(err) => Err(err)
      case Ok(l') => Run(l', ops[1..])
  }

  /** The same operation on the abstract contents; removing from an empty
      sequence has no result. */
  function AbstractApply<E>(c: seq<E>, op: Op<E>): Option<seq<E>>
  {
    match op
    case InsertTopOp(e) => Some([e] + c)
    case InsertLastOp(e) => Some(c + [e])
    case RemoveFirstOp => if |c| == 0 then None else Some(c[1..])
    case RemoveLastOp => if |c| == 0 then None else Some(c[..|c| - 1])
  }

  function AbstractRun<E>(c: seq<E>, ops: seq<Op<E>>): Option<seq<E>>
    decreases |ops|
  {
    if |ops| == 0 then Some(c)
    else match AbstractApply(c, ops[0])
      case None => None
      case Some(c') => AbstractRun(c', ops[1..])
  }

  /** A concrete outcome `r` matches an abstract outcome `a`: both fail or
      both succeed, the only failure is "Empty List", and a success is a
      valid list holding the abstract contents. */
  ghost predicate Matches<E>(r: Result<List<E>>, a: Option<seq<E>>)
  {
    && (r.Ok? <==> a.Some?)
    && (r.Err? ==> r.error == EmptyList)
    && (r.Ok? ==> Valid(r.value) && Contents(r.value) == a.value)
  }

  /** One operation on a valid list is the abstract operation on its
      contents, and the only error is "Empty List". */
  lemma ApplyRefines<E>(l: List<E>, op: Op<E>)
    requires Valid(l)
    ensures Matches(Apply(l, op), AbstractApply(Contents(l), op))
  {
    var c := Contents(l);
    match op
    case InsertTopOp(e) =>
      InsertTopCorrect(l, e);
      assert Matches(Ok(InsertTop(l, e)), Some([e] + c));
    case InsertLastOp(e) =>
      InsertLastCorrect(l, e);
      assert Matches(Ok(InsertLast(l, e)), Some(c + [e]));
    case RemoveFirstOp =>
      if l.size > 0 {
        RemoveFirstFixedCorrect(l);
        assert Matches(Ok(RemoveFirstFixed(l).value.rest), Some(c[1..]));
      }
    case RemoveLastOp =>
      if l.size > 0 {
        RemoveLastFixedCorrect(l);
        assert Matches(Ok(RemoveLastFixed(l).value.rest), Some(c[..l.size - 1]));
      }
  }

  /** Any sequence of operations on a valid list ends in a valid list whose
      contents are those of the abstract run, and fails, with "Empty List",
      exactly when the abstract run removes from an empty sequence. */
  lemma {:induction false} RunRefines<E>(l: List<E>, ops: seq<Op<E>>)
    requires Valid(l)
    ensures Matches(Run(l, ops), AbstractRun(Contents(l), ops))
    decreases |ops|
  {
    if |ops| > 0 {
      ApplyRefines(l, ops[0]);
      if Apply(l, ops[0]).Ok? {
        RunRefines(Apply(l, ops[0]).value, ops[1..]);
      }
    }
  }

  /** From the constructor, every run that succeeds leaves a valid list. */
  lemma ConstructedListsStayValid<E>(ops: seq<Op<E>>)
    ensures Matches(Run(Empty<E>(), ops), AbstractRun([], ops))
  {
    RunRefines(Empty<E>(), ops);
  }
}
