/**
 The states in which `LinkedList<E>` as written breaks its own invariant:
 `removeFirst` emptying the list leaves `m_tail` on a deleted node, a later
 `insertLast` then builds a list whose head is null, and `removeLast` faults
 on one element and truncates at a middle element equal to 0.
 */
module Defects {
  import opened Nodes
  import opened LinkedList
  import opened ListLemmas

  /** Emptying a list with `removeFirst` gives size 0 and a null head, but a
      tail that still names the deleted node: the result is not valid. */
  lemma RemoveFirstLeavesStaleTail<E>(l: List<E>)
    requires Valid(l) && l.size == 1
    ensures var r := RemoveFirst(l);
      && r.Ok?
      && r.value.rest.size == 0
      && r.value.rest.head == Null
      && r.value.rest.tail.Addr?
      && r.value.rest.tail.a !in r.value.rest.live
      && !Valid(r.value.rest)
  {
    RemoveFirstCorrect(l);
  }

  /** `insertLast(e)` after `removeFirst` emptied the list: the new node is
      hung after the deleted one, the head stays null, the size becomes 1, and
      `getHead` follows the null head. */
  lemma InsertLastAfterEmptying<E>(l: List<E>, e: E)
    requires Valid(l) && l.size == 1
    ensures var stale := RemoveFirst(l).value.rest;
      var l' := InsertLast(stale, e);
      && l'.head == Null
      && l'.size == 1
      && l'.tail.Addr?
      && l'.heap[stale.tail.a].next == l'.tail
      && stale.tail.a !in l'.live
      && GetHead(l') == Err(NullDereference)
      && GetTail(l') == Ok(e)
      && !Valid(l')
  {
    RemoveFirstCorrect(l);
  }

  /** `removeLast` on one element: the scan asks for the element after the
      head, whose `next` is null. */
  lemma RemoveLastSingletonFaults<E>(l: List<E>, zero: E)
    requires Valid(l) && l.size == 1
    ensures RemoveLast(l, zero) == Err(NullDereference)
  {
    var s := Spine(l);
    assert l.head == l.tail;
  }

  /** `removeLast` on a list whose element at position `k`, strictly between
      the first and the last, is the first such to equal `zero`: the last
      element is returned and the size drops by one, but the node at
      `k - 1` becomes the tail, so only `k` nodes remain reachable and the
      result is not valid. */
  lemma RemoveLastTruncatesAtZero<E>(l: List<E>, zero: E, k: nat)
    requires Valid(l) && 1 <= k < l.size - 1
    requires Contents(l)[k] == zero
    requires forall i :: 1 <= i < k ==> Contents(l)[i] != zero
    ensures var r := RemoveLast(l, zero);
      && r.Ok?
      && r.value.elem == Contents(l)[l.size - 1]
      && r.value.rest.size == l.size - 1
      && Path(r.value.rest.heap, r.value.rest.head, k) == Some(Spine(l)[..k])
      && Elems(r.value.rest.heap, Spine(l)[..k]) == Contents(l)[..k]
      && r.value.rest.tail == Addr(Spine(l)[k - 1])
      && r.value.rest.heap[Spine(l)[k - 1]].next == Null
      && !Valid(r.value.rest)
  {
    var s := Spine(l);
    RemoveLastStopsAt(l, zero, k);
    TruncatedAt(l, s, zero, k, RemoveLast(l, zero).value.rest);
  }

  /** The list `removeLast` leaves when it stops at node `k - 1` of a chain
      `s`: its first `k` nodes hold the first `k` elements and end in a null
      `next`, while its size is larger, so it is not valid. */
  lemma TruncatedAt<E>(l: List<E>, s: seq<nat>, zero: E, k: nat, rest: List<E>)
    requires IsChain(l.heap, l.head, s) && Distinct(s) && |s| == l.size
    requires 1 <= k < |s| - 1
    requires rest == l.(heap := SetNext(SetElem(l.heap, s[l.size - 1], zero), s[k - 1], Null),
                        tail := Addr(s[k - 1]),
                        size := l.size - 1)
    ensures Path(rest.heap, rest.head, k) == Some(s[..k])
    ensures Elems(rest.heap, s[..k]) == Elems(l.heap, s)[..k]
    ensures rest.heap[s[k - 1]].next == Null
    ensures !Valid(rest)
  {
    CutKeepsPrefix(l.heap, l.head, s, l.size, zero, k);
    CutListIsInvalid(rest, k, s[..k]);
  }

  /** In a valid list, every node before the last has a non-null `next`. */
  lemma NoEarlyNull<E>(l: List<E>, m: nat)
    requires Valid(l) && 0 < m < l.size
    ensures Path(l.heap, l.head, m).Some?
    ensures var p := Path(l.heap, l.head, m).value;
      |p| == m && p[m - 1] in l.heap && l.heap[p[m - 1]].next.Addr?
  {
    var s := Spine(l);
    PathPrefix(l.heap, l.head, l.size, m);
    assert l.heap[s[m - 1]].next == Addr(s[m]);
  }

  /** A list whose walk from the head ends, after `|p|` nodes, at a null
      `next` while its size is larger is not valid. */
  lemma CutListIsInvalid<E>(l: List<E>, m: nat, p: seq<nat>)
    requires 0 < m < l.size && |p| == m
    requires Path(l.heap, l.head, m) == Some(p)
    requires p[m - 1] in l.heap && l.heap[p[m - 1]].next == Null
    ensures !Valid(l)
  {
    if Valid(l) {
      NoEarlyNull(l, m);
    }
  }
}
