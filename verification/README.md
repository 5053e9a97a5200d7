# LinkedList&lt;E&gt; — a verified model

This project models the generic singly linked list `LinkedList<E>` of the
CPPWrappers library (`Include/Ds/LinkedList.h`) in Dafny, and proves what
each of its operations does.

The list object is three fields: `m_head`, `m_tail` and `m_size`. They point
into a heap of `Node<E>` cells. Each cell holds an element and a `next`
pointer. The model keeps that heap explicit:

- `Nodes` (nodes.dfy) holds the cells, pointers and the node setters used by
  the list. `Path` walks `next` pointers. `IsChain` describes a chain in
  closed form. The two are proved to agree (`PathIsChain`).
- `LinkedList` (linked_list.dfy) holds the list object and its operations.
  They are pure functions, plus one method for `toArray`. `Closed` is memory
  safety: every pointer names an allocated cell. Every operation preserves
  it. `Valid` is the representation invariant: exactly `m_size` distinct,
  undeleted nodes are reachable from `m_head`, `m_tail` is the last of them,
  and the last node's `next` is null. `Contents` is the abstract value: the
  elements from head to tail, as a `seq<E>`.
- `ListLemmas` (list_lemmas.dfy) states each operation's effect on
  `Contents` and on `Valid`.
- `Defects` (defects.dfy) states the inputs on which the code as written
  breaks its own invariant.
- `Fixed` (fixed.dfy) holds corrected `removeFirst` and `removeLast`. It
  proves that any sequence of `insertTop`, `insertLast` and the corrected
  removals behaves like the same operations on a plain `seq<E>`. `Matches`
  states what "behaves like" means: both fail or both succeed, the only
  failure is "Empty List", and a success is a valid list with the abstract
  contents.

Modelling choices:

- `delete` takes a cell out of the `live` set. The cell stays in the heap, so
  a dangling pointer can still be read and written. This is how the stale
  tail misbehaves in practice.
- `new Node` takes the next unused address.
- The `throw string("Empty List")` becomes `Err(EmptyList)`. Functional
  updates leave the original list untouched, so an error changes nothing.
- Following a null pointer becomes `Err(NullDereference)`. In C++ this is
  undefined behaviour.
- The loop in `removeLast` is `Scan`. A walk that takes more steps than
  there are cells must revisit a cell. Cell contents do not change during
  the walk, so such a walk would never stop; the model reports it as
  `Err(Diverges)`.
- The literal `0` that `removeLast` writes and compares against is the
  parameter `zero`.
- The slot `m_size` of the array from `toArray` is never written. The
  parameter `unset` stands for whatever it holds.

## Model

| member | source | states |
|---|---|---|
| Nodes.SetElem | Include/Ds/LinkedList.h:135 | `setElem` changes only the element of that one cell; every other cell and the heap's domain stay as they were |
| Nodes.SetNext | Include/Ds/LinkedList.h:82 | `setNext` changes only the `next` pointer of that one cell; every other cell and the heap's domain stay as they were |
| Nodes.PathIsChain | Include/Ds/LinkedList.h:53-55 | walking `m_size` next-pointers from the head yields a sequence of cells exactly when that sequence is a linked chain from the head (both directions) |
| Nodes.PathPrefix | Include/Ds/LinkedList.h:53-55 | a walk of `m` steps from the head sees the first `m` cells of any longer walk |
| Nodes.DistinctWithinHeap | Include/Ds/LinkedList.h:136-139 | a chain of distinct cells is no longer than the heap, which bounds any scan that terminates |
| LinkedList.Contents | Include/Ds/LinkedList.h:53-55 | the abstract contents of a valid list have exactly `m_size` elements |
| LinkedList.ValidFromChain | Include/Ds/LinkedList.h:53-55 | a distinct, undeleted chain of `m_size` cells from the head that ends in `m_tail` with null `next` makes the list valid, with that chain as its nodes |
| LinkedList.Empty | Include/Ds/LinkedList.h:60-63 | the constructed list is valid and its contents are empty |
| LinkedList.InsertTop | Include/Ds/LinkedList.h:65-74 | `insertTop` keeps every pointer on an allocated cell |
| LinkedList.InsertLast | Include/Ds/LinkedList.h:75-93 | `insertLast` keeps every pointer on an allocated cell, on any list, broken ones included |
| LinkedList.GetSize | Include/Ds/LinkedList.h:94-98 | on a valid list `getSize` is the number of elements |
| LinkedList.GetHead | Include/Ds/LinkedList.h:100-106 | "Empty List" is reported exactly when `m_size` is 0; on a non-empty valid list the result is the first element |
| LinkedList.GetTail | Include/Ds/LinkedList.h:108-114 | "Empty List" is reported exactly when `m_size` is 0; on a non-empty valid list the result is the last element |
| LinkedList.RemoveFirst | Include/Ds/LinkedList.h:116-127 | "Empty List" is reported exactly when `m_size` is 0; on success memory safety holds and the size drops by one |
| LinkedList.Scan | Include/Ds/LinkedList.h:136-139 | when the scan stops, the node it stops at has a successor that holds `zero`; it never reports "Empty List" |
| LinkedList.RemoveLast | Include/Ds/LinkedList.h:129-145 | "Empty List" is reported exactly when `m_size` is 0; on success memory safety holds and the size drops by one |
| LinkedList.ToArray | Include/Ds/LinkedList.h:147-161 | on a valid list, the array has `m_size + 1` slots and its first `m_size` slots are the contents in head-to-tail order |
| ListLemmas.InsertTopCorrect | Include/Ds/LinkedList.h:65-74 | on a valid list, `insertTop(e)` gives a valid list with contents `[e] + old`, one more element, `e` at the head; the tail is the new node if the list was empty and unchanged otherwise |
| ListLemmas.InsertLastCorrect | Include/Ds/LinkedList.h:75-93 | on a valid list, `insertLast(e)` gives a valid list with contents `old + [e]`, one more element, `e` at the tail; on an empty list head and tail are both the new node |
| ListLemmas.RemoveFirstCorrect | Include/Ds/LinkedList.h:116-127 | on a non-empty valid list, `removeFirst` returns `old[0]` and leaves `old[1..]` reachable with one fewer element; with more than one element the result is valid; with exactly one, the head is null and `m_tail` still names the deleted node |
| ListLemmas.DropFirst | Include/Ds/LinkedList.h:122-126 | moving `m_head` to the old head's `next` and deleting the old head leaves the remaining nodes reachable in order; with more than one of them the list is valid with exactly those nodes |
| ListLemmas.ScanFinds | Include/Ds/LinkedList.h:138-139 | along a chain, the scan stops at the node before the first later node holding `zero`, provided such a node exists within the fuel |
| ListLemmas.ScanAfterOverwrite | Include/Ds/LinkedList.h:134-139 | after the tail's element is overwritten with `zero`, the scan from the head stops at the node before the first position after the head that holds `zero` |
| ListLemmas.RemoveLastStopsAt | Include/Ds/LinkedList.h:129-145 | `removeLast` returns the old last element and makes the node before the first later `zero` the tail with a null `next`, and the size drops by one |
| ListLemmas.ChainCutAt | Include/Ds/LinkedList.h:133-144 | the same cut stated for a list given by its chain of nodes: the old tail's element is returned, the node before the first later `zero` becomes the tail with a null `next` |
| ListLemmas.RemoveLastCorrect | Include/Ds/LinkedList.h:129-145 | on a valid list of two or more with no `zero` at positions 1 to size-2, `removeLast` returns the last element and leaves a valid list with contents `old[..size-1]` whose tail is the new last element |
| ListLemmas.CutAtLastIsValid | Include/Ds/LinkedList.h:141-143 | when the scan stops at the node before the tail, the list left behind is valid with all nodes but the last and their elements |
| Defects.RemoveFirstLeavesStaleTail | Include/Ds/LinkedList.h:116-127 | emptying a one-element list with `removeFirst` gives size 0 and a null head, but `m_tail` names the deleted node, so the list is not valid |
| Defects.InsertLastAfterEmptying | Include/Ds/LinkedList.h:76-92 | `insertLast(e)` after that links the new node after the deleted one; the head stays null while the size becomes 1, `getHead` follows a null pointer, and the list is not valid |
| Defects.RemoveLastSingletonFaults | Include/Ds/LinkedList.h:136-139 | `removeLast` on a one-element valid list follows a null pointer |
| Defects.RemoveLastTruncatesAtZero | Include/Ds/LinkedList.h:129-145 | when some element at position k, with 1 <= k <= size-2, equals `zero`, `removeLast` returns the last element and drops the size by one only, but leaves only the first k elements reachable, so the list is not valid |
| Defects.TruncatedAt | Include/Ds/LinkedList.h:141-143 | when the cut happens at node k-1 with k below size-1, the first k nodes stay reachable with their elements and end in a null `next`, and the list is not valid |
| ListLemmas.CutKeepsPrefix | Include/Ds/LinkedList.h:135-142 | after the tail element is overwritten and node k-1 gets a null `next`, the first k nodes are still reachable from the head, still hold the first k elements, and end there |
| Defects.NoEarlyNull | Include/Ds/LinkedList.h:53-55 | in a valid list every node before the last has a non-null `next` |
| Defects.CutListIsInvalid | Include/Ds/LinkedList.h:53-55 | a list whose walk from the head hits a null `next` before `m_size` nodes is not valid |
| Fixed.RemoveFirstFixed | Include/Ds/LinkedList.h:116-127 | the corrected `removeFirst` reports "Empty List" exactly when the size is 0 and otherwise keeps memory safety and drops the size by one |
| Fixed.ScanTo | Include/Ds/LinkedList.h:136-139 | the corrected scan, comparing pointers, stops only at a node whose `next` is the target cell |
| Fixed.RemoveLastFixed | Include/Ds/LinkedList.h:129-145 | the corrected `removeLast` reports "Empty List" exactly when the size is 0 and otherwise keeps memory safety and drops the size by one |
| Fixed.RemoveFirstFixedCorrect | Include/Ds/LinkedList.h:116-127 | on every non-empty valid list, one element included, the corrected `removeFirst` returns `old[0]` and leaves a valid list with contents `old[1..]` made of the old nodes but the first; `getTail` then reports "Empty List" if the list became empty and the old tail otherwise |
| Fixed.ScanToFinds | Include/Ds/LinkedList.h:136-139 | along a distinct chain, the corrected scan finds the node before the last cell |
| Fixed.RemoveLastFixedCuts | Include/Ds/LinkedList.h:129-145 | on two or more elements the corrected `removeLast` cuts after the node before the tail and deletes the tail |
| Fixed.RemoveLastFixedCorrect | Include/Ds/LinkedList.h:129-145 | on every non-empty valid list, whatever its elements, the corrected `removeLast` returns the last element and leaves a valid list with contents `old[..size-1]` |
| Fixed.CutBeforeTailIsValid | Include/Ds/LinkedList.h:141-143 | cutting after the node before the tail and deleting the tail leaves a valid list whose nodes are all but the last, holding all elements but the last |
| Fixed.CutBeforeLast | Include/Ds/LinkedList.h:142 | giving the node before the last a null `next` keeps the chain of all nodes but the last, with their elements |
| Fixed.InsertTopThenRemoveFirst | Include/Ds/LinkedList.h:65-127 | `insertTop(e)` then the corrected `removeFirst` returns `e` and restores the original contents |
| Fixed.InsertLastThenRemoveLast | Include/Ds/LinkedList.h:75-145 | `insertLast(e)` then the corrected `removeLast` returns `e` and restores the original contents, even when `e` is 0 |
| Fixed.Apply | Include/Ds/LinkedList.h:65-145 | one mutating operation keeps every pointer on an allocated cell |
| Fixed.Run | Include/Ds/LinkedList.h:65-145 | a sequence of mutating operations keeps every pointer on an allocated cell |
| Fixed.ApplyRefines | Include/Ds/LinkedList.h:65-145 | on a valid list, one operation succeeds exactly when the same operation on the contents `seq` does; it then gives a valid list with the abstract result, and the only error is "Empty List" |
| Fixed.RunRefines | Include/Ds/LinkedList.h:65-145 | on a valid list, any sequence of operations succeeds exactly when the abstract run does; it then ends in a valid list whose contents are the abstract run's, and the only error is "Empty List" |
| Fixed.ConstructedListsStayValid | Include/Ds/LinkedList.h:60-145 | starting from the constructor, every successful run of operations leaves a valid list with the abstract contents |

## Left out

- `Node<E>` (Include/Ds/Node.h) is not part of this model. Only what the list
  uses is modelled: the two-field constructor, the element and `next`
  getters, and `setElem`/`setNext`.
- Memory is modelled only as far as the defects need. The allocator never
  reuses an address. A real allocator may hand the deleted tail's memory to
  the next `new Node`; the head stays null and the size 1 either way.
- Leaked nodes are not reported as errors. The old tail in `removeLast`
  stays in `live`, and so do the nodes cut off by a truncation.
- `m_size` is an unbounded integer, so 32-bit overflow of `int` after 2^31
  insertions is not modelled. A failing `new` (`std::bad_alloc`) is not
  modelled either.
- `getHead`/`getTail` return `E&`. The model returns the element's value, so
  writes through the returned reference are not modelled.
- LinkedList.ToArray: requires a valid list. On a broken list the C++ loop
  may write past the array, and that is not modelled. `toArray` on valid
  lists is covered in full.
- LinkedList.RemoveLast: the constructor of `E` from the literal `0` and
  `E`'s `operator!=` are taken to be a given value `zero` and plain
  equality. An `E` whose `!=` is not the negation of equality is not modelled.
- Faults are modelled as error results (`NullDereference`, `Diverges`). In
  C++ they are undefined behaviour (usually a crash or a hang).
- Include/Fs/File.h, Include/System/Random.h and Include/System/Types.h are
  not modelled. They are I/O wrappers or declarations whose bodies are not
  part of this model.

## Findings

| source | as written | input that shows it | evidently intended | confidence | as-written member | corrected member |
|---|---|---|---|---|---|---|
| Include/Ds/LinkedList.h:116-127 | `removeFirst` never updates `m_tail`, so emptying the list leaves it on the deleted node | a one-element list, then `removeFirst()`, then `insertLast(e)`: `m_head` is null and `m_size` is 1 | set `m_tail` to null when the list becomes empty | high; not executed | Defects.InsertLastAfterEmptying | Fixed.RemoveFirstFixedCorrect |
| Include/Ds/LinkedList.h:136-139 | the scan reads `t->getNext()->getElem()` with `t` the head, whose `next` is null on a one-element list | a one-element list, then `removeLast()` | empty the list: null head and tail | high; not executed | Defects.RemoveLastSingletonFaults | Fixed.RemoveLastFixedCorrect |
| Include/Ds/LinkedList.h:135-143 | the node before the tail is found by looking for an element equal to 0, not by pointer | the list 1, 0, 2, 3 then `removeLast()`: returns 3, `m_size` becomes 3, only the element 1 stays reachable | find the node whose `next` is `m_tail` | high; not executed | Defects.RemoveLastTruncatesAtZero | Fixed.RemoveLastFixedCorrect |
