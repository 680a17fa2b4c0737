# Doubly-linked lists of arduino-utils, modelled in Dafny

The `collections` namespace of arduino-utils has two header-only
doubly-linked lists. Each list keeps only a pointer to its head node, and
each node links to its successor and its predecessor.

* `collections/list.h` is the **value/cursor** variant. A node (`ListIter`)
  stores a copy of its element and is also the cursor that callers receive
  from `get`, `first` and `last`. They pass it back to `insertBefore` and
  `insertAfter`. A lookup that fails answers a shared sentinel cursor,
  `List::empty`. `remove` finds the first node whose element compares
  equal.
* `collections/List.h` is the **owning** variant. A node (`ListItem`) holds a
  pointer to its element and deletes the element in its destructor.
  Elements are found by pointer identity. Every lookup answers an element
  pointer, or `nullptr`.

Both variants count with `uint8_t`, so `size` wraps at 256 and `get` takes
an index below 256.

The project has three modules:

* `ListSpec` (`list_spec.dfy`) is the abstract view shared by both lists.
  A list is the sequence of its elements, head first. It defines `Find` (the
  linear search every operation starts with), `RemoveFirst`, `Successor`
  and `Predecessor`, and proves their properties. Those properties include
  that removing is the inverse of inserting, and that stepping forward
  and stepping back are inverse.
* `CursorList` (`cursor_list.dfy`) models `list.h` as classes over mutable
  nodes. It has a ghost chain `nodes` and a footprint `Repr`. `Valid()` is
  the chain invariant: `first` is the head, every `next` and `prev` is the
  neighbour in `nodes`, and no node repeats. Every corrected mutating method
  preserves `Valid()` and states its effect on `Elems()`, the element
  sequence. Every query method states its answer in terms of `Elems()` or
  `nodes`.
* `OwningList` (`owning_list.dfy`) models `List.h` in the same way. The
  type parameter `T` stands for the element pointer type `TItem*`, and its
  `==` compares addresses. A `nullptr` answer for a missing element is `None`;
  elements are taken to be non-null (see "## Left out").

Some paths in the source break the chain. Those operations are modelled as
they evidently should behave, and the model uses the corrected versions.
Each defect is also kept as an `...AsWritten` method that does exactly what
the source does. A small client method then exhibits the broken chain on a
concrete list. See "## Findings".

## Model

| member | source | states |
|---|---|---|
| ListSpec.Find | collections/list.h:150-154 | the search answers the first position holding the element, or the length when there is none; no earlier position holds it |
| ListSpec.FindAbsent | collections/list.h:156-158 | the search runs off the end exactly when the element does not occur |
| ListSpec.FindDistinct | collections/list.h:94-98 | in a chain without repeated nodes, searching for the node at i stops at i |
| ListSpec.RemoveFirst | collections/list.h:150-169 | removal leaves the list unchanged when the element is absent, and otherwise makes it exactly one shorter |
| ListSpec.RemoveFirstShifts | collections/list.h:160-166 | after removal, the elements before the removed one keep their positions and those after it move up by one |
| ListSpec.RemoveFirstMultiset | collections/List.h:98-117 | removal takes away exactly one occurrence of the element, if there is one, and nothing else |
| ListSpec.RemoveFirstGone | collections/List.h:108-116 | an element held at most once no longer occurs after its removal |
| ListSpec.RemoveFirstIdempotent | collections/list.h:150-169 | removing an element held at most once a second time changes nothing |
| ListSpec.RemoveAfterInsert | collections/list.h:84-117 | removing `x` right after inserting it at k, with no `x` before k, gives back the original list; appending is the case k = length |
| ListSpec.RemoveAfterDuplicate | collections/List.h:72-96 | removing `x` right after inserting a second copy behind its first occurrence gives back the original list |
| ListSpec.SuccessorDefined | collections/List.h:168-184 | there is a next element exactly when the element occurs before the last position |
| ListSpec.Predecessor | collections/List.h:186-201 | there is a previous element exactly when the element occurs and is not the head |
| ListSpec.SuccessorPredecessor | collections/List.h:168-201 | in a list without repeats, `y` is the next of `x` exactly when `x` is the previous of `y` |
| CursorList.Iter.constructor | collections/list.h:20-23 | a new node holds the given element, has no links and is not the sentinel |
| CursorList.Iter.Sentinel | collections/list.h:25-28 | the sentinel cursor is marked empty and has no links |
| CursorList.Iter.Value | collections/list.h:39-41 | the element held by the cursor's node |
| CursorList.List.constructor | collections/list.h:57-60 | a new list is valid and empty, answers the given sentinel for failed lookups, and its footprint is fresh, so it never includes the sentinel |
| CursorList.List.Add | collections/list.h:72-82 | the elements become the old elements followed by `x`; the old nodes keep their positions and one node is added at the end; the head is new only when the list was empty; the chain stays valid |
| CursorList.List.InsertBefore | collections/list.h:84-117 | an empty list becomes `[x]`; if `c` is not a node of the chain nothing changes; otherwise `x` is spliced in just before `c`, every other node keeps its relative place, and the head changes exactly when `c` was the head |
| CursorList.List.LinkBefore | collections/list.h:105-116 | the new node sits between the nodes at k-1 and k in the chain, becomes the head when k = 0, and the chain stays valid |
| CursorList.List.InsertAfter | collections/list.h:119-148 | an empty list becomes `[x]`; if `c` is not a node of the chain nothing changes; otherwise `x` is spliced in just after `c`, every other node keeps its relative place, and the head is kept |
| CursorList.List.LinkAfter | collections/list.h:140-147 | the new node sits between the node at k and its old successor, and the chain stays valid |
| CursorList.List.Remove | collections/list.h:150-169 | the elements become `RemoveFirst` of the old ones; only the node of the first match leaves the chain, and the others keep their order; nothing changes when `x` is absent; the chain stays valid |
| CursorList.List.Unlink | collections/list.h:160-168 | the node at k leaves the chain, its neighbours are joined, and the chain stays valid |
| CursorList.List.Size | collections/list.h:171-180 | the count is the length modulo 256, which is the exact length below 256 |
| CursorList.List.Get | collections/list.h:182-193 | below the length it answers the node at `index`, which holds the element at `index`; otherwise it answers the sentinel; the sentinel is answered exactly when `index` is at or past the end |
| CursorList.List.First | collections/list.h:195-201 | the sentinel exactly when the list is empty, otherwise the head, which has no predecessor and holds the first element |
| CursorList.List.Last | collections/list.h:203-210 | the sentinel exactly when the list is empty, otherwise the tail, which has no successor and holds the last element |
| CursorList.List.GetLastItemPtr | collections/list.h:213-228 | null exactly when the list is empty, otherwise the last node of the chain, whose `next` is null |
| CursorList.List.InsertBeforeAsWritten | collections/list.h:84-117 | as the source does it: with the target at k >= 2 the new node is linked after the node at k-2, so the node at k-1 drops out of the forward chain; with the target at k = 1 the new node is reachable only backwards from the target; at k = 0 it becomes the head |
| CursorList.List.RemoveAsWritten | collections/list.h:150-169 | as the source does it: the neighbours of the first match are joined, no other link changes, and `first` never moves |
| CursorList.InsertBeforeLosesNode | collections/list.h:94-98 | on 1, 2, 3, the source's `insertBefore(9, cursor of 3)` leaves a forward walk of 1, 9, 3 |
| CursorList.RemoveHeadKeepsIt | collections/list.h:160-168 | on 1, 2, the source's `remove(1)` leaves `first` at the removed node; without `delete` in the model, a forward walk from it gives 1, 2 |
| OwningList.ListItem.constructor | collections/List.h:20-26 | a new node holds the given element pointer and the given links |
| OwningList.List.constructor | collections/List.h:46-49 | a new list is valid and empty |
| OwningList.List.Add | collections/List.h:61-70 | the elements become the old elements followed by `p`; the old nodes keep their positions and one node is added at the end; the head is new only when the list was empty; the chain stays valid |
| OwningList.List.InsertAfter | collections/List.h:72-96 | an empty list becomes `[p]`; if no node holds `p` nothing changes; otherwise a second node holding `p` is spliced in just after the first one, every other node keeps its relative place, and the head is kept |
| OwningList.List.LinkAfter | collections/List.h:91-95 | the new node, holding the same element as the node at k, sits between that node and its old successor, and the chain stays valid |
| OwningList.List.Remove | collections/List.h:98-117 | the elements become `RemoveFirst` of the old ones; only the node of the first match leaves the chain, and the others keep their order; nothing changes when `p` is absent; a `p` held at most once is gone afterwards; the chain stays valid |
| OwningList.List.Unlink | collections/List.h:108-116 | the node at k leaves the chain, its neighbours are joined, and the chain stays valid |
| OwningList.List.Size | collections/List.h:119-128 | the count is the length modulo 256, which is the exact length below 256 |
| OwningList.List.Get | collections/List.h:130-141 | an element exactly when `index` is below the length, and then the element at `index` |
| OwningList.List.First | collections/List.h:143-149 | an element exactly when the list is non-empty, and then the first element |
| OwningList.List.Last | collections/List.h:151-166 | an element exactly when the list is non-empty, and then the last element |
| OwningList.List.LastNode | collections/List.h:152-163 | null exactly when the list is empty, otherwise the last node of the chain, whose `next` is null |
| OwningList.List.Next | collections/List.h:168-184 | the answer is `Successor` of the elements |
| OwningList.List.Prev | collections/List.h:186-201 | the answer is `Predecessor` of the elements |
| OwningList.List.InsertAfterAsWritten | collections/List.h:72-96 | as the source does it: forward links are spliced, but the new node's `prev` is the node itself and the old successor's `prev` still names the matched node; no other link changes |
| OwningList.List.RemoveAsWritten | collections/List.h:98-117 | as the source does it: the neighbours of the first match are joined, no other link changes, and `first` never moves |
| OwningList.InsertAfterBreaksBackLinks | collections/List.h:91-95 | on 1, 2, the source's `insertAfter(1)` leaves a backward walk from the tail of 2, 1, and a new node whose `prev` is itself |
| OwningList.RemoveHeadKeepsIt | collections/List.h:108-116 | on 1, 2, the source's `remove(1)` leaves `first` at the removed node; without `delete` in the model, a forward walk from it gives 1, 2 |

## Left out

- Destructors (`~List` in both files, `~ListItem` in `List.h`) and `delete`: Dafny's heap has no deallocation. The model cannot show memory release, leaks or dangling pointers.
- Leaked allocations: `insertBefore`/`insertAfter` in `list.h` allocate `newItem` before the empty check, and on the not-found path the new node's `prev` is set, but nothing links to it. In `List.h`, `insertAfter`'s not-found path builds a node that never enters the chain. These nodes are never reachable, so the corrected methods do not allocate them.
- Double ownership: after `List.h`'s `insertAfter`, two nodes own the same element, which the destructors would delete twice. This is left out together with deallocation.
- `ListIter::next` and `ListIter::prev` (`list.h`, lines 31-37) do not compile: they build a `ListIter` from three arguments and dereference the element. Their intent cannot be read off reliably, so they are left out.
- Code in `List.h` that does not compile as written (`new ItemPtr(...)`, and `ItemPtr last = last();` where `last()` answers an element pointer) is modelled by its evident intent: a new `ListItem`, and a walk to the tail node.
- The sentinel `List::empty` is one static object per element type. The model passes a sentinel to each list's constructor, so it does not force all lists of one type to share the same sentinel.
- The three `ListItem` constructors of `List.h` are one constructor in the model, with null for the links the shorter overloads leave out.
- The null test after the tail walks in `getLastItemPtr` and `last` can never succeed, so the model has no branch for it.
- The `#define uint8_t unsigned char` of `list.h` and the `<cstdint>` include of `List.h` are both the byte type `Byte` (0..255). In C++ a wider argument is converted to `uint8_t` at the call site (`get(300)` is `get(44)`). The model leaves that conversion to the caller.
- OwningList.List.Get, OwningList.List.First, OwningList.List.Last, OwningList.List.Next, OwningList.List.Prev: element pointers are taken to be non-null. The source also accepts `add(nullptr)`. Once a null element is stored, these lookups answer `nullptr` for it, and a caller cannot tell that apart from a miss. The model answers `Some` of the stored value instead.
- The `...AsWritten` methods do not restore the chain invariant, so their contracts describe individual links rather than `Valid()` and `Elems()`.
- Allocation failure and concurrent use are not modelled.

## Findings

| source | as written | input that shows it | evidently intended | confidence | as-written member | corrected member |
|---|---|---|---|---|---|---|
| collections/list.h:94-98 | the search loop sets `prev = current->mPrev`, so `prev` ends two nodes before the target | list 1, 2, 3 and `insertBefore(9, cursor of 3)`: a forward walk then gives 1, 9, 3, and the 2 is lost | `prev = current`, giving 1, 2, 9, 3 | not executed | CursorList.InsertBeforeLosesNode | CursorList.List.InsertBefore |
| collections/list.h:160-168 | `remove` never moves `mFirst`, so removing the head leaves `mFirst` at the deleted node | list 1, 2 and `remove(1)`: `mFirst` dangles at the deleted node of 1 (the model has no `delete`, so its walk from `first` shows 1, 2) | move `mFirst` to the successor when the head is removed, leaving 2 | not executed | CursorList.RemoveHeadKeepsIt | CursorList.List.Remove |
| collections/List.h:108-116 | the same head defect in the owning variant's `remove` | list 1, 2 and `remove(1)`: `mFirst` dangles at the deleted node, whose element has been deleted too (the model has no `delete`, so its walk from `first` shows 1, 2) | move `mFirst` to the successor, leaving 2 | not executed | OwningList.RemoveHeadKeepsIt | OwningList.List.Remove |
| collections/List.h:91-95 | after `current->mNext = newItem`, the test `current->mNext != nullptr` always holds, and `current->mNext->mPrev = newItem` sets the new node's `prev` to itself | list 1, 2 and `insertAfter(1)`: a backward walk from the tail gives 2, 1, and the new node's `prev` is itself | relink the old successor's `prev` to the new node, giving 2, 1, 1 backwards | not executed | OwningList.InsertAfterBreaksBackLinks | OwningList.List.InsertAfter |
