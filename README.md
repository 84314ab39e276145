# Doubly-linked list with merge sort

This project models the template class `LinkedList<T>` and proves properties of the model. The class is a doubly-linked list with:
- a head pointer, a tail pointer and an element count;
- push and pop at both ends, `clear`, `front`/`back`, `size`/`empty`, `equals`, copy construction and assignment;
- ordered insertion and a sortedness check;
- `splitHalves`, `explode` and `merge`;
- two merge-sort drivers: a top-down recursive one and a bottom-up one that runs through a work queue of singleton lists.

The model has three modules:

- `Items` (items.dfy) is the element type. `Item(key, tag)` is compared by `Le` on the key alone. This makes the order that a merge or a sort gives to equal keys observable. The module also holds order and permutation facts about sequences of items.
- `SequenceModel` (sequence_model.dfy) states what each operation computes on the sequence of elements, head to tail:
  - `OrderedInsert` for insertOrdered, `Merged` for merge, `Halves` for splitHalves and `Singletons` for explode;
  - `TopDownSort` for the recursive sort;
  - `QueueSort` and `BottomUpSort` for the iterative sort.

  Its lemmas prove:
  - sortedness and permutation, including the elements a queue step keeps;
  - where an ordered insertion lands;
  - left-first tie-breaking and stability;
  - the split and explode shapes.
- `DoubleLinkedList` (linked_list.dfy) is the list itself. Class `LinkedList` has the fields `head`, `tail` and `size` over heap `Node` objects (`next`, `prev`, `data`). The ghost sequence `Nodes` lists the nodes from head to tail and `Contents` their elements. `Valid()` states the structure's invariant:
  - every node is linked both ways to its neighbour;
  - the head has no `prev` and the tail no `next`;
  - `size` equals the number of linked nodes;
  - no node occurs twice.

  In-place operations rewire the pointers and say what `Contents` becomes. Copy-and-build operations modify no existing object: they return fresh lists whose `Contents` is the matching `SequenceModel` function of their inputs. Loops that the source writes inline in one function are separate helper methods here (for example `MergeWalk`, `MoveBackToFrontTimes` and `MergeQueue` with its round `MergeFrontPair`), each with its loop invariants.

The consistency checks that throw `runtime_error` in `clear`, `popFront`, `popBack`, `equals`, `insertOrdered` and `isSorted` become proof obligations: the model proves that none of them can fire on a valid list. `front()`/`back()` on an empty list return `Err(EmptyContainer)` instead of throwing.

The recursive sort is stable (`TopDownSortStable`). The iterative sort is not. With three elements of equal key `a, b, c`, the queue merges `[a]` with `[b]` and then merges `[c]`, which is now at the front, as the left operand, so the result is `c, a, b` (`BottomUpSortNotStable`). The two drivers always produce the same key sequence (`DriversAgreeOnKeys`). The source promises no stability for either driver, so this is a property of the design, not a defect.

## Model

| member | source | states |
|---|---|---|
| DoubleLinkedList.Node.constructor | Linked-List-MergeSort/DoubleLinkedList.h:20 | a new node holds the given element and is linked to nothing |
| DoubleLinkedList.LinkedList.constructor | Linked-List-MergeSort/DoubleLinkedList.h:115 | a new list is valid, empty and made of fresh objects |
| DoubleLinkedList.LinkedList.Copy | Linked-List-MergeSort/DoubleLinkedList.h:117-119 | the copy constructor builds an independent list (fresh nodes) with the same elements in the same order |
| DoubleLinkedList.LinkedList.Size | Linked-List-MergeSort/DoubleLinkedList.h:43 | the stored count equals the number of elements linked from head to tail |
| DoubleLinkedList.LinkedList.IsEmpty | Linked-List-MergeSort/DoubleLinkedList.h:44 | a null head means exactly that the list holds no element |
| DoubleLinkedList.LinkedList.Front | Linked-List-MergeSort/DoubleLinkedList.h:46-61 | fails if and only if the list is empty; otherwise yields the first element |
| DoubleLinkedList.LinkedList.Back | Linked-List-MergeSort/DoubleLinkedList.h:63-78 | fails if and only if the list is empty; otherwise yields the last element |
| DoubleLinkedList.LinkedList.LinkFront | Linked-List-MergeSort/DoubleLinkedList.h:145-156 | linking a new node before the head (or as the only node) keeps the list valid and prepends its element |
| DoubleLinkedList.LinkedList.LinkBack | Linked-List-MergeSort/DoubleLinkedList.h:163-174 | linking a new node after the tail (or as the only node) keeps the list valid and appends its element |
| DoubleLinkedList.LinkedList.LinkBefore | Linked-List-MergeSort/DoubleLinkedList.h:290-295 | the four pointer writes that splice a new node in front of an inner node keep the list valid and insert its element at that node's index |
| DoubleLinkedList.LinkedList.PushFront | Linked-List-MergeSort/DoubleLinkedList.h:141-157 | contents become `[v] + old`, so the size grows by one and `front()` then yields `v` |
| DoubleLinkedList.LinkedList.PushBack | Linked-List-MergeSort/DoubleLinkedList.h:159-175 | contents become `old + [v]`, so the size grows by one and `back()` then yields `v` |
| DoubleLinkedList.LinkedList.PopFront | Linked-List-MergeSort/DoubleLinkedList.h:177-197 | no change on an empty list; otherwise exactly the first element is removed, and a one-element list ends with null head and tail (the size check at line 187 cannot fire) |
| DoubleLinkedList.LinkedList.PopBack | Linked-List-MergeSort/DoubleLinkedList.h:199-219 | no change on an empty list; otherwise exactly the last element is removed, and a one-element list ends with null head and tail (the size check at line 209 cannot fire) |
| DoubleLinkedList.LinkedList.Clear | Linked-List-MergeSort/DoubleLinkedList.h:86-93 | popping from the back until the head is null leaves a valid empty list whose count is 0 (the check at line 92 cannot fire) |
| DoubleLinkedList.LinkedList.Assign | Linked-List-MergeSort/DoubleLinkedList.h:121-132 | operator= leaves exactly the other list's elements, in order, in nodes none of which is shared with the other list, and the other list is not modified |
| DoubleLinkedList.LinkedList.Equals | Linked-List-MergeSort/DoubleLinkedList.h:221-243 | true if and only if both lists hold the same elements position by position (the lockstep walk never runs out on the other side, so the throw at line 233 cannot fire) |
| DoubleLinkedList.LinkedList.InsertOrdered | Linked-List-MergeSort/DoubleLinkedList.h:267-307 | contents become `OrderedInsert(old, v)`: all three cases (empty list, new head, splice after the head or append) |
| DoubleLinkedList.LinkedList.IsSorted | Linked-List-MergeSort/DoubleLinkedList.h:309-326 | true if and only if every adjacent pair is in order, and equally if and only if the contents are sorted, including for fewer than two elements (the throw at line 313 cannot fire) |
| DoubleLinkedList.LinkedList.SplitHalves | Linked-List-MergeSort/DoubleLinkedList.h:328-351 | exactly two fresh lists that share no node, the two halves of `Halves(contents)`; the receiver is unchanged |
| DoubleLinkedList.LinkedList.MoveBackToFrontTimes | Linked-List-MergeSort/DoubleLinkedList.h:340-345 | after `count` rounds the working copy keeps its first elements and the right half holds the last `count`, in order |
| DoubleLinkedList.LinkedList.MoveBackToFront | Linked-List-MergeSort/DoubleLinkedList.h:342-344 | one round moves the back element of the working copy to the front of the right half |
| DoubleLinkedList.LinkedList.Explode | Linked-List-MergeSort/DoubleLinkedList.h:353-366 | one fresh singleton list per element, in order, no two of them sharing a node; the receiver is unchanged |
| DoubleLinkedList.LinkedList.PopAllIntoSingletons | Linked-List-MergeSort/DoubleLinkedList.h:358-363 | the loop empties the working copy and yields the singleton of each of its elements, in order, each list with its own nodes |
| DoubleLinkedList.LinkedList.MoveFrontToSingleton | Linked-List-MergeSort/DoubleLinkedList.h:359-362 | one round turns the front element into a fresh singleton list and pops it |
| DoubleLinkedList.LinkedList.Merge | Linked-List-MergeSort/DoubleLinkedList.h:368-406 | a fresh list holding `Merged(this, other)`; neither operand is modified |
| DoubleLinkedList.LinkedList.MergeCopies | Linked-List-MergeSort/DoubleLinkedList.h:377-403 | when one operand is empty, a copy of the other; otherwise the two-pointer walk; either way `Merged` of the two |
| DoubleLinkedList.LinkedList.MergeWalk | Linked-List-MergeSort/DoubleLinkedList.h:385-402 | the two-pointer loop appends exactly `Merged(left, right)` to the empty result list |
| DoubleLinkedList.LinkedList.MergeChoose | Linked-List-MergeSort/DoubleLinkedList.h:386-401 | each step emits the next element of the merge (left on `<=`, or the side not yet spent) and advances exactly one cursor |
| DoubleLinkedList.LinkedList.MergeSort | Linked-List-MergeSort/DoubleLinkedList.h:408-412 | mergeSort gives the same result as mergeSortRecursive (`TopDownSort`) |
| DoubleLinkedList.LinkedList.MergeSortRecursive | Linked-List-MergeSort/DoubleLinkedList.h:414-428 | a fresh list holding `TopDownSort(contents)`: a copy below two elements, else the merge of the recursively sorted halves |
| DoubleLinkedList.LinkedList.SortHalvesAndMerge | Linked-List-MergeSort/DoubleLinkedList.h:420-427 | the sorted left half merged with the sorted right half |
| DoubleLinkedList.LinkedList.MergeSortIterative | Linked-List-MergeSort/DoubleLinkedList.h:430-448 | a fresh list holding `BottomUpSort(contents)`: a copy below two elements, else the work-queue merge of the singletons |
| DoubleLinkedList.LinkedList.MergeQueue | Linked-List-MergeSort/DoubleLinkedList.h:436-447 | the queue loop ends with one fresh list holding `QueueSort` of the initial runs; each round shortens the queue by one |
| DoubleLinkedList.LinkedList.MergeFrontPair | Linked-List-MergeSort/DoubleLinkedList.h:439-445 | one round pops the two front lists, merges them with the first as the left operand, and queues the fresh merged list at the back |
| SequenceModel.OrderedInsert | Linked-List-MergeSort/DoubleLinkedList.h:267-307 | an ordered insertion adds exactly one element: length plus one, multiset plus `{v}` |
| SequenceModel.OrderedInsertAt | Linked-List-MergeSort/DoubleLinkedList.h:281-305 | `v` lands immediately before the first element `e` with `v <= e`, ahead of all equal elements, or at the tail when there is none |
| SequenceModel.OrderedInsertSorted | Linked-List-MergeSort/DoubleLinkedList.h:267-307 | inserting into a sorted list keeps it sorted |
| Items.AdjacentSorted | Linked-List-MergeSort/DoubleLinkedList.h:315-325 | checking every adjacent pair, as isSorted's walk does, is equivalent to the whole list being sorted |
| SequenceModel.Merged | Linked-List-MergeSort/DoubleLinkedList.h:368-406 | the merge's length is the sum of the lengths and its multiset is the union of the operands' |
| SequenceModel.MergedSorted | Linked-List-MergeSort/DoubleLinkedList.h:385-402 | merging two sorted lists gives a sorted list |
| SequenceModel.MergedStable | Linked-List-MergeSort/DoubleLinkedList.h:394-397 | for sorted operands, ties go to the left operand first: for every key, the merge holds the left operand's elements with that key, in order, followed by the right operand's |
| SequenceModel.MergeFromIsMerged | Linked-List-MergeSort/DoubleLinkedList.h:385-402 | the index walk the loop performs from any pair of cursors produces the merge of the two unwalked suffixes |
| SequenceModel.Halves | Linked-List-MergeSort/DoubleLinkedList.h:334-345 | left half followed by right half is the original, and the right half has `size / 2` elements (so below two elements: the whole list and an empty half) |
| SequenceModel.Singletons | Linked-List-MergeSort/DoubleLinkedList.h:358-363 | explode yields as many lists as elements, list `i` holding exactly element `i` |
| SequenceModel.FlattenSingletons | Linked-List-MergeSort/DoubleLinkedList.h:353-366 | concatenating explode's lists gives back the original list |
| SequenceModel.TopDownSort | Linked-List-MergeSort/DoubleLinkedList.h:414-428 | the recursive sort is a permutation, and returns lists of fewer than two elements unchanged |
| SequenceModel.TopDownSortSorted | Linked-List-MergeSort/DoubleLinkedList.h:414-428 | the recursive sort's result is sorted |
| SequenceModel.TopDownSortStable | Linked-List-MergeSort/DoubleLinkedList.h:420-427 | the recursive sort keeps elements with equal keys in their original order |
| SequenceModel.QueueStep | Linked-List-MergeSort/DoubleLinkedList.h:438-446 | one round of the work queue shortens it by one and keeps the multiset of all queued elements |
| SequenceModel.QueueSort | Linked-List-MergeSort/DoubleLinkedList.h:438-447 | the work-queue loop ends with one run holding exactly the elements of all queued runs |
| SequenceModel.QueueSortCorrect | Linked-List-MergeSort/DoubleLinkedList.h:438-447 | a queue of sorted runs ends as one sorted run holding exactly the queued elements |
| SequenceModel.BottomUpSort | Linked-List-MergeSort/DoubleLinkedList.h:432-434 | the iterative sort returns lists of fewer than two elements unchanged |
| SequenceModel.BottomUpSortCorrect | Linked-List-MergeSort/DoubleLinkedList.h:430-448 | the iterative sort's result is a sorted permutation of the input |
| SequenceModel.DriversAgreeOnKeys | Linked-List-MergeSort/DoubleLinkedList.h:408-448 | both sort drivers yield the same key sequence; they can differ only in how they order equal keys |
| SequenceModel.BottomUpSortNotStable | Linked-List-MergeSort/DoubleLinkedList.h:438-446 | the iterative sort turns three equal-key elements `a, b, c` into `c, a, b`, so it is not stable |

## Left out

- `print` and `operator<<`: a debug rendering written to an output stream; there is no I/O in the model.
- `getHeadPtr`/`getTailPtr`: they hand raw node pointers to callers and promise nothing about them.
- The copy constructor and assignment of `Node`: they copy pointers shallowly, and the list never uses them.
- `new`, `delete`, the destructor and allocation failure: Dafny's heap is garbage-collected. Removing a node is modelled as unlinking it and dropping it from `Repr`.
- DoubleLinkedList.LinkedList.Front: returns the element's value, not a reference the caller could write through. The same holds for `Back`. The empty-list `runtime_error` becomes an `Err(EmptyContainer)` result.
- DoubleLinkedList.LinkedList.Size: the count is an unbounded integer. The source's `int size_` would overflow after 2^31 - 1 elements, and that is not modelled.
- DoubleLinkedList.LinkedList.Assign: requires the two lists to share no object, so self-assignment `a = a` is not modelled. The source clears the list before copying, so `a = a` would empty it.
- `operator==` and `operator!=` are `equals` and its negation, so they are not modelled as separate members; `Equals` stands for both.
- The internal consistency `runtime_error`s: these are the checks at lines 92, 187, 209, 233, 274 and 313. They are not error paths in the model; each one is proved unable to fire.
- The element type is fixed to `Item`, ordered by key. The source is a template over any `T` with `<=` and `!=`.
- The nested `LinkedList<LinkedList<T>>` returned by splitHalves and explode, and used as the work queue, is a sequence of list objects. The outer list's own nodes are not modelled.
- Loops that the source writes inline are separate helper methods here. The elements they produce, their order and the lists they touch are unchanged.
- Running-time and memory claims (O(n log n), run sizes doubling per pass) are not functional behaviour and are not modelled.
