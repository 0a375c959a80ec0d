# libeds sequential containers in Dafny

A model of three containers from libeds, a small C library of data structures:

- the binary heap of `heap.c`,
- the array stack of `stack.c`,
- the singly linked list of `llist.c`.

Each container is an immutable Dafny datatype. Its operations are functions, or methods where the C code loops.

- **Heap** (`heap.dfy`, module `BinaryHeap`). The heap holds its live items as a sequence (the first `size` slots of the C buffer), its capacity and its comparator. Insertion sifts a hole up from the first free slot, as `heap_insert` does. `heap_min` sinks the last item down from the root. Both are loops over the sequence, and their invariants carry the heap order and the multiset of items.
- **Stack** (`stack.dfy`, module `ArrayStack`). The stack holds its live slots, its capacity and its `unsigned int` flags as a `bv32`. `STACK_AUTO_EXPAND` decides whether a full stack doubles or refuses the push.
- **List** (`llist.dfy`, module `LinkedList`). Memory is a map from addresses to nodes, and address 0 is NULL. Allocating a node adds an entry and freeing it removes one. The list's contents are what a walk from `head` along `next` meets before NULL. The invariant is that this walk passes through every allocated node exactly once and ends at `tail`. It says nothing about `tail` while the list is empty, because there `tail` may name a freed node.

Module `HeapTests` (`heap_tests.dfy`) holds the comparator of `heap_test.c` and what the heap tests expect from it. Module `Order` (`order.dfy`) states what a comparator must satisfy. `cmp(a, b)` is positive when `a` has the higher order. The comparator must be a total preorder with `cmp(x, x) == 0`. Module `Wrappers` (`wrappers.dfy`) supplies `Option`. `None` stands in for the NULL that a pop or `heap_min` returns on an empty container.

Things outside the code are parameters:

- Whether `realloc` succeeded is the boolean `grown` of `BinaryHeap.Insert` and `ArrayStack.Push`.
- The address `alloc_node` returned is the parameter `a` of `LinkedList.PushBack` and `LinkedList.PushFront`. It is NULL on failure, and otherwise an address not in use.

## Model

| member | source | states |
|---|---|---|
| BinaryHeap.Left | heap.c:4 | LEFT(x) is a child whose PARENT is x |
| BinaryHeap.Right | heap.c:5 | RIGHT(x) is a child whose PARENT is x |
| BinaryHeap.Parent | heap.c:6 | PARENT(0) wraps in size_t to SIZE_MAX / 2, which is past the last slot of any buffer (a buffer of `void*` holds at most SIZE_MAX / 8 slots); for x > 0 the parent lies before x and x is its LEFT or RIGHT child |
| BinaryHeap.Create | heap.c:16-27 | a new heap is a valid empty heap bound to the given comparator |
| BinaryHeap.Clear | heap.c:29-32 | clearing leaves a valid empty heap with the same capacity and comparator, so later inserts are accepted |
| BinaryHeap.Size | heap.c:120-123 | the size never exceeds the capacity |
| BinaryHeap.RiseStart | heap.c:86-105 | before sifting up, the old heap extended by one slot meets the sift-up invariant with the hole at the end |
| BinaryHeap.RiseStep | heap.c:106-113 | moving a parent of lower order down into the hole keeps the sift-up invariant one level higher |
| BinaryHeap.RiseStop | heap.c:106-115 | once the hole is the root or its parent outranks e, storing e there yields a heap-ordered buffer |
| BinaryHeap.Insert | heap.c:84-118 | returns 0 exactly when there was room or the buffer could double; on 0 the items are the old multiset plus e and the heap order holds; on -1 nothing changes; the capacity doubles only when the heap was full |
| BinaryHeap.MustSink | heap.c:49-52 | the loop guard of heap_min: some live child of the hole outranks the sinking item, which can only hold while the hole still has a LEFT child |
| BinaryHeap.Promoted | heap.c:56-72 | the child heap_min moves up: with two live children one of them, and one with at least the order of both; in every case an index past the hole and inside the buffer |
| BinaryHeap.SinkStart | heap.c:41-45 | a heap-ordered buffer meets the sift-down invariant with the hole at the root and the last item as the one that sinks |
| BinaryHeap.SinkStep | heap.c:49-77 | the promoted child is a real child of the shrunk heap (never the last slot), lies below the hole, and promoting it keeps the sift-down invariant |
| BinaryHeap.SinkStop | heap.c:49-79 | once no child outranks the sinking item, storing it in the hole and dropping the last slot yields a heap-ordered buffer |
| BinaryHeap.RootDominates | heap.h:19-22 | in a heap-ordered buffer the root has at least the order of every item |
| BinaryHeap.RootDominatesRest | heap.h:35-41 | the root outranks every item that remains once it is removed |
| BinaryHeap.SiftDown | heap.c:41-79 | sinking the last item from the root leaves a heap-ordered buffer one slot shorter that holds every item except one occurrence of the old root |
| BinaryHeap.Min | heap.c:34-82 | on an empty heap returns None and changes nothing; otherwise returns the root, which no remaining item outranks, removes exactly one occurrence of it, shrinks the size by one, and keeps the heap order and capacity |
| BinaryHeap.DrainStep | heap_test.c:115-132 | an extracted item that outranks what is left extends a descending output, and the output still outranks the rest |
| BinaryHeap.Drain | heap_test.c:115-132 | calling heap_min while the heap is non-empty yields every item as often as it was stored, from the highest order down, and leaves an empty heap |
| BinaryHeap.InsertThenDrain | heap_test.c:164-186 | inserting any sequence into a fresh heap, with growth past the initial 128 slots, then draining gives a permutation of the input from the highest order down |
| HeapTests.SmallerFirst | heap_test.c:10-25 | test_cmp returns 1, 0 or -1, positive exactly when the first number is smaller and negative exactly when it is larger |
| HeapTests.SmallerFirstIsTotalPreorder | heap_test.c:10-25 | the test comparator, which gives the smaller number the higher order, meets the comparator contract |
| HeapTests.SmallerFirstDrainsAscending | heap_test.c:134-157 | under the test comparator a drained heap comes out in ascending numeric order |
| HeapTests.DrainAscending | heap_test.c:164-186 | inserting any numbers into a heap ordered by the test comparator, past the initial capacity, then extracting them all gives back the same numbers in ascending order |
| ArrayStack.Create | stack.c:12-22 | a new stack is valid, empty, and has the given capacity and flags |
| ArrayStack.Push | stack.c:24-50 | returns 0 exactly when there is room, or STACK_AUTO_EXPAND is set and realloc succeeded; on 0 the element is stored on top and the capacity doubles only if the stack was full; on 1 nothing changes |
| ArrayStack.Pop | stack.c:52-66 | on an empty stack returns None and changes nothing; otherwise returns the top element and leaves the rest, capacity and flags as they were |
| ArrayStack.Size | stack.c:68-71 | the position never exceeds the capacity |
| ArrayStack.Clear | stack.c:73-76 | clearing leaves a valid empty stack with the same capacity and flags |
| ArrayStack.PushThenPop | stack.c:47-58 | a successful push followed by a pop returns the pushed element and the old contents |
| ArrayStack.ClearThenPush | stack_test.c:66-71 | a cleared stack with nonzero capacity accepts a push without growing |
| ArrayStack.PushAllAppends | stack_test.c:107-113 | pushes that have room, or that may grow, all succeed and stack the elements in order |
| ArrayStack.PopAllReverses | stack_test.c:39-46 | popping as often as there are elements returns them newest first and empties the stack |
| ArrayStack.LastInFirstOut | stack_test.c:31-43 | pushing a sequence onto an empty stack and popping everything returns the sequence reversed |
| LinkedList.WalkIsLinked | llist.c:115-127 | a walk that reaches NULL follows the next links through allocated nodes |
| LinkedList.LinkedIsWalk | llist.c:115-127 | a chain of next links from p to NULL is what the walk from p returns |
| LinkedList.ValidIsLinked | llist.c:4-12 | in a valid list the nodes reachable from head are chained by next and the last one's next is NULL |
| LinkedList.ValidFrom | llist.c:4-12 | a chain from head through every allocated node, ending at tail, makes a valid list |
| LinkedList.Create | llist.c:17-25 | a new list is valid and empty with head NULL |
| LinkedList.LinkBack | llist.c:36-47 | the new node, holding e with next NULL, becomes the tail (and the head of an empty list); on a non-empty list the old tail's next names it; no other node changes |
| LinkedList.LinkBackSpec | llist.c:36-47 | linking a fresh node behind the tail (or as the only node) keeps the list valid and appends the element |
| LinkedList.PushBack | llist.c:27-50 | returns 0 exactly when allocation succeeded; on 0 the contents become the old contents plus e; on -1 nothing changes |
| LinkedList.LinkFront | llist.c:61-72 | the new node, holding e and pointing at the old head, becomes the head; the tail changes only on an empty list; no other node changes |
| LinkedList.LinkFrontSpec | llist.c:61-72 | linking a fresh node before the head keeps the list valid and prepends the element |
| LinkedList.PushFront | llist.c:52-75 | returns 0 exactly when allocation succeeded; on 0 the contents become e followed by the old contents; on -1 nothing changes |
| LinkedList.Unlink | llist.c:87-90 | the head node is freed, head moves to its next, tail stays, and every remaining node is as it was |
| LinkedList.UnlinkChain | llist.c:87-90 | after the head node is freed, the nodes behind it still form a chain of distinct allocated nodes from the new head to NULL, one per remaining allocation |
| LinkedList.UnlinkSpec | llist.c:87-90 | unlinking and freeing the head node keeps the list valid and drops the first element |
| LinkedList.Pop | llist.c:77-93 | on an empty list returns None and changes nothing; otherwise returns the first element and the contents lose it |
| LinkedList.Head | llist.c:95-98 | the head is NULL exactly when the list is empty, and otherwise a node holding the first element |
| LinkedList.Size | llist.c:115-127 | the count of nodes met walking from head to NULL equals the length of the contents |
| LinkedList.Clear | llist.c:100-113 | clearing frees every node, leaves head NULL and tail as it was, and the list is valid and empty, so later pushes work |
| LinkedList.Traverse | llist_test.c:94-106 | walking from llist_head along next until NULL meets exactly the contents, in order |
| LinkedList.PushFrontThenPop | llist_test.c:32-43 | a push at the front followed by a pop returns the pushed element and restores the old contents |
| LinkedList.PushBackKeepsFront | llist_test.c:59-70 | a push at the back of a non-empty list does not change what a pop returns, and the element ends up last |

## Left out

- `heap_destroy`, `stack_destroy` and `llist_destroy` release memory. There is no memory to release in the model.
- Allocation in `heap_create`, `stack_create` and `llist_create` is assumed to succeed. The C code uses the `malloc` result without checking it (heap.c:18-21, stack.c:14-16, llist.c:19-21).
- `alloc_node` also writes through the `malloc` result before `llist_pushb` and `llist_pushf` test it for NULL (llist.c:135-143). So a real allocation failure would crash before the -1 path. The model takes the -1 path when the address is NULL.
- Elements are an opaque type `T`. The model does not look at the pointer identity of the `void*` payloads.
- BinaryHeap.Min, ArrayStack.Pop and LinkedList.Pop: return a stored NULL element as `Some(NULL)` and an empty container as `None`. In C both come back as the same NULL (heap.c:38 and 41, stack.c:58 and 62, llist.c:84 and 87). A caller cannot tell a stored NULL from an empty container, and a loop that stops at the first NULL can stop early. `BinaryHeap.Drain` therefore loops while the heap is non-empty.
- Buffer slots at and beyond the current size are never read, so they are not modelled. `BinaryHeap.Insert` seeds the free slot with the new item before sifting. C leaves that slot uninitialised, but it is overwritten before it is read.
- The branch of `heap_min` that promotes the single child at `size - 1` (heap.c:68-72) is modelled. It never runs under the comparator contract, because that child is the sinking item itself. `BinaryHeap.SinkStep` proves this.
- BinaryHeap.Insert: does not model `size_t` overflow of `cap * 2` or of `new_cap * sizeof(void*)`. Capacities are unbounded integers, because a heap of 2^63 items cannot exist.
- ArrayStack.Push: does not model `size_t` overflow of `s->cap * 2 * sizeof(void*)`, for the same reason.
- ArrayStack.Create: requires a nonzero capacity when STACK_AUTO_EXPAND is set. With capacity 0, doubling keeps 0 and the next push writes past the buffer (stack.c:16, 29-47).
- `stack.h` documents -1 for a refused push, but `stack.c` returns 1. The model follows the code.
- `heap.h` says the comparator is always called with a tree item first and the new element second. `heap_min` also compares two tree items (heap.c:59). The model only relies on the comparator contract, so call order does not matter.
- LinkedList.Size: does not model `size_t` overflow of the counter.
- The ordered search tree (`btree_*`) and the hash map (`hmap_*`) are separate libeds modules and are not modelled here. `perf.c` is a benchmark (wall-clock timing, `rand()`, floating-point statistics) and is not modelled.
