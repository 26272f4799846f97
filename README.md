# MADE-adv-cpp core, modelled in Dafny

This project models five pieces of the C++ coursework repository MADE-adv-cpp and proves properties of the models:

- **The chunk allocator** (`chuck_allocator/allocator.cpp`), in `allocator.dfy` (module `ChunkAllocator`).
  - `MemManager<T>` keeps a list of arenas, newest first from `root`. Each arena holds an address-ordered list of chunk headers.
  - It allocates by first fit, splitting a chunk when the remainder can hold a header.
  - It frees with backward-only coalescing, shrinks a chunk in place on a partial free, and releases an arena once its free chunks cover it.
  - It reports a `(capacity, allocated)` pair.
  - `StdAllocator<T>` is the reference-counted handle over a shared manager.
  - In the model, the arena and chunk lists are sequences of records in the fields of a `MemManager` class:
    - a chunk is `Chunk(offset, size, free)`, with an explicit offset of its user bytes inside the arena;
    - an arena is `Arena(id, size, chunks)`, where `id` stands for the memory block `new[]` handed out;
    - a user pointer is `Ptr(arena id, offset)`.
  - `sizeof(ChunkNode)` is the constant `H = 32` and `sizeof(T)` is the manager's `elemSize`. `sizeof(T) * cnt` wraps modulo 2^64, as `size_t` does.
  - The pure functions `Alloc`, `Dealloc`, `SplitChunk`, `FreeChunk` and `Reclaim` specify the methods. The lemmas prove what allocation and deallocation do to the layout and to the two statistics.
- **The doubly linked list** (`list/src/list.h`, `list/src/list.cpp`), in `list.dfy` (module `LinkedList`).
  - `task::list` has two sentinel nodes, `front_` and `back_`, with the element nodes between them.
  - The model is a `List` class over `Node` objects whose `prev`/`next` links the methods update in place.
  - Ghost state (`nodes`, `contents`, `Repr`) records the chain and the values it holds. `Valid()` ties the links, `size_` and the values together.
  - Elements are `int`, so `T()` is `0`.
- **The compile-time graph search** (`hw_7_meanwhile_in_the_seventh_galaxy/third_variant/src/dfs.h`), in `dfs.dfy` (module `GraphSearch`).
  - `PathExists`, `rightDfs` and `leftDfs` are pure recursive functions over an adjacency-list graph (`seq<seq<nat>>`) and a visited vector (`seq<bool>`).
  - The lemmas prove termination and that the search agrees with reachability. They also check the answers the repository's `main.cpp` prints for its nine-vertex galaxy.
- **The matrix** (`matrix/src/matrix.cpp`), in `matrix.dfy` (module `Matrices`).
  - A `Matrix` class holds `rows`, `cols` and a row-major `array<int>`. Cells are exact integers rather than `double`.
  - The C++ exceptions become a `Result` or `Outcome` value, either `OutOfBounds` or `SizeMismatch`.
- **The vector utilities** (`vector_operations/src/vector_ops.h`), in `vector_ops.dfy` (module `VectorOps`).
  - `reverse` works in place on an array.
  - `|` and `&` work on 32-bit words.
  - `+`, `-`, unary `+`, unary `-` and `%` work on exact reals.
- **Sequence reversal**, in `sequences.dfy` (module `Sequences`): the reference definition `Reversed` that both `reverse(vector)` and `list::reverse` are proved against.

## Model

| member | source | states |
|---|---|---|
| ChunkAllocator.LayoutOrdered | chuck_allocator/allocator.cpp:47-64 | In a well-formed arena, every chunk's bytes plus the next header end before any later chunk starts, and every chunk lies inside the arena |
| ChunkAllocator.LayoutFootprint | chuck_allocator/allocator.cpp:28-64 | The chunks of a well-formed arena, headers included, take at most the arena size plus one header (an inequality, since shrinking leaves slack) |
| ChunkAllocator.ReclaimOnlyEmpty | chuck_allocator/allocator.cpp:84-107 | An arena whose free chunks' footprint reaches its size holds no allocated byte, so releasing it never frees live memory |
| ChunkAllocator.NewArena | chuck_allocator/allocator.cpp:28-45 | The arena `create_node` builds has the requested identity and size, a well-formed layout, and, for a positive size, an allocated chunk at offset 0 that the owner search recognises for `Ptr(id, 0)` |
| ChunkAllocator.Scan | chuck_allocator/allocator.cpp:66-82 | A position the nested arena/chunk walk returns passes both the arena test and the chunk test, and lies at or after the starting position |
| ChunkAllocator.ScanFirst | chuck_allocator/allocator.cpp:66-82 | No position between the start and the one returned passes both tests, and when nothing is returned no position from the start on passes them |
| ChunkAllocator.ScanFindsFirstHit | chuck_allocator/allocator.cpp:66-82 | If some position passes both tests and none before it does, the walk from the beginning returns exactly that position |
| ChunkAllocator.FirstFit | chuck_allocator/allocator.cpp:66-82 | A chunk first fit picks is free, holds at least `bytes`, and lies in an arena of at least `bytes` |
| ChunkAllocator.Owner | chuck_allocator/allocator.cpp:109-117 | A chunk the owner search picks is allocated, starts at `p`, and lies in the arena `p` names with `p` inside that arena's range |
| ChunkAllocator.FirstFitIsFirst | chuck_allocator/allocator.cpp:66-82 | First fit yields the first chunk, in arena order from `root` and address order within an arena, that is free, has at least `bytes` bytes and sits in an arena of at least `bytes`; it yields none exactly when no such chunk exists |
| ChunkAllocator.SplitChunk | chuck_allocator/allocator.cpp:47-64 | The chunks before the chosen one are unchanged, the chosen one becomes allocated at the same offset recording exactly `bytes`, and the list grows by one exactly when the chunk exceeds `bytes + H` |
| ChunkAllocator.SplitExact | chuck_allocator/allocator.cpp:47-64 | The chosen chunk becomes allocated with exactly `bytes` at the same offset. When it had more than `bytes + H`, a free chunk of `size - bytes - H` starts right after the new header; otherwise the list keeps its length. All other chunks are unchanged |
| ChunkAllocator.SplitKeepsLayout | chuck_allocator/allocator.cpp:47-64 | Taking a chunk, with or without a split, keeps the arena well-formed |
| ChunkAllocator.SplitUsed | chuck_allocator/allocator.cpp:47-64 | After taking a chunk, the arena's allocated bytes are the old total minus what the chunk held as allocated, plus `bytes` |
| ChunkAllocator.FreeChunk | chuck_allocator/allocator.cpp:117-126 | With a free predecessor, the list loses one chunk and the predecessor, still free, grows by the chunk's size plus a header; otherwise the list keeps its length and the chunk is marked free with its size unchanged |
| ChunkAllocator.FreeCoalesces | chuck_allocator/allocator.cpp:117-126 | A full free merges the chunk into a free predecessor, which grows by `size + H` while the chunk disappears; otherwise it only marks the chunk free. The successor is never merged and other chunks are unchanged |
| ChunkAllocator.FreeKeepsLayout | chuck_allocator/allocator.cpp:117-126 | A full free, coalescing or not, keeps the arena well-formed |
| ChunkAllocator.FreeUsed | chuck_allocator/allocator.cpp:117-126 | A full free lowers the arena's allocated bytes by exactly the chunk's size |
| ChunkAllocator.FreeSpaceGrows | chuck_allocator/allocator.cpp:84-92 | A full free raises the free footprint `free_node` sums by exactly the chunk's size plus one header |
| ChunkAllocator.Reclaim | chuck_allocator/allocator.cpp:93-106 | The arena is unlinked exactly when its free footprint reaches its size. Then the list loses exactly that arena and keeps the others in order |
| ChunkAllocator.Alloc | chuck_allocator/allocator.cpp:66-82 | The list grows by one arena exactly when no chunk fits. Then the new arena heads the list in front of the old ones, and the pointer is its offset 0 |
| ChunkAllocator.Dealloc | chuck_allocator/allocator.cpp:109-139 | The arena list never grows. A pointer with no owning allocated chunk, or a byte count larger than that chunk, changes nothing |
| ChunkAllocator.DeallocChunk | chuck_allocator/allocator.cpp:118-130 | The arena list never grows. A count above the chunk's size changes nothing; a smaller count keeps every arena, including this one |
| ChunkAllocator.Shrunk | chuck_allocator/allocator.cpp:128-129 | Only arena `i` changes, keeping its identity and size. Its chunk `j` stays allocated and records `size - bytes` |
| ChunkAllocator.AllocAccounting | chuck_allocator/allocator.cpp:66-82 | Allocation keeps the arena list valid and raises the allocated total by exactly `bytes`. Capacity grows by `bytes` when a new arena is created and is unchanged otherwise |
| ChunkAllocator.ReuseChunk | chuck_allocator/allocator.cpp:69-74 | Taking a fitting free chunk keeps the arenas valid, adds `bytes` to the allocated total and leaves capacity alone |
| ChunkAllocator.PrependArena | chuck_allocator/allocator.cpp:28-45 | Prepending a fresh arena of `bytes` holding one allocated chunk keeps the list valid and grows both capacity and the allocated total by `bytes` |
| ChunkAllocator.ReplaceChunksAccounting | chuck_allocator/allocator.cpp:159-177 | Replacing one arena's chunk list changes the allocated total by the difference of that arena's allocated bytes, and leaves capacity alone |
| ChunkAllocator.FullFreeAccounting | chuck_allocator/allocator.cpp:117-127 | A full free followed by the arena-release check keeps the list valid, lowers the allocated total by the chunk size and never raises capacity |
| ChunkAllocator.ShrinkKeepsValid | chuck_allocator/allocator.cpp:128-129 | A partial free, which re-takes the chunk at `size - bytes`, keeps the arena list valid |
| ChunkAllocator.ShrinkAccounting | chuck_allocator/allocator.cpp:128-129 | A partial free lowers the allocated total by exactly `bytes` and leaves capacity unchanged |
| ChunkAllocator.DeallocAccounting | chuck_allocator/allocator.cpp:109-139 | Deallocation keeps the arena list valid. It lowers the allocated total by `bytes` when it finds an allocated chunk at `p` of at least `bytes`, leaves it unchanged otherwise, and never raises capacity |
| ChunkAllocator.AllocatedChunkIsOwner | chuck_allocator/allocator.cpp:109-117 | For a positive byte count, the pointer allocation returns is found again by deallocation's owner search, at the chunk first fit chose, or at the new arena's only chunk |
| ChunkAllocator.AllocDeallocRoundTrip | chuck_allocator/allocator.cpp:66-139 | For a positive byte count, deallocating what was just allocated, with the same byte count, restores the allocated total. When allocation had to create an arena, the arena list returns exactly to what it was |
| ChunkAllocator.NewArenaReclaimed | chuck_allocator/allocator.cpp:28-45 | An arena created for a positive allocation is reclaimed whole when that allocation is freed, so the list is as before |
| ChunkAllocator.ZeroByteArenaStays | chuck_allocator/allocator.cpp:28-45 | `allocate(0)` on an empty manager creates a 0-byte arena. Its chunk is never found by the owner search, so freeing it changes nothing, and the next `allocate(0)` adds a second arena |
| ChunkAllocator.MemManager.constructor | chuck_allocator/allocator.cpp:25-26 | A new manager has no arena and a count of 1 |
| ChunkAllocator.MemManager.CreateNode | chuck_allocator/allocator.cpp:28-45 | Prepends an arena of exactly `bytes` with one allocated chunk at offset 0, returns a pointer to it and keeps the manager valid |
| ChunkAllocator.MemManager.GetChunk | chuck_allocator/allocator.cpp:47-64 | Replaces the arena's chunks by their split at the chosen chunk and returns the chunk's start; the manager stays valid |
| ChunkAllocator.MemManager.FindAllocate | chuck_allocator/allocator.cpp:66-82 | Its two nested loops produce exactly the arenas and pointer of first-fit allocation, drawing a new arena identity only when no chunk fits |
| ChunkAllocator.MemManager.FreeNode | chuck_allocator/allocator.cpp:84-107 | Its loop sums the free footprint. The arena is unlinked exactly when that sum reaches the arena's size, and the list is otherwise unchanged |
| ChunkAllocator.MemManager.ReleaseChunk | chuck_allocator/allocator.cpp:119-126 | Marks the chunk free and coalesces it backwards, as `FreeChunk` specifies |
| ChunkAllocator.MemManager.DeallocateChunk | chuck_allocator/allocator.cpp:118-130 | An exact size frees and may release the arena. A smaller size shrinks the chunk. A larger size changes nothing |
| ChunkAllocator.MemManager.FindDeallocate | chuck_allocator/allocator.cpp:109-139 | Its search produces exactly `Dealloc`: the owning arena and allocated chunk at `p` are found or nothing changes |
| ChunkAllocator.MemManager.Allocate | chuck_allocator/allocator.cpp:142 | Requests `sizeof(T) * cnt` bytes by first fit, and the allocated total grows by that amount |
| ChunkAllocator.RequestBytes | chuck_allocator/allocator.cpp:142-146 | The byte count `sizeof(T) * cnt` as a `size_t`: never above `SIZE_MAX`, and equal to the true product whenever that product fits |
| ChunkAllocator.MemManager.Deallocate | chuck_allocator/allocator.cpp:144-146 | Releases `sizeof(T) * cnt` bytes at `p` as `Dealloc` specifies |
| ChunkAllocator.MemManager.CountIncrement | chuck_allocator/allocator.cpp:148 | Raises the count by one and touches nothing else |
| ChunkAllocator.MemManager.CountDecrement | chuck_allocator/allocator.cpp:150-155 | Lowers a positive count by one and never goes below zero |
| ChunkAllocator.MemManager.GetAllocated | chuck_allocator/allocator.cpp:159-177 | Its nested loops return the sum of arena sizes and the sum of the sizes of allocated chunks |
| ChunkAllocator.MemManager.Dispose | chuck_allocator/allocator.cpp:179-189 | At count 0 every arena is released; otherwise the count drops by one and the arenas stay |
| ChunkAllocator.StdAllocator.constructor | chuck_allocator/allocator.cpp:204-207 | A new handle has no manager |
| ChunkAllocator.StdAllocator.Copy | chuck_allocator/allocator.cpp:209-214 | A copy shares the source's manager and raises its count by one, leaving its arenas unchanged |
| ChunkAllocator.StdAllocator.Destroy | chuck_allocator/allocator.cpp:215-222 | Decrements the manager's count and releases the manager exactly when the count then reads 0 |
| ChunkAllocator.StdAllocator.Allocate | chuck_allocator/allocator.cpp:229-234 | Creates a manager with count 1 on first use, then allocates through it by first fit |
| ChunkAllocator.StdAllocator.Deallocate | chuck_allocator/allocator.cpp:236-238 | Deallocates through the manager as `Dealloc` specifies |
| ChunkAllocator.StdAllocator.GetAllocated | chuck_allocator/allocator.cpp:240-245 | Without a manager the answer is (0, 0); otherwise it is the manager's capacity and allocated totals |
| ChunkAllocator.StdAllocator.MaxSize | chuck_allocator/allocator.cpp:247-249 | The largest element count whose byte size fits in a 64-bit `size_t` |
| ChunkAllocator.StdAllocator.Assign | chuck_allocator/allocator.cpp:258-269 | With differing managers, gives up the old one (count down, or released at count 0) and shares the other one with its count up by one. With the same manager nothing changes |
| ChunkAllocator.StdAllocator.EqualAsWritten | chuck_allocator/allocator.cpp:271-273 | As written, two handles compare equal only when they are different handles |
| ChunkAllocator.EqualAsWrittenNotReflexive | chuck_allocator/allocator.cpp:271-273 | The comparison as written finds no handle equal to itself |
| ChunkAllocator.EqualIsEquivalence | chuck_allocator/allocator.cpp:271-273 | The intended comparison (same manager) is reflexive, symmetric and transitive, and is the negation of the one written |
| ChunkAllocator.DriverStates | chuck_allocator/allocator.cpp:280-303 | The arena lists the driver's opening steps pass through: one 512-byte arena, then split at 256, then shrunk to 128 |
| ChunkAllocator.DriverTotals | chuck_allocator/allocator.cpp:280-303 | The statistics those states give: (512, 512), (512, 256) and (512, 128) |
| ChunkAllocator.DriverFirstHandle | chuck_allocator/allocator.cpp:280-293 | On a fresh handle of 4-byte elements, allocating 128 and freeing 64 reports (0, 0), (512, 512) and (512, 256) |
| ChunkAllocator.DriverOpening | chuck_allocator/allocator.cpp:280-303 | The whole opening: the copied handle shares the manager, and freeing 32 more through it reports (512, 256) and then (512, 128) |
| LinkedList.Node.constructor | list/src/list.h:13 | A new node has no neighbours |
| LinkedList.Node.Append | list/src/list.h:14-19 | Appending null changes nothing. Appending a node links the two both ways and touches no other link |
| LinkedList.List.Empty | list/src/list.cpp:229-231 | The empty list: size 0 and the two sentinels linked to each other |
| LinkedList.List.Filled | list/src/list.cpp:240-244 | `count` copies of `value`, and size `count` |
| LinkedList.List.Copy | list/src/list.cpp:253-260 | A list of fresh nodes holding the same values as the source |
| LinkedList.List.PushBackAll | list/src/list.cpp:256-259 | Its loop appends all of the other list's values in order |
| LinkedList.List.Move | list/src/list.cpp:263-271 | The new list takes over the other's nodes and values, and the other is left empty and valid |
| LinkedList.List.Adopt | list/src/list.cpp:266-268 | The run taken from the other list hangs between this list's sentinels. The list is valid, with exactly those nodes and values, and owns them |
| LinkedList.List.InitLink | list/src/list.cpp:589-596 | Sets the size. When the size is 0, it links the sentinels to each other; otherwise it leaves the links alone |
| LinkedList.List.Reset | list/src/list.cpp:589-596 | Re-initialising to size 0 yields a valid empty list that owns only its sentinels |
| LinkedList.List.Create | list/src/list.cpp:598-615 | Builds a linked run of `count` fresh, distinct nodes holding `value`, with its head and tail (null when `count` is 0) |
| LinkedList.List.LinkRun | list/src/list.cpp:620-621 | Links a run between two adjacent nodes so the whole chain is linked both ways |
| LinkedList.List.InsertRange | list/src/list.cpp:617-630 | Places a run of nodes just before `pos`, at index `k`. Nodes and values are spliced in at `k` and the list stays valid |
| LinkedList.List.Insert | list/src/list.cpp:308-322 | Puts exactly one new element immediately before `pos`, returns its node, and raises the size by one |
| LinkedList.List.InsertCount | list/src/list.cpp:324-331 | Puts `count` copies of `value` immediately before `pos` and returns the first new node |
| LinkedList.List.Unlink | list/src/list.cpp:333-341 | Linking a node's two neighbours to each other leaves a chain without that node, linked both ways |
| LinkedList.List.Erase | list/src/list.cpp:333-341 | Removes exactly the element at `pos`, returns the following node and lowers the size by one |
| LinkedList.List.EraseRange | list/src/list.cpp:343-350 | Removes exactly the `n` elements from `first` up to `last`, returns `last`, and keeps the rest in order |
| LinkedList.List.EraseStep | list/src/list.cpp:346-348 | One turn of the loop: erasing `head` and moving to the next node removes one more element of the range, keeps the rest in order, and never grows the footprint |
| LinkedList.List.PushBack | list/src/list.cpp:352-360 | Appends `value` |
| LinkedList.List.PushFront | list/src/list.cpp:367-375 | Prepends `value` |
| LinkedList.List.PopBack | list/src/list.cpp:362-365 | Drops the last element |
| LinkedList.List.PopFront | list/src/list.cpp:377-380 | Drops the first element |
| LinkedList.List.Clear | list/src/list.cpp:428-433 | Leaves a valid empty list that owns only its sentinels |
| LinkedList.Resized | list/src/list.cpp:435-443 | Resizing gives length `n`, keeps the old prefix, and pads with `T()` |
| LinkedList.ResizedRoundTrip | list/src/list.cpp:435-443 | Growing and then shrinking back restores the original |
| LinkedList.List.Resize | list/src/list.cpp:435-443 | Its two loops leave the values `Resized(old, count)` and the size `count` |
| LinkedList.RemoveAll | list/src/list.cpp:445-455 | Removing `v` never lengthens the sequence and leaves no `v` |
| LinkedList.RemoveAllCount | list/src/list.cpp:445-455 | Every copy of `v` is gone and every other value keeps its multiplicity |
| LinkedList.RemoveAllConcat | list/src/list.cpp:445-455 | Removal works piecewise, so the kept elements stay in their original order |
| LinkedList.RemoveAllAbsent | list/src/list.cpp:445-455 | With no `v` present, `remove` changes nothing |
| LinkedList.RemoveDrop | list/src/list.cpp:449-450 | Erasing a matching node extends the processed prefix correctly |
| LinkedList.RemoveKeep | list/src/list.cpp:451-452 | Stepping past a non-matching node extends the processed prefix correctly |
| LinkedList.List.RemoveStep | list/src/list.cpp:448-454 | One turn of the `remove` loop keeps the loop state and shortens the part left to scan |
| LinkedList.List.Remove | list/src/list.cpp:445-455 | The values become `RemoveAll(old, value)`, and no node is gained |
| LinkedList.List.Swap | list/src/list.cpp:457-476 | The two lists exchange their nodes, values and sizes, and both stay valid. A list swapped with itself is unchanged |
| LinkedList.List.SwapRecords | list/src/list.cpp:459 | The sizes and recorded contents trade places |
| LinkedList.List.SwapLinks | list/src/list.cpp:461-462 | Two sentinels exchange both links, and the element chains' own links are untouched |
| LinkedList.List.Exchange | list/src/list.cpp:459-462 | After the member-wise swap, each list holds the other's elements behind its own sentinels |
| LinkedList.List.Rehang | list/src/list.cpp:464-469 | Pointing the end elements back at this list's sentinels, or relinking an empty list, makes the list valid with its values unchanged |
| LinkedList.List.RehangBoth | list/src/list.cpp:464-475 | Both lists become valid after the swap, with their values unchanged |
| LinkedList.List.Splice | list/src/list.cpp:478-486 | Inserts all of the other list's values before `pos` in order and leaves the other list empty. A list spliced into itself ends up empty and valid |
| LinkedList.List.FlipLinks | list/src/list.cpp:494-498 | The loop swaps every element's `next` and `prev` |
| LinkedList.List.FlipStep | list/src/list.cpp:495-497 | One turn flips one more node |
| LinkedList.List.Relink | list/src/list.cpp:500-503 | Re-attaching the flipped run to the sentinels links the reversed chain both ways |
| LinkedList.ReversedNodes | list/src/list.cpp:488-504 | Reversing the node sequence keeps it duplicate-free with the same nodes, and the values reverse with it |
| LinkedList.List.Reverse | list/src/list.cpp:488-504 | The nodes and the values become their reverses, and the footprint is unchanged |
| LinkedList.MergeSeq | list/src/list.cpp:522-533 | The merge has length `|a| + |b|` and is a permutation of both inputs together |
| LinkedList.MergeSorted | list/src/list.cpp:506-547 | Merging two sorted sequences gives a sorted one |
| LinkedList.List.Pick | list/src/list.cpp:524-533 | Takes the smaller head node, preferring this list's on ties, and advances that cursor |
| LinkedList.List.Choose | list/src/list.cpp:524-533 | The node the turn takes is appended to the merged run, is not yet in it, and its cursor advances by one; the value half of the loop invariant (`Tally`) holds again |
| LinkedList.List.Link | list/src/list.cpp:535-539 | With no run yet the node becomes its head; otherwise it is appended to the run's last node. The run stays linked and both cursors stay valid |
| LinkedList.List.Step | list/src/list.cpp:523-541 | One turn of the merge loop: the chosen node is taken and linked, the threading and value invariants hold again, and one more node is consumed |
| LinkedList.List.Turn | list/src/list.cpp:522-541 | One turn preserves the loop invariant `Weaving` and advances the combined cursor position by one |
| LinkedList.List.Extend | list/src/list.cpp:538 | Appending an unused node keeps the merged run linked |
| LinkedList.List.Weave | list/src/list.cpp:517-542 | The merge loop threads every node of both lists, each exactly once, into one linked run holding the merged values |
| LinkedList.List.Gather | list/src/list.cpp:512-542 | The nodes of both lists form one duplicate-free run holding `MergeSeq` of the two value sequences |
| LinkedList.List.Settle | list/src/list.cpp:544-546 | Re-initialises both lists and hangs the merged run in this one, leaving the other empty |
| LinkedList.List.MergeApart | list/src/list.cpp:512-546 | For distinct lists, the values become `MergeSeq` of the two, the size is the sum, and the other list is empty |
| LinkedList.List.Merge | list/src/list.cpp:506-547 | Merging a list with itself changes nothing. Otherwise the result is as in `MergeApart` |
| LinkedList.SelectStep | list/src/list.cpp:578 | Swapping the minimum of the unsorted part into place keeps a permutation and extends the sorted prefix by one |
| LinkedList.List.MinFrom | list/src/list.cpp:570-577 | The inner loop finds the node with the smallest value from `current` to the end |
| LinkedList.List.SwapValues | list/src/list.cpp:578 | Swapping two nodes' values swaps those two entries of the value sequence |
| LinkedList.List.SelectMin | list/src/list.cpp:569-580 | One outer turn of selection sort keeps the sorted-prefix invariant |
| LinkedList.List.SortRun | list/src/list.cpp:568-580 | The run's values end up sorted and a permutation of the original |
| LinkedList.List.Sort | list/src/list.cpp:566-581 | The values are sorted ascending and a permutation of the old ones |
| GraphSearch.MarkShrinks | hw_7_meanwhile_in_the_seventh_galaxy/third_variant/src/dfs.h:26-32 | Marking an unvisited vertex lowers the number of unvisited vertices by one, which is why the search terminates |
| GraphSearch.PathExists | hw_7_meanwhile_in_the_seventh_galaxy/third_variant/src/dfs.h:14-19 | Every vertex reaches itself |
| GraphSearch.RightDfs | hw_7_meanwhile_in_the_seventh_galaxy/third_variant/src/dfs.h:21-32 | A vertex already on the path fails. An unvisited vertex that is the target succeeds |
| GraphSearch.LeftDfs | hw_7_meanwhile_in_the_seventh_galaxy/third_variant/src/dfs.h:34-48 | A success goes through one of the first `edge` edges, to a vertex not yet on the path |
| GraphSearch.LeftDfsSomeEdge | hw_7_meanwhile_in_the_seventh_galaxy/third_variant/src/dfs.h:34-48 | `leftDfs` over the first `edge` edges holds iff some of them leads, with the same visited set, to a successful `rightDfs` |
| GraphSearch.RightDfsSound | hw_7_meanwhile_in_the_seventh_galaxy/third_variant/src/dfs.h:21-32 | If the search succeeds, there is a path from `start` to `end` through unvisited vertices only |
| GraphSearch.ExtendFreePath | hw_7_meanwhile_in_the_seventh_galaxy/third_variant/src/dfs.h:28-31 | A path that avoids the visited set with `start` marked, taken from a successor of `start`, extends to a path from `start` |
| GraphSearch.RightDfsComplete | hw_7_meanwhile_in_the_seventh_galaxy/third_variant/src/dfs.h:21-48 | Whenever such a path exists, the search succeeds |
| GraphSearch.ShortenToSimple | hw_7_meanwhile_in_the_seventh_galaxy/third_variant/src/dfs.h:14-19 | Any path can be shortened to one with no repeated vertex |
| GraphSearch.PathExistsIffReachable | hw_7_meanwhile_in_the_seventh_galaxy/third_variant/src/dfs.h:14-19 | `PathExists<G, s, e>` is true exactly when `e` is reachable from `s` |
| GraphSearch.SelfReachable | hw_7_meanwhile_in_the_seventh_galaxy/third_variant/src/dfs.h:28 | Every vertex reaches itself |
| GraphSearch.GalaxyCycleClosed | hw_7_meanwhile_in_the_seventh_galaxy/third_variant/src/main.cpp:17-19 | No path leaves the cycle 6 → 7 → 8 → 6 |
| GraphSearch.GalaxyFiveToZero | hw_7_meanwhile_in_the_seventh_galaxy/third_variant/src/main.cpp:22-23 | In the galaxy graph a path from 5 to 0 exists |
| GraphSearch.GalaxySevenNotToFive | hw_7_meanwhile_in_the_seventh_galaxy/third_variant/src/main.cpp:25-26 | In the galaxy graph no path from 7 to 5 exists |
| GraphSearch.GalaxyAnswers | hw_7_meanwhile_in_the_seventh_galaxy/third_variant/src/main.cpp:9-29 | The three answers the driver prints: true, false, true |
| Matrices.Idx | matrix/src/matrix.cpp:61-74 | The row-major index `row * cols + col` of an in-bounds cell is in the buffer and decodes back to `(row, col)` |
| Matrices.IdxOnto | matrix/src/matrix.cpp:61-74 | Every buffer index is the index of some in-bounds cell |
| Matrices.Matrix.Default | matrix/src/matrix.cpp:36-39 | The default matrix is 1×1 and holds 1 |
| Matrices.Matrix.Sized | matrix/src/matrix.cpp:41-50 | `Matrix(r, c)` is the identity when `r == c` and zero otherwise |
| Matrices.Matrix.IdentityOrZero | matrix/src/matrix.cpp:44-49 | The row-by-row fill gives a fresh buffer holding the identity or zero matrix |
| Matrices.Matrix.IdentityRow | matrix/src/matrix.cpp:46-48 | Fills one row with identity or zero values and leaves the other rows alone |
| Matrices.Matrix.Copy | matrix/src/matrix.cpp:52 | The copy has the source's shape and cells, in a fresh buffer |
| Matrices.Matrix.Copied | matrix/src/matrix.cpp:22-31 | `copy_array`'s loops give a fresh buffer equal to the source |
| Matrices.Matrix.CopyRow | matrix/src/matrix.cpp:27-29 | Copies one row and leaves the other rows alone |
| Matrices.Matrix.Get | matrix/src/matrix.cpp:61-69 | Throws `OutOfBounds` iff `row >= rows` or `col >= cols`; otherwise returns that cell |
| Matrices.Matrix.InBounds | matrix/src/matrix.cpp:10-14 | `check_bound` passes only for a cell of the matrix (`row < rows` and `col < cols`), whose row-major index then lies inside the buffer |
| Matrices.Matrix.Set | matrix/src/matrix.cpp:71-74 | Throws `OutOfBounds` iff out of bounds and then changes nothing; otherwise it changes exactly that cell |
| Matrices.Matrix.Resize | matrix/src/matrix.cpp:76-91 | The new shape keeps every cell inside both old and new bounds and zeroes the rest |
| Matrices.Matrix.Resized | matrix/src/matrix.cpp:77-84 | The fill loops build a fresh buffer that is the resize of the old cells |
| Matrices.Matrix.ResizeRow | matrix/src/matrix.cpp:80-83 | Fills one row of the new buffer (old value or 0) and leaves the other rows alone |
| Matrices.ResizeRoundTrip | matrix/src/matrix.cpp:76-91 | Growing and then shrinking back restores the original cells |
| Matrices.Matrix.Transpose | matrix/src/matrix.cpp:251-258 | Swaps the dimensions, and new[j][i] equals old[i][j] |
| Matrices.Matrix.TransposeRow | matrix/src/matrix.cpp:256-257 | Writes one old row as a new column and leaves the other columns alone |
| Matrices.Matrix.Transposed | matrix/src/matrix.cpp:260-264 | Returns a fresh transposed matrix |
| Matrices.TransposeInvolution | matrix/src/matrix.cpp:251-258 | Transposing twice restores the cells |
| Matrices.TransposeKeepsDiagonal | matrix/src/matrix.cpp:266-275 | Transposing a square matrix keeps its diagonal sum, so it keeps its trace |
| Matrices.Matrix.AddAssign | matrix/src/matrix.cpp:107-114 | Throws `SizeMismatch` iff the shapes differ, and then changes nothing; otherwise it adds element-wise |
| Matrices.Matrix.SameShape | matrix/src/matrix.cpp:16-20 | `check_size` passes only for matrices of equal shape, whose buffers then have the same length |
| Matrices.Matrix.SubAssign | matrix/src/matrix.cpp:116-123 | Throws `SizeMismatch` iff the shapes differ, and then changes nothing; otherwise it subtracts element-wise |
| Matrices.Matrix.MulAssign | matrix/src/matrix.cpp:125-143 | Throws `SizeMismatch` iff `cols != a.rows`, and then changes nothing. Otherwise the result is `rows × a.cols` and, for `a` other than the receiver, the matrix product |
| Matrices.Matrix.FillProduct | matrix/src/matrix.cpp:134-140 | The loops write the product of the saved copy and `a` into every cell |
| Matrices.Matrix.FillProductRow | matrix/src/matrix.cpp:135-139 | Writes one row of the product and leaves the other rows alone |
| Matrices.Matrix.FillProductCell | matrix/src/matrix.cpp:136-138 | The innermost accumulation leaves the dot product of row `i` and column `j` in that cell, and no other cell changes |
| Matrices.ProductWithIdentity | matrix/src/matrix.cpp:125-143 | Multiplying by the identity matrix built by `Matrix(c, c)` gives the same cells back |
| Matrices.DiagonalOfIdentity | matrix/src/matrix.cpp:266-275 | The trace of the `n × n` identity is `n` |
| Matrices.Matrix.Trace | matrix/src/matrix.cpp:266-275 | Throws `SizeMismatch` iff the matrix is not square; otherwise returns the sum of its diagonal |
| Sequences.ReversedAt | vector_operations/src/vector_ops.h:112-118 | Element `k` of the reverse is element `size - 1 - k` of the original |
| Sequences.ReversedInvolution | vector_operations/src/vector_ops.h:112-118 | Reversing twice gives the original back |
| VectorOps.Reverse | vector_operations/src/vector_ops.h:112-118 | The swap loop leaves the array holding the reverse of its old contents |
| VectorOps.Or | vector_operations/src/vector_ops.h:120-126 | The length is `min(|a|, |b|)` and element `i` is `a[i] \| b[i]` |
| VectorOps.And | vector_operations/src/vector_ops.h:128-134 | The length is `min(|a|, |b|)` and element `i` is `a[i] & b[i]` |
| VectorOps.AndAbsorbsOr | vector_operations/src/vector_ops.h:120-134 | `a & (a \| b)` is `a` cut to the common length |
| VectorOps.Plus | vector_operations/src/vector_ops.h:28-31 | Unary `+` returns its argument unchanged |
| VectorOps.Add | vector_operations/src/vector_ops.h:8-16 | The length is `|a|` and element `i` is `a[i] + b[i]`, given that `b` is at least as long |
| VectorOps.Sub | vector_operations/src/vector_ops.h:18-26 | The length is `|a|` and element `i` is `a[i] - b[i]`, given that `b` is at least as long |
| VectorOps.Negate | vector_operations/src/vector_ops.h:33-40 | The length is unchanged and every element is negated |
| VectorOps.Cross | vector_operations/src/vector_ops.h:51-61 | A vector whose length is not 3 comes back unchanged; a 3-vector gives the cross product |
| VectorOps.CrossOrthogonal | vector_operations/src/vector_ops.h:51-61 | The cross product is orthogonal to both factors |

## Left out

- Console output, `main`'s use of `std::vector` and `std::string`, and the stream operators of the matrix and the vectors are I/O. Only the opening of the allocator's driver (`allocate`, `deallocate`, copy, `get_allocated`) is modelled.
- Placement `new`, `delete[]` and `reinterpret_cast` byte arithmetic become records: arena identities, chunk offsets and `H = 32` for `sizeof(ChunkNode)`. The system allocator is modelled as handing out a block with a fresh identity (`nextId`).
- `StdAllocator::construct`, `destroy` and `rebind` construct or destroy foreign objects, so they are not modelled.
- `StdAllocator::operator!=` compares a pointer with an object and does not compile as written, so it is left out.
- ChunkAllocator.MemManager.CreateNode: the system allocator of the model never fails, so `allocate` has no out-of-memory outcome: `new uint8_t[...]` throwing `std::bad_alloc` is not modelled, and every arena it creates adds `bytes` to capacity. The request `bytes + sizeof(MemNode) + sizeof(ChunkNode)` wrapping modulo 2^64 when `bytes` comes within those two headers of `SIZE_MAX` is not modelled either.
- ChunkAllocator.StdAllocator.Assign: requires both managers to be non-null when they differ, because the source dereferences both without a check.
- `MemManager`'s arena and chunk lists are sequences, not linked nodes, so their `prev`/`next` pointer updates are captured only through the sequence they spell.
- Arena release compares the free footprint with the arena's size. After a shrink has lost bytes to unrecorded slack, a fully free arena can therefore stay linked. The model keeps this behaviour and does not claim that every empty arena is released.
- LinkedList.List.Filled: requires `count >= 1`. `list(0, v)` passes a null run to `__insert`, which dereferences it.
- LinkedList.List.InsertCount: requires `count >= 1`, for the same reason.
- LinkedList.List.Remove: takes `value` by copy. The source's `remove(const T &value)` compares through a reference after each `erase`; when that reference names an element of the list (`l.remove(*l.cbegin())`), every comparison after that element's erase reads a freed node. This aliasing is not captured.
- LinkedList.List.Splice: a list spliced into itself is modelled by its outcome only (empty, valid). The element nodes the source leaves looped onto `pos` and unreachable are not tracked.
- LinkedList.List.Merge: requires that not both lists are empty, because `__insert` would then dereference a null run.
- `list(count)` is `Filled(count, 0)`, since `T()` is 0 for `int`.
- `emplace`, `emplace_back` and `emplace_front` are the same as `insert`, `push_back` and `push_front` for `int` elements.
- `unique` reads a node it has just erased, so its behaviour is undefined; it is left out.
- The counting branch of `__insert` (`count == 0`) is never reached by the callers, so it is left out.
- `operator=` (copy and move), iterators, reverse iterators, `get_allocator`, `empty`, `size` and `max_size` are plumbing or trivial accessors.
- The list's destructor and the freeing of erased nodes are memory management that the model has no counterpart for.
- ChunkAllocator.AllocatedChunkIsOwner: requires `bytes > 0`. A 0-byte arena has an empty range, so the owner test at allocator.cpp:113 never matches its chunk (ZeroByteArenaStays).
- ChunkAllocator.AllocDeallocRoundTrip: requires `bytes > 0`. For 0 bytes, `deallocate` does not find the chunk and each `allocate(0)` that finds no free chunk leaves one more arena linked (ZeroByteArenaStays).
- Matrices.Matrix.MulAssign: the product is stated only when `a` is not the receiver. With `m *= m` the source reads `a` after resizing and overwriting the receiver, so it does not compute the square.
- Matrices.Matrix.FillProduct: states the product of the saved copy and `a`, which is the true product only when `a` is not the receiver (see MulAssign).
- Matrices.Matrix.FillProductRow: same restriction as FillProduct.
- Matrices.Matrix.FillProductCell: same restriction as FillProduct.
- `Matrix::det`, `operator==` with its EPS tolerance, scalar `*`, `operator*` and `operator-`/`+` by value, `getRow` and `getColumn` are floating-point numerics or value wrappers outside this model. Matrix cells are `int`, not `double`.
- `Matrix::operator[]` checks `row > rows` (off by one), so no bounds claim is made for it.
- The vectors' dot product, `||` (collinearity) and `&&` (codirection) compare `double`s against an EPS, so they are left out. `+`, `-` and `%` use exact reals, not `double`.
- `geometry/` (double-precision geometry) and `smart_pointers/` (its implementation file is not part of this model) are outside the model.
- The template helpers `Construct`, `Set`, `Get`, `TypeAt`, `Length`, `Graph`, `Vertex` and `Edge` are not part of this model. They become sequences and indexing.

## Findings

| source | as written | input that shows it | evidently intended | confidence | as-written member | corrected member |
|---|---|---|---|---|---|---|
| chuck_allocator/allocator.cpp:271-273 | `operator==` returns `manager != other.manager` | any handle compared with itself, e.g. a handle after its first `allocate`: `h == h` is false | equal exactly when both handles share one manager | not executed | ChunkAllocator.EqualAsWrittenNotReflexive | ChunkAllocator.EqualIsEquivalence |
