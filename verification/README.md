# Verified models of a freestanding C/C++ runtime library

The runtime in `CommonLib` carries its own containers, sorting algorithms, allocator, JSON
tokenizer and machine arithmetic. This project models the parts whose correctness is hardest to see
and proves what they promise. Methods keep the form of the source: loops over arrays, fields that are
reassigned, words of 32 bits. Beside them stand plain specifications, and the proofs connect the two.

| files | what they model |
|---|---|
| `RbShape`, `RbColour`, `RbLinks`, `RbTree` | the red-black tree behind `map`: an arena of nodes with left, right, parent and colour, and the header as node 0 |
| `PoolLedger`, `Pool` | the pooled allocator with its 16 free lists and its arena; the kernel heap answers as it likes |
| `Rotate` | the three versions of rotation |
| `Stable`, `StableSort`, `AdaptiveSort` | the stable sorts, without a buffer and with one of any size |
| `ListLinks`, `ListMerge`, `ListSort` | rings of list cells, splicing between lists and within one, reversing, merging and the binary-counter sort |
| `Permute`, `Heap`, `Introsort`, `QSort` | heaps, heap sort, partial sort, introsort, and the C library's three-way quicksort |
| `JsmnMachine`, `JsmnAccepts`, `JsmnCodes`, `JsonText`, `JsonRun`, `Jsmn` | the JSON tokenizer (default build), the texts it accepts, what its error codes mean, the texts of section 2 of RFC 8259, and what the one makes of the other |
| `Int64`, `Sqrt`, `Fmod`, `Doubles` | 64-bit division from 32-bit instructions, the correctly rounded square root, the exact floating remainder, and that both read a double alike |
| `Permutation` | next and previous permutation |
| `Numerals` | `strtol`, `strtoul` and `btoa` |
| `Order`, `Arithmetic`, `Powers`, `MachineWords` | orders, small facts about products and quotients, powers of two, words of 32 bits |

Some conventions hold throughout.

- A comparison object is a pure function. `Order.StrictWeakOrder` is what the C++ library asks of it,
  `QSort.TotalPreorder` what `qsort` asks, `Permutation.TotalOrder` what a lexicographic order needs.
- Iterators are indices. A scan that checks no bound in the source checks none in the model; that it
  stays inside the array is part of what is proved about it.
- Stability is stated through classes: for every element, the sequence of those equivalent to it is
  kept (`Stable.SameClasses`). There is only one stable sort (`Stable.StableUnique`), so every path of
  the stable sort gives the same array.
- A free block, a live block and the arena are stretches of bytes with an owner each; the ledger in
  `PoolLedger` gives every obtained byte exactly one owner.
- The tokenizer keeps the stack of open containers inside its token array. `JsmnMachine` has that stack
  explicitly, `Jsmn.OpenIndices` reads it back from the array, and `Jsmn.Parser.Parse` is proved to be
  the machine step by step.
- Machine words are integers with a range, and every wrap-around is written out.

## Where the code and its comments differ

- `strtol` and `strtoul` do not always give the value and the end that section 7.20.1.4 of ISO/IEC
  9899:1999 asks for. They take the prefix `0x` even when no hexadecimal digit follows: `"0x"` in base 0
  ends at 0, where the standard reads the zero and ends at 1 (`Numerals.BarePrefix`). And they take a
  prefix `0b` in bases 0 and 2: `"0b1"` in base 2 is 1, where the standard reads the zero alone
  (`Numerals.BinaryPrefix`). `Numerals.HeadStandard` proves that these are all the cases: value, sign and
  end are the standard's if and only if no such prefix is in front.
- The tokenizer without its strict mode takes any run of printable characters as a primitive, lets
  control characters pass inside strings, and ignores where colons and commas stand, so it accepts more
  than RFC 8259 allows. `JsmnAccepts.Accepts` says exactly which texts it accepts, and
  `JsonRun.TextTokens` what it makes of those that RFC 8259 allows, among others.

## Model

| member | source | states |
|---|---|---|
| RbLinks.Links.RotateLeft | CommonLib/stl/tree.h:204-221 | the rotation rewires exactly the six links it must: node sequence, spans and parent links stay valid, only x and its right child change places |
| RbLinks.Links.RotateRight | CommonLib/stl/tree.h:223-240 | the mirror image of the left rotation |
| RbShape.RotatedLeftLinks | CommonLib/stl/tree.h:204-221 | any pointers that differ as a left rotation makes them differ are again a valid linked tree with the same in-order sequence |
| RbColour.Recolour | CommonLib/stl/tree.h:247-254 | a red uncle: after repainting, black heights agree and the only possible red-red pair is two levels higher |
| RbColour.OuterRotation | CommonLib/stl/tree.h:256-263 | a black uncle: after the second rotation and the repainting the tree is red-black except that its root may be red |
| RbLinks.Links.RebalanceStep | CommonLib/stl/tree.h:246-282 | one round either ends the repair or moves it two levels up, keeping shape, order and black heights |
| RbLinks.Links.Rebalance | CommonLib/stl/tree.h:242-285 | from any freshly linked red leaf the loop ends in a red-black tree with a black root and the same in-order sequence |
| RbLinks.Links.InsertLeaf | CommonLib/stl/tree.h:673-702 | linking a leaf at a vacant place and repairing gives a valid red-black tree whose sequence has exactly that node more, and correct cached ends |
| RbColour.RedSibling | CommonLib/stl/tree.h:357-362 | erase, red sibling: the rotation makes the sibling black and leaves the same lack of one black node |
| RbColour.BlackNephews | CommonLib/stl/tree.h:363-367 | erase, two black nephews: repainting the sibling moves the lack to the parent |
| RbColour.RedNearNephew | CommonLib/stl/tree.h:369-374 | erase, only the near nephew red: the rotation turns it into the case of a red far nephew |
| RbColour.RedFarNephew | CommonLib/stl/tree.h:375-380 | erase, red far nephew: the last rotation removes the lack, and no red node gets a red child |
| RbLinks.Links.RebalanceEraseLeft | CommonLib/stl/tree.h:355-380 | one round on the left side: done, or the lack has moved up |
| RbLinks.Links.RebalanceEraseRight | CommonLib/stl/tree.h:381-406 | the same on the right side |
| RbLinks.Links.RebalanceAfterErase | CommonLib/stl/tree.h:353-409 | the fix-up loop terminates in a red-black tree with a black root and an unchanged in-order sequence |
| RbLinks.Links.NodeToMove | CommonLib/stl/tree.h:293-306 | the node that takes over is the erased one or its in-order successor, and has at most one child |
| RbLinks.Links.Relink | CommonLib/stl/tree.h:307-329 | relinking the successor in place of the erased node keeps a valid linked tree whose sequence loses exactly that node |
| RbShape.RelinkedLinks | CommonLib/stl/tree.h:307-329 | the same as a statement about pointers: every node's links, parent link and span stay right after the successor is relinked, not copied |
| RbShape.UnlinkedLinks | CommonLib/stl/tree.h:330-339 | cutting out a node with at most one child keeps every other node's links and span |
| RbLinks.Links.AdvanceEnds | CommonLib/stl/tree.h:340-351 | the cached leftmost and rightmost nodes are right again when one of them is erased |
| RbLinks.Links.RebalanceForErase | CommonLib/stl/tree.h:287-411 | erasing any node of a valid red-black tree leaves a valid one: order, colours, black heights, black root, parent links, cached ends; the in-order sequence loses exactly that node |
| RbLinks.Links.Minimum | CommonLib/stl/tree.h:72-76 | the leftmost node of a subtree is the first of its span |
| RbLinks.Links.Maximum | CommonLib/stl/tree.h:78-82 | the rightmost node of a subtree is the last of its span |
| RbLinks.Links.Increment | CommonLib/stl/tree.h:100-116 | the next position in order, the header after the last node |
| RbLinks.Links.Decrement | CommonLib/stl/tree.h:118-137 | the position before, so that it undoes the increment, also from the header |
| RbColour.InOrderIsOrd | CommonLib/stl/tree.h:204-240 | the recursive in-order walk of the links is the node sequence that the flat invariant speaks of |
| RbColour.RedBlackUniform | CommonLib/stl/tree.h:1048-1059 | the local colour conditions give the textbook definition: no red node has a red child and all paths have equally many black nodes |
| RbColour.DepthIsLogarithmic | CommonLib/stl/tree.h:242-285 | the depth of a valid tree is at most twice a logarithm of the number of nodes plus one |
| RbColour.BlackCountOfLeaf | CommonLib/stl/tree.h:1048-1059 | counting black nodes from any leaf up to the root gives the same number |
| RbTree.Tree.LowerBound | CommonLib/stl/tree.h:974-987 | agrees with a linear scan of the sorted sequence for the first key that is not less |
| RbTree.LowerIndexMeans | CommonLib/stl/tree.h:974-987 | that scan splits a sorted sequence: every key before it is less, none from it on |
| RbTree.Tree.UpperBound | CommonLib/stl/tree.h:1004-1017 | agrees with a linear scan for the first greater key |
| RbTree.UpperIndexMeans | CommonLib/stl/tree.h:1004-1017 | no key before it is greater, every key from it on is |
| RbTree.EqualRange | CommonLib/stl/tree.h:1034-1039 | the positions between the two bounds are exactly those of the equivalent keys |
| RbTree.Tree.Find | CommonLib/stl/tree.h:933-947 | the end exactly when no key is equivalent; otherwise the first equivalent one |
| RbTree.Tree.Count | CommonLib/stl/tree.h:965-972 | the number of elements with an equivalent key |
| RbTree.Tree.Insert | CommonLib/stl/tree.h:673-703 | at a vacant place that suits the key: all invariants, the node count, and exactly one element more, at that place |
| RbTree.Tree.InsertEqual | CommonLib/stl/tree.h:705-716 | the element is added behind all equivalent ones |
| RbTree.Tree.InsertUnique | CommonLib/stl/tree.h:718-741 | the element is added exactly when no key is equivalent; otherwise nothing changes and the equivalent node is returned |
| RbTree.Tree.InsertUniqueAt | CommonLib/stl/tree.h:743-771 | for every position as a hint: the same contents as without the hint |
| RbTree.Tree.InsertEqualAt | CommonLib/stl/tree.h:773-801 | for every position as a hint: the element goes right before the hint when that is a place for its key (before the first element only when it is less), and otherwise behind all equivalent ones |
| RbTree.NearEnd | CommonLib/stl/tree.h:783-787 | with the end as the hint the element goes behind all equivalent ones, as without a hint |
| RbTree.NearKeepsHint | CommonLib/stl/tree.h:773-801 | if nothing before the hint is greater and nothing after it is less, the element goes there, at the beginning only if everything is greater; otherwise behind everything that is not greater |
| RbTree.SlotsSameKeys | CommonLib/stl/tree.h:773-801 | wherever among equivalent keys an element is inserted, the keys read the same, so hinted and plain insertion agree on the keys |
| RbTree.UniqueSlot | CommonLib/stl/tree.h:757-767 | a place strictly between its neighbours is the one that plain insertion finds, and the key is new |
| RbTree.Tree.Erase | CommonLib/stl/tree.h:851-860 | the contents lose exactly the element at the position, and all invariants hold |
| RbTree.Tree.EraseRange | CommonLib/stl/tree.h:918-925 | the contents lose exactly the elements of the range, whether by clearing or one by one |
| RbTree.Tree.EraseKey | CommonLib/stl/tree.h:862-870 | no equivalent key is left, the contents are all the other elements in their order, what went is one run of exactly the equivalent elements, and their number is returned |
| RbTree.StrippedOthers | CommonLib/stl/tree.h:862-870 | a sequence that lacks exactly the run of equivalent elements consists of the other elements, and the run has as many as there are equivalent ones |
| RbTree.SortedStripped | CommonLib/stl/tree.h:862-870 | in a sorted sequence the equivalent elements are the run between the two bounds |
| RbTree.Tree.Clear | CommonLib/stl/tree.h:610-618 | an empty valid tree |
| RbTree.Tree.PositionOf | CommonLib/stl/tree.h:100-116 | so many increments from begin() reach the element with that index, or stop at the end |
| RbTree.Tree.Verify | CommonLib/stl/tree.h:1061-1095 | for any colours, keys and node count on well-linked nodes: the check returns true exactly when no red node has a red child, every child is on its side of its parent, and every leaf has as many black nodes above it as the leftmost node; so it does for every valid tree |
| RbTree.Tree.Walk | CommonLib/stl/tree.h:100-116 | from begin to end the increments list the sorted contents |
| RbTree.Tree.WalkBack | CommonLib/stl/tree.h:118-137 | from end to begin the decrements list them in reverse |
| RbTree.Run | CommonLib/stl/tree.h:673-925 | after any run of insertions and hinted insertions of both kinds, erasures by key, at a position and of a range, and clears, on a new tree: both walks list the sorted sequence that the operations describe, and the check returns true |
| PoolLedger.RoundUp | CommonLib/stl/alloc.h:324-326 | the least multiple of eight that is not smaller |
| PoolLedger.FreeListIndex | CommonLib/stl/alloc.h:339-341 | the list whose blocks are the smallest that hold the size; below 16 for sizes up to 128 |
| PoolLedger.PoppedSound | CommonLib/stl/alloc.h:406-412 | taking a block off its list keeps every byte owned exactly once |
| PoolLedger.PushedSound | CommonLib/stl/alloc.h:431-432 | giving a block back keeps every byte owned exactly once |
| PoolLedger.StashedSound | CommonLib/stl/alloc.h:470-476 | the left-over piece of the arena becomes one free block of exactly its size |
| PoolLedger.TakenSound | CommonLib/stl/alloc.h:484-491 | a larger free block becomes the arena |
| PoolLedger.GrownSound | CommonLib/stl/alloc.h:502-504 | a fresh region becomes the arena |
| PoolLedger.CarvedSound | CommonLib/stl/alloc.h:457-466 | cutting objects off the arena keeps the account |
| PoolLedger.ListedSound | CommonLib/stl/alloc.h:525-537 | each carved object becomes one block of its list |
| PoolLedger.BlocksDisjoint | CommonLib/stl/alloc.h:390-434 | no byte lies in two blocks, live or free, whatever lists they belong to |
| PoolLedger.BlocksApart | CommonLib/stl/alloc.h:390-434 | the blocks and the arena are pairwise disjoint stretches |
| PoolLedger.NoByteLost | CommonLib/stl/alloc.h:449-539 | every byte in the account belongs to a live block, a free block or the arena |
| PoolLedger.RequestFits | CommonLib/stl/alloc.h:468 | the size requested from the kernel does not wrap in 32 bits while the heap is below the stated size |
| Pool.Kernel.Kmalloc | CommonLib/stl/alloc.h:477 | fails, and the refusal is recorded, or returns an 8-aligned region of bytes that nobody holds; bytes given back by kfree may be handed out again |
| Pool.Allocator.CarveObjects | CommonLib/stl/alloc.h:457-466 | between one object and the number asked for, and no fewer than the arena holds |
| Pool.Allocator.Refuel | CommonLib/stl/alloc.h:467-504 | on success the arena has room for an object; it fails only after two refusals of the stated size with all lists from the size upward empty; the list that refill is about to build is still empty, and every byte obtained from the kernel is in the account |
| Pool.Allocator.AskKernel | CommonLib/stl/alloc.h:477-504 | a whole new region becomes the arena, or nothing is obtained and the refusal is recorded |
| Pool.Allocator.FindBlock | CommonLib/stl/alloc.h:484-495 | the first list with larger blocks that is not empty |
| Pool.Allocator.ChunkAlloc | CommonLib/stl/alloc.h:449-506 | one to twenty objects, as many as the arena holds; null only after two refusals with all lists from the size upward empty, and never while the arena holds an object; every byte obtained on the way is in the account; the termination measure shows at most one recursive call |
| Pool.Allocator.Refill | CommonLib/stl/alloc.h:512-539 | one block for the client and the rest, one behind the other, on a list that was empty: nothing is overwritten; null only as for chunk_alloc; every byte obtained on the way is in the account |
| Pool.Allocator.Allocate | CommonLib/stl/alloc.h:389-413 | the head of the free list if there is one, without a request to the kernel; otherwise a block of the right size class that no live client holds; null only after the kernel has refused twice with all lists from the size upward empty and the arena too short, above 128 bytes once; all memory obtained on the way enters the account |
| Pool.Allocator.Deallocate | CommonLib/stl/alloc.h:415-434 | only that block stops being live, and it becomes the head of its list, linked to the former one; above 128 bytes its region goes back to the kernel |
| Pool.Allocator.Scribble | CommonLib/stl/alloc.h:327-331 | a client may write anything at any byte of a block it holds, small or large, without harming a free list |
| Pool.Run | CommonLib/stl/alloc.h:390-539 | after any run of requests of any size and any answers of the kernel: the blocks held are 8-aligned, no two share a byte, they are exactly the live ones, every request was met if the kernel refused nothing, the allocator is valid, and every byte that the kernel has handed out is the client's, on a free list or in the arena |
| Pool.NothingLost | CommonLib/stl/alloc.h:390-539 | no byte that the kernel has handed out is lost |
| Pool.OtherWord | CommonLib/stl/alloc.h:327-331 | no free list has a link in a word of the client's |
| Rotate.ComputeGcd | CommonLib/stl/algo.h:592-601 | the greatest common divisor of the recursive definition |
| Rotate.GcdMeans | CommonLib/stl/algo.h:592-601 | it divides both numbers and is an integer combination of them |
| Rotate.RotateCycle | CommonLib/stl/algo.h:603-618 | one cycle moves each of its elements by the shift and touches no other |
| Rotate.RotateByCycles | CommonLib/stl/algo.h:620-628 | the cycles cover every index exactly once, and the two blocks end up exchanged |
| Rotate.RotateForward | CommonLib/stl/algo.h:567-581 | the version by swaps exchanges the same two blocks |
| Rotate.Reverse | CommonLib/stl/algo.h:534-548 | the stretch is reversed, the rest untouched |
| Rotate.ThreeReversals | CommonLib/stl/algo.h:583-590 | reversing both blocks and then the whole exchanges them |
| Rotate.RotateByReversal | CommonLib/stl/algo.h:583-590 | the version by three reversals gives the same array |
| Rotate.Rotate | CommonLib/stl/algo.h:630-636 | also for empty blocks |
| Rotate.RotatedAt | CommonLib/stl/algo.h:567-628 | the element at each place comes from as many places further on, around the range |
| Stable.StableUnique | CommonLib/stl/algo.h:1097-1265 | a sorted arrangement that keeps the order of equivalent elements is unique |
| Stable.SamePermutes | CommonLib/stl/algo.h:1097-1265 | keeping, for every element, the sequence of those equivalent to it, implies being a rearrangement |
| Stable.MergeEnd | CommonLib/stl/algo.h:1783-1799 | what a merge with preference for the first run has built is the stable sort of both runs |
| Stable.MergeBackEnd | CommonLib/stl/algo.h:1910-1932 | the same for a merge that fills from the back |
| Stable.JoinCut | CommonLib/stl/algo.h:1820-1850 | sorting the two sides of a cut of two runs sorts the whole, stably |
| StableSort.UnguardedLinearInsert | CommonLib/stl/algo.h:925-935 | the scan without a bound stays inside, and the element is inserted behind its equals |
| StableSort.LinearInsert | CommonLib/stl/algo.h:950-959 | the last element of a sorted stretch plus one is inserted stably |
| StableSort.InsertionSort | CommonLib/stl/algo.h:972-977 | the stable sort of the range, nothing outside it touched |
| StableSort.LowerBound | CommonLib/stl/algo.h:1460-1478 | the first place whose element is not less |
| StableSort.UpperBound | CommonLib/stl/algo.h:1562-1581 | the first place whose element is greater |
| StableSort.ChooseCut | CommonLib/stl/algo.h:1830-1844 | a place to cut both runs, such that both parts are strictly shorter than the whole |
| StableSort.MergeWithoutBuffer | CommonLib/stl/algo.h:1820-1851 | two adjacent runs become their stable merge, in place; the recursion shrinks |
| StableSort.InplaceStableSort | CommonLib/stl/algo.h:1097-1108 | the stable sort without a buffer |
| AdaptiveSort.MergeApart | CommonLib/stl/algo.h:1783-1799 | two runs of one array are merged stably into another |
| AdaptiveSort.MergeForward | CommonLib/stl/algo.h:1964-1966 | merging a buffered run forwards over its own place never overwrites an element that is still to be read |
| AdaptiveSort.MergeBackward | CommonLib/stl/algo.h:1910-1932 | the same backwards, for a buffered second run |
| AdaptiveSort.RotateAdaptive | CommonLib/stl/algo.h:1886-1908 | all three ways exchange the blocks, and the returned place is the new middle |
| AdaptiveSort.MergeAdaptive | CommonLib/stl/algo.h:1959-1994 | for every buffer size from one up the two runs become their stable merge; the recursion shrinks |
| AdaptiveSort.ChunkInsertionSort | CommonLib/stl/algo.h:1161-1169 | chunks of the given size are sorted, each stably, the last one possibly shorter |
| AdaptiveSort.MergeSortLoop | CommonLib/stl/algo.h:1124-1139 | sorted chunks become sorted chunks of twice the size in the other array, the order of equals kept |
| AdaptiveSort.MergeSortWithBuffer | CommonLib/stl/algo.h:1182-1198 | bottom-up merging between range and buffer ends in the stable sort of the range |
| AdaptiveSort.StableSortAdaptive | CommonLib/stl/algo.h:1219-1234 | the stable sort for every buffer size from one up |
| AdaptiveSort.StableSortWith | CommonLib/stl/algo.h:1257-1265 | with whatever buffer was obtained, or none, the array is the one and only stable sort of the range |
| AdaptiveSort.OnlyOneResult | CommonLib/stl/algo.h:1097-1265 | any two outcomes that are stable sorts of the same range are the same array, so the path taken does not matter |
| ListLinks.TransferApart | CommonLib/stl/list.h:340-351 | after the seven assignments one ring has gained the stretch in place, the other has lost it, and next and prev are inverse to each other in both |
| ListLinks.TransferOther | CommonLib/stl/list.h:340-351 | every other list is untouched |
| ListLinks.CrossedBothWays | CommonLib/stl/list.h:340-351 | within one list the seven assignments exchange two neighbouring stretches, whether the second moves forwards or the first backwards |
| ListLinks.ExchangedRing | CommonLib/stl/list.h:340-351 | after them the list is a ring again, with the two stretches exchanged |
| ListMerge.Lists.Transfer | CommonLib/stl/list.h:340-351 | the assignments in their order do this for the whole arena of lists, between two lists |
| ListMerge.Lists.TransferWithin | CommonLib/stl/list.h:340-351 | the same within one list, for every position that is not among the cells moved |
| ListMerge.Lists.SpliceCell | CommonLib/stl/list.h:357-362 | any cell of one list goes in front of any position of another |
| ListMerge.Lists.SpliceWithin | CommonLib/stl/list.h:357-362 | any cell goes in front of any position of its own list; in front of or behind itself it stays |
| ListMerge.Lists.SpliceFirst | CommonLib/stl/list.h:357-362 | the first cell of one list becomes the first of another |
| ListMerge.Lists.Reverse | CommonLib/stl/list.h:532-542 | moving cell after cell to the front reverses the list, and no other list is touched |
| ListMerge.Lists.Merge | CommonLib/stl/list.h:515-530 | the list becomes the stable merge of both, by moving the same cells; the other is empty |
| ListSort.CarryOn | CommonLib/stl/list.h:553-556 | merging a full bin with the carry gives twice the cells, stably sorted, of the corresponding stretch of the input |
| ListSort.BinIn | CommonLib/stl/list.h:557-558 | each bin is empty or has exactly 2^i cells, all earlier in the input than those of lower bins, and stably sorted |
| ListSort.BusyDone | CommonLib/stl/list.h:552-558 | a carry never reaches beyond the last of the 64 counters for inputs below 2^64 cells |
| ListSort.CountIn | CommonLib/stl/list.h:551-558 | counting one more cell in keeps all this |
| ListSort.CountAll | CommonLib/stl/list.h:550-559 | the number of counters in use stays at most the logarithm of the number of cells plus one |
| ListSort.Collapse | CommonLib/stl/list.h:561 | the bins merged from the lowest up are the stable sort of the whole input |
| ListSort.Sort | CommonLib/stl/list.h:544-563 | the resulting ring holds the same cells, stably sorted, and no other list is touched |
| Heap.HeapGreatest | CommonLib/stl/heap.h:150-162 | the first element of a heap is a greatest one |
| Heap.SiftDown | CommonLib/stl/heap.h:78-88 | moving the greater child into the hole keeps the heap around the new hole |
| Heap.SiftUp | CommonLib/stl/heap.h:27-31 | so does moving down a parent that is less than the value |
| Heap.PushHeap | CommonLib/stl/heap.h:23-33 | the value rises to a place where the heap is whole |
| Heap.AdjustHeap | CommonLib/stl/heap.h:73-90 | sifting the hole to a leaf and letting the value rise from there restores the heap, over the same elements with the value exchanged |
| Heap.MakeHeap | CommonLib/stl/heap.h:150-162 | any range becomes a heap of the same elements |
| Heap.PopHeap | CommonLib/stl/heap.h:92-97 | the greatest element goes to the result, the element from there into the heap |
| Heap.SortHeap | CommonLib/stl/heap.h:189-192 | a heap becomes the sorted range of the same elements |
| Heap.PartialSort | CommonLib/stl/algo.h:1292-1300 | the first part, which may be empty, is sorted, nothing behind it is less than anything in it, and the range holds the same elements |
| Introsort.MedianBetween | CommonLib/stl/algo.h:40-54 | the median is one of the three, and the other two or it leave one element on either side, which is what stops the unguarded scans |
| Introsort.UnguardedPartition | CommonLib/stl/algo.h:894-906 | the scans without bounds stay inside the range, and the cut is strictly inside with nothing greater than the pivot before it and nothing less behind it |
| Introsort.Lg | CommonLib/stl/algo.h:1035-1040 | the exponent of the largest power of two that is not greater |
| Introsort.IntrosortLoop | CommonLib/stl/algo.h:1042-1058 | a rearrangement that leaves a least element among the first sixteen, also when the depth limit sends it to the heap sort; the number of nested calls is at most the limit |
| Introsort.LeastFirst | CommonLib/stl/algo.h:1015-1023 | sorting the first sixteen then brings a least element to the front, where it stops every later insertion |
| Introsort.UnguardedInsertionSort | CommonLib/stl/algo.h:987-998 | insertions without a bound sort the rest |
| Introsort.FinalInsertionSort | CommonLib/stl/algo.h:1015-1023 | the range is sorted |
| Introsort.Sort | CommonLib/stl/algo.h:1078-1084 | for every strict weak order: sorted, and a rearrangement; the number of nested calls is at most twice the logarithm of the number of elements |
| QSort.Med3 | CommonLib/qsort.c:67-73 | the result is a median of the three |
| QSort.InsertionSort | CommonLib/qsort.c:82-88 | sorted by swaps of neighbours, and a rearrangement |
| QSort.Round | CommonLib/qsort.c:105-128 | one scan from either side keeps the four regions: equal, less, greater, equal |
| QSort.Partition | CommonLib/qsort.c:102-128 | the scans meet with every element in its region, and without a swap nothing has moved |
| QSort.MiddleEqual | CommonLib/qsort.c:136-140 | the two vector swaps bring the equal elements from both ends to the middle |
| QSort.Gather | CommonLib/qsort.c:136-140 | less, equal, greater, and both outer parts are strictly shorter than the whole |
| QSort.MoreSettled | CommonLib/qsort.c:141-148 | sorting the lower part puts everything but the upper part in its final place |
| QSort.Sort | CommonLib/qsort.c:74-150 | for every total preorder: sorted, and a rearrangement, by one recursive call and the loop, and also when it changes to insertion sort |
| Jsmn.OpenClose | CommonLib/jsmn/jsmn.cpp:209-228 | closing the innermost open token takes it off the stack that the token array encodes |
| Jsmn.Parser.AllocToken | CommonLib/jsmn/jsmn.cpp:6-19 | the next token, or none when the array is full |
| Jsmn.Parser.ParsePrimitive | CommonLib/jsmn/jsmn.cpp:35-85 | the primitive ends where a delimiter or the end follows; characters outside 32 to 126 are refused; without room the position goes back |
| Jsmn.Parser.ParseString | CommonLib/jsmn/jsmn.cpp:90-146 | the string ends at the first quote that no escape consumes; bad escapes and an unfinished string are refused and the position goes back |
| Jsmn.Parser.LeaveContainer | CommonLib/jsmn/jsmn.cpp:182-230 | the search from the last token for an open one finds the innermost container; a wrong kind or none is an error |
| Jsmn.Parser.LeaveKey | CommonLib/jsmn/jsmn.cpp:243-260 | a comma returns from a key to the innermost container |
| Jsmn.Parser.Parse | CommonLib/jsmn/jsmn.cpp:151-303 | the parser over the token array does exactly what the machine with an explicit stack does, and without an array what the counting pass does; what either returns is what the rows of JsmnAccepts and JsmnCodes say |
| JsmnMachine.StepValid | CommonLib/jsmn/jsmn.cpp:158-291 | after every character, of any text, the open tokens in index order are the stack of enclosing containers |
| JsmnMachine.RunForest | CommonLib/jsmn/jsmn.cpp:151-303 | for every text the tokens come in order of their start, nested or disjoint; after success every span is complete |
| JsmnMachine.CountThenFill | CommonLib/jsmn/jsmn.cpp:151-303 | if the counting pass returns c, a filling pass with room for c tokens never runs out of memory, and when it succeeds it returns c |
| JsmnMachine.Resume | CommonLib/jsmn/jsmn.cpp:151-303 | continuing after a lack of memory with a larger array ends in the same tokens, state and result as one parse with enough room |
| JsmnMachine.WithinCapacity | CommonLib/jsmn/jsmn.cpp:6-19 | no more tokens are used than there is room for |
| JsmnAccepts.Accepts | CommonLib/jsmn/jsmn.cpp:151-303 | a parse succeeds exactly when every string and primitive can be scanned to its end, the brackets are those of nested groups, each closed by its kind, and there is room; it returns the number of strings, primitives and brackets opened |
| JsmnAccepts.StepFirst | CommonLib/jsmn/jsmn.cpp:158-291 | each iteration takes exactly the next piece of the text, and fails exactly where it is malformed, does not match or has no room |
| JsmnAccepts.MatchIsNest | CommonLib/jsmn/jsmn.cpp:182-230 | a text passes the stack of open containers exactly when its brackets are those of nested groups |
| JsmnCodes.Codes | CommonLib/jsmn/jsmn.cpp:151-303 | with room enough: the partial code means that the text is not accepted but some longer one is, the invalid code that none is, however the text goes on |
| JsmnCodes.NoMemory | CommonLib/jsmn/jsmn.cpp:6-19 | no room: the pieces read so far, none malformed or out of place, outnumber the tokens |
| JsmnCodes.InvalidStays | CommonLib/jsmn/jsmn.cpp:182-230 | a text refused as invalid is refused however it goes on |
| JsmnCodes.PartContinues | CommonLib/jsmn/jsmn.cpp:293-300 | a text of which only a part is there can be completed: the string finished and the open brackets closed |
| JsmnCodes.CountMeans | CommonLib/jsmn/jsmn.cpp:151-303 | the counting pass gives the number of tokens of every text that can be scanned; partial and invalid mean that some, or no, longer text can |
| JsmnCodes.Tokenize | CommonLib/jsmn/jsmn.cpp:151-313 | from a new parser: the number of tokens exactly for accepted texts that have room, and otherwise the code that says why not |
| JsmnCodes.CountTokens | CommonLib/jsmn/jsmn.cpp:151-313 | the same for the pass without a token array |
| JsonText.BodyEnds | CommonLib/jsmn/jsmn.cpp:97-145 | a string body with complete escapes is scanned to exactly its closing quote |
| JsonText.StringExactly | CommonLib/jsmn/jsmn.cpp:97-145 | a string ends at the first quote behind a good body, and is refused exactly where a bad escape follows a good body |
| JsonText.PrimitiveExactly | CommonLib/jsmn/jsmn.cpp:42-58 | a primitive is exactly a run of printable characters without a delimiter, up to a delimiter or the end |
| JsonText.WordEnds | CommonLib/jsmn/jsmn.cpp:42-58 | a primitive is scanned to exactly its end |
| JsonRun.ValueRun | CommonLib/jsmn/jsmn.cpp:151-303 | for every value, in any context, the parser gets from its first character to behind its last with exactly its tokens added |
| JsonRun.ItemsRun | CommonLib/jsmn/jsmn.cpp:151-303 | the same for the elements or members up to the closing bracket, with the container's size and end filled in |
| JsonRun.TextTokens | CommonLib/jsmn/jsmn.cpp:151-303 | for every JSON value and every placement of white space: exactly the preorder tokens, with type, span and size, and nothing left open |
| JsonText.TokensSpell | CommonLib/jsmn/jsmn.cpp:151-303 | every promised token spans what its kind says: a string body between quotes, a word, or a bracket and its counterpart |
| JsonText.CountedOnce | CommonLib/jsmn/jsmn.cpp:151-303 | every token but the first is counted exactly once in the sizes |
| JsonRun.TextRoom | CommonLib/jsmn/jsmn.cpp:151-303 | the parse succeeds exactly when there is room for that many tokens, which is the number that the counting pass returns |
| Int64.DivRem | CommonLib/common_arch.cpp:30-199 | truncated quotient and remainder satisfy a = q b + r with |r| < |b| and r zero or with the sign of a |
| Int64.DivRemUnique | CommonLib/common_arch.cpp:30-199 | no other pair does |
| Int64.SignedMeans | CommonLib/common_arch.cpp:30-199 | the signed reading of two words is in range and congruent to them |
| Int64.Negated | CommonLib/common_arch.cpp:42-46 | neg, neg, sbb is the negation of two words modulo 2^64 |
| Int64.ShortDivision | CommonLib/common_arch.cpp:60-66 | dividing the upper word and then the remainder with the lower word gives quotient and remainder by a one-word divisor |
| Int64.QuotientFits | CommonLib/common_arch.cpp:147-153 | a quotient by a divisor greater than the upper word fits one word, so that div does not fault |
| Int64.ShiftDown | CommonLib/common_arch.cpp:157-167 | the shifted divisor has its top bit set and the shifted dividend's upper word is less, so that div does not fault |
| Int64.Estimate | CommonLib/common_arch.cpp:161-168 | the quotient of the shifted numbers is the true one or one more, and its product with the divisor's upper word fits a word |
| Int64.Guess | CommonLib/common_arch.cpp:168-180 | the product is compared correctly, the carry included |
| Int64.AllDiv | CommonLib/common_arch.cpp:115-199 | the truncated quotient modulo 2^64, for all a and all b but zero |
| Int64.MinusRemainder | CommonLib/common_arch.cpp:83-100 | the product less the dividend, after the correction, is the negated remainder |
| Int64.AllRem | CommonLib/common_arch.cpp:30-113 | the remainder with the sign of the dividend |
| Sqrt.Take | CommonLib/math/e_sqrt.c:143-153 | a digit that fits is taken without losing anything: what is left, scaled, plus the square of the root so far is the number |
| Sqrt.Skip | CommonLib/math/e_sqrt.c:143-153 | a digit that does not fit would make the square too great |
| Sqrt.HighDigits | CommonLib/math/e_sqrt.c:137-153 | 22 digits in the upper words |
| Sqrt.Words | CommonLib/math/e_sqrt.c:156-166 | the comparison, the carry into the upper word and the borrow of the lower loop are those of the two-word numbers |
| Sqrt.LowDigits | CommonLib/math/e_sqrt.c:155-170 | together the two loops leave the whole root of s times 2^54, and a remainder that is zero exactly for a perfect square |
| Sqrt.RoundedNearest | CommonLib/math/e_sqrt.c:172-184 | with the last digit set the root is never exact, so a halfway case does not occur, and rounding the last digit gives the nearest number |
| Sqrt.RootRange | CommonLib/math/e_sqrt.c:185-190 | the root has exactly 54 digits and rounding does not carry into the exponent |
| Sqrt.Sqrt | CommonLib/math/e_sqrt.c:129-192 | for every positive normal double the exponent is halved, the significand is the one nearest to the exact root, and the value of the result is less than half a unit in its last place from the real root of the value of the argument |
| Sqrt.NearestReal | CommonLib/math/e_sqrt.c:129-192 | nearest means less than half a unit from the real square root |
| Sqrt.RootNearest | CommonLib/math/e_sqrt.c:129-192 | nearest in whole numbers means less than half a unit in the last place from the real root |
| Sqrt.ValueOne | CommonLib/math/e_sqrt.c:129-192 | the scale of the values: the words of 1.0 |
| Fmod.Ilogb | CommonLib/math/e_fmod.c:56-63 | the exponent of the leading bit, also of subnormal numbers |
| Fmod.SetUp | CommonLib/math/e_fmod.c:56-98 | the significand with its leading bit in place 52, exactly, also from subnormal numbers |
| Fmod.UnitsOrder | CommonLib/math/e_fmod.c:50-54 | comparing the words compares the numbers |
| Fmod.ReduceStep | CommonLib/math/e_fmod.c:102-110 | one step of shifting and subtracting keeps the remainder of the scaled significand |
| Fmod.Reduce | CommonLib/math/e_fmod.c:101-112 | the loop and the last subtraction leave exactly that remainder |
| Fmod.AlignedRemainder | CommonLib/math/e_fmod.c:100-112 | the remainder of the significands is that of the numbers, in the scale of the divisor |
| Fmod.PackSubnormal | CommonLib/math/e_fmod.c:125-134 | shifting the result down to a subnormal number loses no bit |
| Fmod.Fmod | CommonLib/math/e_fmod.c:45-140 | for all finite x and finite y not zero, subnormal or not: exactly the remainder of the magnitudes, with the sign of x; for infinite y, x itself |
| Doubles.UnitsValue | CommonLib/math/e_fmod.c:50-98 | the units of a normal number are its value as the square root reads it |
| Permutation.SortedLeast | CommonLib/stl/algo.h:2326-2351 | the sorted arrangement is the least in lexicographic order |
| Permutation.TurnedSuccessor | CommonLib/stl/algo.h:2336-2345 | the swap and the reversal give the least of all greater arrangements |
| Permutation.StartOver | CommonLib/stl/algo.h:2346-2349 | without a rise the arrangement is the greatest, and its reversal the least |
| Permutation.NextPermutation | CommonLib/stl/algo.h:2326-2351 | true: the least greater arrangement; false: the greatest one has been turned into the least |
| Permutation.PrevPermutation | CommonLib/stl/algo.h:2380-2405 | the same for the order turned around |
| Permutation.PrevUndoes | CommonLib/stl/algo.h:2326-2405 | going back undoes going forward in both cases, and reports the same |
| Permutation.ThereAndBack | CommonLib/stl/algo.h:2326-2405 | forwards and back leaves the array as it was |
| Numerals.HeadStandard | CommonLib/stdio.cpp:334-356 | value and end are those of the longest subject sequence of section 7.20.1.4 of ISO/IEC 9899:1999 behind the white space, negated exactly after a minus, if and only if there is in it neither 0x without a hexadecimal digit behind it (bases 0 and 16) nor 0b (bases 0 and 2) |
| Numerals.StandardUnique | CommonLib/stdio.cpp:334-356 | the standard leaves no choice of value, sign and end |
| Numerals.BarePrefix | CommonLib/stdio.cpp:343-348 | a text that is no number for the code, where the standard reads a zero |
| Numerals.BinaryPrefix | CommonLib/stdio.cpp:349-354 | a text with another value than the standard's |
| Numerals.DigitsInOrder | CommonLib/stdio.cpp:379-384 | digits and letters of either case count on from 0 and 10 |
| Numerals.ClampNearest | CommonLib/stdio.cpp:395-397 | the clamped value is the long nearest to the exact one |
| Numerals.SignedMeans | CommonLib/stdio.cpp:398-403 | the signed reading of a word is the one long congruent to it |
| Numerals.CutoffExact | CommonLib/stdio.cpp:375-393 | the cutoff test fires exactly when the next digit would go beyond the limit |
| Numerals.ReadDigits | CommonLib/stdio.cpp:375-394 | digits of any number are read to their end; the value is exact, or known to be beyond the limit |
| Numerals.Strtol | CommonLib/stdio.cpp:320-404 | the exact value with its sign, whatever the number of digits, clamped to the range of a long, and the end; exact value and end as the standard asks exactly when no odd prefix is in front |
| Numerals.Strtoul | CommonLib/stdio.cpp:407-470 | a value congruent to the exact one modulo 2^32, or the greatest one when that is beyond the range, and the end; exact value and end as the standard asks exactly when no odd prefix is in front |
| Numerals.ValDigits | CommonLib/atob.c:186-194 | repeated division gives digits whose value is the number |
| Numerals.DigitCount | CommonLib/atob.c:165 | at most 32 digits, so that a buffer of 34 characters is always large enough |
| Numerals.FillDigits | CommonLib/atob.c:186-194 | the digits, least significant first |
| Numerals.Btoa | CommonLib/atob.c:163-205 | the text of the number, with a minus for a negative value in base -10, ended by a NUL within 34 characters, in any destination that has room for it |
| Numerals.WrittenSpells | CommonLib/atob.c:163-205 | the text is a minus exactly for a negative number in base -10, and then the digits of the magnitude in small letters without a leading zero |
| Numerals.UnsignedRoundTrip | CommonLib/atob.c:163-205 | strtoul gives back every 32-bit value in every base from 2 to 36, and reads the whole text |
| Numerals.SignedRoundTrip | CommonLib/atob.c:163-205 | strtol gives back the signed value written in base -10 |

## Left out

- Copying and assigning trees and lists, and giving back node memory: the arenas only grow, and erased cells stay behind unused.
- RbTree.Tree.InsertUniqueAt: positions that do not belong to the tree are outside it, as in the source.
- Pool.Allocator.MakeDo: when the kernel fails again the source calls an out-of-memory handler that may never return; the model makes one more request and then reports null.
- PoolLedger.RequestFits: sizes are unbounded elsewhere in the allocator; this lemma says when the one sum that could wrap does not.
- Locks, exceptions, iterator tags and the construction and destruction of elements.
- Heap.PopHeap: the value that sinks in is read from the result place inside the method, where the source passes it as an argument.
- `reallocate`.
- `list::unique`, `list::remove` and `list::resize`.
- Fmod.Fmod: a zero divisor, infinite x and not-a-numbers are left out; the result is exact, so no flag is involved.
- Overloads that differ only in taking a comparison object or using `<`.
- `partial_sort_copy`, `nth_element`, `stable_partition`, `equal_range` on ranges, and the set operations.
- ListSort.Sort: the headers of the carry and the counters stay in the arena as empty lists instead of being destroyed.
- Stretches of bytes in `qsort`: elements are exchanged whole, so the choice between word and byte swaps does not show.
- Token indices, positions and counts of the tokenizer are unbounded, so texts of more than 2^31 characters are not distinguished.
- The strict mode of the tokenizer and its parent links.
- Sqrt.Sqrt: starts from a normal number; zero, infinities, not-a-numbers, negative and subnormal operands, the inexact flag and rounding modes other than to nearest are left out.
- `_allshr`: it fills with zeros for shifts of 32 and more.
- Int64.AllDiv: the stack frame is a set of variables; the words are those of the registers and slots.
- Numerals.Strtol: a base other than 0 and 2 to 36 is left out, and `errno`, which the source does not set either.
- Transcendental functions, `strtod`, formatted input and output, and everything that talks to hardware.
