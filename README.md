# First-fit memory allocator, modelled in Dafny

The system is a bookkeeping-only memory allocator. Memory is the address range
`[0, maxSize)`. It is described by `MemoryBlock(baseAddress, length)` records kept in two
singly linked lists: the allocated list and the free list.

- `malloc(length)` scans the free list in list order and takes the first block that is long
  enough. It appends a new block `(base, length)` to the allocated list. It then removes the
  free block on an exact fit, or else shrinks it from the front.
- `free(address)` moves the first allocated block based at `address` to the end of the free
  list.
- `defrag()` bubble-sorts the free list by base address. It then merges neighbours that touch
  in memory, and it does not advance its cursor after a merge.

The project has four modules:

- `Blocks` (`Blocks.dfy`): the `MemoryBlock` value, plus facts about sequences of blocks.
  - `Count(s, x)` is how many blocks of `s` contain address `x`.
  - `TotalLength` adds up the lengths.
  - `FirstIndex` finds the first position of a value.
  - Permutations keep both `Count` and `TotalLength`.
- `LinkedLists` (`LinkedList.dfy`): the `Node` and `LinkedList` classes.
  - The real `first`, `last`, `size` and `next` fields are updated in place, as the list does.
  - Ghost `Nodes`, `Contents` and `Repr` describe the abstract state: the node sequence, the
    block sequence and the footprint.
  - Each method is proved against a function of that state.
  - `sort` is proved against `BubbleSort`, the same sequence of pairwise compare-and-swap
    steps. `BubbleSort` is then proved sorted, a permutation, and the identity on sorted input.
- `Allocation` (`Allocation.dfy`): `malloc`, `free` and `defrag` as functions on
  `Space(allocatedList, freeList)`, with the allocator's invariant `Tiles`.
  - Every address of `[0, maxSize)` lies in exactly one block of the two lists, and no other
    address lies in any block.
  - The lengths add up to `maxSize`.
  - Bases are non-negative and allocated blocks are non-empty.
- `MemorySpaces` (`MemorySpace.dfy`): the `MemorySpace` class.
  - `Malloc`, `Free` and `Defrag` walk the node pointers of two `LinkedList` objects in loops,
    like the original.
  - Each is proved to leave the abstract lists exactly as the matching `Allocation` function
    says, and to keep `Tiles`.

Two behaviours of the original look unintended but are modelled as written:

- Removing a node that is not in the list silently does nothing. Failing loudly would be the
  safer contract.
- `malloc` does not reject a length that is zero or negative. `Allocation.Malloc` models every
  length. The tiling is proved only for positive lengths, because a block that is empty or has
  a negative length breaks it.

## Model

| member | source | states |
|---|---|---|
| LinkedLists.Node.constructor | LinkedList.java:92 | a new node holds the given block and links to nothing |
| LinkedLists.LinkedList.constructor | LinkedList.java:13-17 | a new list is valid and empty: `first` and `last` are null and `size` is 0 (`Valid` keeps `first == null` ⇔ `last == null` ⇔ `size == 0` throughout) |
| LinkedLists.LinkedList.GetFirst | LinkedList.java:23-25 | null exactly when the list is empty, otherwise the node holding element 0 |
| LinkedLists.LinkedList.GetLast | LinkedList.java:31-33 | null exactly when the list is empty, otherwise the node holding the last element, whose `next` is null |
| LinkedLists.LinkedList.GetSize | LinkedList.java:39-41 | the number of elements |
| LinkedLists.LinkedList.GetNode | LinkedList.java:52-67 | fails exactly outside `[0, size]`; for `index < size` it returns the node holding element `index`, and for `index == size` it returns null |
| LinkedLists.LinkedList.Add | LinkedList.java:88-114 | fails exactly when `index < 0 \|\| index > size`, leaving the list unchanged; otherwise the contents become `old[..index] + [block] + old[index..]`, one fresh node is added and the list stays valid |
| LinkedLists.LinkedList.Link | LinkedList.java:92-111 | the relinking done by `add`: the fresh node is first when `index == 0`, last when `index == size`, and is linked between its neighbours |
| LinkedLists.LinkedList.AddLast | LinkedList.java:123-125 | the contents become `old + [block]` |
| LinkedLists.LinkedList.AddFirst | LinkedList.java:134-136 | the contents become `[block] + old` |
| LinkedLists.LinkedList.GetBlock | LinkedList.java:147-154 | fails exactly when `index` is outside `[0, size)`, and otherwise returns element `index` |
| LinkedLists.LinkedList.IndexOf | LinkedList.java:163-171 | the first position holding `block`, or -1 when it does not occur (see `Blocks.FirstIndex`) |
| LinkedLists.LinkedList.Remove | LinkedList.java:179-202 | deletes the node at its position in the list, and exactly that node, from nodes, contents and footprint; changes nothing when the node is not in the list |
| LinkedLists.LinkedList.UnlinkFirst | LinkedList.java:180-185 | the first node is dropped; `last` becomes null when the list becomes empty |
| LinkedLists.LinkedList.UnlinkLater | LinkedList.java:187-201 | the scan from position 1 removes the given node if it occurs there, and otherwise changes nothing |
| LinkedLists.LinkedList.UnlinkAfter | LinkedList.java:190-198 | bypasses node `i`, moving `last` back when node `i` was last |
| LinkedLists.LinkedList.RemoveAt | LinkedList.java:212-217 | fails exactly outside `[0, size]`; deletes element `index` when `index < size`; `index == size` is a no-op |
| LinkedLists.LinkedList.RemoveBlock | LinkedList.java:226-233 | fails exactly when the block is absent; otherwise deletes its first occurrence and keeps the rest in order |
| LinkedLists.LinkedList.SetBlock | MemorySpace.java:76-77 | replacing the block of node `i` changes element `i` and nothing else (the in-place update of a block's fields) |
| LinkedLists.LinkedList.Sort | LinkedList.java:257-270 | the contents become `BubbleSort(old)`: sorted by base address, a permutation of the old contents, and unchanged when already sorted; the node chain is unchanged |
| LinkedLists.LinkedList.PassOver | LinkedList.java:259-268 | one pass of the inner loop performs `Pass(old, n)` |
| LinkedLists.LinkedList.CompareAndSwap | LinkedList.java:260-267 | one comparison swaps the blocks of nodes `j` and `j + 1` exactly as `BubbleStep` does |
| LinkedLists.BubbleSort | LinkedList.java:257-270 | the full sort: `\|s\| - 1` passes, pass `i` making `\|s\| - i - 1` comparisons; it keeps the length (sortedness and permutation are in `BubbleSortCorrect`) |
| LinkedLists.Pass | LinkedList.java:259-268 | the first `j` comparisons of a pass; keeps the length |
| LinkedLists.Passes | LinkedList.java:258-269 | the first `i` passes; keeps the length |
| LinkedLists.BubbleStep | LinkedList.java:263-267 | after one compare-and-swap the pair at `j` is in order |
| LinkedLists.Swap | LinkedList.java:264-266 | exchanges positions `j` and `j + 1` and leaves every other position alone |
| LinkedLists.StepPermutes | LinkedList.java:263-267 | a compare-and-swap permutes the blocks, does nothing to an ordered pair, and exchanges an unordered one |
| LinkedLists.BubbleStepKeeps | LinkedList.java:259-267 | a comparison inside a pass keeps the sorted suffix and carries the largest block seen so far one place right |
| LinkedLists.PassProgress | LinkedList.java:259-268 | after `j` comparisons of a pass, the largest of the first `j + 1` blocks is at `j` and the sorted suffix is intact |
| LinkedLists.BubbledGrows | LinkedList.java:258-268 | a completed pass extends the sorted suffix by one position |
| LinkedLists.PassesProgress | LinkedList.java:258-269 | after `i` passes the last `i` blocks are sorted and no earlier block is larger |
| LinkedLists.PassPermutes | LinkedList.java:259-268 | a pass permutes the blocks |
| LinkedLists.PassesPermute | LinkedList.java:258-269 | any number of passes permutes the blocks |
| LinkedLists.PassFixesSorted | LinkedList.java:259-268 | a pass over a sorted list changes nothing |
| LinkedLists.PassesFixSorted | LinkedList.java:258-269 | passes over a sorted list change nothing |
| LinkedLists.BubbleSortCorrect | LinkedList.java:257-270 | bubble sort yields a permutation of its input that is sorted by base address, and is the identity on sorted input |
| LinkedLists.DistinctIndex | LinkedList.java:163-171 | in a list of distinct nodes, the first occurrence of node `k` is at `k` |
| LinkedLists.InsertShape | LinkedList.java:88-114 | inserting a fresh node keeps the nodes distinct and the blocks in step, and adds exactly that node to the footprint |
| LinkedLists.RemoveShape | LinkedList.java:179-202 | removing a node keeps the rest distinct and the blocks in step, and removes exactly that node from the footprint |
| LinkedLists.LinkedAfterInsert | LinkedList.java:94-111 | the `next` links after an insertion form a chain ending in null |
| LinkedLists.LinkedAfterRemove | LinkedList.java:190-196 | the `next` links after a bypass form a chain ending in null |
| Blocks.FirstIndex | LinkedList.java:163-171 | -1 exactly when the value is absent; otherwise a position holding it with no earlier one |
| Blocks.FirstIndexFrom | LinkedList.java:164-168 | the same scan started at position `i` |
| Blocks.CountAppend | MemorySpace.java:71 | coverage of a concatenation is the sum of the coverages |
| Blocks.TotalLengthAppend | MemorySpace.java:71 | total length of a concatenation is the sum of the totals |
| Blocks.RemoveAtEffect | MemorySpace.java:74 | deleting a block takes away exactly its coverage and length |
| Blocks.ReplaceEffect | MemorySpace.java:76-77 | replacing a block swaps its coverage and length for the new block's |
| Blocks.PermutationEffect | LinkedList.java:257-270 | a permutation of blocks covers every address equally often and has the same total length |
| Blocks.MatchFirst | LinkedList.java:257-270 | a permutation's first block occurs in the other sequence, and the rests remain permutations |
| Allocation.Initial | MemorySpace.java:22-30 | a new space: nothing allocated, and a single free block whose length is `maxSize` |
| Allocation.InitialTiles | MemorySpace.java:22-30 | the initial space (nothing allocated, one free block `(0, maxSize)`) tiles `[0, maxSize)` when `maxSize >= 0` |
| Allocation.FirstFit | MemorySpace.java:63-84 | the first free block in list order whose length is at least `length`, or -1 exactly when none is |
| Allocation.FirstFitFrom | MemorySpace.java:66-84 | the same scan started at position `i` |
| Allocation.Malloc | MemorySpace.java:62-87 | when no free block fits, the result is `-1` and nothing changes; otherwise the result is the base of the first fit, and `(base, length)` is appended to the allocated list; either way the total length of both lists is unchanged |
| Allocation.MallocFailure | MemorySpace.java:66-86 | malloc returns -1 exactly when no free block is long enough, and then changes nothing |
| Allocation.MallocMoves | MemorySpace.java:67-80 | on success the allocated list gains `(address, length)` at its end, and the handed-out range leaves the free list's coverage and length and joins the allocated list's |
| Allocation.MallocFreeBounds | MemorySpace.java:73-78 | free blocks keep non-negative bases and lengths |
| Allocation.MallocKeepsTiles | MemorySpace.java:62-87 | malloc of a positive length keeps the tiling; the returned range was free, is now allocated and no longer free |
| Allocation.FindBase | MemorySpace.java:102-114 | the first allocated block based at `address`, or -1 exactly when none is |
| Allocation.FindBaseFrom | MemorySpace.java:104-114 | the same scan started at position `i` |
| Allocation.Free | MemorySpace.java:97-115 | fails exactly when nothing is allocated; otherwise the two lists together hold the same blocks as before; when a block is based at `address`, a block `(address, its length)` is appended to the free list |
| Allocation.FreeKeepsTiles | MemorySpace.java:97-115 | free fails exactly on an empty allocated list, and otherwise keeps the tiling |
| Allocation.FreeAfterMalloc | MemorySpace.java:62-115 | freeing the address that a successful malloc returned restores the allocated list and appends exactly the handed-out block to the free list |
| Allocation.HandedFoundLast | MemorySpace.java:102-107 | in a tiled space, the scan in `free` finds the block that malloc just appended, and no earlier block |
| Allocation.OnlyLastBasedAt | MemorySpace.java:102-107 | when no address is covered twice, a non-empty last block is the first block based where it starts |
| Allocation.Coalesce | MemorySpace.java:136-148 | merging never lengthens the list and keeps the first base |
| Allocation.CoalesceBounds | MemorySpace.java:140-142 | merging never lowers a base below a bound and never makes a length negative |
| Allocation.SortedCons | MemorySpace.java:145-147 | a block no higher than a sorted list can go in front of it |
| Allocation.CoalesceSorted | MemorySpace.java:136-148 | merging a sorted list keeps it sorted |
| Allocation.CoalesceNoMergeable | MemorySpace.java:136-148 | after merging, no two neighbours are adjacent in memory |
| Allocation.CoalesceEffect | MemorySpace.java:140-142 | merging keeps every address's coverage and the total length |
| Allocation.CoalesceFixpoint | MemorySpace.java:136-148 | a list with nothing left to merge is left alone |
| Allocation.CoalesceIdempotent | MemorySpace.java:136-148 | merging twice is merging once |
| Allocation.Defrag | MemorySpace.java:130-149 | the allocated list is untouched; the free list never grows, and it is empty exactly when it was empty before |
| Allocation.DefragShape | MemorySpace.java:130-149 | defrag leaves the allocated list alone; a free list of two or more blocks ends sorted by base with no mergeable neighbours |
| Allocation.DefragKeepsTiles | MemorySpace.java:130-149 | defrag keeps the tiling, so coverage and total free length are preserved |
| Allocation.MergeKeepsTiles | MemorySpace.java:133-148 | merging any permutation of the free list keeps the tiling |
| Allocation.DefragIdempotent | MemorySpace.java:130-149 | defragmenting twice is defragmenting once |
| MemorySpaces.MemorySpace.constructor | MemorySpace.java:22-30 | the allocated list is empty and the free list is exactly `[(0, maxSize)]`; the space is tiled when `maxSize >= 0` |
| MemorySpaces.MemorySpace.Malloc | MemorySpace.java:62-87 | the returned address and the new lists are those of `Allocation.Malloc`; a positive-length malloc keeps the tiling; the only new nodes are fresh ones in the allocated list, and the free list's nodes can only decrease |
| MemorySpaces.MemorySpace.Allocate | MemorySpace.java:68-80 | the success branch of malloc for the first-fit block `k` |
| MemorySpaces.MemorySpace.AppendAllocated | MemorySpace.java:71 | the allocated list gains the block at its end; the free list is unchanged |
| MemorySpaces.MemorySpace.DropFree | MemorySpace.java:74 | deletes free block `k` |
| MemorySpaces.MemorySpace.ReplaceFree | MemorySpace.java:76-77 | replaces free block `k` in place |
| MemorySpaces.MemorySpace.Settle | MemorySpace.java:62-87 | a space equal to a malloc of a tiled space is tiled |
| MemorySpaces.MemorySpace.Free | MemorySpace.java:97-115 | fails exactly when nothing is allocated, changing nothing; otherwise the new lists are those of `Allocation.Free`; the tiling is kept; the allocated list's nodes can only decrease, and any new free node is fresh |
| MemorySpaces.MemorySpace.Release | MemorySpace.java:107-110 | moves the first allocated block based at `address` to the end of the free list |
| MemorySpaces.MemorySpace.TakeAllocated | MemorySpace.java:108 | deletes the first occurrence of the block from the allocated list |
| MemorySpaces.MemorySpace.AppendFree | MemorySpace.java:109 | the free list gains the block at its end |
| MemorySpaces.MemorySpace.Released | MemorySpace.java:97-115 | a space equal to a successful free of a tiled space is tiled |
| MemorySpaces.MemorySpace.Defrag | MemorySpace.java:130-149 | the new lists are those of `Allocation.Defrag`: at most one free block is left alone, otherwise the free list is bubble sorted and merged; the tiling is kept; the free list's nodes can only decrease |
| MemorySpaces.MemorySpace.SortFree | MemorySpace.java:133 | the free list becomes its bubble sort |
| MemorySpaces.MemorySpace.MergeAdjacent | MemorySpace.java:134-148 | the cursor loop turns the free list into `Coalesce` of it |
| MemorySpaces.MemorySpace.MergeNext | MemorySpace.java:140-143 | merging the successor into the current block and removing it leaves `Coalesce` of the remainder unchanged, with the cursor still in place |
| MemorySpaces.MemorySpace.Skip | MemorySpace.java:145-147 | moving past a non-adjacent pair leaves `Coalesce` of the remainder unchanged |
| MemorySpaces.MemorySpace.Finish | MemorySpace.java:136 | when the cursor reaches the last node, the list is fully merged |

## Left out

- `toString` of both classes: debug output only.
- `iterator()` and `ListIterator`: nothing in the allocator uses them, and `ListIterator` is not part of this model.
- Java's 32-bit `int`: addresses and lengths are unbounded integers, so `baseAddress + length` never wraps around.
- Exceptions: each `IllegalArgumentException` becomes a `false` or `None` result. A null dereference that the original would crash on becomes a precondition.
  - `LinkedLists.LinkedList.GetBlock` requires `index != size` on a non-empty list, where the original dereferences null.
  - `LinkedLists.LinkedList.RemoveAt` requires a non-empty list when `index == 0`, where the original dereferences null.
- `LinkedLists.LinkedList.IndexOf`: the original compares blocks by reference and the model compares them by value. In `free` both give the same position. The block found is the first one based at `address`. Any earlier block equal to it would have that same base, so no earlier block is equal to it (`MemorySpaces.MemorySpace.Release`).
- `MemoryBlock` is a value. Updating a block's fields in place (shrinking a free block in `malloc`, lengthening one in `defrag`, swapping blocks in `sort`) is modelled as replacing the list element. Aliasing of one block object from two lists is not modelled; the original never creates it.
- Helper methods: the bodies of `remove(Node)`, `add`, `sort`, `malloc`, `free` and `defrag` are split into helper methods (`Link`, `UnlinkFirst`, `UnlinkLater`, `UnlinkAfter`, `PassOver`, `CompareAndSwap`, `Allocate`, `Release`, `MergeNext` and the list wrappers). They keep the original's order of steps.
- `MemorySpaces.MemorySpace.Malloc` keeps the tiling only for `length > 0`. The original does not reject other lengths, and their effect is modelled exactly by `Allocation.Malloc`, but a zero-length or negative block breaks the tiling.
- `MemorySpaces.MemorySpace.constructor` establishes the tiling only for `maxSize >= 0`. A negative size makes a block of negative length.
- `maxSize` is kept only as ghost state of `MemorySpace`, because the original does not store it.
