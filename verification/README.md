# InfOS: memory, scheduling and archive invariants

A Dafny model of the parts of InfOS that keep state other parts rely on: the two page allocators' layers, the
four-level page table, the kernel heap (dlmalloc), the scheduler with its run queues and wait lists, and the TAR
reader. Each class holds the fields the source updates and its methods make the source's steps; a `Valid()`
predicate, proved to survive every method, ties the fields to a mathematical description, and the theorems are
about that description.

| files | what they model |
|---|---|
| `Powers`, `MachineBytes`, `Options`, `Sets`, `Sequences` | powers of two, quotients, bytes, optional values, counting, taking elements out |
| `Blocks`, `FreeLists`, `Buddy`, `PageAllocator` | the buddy algorithm on arrays of links, and the tags kept on top of it |
| `PhysicalMemory`, `VirtualMemory` | memory as bytes, and page tables stored in it |
| `ChunkSizes`, `Bitmaps`, `Rings`, `TreeIndex`, `TrieCells`, `Tries`, `TreeSearch`, `TreeBins`, `SmallBins`, `HeapLayout`, `Heap` | dlmalloc: bin maps, circular lists, size classes, tries, boundary tags, malloc, free, memalign |
| `Entities`, `WakeCascade`, `CfsAccounting`, `Scheduler`, `LinkedLists`, `RingLists`, `RoundRobin` | entity states, wake-ups, CPU time, the two scheduling algorithms and their lists |
| `TarFiles`, `TarTree` | octal fields, block-buffered reading, the walk over an archive, the tree of nodes |

## How the pieces are described

**Buddy lists.** The free lists are described by one set of block addresses per order. `Structured` says that blocks
are aligned, in range and disjoint; `NoBuddies` that no two listed buddies could still be merged. Then the lists are
a function of the set of free pages (`Canonical`): exactly the maximal aligned free blocks. The links are a function of
the lists (`LinksDetermined`), so every round trip and every order of frees ends in identical memory.

**Page tables.** The mapping is a plain map from page numbers to entries. The tables are nodes of a radix tree, each
in a page of its own that is tagged as allocated and never a data page. Memory is one array of bytes; entries are
little-endian words read and written in it, so that a stray store would be visible.

**dlmalloc.** The configuration is the one the file selects: 64 bits, alignment 16, no footers, no locks. Chunk addresses are
numbers. The heads and prev_foot words, the links of the lists, the nodes of the tries, the two bin maps, `dv` and `top`
are fields; the tiling of the segment and the set of chunks in use are ghost. A trie node stands for a range of sizes,
and the invariant is stated node by node.

**Scheduler.** The states, wait lists and run queue are maps and sequences of entities. The outcome of a state change is
described by what the wait lists reach (`StatesAfter`, `WaitersAfter`), and so is the case in which the walk along a list goes
wrong (`ComesBack`). Whole runs come with a trace of what there was to see after each command.

**Archives.** A disk is a sequence of blocks some of which cannot be read. A well-formed archive is a list of members,
each a header block followed by as many data blocks as its size field asks for.

## Where the code and its own description differ

- `compute_tree_index` keeps `S >> 8` in a 32-bit variable. For sizes from 2^40 bytes on the chosen bin can be wrong;
  `IndexExact` says exactly when. The heap never gets that far, because the page allocator's largest block is 2^28 bytes.
- The comment on `init_bins` calls the bins circular; an emptied small bin keeps stale links in its header, and only its map
  bit says that it is empty. The model keeps the stale header.
- Round-robin and CFS are both meant to be fair. Under CFS an entity that joins while a longer-served one is running sees the gap
  grow beyond both its starting value and one tick (`UnfairExample`, a run from rest); `FairExact` gives the exact condition.
- `octal2ui` skips the first character of its argument; `OctalExact` says when the result is the number written.
- The internal driver's read stops at the requested count or at an unreadable block, not at the end of the file.
  `Pread` says exactly when it goes past the end (`ReadsPastEnd`); `ReadPastEnd` is a file of ten bytes of which 512 are read.
- `copy_to` runs on in physical memory at the end of a page; `CopyExact` says when that is where the next page is mapped.
- The page allocator's wrapper tags pages through the returned pointer without testing it for null; the model makes that an
  outcome of its own (`NullTagged`), reached exactly when the algorithm finds no block. It ends the call where the source
  would go on through the null pointer.
- A thread whose change of state comes back to it is changed again while its own list of waiters is being walked; the nested call
  frees the list and the walk goes on in freed memory. The model's methods return false there. `SetEntityState` and `SleepOn` say
  exactly when: never when the entity becomes runnable, else iff it waits for something its own change reaches through entities
  that are not runnable. Two threads that join each other do it (`MutualWaitComesBack`, `MutualJoin`); a cycle with a runnable
  entity on it need not (`HarmlessCycle`).
- `internal_memalign` rounds an alignment that is no power of two up by doubling a 64-bit variable. Above 2^63 the variable wraps
  around to zero and the loop never ends: `RoundingExact` says that 2^63 is the limit, `EndlessRounding` is the first example.
- `insert_mapping` cannot report failure: without memory for a table it halts. The model returns false there, and says how
  many free pages are enough.

## Model

| member | source | states |
|---|---|---|
| Blocks.Canonical | coursework/buddy.cpp:203-213 | in every valid state a block is listed at an order iff it is aligned, entirely free and, below the top order, not part of a larger free block |
| Blocks.CanonicalUnique | coursework/buddy.cpp:203-271 | two valid states with the same free pages have the same lists |
| Blocks.Covered | coursework/buddy.cpp:242-255 | an aligned, entirely free run lies inside one listed block of at least its order |
| Blocks.HeadsComplete | coursework/buddy.cpp:242-255 | looking only at list heads finds a block iff some aligned run of the size is entirely free |
| Blocks.FirstHeadFits | coursework/buddy.cpp:245-251 | the head taken is the lowest of the smallest maximal free blocks that are large enough |
| Blocks.SplitKeeps | coursework/buddy.cpp:146-168 | replacing a block by its halves keeps alignment, disjointness and the free pages |
| Blocks.MergeKeeps | coursework/buddy.cpp:177-201 | replacing two buddies by their union keeps alignment, disjointness and the free pages |
| FreeLists.LinkInsert | coursework/buddy.cpp:96-114 | linking a block in before the first larger one gives the lists with that block added |
| FreeLists.LinkRemove | coursework/buddy.cpp:122-136 | bypassing a block gives the lists without it, its own link cleared |
| FreeLists.LinkRemovePair | coursework/buddy.cpp:187-199 | bypassing two neighbouring blocks at once gives the lists without either, both links cleared |
| FreeLists.LinksDetermined | coursework/buddy.cpp:96-136 | heads and links are determined by the sets of listed blocks |
| FreeLists.WalkListsBlocks | coursework/buddy.cpp:96-114 | following a list from its head gives strictly ascending pages, exactly the listed ones |
| FreeLists.PointerTestExact | coursework/buddy.cpp:203-213 | one of the two link comparisons succeeds iff the buddy is itself free at this order, and the descriptor read is at most the sentinel behind the last page |
| Buddy.BuddyPageAllocator.BuddyOf | coursework/buddy.cpp:66-87 | the buddy is the other half of the same block of the next order; which is left is told by alignment |
| Buddy.BuddyPageAllocator.InsertBlock | coursework/buddy.cpp:96-114 | adds one block to one list and returns the slot that points to it |
| Buddy.BuddyPageAllocator.RemoveBlock | coursework/buddy.cpp:122-136 | takes one block off one list |
| Buddy.BuddyPageAllocator.SplitBlock | coursework/buddy.cpp:146-168 | a block is replaced by its halves; the free pages stay the same |
| Buddy.BuddyPageAllocator.MergeBlock | coursework/buddy.cpp:177-201 | a pair of buddies is replaced by their union; the free pages stay the same |
| Buddy.BuddyPageAllocator.TryMerge | coursework/buddy.cpp:203-213 | from lists whose only mergeable pairs are around a page, merging upwards ends in a valid state with the same free pages |
| Buddy.BuddyPageAllocator.SplitToLeft | coursework/buddy.cpp:215-223 | the page becomes a block of the wanted order, first among the new ones; the free pages stay the same |
| Buddy.BuddyPageAllocator.AllocPages | coursework/buddy.cpp:242-255 | fails iff no aligned free run exists, changing nothing; otherwise removes exactly one aligned free run, the lowest best-fitting one |
| Buddy.BuddyPageAllocator.FreePages | coursework/buddy.cpp:262-271 | adds exactly the freed run to the free pages and stays valid |
| Buddy.BuddyPageAllocator.ReservePage | coursework/buddy.cpp:289-310 | true iff the page is free; then removes exactly it; otherwise nothing changes |
| Buddy.BuddyPageAllocator.Init | coursework/buddy.cpp:316-344 | afterwards every page is free |
| Buddy.AllocThenFree | coursework/buddy.cpp:242-271 | freeing what was just allocated restores heads and links exactly |
| Buddy.ReserveThenFree | infos/mm/page-allocator.cpp:326-342 | freeing a reserved page restores heads and links exactly |
| Buddy.FreeAll | coursework/buddy.cpp:262-271 | freeing a list of disjoint blocks adds exactly their pages |
| Buddy.FreeableAsBag | coursework/buddy.cpp:262-271 | whether blocks may be freed one after the other does not depend on their order |
| Buddy.FreeOrderIrrelevant | infos/mm/page-allocator.cpp:278-323 | freeing the same blocks in any two orders leaves identical heads and links, when one of the orders is possible |
| PageAllocation.PageAllocator.MarkPageRange | infos/mm/page-allocator.cpp:161-168 | exactly the range gets the tag |
| PageAllocation.PageAllocator.Init | infos/mm/page-allocator.cpp:85-158 | succeeds; the free pages are the normal memory outside page zero, initial tables, image, stack and descriptors, and every tag is as it should be; the page of each of the 16 bytes of every descriptor is reserved and not free, and at most one page behind the last is withdrawn with them |
| PageAllocation.DescriptorsCovered | infos/mm/page-allocator.cpp:124-128 | the reserved range holds every byte of the descriptors and at most one page more |
| PageAllocation.PageAllocator.ReserveUnavailable | infos/mm/page-allocator.cpp:147-158 | makes free set and available tags agree, and never fails |
| PageAllocation.PageAllocator.AllocPages | infos/mm/page-allocator.cpp:176-194 | the tag assertion holds, agreement is kept, and exactly the run is tagged; the null pointer is tagged through iff no run exists, with tags and free pages as before |
| PageAllocation.PageAllocator.FreePages | infos/mm/page-allocator.cpp:201-216 | the tag assertion holds, agreement is kept, and exactly the run becomes available |
| PageAllocation.RunPageClient | infos/mm/page-allocator.cpp:176-216 | over any sequence of allocations and frees, up to a request for which no aligned run is free: each call takes or gives back exactly its run, the blocks held are apart all the time, and with the free pages make up the pages free at the start; when all are given back, every link and tag is as it was |
| PhysicalMemory.WordOfBytes | infos/mm/vma.cpp:74-90 | a 64-bit word written byte by byte reads back |
| PhysicalMemory.LittleEndian | infos/mm/vma.cpp:74-90 | the lowest byte of a word comes first |
| PhysicalMemory.ClearPages | infos/mm/vma.cpp:193 | exactly the pages of the run are zero afterwards |
| VirtualMemory.IndexDigits | infos/mm/vma.cpp:49-59 | the four table indices are the base-512 digits of the page number; the user half is where the first is below 256 |
| VirtualMemory.PageBounds | infos/mm/vma.cpp:49-59 | an address lies in its page, and the user half ends at 2^47 |
| VirtualMemory.PteBits | infos/mm/vma.cpp:79-125 | base and flags are where the processor looks for them, bits 0, 1 and 2 and from bit 12 on; setting each flag means what it says |
| VirtualMemory.PteWithBase | infos/mm/vma.cpp:83-86 | replacing the base keeps the flags |
| VirtualMemory.VMA.constructor | infos/mm/vma.cpp:20-27 | a new address space maps nothing |
| VirtualMemory.VMA.AllocatePhys | infos/mm/vma.cpp:183-196 | a fresh cleared run, recorded; the tables and everything outside the run keep their contents |
| VirtualMemory.VMA.LinkTable | infos/mm/vma.cpp:138-146 | a fresh cleared page becomes a new empty table; all other entries and the mapping stay |
| VirtualMemory.VMA.NextTable | infos/mm/vma.cpp:136-148 | base zero is a sound test for a missing table; following or creating it changes no mapping, no data page and no kernel entry; it fails exactly when the table is missing and no page is free |
| VirtualMemory.VMA.EntryBase | infos/mm/vma.cpp:138 | an upper-level entry has base zero iff there is no table below it, and is present iff there is |
| VirtualMemory.VMA.InsertMapping | infos/mm/vma.cpp:131-179 | every address of the page leads to the page of pa with its offset kept, every other address where it led before, and flags are added to those the page had; it gives up, leaving the mapping as it was, exactly when more tables are missing on the way than pages are free; otherwise exactly the tables on the way have been added, a page for each; pages allocated to others keep tag and contents, and new tables are in pages that were available |
| VirtualMemory.PathMissing | infos/mm/vma.cpp:136-170 | the number of tables missing on the way to a page, level by level |
| VirtualMemory.VMA.GetMapping | infos/mm/vma.cpp:232-265 | the four-level walk returns what the map says, page base plus offset |
| VirtualMemory.OrderRange | infos/include/infos/define.h:129-135 | the order is the least whose block holds the page count; a negative count gives an order nothing satisfies |
| VirtualMemory.VMA.AllocateVirt | infos/mm/vma.cpp:203-224 | all 2^ceil(log2 n) pages are mapped to consecutive fresh zeroed frames, exactly when such a run is free and leaves a page for every table missing on the way; other pages and other data stay |
| VirtualMemory.VMA.CopyTo | infos/mm/vma.cpp:268-280 | exactly the bytes behind the first mapped address are replaced, tables untouched; false iff unmapped |
| VirtualMemory.MapBeside | infos/mm/vma.cpp:131-179 | mapping a page in one address space leaves a second one on the same memory valid, with the same mapping, tables and data |
| VirtualMemory.AllocateBeside | infos/mm/vma.cpp:203-224 | so does mapping a whole fresh region |
| VirtualMemory.VMA.InstallDefaultKernelMapping | infos/mm/vma.cpp:39-47 | sets the two kernel entries and leaves the user mapping alone |
| VirtualMemory.MapAndCopy | infos/mm/vma.cpp:203-280 | whenever there is room for the region and its tables, what is copied into it reads back byte for byte through the mapping |
| VirtualMemory.CopyExact | infos/mm/vma.cpp:268-280 | a copy lands where each destination address is mapped iff the pages are mapped to consecutive frames |
| VirtualMemory.CopyAcross | infos/mm/vma.cpp:268-280 | two neighbouring pages mapped apart for which the copy goes wrong |
| Bitmaps.Mark | infos/mm/dlmalloc.cpp:2982-2987 | adds one bin to the set the map stands for |
| Bitmaps.Clear | infos/mm/dlmalloc.cpp:2983-2988 | removes one bin |
| Bitmaps.LeftBins | infos/mm/dlmalloc.cpp:2991-2997 | keeps exactly the marked bins above a given one |
| Bitmaps.LowestBin | infos/mm/dlmalloc.cpp:3002-3008 | the least bit's index is the lowest marked bin |
| Bitmaps.FromIndex | infos/mm/dlmalloc.cpp:4641-4663 | the shifted small map tells which of two adjacent bins is marked, or the next marked one |
| Rings.Unlink | infos/mm/dlmalloc.cpp:3777-3783 | bypassing an element of a circular list gives the list without it |
| Rings.InsertAfterHead | infos/mm/dlmalloc.cpp:3631-3645 | linking an element behind the header gives the list with it in front |
| TreeIndex.IndexInBin | infos/mm/dlmalloc.cpp:2899-2910 | for sizes from 256 bytes to 2^40 the computed bin's range holds the size |
| TreeIndex.MinSizes | infos/mm/dlmalloc.cpp:2971-2973 | the bins start at 256 and 384 bytes and at twice the size every second bin |
| TreeIndex.IndexExact | infos/mm/dlmalloc.cpp:2899-2910 | for every size_t from 256 on, the bin is right iff the size is below 2^40 or its low 40 bits are at least 0xC00000 |
| TreeIndex.IndexTooSmall | infos/mm/dlmalloc.cpp:2899-2910 | a size of 2^40 is put into the bin of the smallest large chunks |
| TrieCells.SizeBitsTop | infos/mm/dlmalloc.cpp:2966-2969 | the top bit of the shifted size is the bit that decides between the halves of a range |
| TrieCells.BinWidth | infos/mm/dlmalloc.cpp:2966-2969 | each bin but the last holds 2^h sizes, and the shift leaves the h bits that differ in it |
| TrieCells.CoverSub | infos/mm/dlmalloc.cpp:3361-3410 | a size in a range is in exactly one half, the one its deciding bit names |
| TrieCells.LeftBelowRight | infos/mm/dlmalloc.cpp:3361-3410 | every size in a left half is smaller than every size in the right half |
| Tries.Ancestor | infos/mm/dlmalloc.cpp:3361-3410 | on the path from a node to its root there is a node for every range |
| Tries.Descend | infos/mm/dlmalloc.cpp:3361-3410 | everything below a node is the node, below its left child or below its right child, by the deciding bit |
| Tries.AddNode | infos/mm/dlmalloc.cpp:3709-3740 | hanging a leaf for a new size keeps the trie invariant and adds one chunk |
| Tries.GrowRing | infos/mm/dlmalloc.cpp:3741-3752 | linking a chunk of an existing size into its ring keeps the invariant and adds one chunk |
| Tries.ShrinkRing | infos/mm/dlmalloc.cpp:3777-3785 | taking a chunk out of a ring keeps the invariant and removes one chunk |
| Tries.DetachLeaf | infos/mm/dlmalloc.cpp:3790-3803 | a leaf can be taken off its place |
| Tries.ReplaceNode | infos/mm/dlmalloc.cpp:3806-3845 | another node of the subtree can take a node's place |
| LargeBins.TreeBins.InsertLargeChunk | infos/mm/dlmalloc.cpp:3709-3758 | adds exactly the chunk with its size; the descent ends because the height falls |
| LargeBins.TreeBins.UnlinkLargeChunk | infos/mm/dlmalloc.cpp:3777-3846 | removes exactly the chunk, whether it shares its size or not, is a leaf or not, a root or not |
| LargeBins.TreeBins.RightmostLeaf | infos/mm/dlmalloc.cpp:3790-3803 | finds the leaf that is reached by going right wherever that is possible and else left, or none if the node has no children |
| LargeBins.TreeBins.FindLarge | infos/mm/dlmalloc.cpp:4495-4543 | finds a smallest binned chunk of at least nb bytes, and none iff there is none |
| LargeBins.TreeBins.FindSmallest | infos/mm/dlmalloc.cpp:4566-4583 | finds a smallest large chunk |
| TreeSearch.WrappedOrder | infos/mm/dlmalloc.cpp:4497-4540 | comparing the wrapped differences, starting from the wrapped negation of nb, compares the sizes that fit |
| TreeSearch.NextBin | infos/mm/dlmalloc.cpp:4524-4532 | what fits and is not in the request's own bin is in a later marked bin, and the lowest of these has the smallest |
| SmallBinLists.SmallBins.InsertSmallChunk | infos/mm/dlmalloc.cpp:3631-3646 | adds exactly the chunk to the bin of its size |
| SmallBinLists.SmallBins.UnlinkSmallChunk | infos/mm/dlmalloc.cpp:3650-3673 | removes exactly the chunk; the map bit goes when the bin is empty |
| SmallBinLists.SmallBins.UnlinkFirstSmallChunk | infos/mm/dlmalloc.cpp:3676-3692 | removes exactly the first chunk of a marked bin |
| HeapLayout.PrevChunk | infos/mm/dlmalloc.cpp:4766-4778 | a clear pinuse bit and the prev_foot lead to the free chunk in front |
| HeapLayout.NextChunk | infos/mm/dlmalloc.cpp:3314-3345 | a chunk's head tells its size and use, and the next head's pinuse agrees with it |
| HeapLayout.TakenOk | infos/mm/dlmalloc.cpp:3120-3122 | putting a whole free chunk in use keeps the tiling and all tags |
| HeapLayout.TakenSplitOk | infos/mm/dlmalloc.cpp:4549-4554 | splitting a free chunk keeps the tiling and all tags |
| HeapLayout.TakenTopOk | infos/mm/dlmalloc.cpp:4719-4729 | splitting top keeps the tiling and all tags |
| HeapLayout.MergedOk | infos/mm/dlmalloc.cpp:2348-2353 | turning a run of chunks into one free chunk keeps the tiling and all tags |
| HeapLayout.MergedTopOk | infos/mm/dlmalloc.cpp:4795-4804 | turning the last run into top keeps the tiling and all tags |
| HeapLayout.UsedSplitOk | infos/mm/dlmalloc.cpp:3115-3117 | cutting a chunk in use in two keeps the tiling and all tags |
| HeapLayout.RunIndexed | infos/mm/dlmalloc.cpp:4778-4826 | after coalescing, each free chunk is in exactly one of bins and victim, the new one still to be recorded |
| HeapLayout.EachByteOnce | infos/mm/dlmalloc.cpp:3484-3512 | every byte between the segment's start and top is in exactly one chunk |
| HeapLayout.LayoutDetermined | infos/mm/dlmalloc.cpp:3484-3542 | the chunks in use and the segment's bounds determine all free chunks and top |
| HeapLayout.AllFree | infos/mm/dlmalloc.cpp:4795-4804 | with nothing in use the whole segment is top |
| HeapLayout.PayloadSafe | infos/mm/dlmalloc.cpp:2270-2290 | no head word, free chunk's body, live prev_foot or other payload overlaps the payload of a chunk in use |
| KernelHeap.Heap.ReplaceDv | infos/mm/dlmalloc.cpp:3695-3704 | the new victim is recorded and the old one is binned |
| KernelHeap.Heap.TmallocLarge | infos/mm/dlmalloc.cpp:4495-4563 | serves the request from a smallest fitting chunk, or leaves it to the victim only when that is one |
| KernelHeap.Heap.TmallocSmall | infos/mm/dlmalloc.cpp:4566-4602 | always serves the request when there are large chunks |
| KernelHeap.Heap.MallocSmall | infos/mm/dlmalloc.cpp:4636-4689 | serves a small request with a chunk of exactly its size if one is binned, else leaves it to the victim if that is large enough, else takes a smallest chunk that fits and makes what is left of it the victim |
| KernelHeap.Heap.MallocDv | infos/mm/dlmalloc.cpp:4699-4717 | serves the request from the victim, keeping the rest as victim if it is a chunk |
| KernelHeap.Heap.MallocTop | infos/mm/dlmalloc.cpp:4719-4729 | serves the request from top |
| KernelHeap.Heap.SysAlloc | infos/mm/dlmalloc.cpp:4098-4304 | the first segment is the region the system gave, of the least multiple of 64 KB with room for the request and 96 bytes; it is top and serves the request; refused, changing nothing, iff there is a segment already, the system has no memory, or the region would be larger than 2^28 bytes |
| KernelHeap.Heap.RegionExact | infos/mm/dlmalloc.cpp:4113-4115 | the region has room for the request and its padding, in steps of 64 KB |
| KernelHeap.Heap.Malloc | infos/mm/dlmalloc.cpp:4605-4738 | keeps the heap well formed; hands out one formerly free chunk with room for the request, sized by the least chunk for it; fails iff no free chunk nor top fits and no first segment is available; large requests are best fit, small ones exact fit before victim before best fit; says what becomes of the victim and where the first segment is |
| KernelHeap.LeastChunkIsLeast | infos/mm/dlmalloc.cpp:4633-4634 | the size looked for is the least multiple of 16 with room for the request behind a head word |
| KernelHeap.Heap.DisposeChunk | infos/mm/dlmalloc.cpp:4424-4490 | coalesces in every combination of neighbours; exactly the chunk goes out of use and the heap stays well formed |
| KernelHeap.Heap.Free | infos/mm/dlmalloc.cpp:4743-4850 | exactly the chunk goes out of use; null is ignored; the run-time checks on the way always pass |
| KernelHeap.Heap.AlignedSpot | infos/mm/dlmalloc.cpp:4970-4990 | an aligned spot with a leader of at least a chunk and room for the request always exists |
| KernelHeap.Heap.RoundingExact | infos/mm/dlmalloc.cpp:4953-4959 | the rounding of an alignment comes to an end iff it is at most 2^63 |
| KernelHeap.Heap.EndlessRounding | infos/mm/dlmalloc.cpp:4955-4958 | 2^63 + 1 is never reached |
| KernelHeap.Heap.AlignmentRounds | infos/mm/dlmalloc.cpp:4953-4959 | the alignment used is the least power of two that is at least 32 and the one asked for |
| KernelHeap.Heap.RoundsOnce | infos/mm/dlmalloc.cpp:4953-4959 | there is only one such power of two |
| KernelHeap.Heap.Memalign | infos/mm/dlmalloc.cpp:4951-5023 | the address is a multiple of the least power of two that is at least 32 and the alignment, hence of the alignment if that is a power of two; the block fits with at most a chunk to spare; all else given back; null iff the request is too large or the enlarged one cannot be allocated |
| KernelHeap.MallocThenFree | infos/mm/dlmalloc.cpp:4605-4850 | freeing what was just allocated restores the layout of the segment exactly |
| KernelHeap.RunClient | infos/mm/dlmalloc.cpp:4605-5023 | over any sequence of allocations, aligned or not, and frees: each call takes or gives back exactly its chunk and returns null exactly when it must; all the time every live block is aligned, large enough, in use and inside the region the system gave, and nothing else is in use; with no live blocks left all memory is top |
| LinkedLists.List.Append | infos/include/infos/util/list.h:94-106 | adds an element at the end |
| LinkedLists.List.Remove | infos/include/infos/util/list.h:108-124 | removes the first occurrence, if any |
| LinkedLists.List.Push | infos/include/infos/util/list.h:144-152 | puts an element in front |
| LinkedLists.List.Dequeue | infos/include/infos/util/list.h:126-137 | takes the front off and returns it |
| LinkedLists.List.Clear | infos/include/infos/util/list.h:193-204 | the list is empty |
| RingLists.List.AddAfter | coursework/Core/List.h:66-72 | the ring is extended by the node, behind the given one |
| RingLists.List.RemoveNode | coursework/Core/List.h:74-86 | the ring loses the node; the root moves on when it was the root |
| RingLists.List.AddToTail | coursework/Core/List.h:111-122 | appends an element |
| RingLists.List.AddToHead | coursework/Core/List.h:99-110 | puts an element in front |
| RingLists.List.Remove | coursework/Core/List.h:147-164 | removes every occurrence and keeps the order of the rest |
| RingLists.WithoutExact | coursework/Core/List.h:147-164 | without an element means none of it and as many as before of every other |
| RingLists.WithoutParts | coursework/Core/List.h:147-164 | removing treats the parts of a list one by one, so the order stays |
| RingLists.List.Skew | coursework/Core/List.h:260-264 | rotates by one and returns the former front |
| RingLists.FirstMatch | coursework/Core/List.h:152-163 | removing the first of the collected nodes leaves the others collected and the remaining contents as they should be |
| RoundRobin.RoundRobinScheduler.PickNextEntity | coursework/sched-rr.cpp:1924-1929 | picks the front, which moves to the end; none iff empty |
| RoundRobin.BoundedWaiting | coursework/sched-rr.cpp:1903-1929 | an entity at position p that stays queued is picked by the (p+1)-st pick under any adds and removes of others |
| RoundRobin.NotPickedEarlier | coursework/sched-rr.cpp:1903-1929 | the bound is tight while nothing is removed |
| RoundRobin.Run | coursework/sched-rr.cpp:1903-1929 | whole runs on the linked ring pick what runs on the sequence pick |
| RoundRobin.RunFairly | coursework/sched-rr.cpp:1903-1929 | a run on the linked ring picks every entity at a position p that is not removed, if it picks more than p times |
| WakeCascade.NextWoken | infos/util/wakequeue.cpp:26-34 | waking one more waiter, with all that follows, extends the outcome, unless it comes back |
| WakeCascade.AllWoken | infos/util/wakequeue.cpp:26-34 | once all waiters are awake, exactly what is reached has changed, and nothing came back |
| WakeCascade.CameBack | infos/util/wakequeue.cpp:26-34 | when the walk finds its entity changed, the change has come back along the wait lists, and the list being walked is gone |
| WakeCascade.OrderIrrelevant | infos/kernel/sched.cpp:173-199 | neither the states nor whether a change comes back depends on the order of the wait lists |
| WakeCascade.AcyclicSafe | infos/kernel/sched.cpp:173-199 | without a cycle in the wait relation no change comes back |
| WakeCascade.MutualWait | infos/kernel/syscall.cpp:244-258 | if a sleeps and waits for b, a change of b that waits for a comes back |
| WakeCascade.MutualWaitComesBack | infos/kernel/syscall.cpp:244-258 | two threads for which it does |
| WakeCascade.HarmlessCycle | infos/kernel/sched.cpp:173-199 | two threads on a cycle for which it does not |
| Scheduling.QueuedAfter | infos/kernel/sched.cpp:180-194 | the change of the run queue keeps membership exact |
| Scheduling.JoinsAtEnd | infos/kernel/sched.cpp:180-194 | those who stay queued keep their places, and an entity that becomes runnable joins at the end |
| Scheduling.PlacesInQueue | infos/kernel/sched.cpp:180-194 | exact membership means one place or none |
| Scheduling.Scheduler.SetEntityState | infos/kernel/sched.cpp:173-199 | ends under any wait relation and keeps membership exact for every entity including nested wake-ups; exactly what the wait lists reach becomes runnable and joins the queue at its end; a list is cleared under the walk along it iff the entity does not become runnable and its change comes back |
| Scheduling.Scheduler.Trigger | infos/util/wakequeue.cpp:26-34 | wakes all waiters in turn, with all that follows from it, and clears the list; false iff the change comes back |
| Scheduling.Scheduler.SleepOn | infos/util/wakequeue.cpp:19-24 | the thread sleeps at the end of the list and the awaited entity is unchanged; false iff its falling asleep comes back |
| Scheduling.MutualJoin | infos/kernel/syscall.cpp:244-258 | once one thread sleeps waiting for another, the other cannot wait for it without clearing a list under a walk |
| Scheduling.Scheduler.PickNextEntity | infos/kernel/sched-cfs.cpp:57-72 | the first queued entity of least CPU time |
| CfsAccounting.FirstMinIsLeast | infos/kernel/sched-cfs.cpp:57-72 | that entity has at most the time of all and less than all in front of it |
| Scheduling.Scheduler.Schedule | infos/kernel/sched.cpp:110-147 | a queued entity of least CPU time runs from now on, or the idle one iff nothing is queued; either is runnable, and nobody is charged |
| CfsAccounting.ScheduledDecides | infos/kernel/sched.cpp:115-142 | the same of the accounts |
| Scheduling.Scheduler.UpdateAccounting | infos/kernel/sched.cpp:152-166 | the running entity is charged for the time since its start time |
| Scheduling.Scheduler.Tick | infos/drivers/timer/lapic-timer.cpp:190-196 | a tick advances the clock by 10 ms, charges them to the running entity and decides anew; what runs then is runnable |
| CfsAccounting.Fair | infos/kernel/sched-cfs.cpp:57-72 | two entities that stay queued drift apart by no more than their starting gap or one tick, over every run |
| CfsAccounting.FairExact | infos/kernel/sched-cfs.cpp:57-72 | that bound holds over every run iff at the start neither of the two runs while ahead of the other |
| CfsAccounting.ScheduledSettled | infos/kernel/sched.cpp:110-147 | right after a scheduling decision with both queued the condition holds |
| CfsAccounting.UnfairExample | infos/kernel/sched-cfs.cpp:57-72 | from rest, an entity that joins after another has run alone for n ticks sees the gap grow from n ticks to n + 1, for every n from one on |
| Scheduling.FairEffect | infos/kernel/sched-cfs.cpp:57-72 | a command of the scheduler moves two queued entities apart by no more than their gap or one tick |
| Scheduling.RunWhileQueued | infos/kernel/sched.cpp:110-199 | over every such run, as long as two entities stay queued, they drift apart by no more than their starting gap or one tick |
| CfsAccounting.TimeConserved | infos/kernel/sched.cpp:152-166 | while something runs, all entities together are charged exactly the time that passes |
| CfsAccounting.TotalIsElapsed | infos/kernel/kernel.cpp:172-174 | the sum of all CPU times is the runtime since the first scheduling decision |
| Scheduling.RunScript | infos/kernel/sched.cpp:110-199 | every run of starts, stops, waits, yields and ticks, up to a command whose change comes back: each command does what it says, after each decision a queued entity of least CPU time runs or the idle one if none is queued, membership is exact after each command, the sum of all CPU times is the time since the first scheduling decision, and the clock advances by one tick for each timer interrupt |
| Scheduling.WaitHappened | infos/util/wakequeue.cpp:19-24 | in such a run, after a wait the thread that ran sleeps at the end of the list |
| Scheduling.SafeWithoutCycles | infos/kernel/sched.cpp:173-199 | as long as the wait relation has no cycle no command comes back |
| TarFiles.Octal2ui | coursework/tarfs.cpp:29-55 | the value of all but the first digit, modulo 2^32 |
| TarFiles.DigitSigned | coursework/tarfs.cpp:41-45 | characters are signed 8-bit numbers |
| TarFiles.OctalExact | coursework/tarfs.cpp:29-55 | it is the number written iff the first digit's weight is a multiple of 2^32 |
| TarFiles.OctalExamples | coursework/tarfs.cpp:29-55 | a leading zero is enough; a single digit is read as zero |
| TarFiles.InternalFile.Pread | infos/fs/internal-driver.cpp:83-106 | byte i of the buffer is the disk byte at data start + offset + i, up to the count or the first unreadable block; nothing from offsets outside the file; says exactly when it goes past the end of the file |
| TarFiles.ReadPastEnd | infos/fs/internal-driver.cpp:83-106 | a read of 512 bytes from a file of ten gives 512 bytes |
| TarFiles.PastEndExample | infos/fs/internal-driver.cpp:83-106 | for a file of ten bytes in a good block, asking for a block goes past the end and asking for ten bytes does not |
| TarTree.SplitString | infos/util/string.cpp:72-99 | the parts between the delimiters |
| TarTree.JoinSplit | infos/util/string.cpp:72-99 | joining the parts gives the string back, and no part contains the delimiter |
| TarTree.SplitJoin | infos/util/string.cpp:72-99 | splitting joined parts gives the parts back |
| TarTree.BlocksExact | coursework/tarfs.cpp:134 | the walk steps over the least number of blocks that have room for the size |
| TarTree.HeaderReadBack | coursework/tarfs.cpp:61-81 | from a header in the ustar format the driver reads the name, size and type that were written |
| TarTree.UstarMember | coursework/tarfs.cpp:117-138 | such a header with as many blocks as its size needs is a member of an archive |
| TarTree.TarFS.AddChild | coursework/tarfs.cpp:144-148 | a new node appears at exactly one path |
| TarTree.TarFS.BuildTreeRecursive | coursework/tarfs.cpp:140-153 | missing folders are created, the path leads to the file, all other nodes keep what they say |
| TarTree.TarFS.BuildTree | coursework/tarfs.cpp:117-138 | visits the headers of the walk and builds the tree they determine; fails iff a block on the way is unreadable |
| TarTree.LastHeaderCounts | coursework/tarfs.cpp:117-153 | a path leads to a file iff some regular header has it, and then the last one's block and size count |
| TarTree.NodesExact | coursework/tarfs.cpp:140-153 | there is a node exactly for the root and for every path on the way to a regular member |
| TarTree.WalkExact | coursework/tarfs.cpp:117-138 | on a disk that holds an archive the walk visits exactly the members' headers |
| TarTree.MemberResolved | coursework/tarfs.cpp:117-153 | each regular member's path leads to the last such member's header block and size |
| TarTree.MemberBytes | infos/fs/internal-driver.cpp:83-106 | the disk bytes of a member's file are the member's data |
| TarTree.MountAndRead | infos/fs/internal-driver.cpp:83-106 | mounting an archive, finding a member and reading gives the member's data, up to the count or the first unreadable block |

## Left out

- Buddy.BuddyPageAllocator.ReservePage: the inner loop's advance after a split and its early exit are one step of a helper method.
- Buddy.BuddyPageAllocator.AllocPages: the order is the 32-bit int of the interface; `1 << order` is not evaluated for orders that fail.
- PageAllocation.PageAllocator.AllocPages: what happens after the first access through the null pointer; the contract speaks of the state just before it.
- PageAllocation.PageAllocator.Init: the self-test, the counters and the log messages; firmware ranges are parameters.
- `SimplePageAllocator`, whose scan can run past the descriptor array, and locking.
- VirtualMemory.VMA.GetMapping: like the other operations on addresses, for the user half only.
- VirtualMemory.VMA.InsertMapping: addresses of the user half only; the kernel half holds shared template entries with huge pages, which are only kept unchanged.
- VirtualMemory.VMA.CopyTo: the caller must name a destination whose physical run is in memory and clear of page tables; the source does not check this.
- VirtualMemory.VMA.AllocateVirt: a failed assertion about a missing table, or the tagged null pointer, is one outcome; of the state after it only the absence of other changes is stated.
- The destructor of an address space, TLB and CR3 handling, and the dump functions.
- KernelHeap.Heap.SysAlloc: one segment, got at the first shortage; later shortages fail. Direct mapping of large requests, merging or adding of segments, trimming and realloc are left out, and `mmap` and `munmap` are a parameter.
- KernelHeap.Heap.Malloc: after the first segment a shortage is a failure, as said above. The words dlmalloc keeps inside chunks are separate maps; `PayloadSafe` shows why they do not collide with payloads. Each trie chunk's size is kept beside the trie and tied to its head by the invariant.
- KernelHeap.Heap.MallocDv: the victim's fields are written after the tags of the split, not before.
- KernelHeap.Heap.Free: pointers that were never handed out, for which the source aborts; the release of unused segments.
- KernelHeap.Heap.Memalign: alignments above 2^63, for which the source's loop does not end (`RoundingExact`).
- The `mspace` interface, statistics, footers, independent allocations and calloc.
- Scheduling.Scheduler.SetEntityState: the idle entity, which starts runnable and unqueued and is never stopped or made to wait; what a walk in freed memory does.
- Scheduling.Scheduler.PickNextEntity: the run queue is a sequence here; the linked list behind it is proved against sequences in `LinkedLists`.
- Scheduling.Scheduler.SleepOn: entities in the state RUNNING, which nothing in the kernel sets; the race between testing a condition and joining the list, which the source leaves open; interrupts are not modelled.
- Thread contexts, address-space switches and the choice of an algorithm by name.
- RingLists.List.Remove: the comparator object; equality of elements stands for it. `Find`, `Set`, indexed `Get` and reference counts are left out, and so are the heaps and priority queues of the library.
- LinkedLists.List.Append: the 32-bit width of the element count.
- TarFiles.InternalFile.Pread: devices with blocks of 512 bytes and fewer than 2^31 of them, and counts below 2^31, within which none of the 32-bit conversions truncates.
- TarTree.TarFS.BuildTree: nodes are found by name, not by the hash of the name.
- `TarFSFile::pread` in coursework/tarfs.cpp, which copies from a buffer it never fills; seeking, directories' listings and the VFS path lookup.
- Device drivers, interrupts, system calls, the console and user programs.
