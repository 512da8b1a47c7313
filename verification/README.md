# The memory subsystem of the kernel, and its two printing cores

A model of how the kernel manages memory, from the memory map of the boot loader to the blocks that malloc hands out,
with the number printer and the text screen beside it.

The layers, lowest first:

- `Words`, `Sequences`, `Memory`: 64-bit words and the rounding helpers, byte memory with memset, memcpy and memmove.
- `Placement`, `Physical`, `BootMemory`: the bump allocator, the last-in first-out list of page frames, and the choice of
  the memory region it is set up with (Multiboot Specification 0.6.96, section 3.3).
- `PageTree`, `Translation`, `PageTables`, `KernelMapping`: four-level page tables (AMD64 Architecture Programmer's Manual,
  volume 2, section 5.3) written in place in physical memory. Each table has one role, its place in the tree of one
  directory or of the kernel half that all share; from that follows that map and unmap change one page each.
- `PageMapping`: the loops that map runs of pages to frames, over the partial map that the tables are proved to implement.
- `IList`, `Regions`, `LiveRegions`, `VirtualSpace`: the allocator of address ranges, a linked list with deleted nodes,
  against the set of free addresses and the live regions that free merges.
- `PageRefinement`: these loops over the tables themselves. `AccessRights`: who may use and write a page, which all four
  entries decide.
- `Blocks`, `LiveBlocks`: the list surgery that both heaps share, with the size of a header as a parameter (24 or 40).
- `UserHeader`, `UserHeapSpec`, `UserHeapProperties`, `UserHeapCalls`, `UserHeapStatistics`, `UserLinks`,
  `UserAllocator`: the heap of a process, with its headers in band in a byte memory. Between its calls others may use the
  frames and page tables it shares.
- `Processes`: runs of many such heaps, stacks and other requests over one frame allocator.
- `KernelHeapSpec`, `KernelHeapProperties`, `KernelHeapCalls`, `KernelHeapStatistics`, `KernelHeapRepaired`,
  `KernelHeapLimits`, `KernelLinks`, `KernelData`, `KernelHeap`: the kernel heap, whose regions may lie anywhere. Its
  headers are a map from addresses, and beside it is kept which bytes of memory are known. A header that is written
  makes the 40 bytes under it unknown and destroys the headers it overlaps, and so does a byte that is written, so
  that keeping both is something to prove.
- `NumberText`, `TextScreen`: itoa and the text screen.

Code that changes state is a class whose methods are proved equal to functions on values; what the code is for is proved
about these functions, over all runs.

Where the code does not do what its names or comments say, the model follows the code:

- The comment at src/kernel/memory/heap.cpp:238 speaks of 8 bytes, but sizes are rounded to whole pages, in both heaps.
- The statistics of the kernel heap count the header with the wrong sign when splitting and merging, and malloc charges the
  size asked for while free refunds that of the block. `KernelHeapSpec.CounterLaw` is the law they do obey,
  `KernelHeapStatistics.RunValidates` says when validate_heap succeeds all the same, and `KernelHeapRepaired.RunValidates`
  that it always would with the two repaired.
- The statistic of the user heap drifts; `UserHeapStatistics.DriftOfCall` says by how much, and
  `UserHeapStatistics.ValidateFails` gives a run after which validate_heap fails.
- The user heap's realloc cuts the rounded size to 32 bits; `UserHeapProperties.ReallocReplaces` says exactly when that
  goes wrong.
- Kernel sizes from 2^64 - 8191 to 2^64 - 4096 round to a size whose header wraps the region to grow by to no length; the
  heap is damaged if virt grants that and no block fits, and only then (`KernelHeapLimits.MallocKeepsInv`). Larger sizes
  round to zero (`KernelHeapProperties.MallocHonest`, `ReallocWraps`).
- The first range of a fresh address space starts at null, so init_kernel_heap (src/kernel/memory/heap.cpp:430-451) gives
  up; the kernel heap here starts from its constructor. If the first pages cannot be mapped there is no list, and a later
  growth would follow a null pointer; the methods then have no valid heap to be called on.
- heap_limit_ is never read by expand_heap, so the model has no such field.
- Failed requests lose the frames they had mapped, since unmapping does not return them.
- The rights of the upper page table entries are set when a table is made, so a kernel page mapped first shuts users out of
  its neighbours (`AccessRights.KernelThenUser`).
- free looks once for a region that touches its range, so regions can touch and stay apart (`LiveRegions.NeighboursRemain`).
- The logging of errors and the flush of translation caches have no effect here; the directory in force is a parameter.

## Model

| member | source | states |
|---|---|---|
| UserHeapSpec.RunKeepsInv | src/kernel/memory/user_allocator.cpp:83-300 | after any run of malloc, free, realloc and calloc, while others take frames and map pages but leave those of the heap mapped, the blocks are address-sorted and tile [heap_start_, heap_current_) exactly; headers and data are 8-byte aligned; heap_current_ is a page boundary within the maximum; num_blocks_ is the list length less the number of growths modulo 2^32; every heap page is mapped |
| UserHeapSpec.InvInitial | src/kernel/memory/user_allocator.cpp:10-27 | the constructor establishes that invariant, with one block or, without frames, with none |
| UserHeapSpec.InvGrow | src/kernel/memory/user_allocator.cpp:97-134 | growing keeps it, whether the frames suffice or not, and when the new block is absorbed by its predecessor |
| UserHeapSpec.BlocksAreMapped | src/kernel/memory/user_allocator.cpp:34-70 | every address of a header or of data lies in a mapped page of the process |
| UserHeapProperties.HeapApart | src/kernel/memory/user_allocator.cpp:136-199 | headers and data of any two blocks are disjoint |
| UserHeapProperties.MallocFails | src/kernel/memory/user_allocator.cpp:201-239 | malloc returns null if and only if the size is zero, or above 2 GiB, or no free block fits and the heap cannot grow |
| UserHeapProperties.MallocAllocates | src/kernel/memory/user_allocator.cpp:201-239 | otherwise it adds exactly one block to those in use, of at least the rounded size and at most a header and 15 bytes more, apart from all others |
| UserHeapProperties.GrowThenFits | src/kernel/memory/user_allocator.cpp:219-229 | after a growth for the rounded size and a header the second search succeeds, also when the new block was merged |
| UserHeapProperties.FreeReleases | src/kernel/memory/user_allocator.cpp:241-260 | free removes exactly the block of its pointer from those in use; a pointer that is not live changes nothing |
| UserHeapProperties.FreeUndoesMalloc | src/kernel/memory/user_allocator.cpp:201-260 | malloc from the list followed by free restores the whole heap if and only if the block did not already join a free neighbour; the statistic returns if and only if the block was split or fitted exactly |
| UserHeapProperties.NoPairsNoJoin | src/kernel/memory/user_allocator.cpp:162-199 | without adjacent free blocks no block joins a neighbour, so the round trip is then unconditional for split blocks and whole ones alike |
| UserHeapProperties.ReallocReplaces | src/kernel/memory/user_allocator.cpp:262-300 | realloc replaces its block by one apart from all others, or fails and leaves all; the new block holds the bytes asked for if and only if the rounded size survives the cut to 32 bits or exceeds the old block |
| UserHeapProperties.Rounded32Exact | src/kernel/memory/user_allocator.cpp:278-278 | the uint32_t conversion leaves a size at least as large as asked for if and only if it is at most 2^32 - 4096 |
| UserHeapProperties.ReallocTruncates | src/kernel/memory/user_allocator.cpp:278-287 | a request for 2^32 - 1 bytes returns the old pointer of a smaller block |
| UserHeapProperties.CallocGuard | src/kernel/memory/user_allocator.cpp:304-308 | the division check rejects exactly the true products above 2 GiB |
| UserHeapCalls.MallocTakesFirst | src/kernel/memory/user_allocator.cpp:83-95 | of the free blocks that fit malloc takes the first in the list, without touching break, frames or pages |
| UserHeapCalls.MallocGrows | src/kernel/memory/user_allocator.cpp:219-225 | if none fits the break moves by the pages for the rounded size and a 24-byte header |
| UserHeapCalls.ReallocOfNull | src/kernel/memory/user_allocator.cpp:264-266 | realloc of null gives a new block or fails exactly as malloc does |
| UserHeapCalls.ReallocToZero | src/kernel/memory/user_allocator.cpp:268-271 | realloc to size zero returns null, and exactly the block of the pointer is no longer in use |
| UserHeapCalls.ReallocOfOther | src/kernel/memory/user_allocator.cpp:273-276 | realloc of a pointer that is not live returns null and changes nothing |
| UserHeapCalls.ReallocStays | src/kernel/memory/user_allocator.cpp:278-299 | realloc returns the old pointer if and only if the block holds the rounded size as cut to 32 bits, and null if and only if it has to move and malloc gives nothing |
| UserHeapCalls.ReallocKeeps | src/kernel/memory/user_allocator.cpp:282-287 | a block that stays keeps what is asked of it, and more only if the rest is too little for a header and 16 bytes |
| UserHeapCalls.CallocGives | src/kernel/memory/user_allocator.cpp:302-318 | calloc returns null if and only if the true product is zero or above 2 GiB, or no block fits and the heap cannot grow, and then no block changes; otherwise a new live block of at least the rounded product |
| UserHeapCalls.NewHeapGives | src/kernel/memory/user_allocator.cpp:10-27 | a new heap gives any size that fits its first mebibyte from its start; without the frames for that it has no block and no frame is left |
| UserHeapCalls.GrowsExactly | src/kernel/memory/user_allocator.cpp:97-134 | growth takes the frames and maps the pages it needs and no more; it fails for lack of address space without any change, and for lack of frames with all frames used and every page mapped as before |
| UserHeapCalls.NewHeapEnds | src/kernel/memory/user_allocator.cpp:10-27 | of a new heap no page at or above the break is mapped |
| UserHeapCalls.RunEnds | src/kernel/memory/user_allocator.cpp:34-134 | over every run no page at or above the break is mapped, if others map none there |
| UserHeapProperties.RunFragmentation | src/kernel/memory/user_allocator.cpp:97-300 | over every run the adjacent free pairs grow by no more than the number of reallocs that give up part of their block |
| UserHeapProperties.FullCoalescing | src/kernel/memory/user_allocator.cpp:97-300 | so a run without such reallocs keeps a heap without adjacent free pairs |
| UserHeapStatistics.DriftOfTake | src/kernel/memory/user_allocator.cpp:231-236 | malloc moves the statistic away from the bytes in use by what a block handed out whole is too large |
| UserHeapStatistics.DriftOfRelease | src/kernel/memory/user_allocator.cpp:254-259 | free moves it not at all, whatever is merged |
| UserHeapStatistics.DriftOfShrink | src/kernel/memory/user_allocator.cpp:282-287 | a shrinking realloc moves it by all it gives up |
| UserHeapStatistics.DriftOfGrow | src/kernel/memory/user_allocator.cpp:97-134 | growing does not move it |
| UserHeapStatistics.DriftOfCall | src/kernel/memory/user_allocator.cpp:201-318 | by how much each call moves it, those of others included |
| UserHeapStatistics.DriftOfRun | src/kernel/memory/user_allocator.cpp:201-318 | over a run these add up, modulo 2^32 |
| UserHeapStatistics.RunValidates | src/kernel/memory/user_allocator.cpp:337-355 | from a heap that validates, validate_heap succeeds after a run if and only if the excess its mallocs handed out and what its reallocs gave up cancel modulo 2^32 |
| UserHeapStatistics.ShrinkInvalidates | src/kernel/memory/user_allocator.cpp:282-287 | one realloc that gives up part of its block makes a heap that validates fail |
| UserHeapStatistics.ValidateFails | src/kernel/memory/user_allocator.cpp:337-355 | a new heap validates; after malloc(8192) and realloc of the result to one byte it does not |
| Processes.RunGood | src/kernel/memory/user_allocator.cpp:10-429 | over every run of any number of processes and the kernel, building heaps, calling them, setting up stacks, requesting pages and exiting over one frame allocator, every heap keeps its invariant and no two pages of anyone hold the same frame |
| Processes.CallDraws | src/kernel/memory/user_allocator.cpp:34-70 | a call on a heap changes frames and pages at most by one request for pages of its own |
| Processes.ExitUnmaps | src/kernel/memory/user_allocator.cpp:357-364 | a process that exits leaves no page of its heap mapped and everything else as it was |
| UserHeader.DecodeEncode | src/kernel/memory/user_allocator.hpp:63-102 | the 24 little-endian bytes of a header decode to its fields |
| UserHeader.Layout | src/kernel/memory/user_allocator.hpp:63-68 | the fields lie in memory in the order and size declared |
| UserHeader.FlagsMeaning | src/kernel/memory/user_allocator.hpp:86-95 | set_free on any flags makes is_free and is_valid tell what was set |
| UserHeader.Ram.InsertAfter | src/kernel/memory/user_allocator.cpp:142-158 | the writes of a split: two headers and one link in the bytes, every header elsewhere and every other byte unchanged |
| UserHeader.Ram.AbsorbNext | src/kernel/memory/user_allocator.cpp:174-179 | the writes of a merge, likewise |
| UserHeader.Ram.Append | src/kernel/memory/user_allocator.cpp:112-126 | the writes that link a new last block, likewise |
| UserHeader.Ram.Mark | src/kernel/memory/user_allocator.hpp:87-90 | set_free on a header in memory, likewise |
| UserLinks.SplitStep | src/kernel/memory/user_allocator.cpp:136-160 | after those writes next and prev link the split list in order, mutually inverse |
| UserLinks.MergeStep | src/kernel/memory/user_allocator.cpp:162-199 | the same for a merge, whose 32-bit size does not wrap |
| UserLinks.AppendStep | src/kernel/memory/user_allocator.cpp:112-128 | the same for growth |
| UserLinks.MarkStep | src/kernel/memory/user_allocator.hpp:87-90 | the same for a change of the flags |
| UserLinks.HeaderWritesKeepData | src/kernel/memory/user_allocator.cpp:136-199 | writing headers of blocks of the old or the new list changes no byte of data that a block in use has before and after |
| UserLinks.KeepsDataChain | src/kernel/memory/user_allocator.cpp:262-300 | this carries over several operations as long as the blocks stay in use |
| UserLinks.MoveCopies | src/kernel/memory/user_allocator.cpp:289-299 | the bytes copied by realloc survive the final free |
| UserLinks.MoveKeeps | src/kernel/memory/user_allocator.cpp:289-299 | and no other allocation has lost a byte to malloc, copy and free together |
| UserLinks.LiveHeader | src/kernel/memory/user_allocator.cpp:247-252 | the header in front of a live pointer passes the checks of free and realloc |
| UserAllocator.Allocator.constructor | src/kernel/memory/user_allocator.cpp:10-27 | the heap is the initial one of the specification |
| UserAllocator.Allocator.OthersKeepValid | src/kernel/memory/user_allocator.cpp:34-70 | the heap stays usable while others use the shared frames and page tables, as long as its own pages stay mapped |
| UserAllocator.Allocator.FindFreeBlock | src/kernel/memory/user_allocator.cpp:83-95 | walking the links finds the first block that fits, or null if there is none |
| UserAllocator.Allocator.SplitBlock | src/kernel/memory/user_allocator.cpp:136-160 | splits as specified and keeps all data |
| UserAllocator.Allocator.CoalesceBlock | src/kernel/memory/user_allocator.cpp:162-199 | merges with successor and predecessor as specified and keeps all data |
| UserAllocator.Allocator.ExpandHeap | src/kernel/memory/user_allocator.cpp:97-134 | grows if and only if the maximum and the frames allow, and keeps all data |
| UserAllocator.Allocator.Malloc | src/kernel/memory/user_allocator.cpp:201-239 | result and new state are those of the specification, from the frames and pages there are at the call; no byte of a block in use changes |
| UserAllocator.Allocator.Free | src/kernel/memory/user_allocator.cpp:241-260 | the same for free, of null, of live pointers, and of those in the heap without a valid header in front, such as freed ones |
| UserAllocator.Allocator.Realloc | src/kernel/memory/user_allocator.cpp:262-300 | the same for realloc; a moved block has the old bytes, read before the call |
| UserAllocator.Allocator.Calloc | src/kernel/memory/user_allocator.cpp:302-318 | the same for calloc; a block returned has all of the true product zeroed |
| UserAllocator.Allocator.ValidateHeap | src/kernel/memory/user_allocator.cpp:337-355 | true if and only if the statistic is the sum of the sizes in use, in 32 bits |
| Memory.Memset | src/kernel/libs/string.hpp:22-31 | fills exactly the range |
| Memory.Memcpy | src/kernel/libs/string.hpp:33-44 | copies exactly the old source when the destination does not start inside it, and otherwise repeats the first bytes of it |
| Memory.Memmove | src/kernel/libs/string.hpp:46-66 | copies exactly the old source for every overlap |
| Memory.NumberOfLittleEndian | src/kernel/memory/user_allocator.hpp:63-84 | the bytes of a number give the number back |
| Blocks.FirstFit | src/kernel/memory/heap.cpp:147-159 | the result fits and nothing before it does |
| Blocks.MergeUndoesSplit | src/kernel/memory/heap.cpp:161-230 | merging a split block with its rest gives the list back |
| Blocks.SplitRest | src/kernel/memory/heap.cpp:161-175 | a block is split exactly if the rest holds a header and 16 bytes |
| Blocks.RoundTrip | src/kernel/memory/heap.cpp:161-298 | taking block i and releasing it restores the list if and only if it did not join a neighbour |
| Blocks.PairsOfRelease | src/kernel/memory/heap.cpp:189-230 | releasing a block does not add an adjacent free pair |
| Blocks.PairsOfExtend | src/kernel/memory/heap.cpp:107-145 | nor does growing |
| Blocks.PairsOfAllocate | src/kernel/memory/heap.cpp:254-259 | nor does allocating |
| LiveBlocks.UsedOfRelease | src/kernel/memory/heap.cpp:273-298 | release removes one block from the set in use |
| LiveBlocks.UsedOfAllocate | src/kernel/memory/heap.cpp:232-271 | allocation adds one new block to it, apart from the rest |
| KernelHeapSpec.RunKeepsInv | src/kernel/memory/heap.cpp:107-361 | after any run of malloc, free, realloc and calloc the blocks cover every address exactly as often as the regions do, at most once; the sizes with headers sum to the regions; and total_allocated_ + total_free_ = heap_size_ + H N - 2 H G modulo 2^64 for N blocks and G regions |
| KernelHeapSpec.InvInitial | src/kernel/memory/heap.cpp:16-44 | the constructor establishes this |
| KernelHeapSpec.PartitionMerge | src/kernel/memory/heap.cpp:189-230 | coalescing never merges across an address gap, though list order need not be address order |
| KernelHeapSpec.InvSplit | src/kernel/memory/heap.cpp:161-187 | the counter law with the sign the code gives the header of a split |
| KernelHeapSpec.InvMerge | src/kernel/memory/heap.cpp:195-229 | and of a merge |
| KernelHeapSpec.InvGrow | src/kernel/memory/heap.cpp:107-145 | a new region anywhere in the address space keeps the invariant |
| KernelHeapProperties.HeapApart | src/kernel/memory/heap.cpp:107-298 | headers and data of different blocks never overlap, whatever the list order |
| KernelHeapProperties.MallocAllocates | src/kernel/memory/heap.cpp:232-271 | malloc returns null if and only if the size is zero or nothing fits and no region is granted; otherwise one new block of the rounded size, apart from all in use |
| KernelHeapProperties.MallocHonest | src/kernel/memory/heap.cpp:238-239 | the block holds the bytes asked for if and only if rounding the size did not wrap around |
| KernelHeapProperties.RoundingWraps | src/kernel/config.hpp:32-40 | which sizes wrap to zero when rounded |
| KernelHeapProperties.ReallocWraps | src/kernel/memory/heap.cpp:317-327 | realloc to 2^64 - 1 bytes returns the old pointer and leaves the block nothing |
| KernelHeapLimits.UnsoundSizes | src/kernel/memory/heap.cpp:238-245 | exactly the 4096 sizes from 2^64 - 8191 on ask for a region of no length |
| KernelHeapLimits.MallocKeepsInv | src/kernel/memory/heap.cpp:232-271 | malloc keeps the invariant if and only if its size is none of these, or a block fits, or virt refuses |
| KernelHeapLimits.OvergrowthAbsorbed | src/kernel/memory/heap.cpp:107-145 | otherwise, if the region touches a free last block, malloc fails and 2 H bytes are missing from total_free_ |
| KernelHeapLimits.OvergrowthCorrupts | src/kernel/memory/heap.cpp:107-145 | and if not, malloc returns a block that reaches beyond the address space |
| KernelHeapLimits.GrantsAreFromVirt | src/kernel/memory/heap.cpp:107-121 | the regions virt grants are as these lemmas take them |
| KernelHeapProperties.GrowThenFits | src/kernel/memory/heap.cpp:244-251 | the second search after a growth succeeds |
| KernelHeapProperties.FreeReleases | src/kernel/memory/heap.cpp:273-298 | free removes exactly its block from those in use; double and foreign frees change nothing |
| KernelHeapProperties.FreeUndoesMalloc | src/kernel/memory/heap.cpp:232-298 | malloc from the list and free restore the blocks if and only if the block did not join a neighbour, and then both statistics if and only if it was split or fitted exactly |
| KernelHeapProperties.ReallocReplaces | src/kernel/memory/heap.cpp:300-344 | realloc replaces its block by one of at least the rounded size, apart from all others, or changes nothing; the block holds the bytes asked for if and only if rounding did not wrap |
| KernelHeapProperties.CallocGuard | src/kernel/memory/heap.cpp:346-353 | the check rejects exactly the true products that 64 bits cannot hold |
| KernelHeapCalls.MallocTakesFirst | src/kernel/memory/heap.cpp:147-159 | of the free blocks that fit malloc takes the first in the list, without growing |
| KernelHeapCalls.MallocGrows | src/kernel/memory/heap.cpp:243-251 | if none fits and a region is granted, it is one of the pages for the rounded size and a 40-byte header |
| KernelHeapCalls.ReallocOfNull | src/kernel/memory/heap.cpp:302-304 | realloc of null gives a new block or fails exactly as malloc does |
| KernelHeapCalls.ReallocToZero | src/kernel/memory/heap.cpp:306-309 | realloc to size zero returns null, and exactly the block of the pointer is no longer in use |
| KernelHeapCalls.ReallocOfOther | src/kernel/memory/heap.cpp:311-315 | realloc of a pointer that is not live returns null and changes nothing |
| KernelHeapCalls.ReallocStays | src/kernel/memory/heap.cpp:317-343 | realloc returns the old pointer if and only if the block holds the rounded size, and null if and only if it has to move and malloc gives nothing |
| KernelHeapCalls.ReallocKeeps | src/kernel/memory/heap.cpp:317-330 | a block that stays keeps what is asked of it, and more only if the rest is too little for a header and 16 bytes |
| KernelHeapCalls.CallocGives | src/kernel/memory/heap.cpp:346-361 | calloc gives nothing for products 64 bits cannot hold, otherwise exactly what malloc gives for the true product |
| KernelHeapCalls.NewHeapGives | src/kernel/memory/heap.cpp:16-44 | a new heap gives any size that fits its first region from its start |
| KernelHeapCalls.SupplyExactly | src/kernel/memory/heap.cpp:107-121 | what a request to grow takes: a range at null is lost; without frames for it a range is free again, all frames are used and pages not mapped before are not mapped; otherwise exactly the range and the frames are taken |
| KernelHeapCalls.NoneServes | src/kernel/memory/heap.cpp:112-116 | without a region large enough the request is refused and nothing changes |
| KernelHeapProperties.TotalFits | src/kernel/memory/heap.cpp:107-145 | the regions together are shorter than the address space |
| KernelHeapProperties.ValidatesExactly | src/kernel/memory/heap.cpp:389-416 | the free statistic is right besides that of the bytes in use if and only if there are as many blocks as regions |
| KernelHeapProperties.NewHeapValidates | src/kernel/memory/heap.cpp:389-416 | a new heap validates |
| KernelHeapProperties.FirstSplitInvalidates | src/kernel/memory/heap.cpp:161-187 | after the first malloc that splits its block it no longer does |
| KernelHeapStatistics.DriftOfTake | src/kernel/memory/heap.cpp:254-266 | malloc charges too little by what a block handed out whole is too large |
| KernelHeapStatistics.DriftOfCall | src/kernel/memory/heap.cpp:232-361 | no other operation moves the statistic of the bytes in use away from them |
| KernelHeapStatistics.RunValidates | src/kernel/memory/heap.cpp:389-416 | from a heap that validates, validate_heap succeeds after a run if and only if the excess its mallocs handed out is a multiple of 2^64 and there are as many blocks as regions |
| KernelHeapStatistics.RunOutstanding | src/kernel/memory/heap.cpp:254-297 | over every run num_allocations_ less num_frees_ is the number of blocks in use, modulo 2^64 |
| KernelHeapRepaired.RunValidates | src/kernel/memory/heap.cpp:161-344 | with the header counted with the other sign and the size of the block charged, validate_heap succeeds after every run, on the very blocks the code has |
| KernelLinks.SplitStep | src/kernel/memory/heap.cpp:161-187 | the header writes of a split leave a well linked list of the split blocks, magic agreeing with is_free |
| KernelLinks.MergeStep | src/kernel/memory/heap.cpp:189-230 | the same for a merge |
| KernelLinks.AppendStep | src/kernel/memory/heap.cpp:123-137 | the same for a new region |
| KernelLinks.MarkStep | src/kernel/memory/heap.cpp:261-268 | the same for marking a block and moving bytes between the statistics |
| KernelLinks.SupplyGrants | src/kernel/memory/heap.cpp:107-121 | a region granted by virt is new to the heap and all its pages are mapped; a refusal gives the range back or, at null, loses it, and leaves the heap what it owned |
| KernelHeap.KHeap.constructor | src/kernel/memory/heap.cpp:16-44 | one block if and only if there are frames for all pages |
| KernelHeap.KHeap.MapPages | src/kernel/memory/heap.cpp:52-94 | maps all pages or none; the pages mapped are cleared |
| KernelHeap.KHeap.FindFreeBlock | src/kernel/memory/heap.cpp:147-159 | walking the links finds the first block that fits |
| KernelHeap.KHeap.SplitBlock | src/kernel/memory/heap.cpp:161-187 | splits as specified |
| KernelHeap.KHeap.CoalesceBlock | src/kernel/memory/heap.cpp:189-230 | merges as specified |
| KernelHeap.KHeap.ExpandHeap | src/kernel/memory/heap.cpp:107-145 | grows if and only if address space elsewhere than at null and all frames are there; what is left of both |
| KernelData.HeaderWrite | src/kernel/memory/heap.cpp:161-230 | writing the header of a block overwrites no byte of a block in use |
| KernelData.RegionWrite | src/kernel/memory/heap.cpp:123-125 | nor does the header of a new region |
| KernelData.RangeWrite | src/kernel/memory/heap.cpp:52-94 | nor does clearing pages the heap does not own, which also leaves all its headers |
| KernelLinks.DataWrite | src/kernel/memory/heap.cpp:335-358 | writing into the data of a block leaves the headers of the list |
| KernelData.SplitWrites | src/kernel/memory/heap.cpp:161-187 | after a split exactly the bytes that go to the new block are no longer known |
| KernelData.MergeWrites | src/kernel/memory/heap.cpp:189-230 | a merge leaves all bytes of blocks in use |
| KernelData.CopyThenForget | src/kernel/memory/heap.cpp:335-341 | the copied bytes survive the free of the old block |
| KernelHeap.KHeap.Malloc | src/kernel/memory/heap.cpp:232-271 | result, heap and supply are those of the specification; no known byte changes |
| KernelHeap.KHeap.Free | src/kernel/memory/heap.cpp:273-298 | the same for free; only the bytes of the block freed are given up |
| KernelHeap.KHeap.Realloc | src/kernel/memory/heap.cpp:300-344 | the same for realloc; a moved block has the old bytes, a block that stays keeps its own, all others are unchanged |
| KernelHeap.KHeap.Calloc | src/kernel/memory/heap.cpp:346-361 | null for a product 64 bits cannot hold, otherwise malloc of the product, all of it zeroed and no other byte changed |
| KernelHeap.KHeap.ValidateHeap | src/kernel/memory/heap.cpp:389-416 | true if and only if both statistics are the sums over the list |
| PageTree.IndicesInjective | src/kernel/arch/amd64/memory/paging.cpp:9-12 | two addresses have the same four indices if and only if they lie in one page, the 16 unused high bits aside |
| PageTree.LinkStep | src/kernel/arch/amd64/memory/paging.cpp:85-117 | linking in a fresh zeroed table keeps the tables a tree without aliasing and keeps every translation |
| PageTree.DescendStep | src/kernel/arch/amd64/memory/paging.cpp:61-121 | get_page ends at the one table for its address and keeps every translation |
| PageTree.LeafOthers | src/kernel/arch/amd64/memory/paging.cpp:155-156 | a write to one entry of a last-level table changes no translation whose place in the tree is another |
| PageTree.LeafFound | src/kernel/arch/amd64/memory/paging.cpp:180-180 | and is found by the walk that leads there |
| PageTree.NewDirectoryStep | src/kernel/arch/amd64/memory/paging.cpp:212-229 | a new directory keeps the tree and every translation |
| PageTree.TakesOnePage | src/kernel/arch/amd64/memory/paging.cpp:212-225 | a table or directory takes one page from the bump allocator, even a directory that is not made |
| PageTree.NewDirectoryLookup | src/kernel/arch/amd64/memory/paging.cpp:212-229 | it translates the kernel half as the directory in force does, and nothing else |
| Translation.MapExact | src/kernel/arch/amd64/memory/paging.cpp:164-186 | map sets the translation of exactly one page of one space, in every directory that has the space |
| Translation.UnmapExact | src/kernel/arch/amd64/memory/paging.cpp:123-157 | unmap removes exactly one |
| Translation.UnmapKeepsFrame | src/kernel/arch/amd64/memory/paging.cpp:155-155 | the entry cleared keeps its frame and loses every flag |
| Translation.LowHalfIsPrivate | src/kernel/arch/amd64/memory/paging.cpp:164-186 | a map below the kernel half changes no translation of another directory |
| Translation.RunImplements | src/kernel/arch/amd64/memory/paging.cpp:61-229 | over every run of create_page_directory, map and unmap the four-level walk of every directory equals an abstract partial map |
| Translation.KernelHalfAgrees | src/kernel/arch/amd64/memory/paging.cpp:212-229 | in every reachable state all directories translate the kernel half alike |
| AccessRights.MapRights | src/kernel/arch/amd64/memory/paging.cpp:61-186 | after map a page is writable, or open to users, if and only if the flags ask for it and every upper entry that was there already grants it; no other rights change |
| AccessRights.UnmapRights | src/kernel/arch/amd64/memory/paging.cpp:123-157 | unmap takes all rights to one page, and no others |
| AccessRights.DescendOpens | src/kernel/arch/amd64/memory/paging.cpp:67-117 | after get_page no upper entry denies a right if and only if none did before and either all three were there or the new ones grant it: write always, user if and only if the flags have it |
| AccessRights.KernelThenUser | src/kernel/arch/amd64/memory/paging.cpp:67-117 | a user page mapped in a 2 MiB range that a kernel page opened first is closed to users in spite of its flags |
| AccessRights.UsersReachTheirPages | src/kernel/arch/amd64/memory/paging.cpp:61-229 | over every run in which a directory has only had user pages mapped below the kernel half, users may use exactly the pages of it mapped with the user bit |
| AccessRights.WritesReachTheirPages | src/kernel/arch/amd64/memory/paging.cpp:61-229 | over every run exactly the pages mapped writable may be written, in every directory |
| AccessRights.CreatedIsOpen | src/kernel/arch/amd64/memory/paging.cpp:212-229 | a new directory denies nothing below the kernel half, and there what the directory in force denies |
| AccessRights.KernelIsWritable | src/kernel/arch/amd64/bootstrap/boot.S:79-132 | the tables of the boot code deny no write |
| AccessRights.LeafBits | src/kernel/arch/amd64/memory/paging.cpp:174-178 | the entry written has the frame, the three flags asked for, and no other bit below the frame |
| PageTables.Paging.NewTable | src/kernel/arch/amd64/memory/paging.cpp:87-89 | placement_kalloc and memset give a page that no table uses, zeroed |
| PageTables.Paging.GetPage | src/kernel/arch/amd64/memory/paging.cpp:61-121 | makes the tables the specification makes, or none if not wanted, and finds its table; what rights they grant is AccessRights.DescendOpens |
| PageTables.Paging.Map | src/kernel/arch/amd64/memory/paging.cpp:164-186 | always succeeds and writes what the specification says, flags or-ed bit by bit |
| PageTables.Paging.Unmap | src/kernel/arch/amd64/memory/paging.cpp:123-157 | changes what the specification says |
| PageTables.Paging.CreatePageDirectory | src/kernel/arch/amd64/memory/paging.cpp:212-229 | a new directory, or null if and only if the current one has no kernel half |
| KernelMapping.MapKernelMemory | src/kernel/arch/amd64/memory/pagetable.cpp:16-33 | from the tables of the boot code, every entry of the 512 page tables in closed form, and no other word changed |
| KernelMapping.LinearMap | src/kernel/arch/amd64/memory/pagetable.cpp:13-33 | KVIRTUAL_ADDRESS + x translates to x for every x below 1 GiB |
| KernelMapping.OnlyLinear | src/kernel/arch/amd64/memory/pagetable.cpp:16-33 | and nothing else translates |
| KernelMapping.KernelTree | src/kernel/arch/amd64/bootstrap/boot.S:79-260 | these tables, without the identity entries cleared at the end of the boot code, are a tree with one directory |
| KernelMapping.KernelImplements | src/kernel/arch/amd64/bootstrap/boot.S:79-260 | which implements the linear map: the start of every run |
| PageMapping.MappedExactly | src/kernel/memory/user_allocator.cpp:42-67 | page i of a request holds the i-th free frame, everything else is as before |
| PageMapping.RequestFails | src/kernel/memory/user_allocator.cpp:45-52 | a request for more pages than there are frames leaves no frame free and none of its pages mapped, and every other page as before |
| PageMapping.RequestOfUnmapped | src/kernel/memory/user_allocator.cpp:45-52 | so if its pages were not mapped, the page map is unchanged |
| PageMapping.StackExactly | src/kernel/memory/user_allocator.cpp:401-429 | setup_stack maps exactly the pages of [top - size, top) in order, or as many of them as there are frames |
| PageMapping.RequestPages | src/kernel/memory/user_allocator.cpp:34-70 | all pages or none, in the order of the free list |
| PageMapping.SetupStack | src/kernel/memory/user_allocator.cpp:401-429 | succeeds if and only if there are frames for all pages; which pages are mapped to which frames |
| PageMapping.StackTranslates | src/kernel/memory/user_allocator.cpp:401-429 | after success every address of [top - size, top) translates |
| PageRefinement.MapRefines | src/kernel/arch/amd64/memory/paging.cpp:164-186 | a map in the abstract pages is one in the tables |
| PageRefinement.UnmapRefines | src/kernel/arch/amd64/memory/paging.cpp:123-157 | and so is an unmap |
| PageRefinement.LoopRefines | src/kernel/memory/user_allocator.cpp:42-67 | with room for the tables, the whole loop over n pages comes to the same in both |
| PageMapping.RunSharesNothing | src/kernel/memory/user_allocator.cpp:34-70 | over every run of requests, stacks and releases in any spaces no two pages hold the same frame, and none holds a free one |
| Regions.AllocTakes | src/kernel/memory/virtual.cpp:40-68 | alloc takes exactly a page-aligned range all of which was free |
| Regions.FreeAdds | src/kernel/memory/virtual.cpp:101-154 | free adds exactly its range, through every kind of merge, tombstones included |
| LiveRegions.FreeMerges | src/kernel/memory/virtual.cpp:109-146 | a range that touches a live region ends up in one live region with it, and no node is added |
| LiveRegions.FreeBefore | src/kernel/memory/virtual.cpp:119-124 | the first region touched grows down if it starts where the range ends |
| LiveRegions.FreeAfter | src/kernel/memory/virtual.cpp:125-127 | it grows up if it ends where the range starts and no other follows |
| LiveRegions.FreeBetween | src/kernel/memory/virtual.cpp:129-142 | if another follows the three become one |
| LiveRegions.FreeApart | src/kernel/memory/virtual.cpp:148-153 | a range that touches none is a node of its own |
| LiveRegions.FreeKeepsCoalesced | src/kernel/memory/virtual.cpp:109-153 | a list in which no live regions touch stays so if and only if the range does not lie between two of which the upper comes first |
| LiveRegions.NeighboursRemain | src/kernel/memory/virtual.cpp:119-124 | a list where it does, and two regions that touch remain |
| LiveRegions.PartRoundTrip | src/kernel/memory/virtual.cpp:40-154 | alloc of part of a region followed by free restores the list if and only if no live region before it in the list ends where it starts |
| LiveRegions.WholeRoundTrip | src/kernel/memory/virtual.cpp:40-154 | alloc of a whole region followed by free restores the live regions if and only if no other touches it |
| Regions.LiveRegionsDisjoint | src/kernel/memory/virtual.cpp:40-154 | no address is in two regions |
| Regions.RunConserves | src/kernel/memory/virtual.cpp:40-154 | over every run of clients that return what they got, each address of [0, 256 GiB) is free or held, once |
| Regions.AllocNull | src/kernel/memory/virtual.cpp:40-68 | alloc returns null if and only if no region serves or the one that does starts at null |
| Regions.AllocCovers | src/kernel/memory/virtual.cpp:40-68 | otherwise all bytes asked for were free and no longer are, if and only if rounding did not wrap |
| Regions.FirstAllocIsNull | src/kernel/memory/virtual.cpp:5-14 | the first alloc of a new space returns null and its range is lost |
| VirtualSpace.Virt.constructor | src/kernel/memory/virtual.cpp:8-14 | one region: the whole space |
| VirtualSpace.Virt.Copy | src/kernel/memory/virtual.cpp:16-24 | the same regions in nodes of its own |
| VirtualSpace.Virt.Assign | src/kernel/memory/virtual.cpp:26-38 | likewise; self-assignment is harmless; the source is unchanged |
| VirtualSpace.Virt.Alloc | src/kernel/memory/virtual.cpp:40-68 | first fit, as specified |
| VirtualSpace.Virt.Free | src/kernel/memory/virtual.cpp:101-154 | merges as specified |
| IList.List.PushBack | src/kernel/libs/ilist.hpp:90-104 | appends to the contents |
| IList.List.Clear | src/kernel/libs/ilist.hpp:111-121 | leaves none |
| Placement.RunIsFresh | src/kernel/memory/allocators.cpp:9-26 | all spaces of a run lie above the old pointer and above one another; aligned ones start on a page |
| Placement.Bump.Kalloc | src/kernel/memory/allocators.cpp:9-20 | the virtual address, the physical one 2 GiB from the top below it, and the new pointer |
| Physical.FrameAllocator.Setup | src/kernel/memory/physical.cpp:14-25 | lists every whole frame, highest on top, and takes 16 bytes a frame from the bump allocator |
| BootMemory.RecordsClearOfFrames | src/kernel/memory/physical.cpp:84-98 | these records stay clear of all frames if and only if the bump pointer ends at or below the first frame |
| BootMemory.LargeRegionsOverlap | src/kernel/memory/physical.cpp:14-25 | with 2 GiB from 8 MiB on they always run into it |
| Physical.FrameAllocator.Alloc | src/kernel/memory/physical.cpp:27-42 | takes the top of the list, null if it is empty |
| Physical.FrameAllocator.Free | src/kernel/memory/physical.cpp:84-98 | pushes an aligned address below the end, ignores others |
| Physical.RunConserves | src/kernel/memory/physical.cpp:27-98 | over every run no frame is lost or doubled: none is handed out again before it is freed |
| BootMemory.SelectRegion | src/kernel/memory/memory_manager.cpp:21-76 | the largest available entry, clipped at 8 MiB; or the fallback from the basic memory fields |
| BootMemory.InitializeMemory | src/kernel/memory/memory_manager.cpp:21-89 | the frame list is exactly the whole frames of the chosen region, if it has 4 MiB; without a map the manager is set up if and only if the upper memory is 11 MiB or more, or less than 7 MiB, where the size wraps |
| BootMemory.WholeFramesCount | src/kernel/memory/physical.cpp:14-25 | how many frames there are, in ascending order |
| BootMemory.WholeFramesExact | src/kernel/memory/physical.cpp:14-25 | each whole frame once, nothing else |
| BootMemory.BootToFrames | src/kernel/memory/memory_manager.cpp:29-89 | after any run the frames listed and held are the whole frames of the region, each listed once or held; all are aligned, at or above 8 MiB and inside one available entry |
| Words.MasksAreRemainders | src/kernel/config.hpp:27-40 | the bit masks of IS_ALIGNED, ALIGN_DOWN and the page table macros compute remainders |
| Words.OrPermission | src/kernel/arch/amd64/memory/paging.cpp:176-178 | or-ing permission bits into an aligned address adds them |
| NumberText.TextParses | src/kernel/libs/stdlib.hpp:13-53 | a parser gives back every decimal number, and in other bases its unsigned word |
| NumberText.TextIsCanonical | src/kernel/libs/stdlib.hpp:22-32 | the text is never empty, has a sign exactly for negative decimals, and a leading zero only for zero |
| NumberText.OnlyDigits | src/kernel/libs/stdlib.hpp:34-40 | and the digits are the only canonical ones for a number |
| NumberText.DigitsParse | src/kernel/libs/stdlib.hpp:34-40 | digits have no leading zero and the value printed |
| NumberText.DigitsLength | src/kernel/libs/stdlib.hpp:34-40 | at most k digits if and only if the number is below the k-th power of the base |
| NumberText.TextLength | src/kernel/libs/stdlib.hpp:13-53 | at most 21 bytes in decimal and 17 in hexadecimal, terminator included |
| NumberText.Itoa | src/kernel/libs/stdlib.hpp:13-53 | the buffer holds the text and its terminator, the rest of it unchanged |
| NumberText.ReverseText | src/kernel/libs/stdlib.hpp:47-52 | reverses in place |
| TextScreen.RunShows | src/kernel/arch/amd64/video/protected_mode.cpp:13-62 | over every run the 80 by 25 cells are the last rows of all that was printed, padded with blanks, and the cursor is at the end |
| TextScreen.TypeShows | src/kernel/arch/amd64/video/protected_mode.cpp:43-62 | the same for one character, any byte, scrolling or not |
| TextScreen.PrintMeans | src/kernel/arch/amd64/video/protected_mode.cpp:47-57 | line feed and carriage return both fill up the row with blanks; any other byte adds one cell that shows it |
| TextScreen.CellReads | src/kernel/arch/amd64/video/protected_mode.cpp:56-56 | the character is the lower byte of a cell and the colour the upper, but for characters above 127 |
| TextScreen.ClearShows | src/kernel/arch/amd64/video/protected_mode.cpp:29-41 | a cleared screen is 2000 blanks with the cursor at the start, printing gray |
| TextScreen.TextShows | src/kernel/arch/amd64/video/protected_mode.cpp:64-70 | printable text is appended cell by cell |
| TextScreen.HexParses | src/kernel/arch/amd64/video/protected_mode.cpp:79-85 | printx prints the unsigned word |
| TextScreen.TextMode.ScrollDown | src/kernel/arch/amd64/video/protected_mode.cpp:13-27 | moves every row up and blanks the last |
| TextScreen.TextMode.Clear | src/kernel/arch/amd64/video/protected_mode.cpp:29-41 | the cleared screen, from any state |
| TextScreen.TextMode.PrintChar | src/kernel/arch/amd64/video/protected_mode.cpp:43-62 | as specified, every index below 2000 |
| TextScreen.TextMode.PrintString | src/kernel/arch/amd64/video/protected_mode.cpp:64-70 | every character up to the terminator |
| TextScreen.TextMode.PrintDecimal | src/kernel/arch/amd64/video/protected_mode.cpp:72-77 | prints the decimal text; its buffer of 32 suffices |
| TextScreen.TextMode.PrintHex | src/kernel/arch/amd64/video/protected_mode.cpp:79-85 | prints 0x and the hexadecimal text |

## Left out

- KernelHeap.KHeap.Malloc: asks that virt does not grant a region of no length, which is exactly when the invariant would be lost.
- KernelHeap.KHeap.Realloc: asks the same where it calls malloc.
- KernelHeap.KHeap.Calloc: asks the same, and for products whose rounding wraps that malloc fails, because all of the product would be zeroed.
- KernelHeap.KHeap.Free: for pointers that are not live it asks that there is an undamaged header in front of them, and that it does not look live. Realloc asks the same.
- UserAllocator.Allocator.Free: for pointers into the heap, and not when the bytes in front of one that is not live happen to look like the header of a block in use, which the code would believe. Realloc asks the same.
- PageMapping.SetupStack: not for sizes above the stack top, which wrap around address zero.
- PageTables.Paging.Map: asks for room for three tables below 1 GiB, because nothing in the code checks the bump allocator's end.
- NumberText.Itoa: not for the least 64-bit number in decimal, whose negation overflows.
- KernelMapping.MapKernelMemory: asks that the 515 tables lie in the 8 MiB already mapped, where alone they can be written.
- Page tables are addressed physically; that the linear map makes them reachable is KernelMapping.LinearMap, unmapping parts of it is not considered.
- The memory of nodes, frame records and tables is distinct from that of callers, although BootMemory.RecordsClearOfFrames shows when frame records run into the frames.
- virt::alloc(addr, size): it pushes a slot of undiminished size, so regions would overlap.
- physical::alloc(blocks): marked broken in the source; it loses all frames but the first.
- heap::aligned_alloc and kmalloc_aligned: they align to whole frames whatever is asked for.
- The destructors, cleanup_on_exit and sys_release_memory: plain unmapping loops.
- paging::setup_user_memory_layout, map_user, mapio and unmapio: the first leaves the last page of an unaligned stack unmapped, I/O offsets collide modulo 1 MiB, the others only pass on their arguments.
- kalloc, kfree, kmalloc, krealloc, kcalloc and kfree_block: dispatch to what is modelled, and a decrement of the bump pointer used only by the broken allocator.
- set_heap_limit, the getters, print_stats and logging: no effect on allocation.
- The setters column and line of the screen: they accept 80 and 25, from where the next character is written outside its cell or outside the screen.
- Interrupt tables, devices, ports, the keyboard, timers, boot and interrupt assembly other than the initial page tables: hardware plumbing.
