# HmmOS kernel: a verified model

This project models the data structures and algorithms of the HmmOS kernel in Dafny and proves what
they are for. HmmOS is a small x86 kernel written in C++ with a C bootloader. The model follows the code:
fixed arrays that are rearranged in place stay arrays, objects whose fields change are classes, linked rings are heap
nodes with `next` and `prev`, and pure address arithmetic is a set of functions. Where the code computes in
32 or 64 bits and that matters, the model does so too, and a lemma says exactly when the result is the intended one.

The main results:

- **Physical memory, end to end** (`BootMap`, `FrameTable`, `FrameAllocator`, `Kmalloc`, `PhysicalMemory`). For every
  well-formed firmware map, every sequence of bootloader reservations and every run of allocations and frees, frees of parts of
  grants and across grants included, each page handed out lies wholly in usable memory and touches no reservation for good, no part
  of the frame table and no page in use. No request is refused while a fitting run exists. Where a 32-bit sum wraps in the code, on machines
  with 256 GiB and more or in very large requests, the result says so: the set-up ends as `Short` iff fewer bytes were set aside than the
  frame table takes, and an allocation as `Lost` only if the end of its run can wrap. The map determines the outcome of the set-up. Allocation is
  next-fit, and the second of alloc-free-alloc repeats the base. Over every run of `kmalloc`, blocks are pairwise disjoint and in allocated,
  directly mapped frames as long as none of them leaves the direct map.
- **Containers** (`IntrusiveRing`, `List`, `HashMap`, `Deque`, `Lru`). At pointer level, ring and list operations act on
  sequences, with `next` and `prev` inverse. The hash map refines a finite map, keeps the nodes of a bucket together and keeps node
  identities over a rehash. The deque refines a sequence over a wrapped block ring. The cache's reference counts are its live leases in every
  reachable state, and eviction removes exactly the least recently released entries, in the order in which they were released.
- **Scheduler** (`Scheduler`). Thread ids are unique and never the reserved one in every behaviour, and
  a runnable thread at position k of the ring runs within k + 1 switches unless it is destroyed.
- **Virtual memory** (`PageTable`, `VirtualMemory`, `ElfLoader`). The two-level page table refines a partial map; a cloned directory
  agrees on the kernel half, is empty on the user half, and is independent of the original. The list of mappings stays
  sorted and disjoint iff no request with a wrapping end is accepted below the end of another mapping. Loading an executable is followed for all
  numbers that a program header can hold; if no sum wraps, it either fails for a stated reason or leaves every segment in place, byte by byte.
- **Files** (`Dcache`, `FileRead`). Path lookup through the cache ends where uncached resolution ends. A dentry's count is its children plus its
  holders, and dropping a reference destroys exactly the ancestors that are no longer referenced. Reading returns exactly the
  requested bytes of the concatenation of the file's clusters, or fails an assertion iff it touches a page that does not start a cluster.
- **Printing** (`Printf`). Numerals read back to the number that was printed, and `snprintf` truncates as
  section 7.21.6.5 of ISO C17 says.

`Options`, `Division`, `Sequences` and `PageMath` hold what the others share.

Where the code does less than it means to, the model keeps the code and states the exact condition, in some cases beside an input where it fails:

- the size of the frame table in 32 bits (`TableSizeIsRightIff`), and when the descriptors then meet a page that is handed out (`ShortTableMeetsPageIff`, `TableOverHandedOutMemory`, `ShortTableMeetsNoPage`);
- the end of a region in `e820_alloc` (`TestIsRight`, `LongRegionSeemsToFit`);
- the check over neighbouring map entries (`NeighboursSuffice`, `ReclaimableHidesClash`, `EmptyEntryHidesClash`);
- a `start` inside a region (`HolesMarkedExactly`) and 4 GiB of usable memory (`TotalIsExactBelow4GiB`, `GetFreePages`);
- the end of a run as a 32-bit pointer in `alloc` (`MayWrapIff`, `UntestedRun`) and the bound asserted in `free` (`FreeIsSoundIff`, `FreeReachesOthers`);
- sizes that wrap in `kmalloc` (`FrameTestIsExactUnlessItWraps`) and blocks that leave the direct map (`BlockIsGoodIff`, `BlockLeavesDirectMap`);
- requests that wrap in `mmap` (`OverlapTestIsSoundUnlessItWraps`, `InsertKeepsOrderIff`, `WrappedSharesIff`, `BacksItsAddressesIff`, `AcceptedOverMapping`), a rejected file mapping (`MmapCounted`),
  segments at the top of the address space (`BoundsAreRightIff`, `LastPageIsNotMapped`, `CopyFaultsIff`), at the end of 4 GiB of a file (`FileOffsetIsRightIff`, `StartOfFileIsMapped`) and segments larger in the file than in memory (`TilesMemoryImage`);
- FAT sectors and clusters beyond 4 GiB (`EntryReadIsRight`, `DataPositionIsRight`, `NearFileIsRead`) and clusters larger than a page (`StopsRightIff`,
  `EveryPageIffClustersArePages`, `ReadableIff`);
- rights of a page below a directory entry that grants fewer (`RightsAreKeptIff`, `LowPageStaysPrivate`);
- `shrink_to_fit` of an empty queue (`ShrinkToFit`, `EmptyQueueFreesNothing`);
- the `hh` modifier (`DocumentedIsAcceptedIff`).

The code and its comments disagree in a few places, and the model follows the code. The comment on format specifiers
lists `hh`, which the parser rejects. The comment on end markers speaks of the eight highest cluster numbers; the test takes nine. The comment in the mapping constructor says that a mapping is
file-backed iff it is anonymous; the check demands the opposite. The comment on the deque's resizing multiplies the wrong side.

## Model

| member | source | states |
|---|---|---|
| PageMath.RoundingIsTight | src/kernel/util/algorithm.h:17-30 | rounding down and up give the greatest multiple of the page size below and the least one above, which determines both |
| PageMath.OverlapsIffCommonAddress | src/kernel/util/algorithm.h:44-50 | the overlap test on non-empty ranges holds iff some address lies in both |
| BootMap.MapOfIsUnique | src/boot/page_table.c:48-48 | the firmware map is the entries up to the first null entry, and no other prefix is |
| BootMap.E820Alloc | src/boot/page_table.c:35-68 | returns the lowest base in the first GB, a multiple of the page size and for huge pages of 4 MiB, at which the test, with the end of the region in 32 bits, succeeds, and fails only if there is none; up to 3 GiB the test is right: the length fits into one usable entry and touches no other kind |
| BootMap.TestIsRight | src/boot/page_table.c:48-62 | the test says whether a region lies in a usable entry and touches no other kind, if its end does not wrap |
| BootMap.LongRegionSeemsToFit | src/boot/page_table.c:50-53 | a region of nearly 4 GiB passes the test with 1 GiB of usable memory |
| BootMap.Augment | src/boot/page_table.c:70-87 | appends exactly one entry, or changes nothing when that would leave no null entry at the end |
| BootMap.ReservedKeepsWellFormed | src/boot/page_table.c:35-87 | adding a region that `e820_alloc` found keeps the map well-formed, so that it meets what `normalize_mm` assumes |
| BootMap.ReserveAll | src/boot/page_table.c:35-87 | over any sequence of allocate-and-augment steps the map stays well-formed and null-terminated, every reservation is at the lowest possible base and aligned to pages, or to 4 MiB where huge pages are asked for, all are pairwise disjoint, and the sequence ends early only at a request that nothing satisfies or for which no entry is left |
| BootMap.ReservationsDisjoint | src/boot/page_table.c:35-87 | reservations recorded one after the other in a well-formed map cannot overlap |
| FrameTable.SplitCutsExactly | src/kernel/mm/page_frame_table.cc:104-118 | splitting a usable region around a bootloader region removes exactly the ranges that touch the bootloader region, and no other |
| FrameTable.SplitKeepsWellFormed | src/kernel/mm/page_frame_table.cc:98-118 | a split leaves a well-formed map, so the assertions hold for the next bootloader region too |
| FrameTable.SplitAroundBootloader | src/kernel/mm/page_frame_table.cc:76-120 | the double loop splits in place until what a usable entry holds is what one held before and no bootloader entry touched; none of its assertions fails |
| FrameTable.RearrangedSeparate | src/kernel/mm/page_frame_table.cc:122-139 | sorting cannot make two entries clash: pairwise separation survives any rearrangement |
| FrameTable.NeighboursSeparate | src/kernel/mm/page_frame_table.cc:125-139 | the check over neighbours succeeds iff each neighbouring pair is disjoint or is usable beside reclaimable |
| FrameTable.NeighboursSuffice | src/kernel/mm/page_frame_table.cc:125-139 | on a sorted map of non-empty entries without reclaimable ones, the check over neighbours succeeds iff all pairs are separate |
| FrameTable.ReclaimableHidesClash | src/kernel/mm/page_frame_table.cc:125-139 | a map with a reclaimable entry that passes the check and clashes |
| FrameTable.EmptyEntryHidesClash | src/kernel/mm/page_frame_table.cc:125-139 | a map with an empty entry that passes the check and clashes |
| FrameTable.MoveToFront | src/kernel/mm/page_frame_table.cc:141-149 | compaction by swapping leaves the kept entries in their order at the front and loses no entry |
| FrameTable.FilterKeepsOrder | src/kernel/mm/page_frame_table.cc:159-169 | any relation between all ordered pairs of kept entries holds on the compacted list |
| FrameTable.AlignKeepsRuns | src/kernel/mm/page_frame_table.cc:152-157 | aligning a region keeps exactly the runs of pages that lie wholly inside it |
| FrameTable.NormalizedIsOrdered | src/kernel/mm/page_frame_table.cc:141-169 | the usable, aligned, non-empty entries of a sorted map are ascending and disjoint |
| FrameTable.NormalizedRuns | src/kernel/mm/page_frame_table.cc:141-169 | a run of pages lies in one of them iff it lies in one usable entry |
| FrameTable.NormalizeMm | src/kernel/mm/page_frame_table.cc:70-170 | the result is sorted, page-aligned, non-empty, usable and disjoint; a run of pages lies in one of its regions iff it lies in one original usable region and touches no bootloader region; the reclaimable entries are still in the map |
| FrameTable.NormalFormIsUnique | src/kernel/mm/page_frame_table.cc:70-170 | this determines base and length of every region of the result |
| FrameTable.CarveBytes | src/kernel/mm/page_frame_table.cc:186-196 | trimming a region removes exactly the padded table size from the total |
| FrameTable.CarveKeepsRegions | src/kernel/mm/page_frame_table.cc:186-196 | trimming keeps order, alignment, disjointness and the memory limit, and loses exactly the pages of the table |
| FrameTable.AllocPft | src/kernel/mm/page_frame_table.cc:172-201 | with the size computed in 32 bits, the table goes to the first region that holds it; placement fails iff there is none or it does not fit the directly mapped memory |
| FrameTable.TableSizeIsRightIff | src/kernel/mm/page_frame_table.cc:179-184 | the size of the table computed in 32 bits is that of one descriptor per page below the memory limit iff the limit is at most 256 GiB less 64 pages, and else smaller |
| FrameTable.ShortTableMeetsPageIff | src/kernel/mm/page_frame_table.cc:181-196 | if fewer bytes are set aside, a whole table at that place meets a page that is still handed out iff the region has more pages or the next region begins before the end of the table |
| FrameTable.TableOverHandedOutMemory | src/kernel/mm/page_frame_table.cc:181-196 | a map of 256 GiB for which a table of no bytes is placed, so that descriptors lie over pages still handed out |
| FrameTable.ShortTableMeetsNoPage | src/kernel/mm/page_frame_table.cc:181-196 | a map of two pages for which too few bytes are set aside, without meeting a page that is handed out |
| FrameAllocator.PageFrameTable.RegisterAllocator | src/kernel/mm/page_frame_table.cc:203-223 | an allocator is accepted iff its range overlaps no other's, and then exactly its descriptors are cleared |
| FrameAllocator.NextFitIsUnique | src/kernel/mm/page_frame_allocator.cc:61-89 | the cyclically first fitting run after the needle is unique |
| FrameAllocator.CountMark | src/kernel/mm/page_frame_allocator.cc:96-117 | marking or clearing a run changes the number of allocated descriptors by its length |
| FrameAllocator.AllocatedPlusFree | src/kernel/mm/page_frame_allocator.cc:96-117 | allocated and free frames together are the usable ones, in every state |
| FrameAllocator.SimplePFA.GetFreePages | src/kernel/mm/page_frame_allocator.h:33-35 | the answer is the number of free frames, in every valid state, iff the recorded total is the number of usable frames |
| FrameAllocator.SimplePFA.CountWithinTotal | src/kernel/mm/page_frame_allocator.cc:100-100 | if the recorded total is right, the count never exceeds it, as is asserted in debug builds |
| FrameAllocator.TotalPages | src/kernel/mm/page_frame_allocator.cc:14-24 | the total is the usable bytes in range, added up in 32 bits, divided by the page size |
| FrameAllocator.PagesAreClaimedBytes | src/kernel/mm/page_frame_allocator.cc:14-24 | the bytes in range are the page size times the number of region pages in range |
| FrameAllocator.TotalIsExactBelow4GiB | src/kernel/mm/page_frame_allocator.cc:14-24 | the recorded total is the number of usable frames iff fewer than 4 GiB are usable |
| FrameAllocator.HolesMarkedExactly | src/kernel/mm/page_frame_allocator.cc:34-51 | no frame outside the regions stays usable, and all frames inside stay usable iff no region but the last straddles the start |
| FrameAllocator.SimplePFA.constructor | src/kernel/mm/page_frame_allocator.cc:8-52 | registration, total and hole marking together: descriptors outside the range are untouched, the usable ones are region pages, exactly so iff the range starts cleanly |
| FrameAllocator.SimplePFA.MarkHoles | src/kernel/mm/page_frame_allocator.cc:32-52 | the loop over regions marks exactly the pages of the range in no region that begins at or after the start |
| FrameAllocator.SimplePFA.TryAlloc | src/kernel/mm/page_frame_allocator.cc:64-79 | with the end of the run as a 32-bit pointer, the test succeeds iff that end wraps or the run at the needle fits; a failed test rules out every position it skips |
| FrameAllocator.SimplePFA.Search | src/kernel/mm/page_frame_allocator.cc:61-94 | the two nested loops end on the next fit or on a run whose end wraps, or have ruled out every position |
| FrameAllocator.SimplePFA.Alloc | src/kernel/mm/page_frame_allocator.cc:54-103 | returns the next fit and marks exactly it, leaves the needle on it, fails only if no run fits, and keeps the count equal to the allocated descriptors, unless the end of the run wraps: then nothing is marked and the count is wrong |
| FrameAllocator.SimplePFA.Free | src/kernel/mm/page_frame_allocator.cc:105-117 | each outcome has its condition, with the bound as a 64-bit sum; a free that succeeds clears exactly the descriptors that the loop reaches, and keeps the allocator valid and all descriptors of others as they are iff these lie in its range and the count is right |
| FrameAllocator.FreeIsSoundIff | src/kernel/mm/page_frame_allocator.cc:105-117 | a free that passes all assertions keeps the count equal to the allocated descriptors and touches no descriptor outside the range iff the descriptors reached, if any, end inside it and the count takes off as many as were cleared |
| FrameAllocator.FreeReachesOthers | src/kernel/mm/page_frame_allocator.cc:107-107 | five taken frames pass the asserted bound of a range of four, since it adds pages to bytes |
| FrameAllocator.SimplePFA.MayWrapIff | src/kernel/mm/page_frame_allocator.cc:65-65 | the end of a run can wrap for some position of the needle iff it does for the last one |
| FrameAllocator.UntestedRun | src/kernel/mm/page_frame_allocator.cc:65-79 | a table that ends below 4 GiB and a request whose end wraps, so that the test looks at no descriptor |
| FrameAllocator.SimplePFA.AllocFreeAlloc | src/kernel/mm/page_frame_allocator.h:75-78 | the first allocation fails only if no run fits, and else takes the next fit; an allocation of no greater size after its release repeats the base, and marking it is the only change, unless the end of a run can wrap |
| Kmalloc.FrameTestIsExactUnlessItWraps | src/kernel/mm/kmalloc.cc:24-24 | the test for new frames is exact iff offset plus size does not wrap in 32 bits |
| Kmalloc.FreshBlock | src/kernel/mm/kmalloc.cc:32-33 | a block in frames that were free is disjoint from every block in owned frames |
| Kmalloc.BlockInDirectMapIff | src/kernel/mm/virt.h:59-63 | a block at the front of its frames lies in the direct map iff all of them do |
| Kmalloc.BlockIsGoodIff | src/kernel/mm/kmalloc.cc:18-49 | a block taken from the front of free room, with the arena moved behind it in 32 bits, leaves all blocks disjoint and in allocated, directly mapped frames iff it lies in the direct map itself |
| Kmalloc.BlockLeavesDirectMap | src/kernel/mm/kmalloc.cc:24-33 | two pages at the last frame of the direct map pass the assertion on their address and leave the direct map |
| Kmalloc.TwoShareAPage | src/kernel/mm/kmalloc.cc:24-48 | two requests that fit into one page lie next to each other in it, and the second takes no frames |
| Kmalloc.FullPageLeavesNothing | src/kernel/mm/kmalloc.cc:36-48 | after a request that ends with its page every request takes frames |
| Kmalloc.OthersLeaveHeapAlone | src/kernel/mm/kmalloc.cc:18-49 | the heap stays in order while others allocate and free frames that are not its own |
| Kmalloc.Heap.Kmalloc | src/kernel/mm/kmalloc.cc:18-49 | on any machine: the block comes from the rest of the page iff the test says so, and else from the next fit of frames, which are marked; the assertion on the address fails iff the frames begin beyond the direct map; blocks of a page or more are page-aligned; no memory means that no run of frames fits; the heap stays in order iff the new block lies in the direct map; only a run whose end wraps is granted untested |
| Kmalloc.Heap.KmallocBelow | src/kernel/mm/kmalloc.cc:18-49 | with room in the address space behind the frame table, all this holds without exception |
| Kmalloc.Heap.KmallocRun | src/kernel/mm/kmalloc.cc:18-49 | over every run of requests each makes the stated step, and until one fails its assertion or leaves the direct map all blocks are pairwise disjoint and in allocated frames |
| Kmalloc.TraceGives | src/kernel/mm/kmalloc.cc:18-49 | these blocks are the ones handed out before and those that the run was given, in order |
| PhysicalMemory.Boot | src/kernel/entry.cc:70-77 | set-up from a well-formed map stops iff one of its assertions fails; else the frame table got fewer bytes than it takes iff memory ends beyond 256 GiB less 64 pages, and otherwise the allocator's usable frames are exactly the map's pages outside the frame table |
| PhysicalMemory.OutcomeIsDetermined | src/kernel/entry.cc:70-77 | the map alone determines which of the three it is, where the table goes and the memory limit |
| PhysicalMemory.AllocTracks | src/kernel/mm/page_frame_allocator.cc:96-102 | after an allocation the usable frames are still exactly the available pages |
| PhysicalMemory.FreeTracks | src/kernel/mm/page_frame_allocator.cc:105-117 | and so after a free of any run of pages in use, whatever grants they came from |
| PhysicalMemory.Serve | src/kernel/mm/page_frame_allocator.cc:54-117 | for every run of requests each grant is a run of pages available at that moment, no request is refused while one exists, a free succeeds iff all its pages are in use, and the run goes on to its end unless an assertion fails or the books go wrong |
| PhysicalMemory.NeverLost | src/kernel/mm/page_frame_allocator.cc:64-79 | if the address space has room for the table and as much again behind it, every allocation is granted, or refused because no run is available |
| PhysicalMemory.PageAvoidsReservations | src/kernel/mm/page_frame_table.cc:76-120 | a page of the normalized map is in usable firmware memory and meets no bootloader entry of the firmware and no reservation made for good |
| PhysicalMemory.GrantsAreClear | src/kernel/mm/page_frame_allocator.cc:54-103 | so every page of every grant of a run is, and it is clear of the frame table and of all pages in use at that moment |
| PhysicalMemory.FromFirmware | src/kernel/entry.cc:70-77 | from the firmware map through the bootloader's reservations to a served run: when reservations end early, when the set-up stops, that every request is answered, and that each granted page is usable, clear of bootloader entries and reservations, of the frame table and of all pages in use |
| IntrusiveRing.RotateRing | src/kernel/util/intrusive_list.h:205-217 | a ring may be read from any of its nodes |
| IntrusiveRing.Erase | src/kernel/util/intrusive_list.h:208-217 | takes one node out of its ring, leaves it a ring of its own, and returns its successor |
| IntrusiveRing.PushFront | src/kernel/util/intrusive_list.h:219-226 | removes a node from wherever it is, also from the same ring, and puts it first; inserting the head into itself empties it |
| IntrusiveRing.PushBack | src/kernel/util/intrusive_list.h:228-235 | the same at the back |
| IntrusiveRing.Size | src/kernel/util/intrusive_list.h:239-247 | counts the nodes other than the head |
| IntrusiveRing.Clear | src/kernel/util/intrusive_list.h:250-253 | terminates and leaves every node a ring of its own |
| List.RelinkedRings | src/kernel/nonstd/list.h:274-290 | the six pointers that a splice changes make two rings: one with the range moved in, one without it |
| List.SpliceImpl | src/kernel/nonstd/list.h:274-290 | the four swaps set exactly these pointers, and nothing changes for an empty range |
| List.SwappedRing | src/kernel/nonstd/list.h:44-54 | exchanging the sentinels' links exchanges the contents of two rings |
| List.SwapLinks | src/kernel/nonstd/list.h:44-54 | the swaps of move assignment do so for every combination of empty and non-empty lists |
| List.List.Emplace | src/kernel/nonstd/list.h:129-141 | inserts one new node before the given position |
| List.List.EraseNode | src/kernel/nonstd/list.h:142-152 | removes the given node and returns its successor |
| List.List.Splice | src/kernel/nonstd/list.h:273-290 | moves exactly the range between two distinct lists and keeps both sizes right |
| List.List.MoveAssign | src/kernel/nonstd/list.h:44-54 | swaps the two lists |
| HashMap.Contiguous | src/kernel/nonstd/node_hash_map.h:219-249 | nodes of one bucket stand in one contiguous run |
| HashMap.BucketStart | src/kernel/nonstd/node_hash_map.h:295-311 | a bucket that occurs is pointed to, at the first node of its run |
| HashMap.SameBucketIff | src/kernel/nonstd/node_hash_map.h:194-194 | two hashes share a bucket iff they differ by a multiple of the number of buckets |
| HashMap.LinkedIn | src/kernel/nonstd/node_hash_map.h:229-242 | inserting at the head of the run keeps this |
| HashMap.Unlinked | src/kernel/nonstd/node_hash_map.h:279-293 | so does removing any node, with the bucket moved to the next node of the run or emptied |
| HashMap.NextBucketCount | src/kernel/nonstd/node_hash_map.h:354-373 | the least count in the table that is large enough |
| HashMap.RunExhausted | src/kernel/nonstd/node_hash_map.h:305-310 | walking a run to its end proves that the key is absent |
| HashMap.NodeHashMap.Find | src/kernel/nonstd/node_hash_map.h:295-311 | finds the node of a key iff the map has it |
| HashMap.NodeHashMap.Emplace | src/kernel/nonstd/node_hash_map.h:219-249 | the map gets the new value for the key; a present node keeps its identity, and the size stays within the bucket count |
| HashMap.NodeHashMap.TryEmplace | src/kernel/nonstd/node_hash_map.h:251-277 | the map changes only if the key was absent |
| HashMap.NodeHashMap.Rehash | src/kernel/nonstd/node_hash_map.h:331-352 | relinks the same nodes into enough buckets, so saved iterators stay good, and does nothing when there are enough, for any count |
| HashMap.NodeHashMap.Erase | src/kernel/nonstd/node_hash_map.h:279-293 | removes one node and its key and returns the next |
| HashMap.NodeHashMap.EraseKey | src/kernel/nonstd/node_hash_map.h:279-311 | removes the key from the map, and does nothing if it is absent |
| HashMap.NodeHashMap.MoveAssign | src/kernel/nonstd/node_hash_map.h:61-67 | swaps the two maps |
| Deque.FullMeansAllBlocks | src/kernel/nonstd/deque.h:466-470 | when the ring is full every block is there, so the copy meets no null block |
| Deque.PrependShiftsCells | src/kernel/nonstd/deque.h:479-489 | a block put in front shifts all element positions by its size and keeps their values |
| Deque.DropShiftsCells | src/kernel/nonstd/deque.h:321-328 | freeing a block in front of the first element shifts them back |
| Deque.WriteChangesOneCell | src/kernel/nonstd/deque.h:394-394 | a store through the index arithmetic changes one element |
| Deque.FreeKeepsCells | src/kernel/nonstd/deque.h:312-320 | freeing a block behind the last element changes none |
| Deque.Unwrap | src/kernel/nonstd/deque.h:463-470 | copies a wrapped ring of blocks in logical order |
| Deque.Deque.At | src/kernel/nonstd/deque.h:276-281 | index arithmetic reaches the element of the sequence, in a block that is there |
| Deque.Deque.ReallocBlocks | src/kernel/nonstd/deque.h:459-477 | doubles the ring and keeps the sequence |
| Deque.Deque.EmplaceBack | src/kernel/nonstd/deque.h:372-397 | appends one element |
| Deque.Deque.EmplaceFront | src/kernel/nonstd/deque.h:382-388 | prepends one element to a non-empty deque |
| Deque.Deque.PushFront | src/kernel/nonstd/deque.h:372-397 | prepends one element to any deque |
| Deque.Deque.Erase | src/kernel/nonstd/deque.h:399-412 | removes the first or the last element |
| Deque.Deque.ShrinkToFit | src/kernel/nonstd/deque.h:311-337 | keeps the sequence; of blocks without gaps, as the other operations keep them, exactly those that the elements need are left iff the queue is not empty at index zero, has no second block, or the wrapped index leads to that one; an empty queue ends at index zero without its first block |
| Deque.ShrunkIff | src/kernel/nonstd/deque.h:311-337 | this condition, on the blocks that the two loops leave |
| Deque.EmptyQueueFreesNothing | src/kernel/nonstd/deque.h:312-316 | for 16 blocks of 128 elements the wrapped index leads to the first block, so the loop frees nothing |
| Lru.GetInv | src/kernel/util/lru.h:129-140 | a lookup keeps the invariant: counts are live leases, the ring is the resident entries with count zero in order of release, values are those populated, populations minus evictions is the size |
| Lru.ReleaseInv | src/kernel/util/lru.h:64-94 | so does dropping a lease or an explicit hold |
| Lru.IncInv | src/kernel/util/lru.h:83-88 | so does taking an explicit hold |
| Lru.EvictNodeInv | src/kernel/util/lru.h:185-190 | so does evicting an entry of the ring |
| Lru.GetTakes | src/kernel/util/lru.h:129-140 | a lookup that gives a lease puts the entry in the table if it was not there, adds one to its count, takes it off the ring and changes nothing else; any other lookup changes nothing |
| Lru.IncTakes | src/kernel/util/lru.h:83-88 | the same for an explicit hold |
| Lru.ReleaseGivesBack | src/kernel/util/lru.h:64-94 | dropping a lease takes one from the count of its entry, puts it at the front of the ring iff that was the last, and changes nothing else |
| Lru.EvictLeaseEvicts | src/kernel/util/lru.h:173-182 | evicting by a lease removes the entry from table and ring and passes its populated value to the callback, exactly once, iff the lease is the only hold, and changes nothing otherwise |
| Lru.EvictTailStep | src/kernel/util/lru.h:164-167 | one turn of the eviction loop extends the evicted suffix of the ring by one |
| Lru.EvictTailSize | src/kernel/util/lru.h:162-169 | evicting n entries makes the cache n smaller |
| Lru.EvictTailEvicts | src/kernel/util/lru.h:162-169 | exactly the entries passed to the callback, each with the value that was populated, leave the table; all others stay as they are, those on the ring in their order |
| Lru.EvictTailInv | src/kernel/util/lru.h:162-169 | eviction keeps the invariant |
| Lru.EvictsOldestReleases | src/kernel/util/lru.h:162-169 | everything evicted was released before everything evictable that stays |
| Lru.EvictsInOrderOfRelease | src/kernel/util/lru.h:162-169 | of two evicted entries the one released first goes first |
| Lru.EvictReaches | src/kernel/util/lru.h:162-169 | eviction goes on until the size is what was asked for or nothing is evictable, and never goes below it |
| Lru.EvictSparesHeld | src/kernel/util/lru.h:162-169 | a leased entry is never evicted |
| Lru.StepInv | src/kernel/util/lru.h:61-190 | every operation keeps the invariant |
| Lru.RunInv | src/kernel/util/lru.h:61-190 | so it holds after every run |
| Lru.LRUCache.GetLease | src/kernel/util/lru.h:129-140 | the method makes the step of the specification and returns a lease iff the key is resident afterwards |
| Lru.LRUCache.ReleaseLease | src/kernel/util/lru.h:64-94 | the destructor of a lease makes the step of the specification |
| Lru.LRUCache.EvictOneLease | src/kernel/util/lru.h:173-182 | succeeds iff the lease is the only hold; then the entry is in neither table nor ring, its value was passed to the callback and no other entry changes; otherwise nothing does |
| Lru.LRUCache.EvictAll | src/kernel/util/lru.h:162-169 | evicts exactly min(max(size - hint, 0), evictable) entries, from the back of the ring |
| Scheduler.FreeCandidateExists | src/kernel/sched/kthread.cc:196-205 | unless all ids are taken, some id is free within one turn of the counter |
| Scheduler.FindNextTid | src/kernel/sched/kthread.cc:196-205 | the loop terminates with the first free id from the counter on |
| Scheduler.DistinctTids | src/kernel/sched/kthread.cc:196-205 | live threads have distinct ids, none of them the reserved one |
| Scheduler.SpawnInv | src/kernel/sched/kthread.cc:42-66 | a new thread keeps the invariant: exactly the live threads other than the running one are in the ring, once, and ids map back to threads |
| Scheduler.ScheduleInv | src/kernel/sched/kthread.cc:85-123 | a switch keeps it, with the deletion it completes |
| Scheduler.DestroyRunning | src/kernel/sched/kthread.cc:153-180 | a thread that destroys itself is gone after the switch and its id is free |
| Scheduler.DestroyInv | src/kernel/sched/kthread.cc:153-194 | destroying any thread keeps the invariant |
| Scheduler.SpawnJoins | src/kernel/sched/kthread.cc:42-66 | a new thread is last in the order of threads, under an id that was free, and nothing else changes |
| Scheduler.ScheduleMovesOn | src/kernel/sched/kthread.cc:85-123 | without a pending deletion a switch moves the running thread to the end of the order and changes nothing else |
| Scheduler.DestroyMakesGone | src/kernel/sched/kthread.cc:153-194 | a destroyed thread, the running one or another, leaves threads, ids and order, the next one runs if it ran, and the others keep their ids and their order |
| Scheduler.BehaviorInv | src/kernel/sched/kthread.cc:42-205 | the invariant holds in every state of every behaviour |
| Scheduler.PositionStep | src/kernel/sched/kthread.cc:85-123 | a switch moves a waiting thread one place forward or runs it; nothing moves it back |
| Scheduler.RunsWithin | src/kernel/sched/kthread.cc:68-123 | a thread at place k of the ring that is not destroyed runs within k + 1 switches |
| Scheduler.Scheduler.Bootstrap | src/kernel/sched/kthread.cc:30-39 | the first thread gets id zero and establishes the invariant |
| Scheduler.Scheduler.NewThread | src/kernel/sched/kthread.cc:42-66 | makes the step of the specification |
| Scheduler.Scheduler.ChooseTask | src/kernel/sched/kthread.cc:68-83 | none iff no thread may run; what is chosen may run, and the running thread goes on only if no other one waits |
| Scheduler.Scheduler.DeleteTask | src/kernel/sched/kthread.cc:182-194 | makes the step of the specification |
| Scheduler.Scheduler.ScheduleNext | src/kernel/sched/kthread.cc:85-151 | makes the step of the specification |
| Scheduler.Scheduler.DestroyThread | src/kernel/sched/kthread.cc:153-180 | makes the step of the specification: the thread and its id are gone, and the others keep theirs, in the same order |
| PageTable.AddTableChangesNothing | src/kernel/arch/x86/page_table.cc:170-193 | hooking up an empty page table, whose entry grants all rights, changes no translation of any directory |
| PageTable.SetPteChangesOne | src/kernel/arch/x86/page_table.cc:195-225 | writing one entry changes the translation of one page in one directory, to a mapping with those rights that both levels grant |
| PageTable.RightsAreKeptIff | src/kernel/arch/x86/page_table.cc:170-225 | a page gets the rights that it is mapped with iff the directory entry that is found grants them |
| PageTable.LowPageStaysPrivate | src/boot/page_table.c:107-116 | below 4 MiB in the directory of the bootloader a page mapped for the user is not accessible to the user |
| PageTable.CloneAgrees | src/kernel/arch/x86/page_table.cc:257-276 | a directory with copied tables translates kernel pages alike and user pages not at all |
| PageTable.CloneValid | src/kernel/arch/x86/page_table.cc:251-279 | and shares no table with another directory |
| PageTable.Memory.Map | src/kernel/arch/x86/page_table.cc:155-226 | adds exactly one translation, global and with the rights asked for as far as the directory entry grants them, which a new one does; changes none when the page is mapped or a table cannot be had |
| PageTable.Memory.MapUser | src/kernel/arch/x86/page_table.cc:155-226 | in a directory whose user entries grant all rights, as those of a clone do and keep doing, a user page gets exactly the rights asked for |
| PageTable.Memory.Unmap | src/kernel/arch/x86/page_table.cc:228-239 | removes exactly one translation and says whether there was one |
| PageTable.Memory.Clone | src/kernel/arch/x86/page_table.cc:251-279 | the new space agrees on the kernel half, rights included, is empty on the user half, grants all rights there to pages mapped later, and leaves all others as they were; as tables are not shared, later changes to one never show in another |
| VirtualMemory.OverlapTestIsSoundUnlessItWraps | src/kernel/proc/process.cc:238-243 | the 32-bit overlap test finds every overlap iff the end of the request does not wrap |
| VirtualMemory.EarlyBreakIsSound | src/kernel/proc/process.cc:245-252 | stopping at the first later mapping misses no overlap, and inserting there keeps the list sorted and disjoint |
| VirtualMemory.MappingsInsert | src/kernel/proc/process.cc:250-252 | an insertion adds one mapping of its file |
| VirtualMemory.FindSlot | src/kernel/proc/process.cc:238-248 | for any request and any list equals the search to the first mapping that the 32-bit test finds to overlap or that starts above; on a sound list it reports an overlap iff the test finds one |
| VirtualMemory.ScanIsExact | src/kernel/proc/process.cc:238-248 | on a sorted, disjoint list without wrapping ends the early break misses no overlap that the test would find, and the place found is that of the request in the order |
| VirtualMemory.ClashesAreSeen | src/kernel/proc/process.cc:238-243 | the overlaps that the loop finds are those that there are, if the end of the request does not wrap |
| VirtualMemory.InsertKeepsOrderIff | src/kernel/proc/process.cc:245-252 | a mapping put where the loop stops keeps the list sorted and disjoint iff its end does not wrap or all other mappings end below it |
| VirtualMemory.WrappedSharesIff | src/kernel/proc/process.cc:238-252 | a mapping whose end wraps shares an address with another iff that one reaches above its start or begins below its wrapped end |
| VirtualMemory.BacksItsAddressesIff | src/kernel/arch/x86/isrs.cc:125-128 | the page-fault handler finds exactly the addresses of a mapping in it iff its end does not wrap, and none if it does |
| VirtualMemory.AcceptedOverMapping | src/kernel/proc/process.cc:238-252 | a request with a wrapping end that is accepted over an existing mapping |
| VirtualMemory.Process.Mmap | src/kernel/proc/process.cc:226-259 | for any request and any list each result has its exact condition; success inserts exactly the mapping where the search ended and takes one reference to its file, failure changes no mapping |
| VirtualMemory.Process.MmapSound | src/kernel/proc/process.cc:226-259 | on a sound list it fails iff an overlap is seen or an argument is invalid; the list stays sound iff no request with a wrapping end succeeds, and sorted and disjoint iff none succeeds below the end of another mapping |
| VirtualMemory.Process.MmapCounted | src/kernel/proc/process.cc:31-53 | references minus mappings of a file are kept iff the request is not a file mapping that the constructor rejects |
| ElfLoader.PiecesTile | src/kernel/proc/process.cc:380-431 | the mappings of a segment follow each other without gap over the pages of its file part or its memory part, whichever is larger |
| ElfLoader.TilesMemoryImage | src/kernel/proc/process.cc:380-431 | they are exactly the pages of the segment in memory iff the file part reaches no further page |
| ElfLoader.PiecesProtected | src/kernel/proc/process.cc:380-431 | all mappings of a segment have its protection, and only the full file pages come from the file |
| ElfLoader.BoundsAreRightIff | src/kernel/proc/process.cc:401-424 | the page bounds of a segment computed in 32 bits are right iff none of its ends wraps |
| ElfLoader.LastPageIsNotMapped | src/kernel/proc/process.cc:403-431 | for a segment of one page at the end of the address space nothing is mapped |
| ElfLoader.FileOffsetIsRightIff | src/kernel/proc/process.cc:405-413 | the file offset of a page computed in 32 bits is right iff the sum does not wrap |
| ElfLoader.StartOfFileIsMapped | src/kernel/proc/process.cc:403-407 | a segment at the end of 4 GiB of a file for which the start of the file is mapped |
| ElfLoader.CopyFaultsIff | src/kernel/proc/process.cc:384-399 | the copy into the first page is larger than the page iff address plus size exceeds 4 GiB, or equals it for a segment that begins before the last page; else it is the bytes of the segment in that page |
| ElfLoader.MmapAllExact | src/kernel/proc/process.cc:380-431 | mappings in ascending order can all be made on a sound list iff none overlaps a mapping, and then exactly they are added |
| ElfLoader.AttemptIsExact | src/kernel/proc/process.cc:319-431 | so a segment whose sums do not wrap is loaded iff address and offset agree modulo the page size and no piece overlaps a mapping |
| ElfLoader.LoadAllIsExact | src/kernel/proc/process.cc:318-432 | and all segments are loaded iff each can be mapped after those before it, and then exactly their pieces are added |
| ElfLoader.LoadedStays | src/kernel/proc/process.cc:380-431 | filling a page that nothing mapped disturbs no segment already in place |
| ElfLoader.MapPartialPage | src/kernel/proc/process.cc:381-422 | maps one private page as `mmap` does and fills it with zeros, the given bytes and zeros; on a sound list no segment in place is disturbed |
| ElfLoader.LoadSegment | src/kernel/proc/process.cc:319-431 | for any segment: the mappings afterwards are those of the up to four requests with bounds and offsets computed in 32 bits, made one after the other; the copy into the first page faults iff it is larger than the page; if no sum wraps and the segment can be mapped it is in place: file bytes at their addresses, whether copied or mapped at their file offset, and zeros in the rest of the partial pages |
| ElfLoader.LoadSegments | src/kernel/proc/process.cc:318-432 | for any program headers: the segments are tried one after the other up to the first failure; if no sum wraps it succeeds iff each loadable segment can be mapped after those before it, and then all of them are in place |
| Dcache.LeftPartition | src/kernel/util/pathutil.cc:13-19 | the parts joined by a slash give back the path, and the first has none |
| Dcache.SplitFirst | src/kernel/util/pathutil.cc:13-19 | taking components from the left yields what stands between the slashes |
| Dcache.SplitJoins | src/kernel/util/pathutil.cc:13-19 | these have no slash in them and, joined by slashes, give back the path |
| Dcache.DotIsNothing | src/kernel/fs/vfs.cc:124-157 | an empty component or a dot anywhere in a path makes no difference |
| Dcache.DotDotTakesBack | src/kernel/fs/vfs.cc:134-139 | two dots take back the name before them, and do nothing at the root |
| Dcache.NameIsLookedUp | src/kernel/fs/vfs.cc:141-153 | any other name leads to an inode iff the filesystem gives it for that name in the directory reached |
| Dcache.HoldInv | src/kernel/fs/vfs.h:189-191 | opening a file keeps the invariant: counts are children plus holders plus one for the root, children and parents agree, the table finds exactly the cached dentries, and each is what the filesystem gives for its name |
| Dcache.AddDentryInv | src/kernel/fs/vfs.cc:85-97 | so does creating a dentry for a name that is not cached |
| Dcache.DeadAreUnreferenced | src/kernel/fs/vfs.h:150-165 | what the cascade destroys has no other reference, and no assertion on the way fails |
| Dcache.ReferencedStay | src/kernel/fs/vfs.h:150-165 | the root, a dentry with a holder left and a dentry with a child that stays are not destroyed |
| Dcache.CascadeLeavesNoneUncounted | src/kernel/fs/vfs.h:150-165 | the cascade goes far enough: what it leaves on the way up is still referenced |
| Dcache.ReleaseInv | src/kernel/fs/vfs.cc:99-115 | dropping a reference keeps the invariant |
| Dcache.ReleaseCloses | src/kernel/fs/vfs.h:150-165 | one holder less; what is destroyed is an unreferenced ancestor other than the root, what stays on the way up is referenced, and nothing changes its place |
| Dcache.CachedIsResolved | src/kernel/fs/vfs.cc:141-144 | a cached dentry stands for what the filesystem would give |
| Dcache.AddedIsResolved | src/kernel/fs/vfs.cc:145-153 | so does a new one |
| Dcache.ParentIsResolved | src/kernel/fs/vfs.cc:134-139 | going up follows the way that was taken down, and stays at the root |
| Dcache.Vfs.DecRc | src/kernel/fs/vfs.h:150-165 | terminates and removes exactly the ancestors whose only reference it was, together with their table entries |
| Dcache.Vfs.Destroy | src/kernel/fs/vfs.cc:99-115 | the destructor's part of it, in its order, with its assertions |
| Dcache.Vfs.PathnameLookup | src/kernel/fs/vfs.cc:124-157 | whatever is cached, ends where component-by-component resolution without a cache ends, or fails as it does, and keeps the invariant |
| Dcache.Vfs.Open | src/kernel/proc/process.cc:146-155 | the dentry of the path gets one more holder, and every dentry that was there stays |
| Dcache.Vfs.Close | src/kernel/proc/process.cc:157-165 | one holder less, exactly the ancestors that nothing refers to any more are destroyed, and the others stay where they are |
| FileRead.EntryReadIsRight | src/kernel/fs/drivers/fat32.cc:309-363 | the four bytes that are read are the cluster's own FAT entry iff its sector lies in the first 4 GiB |
| FileRead.DecodeEncode | src/kernel/fs/drivers/fat32.cc:360-363 | a number written with its least significant byte first reads back |
| FileRead.EncodeDecode | src/kernel/fs/drivers/fat32.cc:360-363 | and so do bytes |
| FileRead.EncodedEntries | src/kernel/fs/drivers/fat32.cc:360-363 | cluster 3 and an end marker, byte by byte |
| FileRead.EncodedEntryLeads | src/kernel/fs/drivers/fat32.cc:355-367 | an entry written so leads to the number without its four high bits, unless that is an end marker |
| FileRead.LayoutIsDense | src/kernel/fs/drivers/fat32.cc:188-220 | FAT entries and clusters follow each other without gaps, entries from number 0 and clusters from number 2 |
| FileRead.AdvanceCluster | src/kernel/fs/drivers/fat32.cc:355-367 | for every number that can stand in the entry, written with its least significant byte first, returns the number without its four high bits, or hits the assertion iff that is an end marker |
| FileRead.StopsRightIff | src/kernel/fs/drivers/fat32.cc:211-214 | the walk stops at the cluster that holds the offset iff the offset starts a cluster |
| FileRead.EveryPageIffClustersArePages | src/kernel/fs/drivers/fat32.cc:189-214 | the walk is right for every page iff clusters are pages |
| FileRead.WalkChain | src/kernel/fs/drivers/fat32.cc:206-214 | terminates at the cluster of the chain that holds an offset that starts a cluster, or hits the assertion when the chain is too short; for any other offset it always hits the assertion at the end of the chain |
| FileRead.DataPositionIsRight | src/kernel/fs/drivers/fat32.cc:216-219 | the position computed in 32 bits is right iff the cluster lies in the first 4 GiB |
| FileRead.GetDevOffset | src/kernel/fs/drivers/fat32.cc:188-220 | for any offset, the position of its cluster or the failure that applies |
| FileRead.FilePage | src/kernel/fs/page_cache.cc:48-54 | for any cluster size of whole pages, a page can be leased iff it starts a cluster, and then holds the bytes of the file's clusters where they are read |
| FileRead.Read | src/kernel/fs/vfs.cc:51-81 | fails an assertion iff a page that it touches does not start a cluster; else returns exactly the bytes of the file's clusters, where they are read, from the offset up to the count or the end, whichever comes first, leaves the rest of the buffer alone, and rejects directories |
| FileRead.NearFileIsRead | src/kernel/fs/drivers/fat32.cc:188-220 | if the clusters and their FAT entries are in the first 4 GiB, these are the bytes of the clusters that the FAT, decoded independently of the code, gives for the file |
| FileRead.ReadableIff | src/kernel/fs/vfs.cc:51-81 | with clusters larger than a page exactly the reads within the first page of a cluster succeed |
| FileRead.AllPagesReadable | src/kernel/fs/vfs.cc:51-81 | with clusters of one page every read does |
| FileRead.FileExists | src/kernel/fs/drivers/fat32.cc:206-219 | the chain and the size determine the bytes of a file |
| Printf.NumeralRoundTrip | src/kernel/nonstd/libc.cc:140-171 | reading the numeral gives the number back, all characters are digits of the radix, and there is no leading zero |
| Printf.NumeralFits | src/kernel/nonstd/libc.cc:137-139 | a 64-bit number takes at most 64 characters |
| Printf.SignedRoundTrip | src/kernel/nonstd/libc.cc:175-185 | the same for signed numbers, sign included |
| Printf.NegateUnsigned | src/kernel/nonstd/libc.cc:176-181 | unsigned negation gives the magnitude, also of the least 64-bit number |
| Printf.BackwardsIsReversed | src/kernel/nonstd/libc.cc:155-169 | the digits as they come up, reversed, are the numeral |
| Printf.ReverseInPlace | src/kernel/nonstd/libc.cc:164-169 | the swaps from the middle outwards reverse the digits |
| Printf.Utoa | src/kernel/nonstd/libc.cc:140-171 | writes the numeral and returns its length; an unsupported radix gives -1, except for zero |
| Printf.Itoa | src/kernel/nonstd/libc.cc:175-185 | writes the signed numeral |
| Printf.DocumentedIsAcceptedIff | src/kernel/nonstd/libc.cc:61-133 | a specifier of the documented form is accepted, with its type and its full length, iff its modifier is not hh; otherwise it is invalid and of length one |
| Printf.UnsignedReadsBack | src/kernel/nonstd/libc.cc:254-288 | what u, x, o and b print reads back in base 10, 16, 8 and 2 |
| Printf.SignedReadsBack | src/kernel/nonstd/libc.cc:289-305 | what d prints reads back with its sign |
| Printf.OthersPrintAsTheyAre | src/kernel/nonstd/libc.cc:245-312 | a character and a string are printed as they are, and a doubled percent sign as one |
| Printf.PlainText | src/kernel/nonstd/libc.cc:231-324 | characters before the first percent sign are printed as they are |
| Printf.SpecifierPrints | src/kernel/nonstd/libc.cc:231-324 | a documented specifier other than hh prints its argument, and the format goes on behind it with the other arguments |
| Printf.ParseFormatSpec | src/kernel/nonstd/libc.cc:79-135 | agrees with the table of modifiers and types, and gives an invalid specifier length one |
| Printf.Vsnprintf | src/kernel/nonstd/libc.cc:231-324 | the buffer gets the first min(length, n - 1) characters of the text and a terminator and keeps the rest, also if n is more than the buffer has and the text fits; nothing is written for n = 0, and the result is the length of the whole text |
| Printf.Vsprintf | src/kernel/nonstd/libc.cc:339-341 | with the largest size the whole text and its terminator are written, and nothing else |

## Left out

- Device drivers (AHCI, PCI, PIC, serial, console, ACPI), interrupt and descriptor tables and all assembly: they are port I/O and fixed bit layouts. The disk is an immutable sequence of bytes.
- Stack switching, time stamps and statistics: each scheduler method is one atomic step that includes the bookkeeping after the switch.
- The page-fault handler, but for its search of the mappings: the ELF results are about the list of mappings and the pages that the loader itself fills.
- Parsing of ELF headers, and errors of `lseek` and `read` while loading: program headers and file bytes are parameters. A short read leaves the rest of the buffer, as in the code.
- The hash function, the results of `operator new` and `populate` and the filesystem's `lookup` are parameters or arbitrary functions.
- Unimplemented filesystem operations, directory iteration, 8.3 names, inode reference counts, negative dentries and unlinking. Start clusters are taken as given.
- `vector`, `string`, `string_view`, `queue`, `stack`: easy members beside `deque` and `list`.
- The page cache between `Inode::read` and the disk: `Lru` shows that a hit returns what was populated, and the disk does not change.
- FrameTable.SortByBase: stands in for `std::sort`, of which only the sorted rearrangement is used.
- FrameTable.NormalizeMm: assumes the documented disjointness of firmware regions (src/kernel/mm/page_frame_table.h:59-67), of which the check over neighbours detects what NeighboursSuffice says. Addresses of firmware entries do not wrap in 64 bits.
- PhysicalMemory.Boot: follows the set-up no further once the frame table got fewer bytes than it takes. An empty usable map counts as a failed assertion. The contents of reclaimable memory, which is cleared, are not modelled.
- PhysicalMemory.Serve: follows a run no further once the books are wrong.
- Kmalloc.Heap.Kmalloc: an allocator must have been set; of frames that were granted untested it says only where they are.
- FrameAllocator.SimplePFA.Alloc: assertions of debug builds are not modelled; the one on the count holds if the recorded total is right (see CountWithinTotal), and with 4 GiB or more of usable memory it can fail.
- BootMap.ReserveAll: requests are at most 3 GiB, beyond which the end of a region can wrap (see LongRegionSeemsToFit).
- List.List.MoveAssign: for an assignment to itself the model skips the swaps, which change nothing then.
- List.List.Emplace: values are identified with their nodes.
- HashMap.NodeHashMap.Rehash: the node list is a sequence of node objects; its pointers are the subject of `List`. Counts above the largest bucket count are excluded, as by the assertion.
- Deque.Deque.PushFront: states the contents, not that every block allocated before is still reachable.
- Deque.Deque.Erase: requires the first or last position, as asserted.
- Lru.LRUCache.EvictOneLease: treats the lease as consumed; in the code the caller's object still points to the node. Operations are atomic steps.
- Scheduler.Scheduler.DestroyThread: requires what is asserted, including that a task can be chosen.
- PageTable.Memory.Map: huge pages are only copied by a clone, never mapped; physical frame numbers are cut to 20 bits as in the entry.
- ElfLoader.LoadSegments: says nothing about the contents of memory for segments whose sums wrap, and follows the loading no further at a copy that faults.
- Dcache.Vfs.DecRc: dentries are named by the order of their creation, so an address that is reused counts as a new dentry.
- FileRead.Read: requires a cluster size of whole pages, as asserted, and a chain that ends and is as long as the size says, and that the places at which it is read are on the disk.
- Printf.Vsnprintf: requires arguments of the kinds and ranges that the format asks for, a text shorter than 2^31, and a buffer as large as claimed or large enough for the text; writing to the terminal is not modelled.
