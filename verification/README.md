# Kernel components of GCore, modelled and proved in Dafny

Each component is modelled twice: as the thing the kernel changes in place (a class, or a method over
arrays), and as a value with a plain meaning. What is proved is that the first never drifts from the
second.

**Anonymous user memory.** `FrameAllocator`, `Zram` and `Swap` are the three stores a page can be in;
`Devices` are the objects around them. `Paging` is the page machine: every page of every address space
names a frame, a compressed blob, a swap slot or nothing, trackers may be shared, and a page table maps
some pages. `View` is the plain map from (address space, page) to bytes. Lazy allocation, copy-on-write,
compression, swap and fault repair must be invisible in it, and `PagingRuns` proves that over whole runs.
`Areas`, `Spaces`, `Unmapping`, `Protecting` and `Forking` add the areas, their splitting and their
counters, `Pressure` the eviction passes; `MemorySystems` is the kernel state itself with page faults, memory
pressure, `munmap`, `mprotect` and fork as methods.

**Virtio split virtqueue** (section 2.6 of Virtual I/O Device (VIRTIO) Version 1.1). `DescriptorTable` is
the intrusive free list and the direct and indirect chains, `RingPair` the two rings with wrapping
indices, `VirtQueues` the driver, with the device as steps that fetch heads in order and complete them in
any order.

**Block and page caches.** `BlockCaches` is the bounded write-back cache against a disk without a cache;
`PageIo` is the run-coalescing page I/O against block-at-a-time I/O.

**Scheduling.** `TaskStates` holds task states, the two queues and the process tree as values,
`Schedulers` the scheduler of one hart; `WaitQueues`, `Timers` and `Futexes` build on it.

**Transforms.** `UserBuffers` and `ProcessVm` are scatter/gather against flat copying, `RemoteCopies` is the
same scatter over the page machine with its faults and shared frames, `Paths` is path normalisation against the
raw walk.

`Types` holds shared vocabulary. `dafny verify dfyconfig.toml` checks the whole project.

## Where the code does not do what one would expect

The model follows the code; each of these is stated and proved with its exact condition.

- `munmap` of an empty range strictly inside an area drops the upper part of the area and leaves its
  page-table entries behind, while the frames only that part owned go back to the allocator
  (`MemorySystems.MemorySystem.Munmap`, `MunmapZero`, with `LosesSecondPage` as an instance). The overlap test also
  accepts a range that merely ends where an area starts, so `munmap` then reports success without
  unmapping anything.
- `force_swap` counts a page as released although a sharer keeps its frame (`Paging.ForceSwapFrees`,
  `Pressure.ForceHonestIff`, with `Pressure.SharedPageUncounted` as an instance).
- The kernel writes to user memory through `translate`, which does not look at W: after a fork such a write
  reaches every space that shares the page (`Paging.KernelWritePrivateIff`, with `Pressure.SharedPageWritten` as
  an instance).
- A page another task has not mapped is faulted in by the handler of the running task, so bytes for it go to the
  running task's own page at that address (`RemoteCopies.EntryUnseenIff`, with
  `RemoteCopies.RemoteWriteLandsHere` as an instance).
- `exit_group` takes the members of the group off the queues and then lets them exit one by one; an exit that
  wakes a sleeping member whose turn is still to come puts it back, and it ends as a zombie in the ready queue
  (`Schedulers.Scheduler.ExitGroup`, `TaskStates.ExitedAllIff`, `TaskStates.ExitedAllQueued`, with
  `TaskStates.JoinedGroupBreaks` as an instance).
- `requeue` of a futex onto its own address loses the waiters it does not move
  (`Futexes.RequeueConservesIff`).
- `process_vm_copy` reports what the target list reaches, and writes zeros for whatever the source list does
  not reach (`ProcessVm.ReportIsHonestIff`, with `ProcessVm.FaultReportedAsCopy` as an instance).
- `get_block_cache` never returns for a block that is not cached when every buffer is held by someone
  (`BlockCaches.AllocEndsIff`, with `BlockCaches.OneHeldStuck` as an instance); a cached block is still returned.
- `Zram::remove` of a slot that is not live reports an error after it has already put the slot on the
  free list or moved the tail (`Zram.RemoveSoundIffLive`, with `Zram.RemoveDeadBreaks` as an instance).
- Path normalisation accepts a path whose raw walk fails exactly when a missing name is popped by a later
  `..` (`Paths.ForgivenIff`, with `Paths.MissingNameForgiven` as an instance).
- `read_in` with no block numbers leaves the page as it was, where the tail of any other list is zeroed
  (`PageIo.ReadIn`); `write_back` does not repeat the length check of `read_in` and writes the memory behind the
  page to disk when it is given more block numbers than the page has slots (`PageIo.WritesPageOnlyIff`).
- `rshrink_to` cuts pages off the front of an area without moving its active list along, so the list then names
  pages higher up than it meant (`Areas.SetStartListed`).
- A pid may be free while a group with that number still has members; a new process that gets it lands in the
  group (`Schedulers.Scheduler.Clone`, with `TaskStates.PidOfLiveGroup` as an instance).
- An indirect chain is recycled without rewriting the device's copy of its head; only outstanding
  descriptors are promised to agree with their shadow (`DescriptorTable.FreedTableKeeps`).

## Model

| member | source | states |
|---|---|---|
| `PagingRuns.RunRefines` | GCore/os/src/mm/map_area.rs:562-578 | over every run of user stores, kernel writes, faults, evictions, forks, mprotects, munmaps and mmaps the invariant holds; and as long as no kernel write meets a shared page, each address space reads what it would read from plain memory in which a fork copies every page and nothing is ever compressed or swapped. Which stores take effect is read off the state before them |
| `PagingRuns.StepRefines` | GCore/os/src/mm/memory_set.rs:292-423 | one event of any kind commutes with its effect on plain memory iff it is no kernel write that changes a shared page |
| `PagingRuns.NoKernelStores` | GCore/os/src/mm/map_area.rs:692-728 | a run without kernel writes always meets the condition of `RunRefines` |
| `PagingRuns.RoomyHasFree` | GCore/os/src/mm/frame_allocator.rs:91-124 | if the pool is larger than the foreign frames and the pages together, a frame is free |
| `PagingRuns.RoomyRunIsPlain` | GCore/os/src/mm/memory_set.rs:292-423 | with room for every page the run could add and stores only to writable areas, the run is the plain run: not even a failed store shows |
| `PagingRuns.NoReissue` | GCore/os/src/fs/swap.rs:60-69 | in every reachable state the frame, zram slot and swap slot the devices would issue next are named by no live tracker |
| `Paging.FaultKeeps` | GCore/os/src/mm/memory_set.rs:292-423 | every branch of the anonymous page fault keeps the invariant (mapped iff in memory, writable iff sole owner, devices account for exactly the live trackers) and the bytes of every address space |
| `Paging.FaultResolves` | GCore/os/src/mm/memory_set.rs:340-411 | the exact condition for a repair: a mapped page needs an unstripped area and either sole ownership or a free frame, any other page just a free frame |
| `Paging.FaultPanicsIff` | GCore/os/src/mm/memory_set.rs:340-411 | the handler panics iff no frame is free and it must copy a shared page or bring a page back; its `unreachable!()`, its calls of `map` and `unmap` and its reads of the two stores never panic |
| `Paging.FaultFailsIff` | GCore/os/src/mm/memory_set.rs:340-411 | which error the handler reports: no permission iff W was taken away from a mapped page, a bad address iff no frame is free for a page that was never touched, and never that a page is not mapped |
| `Paging.FaultMaps` | GCore/os/src/mm/memory_set.rs:340-411 | what a repair leaves: the page in memory and mapped to its frame with the permissions of the area, the frame it had if it was mapped and its only owner and else one nobody held; any failure changes nothing |
| `Paging.TrackersReadable` | GCore/os/src/mm/map_area.rs:108-159 | the blob or swap slot a page names can be read: `unwrap` and the indexing in `unzip` and `swap_in` do not panic |
| `Paging.FaultSole` | GCore/os/src/mm/memory_set.rs:350-390 | a page brought in by a fault is its frame's only owner |
| `Paging.InstallKeeps` | GCore/os/src/mm/map_area.rs:527-537 | mapping a fresh frame fails exactly when none is free and otherwise changes the view of that one page |
| `Paging.RegrantKeeps` | GCore/os/src/mm/map_area.rs:701-709 | giving W back to a sole owner keeps every page's bytes and the sole-owner rule |
| `Paging.EvictKeeps` | GCore/os/src/mm/map_area.rs:883-927 | compressing or swapping out a page, and every way that can fail, leaves all contents as they were |
| `Paging.EvictFreesOne` | GCore/os/src/mm/map_area.rs:123-143 | an eviction that reports success gives exactly one frame back to the allocator |
| `Paging.EvictOrder` | GCore/os/src/mm/map_area.rs:893-924 | an unshared resident page is compressed as long as a zram slot is not live, and swap is not touched then; with zram full it goes to swap as long as a slot is free there; in no other case does it leave |
| `Paging.ForceSwapKeeps` | GCore/os/src/mm/map_area.rs:92-106 | swapping out without looking at the reference count leaves all contents as they were |
| `Paging.ForceSwapFrees` | GCore/os/src/mm/map_area.rs:88-106 | a forced swap-out frees a frame exactly when the page was its only owner |
| `Paging.ForkPageKeeps` | GCore/os/src/mm/map_area.rs:562-578 | sharing one page read-only gives the child the parent's bytes and keeps the sole-owner rule |
| `Paging.ForkRangeKeeps` | GCore/os/src/mm/map_area.rs:562-578 | the same over a whole area: both sides lose W on every mapped page, all trackers are shared, nothing else changes |
| `Paging.ForkedView` | GCore/os/src/mm/memory_set.rs:725-737 | after sharing an area the child reads the parent's bytes and every other page is unchanged |
| `Paging.ProtectKeeps` | GCore/os/src/mm/memory_set.rs:1060-1070 | new flags without W never change contents and never break the sole-owner rule |
| `Paging.ReserveKeeps` | GCore/os/src/mm/map_area.rs:424-446 | a page of a new lazy area reads as zeros, byte by byte, and costs no frame |
| `Paging.UnmapOneKeeps` | GCore/os/src/mm/map_area.rs:543-559 | `unmap_one` releases the tracker of a mapped page and leaves every other page's frame, entry and bytes |
| `Paging.DiscardRangeKeeps` | GCore/os/src/mm/map_area.rs:271-280 | dropping the slots of a range removes exactly those pages and returns what only they held, whatever state they are in |
| `Paging.DiscardReleases` | GCore/os/src/mm/map_area.rs:271-280 | after a range is dropped, the frame of a page in it is out of the allocator iff a page outside the range owns it |
| `Paging.ReleaseKeeps` | GCore/os/src/mm/memory_set.rs:954-961 | unmapping and dropping a page removes exactly that page |
| `Paging.PokeKeeps` | GCore/os/src/mm/map_area.rs:692-700 | a store takes effect iff the entry is writable, and then no other address space sees it |
| `Paging.StoreCommitsIff` | GCore/os/src/mm/map_area.rs:692-728 | a store with the fault and retry it may need changes exactly its byte of its page in its own space, and does so iff the entry was writable, or the area is writable and the repair of `FaultResolves` is possible |
| `Paging.KernelWriteShared` | GCore/os/src/mm/page_table.rs:114-144 | a kernel write through `translate`, which ignores W, changes every page that shares the frame and no other |
| `Paging.KernelWritePrivateIff` | GCore/os/src/mm/page_table.rs:114-144 | a kernel write changes its own space alone iff the page was not mapped, is its frame's only owner, or holds those bytes already; an unmapped page takes it iff a frame is free |
| `Paging.LoadSeesView` | GCore/os/src/mm/memory_set.rs:341-349 | a mapped page's physical frame holds the bytes its address space must see |
| `FrameAllocator.AllocTakesOne` | GCore/os/src/mm/frame_allocator.rs:91-124 | allocation fails iff nothing is free; otherwise exactly one unheld frame becomes held |
| `FrameAllocator.UnallocatedCounts` | GCore/os/src/mm/frame_allocator.rs:76-78 | the number reported is the number of frames of the range nobody holds |
| `FrameAllocator.DeallocReturnsOne` | GCore/os/src/mm/frame_allocator.rs:126-137 | returning a held frame frees exactly that frame |
| `FrameAllocator.DeallocThenAlloc` | GCore/os/src/mm/frame_allocator.rs:91-137 | the frame returned last is handed out next, and that restores the allocator |
| `FrameAllocator.DeallocSoundIffTaken` | GCore/os/src/mm/frame_allocator.rs:126-137 | the allocator stays sound iff the frame returned was held |
| `Zram.NewIsEmpty` | GCore/os/src/mm/zram.rs:40-52 | a new store has no live slot |
| `Zram.InsertIssuesFresh` | GCore/os/src/mm/zram.rs:54-73 | insertion fails iff every slot is live; otherwise the slot issued was not live and no live slot changes |
| `Zram.RemoveFreesOne` | GCore/os/src/mm/zram.rs:86-103 | `[0, tail)` stays the disjoint union of live and recycled slots, also when the tail retreats |
| `Zram.RemoveThenInsert` | GCore/os/src/mm/zram.rs:54-103 | the slot removed last is issued next, and no other slot moves, iff the tail did not retreat or no other slot waits |
| `Zram.RemoveSoundIffLive` | GCore/os/src/mm/zram.rs:86-103 | the partition survives a removal iff the index is out of range or live |
| `Zram.RemoveDeadBreaks` | GCore/os/src/mm/zram.rs:86-103 | an instance: removing the slot of a new one-slot store breaks the partition |
| `Swap.FirstFreeIsClear` | GCore/os/src/fs/swap.rs:60-69 | the slot the word scan finds is clear and every lower slot is in use; it finds none iff every word is full |
| `Swap.SetBitExact` | GCore/os/src/fs/swap.rs:54-59 | setting or clearing a bit changes that slot's state only |
| `Swap.SlotsApart` | GCore/os/src/fs/swap.rs:70-72 | the block runs of different slots have no block in common |
| `Swap.InUseReadable` | GCore/os/src/fs/swap.rs:46-49 | the slice of block numbers of a slot in use exists and passes the contiguity assertion |
| `Swap.StoreExact` | GCore/os/src/fs/swap.rs:46-53 | writing a page as consecutive blocks and reading the blocks back gives the page, and no other slot changes |
| `Swap.WriteTakesOne` | GCore/os/src/fs/swap.rs:77-86 | a write fails iff no slot is free and otherwise takes exactly one |
| `Swap.WriteIssuesFresh` | GCore/os/src/fs/swap.rs:77-86 | a write fails iff the device is unusable or full; otherwise it issues the lowest unused slot, which reads back as the page, and every other slot keeps its page |
| `Swap.DiscardFreesOne` | GCore/os/src/fs/swap.rs:88-90 | a discard frees exactly that slot and no page changes |
| `Devices.StackFrameAllocator.constructor` | GCore/os/src/mm/frame_allocator.rs:68-74 | an empty allocator over the given frames |
| `Devices.StackFrameAllocator.UnallocatedFrames` | GCore/os/src/mm/frame_allocator.rs:76-78 | the number of frames nobody holds, as the size of that set |
| `Devices.StackFrameAllocator.Alloc` | GCore/os/src/mm/frame_allocator.rs:91-124 | hands out one frame nobody holds, unless all are held; `alloc_uninit` differs only in not clearing the page |
| `Devices.StackFrameAllocator.AllocContiguous` | GCore/os/src/mm/frame_allocator.rs:142-150 | adjacent frames nobody holds, or none iff the untouched tail is too short, however many frames were returned |
| `Devices.StackFrameAllocator.Dealloc` | GCore/os/src/mm/frame_allocator.rs:126-137 | sound afterwards iff the frame was held |
| `Devices.ZramDevice.constructor` | GCore/os/src/mm/zram.rs:40-52 | no slot is live |
| `Devices.ZramDevice.Insert` | GCore/os/src/mm/zram.rs:54-73 | NoSpace iff every slot is live, and then nothing changes |
| `Devices.ZramDevice.Get` | GCore/os/src/mm/zram.rs:75-84 | which of the two errors, or the blob |
| `Devices.ZramDevice.Remove` | GCore/os/src/mm/zram.rs:86-103 | the freed slot, and the fact that removing a slot that is not live damages the store before the error is reported |
| `Devices.ZramDevice.Read` | GCore/os/src/mm/zram.rs:105-118 | a live slot reads back what its blob decompresses to |
| `Devices.ZramDevice.Write` | GCore/os/src/mm/zram.rs:120-128 | write then read is the identity on pages, and no live slot is touched |
| `Devices.SwapDevice.constructor` | GCore/os/src/fs/swap.rs:32-45 | usable iff all blocks were granted; every slot unused |
| `Devices.SwapDevice.SetBit` | GCore/os/src/fs/swap.rs:54-59 | changes one slot's bit |
| `Devices.SwapDevice.AllocPage` | GCore/os/src/fs/swap.rs:60-69 | the loop finds the lowest clear slot, and none iff every word is full |
| `Devices.SwapDevice.Read` | GCore/os/src/fs/swap.rs:73-76 | the page stored in the slot's run of blocks; an unusable device leaves the buffer alone |
| `Devices.SwapDevice.Write` | GCore/os/src/fs/swap.rs:77-86 | write then read is the identity over the slot's run of blocks, the slot was the lowest unused one, no other slot changes |
| `Devices.SwapDevice.Discard` | GCore/os/src/fs/swap.rs:88-90 | frees exactly one slot |
| `Areas.SpliceAt` | GCore/os/src/mm/memory_set.rs:985-993 | replacing an area by disjoint pieces of it keeps the frame and attributes of every page still covered, and covers nothing new |
| `Areas.SetEndPiece` | GCore/os/src/mm/map_area.rs:271-280 | truncation keeps the lower frames in place, everything else but the end as it was, and the counters at or above the real counts |
| `Areas.SetStartPiece` | GCore/os/src/mm/map_area.rs:255-270 | rotation and truncation keep the upper frames in place, everything else but the start as it was, and the counters at or above the real counts |
| `Areas.CountUpToIs` | GCore/os/src/mm/map_area.rs:332-345 | the shortcut for zero counters returns the true counts |
| `Areas.SplitActiveIs` | GCore/os/src/mm/map_area.rs:346-366 | a page is listed after a cut iff it was before, in the part it went to and counted from its start |
| `Areas.SplitActiveConcat` | GCore/os/src/mm/map_area.rs:346-366 | both parts keep the order of the list |
| `Areas.SetStartListed` | GCore/os/src/mm/map_area.rs:255-270 | `set_start` does not move the list with the slots: once the pages that go are off it, it is right for the pages that stay iff no page goes or none of them is listed |
| `Areas.IntoTwoPieces` | GCore/os/src/mm/map_area.rs:282-316 | both halves keep their frames; neither counter subtraction underflows and neither half undercounts |
| `Areas.IntoTwoListed` | GCore/os/src/mm/map_area.rs:282-316 | the pages listed for the pressure passes are the same as before the cut |
| `Areas.IntoThreePieces` | GCore/os/src/mm/map_area.rs:317-328 | three pieces that tile the area, counters included, for two cuts in order strictly inside |
| `Spaces.RepairedCounted` | GCore/os/src/mm/memory_set.rs:366-387 | the counter of the store a page comes back from drops by exactly one, never underflows and never undercounts |
| `Spaces.EvictedCounted` | GCore/os/src/mm/map_area.rs:893-924 | the increments after an eviction keep the counters at or above the real counts |
| `Unmapping.TriagedStep` | GCore/os/src/mm/memory_set.rs:946-981 | each area the pass has seen is trimmed, doomed or to be broken apart, as the range demands |
| `Unmapping.BreakMeansNoDelete` | GCore/os/src/mm/memory_set.rs:982-988 | an area to break apart excludes any deletion, so the saved index is still valid |
| `Unmapping.DeleteLast` | GCore/os/src/mm/memory_set.rs:982-984 | deleting the doomed areas from the back keeps the remaining saved indices valid |
| `Unmapping.MunmapExact` | GCore/os/src/mm/memory_set.rs:936-1007 | when no area meets the range any more and nothing outside changed, exactly the range is gone from slots, page table and contents |
| `Types.PageCeilIs` | GCore/os/src/mm/memory_set.rs:936-945 | the end of a request is the first page boundary at or after its last byte |
| `Unmapping.MunmapBytes` | GCore/os/src/mm/memory_set.rs:936-1007 | the pages in the range are those that hold one of its bytes, and the loss of an empty request is the one strictly inside an area |
| `Protecting.MprotectStep` | GCore/os/src/mm/memory_set.rs:1032-1124 | one segment extends the protected prefix by that segment, with the X bit of its first page |
| `Protecting.MprotectCovered` | GCore/os/src/mm/memory_set.rs:1032-1044 | the pages of each segment were covered before the call, so success means the whole range was |
| `Protecting.AppliedProtects` | GCore/os/src/mm/memory_set.rs:1008-1125 | what a page has after success, in terms of the bytes of the request: the requested R, W and U, the requested X or the X its segment showed, W off in the entry and remembered as taken away; a page that holds none of the bytes keeps everything |
| `Forking.MapFromExisting` | GCore/os/src/mm/map_area.rs:562-578 | the loop revokes W from the parent's entries and copies them to the child; it fails iff the child already maps one of them |
| `Forking.EntriesStep` | GCore/os/src/mm/memory_set.rs:725-737 | sharing one more area takes W from its entries on both sides and touches no entry outside it |
| `Pressure.EvictListSettles` | GCore/os/src/mm/map_area.rs:888-925 | after an eviction pass every listed page is out of memory, or shared, or both stores are full |
| `Pressure.ForceListSettles` | GCore/os/src/mm/map_area.rs:933-953 | after a forced pass every listed page is out of memory, or swap is full |
| `Pressure.ForceListPass` | GCore/os/src/mm/map_area.rs:929-955 | a forced pass changes no content; its result is the number of pages that left memory, and equals the frames given back iff none of those pages was shared before the pass |
| `Pressure.EvictListPass` | GCore/os/src/mm/map_area.rs:883-927 | an eviction pass gives back exactly the frames it reports |
| `Pressure.ForceTakesListed` | GCore/os/src/mm/map_area.rs:933-953 | with a free swap slot per entry of the list, the pages that leave are the listed resident ones |
| `Pressure.ForceHonestIff` | GCore/os/src/mm/map_area.rs:929-955 | with room in swap, the result equals the frames given back iff no listed resident page is shared |
| `Pressure.SharedPageUncounted` | GCore/os/src/mm/map_area.rs:929-955 | two spaces sharing one listed page: the pass reports one page and gives back no frame |
| `Pressure.SharedPageWritten` | GCore/os/src/mm/page_table.rs:114-144 | two spaces sharing one page: a kernel write for one changes what the other sees |
| `Pressure.DeepPass` | GCore/os/src/mm/memory_set.rs:474-489 | the same over all areas of a space: reported pages and frames given back are the two sums, equal iff no page that left was shared |
| `Forking.SharedReadOnly` | GCore/os/src/mm/map_area.rs:562-578 | two spaces with the same trackers have no writable entry |
| `MemorySystems.MemorySystem.DoPageFault` | GCore/os/src/mm/memory_set.rs:292-423 | in a readable user area around the page the handler does what the page machine does there, whichever area of the list that is; a repaired page goes to the back of the active list by its index cut to 16 bits, and a failure changes nothing; with no such area it fails and changes nothing; no space sees a change, and it panics iff no frame is left where it unwraps an allocation |
| `MemorySystems.MemorySystem.DoOom` | GCore/os/src/mm/map_area.rs:883-927 | evicting an area's active pages changes no content; the result is the number of pages taken and of frames given back |
| `MemorySystems.MemorySystem.ForceSwapArea` | GCore/os/src/mm/map_area.rs:929-955 | the same without a look at reference counts: the result counts the pages swapped, and equals the frames given back iff none of them was shared |
| `MemorySystems.MemorySystem.ShallowClean` | GCore/os/src/mm/memory_set.rs:441-453 | one eviction pass over each area that starts in the mmap window, after which its active list is empty, and every other area as it was; the result is the exact number of frames given back |
| `MemorySystems.MemorySystem.DeepClean` | GCore/os/src/mm/memory_set.rs:474-489 | every area that starts in user space has an empty active list afterwards and every other is as it was; the result and the frames given back are the two sums over the areas, equal iff no page that left memory was shared |
| `MemorySystems.MemorySystem.UnmapRange` | GCore/os/src/mm/map_area.rs:674-688 | after the loop no page of the range is mapped, those that were are off the active list and no other index is, and nothing outside the range has changed; the result tells whether every page was mapped |
| `MemorySystems.MemorySystem.ShrinkTo` | GCore/os/src/mm/map_area.rs:747-776 | a cut above the end is refused; otherwise only pages at or above the cut are lost, the area ends at the cut, possibly empty, the mapped ones leave the active list, and Err iff one of them was not mapped |
| `MemorySystems.MemorySystem.RshrinkTo` | GCore/os/src/mm/map_area.rs:778-807 | a cut below the start is refused; otherwise only pages below the cut are lost, the area starts at the cut, possibly empty, the mapped ones leave the active list, which is not moved along, and Err iff one of them was not mapped |
| `MemorySystems.MemorySystem.MunmapArea` | GCore/os/src/mm/memory_set.rs:950-980 | which of the four cases applies, and what each leaves of the area |
| `MemorySystems.MemorySystem.MunmapPass` | GCore/os/src/mm/memory_set.rs:946-981 | every area is triaged; found iff some area overlaps by the test the code uses |
| `MemorySystems.MemorySystem.MunmapDelete` | GCore/os/src/mm/memory_set.rs:982-984 | no area meets the range any more, and nothing outside it has changed |
| `MemorySystems.MemorySystem.MunmapBreak` | GCore/os/src/mm/memory_set.rs:985-992 | the middle piece is gone, the outer two keep their frames and entries |
| `MemorySystems.MemorySystem.MunmapZero` | GCore/os/src/mm/memory_set.rs:985-1000 | the tail of the area is dropped while its page-table entries stay as they were; the frame behind such an entry is free again unless a page outside the tail owns it |
| `MemorySystems.MemorySystem.Munmap` | GCore/os/src/mm/memory_set.rs:936-1007 | removes exactly the pages that hold a byte of the request iff the request is not an empty one strictly inside an area; then exactly the tail of that area is gone, no other page of any space changes, and the entries of the tail stay as in `MunmapZero`; success iff an area touches the range by the overlap test |
| `MemorySystems.MemorySystem.NewSpace` | GCore/os/src/mm/memory_set.rs:82-87 | a new address space has no page and changes no other |
| `MemorySystems.MemorySystem.LosesSecondPage` | GCore/os/src/mm/memory_set.rs:985-1000 | the lossy `munmap` is reachable: a new space of two pages, both covered, loses the second to a request for no byte and keeps the first |
| `MemorySystems.MemorySystem.SplitSegment` | GCore/os/src/mm/memory_set.rs:1066-1114 | splitting for a segment changes no page's frame, entry or attributes |
| `MemorySystems.MemorySystem.ProtectArea` | GCore/os/src/mm/memory_set.rs:1067-1072 | the loop sets the flags of exactly the mapped pages of one area |
| `MemorySystems.MemorySystem.ProtectSegment` | GCore/os/src/mm/memory_set.rs:1047-1123 | one turn of the loop of `mprotect` |
| `MemorySystems.MemorySystem.Mprotect` | GCore/os/src/mm/memory_set.rs:1008-1125 | terminates; Ok iff every page that holds a byte of the request is covered, and then each of them has the R, W and U of the request, its X or the X its segment showed, and no W in its entry, while every other page keeps all it had; coverage, frames and contents never change; on ENOMEM the prefix before the first hole has been changed |
| `MemorySystems.MemorySystem.ForkArea` | GCore/os/src/mm/memory_set.rs:725-737 | one more area is shared copy-on-write |
| `MemorySystems.MemorySystem.Fork` | GCore/os/src/mm/memory_set.rs:715-737 | the child sees the parent's bytes in every page, and nobody else sees a change; no frame, blob, swap slot or byte is touched; the child maps exactly what the parent maps, to the same frames, with the permissions of the area but W, and the parent's entries only lose W |
| `MemorySystems.MemorySystem.UserStore` | GCore/os/src/mm/memory_set.rs:292-423 | changes one byte of one page of one space, or nothing; takes effect iff the entry was writable, or a readable and writable user area lies around the page and the repair makes it so |
| `MemorySystems.MemorySystem.InsertArea` | GCore/os/src/mm/memory_set.rs:883-934 | the new area reads as zeros, has the permissions given and nothing listed, stands behind the areas that start lower and before the others, and changes no other area and no other page |
| `DescriptorTable.TookKeeps` | GCore/dependency/virtio-drivers/src/queue.rs:209-297 | moving the first free nodes to a new chain keeps the split of all descriptors into one free list of `SIZE - num_used` nodes and disjoint chains, the links, the shadow copies and the record of shared mappings |
| `DescriptorTable.ReturnedKeeps` | GCore/dependency/virtio-drivers/src/queue.rs:418-499 | the same for a chain that goes back to the front of the free list, in any completion order |
| `DescriptorTable.FinishKeeps` | GCore/dependency/virtio-drivers/src/queue.rs:218-240 | the direct chain built by the loop satisfies the invariant once the last NEXT flag is cleared |
| `DescriptorTable.WithTableKeeps` | GCore/dependency/virtio-drivers/src/queue.rs:246-297 | the same for a chain with an indirect table |
| `DescriptorTable.RecycleTarget` | GCore/dependency/virtio-drivers/src/queue.rs:469-484 | while recycling, the next descriptor exists, is the one `add` took at that place, and is still shared at the address it holds |
| `DescriptorTable.FreedKeeps` | GCore/dependency/virtio-drivers/src/queue.rs:468-498 | a fully recycled direct chain leaves a valid queue |
| `DescriptorTable.FreedTableKeeps` | GCore/dependency/virtio-drivers/src/queue.rs:428-467 | a recycled indirect chain leaves a valid queue, though the device's copy of its head is not rewritten |
| `DescriptorTable.TookThenReturned` | GCore/dependency/virtio-drivers/src/queue.rs:155-207 | popping a chain straight after adding it restores the free list, its order and every descriptor's role |
| `DescriptorTable.DirectSeen` | GCore/dependency/virtio-drivers/src/queue.rs:364-371 | from a published head the device visits exactly the request's descriptors in order: each has the length of its buffer, the WRITE flag iff the device is to write it, and NEXT on all but the last |
| `DescriptorTable.TableSeen` | GCore/dependency/virtio-drivers/src/queue.rs:246-297 | the same through an indirect table, whose head has the INDIRECT flag and the length of the table |
| `DescriptorTable.RequestSeen` | GCore/dependency/virtio-drivers/src/queue.rs:209-297 | for a request of inputs and outputs the device reads one descriptor per buffer, inputs first and marked to be read, then outputs marked to be written, each with the length of its buffer and an address at which that buffer is shared in that direction |
| `DescriptorTable.BufsAre` | GCore/dependency/virtio-drivers/src/queue.rs:155-165 | the list of buffers `add` works through is the inputs to be read and then the outputs to be written, and no other list |
| `DescriptorTable.ChainFits` | GCore/dependency/virtio-drivers/src/queue.rs:471-493 | a chain is no longer than `num_used`, so its decrements never underflow |
| `DescriptorTable.ChainCount` | GCore/dependency/virtio-drivers/src/queue.rs:166-172 | no more chains than used descriptors, so the rings cannot overflow |
| `DescriptorTable.ChainKind` | GCore/dependency/virtio-drivers/src/queue.rs:428-428 | the INDIRECT flag of a head says whether a table was remembered for it |
| `DescriptorTable.FreshTable` | GCore/dependency/virtio-drivers/src/queue.rs:114-122 | the list `new` links holds every descriptor once |
| `RingPair.Window` | GCore/dependency/virtio-drivers/src/queue.rs:187-204 | across wrap-around `avail_idx - last_used_idx` is the number of outstanding chains, at most SIZE; the indices agree iff nothing is ready |
| `RingPair.SlotWraps` | GCore/dependency/virtio-drivers/src/queue.rs:187-187 | masking a wrapped 16-bit index and masking the unwrapped count give the same slot, for every allowed size |
| `RingPair.MaskIsRemainder` | GCore/dependency/virtio-drivers/src/queue.rs:187-187 | `&` with a power of two less one, bit by bit, is the remainder |
| `RingPair.Masked` | GCore/dependency/virtio-drivers/src/queue.rs:187-187 | the slot the driver computes with its mask is the place of the index in the ring |
| `RingPair.PublishKeeps` | GCore/dependency/virtio-drivers/src/queue.rs:187-204 | publishing a head overwrites no slot the device has yet to read |
| `RingPair.FetchKeeps` | GCore/dependency/virtio-drivers/src/queue.rs:187-204 | the device's next slot holds the oldest head it has not taken |
| `RingPair.CompleteKeeps` | GCore/dependency/virtio-drivers/src/queue.rs:521-529 | a completion, in any order, overwrites no used element the driver has yet to read |
| `RingPair.PopKeeps` | GCore/dependency/virtio-drivers/src/queue.rs:521-540 | the driver's next used slot names an outstanding chain, and consuming it keeps both windows |
| `VirtQueues.Link` | GCore/dependency/virtio-drivers/src/queue.rs:114-122 | the loop links every descriptor to its successor, in the shadow and in the device's copy |
| `VirtQueues.VirtQueue.constructor` | GCore/dependency/virtio-drivers/src/queue.rs:77-143 | an empty queue that satisfies the invariant, for every power of two that fits 16 bits |
| `VirtQueues.VirtQueue.AddDirect` | GCore/dependency/virtio-drivers/src/queue.rs:209-243 | takes the first free nodes in order, one per buffer, each shared once |
| `VirtQueues.VirtQueue.FillTable` | GCore/dependency/virtio-drivers/src/queue.rs:253-269 | one table entry per buffer in order, each shared at the address it holds |
| `VirtQueues.VirtQueue.AddIndirect` | GCore/dependency/virtio-drivers/src/queue.rs:246-297 | takes one node and a table of all buffers; the slot for the table was empty |
| `VirtQueues.VirtQueue.Enqueue` | GCore/dependency/virtio-drivers/src/queue.rs:155-186 | the chain of the buffers is built, direct or indirect, and nothing is published yet |
| `VirtQueues.VirtQueue.Add` | GCore/dependency/virtio-drivers/src/queue.rs:155-207 | InvalidParam iff no buffers; QueueFull iff full, too many, or no room without tables, and then nothing changes; else the token is a new chain, published last, from which the device reads each input in order with its length and as readable, then each output as writable, at addresses they are shared at; every earlier mapping stays |
| `VirtQueues.VirtQueue.CanPop` | GCore/dependency/virtio-drivers/src/queue.rs:375-379 | true iff a completed chain is waiting, also when the indices have wrapped |
| `VirtQueues.VirtQueue.PeekUsed` | GCore/dependency/virtio-drivers/src/queue.rs:383-392 | the oldest completed chain that is waiting |
| `VirtQueues.VirtQueue.RecycleDirect` | GCore/dependency/virtio-drivers/src/queue.rs:468-498 | the "shorter" and "longer" failures cannot happen; every buffer is unshared once, at the address it was shared at; the chain goes back in its own order |
| `VirtQueues.VirtQueue.RecycleTable` | GCore/dependency/virtio-drivers/src/queue.rs:428-467 | `indirect_lists` is never empty here, and the table length matches |
| `VirtQueues.VirtQueue.RecycleDescriptors` | GCore/dependency/virtio-drivers/src/queue.rs:418-499 | exactly the mappings of the chain go away and exactly its descriptors become free |
| `VirtQueues.VirtQueue.PopUsed` | GCore/dependency/virtio-drivers/src/queue.rs:510-553 | NotReady iff nothing waits; WrongToken iff another chain is next; both change nothing; otherwise the chain is gone, its nodes lead the free list, and the length the device reported for it is returned |
| `VirtQueues.VirtQueue.DeviceFetch` | GCore/dependency/virtio-drivers/src/queue.rs:187-204 | the device reads the heads in the order they were added |
| `VirtQueues.VirtQueue.DeviceComplete` | GCore/dependency/virtio-drivers/src/queue.rs:521-529 | any fetched chain may be completed, once, with any length; heads and lengths reach the driver in the order of completion |
| `BlockCaches.OomAtKeeps` | GCore/os/src/fs/cache.rs:107-124 | evicting or ageing one buffer changes no block's logical contents and keeps the invariant: one buffer per block, clean equals disk, free is clean and unheld |
| `BlockCaches.OomKeeps` | GCore/os/src/fs/cache.rs:107-124 | a whole pass does the same, and ages each buffer independently of the others |
| `BlockCaches.SecondChance` | GCore/os/src/fs/cache.rs:107-124 | a pass leaves a held buffer alone, takes one point from one that was used since and leaves it its block, and gives up only one without a point, which is free and clean afterwards |
| `BlockCaches.AllocEndsIff` | GCore/os/src/fs/cache.rs:126-136 | the scan-and-evict loop ever finds a free buffer iff some buffer is not held, and then after at most two passes |
| `BlockCaches.OneHeldStuck` | GCore/os/src/fs/cache.rs:126-141 | an instance: one buffer held by a reader of block 0 and a request for block 1, which no pass ever serves |
| `BlockCaches.Stuck` | GCore/os/src/fs/cache.rs:126-136 | with every buffer held, passes change nothing for ever |
| `BlockCaches.HeldThrough` | GCore/os/src/fs/cache.rs:109-111 | eviction leaves held buffers exactly as they are and attaches nothing |
| `BlockCaches.LoadedKeeps` | GCore/os/src/fs/cache.rs:171-189 | loading a block changes no logical contents |
| `BlockCaches.SharedKeeps` | GCore/os/src/fs/cache.rs:158-169 | a hit hands out the current contents of the block and changes none |
| `BlockCaches.ModifiedKeeps` | GCore/os/src/fs/cache.rs:69-80 | a modification changes the logical contents of its own block only |
| `BlockCaches.BufferCache.Modify` | GCore/os/src/fs/cache.rs:69-80 | the bytes at the offset are replaced and the buffer is dirty |
| `BlockCaches.BufferCache.Age` | GCore/os/src/fs/cache.rs:109-123 | one turn of the loop of `oom` |
| `BlockCaches.BlockCacheManager.AgeAt` | GCore/os/src/fs/cache.rs:107-124 | one turn of the pass on the shared buffers |
| `BlockCaches.BlockCacheManager.constructor` | GCore/os/src/fs/cache.rs:142-157 | every block reads as on disk |
| `BlockCaches.BlockCacheManager.Oom` | GCore/os/src/fs/cache.rs:107-125 | the loop over the shared buffers performs a whole pass |
| `BlockCaches.BlockCacheManager.AllocBufferCache` | GCore/os/src/fs/cache.rs:126-136 | terminates after at most two passes, none of them while a buffer is free, with a free buffer, contents unchanged, held buffers untouched |
| `BlockCaches.BlockCacheManager.TryGetBlockCache` | GCore/os/src/fs/cache.rs:158-169 | a hit iff the block is cached; the buffer shows the block's contents and has its point |
| `BlockCaches.BlockCacheManager.Load` | GCore/os/src/fs/cache.rs:178-187 | a free buffer takes the block from disk, shows its contents and has its point |
| `BlockCaches.BlockCacheManager.GetBlockCache` | GCore/os/src/fs/cache.rs:171-189 | the buffer returned is the one for the block, shows its contents and has the point that saves it from the next pass; no block changes; held buffers keep block and data |
| `BlockCaches.BlockCacheManager.Modify` | GCore/os/src/fs/cache.rs:69-80 | exactly one block of the logical disk changes |
| `BlockCaches.BlockCacheManager.Release` | GCore/os/src/fs/cache.rs:107-111 | dropping a handle changes no block |
| `PageIo.RunIsEach` | GCore/os/src/fs/cache.rs:350-376 | a merged request over consecutive numbers equals its blocks written one at a time |
| `PageIo.WriteEachAt` | GCore/os/src/fs/cache.rs:340-377 | a block keeps its contents unless named, else it holds the slot of its last mention |
| `PageIo.RoundTripIff` | GCore/os/src/fs/cache.rs:265-377 | reading back after writing restores the page's slots iff slots written to the same block agree |
| `PageIo.RoundTrip` | GCore/os/src/fs/cache.rs:265-377 | distinct numbers always restore the page, and no other block changes |
| `PageIo.WritesPageOnlyIff` | GCore/os/src/fs/cache.rs:340-377 | what `write_back` writes depends on the page alone, and not on the memory behind it, iff there are no more block numbers than slots |
| `PageIo.ReadIn` | GCore/os/src/fs/cache.rs:265-323 | slot i gets block i, the tail is zeroed; an empty list changes nothing at all |
| `PageIo.WriteBack` | GCore/os/src/fs/cache.rs:340-377 | the merged writes equal the sequential ones from the memory at the page on, for any list, duplicates and lists longer than the page included |
| `TaskStates.ExactlyOne` | GCore/os/src/task/manager.rs:118-200 | each task is in exactly one of ready queue, interruptible queue, running and zombie, as its status says |
| `TaskStates.DispatchedKeeps` | GCore/os/src/task/processor.rs:64-78 | dispatching keeps the invariant |
| `TaskStates.SuspendedKeeps` | GCore/os/src/task/mod.rs:39-55 | suspending keeps it |
| `TaskStates.BlockedKeeps` | GCore/os/src/task/mod.rs:57-73 | blocking keeps it |
| `TaskStates.WokenKeeps` | GCore/os/src/task/manager.rs:187-200 | waking keeps it, also while a group is on its way out |
| `TaskStates.WakeQueues` | GCore/os/src/task/manager.rs:187-200 | waking a sleeper always queues it: the pid search never finds another task, also while tasks are on their way out |
| `TaskStates.AlreadyWoken` | GCore/os/src/task/manager.rs:171-182 | waking a ready task changes nothing and reports it |
| `TaskStates.PokedKeepsIff` | GCore/os/src/task/mod.rs:84-90 | a wake keeps every task in its place iff it does not meet a sleeper that is on its way out |
| `TaskStates.ExitedLoose` | GCore/os/src/task/mod.rs:75-134 | an exit changes no other task's state except sleeper to ready, and the queues only move forward |
| `TaskStates.ExitedKeepsIff` | GCore/os/src/task/mod.rs:75-134 | the exit of one member of a leaving group keeps every task in its place iff it wakes no member that is still to leave |
| `TaskStates.ExitQueues` | GCore/os/src/task/mod.rs:75-134 | an exit queues nobody but the signalled parent, the first process and the joiner |
| `TaskStates.ExitedAt` | GCore/os/src/task/mod.rs:75-134 | an exit as any other task sees it: its parent, its state and its place in the ready queue |
| `TaskStates.ExitedInit` | GCore/os/src/task/mod.rs:75-134 | an exit as the first process sees it: it takes the children over from the last to the first behind its own, and becomes ready iff it slept and there are children, it is the parent to be signalled, or it is the task the `clear_child_tid` wake finds |
| `TaskStates.ExitNoticed` | GCore/os/src/task/mod.rs:75-134 | a parent that is to be signalled is not asleep afterwards, nor is the first process when it inherits, nor the task the `clear_child_tid` wake finds; every child belongs to the first process |
| `TaskStates.SweptKeeps` | GCore/os/src/task/mod.rs:166-190 | sweeping takes exactly the queued members of the group off both queues |
| `TaskStates.GroupGone` | GCore/os/src/task/mod.rs:158-195 | every member of the group ends as a zombie |
| `TaskStates.GroupEnds` | GCore/os/src/task/mod.rs:158-195 | exactly the tasks with the group's number are zombies afterwards; pid and group of every task stay, and any other task keeps its state or goes from sleeping to ready |
| `TaskStates.ExitedAllCalm` | GCore/os/src/task/mod.rs:193-195 | after the exits of a list exactly its members have become zombies and the others kept their order |
| `TaskStates.ExitedAllIff` | GCore/os/src/task/mod.rs:193-195 | after the exits of a list every task is in its place iff no member's exit wakes a later member that sleeps; otherwise a member is a zombie and in the ready queue |
| `TaskStates.ExitedAllQueued` | GCore/os/src/task/mod.rs:193-195 | after the exits of a list all members are zombies, and those in the ready queue are exactly the ones that slept when a member before them, whose exit wakes them, left |
| `TaskStates.JoinedGroupBreaks` | GCore/os/src/task/mod.rs:158-195 | a thread group in which a sleeper waits for a member ahead of it: after the group exit the sleeper is a zombie and in the ready queue |
| `TaskStates.SweptForward` | GCore/os/src/task/mod.rs:166-190 | over the whole group exit the others keep their order |
| `TaskStates.ClonedKeeps` | GCore/os/src/task/task.rs:529-662 | a new task or thread with an unused pid keeps the invariant: one pid, one place, listed by its parent |
| `TaskStates.PidOfLiveGroup` | GCore/os/src/task/task.rs:529-662 | an instance: the first task of a group is gone, its pid is given to a new process, and the process lands in the group |
| `TaskStates.ReapedKeeps` | GCore/os/src/syscall/process.rs:731-741 | dropping a zombie child keeps the invariant |
| `TaskStates.PickedFacts` | GCore/os/src/syscall/process.rs:706-757 | one `wait4` collects only zombies with the pid asked for, if one was, none but the last with its pid equal to its group, and all of them if it reports nothing |
| `TaskStates.PickedNext` | GCore/os/src/syscall/process.rs:731-757 | collecting the first zombie leaves the rest of the choice as it was |
| `TaskStates.CollectedFacts` | GCore/os/src/syscall/process.rs:706-757 | a reported child was a zombie with the pid asked for and pid equal to its group, and is gone; without a report no zombie that was asked for is left |
| `Schedulers.Scheduler.constructor` | GCore/os/src/task/mod.rs:209-211 | only the first process, ready |
| `Schedulers.Scheduler.Dispatch` | GCore/os/src/task/processor.rs:64-78 | the front of the ready queue runs |
| `Schedulers.Scheduler.Suspend` | GCore/os/src/task/mod.rs:39-55 | the running task goes to the back of the ready queue |
| `Schedulers.Scheduler.Block` | GCore/os/src/task/mod.rs:57-73 | the running task goes to the back of the interruptible queue |
| `Schedulers.Scheduler.DropInterruptible` | GCore/os/src/task/manager.rs:142-146 | removes every occurrence of one task and keeps the others' order |
| `Schedulers.Scheduler.FindByPid` | GCore/os/src/task/manager.rs:148-154 | some queued task with that pid iff there is one |
| `Schedulers.Scheduler.TryWakeInterruptible` | GCore/os/src/task/manager.rs:187-200 | the queues and the result for any task, sleeping or not |
| `Schedulers.Scheduler.Rouse` | GCore/os/src/task/mod.rs:84-90 | a sleeper is made ready and queued once, anything else is left alone, also while tasks are on their way out |
| `Schedulers.Scheduler.Bury` | GCore/os/src/task/mod.rs:75-111 | the parent is signalled and woken, the task is a zombie, its children belong to the first process |
| `Schedulers.Scheduler.Wake` | GCore/os/src/task/manager.rs:408-425 | under the callers' status check, a sleeper is moved once and anything else is left alone |
| `Schedulers.Scheduler.MoveChildren` | GCore/os/src/task/mod.rs:106-111 | all children go to the first process, in reverse order |
| `Schedulers.Scheduler.DoExit` | GCore/os/src/task/mod.rs:75-134 | the whole new state of an exit with the wake on `clear_child_tid`, which `ExitedLoose`, `ExitedKeepsIff` and `ExitNoticed` are about |
| `Schedulers.Scheduler.ExitCurrent` | GCore/os/src/task/mod.rs:148-156 | the running task ends as a zombie and every task is in its place |
| `Schedulers.Scheduler.SweepQueue` | GCore/os/src/task/mod.rs:167-178 | one rotation takes the group out in order and leaves the others in their old order |
| `Schedulers.Scheduler.Sweep` | GCore/os/src/task/mod.rs:166-191 | exactly the queued members of the group come off both queues, listed in the order met |
| `Schedulers.Scheduler.ExitAll` | GCore/os/src/task/mod.rs:193-195 | the exits of the swept members, one after the other |
| `Schedulers.Scheduler.ExitGroup` | GCore/os/src/task/mod.rs:158-200 | exactly the tasks with the group's number end as zombies, the others keep their order and sleepers that were woken come last; the scheduler is sound afterwards iff no exit wakes a sleeping member that is still to leave, and otherwise a member is a zombie in the ready queue |
| `Schedulers.Scheduler.Clone` | GCore/os/src/task/task.rs:529-662 | the new task has the pid given, the group of its maker if it is a thread and else its own number, no children, and is ready at the back of the queue; its parent, the maker or for a thread or CLONE_PARENT the maker's parent, lists it last; no other task changes; it joins the maker's group iff it is a thread or has the group's number |
| `Schedulers.Scheduler.Reap` | GCore/os/src/syscall/process.rs:731-741 | drops the first zombie child that was asked for, and finds none iff there is none |
| `Schedulers.Scheduler.AnyWanted` | GCore/os/src/syscall/process.rs:711-719 | some child was asked for |
| `Schedulers.Scheduler.Collect` | GCore/os/src/syscall/process.rs:706-757 | the loop collects zombie threads until the first zombie main task |
| `Schedulers.Scheduler.Wait4` | GCore/os/src/syscall/process.rs:701-767 | up to the switch: a report names a zombie child with the pid asked for and pid equal to its group, which is gone; zombie threads before it are collected; without a report no zombie child that was asked for is left, ECHILD iff no child that was asked for is left at all, else the call returns at once or blocks |
| `WaitQueues.SleepersAre` | GCore/os/src/task/manager.rs:392-436 | which waiters count: the distinct live sleepers of the queue |
| `WaitQueues.WakeAtMost` | GCore/os/src/task/manager.rs:392-436 | wakes the first min(limit, number of distinct live sleepers) of them in order, returns that number, and leaves the suffix after the last one woken, or nothing |
| `Timers.TimeOrder` | GCore/os/src/timer.rs:67-104 | on normalised times the field-wise order is the order of nanoseconds and addition adds them |
| `Timers.TopExists` | GCore/os/src/task/manager.rs:448-467 | under the reversed order a non-empty heap has a top, an earliest timer |
| `Timers.DueOnce` | GCore/os/src/task/manager.rs:488-533 | a task woken by its timer is ready and in the ready queue exactly once |
| `Timers.TimeoutWaitQueue.Pop` | GCore/os/src/task/manager.rs:488-493 | removes an earliest timer |
| `Timers.TimeoutWaitQueue.WakeExpired` | GCore/os/src/task/manager.rs:488-533 | exactly the timers later than now stay; every sleeper with a due timer becomes ready, no other task changes |
| `Futexes.RequeueMoves` | GCore/os/src/task/threads.rs:178-200 | between different addresses the next waiters are appended in order |
| `Futexes.RequeueConservesIff` | GCore/os/src/task/threads.rs:178-200 | no waiter is lost or doubled iff not (same address and fewer moved than waiting) |
| `Futexes.RequeueOntoItselfLoses` | GCore/os/src/task/threads.rs:194-199 | a concrete requeue onto the same address that drops a waiter |
| `Futexes.Transfer` | GCore/os/src/task/threads.rs:185-193 | moves min(n, length) waiters from the front of one queue to the back of the other |
| `Futexes.Futex.Wait` | GCore/os/src/task/threads.rs:81-131 | EAGAIN iff the word changed; otherwise the caller is last in its queue, asleep, and its timer is set |
| `Futexes.Futex.Wake` | GCore/os/src/task/threads.rs:157-167 | wakes at one address as `wake_at_most` does, leaves all other addresses, keeps no empty queue |
| `Futexes.WokeOne` | GCore/os/src/task/mod.rs:127-131 | waking at most one waiter wakes the first sleeper of the queue and leaves the queue behind it |
| `Futexes.Futex.DoExit` | GCore/os/src/task/mod.rs:75-134 | exit with the wake on `clear_child_tid`, on scheduler and futex queues together, also while tasks are on their way out |
| `Futexes.LeftStep` | GCore/os/src/task/mod.rs:193-195 | the joiners of a list of exits, each found when its turn comes, give the exits of the scheduler model |
| `Futexes.Futex.ExitAll` | GCore/os/src/task/mod.rs:193-195 | the exits of a list with their wakes are those of the scheduler model for the joiners found in the futex queues |
| `Futexes.Futex.ExitCurrent` | GCore/os/src/task/mod.rs:148-156 | the running task exits, the first sleeper at its `clear_child_tid` is woken, and every task is in its place |
| `Futexes.Futex.ExitGroup` | GCore/os/src/task/mod.rs:158-200 | a group exit with its futexes: which member wakes which is computed from the scheduler and the queues before the call, and the scheduler is sound afterwards iff no member wakes a sleeping one that is still to leave |
| `Futexes.NoneWaits` | GCore/os/src/task/mod.rs:158-200 | sound if no sleeping member is queued at the address of, or waited for as the parent by, a member that leaves before it |
| `Futexes.Futex.Move` | GCore/os/src/task/threads.rs:178-200 | the second half of `requeue` |
| `Futexes.Futex.Requeue` | GCore/os/src/task/threads.rs:170-204 | woken plus moved is returned, for all addresses, equal ones included |
| `Futexes.Futex.WakeOp` | GCore/os/src/task/threads.rs:211-228 | how the one argument limits both wakes |
| `UserBuffers.TranslatedByteBuffer` | GCore/os/src/mm/page_table.rs:114-144 | fails iff a page of the range is neither mapped nor repaired; else the slices are the bytes of the range in order, each in the frame the page table has or, only if it has none, the one the fault handler brings |
| `UserBuffers.PokeAllConcat` | GCore/os/src/mm/page_table.rs:283-314 | writing two stretches in turn is writing their concatenation |
| `UserBuffers.FlatWrite` | GCore/os/src/mm/page_table.rs:283-314 | where no two slices overlap, writing a stretch is slice update on the flat view |
| `UserBuffers.CopyIsPokes` | GCore/os/src/mm/page_table.rs:308-309 | copying into part of a frame is writing its bytes one by one |
| `UserBuffers.UserBuffer.constructor` | GCore/os/src/mm/page_table.rs:208-213 | `len` is the length of the flat view |
| `UserBuffers.UserBuffer.Read` | GCore/os/src/mm/page_table.rs:219-233 | the common prefix of buffer and destination is copied, the rest of the destination kept |
| `UserBuffers.UserBuffer.Write` | GCore/os/src/mm/page_table.rs:235-249 | the common prefix is written as if byte by byte to the flat view |
| `UserBuffers.UserBuffer.ReadAt` | GCore/os/src/mm/page_table.rs:251-282 | reads the stretch at the offset; nothing at or past the end |
| `UserBuffers.UserBuffer.WriteAt` | GCore/os/src/mm/page_table.rs:283-314 | writes the stretch at the offset; nothing at or past the end |
| `ProcessVm.TotalLen` | GCore/os/src/syscall/process.rs:1388-1390 | the sum of the lengths |
| `ProcessVm.Gather` | GCore/os/src/syscall/process.rs:1408-1426 | what the source list reaches before a missing page, then zeros |
| `ProcessVm.Scatter` | GCore/os/src/syscall/process.rs:1428-1440 | the kernel buffer goes to what the target list reaches |
| `ProcessVm.ProcessVmCopy` | GCore/os/src/syscall/process.rs:1394-1441 | the effect and the result in every case, faults included |
| `ProcessVm.SpreadFullIff` | GCore/os/src/syscall/process.rs:1408-1426 | a list reaches all bytes asked for iff none of their pages is missing |
| `ProcessVm.SpreadIsPrefix` | GCore/os/src/syscall/process.rs:1408-1426 | without a missing page the bytes reached are a prefix of the whole list |
| `ProcessVm.SpreadReaches` | GCore/os/src/syscall/process.rs:1408-1427 | the number of bytes a list reaches is the capped sum of its leading entries whose pages can be had |
| `ProcessVm.CopyIsFlat` | GCore/os/src/syscall/process.rs:1394-1441 | without faults and with distinct target bytes, the copy is a flat copy of min(total source, total target) bytes, also when source and target overlap |
| `ProcessVm.ReportIsHonestIff` | GCore/os/src/syscall/process.rs:1394-1441 | the count reported is what the target list reaches; all those bytes came from the source iff the target list reaches no further than the source list; with distinct target bytes the rest is zeros |
| `ProcessVm.FullReportHonestIff` | GCore/os/src/syscall/process.rs:1394-1441 | if no target page is missing, that is iff no source page is |
| `ProcessVm.PartialReportHonest` | GCore/os/src/syscall/process.rs:1394-1441 | a missing source page with an honest report: the target list stops at the same place |
| `ProcessVm.FaultReportedAsCopy` | GCore/os/src/syscall/process.rs:1423-1435 | a missing source page with the full count reported and the target zeroed |
| `RemoteCopies.TranslateAllKeeps` | GCore/os/src/mm/page_table.rs:114-144 | translating a buffer changes no byte of any space, and on success every page has a frame to write to |
| `RemoteCopies.TranslatesIff` | GCore/os/src/mm/page_table.rs:114-144 | a page can be had iff the target maps it, or the running task has a readable user area there and its own page can be repaired |
| `RemoteCopies.TranslateAllSeparates` | GCore/os/src/mm/page_table.rs:114-144 | the pages a translation faults in are alone on their frames, and no other page has moved |
| `RemoteCopies.PieceUnseenIff` | GCore/os/src/mm/page_table.rs:235-249 | a piece written through a translated frame is unseen by other spaces iff the frame is the target's alone or holds those bytes already |
| `RemoteCopies.PiecesUnseenIff` | GCore/os/src/mm/page_table.rs:235-249 | the same over a list, at every moment, judged by the state after translation |
| `RemoteCopies.EntryUnseenIff` | GCore/os/src/syscall/process.rs:1429-1440 | one entry of the target list is unseen by other spaces at every moment iff each page is mapped by the target and shared with no other space beyond what the translation separates, or is the running task's own, or holds those bytes already; all judged before the call |
| `RemoteCopies.DeliverKeeps` | GCore/os/src/syscall/process.rs:1429-1440 | delivering an entry keeps every resource accounted for; a failed one changes no byte |
| `RemoteCopies.OwnDeliverUnseen` | GCore/os/src/syscall/process.rs:1429-1440 | a task that shares no mapped page writes to its own space unseen |
| `RemoteCopies.OwnScatterUnseen` | GCore/os/src/syscall/process.rs:1427-1441 | the same for a whole list of entries |
| `RemoteCopies.OwnDeliverIsFlat` | GCore/os/src/syscall/process.rs:1429-1440 | an entry for the running task's own space, none of whose mapped pages in range is shared, is one flat write and changes no other byte of any space |
| `RemoteCopies.ReportedIsWritten` | GCore/os/src/syscall/process.rs:1427-1441 | a copy into the running task's own space, none of whose mapped pages is shared, leaves in every space what plain memory would hold after exactly the reported bytes were written entry by entry |
| `RemoteCopies.MappedReportsAll` | GCore/os/src/syscall/process.rs:1427-1441 | if the target maps every page of its list, the number reported is the smaller of the list's and the buffer's length |
| `RemoteCopies.RemoteWriteLandsHere` | GCore/os/src/mm/memory_set.rs:1344-1362 | a write to a page the target has reserved and not touched changes the running task's page at that address instead |
| `Paths.NormalKeepsWalk` | GCore/os/src/fs/directory_tree.rs:188-206 | if the raw walk succeeds, the normalised path leads to the same node |
| `Paths.NormalShape` | GCore/os/src/fs/directory_tree.rs:188-206 | the result is `..`s followed by names |
| `Paths.NormalTwice` | GCore/os/src/fs/directory_tree.rs:188-206 | a normalised path is left as it is |
| `Paths.RawComponent` | GCore/os/src/fs/directory_tree.rs:255-281 | one more component of a raw walk: an empty one and `.` stay, `..` goes to the father or stays at the root, any other is looked up below the node |
| `Paths.WalkComponent` | GCore/os/src/fs/directory_tree.rs:255-281 | the same for a normal path |
| `Paths.NormalSkips` | GCore/os/src/fs/directory_tree.rs:188-206 | `.` and empty components may be left out anywhere |
| `Paths.NormalCancels` | GCore/os/src/fs/directory_tree.rs:188-206 | a name followed by `..` may be left out anywhere |
| `Paths.CdOne` | GCore/os/src/fs/directory_tree.rs:284-292 | what a path of one component leads to: the node itself, its father, its child or an error |
| `Paths.RawWalksIff` | GCore/os/src/fs/directory_tree.rs:188-206 | the raw walk leads somewhere iff the normal form of every prefix does |
| `Paths.ForgivenIff` | GCore/os/src/fs/directory_tree.rs:188-206 | a path whose normal form leads somewhere fails in the raw walk iff it has a name that is missing at its own place and is popped by a later `..` |
| `Paths.MissingNameForgiven` | GCore/os/src/fs/directory_tree.rs:193-199 | an instance: a missing name before `..` |
| `Paths.SplitJoin` | GCore/os/src/fs/directory_tree.rs:165-165 | splitting undoes joining |
| `Paths.NamesLead` | GCore/os/src/fs/directory_tree.rs:145-167 | walking the names from the root arrives at the node |
| `Paths.CwdLeadsBack` | GCore/os/src/fs/directory_tree.rs:145-167 | `cd_path(get_cwd(n))` is n, from anywhere, in trees whose node names equal their child keys |
| `Paths.ParseDirPath` | GCore/os/src/fs/directory_tree.rs:188-206 | the fold over the components, whose result holds neither empty components nor `.`, and `..` only in front |
| `Paths.DirectoryTree.constructor` | GCore/os/src/fs/directory_tree.rs:113-134 | nothing is cached yet |
| `Paths.DirectoryTree.CacheAllSubfile` | GCore/os/src/fs/directory_tree.rs:209-236 | fails iff the node is no directory; what is cached is what the file system lists |
| `Paths.DirectoryTree.TryToOpenSubfile` | GCore/os/src/fs/directory_tree.rs:239-252 | ENOTDIR if the node lists nothing, ENOENT if it does not list the name, else the child listed |
| `Paths.DirectoryTree.CdComp` | GCore/os/src/fs/directory_tree.rs:255-281 | the lazily caching walk finds what the walk of the whole tree finds |
| `Paths.DirectoryTree.CdPathFrom` | GCore/os/src/fs/directory_tree.rs:284-292 | absolute paths start at the root, others at the node; wherever the walk of the components one by one leads, the result is that node |
| `Paths.DirectoryTree.GetCwd` | GCore/os/src/fs/directory_tree.rs:145-167 | the names from the root joined by slashes, or a single slash for the root |

## Left out

- Schedulers.Scheduler.ExitGroup: excludes the group of the first process, whose exit waits for its own lock as soon as it has a child.
- Schedulers.Scheduler.DoExit: which sleeper the wake on `clear_child_tid` finds is a parameter, computed from the futex queues in `Futexes.Futex.DoExit` and `Futexes.Futex.ExitGroup`; signals, exit codes and the release of user memory are left out.
- Schedulers.Scheduler.Wait4: ends at the switch to another task, after which the caller starts over; the exit status and the check that nobody else holds the child are left out.
- BlockCaches.BlockCacheManager.Modify: the closure is the bytes it leaves at its offset.
- UserBuffers.TranslatedByteBuffer: a page fault is a map from page to frame; `RemoteCopies` has the handler and the space it repairs, on values. Overflow of the address is left out.
- Futexes.Futex.Wait: ends at the switch to another task; the pending-signal test after waking is left out.
- Paths.DirectoryTree.CacheAllSubfile: an I/O error while a directory is listed is left out, so ENOTDIR is the only failure.
- Timers.TimeoutWaitQueue.Pop: the binary heap is a multiset whose top is any earliest timer; the array layout of the heap is not modelled.
- DescriptorTable.FinishKeeps: buffers are identities with lengths; the bytes a platform may copy on share and unshare are not modelled.
- Areas, queues, rings, pools of slots and frames are sequence- or map-valued fields that methods reassign; only user buffers, pages and disks in page I/O are arrays. In-place element update and aliasing inside those fields are not captured.
- Each locked section is one step on one hart. The memory-pressure handler runs between operations, not inside an allocation.
- File-backed and identity-mapped areas, their unsplittable fallbacks in `munmap` and `mprotect`, `mmap` placement, `sbrk`, `recycle_data_pages`, ELF loading, and the decoding of the protection bits.
- The trap-context area, which fork copies eagerly, the trampolines, the hardware page tables and TLB flushes.
- The inside of the compressor, of the file system and of the block devices: only the round trip and the storage contract are used. The blocks of a swap page are consecutive, as the code asserts.
- The u64 words of the swap bitmap are 64 booleans, and `&` on ring indices is defined bit by bit on naturals; addresses, lengths and counters are unbounded except ring indices, zram indices and the stored active indices.
- The transport checks in `VirtQueue::new`, `add_notify_wait_pop`, `set_dev_notify`, `should_notify`, `available_desc` and the memory layout of the queue.
- `PageCacheManager`, the dirty-bit test of `sync`, `rename`, the path cache, `open`, `mkdir` and `delete`.
- The active-task tracker and `do_oom` over all tasks, which only choose whose memory to clean.
- `FdTable`, sockets, poll, system-call dispatch and error numbers: plumbing that would only add easy members.
