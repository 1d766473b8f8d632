# Verified model of the kernel's stateful cores

This project models the parts of the kernel that keep long-lived state, and proves what they keep.

- **Physical memory** (`kernel/src/kernel.cpp`): the bitmap allocator and everything stacked on it: copy-on-write
  pages, shared segments, slab caches, huge pages, swap slots, the page cache and memory mappings.
- **Scheduling and synchronisation** (`kernel/src/scheduler.cpp`): priority dispatch, sleep, signals, mutexes with
  hand-off, futexes, event and timer descriptors.
- **Windows and drawing** (`kernel/src/gui.cpp`): the window list and its focus, the line drawer, clipped redraw, and
  the cursor's save and restore.
- **The Internet checksum** (`kernel/src/network.cpp`).

## How it is built

Each component has a specification on values (`Frames`, `CopyOnWrite`, `SharedMemory`, `Slab`, `Swap`, `CachedPages`,
`Mappings`, `Threads`, `Events`, `Windows`, `Line`, `Shapes`) and, where the program updates state in place, a class
with the program's arrays and loops (`PhysicalMemory`, `CopyOnWriteManager`, `SharedMemoryManager`, `SlabAllocator`,
`SwapManager`, `PageCache`, `MemoryMappings`, `HugePages`, `Scheduler`, `EventTable`, `WindowManager`, `Display`). Every
method of a class is proved to make exactly the transition of its specification function; the theorems are about those
functions and the runs made of them.

`Memory` fixes what the managers see of memory: the set of free pages and the bytes of every page. Its predicate
`Moves` says what one owner's call may do: pages go only between that owner and the free set, and no page changes that
was neither free nor the owner's. Every manager's calls are proved to satisfy it, and `Ownership` and `MemorySystem` put
the managers together: seven owners, all calls interleaved in any order. `PrivateCopies`,
`SegmentHolders`, `MappingRuns`, `Faults` and `SlabObjects` are about what holders of pages see over such runs.

For the scheduler, `SchedulerSafety` has the invariant of all calls, and `Dispatching`, `Sleeping`, `MutexSafety`,
`LockOutcomes`, `Futexes`, `FutexOrder`, `ThreadRecords`, `Lifecycles`, `Endings` and `Creations` prove what each
mechanism is for over runs; `FailingRuns` holds the runs from start-up in which the program breaks such a promise.
`EventLifetimes` follows each event object from its creation, and `WindowEffects` the windows through every call.

## Where the code and its intent part

- Pressing the body of a window that is not on top starts a drag of it (`Windows.BodyPressStartsDrag`), and pressing the
  topmost window where it covers another's title bar starts a drag of the covered one (`Windows.CoveredPressStartsDrag`).
  `Windows.MouseDownArmsIntendedDrag` gives the exact condition under which a press arms the drag one expects.
- A futex wait by a thread whose `waiting_mutex_id` is stale leaves a thread blocked on a mutex that nobody may hold:
  `FailingRuns.StaleWaitLosesWakeup` is such a run from start-up, and `MutexSafety.FutexWaitExact` gives the exact
  condition for a wait to be harmless.
- A lock call can return false although the mutex exists: at once if no other thread can run, or because a signal or an
  old futex queue entry ended its wait (`FailingRuns.InterruptedLockFails`). `LockOutcomes.WaitingLockReturns` says exactly
  when.
- A futex queue is first come, first served only among threads without old entries: a signal takes a thread out of its wait
  but not out of the queue, and by that entry it can overtake (`FailingRuns.OldEntryOvertakes`,
  `FutexOrder.OvertakesExactly`).
- A sleep with no other thread to run returns at once (`FailingRuns.LoneSleeperGoesOn`); `Sleeping.SleepReturnsAtOnce` says
  exactly when, and `Sleeping.SleepLasts` that any other sleep lasts as long as asked.
- A yield with nothing else to run returns to its caller even if the caller is blocked or ready; so the invariant is "at
  most one thread is running, and it is the current one". `Dispatching.YieldReturnsToCaller` says exactly when.
- A thread that terminates its own process has its slot emptied under it while it keeps the processor
  (`Lifecycles.TerminateExact`). No live thread is without an active process at that point, but the thread comes back to
  life in its slot at its next sleep, belonging to no process (`FailingRuns.OwnEndLeavesHomelessThread`,
  `Lifecycles.EmptyCallerComesBack`).
- A slab free of anything but a live object of that cache corrupts its list (`SlabSafety.FreeIsSafeExactly`); a double
  free does, from start-up on (`SlabSafety.DoubleFreeAfterStart`).
- The page cache's 16-bit count forgets all holders at its 65536th reference (`CachedPages.AcquireCountsExactly`,
  `CachedPages.WrappedCountEvicts`); with mappings as the only users it never gets past 16
  (`MappingRuns.ReferencesNeverWrap`).
- Ranges whose 64-bit end wraps around are misread; `Frames.ProvidesExactly`, `Frames.ReservesExactly` and
  `Frames.SpanIsRunExactly` say for exactly which descriptors, reservations and runs the marking is right.
- An eager file mapping that fails restores every reference count but keeps the pages it read in the cache, unreferenced;
  a private one restores the free set as well (`MappingCalls.MapKeeps`).

## Model

| member | source | states |
|---|---|---|
| Bytes.PowerOfTwoTest | kernel/src/kernel.cpp:451-453 | the test `a & (a - 1)` is zero exactly for powers of two |
| Bytes.MaskIsRemainder | kernel/src/kernel.cpp:461-463 | masking with `a - 1` is the remainder by `a` for every power of two |
| Frames.FirstFit | kernel/src/kernel.cpp:446-478 | the lowest aligned start whose whole run is free, and no lower start qualifies |
| Frames.TooFewFreePages | kernel/src/kernel.cpp:447-449 | giving up when more pages are asked for than are free never rejects a satisfiable request |
| Frames.BrokenRunHasNoCandidate | kernel/src/kernel.cpp:458-475 | restarting the scan after a used page misses no candidate |
| Frames.ProvidesExactly | kernel/src/kernel.cpp:407-423 | a conventional descriptor provides exactly the managed pages it covers entirely, and any other provides none, if and only if it fits: a condition on whether its rounded start and its end stay within 64 bits or miss managed memory |
| Frames.ReservesExactly | kernel/src/kernel.cpp:549-557 | a reservation takes out exactly the managed pages it touches if and only if it fits, in the same sense |
| Frames.SpanIsRunExactly | kernel/src/kernel.cpp:538-542 | marking `count` pages from `start` reaches exactly the managed pages of that run if and only if the 64-bit end does not wrap, or the start lies beyond managed memory |
| Frames.TotalCountsPages | kernel/src/kernel.cpp:407-424 | the reported total counts each managed page of a descriptor, of whatever kind, once if no two descriptors share one |
| PhysicalMemory.OneBit | kernel/src/kernel.cpp:515-523 | setting or clearing one bit of a byte leaves the other seven alone |
| PhysicalMemory.PhysicalMemoryManager.WriteBit | kernel/src/kernel.cpp:515-523 | exactly the page's bit of the map changes |
| PhysicalMemory.PhysicalMemoryManager.Recount | kernel/src/kernel.cpp:525-535 | both counters move together and their underflow guards never bite |
| PhysicalMemory.PhysicalMemoryManager.SetPage | kernel/src/kernel.cpp:517-536 | the abstract free set gains or loses exactly the page, and the counters stay the numbers of clear and set bits |
| PhysicalMemory.PhysicalMemoryManager.MarkPages | kernel/src/kernel.cpp:538-542 | exactly the managed pages between the start and the 64-bit end change |
| PhysicalMemory.PhysicalMemoryManager.MarkRange | kernel/src/kernel.cpp:544-547 | the same, from an address |
| PhysicalMemory.PhysicalMemoryManager.AllocateAligned | kernel/src/kernel.cpp:446-478 | the scan takes exactly the first fit, and returns 0 changing nothing if there is none or the request is malformed |
| PhysicalMemory.PhysicalMemoryManager.AllocateContiguous | kernel/src/kernel.cpp:442-444 | first fit without alignment |
| PhysicalMemory.PhysicalMemoryManager.AllocatePage | kernel/src/kernel.cpp:438-440 | the lowest free page, or 0 |
| PhysicalMemory.PhysicalMemoryManager.FreePage | kernel/src/kernel.cpp:480-482 | the page of the address becomes free, whether it was or not |
| PhysicalMemory.PhysicalMemoryManager.FreeContiguous | kernel/src/kernel.cpp:484-488 | exactly the managed pages of the run become free, its end computed in 64 bits; an unaligned address frees nothing |
| PhysicalMemory.PhysicalMemoryManager.ReserveRange | kernel/src/kernel.cpp:549-557 | exactly the pages the range takes out stop being free |
| PhysicalMemory.PhysicalMemoryManager.AddDescriptors | kernel/src/kernel.cpp:407-424 | after all descriptors a page is free exactly if one of them provides it, in any order or overlap |
| PhysicalMemory.PhysicalMemoryManager.ReserveRanges | kernel/src/kernel.cpp:426-433 | after all reservations no page that one of them takes is free, and no other page is affected |
| PhysicalMemory.PhysicalMemoryManager.Init | kernel/src/kernel.cpp:392-436 | a page is free exactly if some conventional descriptor provides it and no reservation takes it; page 0 never is; success exactly if some page is free |
| Memory.TakeIsExact | kernel/src/kernel.cpp:438-478 | taking a page fails exactly when none is free, and otherwise yields a page other than page 0 that was free |
| Memory.MovesTrans | kernel/src/kernel.cpp:438-488 | calls of one owner compose: pages still move only between it and the free set |
| Memory.TakePagesMoves | kernel/src/kernel.cpp:798-823 | pages taken one after another are distinct and were free, and fewer than asked for means none is left |
| Memory.TakenCount | kernel/src/kernel.cpp:798-823 | as many pages are taken as asked for, or as there are |
| Memory.Ram.ClearPage | kernel/src/kernel.cpp:763-768 | the loop zeroes exactly one page |
| Memory.Ram.CopyPage | kernel/src/kernel.cpp:770-776 | the loop copies exactly one page, also onto itself |
| CopyOnWrite.AllocateMoves | kernel/src/kernel.cpp:644-660 | a new shared page is fresh and has a slot of its own; it is had exactly if a page and a slot are free, and failure changes nothing |
| CopyOnWrite.CloneKeeps | kernel/src/kernel.cpp:662-670 | cloning changes only a count, which never wraps |
| CopyOnWrite.ResolveWriteMoves | kernel/src/kernel.cpp:672-698 | resolving a write keeps the table consistent and takes at most one page; failure changes nothing |
| CopyOnWrite.ReleaseMoves | kernel/src/kernel.cpp:700-712 | releasing frees the page only with its last reference |
| PrivateCopies.StepRefines | kernel/src/kernel.cpp:644-712 | every successful call changes what handles show exactly as it would with private pages; a failed one changes nothing; counts equal numbers of handles |
| PrivateCopies.RunRefines | kernel/src/kernel.cpp:644-712 | over every run, other owners' calls interleaved, copy-on-write is indistinguishable from private copies |
| PrivateCopies.WriteOutcome | kernel/src/kernel.cpp:672-698 | a write succeeds exactly if its page is unshared or a slot and a page for the copy exist |
| PrivateCopies.NewSucceedsExactly | kernel/src/kernel.cpp:644-660 | a new page is had exactly if a page and a slot are free |
| PrivateCopies.CopySucceedsExactly | kernel/src/kernel.cpp:662-670 | a page is cloned exactly if fewer than 65535 handles are on it |
| PrivateCopies.InitiallyCounted | kernel/src/kernel.cpp:635-642 | the manager starts in such a state |
| CopyOnWriteManager.CopyOnWriteManager.constructor | kernel/src/kernel.cpp:635-642 | the table starts blank and valid |
| CopyOnWriteManager.CopyOnWriteManager.FindFreeSlotIndex | kernel/src/kernel.cpp:736-743 | the scan finds the first inactive slot |
| CopyOnWriteManager.CopyOnWriteManager.FindPageIndex | kernel/src/kernel.cpp:745-752 | the scan finds the first active slot of the page |
| CopyOnWriteManager.CopyOnWriteManager.AllocatePage | kernel/src/kernel.cpp:644-660 | makes the specified transition on table, bitmap and page bytes |
| CopyOnWriteManager.CopyOnWriteManager.ClonePage | kernel/src/kernel.cpp:662-670 | the same, with its outcome |
| CopyOnWriteManager.CopyOnWriteManager.ResolveWriteTo | kernel/src/kernel.cpp:672-698 | the same; the copy is taken before the shared count drops |
| CopyOnWriteManager.CopyOnWriteManager.ReleasePage | kernel/src/kernel.cpp:700-712 | the same |
| SharedMemory.CreateMoves | kernel/src/kernel.cpp:798-823 | creation succeeds exactly if a segment and enough pages are free; otherwise the free set and all segments' pages are unchanged |
| SharedMemory.CreateRollsBack | kernel/src/kernel.cpp:798-823 | the partial destruction of a failed creation restores the free set exactly |
| SharedMemory.AttachKeeps | kernel/src/kernel.cpp:825-833 | attaching moves no page; that it counts a holder is `SegmentHolders.StepCounts` |
| SharedMemory.ReleaseMoves | kernel/src/kernel.cpp:835-845 | the last release frees exactly the segment's pages, any other frees none |
| SegmentHolders.CreateEffect | kernel/src/kernel.cpp:798-823 | a new segment has an id nobody has, one reference, and the pages asked for, all reading as zeros; every other segment stays |
| SegmentHolders.StepCounts | kernel/src/kernel.cpp:798-845 | creating, attaching and releasing keep every segment's count equal to its number of holders |
| SegmentHolders.RunCounts | kernel/src/kernel.cpp:798-845 | and so does every run, with other owners' calls interleaved |
| SegmentHolders.SegmentStays | kernel/src/kernel.cpp:798-845 | over every run in which a holder does not release it, a segment keeps its id, its pages and their contents |
| SegmentHolders.NewSucceedsExactly | kernel/src/kernel.cpp:798-823 | a segment is created exactly for one to four pages, if that many are free and a slot is |
| SegmentHolders.JoinSucceedsExactly | kernel/src/kernel.cpp:825-833 | attaching succeeds exactly if somebody holds the segment, and not 65535 do |
| SegmentHolders.LeaveFreesExactly | kernel/src/kernel.cpp:835-845 | a release frees the segment's pages if it is the last holder's, and nothing otherwise |
| SegmentHolders.InitiallyCounted | kernel/src/kernel.cpp:784-796 | the manager starts in such a state |
| SharedMemoryManager.SharedMemoryManager.constructor | kernel/src/kernel.cpp:784-796 | the table starts blank and valid |
| SharedMemoryManager.SharedMemoryManager.FindFreeSegmentIndex | kernel/src/kernel.cpp:880-887 | the scan finds the first inactive segment |
| SharedMemoryManager.SharedMemoryManager.FindSegmentIndex | kernel/src/kernel.cpp:889-896 | the scan finds the segment of an id |
| SharedMemoryManager.SharedMemoryManager.DestroyPartial | kernel/src/kernel.cpp:907-919 | exactly the pages in the segment's slots are freed, relying on unused slots being zero, and the slot is blank afterwards |
| SharedMemoryManager.SharedMemoryManager.FillSegment | kernel/src/kernel.cpp:809-821 | pages are taken and zeroed in order until one is missing |
| SharedMemoryManager.SharedMemoryManager.CreateSegment | kernel/src/kernel.cpp:798-823 | makes the specified transition, roll-back included |
| SharedMemoryManager.SharedMemoryManager.AttachSegment | kernel/src/kernel.cpp:825-833 | makes the specified transition, which `SegmentHolders` ties to the holders |
| SharedMemoryManager.SharedMemoryManager.ReleaseSegment | kernel/src/kernel.cpp:835-845 | makes the specified transition |
| Slab.ObjectsDoNotOverlap | kernel/src/kernel.cpp:1034-1043 | two objects of a cache are the same or a whole object apart, inside the cache's page |
| Slab.LoadStored | kernel/src/kernel.cpp:1003-1005 | a link stored in an object's bytes is read back |
| Slab.LoadElsewhere | kernel/src/kernel.cpp:1003-1005 | bytes written elsewhere leave a link alone |
| Slab.NodesAreObjects | kernel/src/kernel.cpp:957-988 | the list is empty exactly when the count is zero, exactly when every object is live |
| Slab.LinkedIsList | kernel/src/kernel.cpp:1038-1043 | cutting up a page writes only to it and makes an acyclic list of exactly its objects |
| Slab.FindCache | kernel/src/kernel.cpp:1015-1022 | the smallest size class that fits |
| SlabSafety.GrowKeepsInvariant | kernel/src/kernel.cpp:1024-1046 | a cache's first page brings in all its objects as free ones and disturbs no other cache |
| SlabSafety.AllocateKeepsInvariant | kernel/src/kernel.cpp:957-971 | an object handed out was not live, is big enough, and the free list stays exactly the objects not live; failure changes nothing; no page in use changes |
| SlabSafety.AllocateFailsExactly | kernel/src/kernel.cpp:957-971 | allocation fails exactly if no class fits, the cache has no page and none is free, or all its objects are live |
| SlabSafety.AcceptsExactly | kernel/src/kernel.cpp:973-981 | a free is accepted exactly if the address lies in the page of the smallest class that fits the size |
| SlabSafety.FreeKeepsInvariant | kernel/src/kernel.cpp:973-988 | a matched free makes exactly that object free again |
| SlabSafety.FreeIsSafeExactly | kernel/src/kernel.cpp:973-988 | an accepted free keeps the lists sound if and only if it is of a live object of that cache |
| SlabSafety.DoubleFreeBreaksList | kernel/src/kernel.cpp:973-988 | after any matched free the same free once more is accepted and breaks the list |
| SlabSafety.DoubleFreeAfterStart | kernel/src/kernel.cpp:935-988 | the failing case from start-up: prime, allocate, free, free again |
| SlabSafety.FreeThenAllocate | kernel/src/kernel.cpp:957-988 | the object last freed is the next one handed out |
| SlabSafety.AllocateKeepsObject | kernel/src/kernel.cpp:957-971 | handing out an object leaves every live object's bytes alone |
| SlabSafety.FreeKeepsObject | kernel/src/kernel.cpp:973-988 | taking an object back leaves every other live object's bytes alone |
| SlabSafety.WriteKeepsInvariant | kernel/src/kernel.cpp:957-988 | whatever a holder writes inside its object, no free list notices |
| SlabSafety.PrimeKeepsInvariant | kernel/src/kernel.cpp:948-955 | priming keeps the invariant from any state |
| SlabSafety.PrimeSucceedsExactly | kernel/src/kernel.cpp:948-955 | priming fresh caches succeeds exactly when there is a page for each |
| SlabSafety.PrimeFillsCaches | kernel/src/kernel.cpp:948-955 | once primed every cache has its page |
| SlabObjects.SlabCallKeepsObject | kernel/src/kernel.cpp:948-988 | every slab call, and every write to another object, leaves a live object live and its bytes alone |
| SlabObjects.ObjectIsSafe | kernel/src/kernel.cpp:390-1291 | a live object keeps its bytes over every run of all managers' calls that neither frees nor writes it |
| SlabSafety.NewSlabInvariant | kernel/src/kernel.cpp:935-946 | the initial caches satisfy the invariant |
| SlabAllocator.SlabAllocator.constructor | kernel/src/kernel.cpp:935-946 | the four size classes, without pages |
| SlabAllocator.SlabAllocator.FindCacheIndex | kernel/src/kernel.cpp:1015-1022 | the scan finds the specified cache |
| SlabAllocator.SlabAllocator.LinkAll | kernel/src/kernel.cpp:1038-1043 | the loop links exactly the page's objects, each to the one below it |
| SlabAllocator.SlabAllocator.GrowCache | kernel/src/kernel.cpp:1024-1046 | makes the specified transition on cache, bitmap and page bytes |
| SlabAllocator.SlabAllocator.PrimeCaches | kernel/src/kernel.cpp:948-955 | makes the specified transition, stopping at the first failure |
| SlabAllocator.SlabAllocator.PopFrom | kernel/src/kernel.cpp:967-970 | the head of the list is handed out and its link becomes the head |
| SlabAllocator.SlabAllocator.AllocateObject | kernel/src/kernel.cpp:957-971 | makes the specified transition |
| SlabAllocator.SlabAllocator.FreeObject | kernel/src/kernel.cpp:973-988 | makes the specified transition, matched or not; the allocator is valid afterwards exactly if an accepted free was of a live object of that cache |
| SlabAllocator.SlabAllocator.Contains | kernel/src/kernel.cpp:1048-1051 | an address passes exactly if the cache has a page and the address has that page's number |
| HugePages.HugeMask | kernel/src/kernel.cpp:1065-1069 | the mask test on an address is its remainder by 2 MiB |
| HugePages.HugeRoundTrip | kernel/src/kernel.cpp:1061-1069 | a huge page's address passes the test of free, all its pages are managed, and freeing it restores memory |
| HugePages.HugePageManager.AllocateHugePage | kernel/src/kernel.cpp:1061-1063 | the lowest free aligned run of 512 pages, or 0 |
| HugePages.HugePageManager.FreeHugePage | kernel/src/kernel.cpp:1065-1069 | exactly the managed ones of the 512 pages become free, for every 64-bit address; 0 and unaligned addresses free nothing |
| HugePages.KernelHeap.Init | kernel/src/kernel.cpp:593-603 | the heap takes the lowest free run of 128 pages, or changes nothing |
| Swap.SwapOutMoves | kernel/src/kernel.cpp:1121-1132 | swapping out fails exactly for address 0, full slots or no free page, and then changes nothing |
| Swap.SwapInMoves | kernel/src/kernel.cpp:1134-1140 | swapping in writes only the destination and frees only the backing page |
| Swap.SwapOutStores | kernel/src/kernel.cpp:1121-1132 | the slot returned holds the page's contents, and all other slots keep theirs |
| Swap.SwapInRestores | kernel/src/kernel.cpp:1134-1140 | the destination gets the stored contents, and all other slots keep theirs |
| Swap.SwapRoundTrip | kernel/src/kernel.cpp:1121-1140 | a page swapped out comes back as it was, over every run of other swaps and other owners' calls in between |
| SwapManager.SwapManager.constructor | kernel/src/kernel.cpp:1116-1119 | all slots start unused |
| SwapManager.SwapManager.SwapPageOut | kernel/src/kernel.cpp:1121-1132 | makes the specified transition |
| SwapManager.SwapManager.SwapPageIn | kernel/src/kernel.cpp:1134-1140 | makes the specified transition |
| CachedPages.EntryIsUnique | kernel/src/kernel.cpp:1160-1204 | the scans by key and by page find the one entry there is |
| CachedPages.AcquireMoves | kernel/src/kernel.cpp:1160-1178 | acquiring finds or makes the page's entry and drops no other; failure changes nothing |
| CachedPages.AcquireSucceedsExactly | kernel/src/kernel.cpp:1160-1178 | acquiring succeeds exactly if the page is cached, or a page is free and an entry blank |
| CachedPages.EvictMoves | kernel/src/kernel.cpp:1195-1204 | eviction frees exactly the evicted entry's page |
| CachedPages.AcquireCountsExactly | kernel/src/kernel.cpp:1160-1167 | a reference is counted right exactly below 65535, where one more makes the page evictable |
| CachedPages.WrappedCountEvicts | kernel/src/kernel.cpp:1160-1204 | the failing case from start-up: a page acquired n times is evicted from under its holders exactly if n is a multiple of 65536 |
| PageCache.PageCache.constructor | kernel/src/kernel.cpp:1155-1158 | all entries start blank |
| PageCache.PageCache.AcquirePage | kernel/src/kernel.cpp:1160-1178 | makes the specified transition |
| PageCache.PageCache.CachePage | kernel/src/kernel.cpp:1168-1177 | an uncached page gets the first blank entry and a zeroed page |
| PageCache.PageCache.MarkPageDirty | kernel/src/kernel.cpp:1180-1183 | exactly the entries of the page become dirty |
| PageCache.PageCache.ReleasePage | kernel/src/kernel.cpp:1185-1193 | exactly the first referenced entry of the page loses one reference |
| PageCache.PageCache.EvictPage | kernel/src/kernel.cpp:1195-1204 | makes the specified transition |
| MappingSafety.HitKeeps | kernel/src/kernel.cpp:1160-1167 | materialising a cached page shares it and counts one more user |
| MappingSafety.MissKeeps | kernel/src/kernel.cpp:1168-1177 | materialising an uncached page caches a fresh one; it fails exactly for want of a page or an entry, changing nothing |
| MappingSafety.AnonymousKeeps | kernel/src/kernel.cpp:1280-1285 | materialising a private page takes a fresh one; it fails exactly if none is free, changing nothing |
| MappingSafety.UseIsBacked | kernel/src/kernel.cpp:1278-1286 | the page a mapping has for a file page is that of the cache's entry, which is referenced |
| MappingSafety.PopulateKeeps | kernel/src/kernel.cpp:1233-1238 | an eager mapping's pages come in one by one, all or up to the first failure, keeping every invariant |
| MappingSafety.PopulateSucceedsExactly | kernel/src/kernel.cpp:1233-1238 | a private one gets all its pages exactly if that many are free |
| MappingCalls.DropFilePage | kernel/src/kernel.cpp:1257-1258 | dropping a file page gives up exactly one reference to its own entry |
| MappingCalls.DropPrivatePage | kernel/src/kernel.cpp:1259-1259 | dropping a private page frees it |
| MappingCalls.UnmapKeeps | kernel/src/kernel.cpp:1253-1263 | unmapping gives up exactly the mapping's pages, ends it, and changes no page's contents |
| MappingCalls.FailedMapRollsBack | kernel/src/kernel.cpp:1233-1238 | a failed eager mapping restores every reference count, and for a private one the free set |
| MappingCalls.MapKeeps | kernel/src/kernel.cpp:1225-1242 | mapping either makes one new mapping at a fresh address, complete if eager, or rolls back; a private one fails exactly for want of a slot or of pages |
| MappingCalls.FaultKeeps | kernel/src/kernel.cpp:1244-1251 | a fault changes at most one entry of the mapping's pages and no page in use; which entry is `Faults.FaultServesItsPage` |
| MappingCalls.FaultFailsExactly | kernel/src/kernel.cpp:1244-1251 | a permitted fault fails exactly if its page is missing and there is no page or cache entry for it |
| MappingCalls.EvictKeeps | kernel/src/kernel.cpp:1195-1204 | a cached page is evicted exactly when no mapping has it |
| MappingRuns.SharedExactly | kernel/src/kernel.cpp:1225-1286 | two materialised pages are one physical page exactly if they are the same page of the same file |
| MappingRuns.ReferencesNeverWrap | kernel/src/kernel.cpp:1160-1167 | a count is the number of mappings that have the page, so at most 16, and its increment never wraps |
| MappingRuns.Step | kernel/src/kernel.cpp:1225-1263 | every mapping or eviction call keeps ownership, counts and the contents of pages in use |
| MappingRuns.Run | kernel/src/kernel.cpp:1225-1263 | and so does every run |
| MappingRuns.InitiallyConsistent | kernel/src/kernel.cpp:1218-1223 | the initial tables satisfy the invariant |
| MappingRuns.MappedPageStays | kernel/src/kernel.cpp:1195-1263 | over every run without its own unmapping a materialised page stays where it is with the same contents |
| MappingRuns.FileMapSucceedsExactly | kernel/src/kernel.cpp:1225-1242 | a file mapping succeeds exactly if it is on demand or its uncached pages find free pages and blank entries |
| Faults.PagesHoldLength | kernel/src/kernel.cpp:1226-1226 | a mapping's pages hold its length and one page fewer would not; a length near 2^64 gets none |
| Faults.MappableExactly | kernel/src/kernel.cpp:1226-1230 | a mapping may be made exactly for 1 to 65536 bytes with a slot left |
| Faults.MappedBytesHavePages | kernel/src/kernel.cpp:1225-1242 | every byte of the length asked for lies in a page of the new mapping, with the file and the protection asked for |
| Faults.FaultServesItsPage | kernel/src/kernel.cpp:1244-1251 | a fault on an address of page j answers with page j, materialises no other, keeps it if it was there, and fails exactly for want of a page or entry |
| Faults.FaultRefusedExactly | kernel/src/kernel.cpp:1244-1246 | an address in no mapping, or a write to a read-only one, gets nothing and changes nothing |
| Faults.FirstFaultContents | kernel/src/kernel.cpp:1160-1178 | the page a fault brings in is the cached one as it is, or reads as zeros |
| Faults.OnlyWritesDirty | kernel/src/kernel.cpp:1244-1251 | a write fault marks exactly its page's cache entry dirty, a read fault none |
| Faults.FaultsShareExactly | kernel/src/kernel.cpp:1225-1286 | two faults, any calls between them that do not end the first mapping, get one physical page exactly if their addresses lie in one page of one mapping or of one file |
| Faults.UnmapEndsExactly | kernel/src/kernel.cpp:1253-1263 | unmapping takes the address a mapping starts at, ends that mapping, and frees exactly its private pages; any other address changes nothing |
| MemoryMappings.MemoryMappingManager.constructor | kernel/src/kernel.cpp:1218-1223 | no mapping, and the first address |
| MemoryMappings.MemoryMappingManager.FindMappingIndex | kernel/src/kernel.cpp:1271-1277 | the scan finds the mapping an address lies in |
| MemoryMappings.MemoryMappingManager.MaterializePage | kernel/src/kernel.cpp:1278-1286 | makes the specified transition through the cache or the allocator |
| MemoryMappings.MemoryMappingManager.PopulatePages | kernel/src/kernel.cpp:1234-1237 | the eager loop makes the specified transition |
| MemoryMappings.MemoryMappingManager.DropAllPages | kernel/src/kernel.cpp:1256-1260 | the unmapping loop makes the specified transition |
| MemoryMappings.MemoryMappingManager.MapRange | kernel/src/kernel.cpp:1225-1242 | makes the specified transition, roll-back included |
| MemoryMappings.MemoryMappingManager.PageFault | kernel/src/kernel.cpp:1244-1251 | makes the specified fault transition, which `Faults` describes by address |
| MemoryMappings.MemoryMappingManager.UnmapRange | kernel/src/kernel.cpp:1253-1263 | makes the specified transition |
| Ownership.TakeRunMoves | kernel/src/kernel.cpp:446-478 | a run of pages is taken whole from the free set, or nothing is, exactly if no aligned run is free |
| Ownership.PartitionKept | kernel/src/kernel.cpp:390-562 | one owner's moves keep the partition of pages and the set of all pages |
| MemorySystem.CowMoves | kernel/src/kernel.cpp:644-712 | copy-on-write calls move pages only between that manager and the free set |
| MemorySystem.SharedMoves | kernel/src/kernel.cpp:798-845 | so do shared-segment calls |
| MemorySystem.SlabMoves | kernel/src/kernel.cpp:948-988 | so do matched slab calls and writes inside live objects |
| MemorySystem.PageMoves | kernel/src/kernel.cpp:438-488 | so do callers' own page and huge-page calls, given they free what they hold |
| MemorySystem.PageCallsExactly | kernel/src/kernel.cpp:438-488 | a page or huge-page call gains or gives up one page, or an aligned run of 512, exactly if they are to be had |
| MemorySystem.HeapMoves | kernel/src/kernel.cpp:593-603 | so does the heap's start-up |
| MemorySystem.SlabFrame | kernel/src/kernel.cpp:957-988 | the slab lists, which live in page bytes, survive every other owner's calls |
| MemorySystem.ActsKeeps | kernel/src/kernel.cpp:390-1291 | one manager's call keeps every other manager's invariant and pages |
| MemorySystem.StepKeepsInvariant | kernel/src/kernel.cpp:390-1291 | every call of every manager keeps all invariants, the partition of pages and the set of all pages |
| MemorySystem.PartitionHolds | kernel/src/kernel.cpp:390-1291 | and so does every run with all managers' calls interleaved |
| MemorySystem.PagesAddUp | kernel/src/kernel.cpp:390-1291 | in every run from start-up the free pages and all owners' pages add up to the pages free at the start |
| MemorySystem.StepHandsOutFreePages | kernel/src/kernel.cpp:390-1291 | what an owner gains was free and nobody's: no page is handed to two owners |
| MemorySystem.StepKeepsPage | kernel/src/kernel.cpp:390-1291 | a page keeps its owner and its bytes through every call that is not its owner's business |
| MemorySystem.PageIsSafe | kernel/src/kernel.cpp:390-1291 | and over every run of such calls |
| MemorySystem.FreshInvariant | kernel/src/kernel.cpp:1395-1425 | the start-up state satisfies the invariant with all pages free |
| Threads.NextOwner | kernel/src/scheduler.cpp:646-654 | a waiter of the highest priority, the lowest slot among equals |
| Dispatching.SelectIsFirstOfHighestPriority | kernel/src/scheduler.cpp:214-224 | the scan so far has picked the first ready thread of the highest priority seen |
| Dispatching.SelectCoversTable | kernel/src/scheduler.cpp:214-224 | a whole scan picks the first ready thread, in round-robin order, of the highest priority of all |
| Dispatching.YieldApproaches | kernel/src/scheduler.cpp:668-694 | a yield dispatches a ready thread of maximal priority or moves the current slot strictly closer to it |
| Dispatching.BoundedBypass | kernel/src/scheduler.cpp:199-225 | such a thread is passed over fewer times than its circular distance, whatever else happens between the yields |
| Dispatching.NobodyOversleeps | kernel/src/scheduler.cpp:668-705 | after a yield or a tick no sleeper is due |
| Dispatching.YieldReturnsToCaller | kernel/src/scheduler.cpp:668-694 | exactly when a yield returns to its caller |
| Sleeping.SleepLasts | kernel/src/scheduler.cpp:551-559 | a sleep that switches away lasts exactly the ticks asked for: over every run of other threads' calls without a signal to it, the thread sleeps while fewer have passed and is ready, or just dispatched, from then on |
| Sleeping.SleepReturnsAtOnce | kernel/src/scheduler.cpp:551-559 | a sleep of more than one tick returns at once exactly if no other thread is ready or due |
| FailingRuns.LoneSleeperGoesOn | kernel/src/scheduler.cpp:551-559 | a run in which the only thread sleeps for five ticks and goes on after one |
| ThreadRecords.RecordTellsHistory | kernel/src/scheduler.cpp:541-694 | over every run a thread has received exactly the signals accepted for it, has the priority last set, and is counted once per dispatch; when dispatched it has handled every signal |
| ThreadRecords.SignalWakes | kernel/src/scheduler.cpp:561-578 | a signal readies a sleeping or blocked thread, calls off what it waited for, and touches no other thread |
| ThreadRecords.YieldCountsDeliveries | kernel/src/scheduler.cpp:668-694 | a yield counts one delivery for each thread whose pending signals it hands over: the caller and the one dispatched |
| SchedulerSafety.StepKeepsInvariant | kernel/src/scheduler.cpp:315-705 | every call keeps: at most one thread runs and it is current, ids are unique, at most one active queue per address, no blocked thread is orphaned |
| SchedulerSafety.InvariantHolds | kernel/src/scheduler.cpp:293-705 | and over every run from start-up with all calls mixed |
| SchedulerSafety.YieldIsCalm | kernel/src/scheduler.cpp:668-694 | a yield changes no table but the threads', and neither blocks, unblocks nor ends a thread |
| SchedulerSafety.WakeOnlyReadies | kernel/src/scheduler.cpp:459-475 | a wake changes nothing but blocked threads into ready ones |
| MutexSafety.NoLostWakeupHolds | kernel/src/scheduler.cpp:561-666 | in every run whose futex waits are made with a current wait field, a thread waiting for a mutex waits for one that another thread holds |
| MutexSafety.BlockedOnHeldMutexWithoutFutexes | kernel/src/scheduler.cpp:618-666 | in every run without futex waits every blocked thread waits for a mutex held by another |
| MutexSafety.FutexWaitExact | kernel/src/scheduler.cpp:444-457 | a futex wait keeps that property if and only if it does not join or the wait field is current |
| FailingRuns.StaleWaitLosesWakeup | kernel/src/scheduler.cpp:444-475 | a run of eleven calls from start-up after which a thread is blocked on a mutex that nobody holds |
| MutexSafety.OwnershipChangesOnlyByUnlock | kernel/src/scheduler.cpp:640-666 | a locked mutex changes only by its owner's unlock, which hands it to a waiter of the highest priority and readies it, or frees it if nobody waits |
| MutexSafety.UnlockHandsOrFrees | kernel/src/scheduler.cpp:640-666 | the owner's unlock hands the mutex on if anybody waits for it, and frees it otherwise |
| MutexSafety.OthersUnlockNothing | kernel/src/scheduler.cpp:640-644 | anyone else's unlock changes nothing |
| MutexSafety.OwnershipSurvivesOthers | kernel/src/scheduler.cpp:618-638 | while the owner does not run nobody takes its mutex, and its pending lock returns true when it does |
| MutexSafety.LockGrants | kernel/src/scheduler.cpp:618-638 | a lock not held by another is granted at once |
| LockOutcomes.WaitingLockReturns | kernel/src/scheduler.cpp:618-638 | over every run up to its return, a lock call that has to wait returns true, owning the mutex, if and only if there was a thread to switch to and no signal or futex wake readied it while it waited |
| FailingRuns.InterruptedLockFails | kernel/src/scheduler.cpp:444-475 | a run of nine calls from start-up in which a futex wake ends a lock call's wait without the mutex |
| Futexes.WakeExact | kernel/src/scheduler.cpp:459-475 | a wake readies exactly the first `count` distinct still-blocked waiters and returns how many |
| Futexes.WakeKeepsOrder | kernel/src/scheduler.cpp:465-472 | what is left of the queue is its end, in order |
| Futexes.WakePopsShortestPrefix | kernel/src/scheduler.cpp:465-472 | no waiter is popped beyond the last one readied |
| Futexes.FutexWakeExact | kernel/src/scheduler.cpp:459-475 | all this for the call on any reachable state, with the queue closed exactly if it is empty |
| FutexOrder.JoinsExactly | kernel/src/scheduler.cpp:444-457 | a wait joins exactly if it has an address, the word there is as expected, and the queue has room or a new one can be opened |
| FutexOrder.ClosedQueuesAreEmpty | kernel/src/scheduler.cpp:444-475 | closed queues are empty in every run from start-up |
| FutexOrder.WaitJoinsLast | kernel/src/scheduler.cpp:444-457 | a thread that joins is blocked and last in the queue of its address, behind the old waiters in their order; other queues stay |
| FutexOrder.WakePops | kernel/src/scheduler.cpp:459-475 | a wake takes a prefix of its address's queue, and readies exactly the blocked threads in it |
| FutexOrder.FirstComeFirstServed | kernel/src/scheduler.cpp:444-475 | if x waits and y has no entry ahead of it, no wake of the address readies y in any run in which x is never readied |
| FutexOrder.LaterArrivalWaits | kernel/src/scheduler.cpp:444-475 | in particular for a thread that joins a queue x is in, with no old entry of its own |
| FutexOrder.OvertakesExactly | kernel/src/scheduler.cpp:459-475 | of two blocked threads in a queue a wake can ready y and leave x if and only if an entry of y is ahead of all of x's |
| FailingRuns.OldEntryOvertakes | kernel/src/scheduler.cpp:444-475 | a run of six calls from start-up after which one wake readies the thread that joined last, by an old entry |
| Lifecycles.StepEffect | kernel/src/scheduler.cpp:253-264 | how one call may change each thread slot: finished threads never run again, ids are never reused |
| Lifecycles.FinishedNeverRunsAgain | kernel/src/scheduler.cpp:253-264 | however a run goes on, a finished thread is never dispatched |
| Lifecycles.TerminateExact | kernel/src/scheduler.cpp:376-404 | the caller keeps its slot through a termination if and only if it spares the caller's own process |
| Lifecycles.TerminateKeepsLiveHoused | kernel/src/scheduler.cpp:376-404 | whichever process is terminated, every thread that still has a slot belongs to an active process |
| Lifecycles.EmptyCallerComesBack | kernel/src/scheduler.cpp:551-559 | a caller whose slot was emptied gets it back by sleeping, and then lives in an active process exactly if one has the number left in the slot |
| FailingRuns.OwnEndLeavesHomelessThread | kernel/src/scheduler.cpp:376-404 | a run from start-up in which a thread ends its own process, sleeps, and lives on without one |
| Lifecycles.HousedHolds | kernel/src/scheduler.cpp:376-404 | in every run in which no thread terminates its own process, live threads have active processes and the caller keeps its slot |
| Endings.ProcessIdsHold | kernel/src/scheduler.cpp:322-404 | in every run process ids are never shared nor reused |
| Endings.TerminationEnds | kernel/src/scheduler.cpp:376-404 | terminating an active process other than the kernel's ends it and every thread of it, and touches nothing else |
| Endings.TerminationRefused | kernel/src/scheduler.cpp:376-382 | terminating the kernel's process, or one that is not active, changes nothing |
| Endings.TerminatedStaysGone | kernel/src/scheduler.cpp:376-404 | however a run goes on, a terminated process stays inactive and no thread of it lives |
| Endings.ExitedNeverRunsAgain | kernel/src/scheduler.cpp:253-264 | a thread that exits is finished and never dispatched again; the kernel stops exactly if nothing else can run |
| Endings.JoinReaps | kernel/src/scheduler.cpp:436-442 | joining a finished thread empties its slot and does nothing else |
| Endings.FinishedKeepsSlot | kernel/src/scheduler.cpp:376-442 | over every run a finished thread keeps its slot until it is joined or its process is terminated |
| Creations.NewThread | kernel/src/scheduler.cpp:341-374 | a thread is created exactly if its process is active, a stack can be had and a slot is free; it is ready, under a new id, with nothing of the slot's past |
| Creations.NewProcess | kernel/src/scheduler.cpp:322-339 | a process is created exactly if a slot is free; it is active, under an id no process ever had |
| Creations.NewMutex | kernel/src/scheduler.cpp:604-616 | a mutex is created exactly if a slot is free; it is unlocked, under an id no mutex ever had |
| Scheduler.Scheduler.constructor | kernel/src/scheduler.cpp:293-320 | the start-up tables |
| Scheduler.Scheduler.FindThreadIndex | kernel/src/scheduler.cpp:147-155 | the scan finds the thread of an id |
| Scheduler.Scheduler.FindNextRunnable | kernel/src/scheduler.cpp:199-225 | the scan makes the specified selection |
| Scheduler.Scheduler.SchedulerYield | kernel/src/scheduler.cpp:668-694 | makes the specified transition |
| Scheduler.Scheduler.SchedulerTimerTick | kernel/src/scheduler.cpp:696-705 | makes the specified transition |
| Scheduler.Scheduler.KernelCreateProcess | kernel/src/scheduler.cpp:322-339 | makes the specified transition |
| Scheduler.Scheduler.KernelCreateThread | kernel/src/scheduler.cpp:341-374 | makes the specified transition |
| Scheduler.Scheduler.KernelTerminateProcess | kernel/src/scheduler.cpp:376-404 | makes the specified transition |
| Scheduler.Scheduler.PollJoin | kernel/src/scheduler.cpp:436-442 | one round of the join loop |
| Scheduler.Scheduler.ThreadExit | kernel/src/scheduler.cpp:253-264 | makes the specified transition |
| Scheduler.Scheduler.KernelSetThreadPriority | kernel/src/scheduler.cpp:541-549 | makes the specified transition |
| Scheduler.Scheduler.KernelThreadSleep | kernel/src/scheduler.cpp:551-559 | makes the specified transition, whose length is `Sleeping.SleepLasts` |
| Scheduler.Scheduler.KernelSendSignal | kernel/src/scheduler.cpp:561-578 | makes the specified transition |
| Scheduler.Scheduler.KernelMutexCreate | kernel/src/scheduler.cpp:604-616 | makes the specified transition |
| Scheduler.Scheduler.KernelMutexLock | kernel/src/scheduler.cpp:618-638 | makes the specified transition, up to the context switch |
| Scheduler.Scheduler.ResumeMutexLock | kernel/src/scheduler.cpp:636-637 | after the switch, the result is whether the thread owns the mutex |
| Scheduler.Scheduler.FindNextOwner | kernel/src/scheduler.cpp:646-654 | the scan finds the specified waiter |
| Scheduler.Scheduler.KernelMutexUnlock | kernel/src/scheduler.cpp:640-666 | makes the specified transition |
| Scheduler.Scheduler.KernelFutexWait | kernel/src/scheduler.cpp:444-457 | makes the specified transition, whose place in the queue is `FutexOrder.WaitJoinsLast` |
| Scheduler.Scheduler.PopWaiter | kernel/src/scheduler.cpp:467-469 | the shift loop drops exactly the first waiter |
| Scheduler.Scheduler.WakeQueue | kernel/src/scheduler.cpp:465-472 | the wake loop makes the specified transition |
| Scheduler.Scheduler.KernelFutexWake | kernel/src/scheduler.cpp:459-475 | makes the specified transition |
| Events.FdsStayDistinct | kernel/src/scheduler.cpp:173-183 | descriptors stay distinct over every run |
| Events.StepOnObject | kernel/src/scheduler.cpp:477-539 | how any call changes any object's deadline or count |
| Events.DeadlineCountsExpirations | kernel/src/scheduler.cpp:522-539 | a periodic deadline is the first one plus one interval for each expiration delivered |
| Events.PeriodicTimerDoesNotDrift | kernel/src/scheduler.cpp:522-539 | over any calls whose last read succeeds at tick t, 1 + (t - first) / interval expirations are delivered, and the next deadline lies after t |
| Events.OneShotDeliversOnce | kernel/src/scheduler.cpp:522-539 | a one-shot timer delivers exactly one expiration in all |
| Events.ReadSucceedsWhenExpired | kernel/src/scheduler.cpp:531-539 | a timer read succeeds exactly when the timer has expired |
| Events.EventCounterConserves | kernel/src/scheduler.cpp:501-520 | an event counter's initial value and writes equal its reads and what is left |
| Events.PollReportsFirstReady | kernel/src/scheduler.cpp:490-499 | the poll loop reports exactly the first `capacity` watched descriptors, in watch order, whose object exists and is ready |
| Events.EpollWaitReports | kernel/src/scheduler.cpp:490-499 | and so does the call on an epoll descriptor; on any other it reports nothing |
| EventLifetimes.AllocatesFresh | kernel/src/scheduler.cpp:173-183 | a new object gets the next descriptor in a slot that was free; no other object changes |
| EventLifetimes.RefusesExactly | kernel/src/scheduler.cpp:477-529 | creation is refused exactly if no slot is free, or for a timer of no delay |
| EventLifetimes.TimerDeliversWhatIsDue | kernel/src/scheduler.cpp:522-539 | from its creation on, what a timer has delivered and would deliver now are the expirations due by now, the first one `initial` ticks after its creation |
| EventLifetimes.CounterConservesFromCreation | kernel/src/scheduler.cpp:501-520 | from its creation on, a counter's initial value and writes are what was read and what a read would give |
| EventLifetimes.WriteFitsExactly | kernel/src/scheduler.cpp:507-512 | a write is accepted exactly if it is not the reserved value and the sum fits in 64 bits |
| EventLifetimes.CounterFits | kernel/src/scheduler.cpp:507-512 | so a counter stays in 64 bits over every run |
| EventLifetimes.EpollRemembersFromCreation | kernel/src/scheduler.cpp:477-488 | from its creation on, an epoll set watches exactly the descriptors added to it, in order, up to eight |
| EventLifetimes.ReadyMeansReadable | kernel/src/scheduler.cpp:185-193 | a poll calls an object ready exactly if a read of it would deliver something |
| EventTable.EventTable.AllocateEventObject | kernel/src/scheduler.cpp:173-183 | the scan makes the specified transition |
| EventTable.EventTable.EventReady | kernel/src/scheduler.cpp:185-193 | the readiness test, which also records an expired timer |
| EventTable.EventTable.KernelEpollCreate | kernel/src/scheduler.cpp:477-480 | makes the specified transition |
| EventTable.EventTable.KernelEpollAdd | kernel/src/scheduler.cpp:482-488 | makes the specified transition |
| EventTable.EventTable.KernelEpollWait | kernel/src/scheduler.cpp:490-499 | returns the first `capacity` watched descriptors, in watch order, that are ready, and makes the specified transition |
| EventTable.EventTable.KernelEventFd | kernel/src/scheduler.cpp:501-505 | makes the specified transition |
| EventTable.EventTable.KernelEventFdWrite | kernel/src/scheduler.cpp:507-512 | makes the specified transition, refusing an overflowing write |
| EventTable.EventTable.KernelEventFdRead | kernel/src/scheduler.cpp:514-520 | makes the specified transition |
| EventTable.EventTable.KernelTimerFd | kernel/src/scheduler.cpp:522-529 | makes the specified transition |
| EventTable.EventTable.KernelTimerFdRead | kernel/src/scheduler.cpp:531-539 | makes the specified transition |
| Windows.RaisedPermutes | kernel/src/gui.cpp:1030-1043 | raising a window permutes the list and keeps the others in order |
| Windows.FocusEstablishes | kernel/src/gui.cpp:1062-1078 | focusing establishes the focus invariant whatever the focus was before, and shifts exactly the windows above |
| Windows.FocusTopEstablishes | kernel/src/gui.cpp:1080-1087 | so does focusing the topmost shown window, or clearing the focus if there is none |
| Windows.FocusRejectsShifted | kernel/src/gui.cpp:1473-1492 | an index made stale by focusing the topmost window is refused or names the same window |
| Windows.RestoreKeepsInvariant | kernel/src/gui.cpp:1473-1492 | restoring a running app always ends with that app's window active on its desktop |
| Windows.StepKeepsInvariant | kernel/src/gui.cpp:1030-1222 | every window event keeps: at most one window focused, it is the active one, shown on the current desktop |
| Windows.FocusInvariantHolds | kernel/src/gui.cpp:1030-1222 | and over every run from the empty desktop |
| Windows.MouseDownArmsIntendedDrag | kernel/src/gui.cpp:3975-4003 | exactly when a press arms the drag of the window whose title bar was pressed |
| Windows.BodyPressStartsDrag | kernel/src/gui.cpp:3975-4003 | a run from the empty desktop and a press on a window's body that starts a drag of it |
| Windows.CoveredPressStartsDrag | kernel/src/gui.cpp:3975-4003 | a run and a press on the topmost window that starts a drag of the window whose title bar it covers |
| Windows.ButtonsApart | kernel/src/gui.cpp:988-999 | on a window wide enough the three buttons lie in the title bar, from the right, with gaps between them |
| WindowEffects.TakesAway | kernel/src/gui.cpp:3757-3782 | closing hides the window, and minimising puts it away; the others are the old ones in their order, one of them raised and focused if the active one was taken and any is left to show; pending indices to a closed window are cleared |
| WindowEffects.HiddenIsNotFound | kernel/src/gui.cpp:1015-1053 | a closed or minimised window is found by no point and is topmost on no desktop |
| WindowEffects.RearrangedPermutes | kernel/src/gui.cpp:1030-1043 | such a rearrangement is a permutation, focus flags aside |
| WindowEffects.SwitchShows | kernel/src/gui.cpp:1162-1168 | switching shows the desktop asked for, with its topmost window raised and active, or none |
| WindowEffects.AddAppends | kernel/src/gui.cpp:1101-1130 | a new window goes on top, shown on its desktop only and unfocused; a malformed one changes nothing |
| WindowEffects.TaskbarRestores | kernel/src/gui.cpp:1211-1222 | a window comes back from the taskbar unless it was closed, active and on top if its desktop is shown |
| WindowEffects.RestoreOrFocusPermutes | kernel/src/gui.cpp:1473-1492 | bringing an app up changes its one window; the others are the old ones |
| WindowEffects.LaunchShows | kernel/src/gui.cpp:1494-1565 | starting an app that then runs makes its window active on the desktop asked for, added or made new, and changes no other |
| WindowEffects.PressActivates | kernel/src/gui.cpp:3975-4003 | a press raises and activates exactly the topmost window under the point |
| WindowEffects.PressSparesButtons | kernel/src/gui.cpp:3975-4003 | no press drags a maximised window, or from a button |
| WindowEffects.ClickOnlyRaises | kernel/src/gui.cpp:3975-4032 | a press and its release leave nothing pending |
| WindowManager.WindowManager.BringWindowToFront | kernel/src/gui.cpp:1030-1043 | the shift loop raises the window |
| WindowManager.WindowManager.ClearWindowFocus | kernel/src/gui.cpp:1055-1060 | every focus flag is cleared |
| WindowManager.WindowManager.FindTopVisibleWindow | kernel/src/gui.cpp:1045-1053 | the downward scan finds the topmost shown window |
| WindowManager.WindowManager.FocusWindow | kernel/src/gui.cpp:1062-1078 | makes the specified transition |
| WindowManager.WindowManager.FocusTopVisibleWindow | kernel/src/gui.cpp:1080-1087 | makes the specified transition |
| WindowManager.WindowManager.AddWindow | kernel/src/gui.cpp:1101-1130 | makes the specified transition, refusing a missing title, empty bounds, a full list and a desktop out of range |
| WindowManager.WindowManager.SwitchVirtualDesktop | kernel/src/gui.cpp:1162-1168 | makes the specified transition |
| WindowManager.WindowManager.MinimizeWindow | kernel/src/gui.cpp:1170-1184 | makes the specified transition |
| WindowManager.WindowManager.RestoreWindowFromTaskbar | kernel/src/gui.cpp:1211-1222 | makes the specified transition |
| WindowManager.WindowManager.FindWindowByApp | kernel/src/gui.cpp:1464-1471 | the scan finds the specified window |
| WindowManager.WindowManager.RestoreOrFocusRunningApp | kernel/src/gui.cpp:1473-1492 | makes the specified transition |
| WindowManager.WindowManager.CloseWindow | kernel/src/gui.cpp:3757-3782 | makes the specified transition, which takes the window away (`WindowEffects.TakesAway`) |
| WindowManager.WindowManager.FindTopWindowAt | kernel/src/gui.cpp:1015-1028 | the downward scan finds the topmost window hit |
| WindowManager.WindowManager.PressMouse | kernel/src/gui.cpp:3975-4003 | makes the specified transition |
| Line.RoundedStep | kernel/src/gui.cpp:828-852 | the drawer's test on the error term advances exactly when the rounded ideal line does |
| Line.ErrorStep | kernel/src/gui.cpp:837-850 | the drawer's decisions lead from each point and error to the next in every octant without leaving 32 bits |
| Line.Endpoints | kernel/src/gui.cpp:828-852 | the line starts and ends at its endpoints, after exactly max(dx, dy) steps |
| Line.WithinHalfPixel | kernel/src/gui.cpp:828-852 | every point is within half a pixel of the ideal line |
| Line.InsideBoundingBox | kernel/src/gui.cpp:828-852 | every point is in the endpoints' bounding box |
| Line.Connected | kernel/src/gui.cpp:828-852 | consecutive points touch and differ |
| Geometry.IntersectRect | kernel/src/gui.cpp:626-640 | a pixel is in the intersection exactly if it is in both rectangles, and disjoint ones give the empty rectangle |
| Shapes.OverlayAppend | kernel/src/gui.cpp:741-750 | drawing two lists of shapes is drawing one after the other |
| Shapes.CursorInsideBackup | kernel/src/gui.cpp:884-909 | no cursor of any kind draws outside its backup square |
| Shapes.CursorIsSeen | kernel/src/gui.cpp:884-909 | each cursor's tip is seen whatever is underneath, and no pixel shows anything but cursor, shadow or what is underneath |
| Display.Display.DrawPixel | kernel/src/gui.cpp:697-707 | exactly the pixel changes, and only if on screen and inside the clip |
| Display.Display.FillRect | kernel/src/gui.cpp:741-750 | exactly the rectangle's pixels inside screen and clip |
| Display.Display.DrawLine | kernel/src/gui.cpp:828-852 | the error-term loop terminates having drawn exactly the points of the line inside screen and clip |
| Display.Display.DrawShapes | kernel/src/gui.cpp:690-750 | any drawing under a clip is the unclipped drawing inside it and the old buffer outside |
| Display.Display.BeginDrawToBackBuffer | kernel/src/gui.cpp:690-695 | exactly the pixels of screen and rectangle become open |
| Display.Display.CopyBackBufferToFramebuffer | kernel/src/gui.cpp:727-739 | exactly the dirty pixels are copied, and none if there is no back buffer |
| Display.Display.SaveCursorBackground | kernel/src/gui.cpp:914-927 | the square under the cursor is saved, with zeros for its off-screen part |
| Display.Display.RestoreCursorBackground | kernel/src/gui.cpp:929-946 | the saved square is put back, and nothing else changes |
| Display.Display.DrawCursor | kernel/src/gui.cpp:884-909 | exactly the cursor's shapes are drawn, all inside the square |
| Display.Display.PaintCursor | kernel/src/gui.cpp:948-951 | what painting covers is exactly what restoring would bring back, and the saved square is what was there |
| Display.Display.ClampMouseToScreen | kernel/src/gui.cpp:3743-3755 | the mouse moves to the nearest position on screen |
| Display.Display.ComposeDesktop | kernel/src/gui.cpp:3689-3713 | full composition shows the scene, with the cursor painted over it |
| Display.Display.RedrawDirtyRegion | kernel/src/gui.cpp:3715-3741 | partial redraw shows the new scene entire if it changed only inside the region, with the cursor painted over it |
| Display.Display.MoveCursorOnly | kernel/src/gui.cpp:953-960 | moving the cursor, to the nearest position on screen, keeps the scene underneath and paints the cursor asked for over it |
| Checksum.Ipv4Checksum | kernel/src/network.cpp:184-196 | both loops terminate without 32-bit overflow and give the complement of the one's-complement sum, for every length up to 65535 |
| Checksum.FoldedSumIsOnesSum | kernel/src/network.cpp:192-194 | folding afterwards agrees with carrying around at every addition (section 1 of RFC 1071) |
| Checksum.StoredChecksumVerifies | kernel/src/network.cpp:184-196 | with the checksum stored big-endian in its zeroed, even-offset field the sum over the data is zero (section 3.1 of RFC 791) |
| Checksum.SingleWordErrorDetected | kernel/src/network.cpp:184-196 | a different value in a word that verified is noticed, except between the two zeros of nonzero data |

## Left out

- MemoryMappings.MemoryMappingManager.MapRange: assumes that the next mapping address does not reach 2^64; mapping addresses are unbounded in the specification.
- SlabAllocator.SlabAllocator.FreeObject: does not model an accepted free so close to the end of the cache's page that the link written would run into the next page.
- SwapManager.SwapManager.SwapPageOut: addresses are page addresses in the 4 GiB the allocator manages; copies from elsewhere are not modelled.
- SwapManager.SwapManager.SwapPageIn: the same for the destination.
- Scheduler.Scheduler.KernelMutexLock: the call is split at the context switch; `ResumeMutexLock` is its second part, and `LockOutcomes` joins the two over runs. Joining is one polling round at a time.
- Scheduler.Scheduler.KernelFutexWait: the comparison of the word at the address is a parameter, and the queue's fixed array of ids is a sequence.
- Ticks, deadlines, and process, thread, mutex and segment ids are unbounded: their 64-bit wrap-around is not modelled.
- The kernel heap's bump allocation: the heap appears only as an owner of its pages.
- The NUMA manager: its counters are not kept in step with the allocator.
- Hardware: page tables, port input and output, context frames and extended state; a context switch is the change of the current thread.
- Inter-process messages, process and thread names, stacks, exit codes, fork and exec, which create threads through the calls modelled.
- Scheduler calls before its initialisation, when there is no current thread.
- Window titles, placement, clamping, snapping, resizing and maximising, and the start of applications beyond its effect on the window list.
- What windows draw: a scene is any list of rectangles and lines whose first shape covers the screen; colour conversion is left out, and the buffers are two-dimensional, without their row-major index.
- How the dirty rectangle is computed from windows: `RedrawDirtyRegion` states what it must contain.
- Packet builders, file systems, security, performance counters, user space, self-tests and printing.
