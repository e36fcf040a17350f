# StelluxOS: a verified model of its memory, scheduling and ring code

This Dafny project models the stateful core of the StelluxOS kernel and boot loader and proves what that code keeps over
whole runs and in every interleaving. `dafny verify dfyconfig.toml` checks all of it.

| files | what they model |
|---|---|
| `PageTables`, `PageWalk`, `TableCount`, `KernelPaging`, `BootPaging` | the four-level page table (section 4.5 of volume 3A of the Intel SDM) as a radix tree in physical frames; the walk of an address through it and what that walk permits; how many tables pages need; the kernel's and the boot loader's mapping code over it |
| `FrameBitmap`, `FrameAllocator`, `FrameInit`, `FrameConcurrency`, `FrameAlone` | the page frame allocator: bitmap bytes, search hint, counters, set-up from the memory map, and any number of threads taking its two spinlocks |
| `HeapMemory`, `HeapChain`, `HeapCalls`, `HeapBytes`, `KernelHeap`, `HeapRuns`, `HeapUse`, `HeapFaults`, `AlignedBlocks` | the kernel heap: segment headers as bytes, the chain they form, what each call does to it and to the bytes, the allocator's stores, runs of calls against independent byte blocks, which bytes are in use after them, and the calls that go wrong |
| `Scheduler` | the round-robin run queue, the timer tick, thread exit and the context switch of one CPU |
| `EventRing`, `ProducerRing` | the xHCI event ring, and the command and transfer rings, against a controller that follows the xHCI specification |
| `Words`, `ByteMemory` | the word-at-a-time memory routines and `strlen` |

Code that updates state in place is a class or a method over an array, proved equal to a function on values; the laws are
lemmas about those functions. Addresses of frames and headers are numbers; a null pointer is 0 or `None`.

## What turned out not to hold

Where the code does not keep a property its design relies on, the model keeps the code as it is, gives the case where it
fails, and proves the exact condition.

- **Heap split.** `_splitSegment` leaves the back-link of the old successor as it was. Back-links stay exact exactly if the
  split segment is last (`SplitBackExact`). From exact back-links every single call is right (`StepFromExact`), also a resize
  that moves a block (`GrowFromExact`). From any sound state a call of the code keeps all live blocks exactly if it is safe
  (`StepSoundExactly`), and so does a resize that moves (`GrowSoundExactly`). What can be unsafe is the free of a block, and
  it depends on where the block's back-link leads:
  - into the chain: safe exactly if it is empty, names a used segment or names the neighbour (`FreeTiledExactly`; on the
    chain before a move, `MoveHarmlessBefore`);
  - out of the chain, to a clear free bit: nothing is written there, and the free is safe;
  - out of the chain, to a set free bit, with the two words that are written off all headers: safe exactly if they are in
    no other live block;
  - to a set free bit, with the size that is written in the fields of a header of the chain: never safe, the header is
    destroyed (`HeaderHit`).

  In every run all back-links point below their own segments (`RunKeepsBelow`), so they lead to memory, every call of an
  owner can be made (`OwnersCanCall`), and the list is complete but for a set free bit where the two words cut the border of
  a header (`DecidedUnlessCut`, `FirstUnsafeCall`): with a link 1 to 23 bytes before or 17 to 23 bytes behind the start of a
  header, whether the header survives depends on the values stored. Each way to fail is reached by owners on a new heap:
  `LiveBlockLost` makes eight calls that drop a live block from the chain and then hand its bytes to another caller;
  `LiveBlockWritten` makes eleven that end with a free which overwrites another owner's bytes; `HeaderDestroyed` makes nine
  sound calls and a free that destroys a header exactly if bit 8 of an address is set, as it is in the kernel's heap on
  machines with a multiple of 4096 page frames (`KernelHeapBit`). `RunRefinesBlocks` covers every run of safe calls. By
  `ExactRunIsSafe` every run is one if the split repairs the link, and with the code's own split every run in which only the
  last segment is split.
- **Moving a block without the lock.** A resize that moves releases the lock after the allocation and after the copy. In every
  interleaving with safe calls of other owners the moved block still gets all its bytes (`InterleavedMove`).
- **Heap search bound.** The search admits segments two bytes smaller than the split does, so an allocation can fail although
  a later segment is large enough (`AllocFailsExactly`; `LargerSegmentIgnored` makes the calls). The 64-bit size of the
  search wraps exactly if the request and two headers do not fit 64 bits (`HugeRequestWraps`); such a request is then granted
  the first free segment of a few bytes, whose header it spoils (`AllocateHuge`).
- **Shrink tails.** A resize in place marks the split-off tail used and hands it to nobody. In every run of safe calls the
  used segments are exactly the live blocks with their headers, and these tails (`RunAccounts`); a tail is never free again
  (`TailsStay`), and a shrink gives no byte back (`RunCosts`).
- **Thread exit.** After an exit the queue's current task is the task actually switched to exactly if the exiting task was
  the first or the last behind the swapper (`ExitAgreement`); otherwise the next tick stores the running task's registers in
  another task's block (`DisagreementLosesContext`). Three additions, two ticks and an exit lead there
  (`DisagreementReached`). The queue's current task is marked running after an exit exactly if at least three tasks are left
  (`ExitMarksRunning`). A task added between the switch and the scheduling of a tick breaks the agreement exactly if the
  queue is wrapping, has at least three tasks and is not full (`TickWithAddAgreement`).
- **Command and transfer rings.** The Link TRB lacks the toggle-cycle bit. The rings are queues for exactly up to 254
  enqueues (`FifoExactly`); items of odd laps are never seen by the controller (`OddLapsAreInvisible`).
- **Frame hint.** The hint bounds the free frames after a free exactly if the freed frame is at or above the hint, past the
  end or free already (`FreeKeepsHint`); as long as every free is such, a request fails exactly if no frame is free
  (`RequestFailsOnlyWhenFull`). Any other free is lost (`HarmfulFreeIsLost`). On every machine whose memory is one range of
  at least twice the kernel heap, the first frame that is granted and then freed is never granted again
  (`FreedFrameNotGranted`).
- **Bitmap guard.** The bounds check of the bitmap lets through exactly one index outside the buffer, one past the last bit
  (`GuardOffByOne`).
- **Memory holes.** The end of memory is taken to be the number of pages in the memory map, and the bitmap has a bit for
  each. In a map without gaps that is right (`GapFreeFits`). Otherwise frames at or above that number are never granted
  (`PastEndNeverGranted`), and the free counter is right exactly if every conventional frame has a bit
  (`InitBalancedExactly`; `HoleLosesFrames` gives maps where it is not).
- **Heap frames.** The lock on the kernel heap's frames is taken while every frame counts as used, so it does not last: past
  the bitmap's own pages a heap frame is free and will be granted exactly if it is conventional (`HeapNotReserved`). Where
  memory is one conventional range, the first frame granted is a heap frame (`FirstGrantIsHeapFrame`).
- **Page attributes.** Write-through and access type are masked with 2 and 4 and stored in one-bit fields, so both are always
  lost (`LostAttributes`).
- **Shared upper half.** A user root created while entry 511 of the kernel root is absent does not see later kernel mappings
  (`AbsentUpperSeparates`); if it was present, both agree forever (`UpperHalfAgreesForever`).
- **Boot wrap.** The check for virtual address 0 keeps every address of memory translating to itself exactly unless the
  offset is not page aligned and some page of memory wraps (`WrapOverwritesLow`).

## Model

| member | source | states |
|---|---|---|
| PageTables.Path | kernel/src/paging/page.cpp:9-24 | four indices, each below 512 |
| PageTables.PathByLevel | kernel/src/paging/page.cpp:45-67 | the per-level shifts of the lookup give the same indices as the successive shifts of the mapping |
| PageTables.SamePathSamePage | kernel/src/paging/page.cpp:9-24 | two addresses have the same indices exactly if they agree in bits 12 to 47 |
| PageTables.InsertExtends | kernel/src/paging/page.cpp:91-138 | a mapping keeps the forest of tables and the place of every old table, and writes one slot among tables at its own depth or above |
| PageTables.InsertKeys | kernel/src/paging/page.cpp:91-128 | the new tables are exactly the needed number of frames from the front of the supply |
| PageTables.InsertHere | kernel/src/paging/page.cpp:130-137 | the entry of the mapped page is the old one overwritten by the mapping |
| PageTables.InsertElsewhere | kernel/src/paging/page.cpp:91-138 | the entry of every other page, below the same or another root, is unchanged |
| PageTables.RunIsPlainMap | kernel/src/paging/page.cpp:75-138 | after any run of mappings every page holds what a plain map from pages to entries would hold |
| PageTables.RunKeepsForest | kernel/src/paging/page.cpp:75-138 | any run of mappings leads from a forest to a forest with the same roots and keeps a shared upper half |
| PageWalk.InsertWalk | kernel/src/paging/page.cpp:91-138 | after a mapping the walk along its path is complete: entries that were present are unchanged, each new one is present, writable, has the interior user bit and names the next frame of the supply, and the last one is present, writable, names the frame and has the requested user bit |
| PageWalk.MappingOpens | kernel/src/paging/page.cpp:91-138 | the mapped page can be written exactly if the entries that were there above it are writable; user mode reaches it exactly if those and the mapping are for user mode, and the new tables too, if there are any |
| PageWalk.InsertAbove | kernel/src/paging/page.cpp:91-128 | a mapping changes for no page, below the same or another root, what the entries above it permit |
| PageWalk.LastMappingDecides | kernel/src/paging/page.cpp:75-138 | after any run of mappings with new tables for user mode, a page is present in the frame of its last mapping; whether it can be written and whether user mode reaches it follow from that mapping and the entries above it before the run |
| TableCount.MissingCounts | bootloader/paging.c:66-98 | the tables a mapping has to add are the absent proper prefixes of its path |
| TableCount.InsertPresent | bootloader/paging.c:66-98 | a mapping makes present exactly the proper prefixes of its own path |
| TableCount.FewPlaces | bootloader/paging.c:66-98 | consecutive pages need at most three tables for every block of 512 that they touch |
| KernelPaging.TableMemory.MapPage | kernel/src/paging/page.cpp:75-138 | the unrolled code, drawing frames from the allocator, equals the recursive insertion, whose walk `InsertWalk` gives entry by entry, and the allocator has served as many requests as tables were missing |
| KernelPaging.TableMemory.GetPteForAddr | kernel/src/paging/page.cpp:170-192 | returns the entry the lookup names, and none exactly if a level is absent |
| KernelPaging.TableMemory.CreateUserspacePml4 | kernel/src/paging/page.cpp:210-220 | a new zeroed root that holds the kernel's entry 511 |
| KernelPaging.MapPageTranslates | kernel/src/paging/page.cpp:130-138 | after a mapping the address translates by an entry that is present, writable, names the frame, has the requested user bit, caching disabled by bit 0, write-through and access type clear and all other bits as they were; every other page translates as before; new tables were free frames |
| KernelPaging.MapPageOpens | kernel/src/paging/page.cpp:91-138 | a mapped page can be written at all levels exactly if the old entries above it allow it, and reached by user mode exactly if they do and bit 0 of the privilege is set |
| KernelPaging.LostAttributes | kernel/src/paging/page.cpp:134-136 | the masked attribute bits 1 and 2 never reach their one-bit fields |
| KernelPaging.RunKeepsTrees | kernel/src/paging/page.cpp:91-138 | in every run of mappings, new roots and other allocator calls no frame serves in two places, no grant hands out a table, and a shared upper half stays shared |
| KernelPaging.RunKeepsPage | kernel/src/paging/page.cpp:91-138 | in every run of mappings, new roots and other allocator calls, a page that none of them maps keeps its entry and what the entries above it permit |
| KernelPaging.MappingLasts | kernel/src/paging/page.cpp:91-138 | a mapping lasts: after every later run that does not map the page again, it translates to the same frame, and can be written or reached by user mode exactly as right after the mapping |
| KernelPaging.UserRootTranslates | kernel/src/paging/page.cpp:210-220 | a user root translates the addresses of entry 511 as the kernel root does, and nothing else |
| KernelPaging.UpperHalfAgreesForever | kernel/src/paging/page.cpp:210-220 | with entry 511 present, all roots translate the upper half alike after every later run |
| KernelPaging.AbsentUpperSeparates | kernel/src/paging/page.cpp:93-99 | with entry 511 absent, the first upper mapping of the kernel root is invisible below the user root |
| BootPaging.FindElfSectionByVaddr | bootloader/paging.c:139-160 | the first section that holds the address and starts at or above the kernel base, or -1 exactly if there is none |
| BootPaging.LeafPrivilegeLevel | bootloader/paging.c:180-197 | a page is for user mode exactly if it is at or above the kernel base and its first section is not privileged |
| BootPaging.BootMemory.MapPage | bootloader/paging.c:48-111 | the unrolled code equals the recursive insertion, with interior entries open to user mode exactly below entry 511 |
| BootPaging.BootMemory.CreateIdentityMappedPageTable | bootloader/paging.c:113-137 | the tables hold exactly the identity mappings of memory and framebuffer, and the firmware gave exactly the tables these need |
| BootPaging.BootMemory.CreateHigherHalfMapping | bootloader/paging.c:162-206 | the tables then also hold the mappings at the offset, up to the page where the virtual address wraps to 0, and the firmware gave exactly the tables all of them need |
| BootPaging.BuildBootTables | bootloader/bootloader.c:210-222 | both calls in order leave tables that hold exactly the requests of both, with uniform interior user bits and every interior entry writable, for one page of the firmware per distinct table and one for the root |
| BootPaging.BootTablesAreFew | bootloader/paging.c:122-134 | that is at most three tables for every block of 512 pages that memory, framebuffer and higher half touch |
| BootPaging.LowTranslates | bootloader/paging.c:122-134 | after both loops, unless a higher-half page wraps over low memory, every address of memory and framebuffer translates to itself, can be written at all levels, and is closed to user mode |
| BootPaging.HighTranslates | bootloader/paging.c:175-205 | every page whose offset address does not wrap translates there too, can be written at all levels, and is open to user mode at all levels exactly if it is at or above the kernel base and its first section is not privileged |
| BootPaging.WrapOverwritesLow | bootloader/paging.c:199-202 | some address of memory does not translate to itself exactly if the offset is not page aligned and the last page of memory wraps |
| FrameBitmap.PageFrameBitmap.constructor | kernel/src/paging/page_frame_allocator.cpp:19-25 | every frame starts as used |
| FrameBitmap.PageFrameBitmap.SetPageValue | kernel/src/paging/page_frame_allocator.cpp:43-63 | exactly the one bit is written; an index past the end is refused |
| FrameBitmap.PageFrameBitmap.IsPageUsed | kernel/src/paging/page_frame_allocator.cpp:65-72 | reads the bit of the frame |
| FrameBitmap.WithBitSets | kernel/src/paging/page_frame_allocator.cpp:50-60 | clearing and setting a masked bit changes that bit and no other |
| FrameBitmap.GuardOffByOne | kernel/src/paging/page_frame_allocator.cpp:43-49 | the guard lets an index outside the buffer through exactly if it is one past the last bit |
| FrameAllocator.PageFrameAllocator.FreePhysicalPage | kernel/src/paging/page_frame_allocator.cpp:221-236 | the bit of the frame is clear afterwards, every other bit, the total and the hint are unchanged, and a page moves between the counters exactly if the frame was used |
| FrameAllocator.PageFrameAllocator.LockPhysicalPage | kernel/src/paging/page_frame_allocator.cpp:245-260 | the bit of the frame is set afterwards, every other bit, the total and the hint are unchanged, and a page moves between the counters exactly if the frame was free |
| FrameAllocator.FreeMeaning | kernel/src/paging/page_frame_allocator.cpp:221-236 | the same of a free as a step of a run |
| FrameAllocator.LockMeaning | kernel/src/paging/page_frame_allocator.cpp:245-260 | the same of a lock as a step of a run |
| FrameAllocator.PageFrameAllocator.LockPhysicalPages | kernel/src/paging/page_frame_allocator.cpp:262-267 | locks exactly the frames of the range |
| FrameAllocator.FirstFree | kernel/src/paging/page_frame_allocator.cpp:324-332 | the lowest free frame at or above the start, or none below the end |
| FrameAllocator.PageFrameAllocator.RequestFreePage | kernel/src/paging/page_frame_allocator.cpp:321-348 | grants the lowest free frame at or above the hint and moves the hint behind it |
| FrameAllocator.RequestMeaning | kernel/src/paging/page_frame_allocator.cpp:321-348 | null exactly if every frame from the hint to the end is used, and then nothing changes; else the lowest free frame there is locked, the counters move one page, and the hint is the frame behind it |
| FrameAllocator.PageFrameAllocator.RequestFreePages | kernel/src/paging/page_frame_allocator.cpp:357-409 | grants what the run request grants, never looking past the used frame at the end |
| FrameAllocator.RequestRunMeaning | kernel/src/paging/page_frame_allocator.cpp:357-409 | null exactly if no run of free frames starts at or above the hint; else the lowest such run is locked and nothing else, and the hint becomes the lowest remaining free frame |
| FrameAllocator.GrantsWereFree | kernel/src/paging/page_frame_allocator.cpp:321-409 | granted frames were free, at or above the hint and below the end; no other frame but an explicitly locked one becomes used; the hint does not fall |
| FrameAllocator.RunBalanced | kernel/src/paging/page_frame_allocator.cpp:221-409 | in every run the free counter is 4096 times the number of free bits and free plus used is the total |
| FrameAllocator.BelowHintNeverGranted | kernel/src/paging/page_frame_allocator.cpp:325-336 | after any run no call grants a frame below the hint the run started with |
| FrameAllocator.FreeKeepsHint | kernel/src/paging/page_frame_allocator.cpp:221-236 | a free keeps the hint a bound of the free frames exactly if the frame is at or above it, past the end, or free already |
| FrameAllocator.RequestFailsOnlyWhenFull | kernel/src/paging/page_frame_allocator.cpp:321-348 | in every run whose frees all are such when they are made, a request fails exactly if no frame is free |
| FrameAllocator.HarmfulFreeIsLost | kernel/src/paging/page_frame_allocator.cpp:325-336 | the frame of any other free is free and never granted again, and a request fails once the frames above the hint are used |
| FrameAllocator.RequestPops | kernel/src/paging/page_frame_allocator.cpp:321-348 | requests grant the free frames at or above the hint in ascending order |
| FrameAllocator.RequestsGrant | kernel/src/paging/page_frame_allocator.cpp:321-348 | n requests use up the first n free frames at or above the hint, and the next request grants the one after them |
| FrameAllocator.FreedIsGranted | kernel/src/paging/page_frame_allocator.cpp:221-348 | a used frame at or above the hint that is freed is granted again: by the request after as many as there are free frames between the hint and it |
| FrameInit.CountPages | kernel/src/paging/page_frame_allocator.cpp:93-105 | sums all pages and the conventional pages of the memory map |
| FrameInit.GapFreeFits | kernel/src/paging/page_frame_allocator.cpp:93-105 | in a memory map without gaps from frame 0 the pages counted reach the end of the last range, so every range lies below the end |
| FrameInit.FindBitmapFrame | kernel/src/paging/page_frame_allocator.cpp:93-154 | the place of the bitmap is the first largest conventional range in the higher half, or the first conventional range with room |
| FrameInit.BitmapFrameIs | kernel/src/paging/page_frame_allocator.cpp:119-154 | the bitmap goes to the first of the largest conventional ranges of the higher half; without one, to frame 0 if its alias is in the higher half, else to the first conventional range with room, else to frame 0 |
| FrameInit.BitmapPlaced | kernel/src/paging/page_frame_allocator.cpp:119-154 | if some conventional range of the higher half has room, all pages of the bitmap are conventional frames below the end |
| FrameInit.InitializeFromMemoryMap | kernel/src/paging/page_frame_allocator.cpp:83-219 | the whole set-up, in the order of the code and with the search for the place of the bitmap, leaves the initial state |
| FrameInit.InitBits | kernel/src/paging/page_frame_allocator.cpp:171-218 | for every memory map, free after set-up are exactly the conventional frames that have a bit and are outside the bitmap |
| FrameInit.InitHint | kernel/src/paging/page_frame_allocator.cpp:202-212 | the hint after set-up is the lowest conventional frame below the end, or 0 if there is none |
| FrameInit.InitBalancedExactly | kernel/src/paging/page_frame_allocator.cpp:93-105 | for every map of disjoint ranges the free counter exceeds the free frames by the conventional pages that have no bit, and is right exactly if there are none |
| FrameInit.HoleLosesFrames | kernel/src/paging/page_frame_allocator.cpp:99-133 | two ranges of n pages with a gap of n between them: the last page has no bit, and the counter is wrong |
| FrameInit.PastEndNeverGranted | kernel/src/paging/page_frame_allocator.cpp:325-336 | if the frame at the end is not conventional, no frame at or above the end is granted by any later call |
| FrameInit.InitFree | kernel/src/paging/page_frame_allocator.cpp:171-218 | if the conventional ranges are disjoint and below the end: free are exactly the conventional frames outside the bitmap, counters balance, the frame at the end is used, the hint bounds all free frames |
| FrameInit.BitmapBytesUsed | kernel/src/paging/page_frame_allocator.cpp:217-218 | after set-up every byte of the bitmap lies in a used frame |
| FrameInit.InitCounts | kernel/src/paging/page_frame_allocator.cpp:211-218 | free memory after set-up is the conventional memory less the bitmap's own pages |
| FrameInit.HeapNotReserved | kernel/src/memory/kheap.cpp:27-28 | a frame of the kernel heap past the bitmap's pages is free after set-up, and among those that requests grant, exactly if it is conventional |
| FrameInit.FirstGrantIsHeapFrame | kernel/src/memory/kheap.cpp:27-28 | where memory is one conventional range whose bitmap covers the heap, the first frame granted is a heap frame |
| FrameInit.FreedFrameNotGranted | kernel/src/paging/page_frame_allocator.cpp:321-348 | where memory is one conventional range of at least twice the kernel heap, set-up can run; the first frame granted, once freed, is granted by no later call |
| FrameInit.LockUsed | kernel/src/paging/page_frame_allocator.cpp:295-319 | locking frames that are all used changes nothing |
| FrameConcurrency.StepBits | kernel/src/paging/page_frame_allocator.cpp:221-260 | a step of any thread changes at most the bit its thread is updating, at the store of that update |
| FrameConcurrency.StepKeeps | kernel/src/paging/page_frame_allocator.cpp:221-409 | every step of every thread keeps: claimed frames are used, no frame is claimed twice, and what each thread has seen or loaded is still true |
| FrameConcurrency.NoFrameHeldTwice | kernel/src/paging/page_frame_allocator.cpp:321-409 | in every interleaving of requests and frees by owners no frame is held by two threads, and held frames are used |
| FrameConcurrency.NoUpdateLost | kernel/src/paging/page_frame_allocator.cpp:43-63 | in every interleaving a finished update of a bit has taken effect, and only the holder of the lock changes a bit |
| FrameConcurrency.StepBooks | kernel/src/paging/page_frame_allocator.cpp:230-233 | every step keeps the two counters tied to the bitmap, but for what the holder of the lock has yet to store |
| FrameConcurrency.NoCountLost | kernel/src/paging/page_frame_allocator.cpp:221-260 | in every interleaving, whenever no update is under way, the free counter has followed the free bits and free plus used is what it was |
| FrameAlone.RequestAlone | kernel/src/paging/page_frame_allocator.cpp:321-409 | from every reachable state with free locks, a request whose thread then runs alone comes to its end holding exactly the frames that the sequential request grants, with the bitmap, hint and counters that it leaves |
| FrameAlone.FreeAlone | kernel/src/paging/page_frame_allocator.cpp:221-236 | a free whose thread runs alone comes to its end and leaves the bitmap, hint and counters of the sequential free |
| FrameAlone.NoDeadlock | kernel/src/paging/page_frame_allocator.cpp:321-409 | in every interleaving, as long as some call is under way some thread can take its next step |
| HeapMemory.LittleDigits | kernel/src/memory/kheap.h:17-20 | reading back the bytes of a 64-bit field gives the number stored |
| HeapMemory.WriteShows | kernel/src/memory/kheap.h:9-21 | a store into one header leaves every header it does not overlap as it was |
| HeapChain.SplitTiled | kernel/src/memory/kheap.cpp:162-184 | a split always keeps the forward tiling |
| HeapChain.SplitBackExact | kernel/src/memory/kheap.cpp:172-181 | the code's split keeps back-links exact exactly if the segment is last; a repairing split always does |
| HeapChain.AbsorbTiled | kernel/src/memory/kheap.cpp:186-226 | a merge keeps the tiling exactly if the two segments are neighbours |
| HeapChain.AbsorbBackExact | kernel/src/memory/kheap.cpp:198-202 | merging neighbours keeps back-links exact |
| HeapChain.TiledSum | kernel/src/memory/kheap.cpp:22-39 | the sizes of a tiling add up to the heap size |
| KernelHeap.DynamicMemoryAllocator.constructor | kernel/src/memory/kheap.cpp:22-39 | one signed, free header over the whole range, nothing else written |
| KernelHeap.DynamicMemoryAllocator.FindFreeSegment | kernel/src/memory/kheap.cpp:148-160 | the first free segment of the chain that is large enough, or null |
| KernelHeap.DynamicMemoryAllocator.SplitSegment | kernel/src/memory/kheap.cpp:162-184 | the stores leave the chain with the segment cut in two, or refuse; only headers are written |
| KernelHeap.DynamicMemoryAllocator.MergeSegmentWithNext | kernel/src/memory/kheap.cpp:207-226 | the stores leave the chain with the successor absorbed; only headers are written |
| KernelHeap.DynamicMemoryAllocator.MergeSegmentWithPrevious | kernel/src/memory/kheap.cpp:186-205 | over any back-link that leads to memory: size and next link at that place and the back-link of the successor are rewritten; a segment of the chain that is named so absorbs this one and all between; the headers of the chain survive if the link is in the chain or its words are off all headers |
| KernelHeap.DynamicMemoryAllocator.Allocate | kernel/src/memory/kheap.cpp:41-67 | the first fit is split and marked used, or null and nothing changes; a tiling is kept and no payload byte changes |
| KernelHeap.DynamicMemoryAllocator.Free | kernel/src/memory/kheap.cpp:69-97 | a signed segment is freed and merged with its successor, then, if the free bit where its back-link leads is set, over that link; the headers of the chain survive if the link is in the chain, the bit is clear or the words are off all headers; a tiling is kept exactly if a link into the chain is harmless; an unsigned pointer changes nothing (`FreeUse`, `FreeGives` and `FreedBytesFree` say which bytes are free then) |
| KernelHeap.DynamicMemoryAllocator.Reallocate | kernel/src/memory/kheap.cpp:99-146 | null allocates; an unsigned pointer fails; a large enough block is cut in place; else the payload is copied to a new block and the old one freed over whatever its link then names, or nothing changes; a tiling is kept exactly if the freed block's link is harmless |
| KernelHeap.DynamicMemoryAllocator.StorePayload | kernel/src/memory/kheap.cpp:62-66 | an owner's store into a payload changes that byte and no header |
| HeapBytes.BitKnown | kernel/src/memory/kheap.cpp:88-91 | the free bit that a free reads where a back-link leads, also in the middle of a header, is determined by the chain and the memory before the call |
| HeapBytes.PrevTakenOver | kernel/src/memory/kheap.cpp:186-205 | the stores of a merge over any back-link leave a chain that its headers form, the named segment's or the relinked one, if the link is in the chain or its words are off all headers |
| HeapBytes.FreedChainIs | kernel/src/memory/kheap.cpp:83-94 | the chain after a free over any back-link is the one computed from the chain and that bit before |
| HeapBytes.HeaderHit | kernel/src/memory/kheap.cpp:186-199 | over a link out of the chain to a set free bit, with the size in the fields of a header, a free leaves a memory that does not show the chain |
| HeapCalls.FirstFit | kernel/src/memory/kheap.cpp:148-160 | the lowest index of a free segment of the wanted size |
| HeapCalls.FreeTiledExactly | kernel/src/memory/kheap.cpp:83-94 | with any back-link, in the chain or out of it, and any free bit there, a free keeps the tiling exactly if the link leads out of the chain, is empty, names a used segment or names the neighbour |
| HeapCalls.ReallocTiledExactly | kernel/src/memory/kheap.cpp:118-142 | a resize over any link keeps the tiling exactly if it moves nothing, or frees the old block over a link that is harmless after the allocation |
| HeapCalls.MoveHarmlessBefore | kernel/src/memory/kheap.cpp:118-142 | the same condition on the chain before the call: the link is harmless, or names the segment that the allocation splits |
| HeapCalls.StaleFreeTiled | kernel/src/memory/kheap.cpp:83-94 | a free over a link out of the chain keeps the tiling |
| HeapCalls.ExactHarmless | kernel/src/memory/kheap.cpp:83-142 | from exact back-links every free is harmless, and so is the free of a move whose allocation has just broken a link |
| HeapCalls.AllocExact | kernel/src/memory/kheap.cpp:41-67 | an allocation that splits the last segment, or repairs the link, keeps tiling and exact links |
| HeapCalls.FreeExact | kernel/src/memory/kheap.cpp:83-94 | from exact links a free keeps tiling and exact links |
| HeapCalls.FreeNoAdjacent | kernel/src/memory/kheap.cpp:83-94 | from exact links and no two free neighbours a free leaves no two free neighbours |
| HeapCalls.FreeUsed | kernel/src/memory/kheap.cpp:83-94 | a free over a harmless link keeps every other used segment |
| HeapCalls.ShrinkTail | kernel/src/memory/kheap.cpp:120-123 | shrinking leaves the block with its new size and the split-off tail marked used |
| HeapCalls.ShrinkOthers | kernel/src/memory/kheap.cpp:120-123 | shrinking keeps every other used segment |
| HeapCalls.ShrinkExact | kernel/src/memory/kheap.cpp:120-123 | a shrink that splits the last segment, or repairs the link, keeps tiling, exact links and free segments apart |
| HeapRuns.Call | kernel/src/memory/kheap.cpp:41-146 | every allocation, free, resize in place, copy and store on the object, over any back-link that leads to memory, is a step of the runs below; the object stays valid unless a free has written into a header |
| HeapRuns.CallGrow | kernel/src/memory/kheap.cpp:124-142 | a resize on the object that needs more room is three steps: an allocation, and if that succeeds a copy and a free |
| HeapRuns.OwnersCanCall | kernel/src/memory/kheap.cpp:41-146 | as long as back-links point below their own segments, right or wrong, every call on owned blocks meets what the object asks |
| HeapRuns.BlocksDisjoint | kernel/src/memory/kheap.cpp:41-67 | live payloads are pairwise disjoint and inside the heap |
| HeapRuns.StepKeeps | kernel/src/memory/kheap.cpp:41-146 | each safe call acts on the live blocks as on independent byte sequences; a returned address was no live block |
| HeapRuns.StepFromExact | kernel/src/memory/kheap.cpp:41-146 | from any state with exact back-links each call of the code as written keeps the tiling, the sum of sizes and every live block; a grown block starts with its old bytes |
| HeapRuns.GrowFromExact | kernel/src/memory/kheap.cpp:124-142 | from any state with exact back-links a resize that moves keeps the tiling, the sum of sizes and every other block; the block starts with its old bytes at a place that was no block |
| HeapRuns.StepSoundExactly | kernel/src/memory/kheap.cpp:41-146 | from any sound state, right links or wrong, a call of the code keeps tiling, headers and live blocks exactly if it is safe; a free must be decided: it reads a clear free bit, or its words are off all headers, or its size lies in the fields of a header |
| HeapRuns.GrowSoundExactly | kernel/src/memory/kheap.cpp:124-142 | from any sound state a resize that moves keeps tiling, headers and live blocks exactly if its free is safe after the allocation and the copy |
| HeapRuns.DecidedUnlessCut | kernel/src/memory/kheap.cpp:186-202 | where back-links point below, every free is decided unless it reads a set free bit and its two words cut the border of a header |
| HeapRuns.RunRefinesBlocks | kernel/src/memory/kheap.cpp:41-226 | in every run of safe calls the chain tiles the heap, sizes add up, and every live block holds exactly what its owner last stored |
| HeapRuns.RunKeepsBelow | kernel/src/memory/kheap.cpp:41-226 | in every run, safe or not, every back-link stays below its own segment |
| HeapRuns.FirstUnsafeCall | kernel/src/memory/kheap.cpp:41-226 | after any run of safe calls the next call keeps tiling, headers and live blocks exactly if it is safe, unless its two words cut the border of a header |
| HeapRuns.ExactRunIsSafe | kernel/src/memory/kheap.cpp:41-226 | every run with a repairing split, and every run of the code that splits only the last segment, is safe and keeps exact links and no two free neighbours |
| HeapRuns.InterleavedMove | kernel/src/memory/kheap.cpp:124-142 | the copy of a move goes byte by byte, in any order, between any safe calls of other owners; once all bytes are copied the new block starts with the bytes of the old one, also after the free |
| HeapRuns.NewHeap | kernel/src/memory/kheap.cpp:22-39 | a new heap satisfies the invariant of those runs |
| HeapRuns.FreeUndoesAllocate | kernel/src/memory/kheap.cpp:41-97 | freeing a fresh block restores the chain, back-links included, whichever split was used |
| HeapUse.AllocUse | kernel/src/memory/kheap.cpp:41-67 | a successful allocation makes used exactly one more segment, at the returned block and of its size |
| HeapUse.FreeUse | kernel/src/memory/kheap.cpp:83-94 | after a free, unless its link names a free segment other than the neighbour, the used segments are exactly those that were used but for the freed one |
| HeapUse.FreeGives | kernel/src/memory/kheap.cpp:83-94 | such a free adds exactly the size of the segment to the free bytes, whatever it merges with |
| HeapUse.FreedBytesFree | kernel/src/memory/kheap.cpp:83-94 | after such a free every byte of the freed segment lies in a free segment |
| HeapUse.ShrinkUse | kernel/src/memory/kheap.cpp:118-123 | a shrink that splits leaves used exactly the block with its new size, the tail behind it, and what else was used |
| HeapUse.StepAccounts | kernel/src/memory/kheap.cpp:41-146 | every safe call keeps the account: a segment is used exactly if it is a live block with its header or a tail of a shrink |
| HeapUse.RunAccounts | kernel/src/memory/kheap.cpp:41-226 | so it is after every run of safe calls |
| HeapUse.RunCosts | kernel/src/memory/kheap.cpp:41-226 | in every run of safe calls each allocation takes header and size from the free bytes, each free gives header and size of its block back, and no other call changes them |
| HeapUse.TailsStay | kernel/src/memory/kheap.cpp:118-123 | a tail of a shrink stays used in every later run of safe calls |
| HeapFaults.AllocFailsExactly | kernel/src/memory/kheap.cpp:47-57 | an allocation fails exactly if no free segment fits, or the first that the search admits is within two bytes of the bound |
| HeapFaults.HugeRequestWraps | kernel/src/memory/kheap.cpp:44-47 | the searched size is the request and two headers exactly if that fits 64 bits, and else less than two headers |
| HeapFaults.AllocateHuge | kernel/src/memory/kheap.cpp:41-67 | one of the 64 largest requests is granted the first free segment with a few bytes; after its stores no chain in memory has that segment; else null and nothing changes |
| HeapFaults.CarryOut | kernel/src/memory/kheap.cpp:22-97 | calls planned with the chains they must leave, made on a new heap, are a run through those chains |
| HeapFaults.LargerSegmentIgnored | kernel/src/memory/kheap.cpp:47-57 | four calls on a new heap, the last of which fails although a later segment would serve it |
| HeapFaults.LiveBlockLost | kernel/src/memory/kheap.cpp:172-205 | eight calls on a new heap after which a live block is not in the chain, the chain does not tile the heap, and two live blocks overlap |
| HeapFaults.LiveBlockWritten | kernel/src/memory/kheap.cpp:186-202 | eleven calls on a new heap, the last of which frees one block and changes the bytes of another |
| HeapFaults.StoreSpoils | kernel/src/memory/kheap.cpp:186-199 | whenever a back-link leads off all headers into the block of another owner, a store by that owner and the free change that owner's bytes |
| HeapFaults.HitExactly | kernel/src/memory/kheap.cpp:186-199 | a free whose back-link leads into the fields of a header keeps everything or destroys that header, by the free bit it reads there |
| HeapFaults.HeaderDestroyed | kernel/src/memory/kheap.cpp:186-199 | nine calls on a new heap that keep all blocks; the tenth, a free by an owner, destroys a header of the chain exactly if bit 8 of an address of the heap is set |
| HeapFaults.KernelHeapBit | kernel/src/paging/page_frame_allocator.cpp:157-161 | the heap starts behind a bitmap that starts at a page: with a multiple of 4096 frames that bit is set |
| AlignedBlocks.ClearLowRoundsDown | kernel/src/memory/kmemory.cpp:215-217 | masking with a power of two gives the last multiple of it |
| AlignedBlocks.RoomForAligned | kernel/src/memory/kmemory.cpp:215-220 | the aligned part is a multiple of the alignment and leaves room for the kept address in front and for the block behind |
| AlignedBlocks.AllocateAligned | kernel/src/memory/kmemory.cpp:209-223 | the aligned part of a larger block, with that block's address right in front and no other payload byte changed; null exactly if the larger block is not to be had |
| AlignedBlocks.FreeAligned | kernel/src/memory/kmemory.cpp:232-240 | frees the block whose address is kept in front, over any back-link that leads to memory; null, and an address without a signed header in front, change nothing |
| AlignedBlocks.AlignedRoundTrip | kernel/src/memory/kmemory.cpp:209-240 | from exact links and no two free neighbours, allocating aligned and freeing by the aligned pointer restores the chain |
| Scheduler.ContextRoundTrip | kernel/src/process/process.cpp:9-61 | saving and restoring are inverse on all 24 registers |
| Scheduler.SwitchMoves | kernel/src/process/process.cpp:67-88 | after a switch the block left holds each of the 24 registers of the interrupted frame under its own name, with page table and kernel stack; the frame returned to holds those of the block switched to; no other block changes |
| Scheduler.NextIndex | kernel/src/sched/sched.cpp:94-121 | a valid index, never the swapper once there is a second task |
| Scheduler.NextIndexByRemainder | kernel/src/sched/sched.cpp:110-118 | the step equals the remainder computation of the code |
| Scheduler.CpuCore.AddToQueue | kernel/src/sched/sched.cpp:30-39 | appends the task, whose block is kept as given, or refuses and changes nothing exactly if 128 are queued |
| Scheduler.CpuCore.RemoveFromQueue | kernel/src/sched/sched.cpp:41-62 | removes the first task with the pid, moves the index to the last task and touches no block; refuses pid 0 and unknown pids |
| Scheduler.CpuCore.ScheduleNextTask | kernel/src/sched/sched.cpp:76-92 | the index moves to the next task, the task left is marked ready and the next one running, and of no block anything else changes; nothing changes if there is no other task |
| Scheduler.CpuCore.SwitchContextInIrq | kernel/src/process/process.cpp:67-88 | each of the 24 registers, the page table and the kernel stack go into the block of one task under their own names, those of the other block are loaded the same way, and nothing else changes |
| Scheduler.CpuCore.TimerIrq | kernel/src/interrupts/interrupts.cpp:85-101 | the tick: exactly if the next task is another one, the interrupted registers are in the block of the task left, which is ready, and the registers of the next task, which is running, are loaded |
| Scheduler.CpuCore.ExitKernelThread | kernel/src/sched/sched.cpp:302-335 | the exiting task leaves the queue, the queue schedules, and the CPU goes on with the registers of the task chosen before |
| Scheduler.CpuCore.ExitAndSwitchCurrentContext | kernel/src/process/process.cpp:90-105 | loads registers, page table and kernel stack of the task and saves nothing |
| Scheduler.TickMoves | kernel/src/interrupts/interrupts.cpp:91-99 | a tick to another task: the block left holds exactly what the CPU had and is ready, the CPU holds exactly what the block of the next task had, which is running, every other block is unchanged |
| Scheduler.ExitMoves | kernel/src/sched/sched.cpp:302-335 | an exit takes the task out of the queue and loads the block of the next one, or of the swapper if it was alone; blocks change in their states only |
| Scheduler.TickKeeps | kernel/src/interrupts/interrupts.cpp:91-99 | a tick keeps the queue well-formed and keeps queue and CPU in agreement |
| Scheduler.ExitIndex | kernel/src/sched/sched.cpp:328-334 | after an exit the queue stands at its second task, or at the lone swapper |
| Scheduler.ExitAgreement | kernel/src/sched/sched.cpp:313-334 | queue and CPU agree after an exit exactly if the exiting index was 1 or the last |
| Scheduler.DisagreementLosesContext | kernel/src/sched/sched.cpp:328-334 | after any other exit the next tick stores all 24 registers of the running task in another task's block and leaves its own block stale |
| Scheduler.DisagreementReached | kernel/src/sched/sched.cpp:313-334 | from a new queue, three additions, two ticks and an exit lead to disagreement |
| Scheduler.ExitMarksRunning | kernel/src/sched/sched.cpp:313-334 | after an exit the queue's current task is marked running exactly if at least three tasks are left |
| Scheduler.TickWithAddAgreement | kernel/src/interrupts/interrupts.cpp:91-99 | a task added between switch and scheduling breaks agreement exactly if the queue has at least three tasks, is not full and stands at its last index |
| Scheduler.ResumeExact | kernel/src/process/process.cpp:67-105 | after any run of ticks, additions, agreeing exits and register changes by others, a preempted task is resumed with exactly its 24 registers, page table and kernel stack |
| Scheduler.StartsFromBlock | kernel/src/process/process.cpp:67-105 | a task added with a block starts, after any run of ticks, additions, agreeing exits and register changes, with the 24 registers, page table and kernel stack of that block |
| Scheduler.EveryTaskRuns | kernel/src/sched/sched.cpp:94-121 | with tasks only added, every task but the swapper becomes current within 127 ticks |
| Scheduler.RunOneRunning | kernel/src/sched/sched.cpp:76-92 | in every run of ticks, additions and exits at most one queued task is marked running, the current one |
| Scheduler.RunKeepsReady | kernel/src/sched/sched.cpp:76-92 | if every queued task but the current one is ready, so it is after every run of ticks, additions and exits |
| Scheduler.GetNextAvailableCpu | kernel/src/sched/sched.cpp:253-266 | the first CPU with the fewest queued tasks |
| EventRing.XhciEventRing.HasUnprocessedEvents | kernel/src/drivers/usb/xhci.cpp:321-323 | true exactly if an event is outstanding |
| EventRing.XhciEventRing.DequeueTrb | kernel/src/drivers/usb/xhci.cpp:353-369 | returns the oldest outstanding event, or fails and changes nothing exactly if there is none |
| EventRing.XhciEventRing.DequeueEvents | kernel/src/drivers/usb/xhci.cpp:325-336 | returns all outstanding events in order, at most 255, and acknowledges them; what it does is a run of exactly the driver's steps below, one drain with nothing produced in between |
| EventRing.XhciEventRing.UpdateErdp | kernel/src/drivers/usb/xhci.cpp:348-351 | the last step of a drain: the register names the entry behind the last event read |
| EventRing.CycleTest | kernel/src/drivers/usb/xhci.cpp:321-323 | the cycle bit at the dequeue pointer matches exactly if an event is outstanding, and then the entry holds it |
| EventRing.StepKeeps | kernel/src/drivers/usb/xhci.cpp:321-369 | every step of driver and controller keeps pointers, cycle states and ring contents tied to the events produced and read |
| EventRing.DriverReadsWhatWasProduced | kernel/src/drivers/usb/xhci.cpp:325-369 | in every interleaving the driver has read a prefix of the events produced, stops exactly when none is left, never meets an invalid entry, and one drain reads at most 255 (`DrainEnds` and `DrainReadsAll` show that it reads) |
| EventRing.DrainEnds | kernel/src/drivers/usb/xhci.cpp:325-336 | in every interleaving the driver can always take its next step, and a drain acknowledges within 514 steps of the driver |
| EventRing.DrainReadsAll | kernel/src/drivers/usb/xhci.cpp:325-369 | a drain reads every event produced before its last look at the ring, and acknowledges exactly what was read: the register names the entry behind it |
| EventRing.QuietDrainReadsAll | kernel/src/drivers/usb/xhci.cpp:325-369 | if nothing is produced during a drain, everything produced has been read at its end |
| EventRing.PointersStayValid | kernel/src/drivers/usb/xhci.cpp:360-368 | a returned entry still holds its event until the controller is a full lap ahead |
| ProducerRing.XhciRing.constructor | kernel/src/drivers/usb/xhci.cpp:230-253 | a blank ring with a link in entry 255 |
| ProducerRing.XhciRing.EnqueueTrb | kernel/src/drivers/usb/xhci.cpp:255-268 | the ring is the one after one more enqueue |
| ProducerRing.ProducedState | kernel/src/drivers/usb/xhci.cpp:398-411 | after k enqueues the pointer is k mod 255, the cycle bit flips every 255, the link is untouched and every entry holds its latest item with its lap's bit |
| ProducerRing.FifoUpTo254 | kernel/src/drivers/usb/xhci.cpp:255-268 | in every schedule with at most 254 enqueues the controller consumes items 0, 1, 2, ... and stops exactly when none is left |
| ProducerRing.FifoExactly | kernel/src/drivers/usb/xhci.cpp:250-252 | in all schedules of up to k enqueues the controller consumes items 0, 1, 2, ... each once and stops exactly when none is left, exactly if k is at most 254 |
| ProducerRing.ItemZeroAgain | kernel/src/drivers/usb/xhci.cpp:250-252 | after 255 enqueues the controller follows the untoggled link and consumes item 0 twice |
| ProducerRing.OddLapsAreInvisible | kernel/src/drivers/usb/xhci.cpp:393-411 | in no schedule does the controller consume an item of an odd lap |
| ByteMemory.Memcpy | kernel/src/memory/kmemory.cpp:17-49 | through all phases the destination ends as the source was and nothing else changes |
| ByteMemory.Memmove | kernel/src/memory/kmemory.cpp:51-96 | the same for every overlap and every alignment |
| ByteMemory.Memcmp | kernel/src/memory/kmemory.cpp:98-144 | 0 exactly if the bytes agree, else the difference at the first that do not |
| ByteMemory.Memset | kernel/src/memory/kmemory.cpp:147-178 | exactly the bytes of the range hold the value |
| ByteMemory.Strlen | kernel/src/core/kstring.cpp:107-138 | the distance to the first zero byte, for every alignment, reading nothing past the aligned word of the terminator |
| Words.BytesOfWord | kernel/src/memory/kmemory.cpp:37-40 | storing a loaded word writes the bytes that were loaded |
| Words.PatternBytes | kernel/src/memory/kmemory.cpp:157-161 | every byte of the fill pattern is the fill byte |
| Words.ZeroByteTest | kernel/src/core/kstring.cpp:123-124 | the borrow test is nonzero exactly if some byte of the word is zero |

## Left out

- KernelHeap.DynamicMemoryAllocator.Free: what becomes of the headers if a set free bit is read and the two words cut the border of a header of the chain.
- KernelHeap.DynamicMemoryAllocator.Reallocate: resizing a free segment.
- KernelHeap.DynamicMemoryAllocator.Allocate: the 64 request sizes whose two headers overflow 64 bits; `AllocateHuge` models these.
- HeapRuns.StepSoundExactly: the frees of the first line, which are not decided (`DecidedUnlessCut`).
- HeapRuns.RunRefinesBlocks: runs with an unsafe call; `StepSoundExactly` shows that a decided call that is unsafe never keeps the blocks. The repairing split exists in the model only.
- HeapFaults.AllocateHuge: a heap that starts in the first 32 bytes of memory, where the new header would wrap.
- FrameInit.InitializeFromMemoryMap: the user bits set on the way. The code's test of the end of a range in the higher half is always true in 64 bits and is left away.
- FrameBitmap.PageFrameBitmap.SetPageValue: the index one past the last bit is excluded, because its byte is outside the buffer (`GuardOffByOne`).
- FrameConcurrency.StepKeeps: `lockPhysicalPage` called from outside a request; memory ordering of the spinlocks (acquire and release are atomic steps).
- FrameAllocator.PageFrameAllocator.RequestFreePages: states in which the frame at the end counts as free, where the search looks past the end; set-up leaves it used.
- KernelPaging.TableMemory.MapPage: running out of frames in the middle of a mapping.
- BootPaging.LowTranslates: memory and framebuffer below root entry 511, and an offset that leads into that entry, as the kernel is linked.
- BootPaging.LeafPrivilegeLevel: the section array is read before the check for -1 in the code; the value is not used, so the check comes first here.
- ByteMemory.Memcpy: overlapping regions with the destination behind the source, which only `memmove` supports.
- Scheduler.ResumeExact: ticks and exits are atomic; the assembly entry paths, `swapgs` and interrupts inside the kernel are not modelled.
- Scheduler.ExitAgreement: exits of the swapper itself (index 0), which the code rules out by a comment.
- `changePageAttribs`, `markPage...`, TLB flushes and cr3 writes: single-entry stores and hardware effects.
- `_allocXhciMemory`, registers, ports and commands of the xHCI driver: device access with timing.
- `lltoa`, `kstl::string`, `kstl::vector`: they would only add easy members; the run queue's vector is a sequence.
- ACPI, PCI, APIC, GDT, IDT, display, serial ports, boot file and font loading: hardware set-up and input/output.
