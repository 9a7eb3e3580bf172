# A verified model of the user-level kernel

The repository's `tmp2/` directory is a small kernel inside one process. Its threads are scheduled first come first
served, with mutexes that are handed over to the first waiter, and with join. Below them lies a demand-paged memory: one
window of virtual addresses, one pool of frames and one swap file serve the private memories of all threads. Above the
paging each thread has a slab allocator for its heap. `Benchmark/parallelCal.c` is a client: its worker threads add into
one sum under a mutex.

This project models those parts and proves what they are for.

- **Paging** (`PteWords`, `Paging`, `PagingInvariant`, `PagingRefinement`, `PagingRuns`, `PagingEffects`,
  `PagingCapacity`, `LastByte`). `Paging.Vm` is the whole paging
  state, with symbolic numbers of pages (V), frames (P) and slots (S), V <= P, and each routine of `virt.c` and `swap.c`
  is a function on it. The reference is `PagingRuns.SpecStep`: one private zero-initialised memory per thread. Main
  result: `PagingRuns.Transparency`, over all runs. `PagingEffects` says of each routine which place it takes and what it
  changes, and that it changes nothing else. `PagingCapacity` counts frames and slots, leaked ones included, and
  `LastByte` has two runs that go wrong.
- **The same routines in place** (`SwapFile`, `VirtualMemory`). Classes with the program's arrays, page-table words with
  overlapping bit fields, and its loops; every method's new state is that of the function in `Paging`.
- **Threads** (`Scheduling`, `SchedulingInvariant`, `SchedulingRuns`, `SchedulingEffects`, `SchedulingLimits`). `Scheduling.Sched` holds CURRENT, the two queues
  and the slot table that mutexes and thread ids share, plus who owns each slot and where it stands in a locking order.
  Main results: no deadlock and exact counts in every reachable state, mutual exclusion, bounded FIFO waiting, FIFO
  hand-over, join. `SchedulingEffects` has what each call returns and changes, in any state. `SchedulingLimits` has the conditions under which the calls do less than they promise, with a run for
  each. `Scheduler` has the calls in place, and `TailQueues` the queue operations on the links.
- **The allocator** (`Heap`, `HeapProofs`, `HeapBytes`, `HeapMemory`, `HeapEffects`, `ThreadHeap`). Blocks are disjoint and large enough
  over any run of requests and releases, free undoes malloc, malloc is complete. The 53 records are bytes 0 to 4027 of the
  first page of the thread's heap: `HeapBytes` has their layout, the loads and stores of `_malloc` and `_free`, and what
  those make of the records; `HeapMemory` makes them accesses of the pager, and `HeapEffects` holds them against the
  struct and the constants of `my_malloc.c`. In `ThreadHeap` the code runs in place over
  the pager, and each load and store of a record may fault, evict and stop the process.
- **The whole** (`KernelView`, `Kernel`). Scheduler, pager and allocators together. `KernelViews.View` has a private
  memory per thread; the paged `Kernels.Kernel` refines it in every run. In every reachable state a thread's pages are
  its metadata page and its trunks, wherever they are, and the bytes of the metadata page read as the heap that the
  thread's own requests and releases make. A byte of a live block changes only by its owner's writes.
- **The client** (`MutexClient`, `ParallelCal`, `ParallelRuns`, `ParallelProgress`, `ParallelMain`). Every interleaving
  of the workers computes the sum that the sequential loop computes. `ParallelMain` closes the program: main creates
  and joins the workers and prints; every call is in order, no state is a deadlock, the print comes after exactly as many
  steps as are left, and what it prints is verify's sum.

`Util` holds sequences, filters and counting.

## What is assumed of the callers

These are preconditions (`Legal` in each module), because the code needs them.

- A library call is one step, and timer interrupts fall between calls. The test and the increment in
  `tmp2/my_pthread.c:428-432` are not protected against one.
- The main thread's control block starts zeroed; `tmp2/my_pthread.c:246-255` allocates it without clearing it.
- `my_pthread_create` finds a free slot; the -1 of `alloc_mutex` is not looked at in `tmp2/my_pthread.c:328-330`.
  `ParallelMain.SlotIsFree` proves it of the benchmark.
- A call that may block names a slot that is above every slot its caller owns in some order of the slots (a thread owns
  its own thread id). Lock is used on mutexes and join on threads.
- At most one thread joins each thread. `ExitWakesAllIffOneJoiner` and `SecondJoinerIsLeft` show what happens otherwise, and
  `TailQueues.ReleaseAllThread` why: the walk over the wait queue continues from a link that has just been cleared.
- Only the owner unlocks a mutex, a thread ends holding none, and a mutex is destroyed when its count is 0.
- Threads touch only pages that they allocated. A new thread starts in `thread_stub` without `mm_switch_virtual_pages`
  (`tmp2/my_pthread.c:145-147`, `tmp2/my_pthread.c:263-267`), so pages of the thread before it are still open to it
  (`FirstDispatchLeavesPagesOpen`).
- Clients of the allocator leave the metadata page to it: their own accesses are to their trunks.
- Heap requests are of 1 to 512 bytes and at most 53 trunks are used. Other sizes still take a trunk
  (`UnservedRequestGrows`), and a 54th record would leave the metadata page (`MetadataFitsOnePage`). Releases are of
  pointers into the trunks of an initialised heap.

## Where the code falls short of what it is for

- The page-fault handler takes addresses below `VIRTUAL_HEAP_END`, which is the address of the last byte of the heap
  (`tmp2/virt.h:19`, `tmp2/virt.c:34`). Touching that byte while its page is swapped out kills the process.
  `TouchRefines` and `StepRefines` prove that this is the one access that fails. `LastByteIsLost` is such a run for all
  V <= P < 2V and S >= 2, `LastByteIsLostAsShipped` for the sizes of `virt.h` and `swap.c`.
- A contended lock with no other thread ready lets the caller through (`tmp2/my_pthread.c:158-160`).
  `ContendedLockIsExact` says when, `SecondLockGoesOn` and `OppositeLocksGoOn` are runs in which it happens, and
  `ContentionFindsReadyThread` proves that it never happens in the locking order.
- `README_assignment_1.md:63-65` says that destroying a mutex checks whether it is held. The code does not check.
  `DestroyIsExact`: it takes the mutex from somebody if and only if the count is above 0. `DestroyedWhileHeld` is a run
  in which a second thread then locks the handle that the first still holds.
- The slots of an exited thread's swapped-out pages stay marked for ever (`tmp2/virt.c:371`). They are the `leaked` set:
  `StepLeaks` and `LeaksStay` prove that it only grows, `ExitReturnsAllIff` that an exit gives back everything if and only
  if none of its pages is swapped out, and `ExitLeaks` is a run that leaks. `SlotCountIsExact` and `CapacityIsExact` count
  the leaked slots.
- The call of `mm_switch_virtual_pages` after `setcontext` (`tmp2/my_pthread.c:127-129`) is never reached. A resumed
  thread runs the one after its own `swapcontext`, and the model follows that.
- The handle checks index the table before they test the bound (`tmp2/my_pthread.c:363-367` and likewise in lock, unlock
  and destroy). Both outcomes are -1, which is what the model returns for a handle out of range.

## Model

| member | source | states |
|---|---|---|
| `PteWords.RoundToPageIsLeast` | tmp2/virt.h:6-7 | the rounding macro yields the least multiple of the page size not below its argument |
| `PteWords.PageCounts` | tmp2/virt.h:10-44 | the shipped constants give 2044 pages, 2048 frames and 4096 slots, so a thread's pages fit the pool; the heap's end constant is one below its size |
| `PteWords.PteIndex` | tmp2/virt.h:83 | the index is that of the page that contains the address |
| `PteWords.HeapAddressesHaveEntries` | tmp2/virt.h:18-24 | an address is in the heap if and only if its index is in the page table |
| `PteWords.CutIsExact` | tmp2/virt.h:60-81 | the two bit-field views overlap as binary digits of one 32-bit word, and only the zero word has `Long == 0` |
| `PteWords.ResidentWord` | tmp2/virt.c:345-346 | a stored frame number reads back, as valid and not zero, for every frame below 2^20 |
| `PteWords.SwappedWord` | tmp2/virt.c:251-253 | a stored slot offset reads back, as swapped out and not zero even at offset 0 |
| `PteWords.RoundTrip` | tmp2/virt.h:60-81 | decoding recovers the state that was stored, so the three states never coincide and `Long == 0` means never allocated |
| `PteWords.TransitionsKeepWords` | tmp2/virt.c:48-51 | the stores of allocate, evict and swap-in lead from the word of one state to the word of the next |
| `PteWords.FramesRoundTrip` | tmp2/virt.h:67-72 | over any word, a frame number survives if and only if it is below 2^20 |
| `PteWords.FilePositionsRoundTrip` | tmp2/virt.h:60-64 | over any word, a file offset survives if and only if it is below 2^30, and the result is neither valid nor zero |
| `PteWords.SlotOffset` | tmp2/swap.c:93-95 | a slot's offset is a whole number of pages through the field cut, so the slot is recovered |
| `PteWords.FieldStores` | tmp2/virt.h:60-81 | a store into a bit field changes the bits of that field of the 32-bit word and no others |
| `PteWords.StoresInBits` | tmp2/virt.c:48-51 | the three sequences of stores on any word, bit by bit: allocate keeps the bits between the valid bit and the frame number, the other two overwrite all |
| `PteWords.DecodeInBits` | tmp2/virt.c:37-38 | which bits make a word valid or swapped out, and where its numbers are |
| `SwapFiles.SwapFile.constructor` | tmp2/swap.c:20-39 | all slots clear, file of zeros |
| `SwapFiles.SwapFile.SwapOut` | tmp2/swap.c:44-84 | stops exactly when all slots are taken; else the first clear slot is marked, counted and holds the page, nothing else changes, and the assert on the found slot holds |
| `SwapFiles.SwapFile.SwapIn` | tmp2/swap.c:87-118 | the slot's bytes arrive in the buffer page, the slot alone is cleared, the count stays exact |
| `VirtualMemories.DecodedFields` | tmp2/virt.c:37-51 | what the handler and the scans read off a word tells the three states apart with their numbers |
| `VirtualMemories.VirtualMemory.constructor` | tmp2/virt.c:77-153 | the initial paging state of the main thread |
| `VirtualMemories.VirtualMemory.ScanForeign` | tmp2/virt.c:233-239 | the outer scan finds the first used frame of another thread |
| `VirtualMemories.VirtualMemory.ScanEntry` | tmp2/virt.c:247-250 | the inner scan, on the words, finds the first entry that names the frame |
| `VirtualMemories.VirtualMemory.ScanUnused` | tmp2/virt.c:300-301 | the scan finds the first unused frame |
| `VirtualMemories.VirtualMemory.ScanZero` | tmp2/virt.c:339-341 | the scan, on the words, finds the first never-allocated entry |
| `VirtualMemories.VirtualMemory.Displace` | tmp2/virt.c:247-263 | the owner's word becomes a swapped-out word over its frame number and the frame passes to CURRENT |
| `VirtualMemories.VirtualMemory.SwapFrameOut` | tmp2/virt.c:241-245 | a frame's bytes go to a slot; stops exactly when the file is full |
| `VirtualMemories.VirtualMemory.EvictPage` | tmp2/virt.c:224-272 | evict_page in place is the specified eviction, its out-of-range result with no foreign frame included |
| `VirtualMemories.VirtualMemory.AllocateFrame` | tmp2/virt.c:287-313 | allocate_physical_page in place is the specified allocation; the panic after the scan is unreachable |
| `VirtualMemories.VirtualMemory.EnterPage` | tmp2/virt.c:345-350 | the entry names the frame, the page is open, no other thread's table changes |
| `VirtualMemories.VirtualMemory.GivePage` | tmp2/virt.c:345-351 | the two bit-field stores on a zero word, the protection and the clearing give a zero page in that frame |
| `VirtualMemories.VirtualMemory.AllocatePage` | tmp2/virt.c:334-360 | mm_allocate_page in place is the specified allocation, with its NULL and its stop |
| `VirtualMemories.VirtualMemory.SwapPageIn` | tmp2/virt.c:48-53 | with an unnamed frame and a swapped-out entry both asserts of swap_in hold: the handler reads the offset before it clears the word, and the page is in the window |
| `VirtualMemories.VirtualMemory.HandleFault` | tmp2/virt.c:23-75 | pagefault_handler in place is the specified handler, with its three outcomes |
| `VirtualMemories.VirtualMemory.StoreVirtualPagesBack` | tmp2/virt.c:157-181 | the loop leaves in the frames exactly the specified copies |
| `VirtualMemories.VirtualMemory.SwitchVirtualPages` | tmp2/virt.c:184-219 | the loop leaves the window and the protections exactly as specified |
| `VirtualMemories.VirtualMemory.SwitchTo` | tmp2/my_pthread.c:131-148 | the paging half of a context switch, with and without the load at the end |
| `VirtualMemories.VirtualMemory.DispatchTo` | tmp2/my_pthread.c:117-129 | the paging half of the dispatch after an exit |
| `VirtualMemories.VirtualMemory.CreateThread` | tmp2/my_pthread.c:76-99 | a new control block has an all-zero page table |
| `VirtualMemories.VirtualMemory.FreePhysicalPage` | tmp2/virt.c:315-331 | frees one used frame and counts it; anything else is ignored |
| `VirtualMemories.VirtualMemory.FreeThreadPages` | tmp2/virt.c:362-374 | the loop frees the resident entries' frames and zeroes those entries; the swapped-out entries stay |
| `VirtualMemories.VirtualMemory.ExitThread` | tmp2/my_pthread.c:276-282 | the paging half of an exit, control block included |
| `PagingInvariant.FrameIsNamedOnce` | tmp2/virt.c:247-263 | a frame is used if and only if a valid entry of a live thread names it, then exactly one does, of the frame's thread |
| `PagingInvariant.SlotIsNamedOnce` | tmp2/swap.c:44-118 | a slot is marked if and only if it is leaked or a swapped-out entry of a live thread names it, never both, and then exactly one |
| `PagingInvariant.EvictionFindsForeignFrame` | tmp2/virt.c:233-239 | by pigeonhole: with all frames used, a thread with a page not resident cannot own them all |
| `PagingInvariant.OwningAllFramesFillsTheTable` | tmp2/virt.h:24-44 | a table of V <= P entries that names all P frames has only valid entries |
| `PagingInvariant.EvictPageResult` | tmp2/virt.c:224-272 | eviction is total: it finds a foreign frame below P, the entry that names it and a clear slot |
| `PagingInvariant.EvictedKeepsInv` | tmp2/virt.c:247-263 | after an eviction frames and slots are again named one to one, but for the frame handed out |
| `PagingInvariant.EvictedKeepsContent` | tmp2/virt.c:241-253 | an eviction changes no thread's bytes |
| `PagingInvariant.AllocateFrameKeeps` | tmp2/virt.c:287-313 | stops exactly when frames and slots are all taken; else the frame is named by nobody and no bytes changed |
| `PagingRefinement.AllocatePageRefines` | tmp2/virt.c:334-360 | the thread gets its first page not in use, full of zeros, or NULL with nothing changed; nobody else's bytes change |
| `PagingRefinement.SwapPageInContent` | tmp2/virt.c:48-53 | the slot read is the one the page was written to: a swap-in changes no bytes, not even when its frame came from an eviction |
| `PagingRefinement.FaultRefines` | tmp2/virt.c:36-66 | below the heap's end a fault on an allocated page brings back the bytes or stops exactly when everything is full |
| `PagingRefinement.StoredBackAt` | tmp2/virt.c:160-178 | each resident page ends up in its own frame, and no other frame changes |
| `PagingRefinement.StoreBackSyncs` | tmp2/virt.c:157-181 | afterwards CURRENT's frames equal the window, and nobody's bytes have changed |
| `PagingRefinement.ResumeContent` | tmp2/my_pthread.c:138-147 | resuming a thread, new or not, moves no bytes once the old thread's frames are synced |
| `PagingRefinement.SwitchedInPagesAreExact` | tmp2/virt.c:187-215 | a thread switched in has exactly its resident pages open, and touching a page it never allocated is a SIGSEGV |
| `PagingRefinement.CreateRefines` | tmp2/my_pthread.c:306-335 | a new thread starts with an empty memory, the others keep theirs |
| `PagingRefinement.FreedFramesAt` | tmp2/virt.c:362-374 | exactly the frames that the table names are freed, and the count follows |
| `PagingRefinement.ExitKeepsSlots` | tmp2/virt.c:366-373 | the exiting thread's slots join the leaked ones, disjoint from all that is still named |
| `PagingRefinement.ExitRefines` | tmp2/my_pthread.c:350-359 | an exit removes the thread's memory and nobody else's |
| `PagingRuns.AllocateStep` | tmp2/virt.c:334-360 | the page returned is the first page not in use of the private memory; stops exactly when a frame is needed and all is full |
| `PagingRuns.TouchRefines` | tmp2/virt.c:34-68 | an access to an allocated page sees its bytes; it stops exactly when the page is out and all is full, and crashes exactly on the heap's last byte while its page is out |
| `PagingRuns.SwitchStep` | tmp2/my_pthread.c:131-148 | a context switch changes who runs and no memory |
| `PagingRuns.StepRefines` | tmp2/virt.c:23-374 | every event is the same event on the private memories with the same reply, or a stop or a crash under exact conditions |
| `PagingRuns.Transparency` | tmp2/virt.c:23-374 | over every run each thread reads what it last wrote to a private zero-initialised memory; the two escapes are exact |
| `PagingRuns.InitRefines` | tmp2/virt.c:77-153 | the initial state satisfies the invariant and stands for one empty memory |
| `PagingEffects.SwapOutEffect` | tmp2/swap.c:44-84 | in any state the first clear slot is taken, and nothing but its mark, its page in the file and the count changes; it fails exactly when there is none |
| `PagingEffects.SwapInEffect` | tmp2/swap.c:87-118 | in any state the slot's page arrives, its mark is cleared and the count drops, and nothing else changes; it fails exactly on a slot that is not marked |
| `PagingEffects.EvictPageEffect` | tmp2/virt.c:224-272 | in any state the frame evicted is the first used one of another thread; its bytes go to the first clear slot, the first entry that names it is changed, the frame is CURRENT's, and nothing else changes |
| `PagingEffects.AllocateFrameEffect` | tmp2/virt.c:287-313 | below the count the first unused frame is taken; at the count evict_page decides |
| `PagingEffects.AllocatePageEffect` | tmp2/virt.c:334-360 | the first never-allocated page gets the frame, is opened and zeroed; no other entry, page or protection changes |
| `PagingEffects.HeapEndIsLastByte` | tmp2/virt.h:18-19 | the one byte of the window that the handler's bound excludes is the last, at every size |
| `PagingEffects.FaultEffect` | tmp2/virt.c:23-75 | in any state, which of the three outcomes a fault has, and all that a swap-in changes |
| `PagingEffects.SwapPageInEffect` | tmp2/virt.c:48-53 | the swap-in succeeds exactly on a swapped-out entry with a marked slot |
| `PagingEffects.TouchEffect` | tmp2/virt.c:23-36 | an open page is accessed without the handler, allocated or not |
| `PagingEffects.StoreBackEffect` | tmp2/virt.c:157-181 | the frames of resident pages get the window's bytes; no other frame and nothing else changes |
| `PagingEffects.ResumeEffect` | tmp2/my_pthread.c:117-148 | a thread in its first dispatch finds window and protections as they are; another finds its resident pages with their bytes, open, and all others closed |
| `PagingEffects.SwitchEffect` | tmp2/my_pthread.c:131-148 | the same over a whole switch |
| `PagingEffects.FirstDispatchLeavesPagesOpen` | tmp2/my_pthread.c:263-267 | main creates a thread and is switched to it: a page that the thread never allocated is accessible to it |
| `PagingEffects.CreateEffect` | tmp2/my_pthread.c:76-99 | a zero entry for every page, not started, and nothing else changes |
| `PagingEffects.FreeFrameEffect` | tmp2/virt.c:315-331 | a used frame is freed and counted once; anything else is ignored |
| `PagingEffects.ExitEffect` | tmp2/virt.c:362-374 | exactly the frames that the table names are freed; the bytes, the window and the swap file stay |
| `PagingEffects.InitEffect` | tmp2/virt.c:77-153 | all frames and slots are free and counted so, all pages are zero and open |
| `LastByte.MainsLastPageIsEvicted` | tmp2/virt.c:224-272 | for all V <= P < 2V and S >= 2, three threads that allocate 1, V - 1 and P - V pages and then one more each leave main running with its last page swapped out |
| `LastByte.LastByteIsLost` | tmp2/virt.c:34 | that run goes on to a read of the last byte of an allocated page, and the process dies there |
| `LastByte.LastByteIsLostAsShipped` | tmp2/virt.h:10-44 | so it does with 2044 pages, 2048 frames and 4096 slots |
| `LastByte.ExitLeaks` | tmp2/virt.c:362-374 | when main exits there instead, a slot is leaked |
| `PagingCapacity.FrameCountIsExact` | tmp2/virt.c:302-331 | g_pfn_count is both the number of used frames and the number of valid entries of all live threads |
| `PagingCapacity.SlotCountIsExact` | tmp2/swap.c:61-64 | g_swap_count is the number of marked slots, which is the swapped-out entries plus the leaked slots |
| `PagingCapacity.CapacityIsExact` | tmp2/swap.c:51-53 | everything is full exactly when live pages plus leaked slots number P + S, and they never exceed it |
| `PagingCapacity.StepPages` | tmp2/virt.c:287-313 | only an allocation adds a page; a fault trades a slot for a frame |
| `PagingCapacity.FewAllocationsComplete` | tmp2/swap.c:51-53 | a run that allocates too few pages to fill frames and slots, and stays off the heap's last byte, never stops |
| `PagingCapacity.ShippedSizesComplete` | tmp2/swap.c:12-15 | with the shipped sizes, fewer than 6144 allocations never meet the panic and the whole run is transparent |
| `PagingCapacity.StepLeaks` | tmp2/virt.c:362-374 | an exit adds the slots of its thread to the leaked ones; no other event changes them |
| `PagingCapacity.LeaksStay` | tmp2/virt.c:362-374 | over every run a leaked slot stays leaked |
| `PagingCapacity.ExitReturns` | tmp2/virt.c:362-374 | an exit gives back one frame for each resident page and leaks one slot for each swapped-out page |
| `PagingCapacity.ExitReturnsAllIff` | tmp2/virt.c:362-374 | it gives back all that its thread used if and only if none of its pages is swapped out |
| `Schedulers.Scheduler.constructor` | tmp2/my_pthread.c:228-261 | the main thread runs alone and the table is empty |
| `Schedulers.Scheduler.Schedule` | tmp2/my_pthread.c:108-149 | schedule in place: the head runs, the old CURRENT goes to the tail, nothing happens with no ready thread |
| `Schedulers.Scheduler.ScheduleSwapCurrentToWait` | tmp2/my_pthread.c:151-178 | the caller moves to the tail of the wait queue, or goes on with no ready thread |
| `Schedulers.Scheduler.ReleaseThread` | tmp2/my_pthread.c:441-460 | the first waiter of the handle, if any, moves to the tail of the ready queue |
| `Schedulers.Scheduler.ReleaseAllThread` | tmp2/my_pthread.c:462-481 | despite its name, it moves only the first waiter |
| `Schedulers.Scheduler.AllocMutex` | tmp2/my_pthread.c:381-398 | the first free slot from 1 on, and -1 exactly when there is none |
| `Schedulers.Scheduler.FreeMutex` | tmp2/my_pthread.c:400-404 | one slot is freed with count 0 |
| `Schedulers.Scheduler.MutexInit` | tmp2/my_pthread.c:406-417 | a free slot becomes a mutex nobody holds; fails exactly with no free slot |
| `Schedulers.Scheduler.Create` | tmp2/my_pthread.c:294-340 | the new thread has a free slot as its id, with count 1, and is last in the ready queue; fails exactly with no free slot |
| `Schedulers.Scheduler.Lock` | tmp2/my_pthread.c:420-439 | lock in place with its return values: error, free mutex, contended mutex |
| `Schedulers.Scheduler.Join` | tmp2/my_pthread.c:362-379 | join in place with its return values |
| `Schedulers.Scheduler.Unlock` | tmp2/my_pthread.c:483-505 | unlock in place with its return values; a waiter becomes the owner |
| `Schedulers.Scheduler.Destroy` | tmp2/my_pthread.c:508-520 | destroy in place with its return values |
| `Schedulers.Scheduler.Exit` | tmp2/my_pthread.c:263-285 | the end of a thread: release, free the slot, no CURRENT, dispatch |
| `TailQueues.TailQueues.InsertReady` | tmp2/my_pthread.c:454 | the links of the ready queue spell the old queue plus the new element, whose link is null |
| `TailQueues.TailQueues.RemoveReadyHead` | tmp2/my_pthread.c:122-123 | the head is the first of the queue, and the links spell the rest |
| `TailQueues.TailQueues.InsertWait` | tmp2/my_pthread.c:171 | the links of the wait queue spell the old queue plus the new element |
| `TailQueues.TailQueues.Schedule` | tmp2/my_pthread.c:108-149 | schedule on the links: both queues spell the specified ones, and the head is the new CURRENT |
| `TailQueues.TailQueues.ScheduleSwapCurrentToWait` | tmp2/my_pthread.c:151-178 | the same for the move of CURRENT to the wait queue |
| `TailQueues.TailQueues.RemoveWaiting` | tmp2/my_pthread.c:453 | the links of the wait queue spell the queue without the element, at its head, middle or tail |
| `TailQueues.TailQueues.ReleaseThread` | tmp2/my_pthread.c:441-460 | the walk over the links is the release of the first waiter |
| `TailQueues.TailQueues.ReleaseAllThread` | tmp2/my_pthread.c:462-481 | the walk that goes on after the move releases the first waiter too and no other |
| `Scheduling.FreeSlot` | tmp2/my_pthread.c:385-397 | slot 0 is never given out |
| `SchedulingInvariant.HighestSlotIsHeldByARunnable` | tmp2/my_pthread.c:420-439 | among blocked threads, the highest slot waited for is owned by a thread that runs or is ready |
| `SchedulingInvariant.ContentionFindsReadyThread` | tmp2/my_pthread.c:158-160 | in the locking order, whenever lock or join contends another thread is ready: the fall-through is unreachable |
| `SchedulingInvariant.SomeThreadIsReady` | tmp2/my_pthread.c:114-129 | with no CURRENT some thread is ready as long as any is live |
| `SchedulingInvariant.WaitersAfterContend` | tmp2/my_pthread.c:171 | a blocked caller is last among the waiters of its slot, and no other slot's waiters change |
| `SchedulingInvariant.WaitersAfterRelease` | tmp2/my_pthread.c:450-458 | a release takes the first waiter of its slot and leaves the other slots' waiters alone |
| `SchedulingInvariant.ContendKeeps` | tmp2/my_pthread.c:428-436 | a call that blocks in the locking order really waits and keeps the invariant |
| `SchedulingInvariant.SpawnKeeps` | tmp2/my_pthread.c:328-336 | a new thread's id was nobody's, its slot is its own, and the invariant stays |
| `SchedulingInvariant.UnlockKeeps` | tmp2/my_pthread.c:483-505 | unlock by the owner keeps the invariant |
| `SchedulingInvariant.UnlockHandsOver` | tmp2/my_pthread.c:498-503 | unlock with count above 1 always finds a waiter, the first one |
| `SchedulingInvariant.LeaveKeeps` | tmp2/my_pthread.c:276-282 | an exit removes one thread, wakes its joiner and keeps the invariant |
| `SchedulingInvariant.QuitKeeps` | tmp2/my_pthread.c:263-285 | after an exit somebody runs unless nobody is left |
| `SchedulingInvariant.StepKeeps` | tmp2/my_pthread.c:108-520 | every call under the discipline keeps the partition of threads, the owners, the exact counts and the order |
| `SchedulingRuns.RunKeeps` | tmp2/my_pthread.c:108-520 | so every reachable state has them |
| `SchedulingRuns.InitOk` | tmp2/my_pthread.c:228-261 | the initial state has them |
| `SchedulingRuns.CountsAreExact` | tmp2/my_pthread.c:68-72 | a slot's count is its owner plus its waiters, waiters imply a live owner who is not among them, and the count cannot outgrow the table |
| `SchedulingLimits.ContendedLockIsExact` | tmp2/my_pthread.c:158-160 | a contended lock keeps the count exact if and only if another thread is ready; otherwise the caller goes on without owning the mutex |
| `SchedulingLimits.SecondLockGoesOn` | tmp2/my_pthread.c:420-439 | a run: a thread that locks its own mutex again goes on, with count 2 and nobody queued |
| `SchedulingLimits.OppositeLocksGoOn` | tmp2/my_pthread.c:420-439 | a run, in order up to the last call: the lock returns 0 while another thread, which waits for the caller, owns the mutex |
| `SchedulingLimits.DestroyIsExact` | tmp2/my_pthread.c:508-520 | destroy takes the mutex from an owner or a waiter if and only if its count is above 0; no claim to it is left, who waited stays queued, and an unlock fails |
| `SchedulingLimits.DestroyedWhileHeld` | tmp2/my_pthread.c:406-520 | a run: a held mutex is destroyed, its slot is handed out again, and a second thread locks it before the first has unlocked |
| `SchedulingLimits.ExitWakesAllIffOneJoiner` | tmp2/my_pthread.c:462-481 | an exit wakes everyone who joined if and only if at most one did |
| `SchedulingLimits.SecondJoinerIsLeft` | tmp2/my_pthread.c:462-481 | a run: of two joiners one is woken, and the other waits on a slot that is free |
| `SchedulingRuns.AcquireClaims` | tmp2/my_pthread.c:420-439 | after lock the caller owns the mutex or is queued for it |
| `SchedulingRuns.StepKeepsClaim` | tmp2/my_pthread.c:441-505 | it stays so under any call but its own unlock |
| `SchedulingRuns.LockReturnsToTheOwner` | tmp2/my_pthread.c:420-505 | mutual exclusion over runs: between its lock and its unlock a thread runs only as the one owner |
| `SchedulingRuns.LiveAfter` | tmp2/my_pthread.c:263-359 | a create adds exactly the thread it names, an exit removes exactly the one that runs, no other call changes who is live |
| `SchedulingRuns.ReadyQueueMoves` | tmp2/my_pthread.c:108-178 | a dispatch takes the head of the ready queue, any other call leaves the queue as a prefix |
| `SchedulingRuns.ReadyThreadAdvances` | tmp2/my_pthread.c:108-178 | a ready thread comes one place nearer with each dispatch, whatever the calls, with no discipline assumed |
| `SchedulingRuns.ReadyThreadRunsAfterItsIndex` | tmp2/my_pthread.c:108-178 | the thread at ready index k becomes CURRENT at exactly the (k+1)st dispatch |
| `SchedulingRuns.WaitersMove` | tmp2/my_pthread.c:441-505 | only an unlock of the mutex takes a waiter, the first, and makes it the ready owner |
| `SchedulingRuns.WaiterAdvances` | tmp2/my_pthread.c:441-460 | a waiter's place falls by one with each unlock of its mutex, whatever happens elsewhere |
| `SchedulingRuns.WaiterOwnsAfterItsIndex` | tmp2/my_pthread.c:483-503 | a waiter with k before it becomes the owner, and ready, at exactly the (k+1)st unlock |
| `SchedulingRuns.JoinQueues` | tmp2/my_pthread.c:362-379 | joining a live thread always blocks the caller on it |
| `SchedulingRuns.JoinReturnsAfterExit` | tmp2/my_pthread.c:362-379 | over every run, a joiner stays queued and its target live until the target exits |
| `SchedulingRuns.ExitWakesTheJoiner` | tmp2/my_pthread.c:276-277 | that exit makes the joiner ready and frees the target's id |
| `SchedulingRuns.OthersEffect` | tmp2/my_pthread.c:108-520 | a thread that does not make the call keeps what it waits for and gains a slot only by a hand-over |
| `SchedulingEffects.ScheduleEffect` | tmp2/my_pthread.c:108-149 | the head of the ready queue runs, the old CURRENT is last there, the others move up; with nobody ready nothing changes |
| `SchedulingEffects.BlockCurrentEffect` | tmp2/my_pthread.c:151-178 | the same with the old CURRENT last in the wait queue |
| `SchedulingEffects.ReleaseEffect` | tmp2/my_pthread.c:441-481 | the first waiter of the handle goes to the tail of the ready queue, and no other thread moves |
| `SchedulingEffects.FreeSlotIsLowest` | tmp2/my_pthread.c:381-398 | the handle given out is the lowest free one from 1 on |
| `SchedulingEffects.MutexInitEffect` | tmp2/my_pthread.c:406-417 | that handle is in use with count 0, and nothing else changes |
| `SchedulingEffects.CreateEffect` | tmp2/my_pthread.c:294-340 | that handle is in use with count 1, and the new thread is last in the ready queue |
| `SchedulingEffects.LockEffect` | tmp2/my_pthread.c:420-439 | lock answers 0 exactly on a handle in use, -1 else; a free mutex is the caller's with count 1, on another the caller is counted and blocks |
| `SchedulingEffects.JoinEffect` | tmp2/my_pthread.c:362-379 | join answers 0 exactly on a handle in use, -1 else; the caller is counted and, on a count above 0, blocks |
| `SchedulingEffects.UnlockEffect` | tmp2/my_pthread.c:483-505 | unlock answers 0 exactly on a handle in use with a count above 0, -1 else; the count drops and the first waiter is made ready |
| `SchedulingEffects.DestroyEffect` | tmp2/my_pthread.c:508-520 | destroy answers 0 exactly on a handle in use; the handle is then free and is the next one given out, unless a lower one is free |
| `SchedulingEffects.InitThenDestroy` | tmp2/my_pthread.c:406-520 | an init and a destroy leave the table as it was |
| `SchedulingEffects.ExitEffect` | tmp2/my_pthread.c:263-285 | the id is free, the first joiner is ready, the next ready thread runs |
| `SchedulingEffects.InitEffect` | tmp2/my_pthread.c:228-261 | main runs alone, with empty queues and no handle in use |
| `SchedulingLimits.HandlesCountUp` | tmp2/my_pthread.c:381-398 | successive inits hand out 1, 2, 3 and so on up to the last slot |
| `SchedulingLimits.HandlesRunOut` | tmp2/my_pthread.c:66-74 | the table holds 31 handles for mutexes and threads together |
| `Heaps.ClassOf` | tmp2/my_malloc.c:86-146 | the class serves 1 to 512 bytes and is the smallest that is large enough |
| `Heaps.FirstFit` | tmp2/my_malloc.c:188-196 | the walk ends at the first trunk that can serve the request |
| `HeapProofs.BlockInRegion` | tmp2/my_malloc.c:97-140 | a block lies inside its trunk and inside its class's quarter of it |
| `HeapProofs.BlocksAreDisjoint` | tmp2/my_malloc.c:97-140 | distinct slots never overlap |
| `HeapProofs.AddrDecodes` | tmp2/my_malloc.c:316-325 | the divisions of my_free and _free recover trunk, class and slot of every block |
| `HeapProofs.AlignedAddrIsBlock` | tmp2/my_malloc.c:226-283 | an address is a block's if and only if it is aligned for its class |
| `HeapProofs.MetadataFitsOnePage` | tmp2/my_malloc.c:36-48 | record k lies inside the metadata page if and only if k is below 53 |
| `HeapProofs.CountCheckAgrees` | tmp2/my_malloc.c:92-103 | the count check and the slot scan agree, so the return after the scan is dead |
| `HeapProofs.TryMallocSpec` | tmp2/my_malloc.c:82-148 | _malloc fails exactly when every slot of the class is marked, else marks one clear slot; counts stay exact |
| `HeapProofs.MallocSpec` | tmp2/my_malloc.c:150-211 | my_malloc never returns NULL, marks one block that was free and is large enough, and adds a trunk if and only if no trunk had a free slot of the class |
| `HeapProofs.UnservedRequestGrows` | tmp2/my_malloc.c:188-210 | a request of 0 or more than 512 bytes returns NULL and still takes a trunk |
| `HeapProofs.FreeAtSpec` | tmp2/my_malloc.c:214-284 | _free clears exactly the marked slot that starts at the offset, and otherwise changes nothing |
| `HeapProofs.FreeSpec` | tmp2/my_malloc.c:286-326 | my_free changes the metadata if and only if the pointer is the start of a marked block, and then clears that mark alone |
| `HeapProofs.FreeUndoesMalloc` | tmp2/my_malloc.c:150-326 | free after malloc restores the metadata, up to a trunk that malloc may have added |
| `HeapProofs.SecondFreeIsIgnored` | tmp2/my_malloc.c:234-239 | a double free changes nothing |
| `HeapProofs.RequestTracks` | tmp2/my_malloc.c:150-211 | a request returns an address the client does not hold |
| `HeapProofs.ReleaseTracks` | tmp2/my_malloc.c:286-326 | a release of any pointer takes away that block and no other |
| `HeapProofs.ClientBlocksAreSafe` | tmp2/my_malloc.c:82-326 | over every run of requests and releases the client's blocks are disjoint, as large as asked for, each in one region of a trunk in use |
| `HeapProofs.UnreleasedStays` | tmp2/my_malloc.c:286-326 | over every run of calls a block that is not released stays the client's, with its size |
| `HeapProofs.GivenBytes` | tmp2/my_malloc.c:97-140 | every byte of a block lies in one page, of a trunk in use |
| `HeapBytes.LayoutIsApart` | tmp2/my_malloc.c:36-48 | distinct marks and counts are distinct bytes of the first page |
| `HeapBytes.IntRoundTrip` | tmp2/my_malloc.c:38-47 | an int stored in four bytes reads back, and no other byte changes |
| `HeapBytes.ZeroPageDecodes` | tmp2/my_malloc.c:65-69 | a zeroed page reads as 53 fresh records |
| `HeapBytes.StoreDecodes` | tmp2/my_malloc.c:99-100 | the store of a mark and of a count changes one class of one record and nothing else of the records |
| `HeapBytes.TryDecodes` | tmp2/my_malloc.c:82-148 | the loads and stores of _malloc make of the bytes what _malloc is specified to make of the records; a failing try stores nothing |
| `HeapBytes.FreeDecodes` | tmp2/my_malloc.c:214-284 | the same for _free |
| `HeapMemory.TouchesRun` | tmp2/my_malloc.c:189-193 | loads and stores of records are legal accesses to page 0, and leave there the page that the stores make |
| `HeapMemory.AllocateIsNext` | tmp2/virt.c:339-354 | when the pages in use are a prefix, the page returned is the next one, full of zeros |
| `HeapMemory.InitRuns` | tmp2/my_malloc.c:56-80 | my_malloc_init takes two pages, and the first reads as fresh records |
| `HeapMemory.MallocRuns` | tmp2/my_malloc.c:150-211 | all of my_malloc's accesses are legal; they leave in the bytes of page 0 the specified heap and in the other pages in use their bytes, and a new trunk's page is where my_malloc computes it |
| `HeapMemory.FreeRuns` | tmp2/my_malloc.c:286-326 | the same for my_free |
| `HeapEffects.ClassIs` | tmp2/my_malloc.c:22-34 | the four classes are those of 32, 64, 128 and 512 bytes with 32, 16, 8 and 2 slots, and a class serves the sizes above the one before |
| `HeapEffects.BlockAddress` | tmp2/my_malloc.c:97-140 | where a block is, from the bases and sizes of the regions |
| `HeapEffects.MallocIsFirstFit` | tmp2/my_malloc.c:183-210 | the block is the first free slot of the class in the first trunk that has one |
| `HeapEffects.LayoutIsTheStruct` | tmp2/my_malloc.c:36-48 | marks and counts are where a C struct of these fields puts them, and record follows record |
| `HeapEffects.IntIsLittleEndian` | tmp2/my_malloc.c:38-47 | the counts are stored with the low byte first, in two's complement |
| `HeapEffects.TryAccesses` | tmp2/my_malloc.c:82-148 | _malloc loads the count, then the marks up to the first clear one, then sets it and adds 1 to the count: these accesses in this order and no others |
| `HeapEffects.FreeAccesses` | tmp2/my_malloc.c:214-284 | _free loads nothing for an unaligned offset, else the count, then the mark, and then clears it and takes 1 from the count |
| `HeapEffects.WalkIsInOrder` | tmp2/my_malloc.c:188-196 | the trunks are tried in order, each once |
| `HeapEffects.MallocAccesses` | tmp2/my_malloc.c:150-211 | two calls of mm_allocate_page at first, the walk, and then one more call and one more try only if no trunk served |
| `ThreadHeaps.MetadataPage.Get` | tmp2/my_malloc.c:92-98 | a load from page 0, through the fault handler when the page is out: it sees the byte and changes none, or the process ends |
| `ThreadHeaps.MetadataPage.Put` | tmp2/my_malloc.c:99-100 | a store, likewise |
| `ThreadHeaps.MetadataPage.TryMalloc` | tmp2/my_malloc.c:82-148 | _malloc in place on the bytes: exactly the specified loads and stores, and the specified result |
| `ThreadHeaps.MetadataPage.ScanTrunks` | tmp2/my_malloc.c:188-196 | the walk finds the first trunk that can serve the request, by exactly the specified loads and stores |
| `ThreadHeaps.MetadataPage.FreeAt` | tmp2/my_malloc.c:214-284 | _free in place on the bytes: exactly the specified loads and stores |
| `ThreadHeaps.ThreadHeap.constructor` | tmp2/my_pthread_t.h:47-48 | a zeroed control block of a thread with no page has a new heap |
| `ThreadHeaps.ThreadHeap.TakePage` | tmp2/my_malloc.c:202 | one page from the pager, or the process ends |
| `ThreadHeaps.ThreadHeap.MyMallocInit` | tmp2/my_malloc.c:56-80 | two pages are taken, and the bytes of the first read as the initialised heap |
| `ThreadHeaps.ThreadHeap.MyMalloc` | tmp2/my_malloc.c:150-211 | my_malloc in place: afterwards the bytes of page 0 read as the specified heap and the address is the specified one; the pager has done exactly the specified accesses, faults included, and the process ends exactly when one of them ends it |
| `ThreadHeaps.ThreadHeap.MyFree` | tmp2/my_malloc.c:286-326 | my_free in place, likewise; a negative offset touches nothing |
| `KernelViews.CallPages` | tmp2/my_pthread.c:108-359 | every library call is a legal run of the pager: who runs and who is live agree |
| `KernelViews.CallAccesses` | tmp2/my_pthread.c:108-359 | which calls of the pager a library call makes: a switch exactly when CURRENT changes, an exit followed by a dispatch exactly when somebody runs, a page table for the lowest free id |
| `KernelViews.EventKeeps` | tmp2/my_malloc.c:150-326 | after every event scheduler, pager and allocators agree, and each thread's pages are its allocator's |
| `KernelViews.StepKeeps` | tmp2/my_malloc.c:150-326 | only CURRENT's own write changes a byte past the metadata, and only its own malloc and free change its heap |
| `KernelViews.HeapFollowsCalls` | tmp2/my_malloc.c:150-326 | over every run the bytes of a thread's metadata page read as the heap that its own requests and releases make |
| `KernelViews.BytesStay` | tmp2/virt.c:157-219 | over every run a byte past the metadata changes only by its owner's writes |
| `KernelViews.LiveBlockIsKept` | tmp2/my_malloc.c:150-326 | over every run a block that its owner does not release stays its own |
| `KernelViews.LiveBlockHasItsBytes` | tmp2/my_malloc.c:97-140 | the bytes of a live block are bytes past the metadata of its owner's heap |
| `Kernels.AccessesAreHandled` | tmp2/virt.c:34 | heaps of 53 trunks never reach the last byte of the window |
| `Kernels.StepKeeps` | tmp2/my_pthread.c:108-520 | one event of the whole, the allocator's loads and stores included, keeps every invariant and is the same event over private memories with the same replies; it stops only where all is full |
| `Kernels.RunKeeps` | tmp2/my_pthread.c:108-520 | so does every run |
| `Kernels.RecordsAreBytes` | tmp2/my_malloc.c:69 | in every reachable state the records are in the bytes of page 0, in its frame, in the window or in its slot |
| `Kernels.RecordsFollowCalls` | tmp2/my_malloc.c:150-326 | over every run, through evictions and switches, those bytes read as the heap that the thread's own calls make |
| `Kernels.BytesAreContent` | tmp2/virt.c:157-219 | a byte of the private memory is the byte in the frame, the window or the swap file |
| `Kernels.ClientBytesStay` | tmp2/virt.c:157-219 | over every run a byte of a thread's trunks changes only by that thread's own writes |
| `Kernels.InitOk` | tmp2/my_pthread.c:228-261 | the initial state of the whole satisfies the invariant |
| `Kernels.HeapPagesAreThePrefix` | tmp2/my_malloc.c:75-76 | in every reachable state a thread's non-zero page-table entries are exactly the metadata page and its trunks, evicted or not |
| `MutexClients.OthersCallsKeepSeat` | tmp2/my_pthread.c:108-520 | no call of another thread moves a thread in or out of its critical section |
| `MutexClients.RunningIsInside` | tmp2/my_pthread.c:420-439 | a thread that runs after its lock is the owner |
| `MutexClients.LockMovesIn` | tmp2/my_pthread.c:420-439 | a thread ranked below the mutex may always lock, and is then past the lock |
| `MutexClients.UnlockMovesOut` | tmp2/my_pthread.c:483-505 | a thread inside may unlock, and is then outside and not waiting |
| `MutexClients.SpawnedIsOut` | tmp2/my_pthread.c:294-340 | a new thread starts outside |
| `ParallelCal.RowSumIsExact` | Benchmark/parallelCal.c:35-37 | a row's wrapped sum is its exact sum modulo 2^32 |
| `ParallelCal.VerifySumIsExact` | Benchmark/parallelCal.c:47-59 | verify's sum is the exact sum of all products modulo 2^32 |
| `ParallelCal.WrapIsResidue` | Benchmark/parallelCal.c:27-28 | sums are residues modulo 2^32 |
| `ParallelCal.FilledSum` | Benchmark/parallelCal.c:88-90 | on the matrix that main fills in the sum is the number of rows times the sum of the squares below the number of columns |
| `ParallelCal.MarkAdds` | Benchmark/parallelCal.c:41 | adding one more row gives the same sum wherever the row comes in the order |
| `ParallelCal.AllMarked` | Benchmark/parallelCal.c:57-59 | with every row added the sum is verify's |
| `ParallelCal.StrideIs` | Benchmark/parallelCal.c:34 | the stride loop visits exactly the rows of one residue from n on |
| `ParallelCal.StridesPartition` | Benchmark/parallelCal.c:34-39 | each row is in the stride of exactly one worker |
| `ParallelCal.CalculateRows` | Benchmark/parallelCal.c:34-38 | the first loop in place adds each row of its stride into its own entry and touches no other |
| `ParallelCal.AddColumns` | Benchmark/parallelCal.c:35-37 | the inner loop adds one row into one entry |
| `ParallelCal.Verify` | Benchmark/parallelCal.c:47-61 | verify clears and recomputes every entry and returns the sequential sum |
| `ParallelRuns.WorkerMovesItsSeat` | Benchmark/parallelCal.c:39-43 | every library call of a worker is in order, so nothing is assumed of the workers |
| `ParallelRuns.ActKeepsReads` | Benchmark/parallelCal.c:41 | between a worker's read of sum and its write nobody else writes sum |
| `ParallelRuns.ActKeepsSum` | Benchmark/parallelCal.c:40-42 | each write adds one row that was not in the sum yet |
| `ParallelRuns.StepKeeps` | Benchmark/parallelCal.c:30-44 | every step of every thread keeps the sum equal to the rows added so far |
| `ParallelRuns.RunKeeps` | Benchmark/parallelCal.c:30-44 | so does every run |
| `ParallelRuns.FinishedSum` | Benchmark/parallelCal.c:100-109 | when all workers have returned, sum and every row sum are verify's |
| `ParallelRuns.ParallelSumIsVerified` | Benchmark/parallelCal.c:30-60 | among any other threads and in any interleaving, once all workers have returned sum is the verified sum, the exact sum modulo 2^32 |
| `ParallelRuns.JoinBlocks` | Benchmark/parallelCal.c:103-104 | joining a worker that has not returned blocks |
| `ParallelRuns.JoinedUntilDone` | Benchmark/parallelCal.c:103-104 | over every run the joiner stays blocked until the worker has returned |
| `ParallelProgress.StepsDrop` | Benchmark/parallelCal.c:34-43 | every step of a worker brings its return exactly one step nearer, and it has returned exactly when none is left |
| `ParallelProgress.StepCalls` | Benchmark/parallelCal.c:39-43 | a worker calls lock and unlock once for each row of its stride and then ends, and nothing else |
| `ParallelProgress.UninterruptedWorkerReturns` | Benchmark/parallelCal.c:30-44 | with the mutex to itself a worker never blocks and returns after exactly that many steps |
| `ParallelMain.SlotIsFree` | Benchmark/parallelCal.c:100-101 | with two slots more than workers every create finds a free slot |
| `ParallelMain.CallsAreLegal` | Benchmark/parallelCal.c:95-104 | every library call of main and of the workers is in order, in any interleaving |
| `ParallelMain.JoinCases` | Benchmark/parallelCal.c:103-104 | a join waits for its worker, or for a later worker that has got the id of its returned worker, or returns -1 when no thread has the id |
| `ParallelMain.StepKeeps` | Benchmark/parallelCal.c:95-109 | before its i-th join main is past the earlier ones with their workers returned, or blocked in the last of them; every step keeps that |
| `ParallelMain.RunsAreLegal` | Benchmark/parallelCal.c:95-109 | every run of the program is a legal run of the workers and the calls around them |
| `ParallelMain.MainCallsInOrder` | Benchmark/parallelCal.c:100-104 | over every run main calls create for each worker and then joins the handles in the order of the creates |
| `ParallelMain.PrintedIsVerified` | Benchmark/parallelCal.c:95-112 | for every matrix, number of workers and interleaving main prints verify's sum; all workers have returned by then, and the mutex that main destroys next is free |
| `ParallelMain.StepDrops` | Benchmark/parallelCal.c:34-104 | every step but a tick brings the print exactly one step nearer |
| `ParallelMain.SomebodyCanStep` | Benchmark/parallelCal.c:95-109 | until the print CURRENT has a step to make: no reachable state is a deadlock |
| `ParallelMain.RunDrops` | Benchmark/parallelCal.c:95-109 | however ticks fall, the print comes at exactly the step that was counted, neither before nor after |
| `ParallelMain.PrintIsReached` | Benchmark/parallelCal.c:95-109 | from every reachable state the program can go on to the print |
| `ParallelMain.FinishedRunsExist` | Benchmark/parallelCal.c:95-109 | for every matrix and every number of workers that the table holds there is a run to the print |

## Left out

- `tmp2/shm.c`: the shared region of four pages hands out pages that are in use and refuses valid releases, so there is no clean law to prove.
- `code/` and `scheduler/`: earlier versions of the same scheduler and slab logic; the benchmarks link `code/`, whose lock and unlock are those of `tmp2/`.
- mmap, mprotect, sigaction, setitimer and file calls: a page has one flag for being accessible, and the swap file is an array of pages that never fails.
- Machine contexts and stacks: a switch is a change of CURRENT plus the copies of the window; `free_thread_info` freeing the stack it runs on is not modelled.
- `g_queue_spinlock` and the timer control: replaced by the assumption that calls are atomic.
- Exhaustion of the C library's heap, `errExit` and debug printing.
- Control blocks as objects: they are rows of maps and arrays named by thread id, so aliasing of a freed block is not modelled.
- Kernels.LegalRun: a client that writes to its own metadata page is not modelled, because the allocator trusts those bytes.
- ThreadHeaps.ThreadHeap.MyFree: asks for an initialised heap, because the code computes the offset from a pointer that my_malloc_init sets.
- PteWords.CutIsExact: models the low 32 bits of `unsigned long`, because no bit field reaches beyond bit 31.
- Schedulers.Scheduler.Create: says nothing of the state after a create that finds no slot, because the code then writes before the table.
- Schedulers.Scheduler.Schedule: works on queues as sequences; the same operations on the links are in `TailQueues`, where a thread's node is named by its id.
- ParallelRuns.ParallelSumIsVerified: the additions into one pSum entry are single steps, because only one worker touches an entry.
- ParallelMain.PrintedIsVerified: main alone owns the table before; its argument handling, timing and heap set-up are not modelled, and its arrays, larger than the allocator serves, are given.
- Fairness: that every thread is dispatched again is a matter of the timer; what is proved is the number of dispatches it takes.
- `Benchmark/externalCal.c` and `Benchmark/vectorMultiply.c`: the first needs file input, the second follows the same pattern.
