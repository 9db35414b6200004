# Seaweed kernel: a model and its proofs

A Dafny 4.11 project that models the stateful core of the Seaweed kernel and proves what that core keeps, over whole
runs where the code runs for ever. `dafny verify dfyconfig.toml` checks all of it.

| file | models | main results |
|---|---|---|
| `MemUtils.dfy` | the bit and word primitives of `lib/libk/memUtils.c` | a bit write changes one flag of a byte-packed bitmap; the forward copy, exact for every overlap |
| `FirstFit.dfy` | what the two allocators share | the search loop; first fit never lands inside a run just released; conservation of the ledger |
| `PhysicalPages.dfy` | `kernel/mm/physicalPageManager.c` | lowest run, answer 0 if and only if no run; ownership and conservation over every run; what `initPMM` marks |
| `HeapModel.dfy`, `HeapRuns.dfy`, `KernelHeap.dfy` | `kernel/mm/kHeap.c` as a value, runs in which it fails its callers, and updating memory in place | bitmap and side table agree over every run; when `kfree` is exact; what survives `krealloc`, in the block and around it, and when all does |
| `Scheduler.dfy`, `SchedulerQueue.dfy` | one call and one creation of `kernel/sched/scheduler.c` | the invariant; refinement of a FIFO queue; exact and bounded waiting |
| `SchedulerCode.dfy` | the same routines, updating the table in place | each does exactly one such call or creation |
| `SchedulerClients.dfy` | users of those routines | a new task is entered as requested, a displaced one with the frame it was interrupted with |
| `SchedulerRuns.dfy`, `SchedulerSafety.dfy` | any number of cores and a creator, interleaved at every shared access | mutual exclusion from the test-and-set; every interleaved run is an atomic run, and a run of the queue; no starvation |
| `SchedulerContexts.dfy` | the frames saved and resumed in such runs | a task resumes with the frame it was interrupted with, starts with the one it was created with |
| `PageTables.dfy` | page-table entries, and the 4-level walk of section 4.5 of the Intel SDM, Volume 3A | the kernel's tables translate every 64-bit address exactly |
| `AddressSpaces.dfy` | address spaces as values | what a space translates; what keeps spaces isolated |
| `SpaceCalls.dfy` | creations in full, whatever their allocations answer | success and isolation in terms of the bitmap before the call; what a creation out of memory leaves |
| `SpaceRuns.dfy` | whole runs | isolation and fixed translations over every run, creations that run out of memory included |
| `LargeSpaces.dfy` | spaces of 2 MiB pages | right everywhere if and only if the bitmap before the call puts the data on a 2 MiB boundary; what freeing one does to page 0 |
| `Boot.dfy` | start-up, `kernel/kernelMain.c` | start-up reaches isolation; when an allocation runs into the kernel's tables |
| `VirtualMemory.dfy` | `kernel/mm/virtualPageManager.c`, writing memory in place | each method does what the values say |
| `PciBuses.dfy` | buses, bridges and paths in configuration space | the recursion is bounded if and only if no bus that the scan comes to leads back to itself |
| `Pci.dfy` | `kernel/drivers/pci.c` | all trails, in depth-first order; each device once if and only if no occupied bus has two parents |
| `Madt.dfy` | `kernel/acpi/madt.c` | the record walk undoes encoding |
| `NumberText.dfy` | `itob`, `strlen` and the `%a` format | digits and numbers correspond one to one; the buffer bound |

A routine that updates state in place is a method of a class over arrays or fields, proved against a specification
predicate or function on values; the theorems are lemmas about that specification. Machine integers are natural numbers
below 2^64 with the wrap-around written out (`U64`), and bitmaps are arrays of 8-bit vectors. Proof helpers have no row
below.

The state machine of `SchedulerRuns.dfy` interleaves these steps, each a single access to shared state or a stretch in
which the lock keeps every other core out: interrupt, take the lock, look at `numberOfTasks`, scan one slot, end the
scan, save and switch (lines 50 to 62 or 68 as one step, under the lock), release the lock, read the frame and dispatch
it after the release; and on the creator's side: find the slot, copy any part of the new task into it, finish the copy,
raise the count. An abstraction function undoes the counts of a scan in progress, so that every step is either
invisible or exactly one atomic call or creation.

Where the code departs from its evident intent, the model follows the code and states the exact condition under which
the intent holds, in terms of what is there before the call: `FreeIsExactIff`, `AllWordsSurviveIff`,
`OthersSurviveIff`, `MarksExactlyWhenAligned`, `NewSpaceIsolatedIff`, `LargeSpaceRightIff`, `FreeKeepsPageZeroIff`,
`FreeOfOtherKeepsIsolationIff`, `KernelTablesHandedOutIff`, `MallocReachesTablesIff`, `RecursionBoundedIff`,
`EachDeviceOnceIff`, `WalkEndsIff`, `AddressRecoveredIff`, `FitsBuffer`. States and runs in which it fails are in
`FreeOfBlockZeroCanDoNothing`, `ReallocLosesWords`, `ReallocOverwritesNeighbour`, `UnaffordableMapsLowMemory`,
`FreshMemoryAlignedIff`, `LargeThenFreeHandsOutPageZero`, `OnePageTakesPml3`, `TwoPagesTakePml4` and
`FreeLeaksDataPages`.

## Model

| member | source | states |
|---|---|---|
| Words.RoundUpCoversIff | kernel/mm/kHeap.c:38 | the units asked for are the least that cover the size if and only if the 64-bit sum does not wrap; when it wraps none are asked for |
| MemUtils.Set | lib/libk/memUtils.c:55-57 | the addressed flag becomes true; every other flag of the packed bitmap stays |
| MemUtils.Clear | lib/libk/memUtils.c:59-61 | the addressed flag becomes false; every other flag stays |
| MemUtils.ByteIsItsBits | lib/libk/memUtils.c:63-65 | bit k of a byte is worth 2 to the k |
| MemUtils.FlagIsBit | lib/libk/memUtils.c:63-65 | flag i of a bitmap is bit i % 8 of byte i / 8 |
| MemUtils.WithBitExact | lib/libk/memUtils.c:55-57 | or-ing in the mask of bit k sets bit k of a byte and no other, for all 256 bytes |
| MemUtils.WithoutBitExact | lib/libk/memUtils.c:59-61 | and-ing with the complement clears bit k of a byte and no other |
| MemUtils.ByteUpdate | lib/libk/memUtils.c:55-61 | rewriting one byte with one bit changed is changing one flag of the whole bitmap |
| MemUtils.MemSet | lib/libk/memUtils.c:3-5 | the first `count` bytes hold the value, the others are left alone |
| MemUtils.MemCpy64 | lib/libk/memUtils.c:49-53 | the whole memory after a forward copy, for every overlap of source and destination |
| MemUtils.CopyExact | lib/libk/memUtils.c:49-53 | a forward copy delivers every source word if and only if it does not start strictly inside its source |
| FirstFit.SearchDone | kernel/mm/kHeap.c:40-59 | what the search loop knows is enough: a completed run is the first fit, and a search that reaches the end proves that there is none |
| FirstFit.SearchBlocked | kernel/mm/kHeap.c:41-45 | a set bit rules out every run that would contain it |
| FirstFit.FirstFitNeverStraddles | kernel/mm/kHeap.c:85-90 | after a run is released, the next first fit starts at or below it or wholly past it |
| FirstFit.LedgerPlace | kernel/mm/kHeap.c:47-56 | recording a free run and marking its blocks keeps extents and bits in agreement |
| FirstFit.LedgerRelease | kernel/mm/kHeap.c:73-80 | killing an entry and clearing its blocks keeps extents and bits in agreement |
| FirstFit.LedgerConserves | kernel/mm/kHeap.c:37-83 | the number of set bits is the reserved blocks plus the sum of the live sizes |
| FirstFit.DeadEntryExists | kernel/mm/kHeap.c:100-107 | a table as long as the bitmap has a dead entry whenever a block is free, so recording never fails |
| PhysicalPages.PhysicalPageManager.AllocateRegion | kernel/mm/physicalPageManager.c:65-69 | exactly the whole pages of the length, from the start's page on, become marked |
| PhysicalPages.PhysicalPageManager.InitPMM | kernel/mm/physicalPageManager.c:16-32 | marks what it found marked, the first 0x120 pages and what each region that is not type 1 marks; counts the lengths of all regions, which for a map without gaps is where it ends |
| PhysicalPages.PhysicalPageManager.FirstFreePage | kernel/mm/physicalPageManager.c:71-78 | the lowest free page, or -1 if and only if all are taken |
| PhysicalPages.PhysicalPageManager.Take | kernel/mm/physicalPageManager.c:47-53 | marking the run found completes an allocation |
| PhysicalPages.PhysicalPageManager.PhysicalPageAlloc | kernel/mm/physicalPageManager.c:34-57 | the lowest run of `count` free pages, marked and nothing else; 0 and no change if there is none, also on a full bitmap and for a count of 0 |
| PhysicalPages.PhysicalPageManager.PhysicalPageFree | kernel/mm/physicalPageManager.c:59-63 | exactly `count` pages from the rounded-up page on are cleared |
| PhysicalPages.ZeroMeansNoRun | kernel/mm/physicalPageManager.c:38-56 | with page 0 reserved the answer is 0 if and only if no run of `count` free pages exists |
| PhysicalPages.AllocThenFreeRestores | kernel/mm/physicalPageManager.c:34-63 | freeing what an allocation returned gives back the bitmap from before it |
| PhysicalPages.TouchesMeansSomeByte | kernel/mm/physicalPageManager.c:65-69 | the page formula means that some byte of the region lies in the page |
| PhysicalPages.MarksExactlyWhenAligned | kernel/mm/physicalPageManager.c:65-69 | the pages marked for a region are the pages it touches if and only if it is empty or page-aligned at both ends |
| PhysicalPages.InitMarksExactlyTheReserved | kernel/mm/physicalPageManager.c:20-28 | on a clear bitmap and an aligned map a page ends up marked if and only if it is a low page or touched by unusable memory |
| PhysicalPages.OneRegionCounts | kernel/mm/physicalPageManager.c:22 | a region counts with its length, whatever its kind |
| PhysicalPages.TotalOfBoth | kernel/mm/physicalPageManager.c:21-22 | what two maps one after the other count is the sum of what each does |
| PhysicalPages.TotalIsEndIff | kernel/mm/physicalPageManager.c:20-22 | the lengths of a map in address order add up to its end if and only if it has no gap, and never to more |
| PhysicalPages.DetectedPagesIff | kernel/mm/physicalPageManager.c:22-40 | every whole page below the map's end is searched if and only if less than a page's worth is lost to gaps |
| PhysicalPages.RunOwnsAndConserves | kernel/mm/physicalPageManager.c:34-63 | over every run of allocations and matching frees: live extents disjoint, in range, off the reserved pages; marked exactly the reserved and the owned; the count conserved |
| KernelHeap.KernelHeap.constructor | kernel/mm/kHeap.c:20-35 | all blocks free, the zeroed part of the side table dead, the rest as found; bitmap and table agree if and only if the rest was zero too |
| KernelHeap.KernelHeap.AddressRoundTrip | kernel/mm/kHeap.c:57-65 | the address of a block is its first byte in the heap's range, `kfree` computes the block from it, and it is not NULL |
| KernelHeap.KernelHeap.ByteToBlock | kernel/mm/kHeap.c:65 | every byte of a block leads `kfree` to the block |
| KernelHeap.KernelHeap.FirstFreeSlot | kernel/mm/kHeap.c:92-98 | the lowest free block, or -1 if and only if all are taken |
| KernelHeap.KernelHeap.FirstFreeAllocationSlot | kernel/mm/kHeap.c:100-107 | the lowest dead entry, or -1 if and only if all are live |
| KernelHeap.KernelHeap.Record | kernel/mm/kHeap.c:47-58 | entering the run found and marking it is a complete allocation, 16-bit fields included, and the address is the first byte of the run |
| KernelHeap.KernelHeap.KMalloc | kernel/mm/kHeap.c:37-62 | the lowest run that holds the size, recorded in the lowest dead entry and marked; NULL and no change if and only if there is none; any other answer is the first byte of a run of just enough blocks, and the bytes asked for lie in the heap and in no other live run |
| KernelHeap.KernelHeap.KFree | kernel/mm/kHeap.c:64-83 | the first entry with the block's number is killed, its blocks cleared, its size answered; bitmap and table still agree |
| KernelHeap.KernelHeap.KRealloc | kernel/mm/kHeap.c:85-90 | NULL if and only if the released heap has no room; with room: release, first fit on what that leaves, forward copy of one word per old block, in that order, on one memory, and the answer is the first byte of that fit; without: the block is released and its words are copied to address 0 |
| HeapModel.MallocFillsLowest | kernel/mm/kHeap.c:48-51 | an allocation fills the lowest dead entry and leaves all others |
| HeapModel.MallocHoldsBytes | kernel/mm/kHeap.c:37-57 | the bytes of an allocation lie in the heap and in no other live run, and it has no block to spare |
| HeapModel.ReallocCountCovers | kernel/mm/kHeap.c:87 | the blocks asked for are the least that hold the old blocks and the new bytes added up |
| HeapModel.MallocKeepsInv | kernel/mm/kHeap.c:37-62 | an allocation keeps the agreement of bitmap and side table |
| HeapModel.FreeKeepsInv | kernel/mm/kHeap.c:64-83 | a release keeps the agreement of bitmap and side table |
| HeapModel.RunKeepsInv | kernel/mm/kHeap.c:37-83 | over every run: live entries in bounds and disjoint, their union exactly the set bits, dead entries (0, 0), set bits as many as the live sizes add up to |
| HeapModel.FreeIsExactIff | kernel/mm/kHeap.c:64-83 | a live block's release is exact if and only if its number is not 0 or no dead entry precedes it; otherwise nothing changes and 0 is answered |
| HeapRuns.FreeOfBlockZeroCanDoNothing | kernel/mm/kHeap.c:68-80 | six calls lead from the empty heap to one in which freeing live block 0 does nothing and answers 0 |
| HeapModel.ReallocCopiesOldWords | kernel/mm/kHeap.c:85-90 | each word copied is the old one although the block was released first and the runs may overlap |
| HeapModel.OthersSurviveIff | kernel/mm/kHeap.c:85-90 | every other live allocation keeps all its words, whatever the memory holds, if and only if in the bitmap with the block released the first fit for the new size is the old place or is followed by free blocks as far as the copy reaches; always so when the new block holds the words copied |
| HeapRuns.ReallocOverwritesNeighbour | kernel/mm/kHeap.c:85-90 | four calls from the empty heap and a shrinking reallocation that overwrites a word of a live neighbour |
| HeapModel.ReallocKeepsContents | kernel/mm/kHeap.c:85-90 | for a live block with exact release: the words copied, one for each old block, arrive at the new place, and the invariant holds; what it takes for all other allocations to keep theirs is OthersSurviveIff |
| HeapModel.AllWordsSurviveIff | kernel/mm/kHeap.c:85-90 | all words that fit survive, whatever the memory holds, if and only if the new block holds no more than is copied or the old place is the first fit for it once released |
| HeapRuns.ReallocLosesWords | kernel/mm/kHeap.c:85-90 | two allocations and a reallocation from the empty heap after which a word of the block is gone |
| Scheduler.CallSwitchesIffReady | kernel/sched/scheduler.c:30-48 | a call switches if and only if some published task is ready, and otherwise changes nothing |
| Scheduler.CallSwitches | kernel/sched/scheduler.c:33-71 | the lowest unstarted task is dispatched if there is one, else the one that has waited strictly longest; the displaced one is saved; every other waiter has waited one call more |
| Scheduler.SwitchAdvances | kernel/sched/scheduler.c:33-57 | a waiter not dispatched loses exactly the dispatched task from those ahead of it |
| Scheduler.CallKeepsIdentity | kernel/sched/scheduler.c:50-71 | no call changes the address space, kernel stack or entry point of a task, and of all saved frames only that of the task it displaces changes, to the frame it was given |
| Scheduler.SwitchKeepsPrefix | kernel/sched/scheduler.c:33-71 | started tasks stay a prefix and waiting tasks keep pairwise distinct idle times |
| Scheduler.SwitchKeepsCores | kernel/sched/scheduler.c:50-71 | a task runs if and only if it is current on exactly one core |
| Scheduler.SwitchKeepsBound | kernel/sched/scheduler.c:33-57 | idle time plus tasks ahead stays at most the number of tasks less two |
| Scheduler.CallKeepsInv | kernel/sched/scheduler.c:23-76 | every call by any core keeps the whole invariant |
| Scheduler.CreateAddsOneAhead | kernel/sched/scheduler.c:97-109 | a creation puts exactly one more task ahead of each waiter |
| Scheduler.CreateKeepsInv | kernel/sched/scheduler.c:83-110 | a creation keeps the whole invariant |
| SchedulerQueue.CallDispatchesFront | kernel/sched/scheduler.c:33-55 | the task dispatched is the front of the abstract queue |
| SchedulerQueue.CallRefinesFifo | kernel/sched/scheduler.c:23-76 | a call does to the table what taking the front and enqueuing the displaced task last does to the queue |
| SchedulerQueue.CreateRefinesFifo | kernel/sched/scheduler.c:83-110 | a creation adds one task still to start to the abstract scheduler |
| SchedulerQueue.DispatchedIffNoneAhead | kernel/sched/scheduler.c:33-55 | a waiter is dispatched by a call if and only if no task is ahead of it |
| SchedulerQueue.WaitIsExact | kernel/sched/scheduler.c:33-57 | over every run that does not dispatch a waiter: calls plus tasks still ahead equal tasks ahead at the start plus creations, and the idle time has grown by the calls |
| SchedulerQueue.BoundedWaiting | kernel/sched/scheduler.c:33-57 | a waiter is dispatched within the tasks ahead, plus the creations, plus one calls; until then its idle time is at most the number of tasks less two |
| SchedulerQueue.StartsInTurnIff | kernel/sched/scheduler.c:41-44 | new tasks start in turn: with p tasks started, task t is dispatched in a run if and only if the run makes more than t - p calls, whatever is created meanwhile |
| SchedulerCode.TaskTable.SchedulerMain | kernel/sched/scheduler.c:23-76 | the in-place code is one call and keeps the invariant; it switches to a waiting task with the frame in its slot, starts a new one at its entry point, and otherwise returns |
| SchedulerCode.TaskTable.SwitchTo | kernel/sched/scheduler.c:50-71 | save, make current, run: exactly the update of a call; started tasks are switched to, new ones started at their entry point |
| SchedulerCode.TaskTable.FindFreeIndex | kernel/sched/scheduler.c:146-152 | the lowest slot without a kernel stack, or -1 if and only if there is none |
| SchedulerCode.TaskTable.CreateNewTask | kernel/sched/scheduler.c:83-110 | the in-place code publishes one task with the requested context and kernel stack behind all others, leaves the other free slots alone and keeps the invariant |
| SchedulerClients.CreateThenCall | kernel/sched/scheduler.c:61-64 | a task created when all others have started is entered by the next call, on any core, exactly as requested: entry point, stack, segments, address space and kernel stack |
| SchedulerClients.DisplaceThenReturn | kernel/sched/scheduler.c:50-71 | a task displaced from a core is entered again, when its turn comes, with exactly the frame it was interrupted with, whatever calls lie between |
| SchedulerRuns.SystemStarts | kernel/sched/scheduler.c:78-81 | the interleaved system has a start for any number of slots and cores |
| SchedulerRuns.LockKept | kernel/sched/scheduler.c:24-25 | every step keeps: at most one core between lock and release, the byte set if and only if one is |
| SchedulerRuns.MakerKept | kernel/sched/scheduler.c:83-110 | every step keeps: the creator's slot is the first unpublished one, all other unpublished slots are free |
| SchedulerRuns.BuildingIsInvisible | kernel/sched/scheduler.c:108 | no part of a copy into the slot changes what the scheduler reads |
| SchedulerRuns.FreeIndexIsCount | kernel/sched/scheduler.c:146-152 | the slot found is always number `numberOfTasks` |
| SchedulerSafety.CoresKept | kernel/sched/scheduler.c:50-71 | every interleaved step keeps: RUNNING if and only if current on exactly one core |
| SchedulerSafety.ScanKept | kernel/sched/scheduler.c:33-45 | a scan in progress stays correct for the table without its own counts, while creations are published |
| SchedulerSafety.StepSimulates | kernel/sched/scheduler.c:23-110 | every step of every core or of the creator is invisible or exactly one atomic call or creation |
| SchedulerSafety.Safety | kernel/sched/scheduler.c:23-110 | in every reachable state lock, slot and core invariants hold, and the scheduler that the steps add up to keeps its own |
| SchedulerSafety.NoCoreIsStuck | kernel/sched/scheduler.c:23-76 | on whatever line a core is, its next step can be taken; the lock can be taken if and only if no core is between it and its release |
| SchedulerSafety.CreatorIsNotStuck | kernel/sched/scheduler.c:83-110 | with a slot left the creator can create any task, and can always go on |
| SchedulerSafety.TailIsSegment | kernel/sched/scheduler.c:23-110 | what is proved of stretches of runs holds from any point of any run of the system |
| SchedulerSafety.RunIsAtomic | kernel/sched/scheduler.c:23-110 | every interleaved run is an atomic run of the operations that take effect in it, in that order |
| SchedulerSafety.NoStarvation | kernel/sched/scheduler.c:33-57 | bounded waiting under every interleaving of any number of cores |
| SchedulerSafety.NewTasksStartInTurnIff | kernel/sched/scheduler.c:41-44 | the same under every interleaving of any number of cores |
| SchedulerSafety.StepRefinesFifo | kernel/sched/scheduler.c:23-110 | a queue that represents the state before a step moves to one that represents the state after it |
| SchedulerSafety.RunRefinesFifo | kernel/sched/scheduler.c:23-110 | every interleaved run from the start is a run of the FIFO queue |
| SchedulerContexts.LivesInvariant | kernel/sched/scheduler.c:50-71 | in every reachable state the frame in the table is the one the task's history calls for, on whatever line each core is |
| SchedulerContexts.NoLifeBreaks | kernel/sched/scheduler.c:50-71 | no task is ever created, started, saved or resumed out of turn or with another frame |
| SchedulerContexts.ChoiceIsDispatched | kernel/sched/scheduler.c:47-71 | after a call on a core chooses a task, the first task that the core starts or resumes is that one, and until then the core is on its way to it |
| SchedulerContexts.SavedIsInterrupted | kernel/sched/scheduler.c:23-51 | what is saved for a task is the frame of the last interrupt of that core, which came while the core ran the task |
| SchedulerContexts.CallIsInterrupted | kernel/sched/scheduler.c:23 | a call takes effect with the frame of the last interrupt of its core |
| SchedulerContexts.ResumeUsesInterrupted | kernel/sched/scheduler.c:50-71 | over every interleaving a task is resumed with exactly the frame it was interrupted with, on whichever core, and nothing happens to it between |
| SchedulerContexts.PublishedIsPicked | kernel/sched/scheduler.c:97-109 | the task that becomes visible is in every field the one the creator set out to create |
| SchedulerContexts.ResumeUsesLastSave | kernel/sched/scheduler.c:50-53 | a task is resumed with the frame last saved for it, by whichever core, with no event of the task between |
| SchedulerContexts.StartUsesCreation | kernel/sched/scheduler.c:61-65 | a task is started with the frame and entry point it was created with, and nothing happens to it before |
| PageTables.OrBit | kernel/mm/virtualPageManager.c:40-54 | a bit of the result is set if and only if it is set in one of the operands |
| PageTables.OrFlags | kernel/mm/virtualPageManager.c:40-54 | or-ing flags below bit 12 into a page address is adding them, whatever flags it carries already |
| PageTables.KPageIs | kernel/mm/virtualPageManager.c:93-109 | the unparenthesised flag macro still gives present, writable, user, and the large-page bit where asked for |
| PageTables.EntryParts | kernel/mm/virtualPageManager.c:40-54 | an entry made from a page and flags reads back as exactly that page and those flags |
| PageTables.LargeEntryParts | kernel/mm/virtualPageManager.c:105-109 | an entry made from a 2 MiB frame reads back as that frame, with clear reserved bits when nothing lies in them |
| PageTables.KernelWalkExact | kernel/mm/virtualPageManager.c:91-111 | every 64-bit address: 4 GiB at 0 and at HIGH_VMA, 1 GiB at KERNEL_HIGH_VMA, everything else and every non-canonical address unmapped |
| AddressSpaces.UserWalk | kernel/mm/virtualPageManager.c:43-56 | every address below size * 4096 of a built space translates to the data pages, in order |
| AddressSpaces.KernelWalk | kernel/mm/virtualPageManager.c:40-41 | every address under top-level entries 256 and 511 translates as in the kernel's own space |
| AddressSpaces.CreateKeepsIsolation | kernel/mm/virtualPageManager.c:26-66 | a creation that succeeds takes a slot and frames no live space has, and disturbs none of their tables nor the kernel's |
| AddressSpaces.FreeKeepsIsolation | kernel/mm/virtualPageManager.c:68-75 | a free disturbs no other live space |
| AddressSpaces.FreeOfOtherKeepsIsolationIff | kernel/mm/virtualPageManager.c:68-75 | freeing a slot that holds no live space keeps isolation if and only if none of its four table pages is page 0, the kernel's or a live space's |
| AddressSpaces.ElsewhereKeepsIsolation | kernel/mm/virtualPageManager.c:26-75 | writes to data pages and page allocations by others keep all spaces isolated |
| SpaceRuns.RunIsolates | kernel/mm/virtualPageManager.c:26-75 | from an isolated state, as start-up leaves one (Boot.BootRunIsolates), over every run of creations, successful or out of memory, of frees of live spaces and of anything else outside the frames in use, all live spaces own disjoint marked frames and keep their tables |
| SpaceRuns.LiveTranslationFixed | kernel/mm/virtualPageManager.c:26-75 | in every state of a run a live space translates its own range and the kernel's range to the same addresses |
| SpaceRuns.NoSharedPage | kernel/mm/virtualPageManager.c:26-75 | no physical byte is reached from the user ranges of two live spaces |
| AddressSpaces.FreeLeaksDataPages | kernel/mm/virtualPageManager.c:68-75 | creating and freeing a space leaves exactly its data pages marked |
| SpaceCalls.SmallSucceedsIff | kernel/mm/virtualPageManager.c:29-52 | with page 0 marked, all five allocations of a creation succeed if and only if, once the four lowest free pages are taken, the bitmap before the call has a run for the data; the four tables exist if and only if a page is free once three are taken |
| SpaceCalls.SmallCallCreates | kernel/mm/virtualPageManager.c:26-66 | a call that the bitmap affords is a creation in the sense of the isolation theorem |
| SpaceCalls.SmallCallIsAttempt | kernel/mm/virtualPageManager.c:26-56 | whatever the allocations answer, a call fills one empty slot, only adds marks, and writes only page 0 and pages unmarked before |
| SpaceCalls.AttemptKeepsIsolation | kernel/mm/virtualPageManager.c:26-66 | no creation, successful or not, disturbs a live space or the kernel's tables |
| SpaceCalls.NewSpaceIsolatedIff | kernel/mm/virtualPageManager.c:26-66 | after a call the live spaces are isolated together with the new one if and only if the bitmap before the call affords it |
| SpaceCalls.UnaffordableMapsLowMemory | kernel/mm/virtualPageManager.c:50-56 | with pages for the tables and no run for the data, the new slot translates its user range to itself, page 0 first |
| SpaceCalls.FourFreePages | kernel/mm/virtualPageManager.c:29-52 | a bitmap in which that happens |
| SpaceCalls.LargeSucceedsIff | kernel/mm/virtualPageManager.c:29-58 | with page 0 marked, the four allocations of a large creation succeed if and only if, once three pages are taken, the bitmap before the call has a run for the data |
| SpaceCalls.LargeCallIsAttempt | kernel/mm/virtualPageManager.c:26-63 | a large creation too writes only page 0 and pages unmarked before, whatever its allocations answer |
| AddressSpaces.PlacedByAllocs | kernel/mm/virtualPageManager.c:29-52 | five allocations in a row give five different places, all unmarked before and all marked after |
| AddressSpaces.BuiltByWrites | kernel/mm/virtualPageManager.c:40-56 | the writes build the tables of the space, wherever its data lies, when the tables are four pages |
| AddressSpaces.WritesStayInTables | kernel/mm/virtualPageManager.c:40-56 | the writes touch no page but the tables' own, page 0 for one that was not answered |
| SpaceCalls.OnePageIsLowest | kernel/mm/physicalPageManager.c:38-56 | a single-page allocation leaves the bitmap with the lowest free page taken, if there is one |
| LargeSpaces.LargePlaced | kernel/mm/virtualPageManager.c:29-58 | three single pages and a run of 512 for each large page are different places, all unmarked before and all marked after |
| LargeSpaces.LargeCallCreates | kernel/mm/virtualPageManager.c:57-63 | a large call that the bitmap affords creates a space of 2 MiB pages, its data on the first fit above the tables |
| LargeSpaces.LargeStepKeepsIsolation | kernel/mm/virtualPageManager.c:57-63 | creating a space of 2 MiB pages disturbs no live space of 4 KiB pages |
| LargeSpaces.LargeKernelWalk | kernel/mm/virtualPageManager.c:40-41 | a space of 2 MiB pages translates the kernel's range as the kernel does |
| LargeSpaces.LargePagesExact | kernel/mm/virtualPageManager.c:58 | the pages newly marked are those of the three tables and exactly those that the bytes of the space lie in |
| LargeSpaces.LargeSpaceRightIff | kernel/mm/virtualPageManager.c:57-63 | all its addresses translate to its data if and only if the flags ask for present pages and, with the three lowest free pages taken, the first fit of the data in the bitmap before the call starts on a 2 MiB boundary |
| LargeSpaces.FreshMemoryAlignedIff | kernel/mm/virtualPageManager.c:57-63 | with memory free from page lo on, that holds if and only if lo + 3 is a multiple of 512; it fails for the first free page that initPMM leaves |
| LargeSpaces.FreeKeepsPageZeroIff | kernel/mm/virtualPageManager.c:68-75 | a free keeps page 0 marked if and only if it was marked and none of the slot's four table addresses lies in it |
| LargeSpaces.LargeThenFreeHandsOutPageZero | kernel/mm/virtualPageManager.c:26-75 | creating a space of 2 MiB pages in an empty slot and freeing it leaves page 0 free, and the next one-page allocation takes it and answers 0 |
| Boot.InitLeavesOrdinaryMap | kernel/mm/physicalPageManager.c:16-32 | without unusable memory in pages 0x120 to 0x234, initPMM leaves just the low pages marked below there |
| Boot.BootPlaces | kernel/kernelMain.c:60-66 | the stack is at 0x120000 and the heap at 0x124000, up to 0x224000 |
| Boot.EmptyIsolatedIff | kernel/mm/virtualPageManager.c:86-111 | with no space yet, isolation is exactly the kernel's tables in place and their pages and page 0 marked |
| Boot.BootIsIsolated | kernel/kernelMain.c:60-66 | start-up reaches isolation: the heap has taken the pages of the kernel's tables when initVMM writes them |
| Boot.BootRunIsolates | kernel/kernelMain.c:60-66 | every run from start-up keeps all live spaces isolated, and the translation theorems apply to it |
| Boot.KernelTablesHandedOutIff | kernel/mm/physicalPageManager.c:38-56 | an allocation of any size takes a page of the kernel's tables if and only if the lowest free run of its size meets them |
| Boot.OnePageTakesPml3 | kernel/mm/physicalPageManager.c:38-56 | a bitmap in which a one-page allocation answers the kernel's PML3 |
| Boot.TwoPagesTakePml4 | kernel/mm/physicalPageManager.c:38-56 | a bitmap in which a two-page allocation covers the kernel's PML4 although a lower page is free |
| Boot.HeapBlockInTablesIff | kernel/mm/kHeap.c:20-24 | in the heap at 0x124000 the blocks that share a byte with the kernel's tables are those from 0x6e00 on and below 0x7200 |
| Boot.MallocReachesTablesIff | kernel/mm/kHeap.c:37-62 | a heap allocation reaches into the kernel's tables if and only if the lowest free run of its size does |
| VirtualMemory.VirtualMemoryManager.FindFirstFreeSlot | kernel/mm/virtualPageManager.c:124-131 | the lowest slot without a top-level table |
| VirtualMemory.VirtualMemoryManager.LinkTables | kernel/mm/virtualPageManager.c:34-44 | the two kernel entries and the chain of three tables, and no other word |
| VirtualMemory.VirtualMemoryManager.MapPages | kernel/mm/virtualPageManager.c:53-62 | entry i is the i-th page with the flags; no other word changes |
| VirtualMemory.VirtualMemoryManager.InitVMM | kernel/mm/virtualPageManager.c:86-111 | all slots empty, the eight kernel tables as the walk theorem needs them, the rest of memory unchanged; after the allocations of start-up the state is isolated |
| VirtualMemory.VirtualMemoryManager.AllocateTables | kernel/mm/virtualPageManager.c:29-32 | three allocations in a row, entered in the slot |
| VirtualMemory.VirtualMemoryManager.MapSmall | kernel/mm/virtualPageManager.c:46-56 | lowest table and data pages allocated, linked and entered |
| VirtualMemory.VirtualMemoryManager.MapLarge | kernel/mm/virtualPageManager.c:57-63 | data allocated and entered in the second-level table |
| VirtualMemory.VirtualMemoryManager.CreateNewAddressSpace | kernel/mm/virtualPageManager.c:26-66 | the lowest empty slot; the allocations and writes of one of the two kinds of call in full, whatever is answered; a space if page 0 is marked and the bitmap before the call affords one; live spaces isolated in any case |
| VirtualMemory.VirtualMemoryManager.FreeAddressSpace | kernel/mm/virtualPageManager.c:68-75 | exactly the four table pages are cleared and the slot emptied, so that it can be taken again |
| VirtualMemory.FreeThenCreate | kernel/mm/virtualPageManager.c:26-75 | a creation right after a free takes the freed slot when no lower one is empty |
| PciBuses.HeaderReadsBack | kernel/drivers/pci.c:23-31 | presence, the multi-function bit, the bridge test and the secondary bus are what the header declares |
| PciBuses.VisibleReadsBack | kernel/drivers/pci.c:46-59 | a function is looked at if and only if it is present and is function 0 or behind a present function 0 that declares several |
| PciBuses.NoLoopIffRanked | kernel/drivers/pci.c:23-59 | no bus that the scan comes to leads back to itself if and only if the buses can be ranked so that every bridge crossed goes down |
| PciBuses.ForwardNumberingHasNoLoop | kernel/drivers/pci.c:30-31 | numbering every secondary bus above the bridge's own bus excludes loops |
| PciBuses.RecursionBoundedIff | kernel/drivers/pci.c:23-59 | the depth of the recursion is bounded, and then by 256, if and only if there is no loop |
| Pci.SlotOrder | kernel/drivers/pci.c:46-52 | slots are scanned device by device, and within a device function by function |
| Pci.TrailUnfolds | kernel/drivers/pci.c:23-59 | a trail is a device on the bus, or a bridge on it and a trail from its secondary bus |
| Pci.EnumerationExact | kernel/drivers/pci.c:46-59 | the enumeration is exactly the set of all trails from the bus, each once, in strict depth-first order |
| Pci.DevicesExact | kernel/drivers/pci.c:23-59 | the enumeration ends in exactly the present non-bridge functions reachable from the bus, multi-function bit honoured |
| Pci.EachDeviceOnceIff | kernel/drivers/pci.c:23-59 | no device is enumerated twice if and only if no bus with a device on or behind it has two parents |
| Pci.ListExact | kernel/drivers/pci.c:23-59 | the same two statements about the list of records |
| Pci.RecordReadsBack | kernel/drivers/pci.c:32-40 | the record of a function holds exactly the class, subclass, interface, device and vendor that its header declares |
| Pci.DeclaredIsListed | kernel/drivers/pci.c:32-83 | a function is listed with the fields its header declares if and only if the scan reaches it and the header is not a bridge's |
| Pci.PciScanner.CheckDevice | kernel/drivers/pci.c:23-44 | appends the device's record, or everything behind the bridge |
| Pci.PciScanner.PciScanBus | kernel/drivers/pci.c:46-59 | without a loop terminates, and appends one record for each trail from the bus, in order |
| Pci.PciScanner.InitPCI | kernel/drivers/pci.c:80-83 | the list holds every device reachable from bus 0, with the fields its header declares, and nothing else, and none twice if and only if no occupied bus has two parents |
| Madt.MadtInfo.TakeEntry | kernel/acpi/madt.c:26-41 | the payload goes to the end of its type's list; other types change nothing |
| Madt.MadtInfo.MadtInit | kernel/acpi/madt.c:11-43 | terminates; visits exactly the record starts; the lists hold the records in table order |
| Madt.WalkEndsIff | kernel/acpi/madt.c:22-42 | the loop ends, and then within as many turns as there are bytes, if and only if no record that it comes to has length 0 |
| Madt.WalkableTurns | kernel/acpi/madt.c:22-42 | on a table that can be walked the turns of the loop are exactly its record starts |
| Madt.RecordsByteForByte | kernel/acpi/madt.h:13-44 | a record of each type that is read, byte for byte: type, length and little-endian fields |
| Madt.DeclaredFields | kernel/acpi/madt.h:13-44 | what is kept of a record, field by field |
| Madt.DeclaredInOrder | kernel/acpi/madt.c:22-42 | every list is in table order |
| Madt.TakenIsDeclared | kernel/acpi/madt.c:26-41 | reading a record back where it was laid down gives its declared fields |
| Madt.WalkUndoesEncoding | kernel/acpi/madt.c:22-43 | for every list of well-formed records that fits: the walk succeeds, visits exactly their starts, and yields the declared fields of types 0, 1, 2, 4, 5 in table order, skipping the rest |
| Madt.AddressRecoveredIff | kernel/acpi/madt.c:39-40 | a type 5 address is recovered if and only if it fits the single byte kept |
| NumberText.DigitsReadBack | lib/libk/string.c:3-17 | the digits written are a numeral without a superfluous zero and stand for the number |
| NumberText.SampleNumbers | lib/libk/string.c:3-14 | 0, 2026 and 0x1A as text |
| NumberText.NumeralIsDigits | lib/libk/string.c:11-14 | no other numeral stands for it |
| NumberText.DigitCountIff | lib/libk/string.c:11-14 | at most k digits if and only if below the k-th power of the base |
| NumberText.FitsBuffer | lib/libk/string.c:5-9 | every 64-bit number fits in base 3 to 16, with at most 16 digits in base 16; in base 2 exactly those below 2^49 fit |
| NumberText.Itob | lib/libk/string.c:3-17 | the digits end right at the terminator in the last cell; no cell before them is touched |
| NumberText.Strlen | lib/libk/string.c:19-24 | the distance to the first terminator |
| NumberText.PrintPadded | lib/libk/output.c:96-104 | always exactly 16 hexadecimal characters, which read back as the number |

## Left out

- KernelHeap.KernelHeap.KMalloc: requires a free block; on a completely full heap the code starts its signed loop at -1, and the bit of that block, taken as an unsigned number, lies 2^61 - 1 bytes beyond the bitmap's start.
- KernelHeap.KernelHeap.constructor: the table is as long as what is scanned, 0x40000 entries, or any other length that covers the bitmap; the code reserves and zeroes 0x10000 bytes of it, 0x4000 entries. That the memory behind them belongs to others and may change later is not modelled.
- KernelHeap.KernelHeap.KFree: requires the block number to be in the table; for any other address the code reads past its end.
- KernelHeap.KernelHeap.KRealloc: requires an address that kmalloc could have answered, in the table, and a heap that is not still full after the release, which only a free that does nothing can leave.
- SchedulerCode.TaskTable.CreateNewTask: requires a free slot and zeroed unpublished slots; with a full table the code writes slot -1, and nothing zeroes the table. What the page and heap allocators answer for the task is a parameter, and its thread fields are not modelled.
- SchedulerCode.TaskTable.SchedulerMain: setKernelStack and the page-table register are not modelled; setKernelStack writes two TSS slots, and no exclusivity of kernel stacks is claimed.
- SchedulerRuns.LockKept: the lock is an atomic test-and-set on a sequentially consistent memory; its deadlock counter and the C11 orderings are not modelled.
- SchedulerSafety.Safety: there is one creator at a time, and a core is not interrupted between taking the lock and entering the task it dispatches, although the entry code enables interrupts a few instructions early.
- PhysicalPages.PhysicalPageManager.PhysicalPageAlloc: calls are serialised by the lock, and physicalPageFree, which takes none, is taken as serialised with them.
- PhysicalPages.PhysicalPageManager.InitPMM: requires the unusable regions and the detected memory to fit the bitmap; the memset at the start has length 0 and clears nothing, as modelled.
- SpaceRuns.RunIsolates: physical memory below 4 GiB. Frees are of live 4 KiB spaces; AddressSpaces.FreeOfOtherKeepsIsolationIff says when a free of another slot counts among what goes on elsewhere. What goes on elsewhere leaves the kernel's tables alone; the heap covers them after an ordinary start-up, and Boot.MallocReachesTablesIff says which allocations from it would not.
- Boot.BootIsIsolated: for memory maps without unusable memory in pages 0x120 to 0x234; nothing reserves the kernel's tables but the heap that happens to lie there, so for other maps Boot.EmptyIsolatedIff says what is needed.
- AddressSpaces.UserWalk: says nothing about unmapped user addresses, because fresh table pages are not zeroed, and nothing about permission bits.
- VirtualMemory.VirtualMemoryManager.CreateNewAddressSpace: at most 512 pages and flags below bit 12. A free slot must exist within the table, which has room for 100 entries and is scanned to 1000.
- Pci.PciScanner.PciScanBus: requires that no bus it comes to leads back to itself; with such a loop the code recurses for ever, as PciBuses.RecursionBoundedIff says.
- Pci.PciScanner.CheckDevice: the device list is a sequence; the growth of the array, which is off by one, and getBAR are not modelled. Configuration space is a function that reads do not change.
- Madt.MadtInfo.MadtInit: the table is found already; records of length 0, at which the loop stays for ever as Madt.WalkEndsIff says, unreadable payloads and more than 50 records of a type are excluded.
- NumberText.Itob: base 2 to 16, the bases for which the digit table has digits; signed arguments of `%d` are not modelled.
- createThread, system calls and dispatch plumbing: threads are created but never scheduled.
- All assembly, interrupt entry, the GDT, IDT and TSS, and core start-up.
- Disk, network, keyboard, display, timer and interrupt-controller drivers, the file system and findSDT: hardware access or thin lookups.
