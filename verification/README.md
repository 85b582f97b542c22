# A verified model of a Raspberry Pi 3 kernel

This project models the parts of a bare-metal AArch64 kernel that keep rich state, and proves
what they keep over whole runs. It is written in Dafny 4.11; `dafny verify dfyconfig.toml`
checks all of it. Nothing here runs the kernel.

The parts, and the files that model them:

* **Shared.** `Common` (optional values, links, sequences without an element).
* **Page allocator.** A tag per page, doubly linked free lists per order, recursive split and
  merge, and boot-time reservation. `Dyadic` (aligned power-of-two intervals), `BuddyTags`
  (the tag array as a tiling by blocks), `FreeLists`, `Buddy` (the allocator as a class),
  `BuddyRuns` (whole runs).
* **Dynamic allocator.** Per-size pools of pages with bitmaps and an index sum, on top of the
  page allocator. `SlabHeap`, `SlabPools`, `Slab` (the class), `SlabRuns`.
* **Page tables, demand paging, fork and copy-on-write.** `PageWalk` (the four-level walk and
  what keeps a set of tables well-formed), `PageFork` (copying a table tree), `PageTables`
  (the class that edits tables), `CowState` (address spaces and reference counts as values,
  with the invariant), `CowCount` (the counting in fork), `CowLoss` (what filling tables loses),
  `Cow` (the kernel class over real tables and counters), `CowRuns` (whole runs). The layout is
  that of the 4KB granule with 48-bit addresses in chapter D8 of the Arm Architecture Reference Manual for A-profile.
* **Deferred interrupt work.** `Ring` (the ring buffer and sorted insertion), `TaskRuns` (the
  preemption discipline on values), `Tasks` (the class), `Timers`.
* **Processes.** `Lists` (the linked list), `SchedState`, `SchedRuns`, `SchedWaiting` (states,
  queues and runs as values), `SchedLife` (the life of one process), `Scheduler` (the class), `SchedLists` (its queue operations on the
  linked lists).
* **Files.** `FatTable` (cluster chains), `FatSectors` and `FatFile` (cached contents), `Paths`
  (`strtok_r`), `VfsTree` and `Vfs` (vnodes, paths and mounts).

Objects that the kernel updates in place are classes; each method is proved against a
specification on values, and the lemmas about whole runs are about those specifications. An
event of a run is the effect that the method of the class promises for the operation.

What is assumed of the surroundings:

* Physical and kernel virtual addresses differ by a constant that is left out.
* Interrupts: an operation of the allocators, the tables, the queues or the tree is one step.
  In the sources some operations enable interrupts again half-way (for example the counter
  functions in `src/kernel/mem.c:647-729` called from the fault handler).
* Where memory is allocated without a check for failure, the answer of the allocator is a
  parameter that must be unused before (page frames, table pages, list nodes, vnodes). User
  page frames and table pages are taken to be different.
* Contents of new user pages are arbitrary, as `malloc` leaves them.
* The sections of a process do not share pages. In the runs of the protocol a process forks only
  after its text has been mapped, no RAM page lies in a table that a text or frame-buffer mapping
  crosses into, and there is no teardown of address spaces. The first two conditions are exact:
  `CowState.ForkIff`, `CowLoss.TextFilledIff` and `CowLoss.DeviceFilledIff`.
* The idle process neither waits, exits nor is killed.

Where the code does not do what it is evidently meant to do, the model does what the code does:

* A one-page region that is already a free block of its own is not reserved
  (`src/kernel/mem.c:374`): `Buddy.Allocator.Reserve` says exactly when, and
  `BuddyRuns.LostReservation` builds such a state.
* Bitmap masks are `int` expressions (`src/kernel/mem.c:467`, `474`, `543`, `550`). A shift of a
  32-bit register takes its count modulo 32, so the model has a switch `wide`: with 64-bit masks
  every chunk has its own bit. With `int` masks a page is passed over only when it is full, and
  `free` tests the bit of the chunk it frees, exactly in the pools of 128 bytes and more
  (`SlabHeap.IntMasksSkipIff`, `SlabHeap.IntMasksNameIff`, with `SlabHeap.HalfFullPage` and
  `SlabHeap.IntMasksFreeDeadChunk` for the others). Exclusion and reclamation of live chunks hold
  with either.
* `fill_page_table` links a fresh table at every boundary it crosses, even where one was linked
  (`src/kernel/vmem.c:80-86`). `PageTables.FillKeepsOthersIff` gives the exact condition under
  which other pages keep their translation. A lost RAM page keeps its reference:
  `CowRuns.FrameBufferLosesHeapPage` is a run that ends so, and `CowLoss` says exactly when.
* The search for a pid does not wrap (`src/kernel/process.c:96-102`):
  `SchedWaiting.SearchExact` says exactly when it leaves the table.
* The timer-value register has 32 bits, so a timeout of 2^31 ticks or more does not reach the
  comparator (`src/kernel/interrupt.c:53`, `144`): `Timers.CompareExact`.
* The walk along the chain in `fat32_write` starts at the first cluster whatever the position is
  (`src/kernel/fat32.c:233`): `FatFile.ChainCoversIff` and `FatFile.File.Write` say exactly when
  the chain still covers the contents, and `FatFile.ThirdAppendIsNotCovered` is three appends after
  which it does not.
* Seeking before the start of a file from its end is not refused (`src/kernel/tmpfs.c:75-80`):
  `FatFile.File.Seek` says exactly when, and `FatFile.SeekBeforeStart` is such a seek.
* Mounting on `.` gives the new root the name `.` (`src/kernel/vfs.c:110-131`):
  `VfsTree.MountKeepsIff` says exactly when names stay unique, and `Vfs.SecondDotMount` is a
  state in which they do not. The hidden directory's own path then leads nowhere:
  `Vfs.CoveredShadowsIff` says exactly when paths are shadowed, and `Vfs.DotMountLosesPath` is a
  mount after which they are not.
* An empty component in the middle of a path ends it, where only a final `/` is meant to be ignored
  (`src/kernel/vfs.c:42`): `Vfs.SlashEnds` says what every path with an empty component finds.

## Model

| member | source | states |
|---|---|---|
| Buddy.Allocator.constructor | src/kernel/mem.c:142-172 | all pages free in one block, of the least power-of-two size that reaches the end of memory; the invariant (aligned tiling, exact free lists, no two free buddies) holds |
| Buddy.Allocator.SizeOf | src/kernel/mem.c:147-152 | the exponent is the least one whose pages reach the end of memory |
| Buddy.Allocator.InsertFree | src/kernel/mem.c:121-140 | the page becomes the first of exactly one free list, whose links still spell out the list both ways |
| Buddy.Allocator.DeleteFree | src/kernel/mem.c:88-119 | a block with the right tag leaves its list and becomes used, any other is left alone; all lists stay well linked |
| Buddy.Allocator.Cut | src/kernel/mem.c:174-196 | a used block shrinks to the least order that holds the request, and the cut-off halves become free blocks that leave no two free buddies |
| Buddy.Allocator.Malloc | src/kernel/mem.c:198-228 | succeeds exactly if an aligned run of free pages of the least sufficient order exists; then it cuts a smallest sufficient free block and hands out a block of exactly that order, all of whose pages were free, and no other page changes use |
| Buddy.NothingFits | src/kernel/mem.c:198-228 | completeness: with no free block of sufficient order there is no aligned free run of that order at all |
| Buddy.Allocator.Merge | src/kernel/mem.c:230-265 | joining with free buddies upwards restores the invariant without changing which pages are used |
| Buddy.Allocator.Free | src/kernel/mem.c:267-301 | frees exactly the block that starts at a used head, keeping the invariant, and reports every other address without effect |
| Buddy.Allocator.Clear | src/kernel/mem.c:303-329 | an aligned region, however it was tiled, becomes one free block; a misaligned one is left alone |
| Buddy.Allocator.CoverBlock | src/kernel/mem.c:342-359 | finds the smallest aligned power-of-two block that covers the region |
| Buddy.Allocator.FindHead | src/kernel/mem.c:360-362 | clearing lowest set bits reaches the head of the block that holds the page |
| Dyadic.LowBitStaysInside | src/kernel/mem.c:361-362 | clearing the lowest set bit never leaves the enclosing aligned interval |
| Buddy.Allocator.Carve | src/kernel/mem.c:376-386 | splitting down from the enclosing free block makes the wanted block a free block of its own, with the same pages in use |
| Buddy.Allocator.Reserve | src/kernel/mem.c:331-397 | afterwards the used pages are the old ones and the covering block, if and only if that block was not a free page of its own; in that case nothing changes |
| BuddyTags.FreeRunInOneBlock | src/kernel/mem.c:230-265 | without free buddies, an aligned run of free pages lies inside one free block |
| BuddyTags.CanonicalFreeBlocks | src/kernel/mem.c:198-301 | the set of used pages determines every free block |
| BuddyTags.CanonicalTags | src/kernel/mem.c:198-301 | the used blocks determine the whole tag array |
| BuddyRuns.UsedIsInitialPlusLive | src/kernel/mem.c:198-301 | over every run the used blocks are the initial ones plus those allocated and not yet freed |
| BuddyRuns.ReleasingAllRestores | src/kernel/mem.c:198-301 | freeing everything a run allocated, in any order, restores the tag array it started from |
| BuddyRuns.LiveBlocksDisjoint | src/kernel/mem.c:198-301 | blocks allocated and not freed never share a page |
| BuddyRuns.FreeUndoesMalloc | src/kernel/mem.c:198-301 | freeing a block just allocated restores the tag array |
| BuddyRuns.LostReservation | src/kernel/mem.c:374-375 | a state in which reserving exactly one free page changes no tag and leaves the page free |
| SlabHeap.SumZeroIffEmpty | src/kernel/mem.c:556-556 | the sum of chunk numbers plus one is zero exactly if no chunk is live |
| SlabHeap.WideBitIsLive | src/kernel/mem.c:467-474 | with 64-bit masks a bit is set exactly if its chunk is live |
| SlabHeap.SkippedOnlyWhenFull | src/kernel/mem.c:461-487 | with 64-bit masks the search passes over a page exactly if all its chunks are live |
| SlabHeap.IntMasksSkipIff | src/kernel/mem.c:461-487 | with `int` masks every page of a pool is passed over only when all its chunks are live, if and only if the chunks have 128 bytes or more |
| SlabHeap.HalfFullPage | src/kernel/mem.c:463-471 | in every smaller pool, a page with dead chunks that looks full to `int` masks |
| SlabHeap.IntMasksNameIff | src/kernel/mem.c:541-550 | with `int` masks the bit that `free` tests says whether the chunk is live, on every page of a pool, if and only if the chunks have 128 bytes or more |
| SlabHeap.IntMasksFreeDeadChunk | src/kernel/mem.c:541-550 | in every smaller pool, a page on which freeing a dead chunk is not refused and leaves a record that fits no set of live chunks |
| SlabHeap.AllocsDisjoint | src/kernel/mem.c:432-583 | no two live allocations overlap |
| SlabHeap.InsideUsedBlock | src/kernel/mem.c:432-583 | every byte of a live allocation is in a page that the page allocator has in use |
| SlabPools.AllocsDeterminePages | src/kernel/mem.c:556-580 | heaps with the same live allocations have the same page blocks, used and free |
| SlabRuns.AllocsAreInitialPlusLive | src/kernel/mem.c:432-583 | at every point of every run of heaps, the live allocations are the initial ones and, apart from them, those taken and not given back |
| SlabRuns.LiveDisjoint | src/kernel/mem.c:432-583 | over every run, what was taken and not given back overlaps neither itself nor what was live at the start |
| SlabRuns.GivingAllRestores | src/kernel/mem.c:432-583 | giving back everything, in any order, restores the page allocator's blocks |
| Slab.Allocator.constructor | src/kernel/mem.c:416-430 | all pages idle, all pools empty, over any valid page allocator |
| Slab.Allocator.FindChunk | src/kernel/mem.c:462-471 | the circular search ends; it finds the first clear bit behind the last chunk allocated, or all bits are set |
| Slab.Allocator.FindPage | src/kernel/mem.c:459-487 | finds a page of the pool with a clear bit, or every page is full and the last one is known |
| Slab.Allocator.TakeFrom | src/kernel/mem.c:473-482 | exactly one allocation of the pool's size appears at an address that was not live; sum and bitmap stay in step |
| Slab.Allocator.AddPage | src/kernel/mem.c:489-510 | a new page joins the pool at its end, with its first chunk as the one new allocation |
| Slab.Allocator.Malloc | src/kernel/mem.c:432-511 | a live allocation appears at an address that was not live, its size the least power of two that is at least 16 and holds the request, and nothing else changes; size 0, or whole pages that are not to be had, give NULL without effect |
| Slab.Allocator.PutBack | src/kernel/mem.c:549-550 | freeing one of several chunks of a page removes exactly that allocation |
| Slab.Allocator.DropPage | src/kernel/mem.c:556-580 | freeing the last chunk of a page unlinks the page and returns it to the page allocator |
| Slab.Allocator.OwnChunkNamed | src/kernel/mem.c:541-547 | the bit that `free` tests belongs to the chunk it then frees: always with 64-bit masks, and for live addresses with any |
| Slab.Allocator.Free | src/kernel/mem.c:518-583 | the address of a live allocation removes exactly that allocation; another address either lies inside the live chunk that is removed, or is reported without effect |
| PageTables.CrossesIsStart | src/kernel/vmem.c:80-86 | the index test for a table boundary is right at every level |
| PageTables.Tables.NewRoot | src/kernel/vmem.c:90-94 | a new address space translates nothing, and all others translate as before |
| PageTables.Tables.Translate | src/kernel/vmem.c:34-50 | the loop over masks and entries computes the walk of the four-level tree, page by page |
| PageTables.Tables.TranslateAddress | src/kernel/vmem.c:20-53 | a user address translates to the frame of its page with the same offset, and to NULL exactly if the page is not mapped |
| PageTables.Tables.Descend | src/kernel/vmem.c:59-69 | the tables on the way to the first page exist afterwards, and no translation changes |
| PageTables.Tables.CrossTo | src/kernel/vmem.c:80-86 | at a boundary fresh tables are linked on the way to the next page; exactly the pages of those tables lose their translation |
| PageTables.Tables.Fill | src/kernel/vmem.c:55-88 | every page of the range translates to its consecutive frame, across any number of tables; pages in tables crossed into are unmapped, all others and all other address spaces are as before |
| PageTables.FillKeepsOthersIff | src/kernel/vmem.c:71-87 | pages outside the range keep their translation if and only if none was mapped behind the range in a table crossed into |
| PageTables.FillLosesNeighbour | src/kernel/vmem.c:80-86 | mapping pages 511 and 512 loses page 513 |
| PageTables.Tables.Replace | src/kernel/vmem.c:134-171 | exactly one translation changes, to the new frame and permission; an unmapped page stays unmapped |
| PageTables.Tables.ForkTable | src/kernel/vmem.c:109-132 | the recursive copy of a subtree translates like the source did, RAM made read-only in both and device pages unchanged, and touches nothing else |
| PageTables.Tables.ForkSpace | src/kernel/vmem.c:90-132 | in source and copy alike, a page that was not mapped is not, a page of RAM keeps frame and attributes and is read-only, and a device page is exactly as it was, writable if it was; all new tables belong to the copy; every RAM page that was writable gets recorded, and besides those at most page 0 |
| CowState.AnonInv | src/kernel/interrupt.c:237-245 | demand paging of stack and heap keeps the invariant |
| CowState.TextInv | src/kernel/interrupt.c:228-236 | mapping the program text keeps the invariant |
| CowLoss.TextFilledIff | src/kernel/interrupt.c:228-236 | mapping the text, with all that its new tables lose, keeps the invariant if and only if no RAM page lies in a table it crosses into |
| CowState.UpgradedInv | src/kernel/interrupt.c:280-283 | making a page writable in place keeps the invariant when its count is at most one |
| CowState.CopiedInv | src/kernel/interrupt.c:265-278 | copying a shared page keeps the invariant |
| CowState.ForkInv | src/kernel/syscall.c:170-178 | fork keeps the invariant |
| CowState.ForkIff | src/kernel/syscall.c:170-178 | fork keeps the invariant if and only if the caller's text does not wait to be mapped |
| CowState.ExecInv | src/kernel/syscall.c:105-121 | a first image keeps the invariant |
| CowState.SectionedInv | src/kernel/process.c:213-221 | a new section, disjoint from the others, keeps the invariant |
| CowLoss.DeviceFilledIff | src/kernel/mailbox.c:32-39 | a frame buffer, with all that its new tables lose, keeps the invariant if and only if no RAM page lies in a table it crosses into |
| CowState.RefsBounded | src/kernel/mem.c:698-710 | counts never exceed the number of processes, so the 16-bit counter never wraps |
| CowCount.AllCounted | src/kernel/syscall.c:134-149 | a walk over all pages of all sections has counted every mapped frame exactly once |
| Cow.Kernel.constructor | src/kernel/mem.c:642-645 | no user process and all counts zero satisfy the invariant |
| Cow.Kernel.MapNew | src/kernel/interrupt.c:237-245 | the faulting page maps the new frame, counted once; nobody else's view of memory changes, nor the rest of the process's own |
| Cow.Kernel.LoadText | src/kernel/interrupt.c:228-236 | the whole program appears at page 0, each frame counted once, and pages in tables it crosses into are gone; nobody else's view changes, and the invariant survives if and only if none of those pages was RAM |
| Cow.Kernel.TranslationFault | src/kernel/interrupt.c:218-259 | the page is mapped afterwards if and only if a text, stack or heap section holds the address, otherwise a segmentation fault without effect; in the text the whole program then reads as loaded, elsewhere the page is the only one that changes; the invariant survives if and only if a fault in the text loses no RAM page |
| Cow.BackedPages | src/kernel/process.c:235-242 | a section holds an address only if it holds its page, and, for the first address of a page or for sections of whole pages, exactly if it does |
| Cow.ImageBacked | src/kernel/syscall.c:121-122 | a fresh program may touch the bytes below its size and the four pages of its stack, from the first byte to the last, and nothing else |
| Cow.Kernel.ExecAndTouch | src/kernel/interrupt.c:218-259 | the first fault of a fresh program, the fetch at address 0 included, is resolved exactly in those places; after one in the text, every page of the program reads as loaded |
| Cow.Kernel.Upgrade | src/kernel/interrupt.c:280-283 | the page becomes writable in place; all views stay the same |
| Cow.Kernel.CopyPage | src/kernel/interrupt.c:265-278 | the process goes on with a copy, the counts move with it; all views stay the same |
| Cow.Kernel.WriteFault | src/kernel/interrupt.c:260-289 | a read-only RAM page always ends up writable and mapped by this process alone, with all views unchanged; a segmentation fault happens exactly for pages not recorded as writable |
| Cow.Kernel.Write | src/kernel/interrupt.c:260-289 | a store to a writable page changes only the storing process's view, in that page |
| Cow.Kernel.AddRefSections | src/kernel/syscall.c:134-149 | exactly the frames that the process maps gain one reference, whatever is unmapped |
| Cow.Kernel.Fork | src/kernel/syscall.c:151-178 | the child has the caller's sections and pages; of the mappings only RAM pages lose the right to write, and device pages stay as they were; both read what the caller read, and nobody's view changes; the invariant survives if and only if the caller's text does not wait to be mapped |
| Cow.Kernel.Exec | src/kernel/syscall.c:94-128 | a first image has a text section at 0 and the stack section, nothing mapped yet, and nobody's view changes |
| Cow.Kernel.AddHeap | src/kernel/vmem.c:191-191 | a heap section to be populated on demand: exactly its addresses are backed in addition, and no view changes |
| Cow.Kernel.MapDevice | src/kernel/mailbox.c:32-39 | the pages of the frame buffer lead, writable, to the device pages one by one, and pages in tables it crosses into are gone; nobody else's view changes, and the invariant, with the process's own view, survives if and only if none of those pages was RAM |
| CowRuns.StepInv | src/kernel/interrupt.c:218-289 | every event of the protocol keeps the invariant |
| CowRuns.StepSees | src/kernel/interrupt.c:218-289 | no event changes what a process other than the acting one reads |
| CowRuns.RunInv | src/kernel/interrupt.c:218-289 | the invariant holds throughout every run of faults, forks, first execs, new sections, frame buffers and stores whose mappings cross into no RAM page |
| CowRuns.Isolation | src/kernel/interrupt.c:218-289 | over every run a process that takes no step itself reads at the end what it read at the start |
| CowRuns.RefsCountEntries | src/kernel/mem.c:698-729 | every RAM page but page 0 has as many references as leaf entries map it in all user tables, at most MAX_PROC |
| CowRuns.WritableIsSole | src/kernel/interrupt.c:264-283 | a RAM page mapped writable is mapped by that one entry only |
| CowRuns.OnlyTextExecutes | src/kernel/interrupt.c:228-245 | over every run, a page of RAM is executable by the user if and only if it is program text |
| CowRuns.FrameBufferLosesHeapPage | src/kernel/vmem.c:80-86 | a run of exec, text, one heap page and a frame buffer of 768 pages after which the heap page is unmapped and the counts are wrong |
| Ring.Buffer.Produce | src/kernel/ring_buf.c:4-26 | the element is appended to the sequence, also across the wrap point |
| Ring.Buffer.Consume | src/kernel/ring_buf.c:28-50 | the first element of the sequence leaves |
| Ring.Buffer.Full | include/kernel/ring_buf.h:42-45 | full means 511 elements |
| Ring.Buffer.Insert | src/kernel/interrupt.c:48-71 | producing and swapping backwards across the wrap point is sorted insertion into the sequence, and it is known whether the new element came first |
| Ring.InsertedSorted | src/kernel/interrupt.c:90-106 | insertion keeps the sequence sorted |
| Ring.InsertedMultiset | src/kernel/interrupt.c:90-106 | insertion adds the element and loses none |
| Ring.InsertedStable | src/kernel/interrupt.c:90-106 | among equal keys the new element is last and the others keep their order |
| TaskRuns.RunDiscipline | src/kernel/interrupt.c:303-324 | every task started while a given task runs, at any depth of nesting, is at least as urgent as what it interrupts and as all that is queued; afterwards only strictly less urgent tasks are queued |
| TaskRuns.DrainDiscipline | src/kernel/interrupt.c:303-324 | the same for processing the queue |
| TaskRuns.HandleDiscipline | src/kernel/interrupt.c:73-124 | the same for every sequence of interrupts that arrive in a handler |
| TaskRuns.RunPreemptible | src/kernel/interrupt.c:303-324 | while a task's handler runs, each more urgent interrupt starts at once on its arrival, interrupting that handler and before anything that arrives later; nothing less urgent than the handler starts in it |
| TaskRuns.HandlePreempts | src/kernel/interrupt.c:73-124 | the same for every task started, at every depth of every tree of interrupts |
| TaskRuns.HandleOnce | src/kernel/interrupt.c:73-108 | over every tree of interrupts, what has run plus what is queued is what there was plus what arrived |
| TaskRuns.Burst | src/kernel/interrupt.c:73-124 | any tree of interrupts on an idle machine ends with an empty queue and the initial priority, every task of the tree started exactly once, each in turn of urgency and preempted by whatever more urgent arrives during its handler |
| Tasks.Queue.AddTask | src/kernel/interrupt.c:73-108 | does what the functions on values say, as long as the queue never needs more than 511 places |
| Tasks.Queue.ProcessTask | src/kernel/interrupt.c:303-324 | does what the functions on values say, with the interrupted priority restored |
| Timers.CompareExact | src/kernel/interrupt.c:143-144 | the comparator gets the intended deadline if and only if the interval, as a signed number, fits 32 bits |
| Timers.LongTimeoutMisses | src/kernel/interrupt.c:394-395 | a timeout of two minutes at 19.2 MHz does not reach the comparator |
| Timers.OverdueExact | src/kernel/interrupt.c:143-144 | a timer set earlier with an expressible duration can be armed for, if and only if it is overdue by at most 2^31 ticks |
| Timers.AlwaysArmed | src/kernel/interrupt.c:31-148 | in every state of every run of new and expiring timers with expressible durations, the comparator of a non-empty queue holds the earliest deadline, late by the delay of the last write |
| Timers.FirstIsEarliest | src/kernel/interrupt.c:131-148 | the first timer in the queue is the one with the earliest deadline |
| Timers.SetAllKeeps | src/kernel/interrupt.c:31-71 | any series of new timers keeps the queue sorted and loses none |
| Timers.Queue.AddTimer | src/kernel/interrupt.c:31-71 | sorted insertion by deadline; a timer that comes first sets the comparator to its deadline, late by exactly the ticks that passed before the write, if and only if its duration can be expressed; any other leaves it as it was |
| Timers.Queue.Rearm | src/kernel/interrupt.c:140-145 | the comparator holds the first deadline, late by exactly the ticks that passed before the write, if and only if the distance to it can be expressed |
| Timers.Queue.Expire | src/kernel/interrupt.c:110-148 | the first timer leaves, those its handler sets are inserted, and the comparator is armed for the next |
| Lists.List.Push | src/kernel/list.c:4-19 | the element is last in the sequence, and the links spell it out both ways |
| Lists.List.Pop | src/kernel/list.c:21-40 | the first element leaves; NULL for an empty list |
| Lists.List.Delete | src/kernel/list.c:42-75 | the first occurrence leaves, wherever it is; a missing element changes nothing |
| Lists.List.Find | src/kernel/list.c:77-94 | the first match, and NULL exactly if there is none |
| Lists.List.RmAndProcess | src/kernel/list.c:96-123 | the matches leave, in the order in which the operation sees them, and the others stay in order |
| SchedState.WakeAllIs | src/kernel/list.c:96-123 | exactly the waiters for the pid go to the end of the ready queue, in order, and the others keep waiting, in order |
| SchedRuns.CreateInv | src/kernel/process.c:90-130 | a new process keeps conservation: one runs, and every other is in the one queue of its state, once |
| SchedRuns.ScheduleInv | src/kernel/process.c:186-206 | round robin: the head of the ready queue runs, the old process goes to its end; conservation is kept |
| SchedRuns.WaitInv | src/kernel/process.c:265-286 | a process other than idle that waits always finds somebody to switch to; conservation is kept |
| SchedRuns.MournKeeps | src/kernel/syscall.c:130-132 | after waking, nobody in the process wait queue waits for the dead pid |
| SchedRuns.ExitInv | src/kernel/syscall.c:213-231 | a process other than idle that exits is dead, nobody waits for it any more, and the head of the ready queue runs |
| SchedRuns.KillInv | src/kernel/syscall.c:233-268 | a killed process is dead, out of its queue and waited for by nobody; a missing or dead one changes nothing |
| SchedRuns.ReapInv | src/kernel/process.c:244-256 | exactly the dead leave the table |
| SchedWaiting.Conservation | src/kernel/process.c:90-299 | conservation holds in every state of every run of creation, switching, waiting, waking, exit, kill and reaping |
| SchedWaiting.Advances | src/kernel/process.c:132-140 | a ready process advances with every switch, runs when it is first, and never falls back |
| SchedWaiting.Dispatched | src/kernel/process.c:132-206 | a ready process with k others ahead of it runs within k + 1 switches unless it is killed |
| SchedWaiting.SearchExact | src/kernel/process.c:96-102 | the search finds a pid if and only if it is the least free one after the last pid, or of all if the last is the greatest; it leaves the table if and only if the last pid is not the greatest and every greater one is taken; it reports exhaustion if and only if the last pid is the greatest and all are taken |
| SchedWaiting.SearchDoesNotWrap | src/kernel/process.c:96-102 | a running system with four processes in which the search leaves the table |
| SchedLife.Lives | src/kernel/process.c:90-299 | in every step, what becomes of each single process: created, dispatched, put to sleep with what it waits for, woken exactly by input or output as the first waiter or by the end of the process it has named, ended, reaped, or left alone |
| SchedLife.WokenByOne | src/kernel/syscall.c:130-132 | after wait for the end of a process, the end of that process makes the caller ready and the end of any other leaves it waiting |
| SchedLife.SleepsOn | src/kernel/syscall.c:213-268 | a sleeper that is not killed sleeps on after a step if and only if the process it waits for does not end in it, and is ready otherwise |
| SchedLife.WaitEnds | src/kernel/process.c:265-299 | over every run: who waits for the end of a process and is not killed stays asleep until that process exits or is killed, and is ready then |
| Scheduler.Processes.constructor | src/kernel/process.c:61-84 | the shell running as process 0 and idle ready as process 1 satisfy conservation |
| Scheduler.Processes.ThreadCreate | src/kernel/process.c:90-130 | the new process has the least free pid after the last one and is ready; -1 without effect exactly if all are taken |
| Scheduler.Processes.SwitchToNext | src/kernel/process.c:132-140 | the head of the ready queue becomes current and running |
| Scheduler.Processes.Reschedule | src/kernel/process.c:186-206 | is the schedule step of the runs; nothing happens if nobody else is ready |
| Scheduler.Processes.Sleep | src/kernel/process.c:265-286 | is the wait step of the runs, and never falls through |
| Scheduler.Processes.WakeFirst | src/kernel/process.c:288-299 | is the wake step of the runs: the first waiter becomes the last of the ready queue |
| Scheduler.Processes.WakeWaiters | src/kernel/syscall.c:223-223 | the scan with removal is the wake-up of all waiters for the pid |
| Scheduler.Processes.Exit | src/kernel/syscall.c:213-231 | is the exit step of the runs, and never falls through |
| Scheduler.Processes.Kill | src/kernel/syscall.c:233-268 | is the kill step of the runs; a pid without a process is reported |
| Scheduler.Processes.KillZombies | src/kernel/process.c:244-256 | the pids of the dead, and only those, become free |
| SchedLists.PopNext | src/kernel/process.c:132-133 | popping the linked ready list gives the process that the step dispatches, and leaves the queue of the step |
| SchedLists.Rotate | src/kernel/process.c:189-206 | pushing the old process and popping the next on the linked list is the schedule step |
| SchedLists.MoveFirst | src/kernel/interrupt.c:329-331 | popping a waiter and pushing it on the ready list is the wake step |
| SchedLists.MoveWaiters | src/kernel/syscall.c:223-223 | the removal with processing on the linked lists is the wake-up of all waiters for the pid |
| SchedLists.MoveToDead | src/kernel/syscall.c:247-258 | deleting from the linked list and pushing on the dead list are the queues of a killed process |
| SchedLists.Drain | src/kernel/process.c:244-256 | popping the dead list until it is empty frees exactly the pids of the dead |
| FatTable.Set | src/kernel/fat32.c:37-41 | the new value is in the low 28 bits of the entry, and the upper four bits stay |
| FatTable.NewChain | src/kernel/fat32.c:181-188 | a new file's chain leaves all chains disjoint, acyclic and terminated |
| FatTable.Grown | src/kernel/fat32.c:259-266 | a chain that grows at its end leaves all chains disjoint, acyclic and terminated |
| FatTable.Fat.FreeCluster | src/kernel/fat32.c:97-104 | the first free cluster, and failure exactly if there is none |
| FatTable.Fat.Create | src/kernel/fat32.c:181-188 | one more chain, of one cluster that no other chain has; the others are as before, entry by entry |
| FatTable.Fat.Advance | src/kernel/fat32.c:259-269 | the next cluster of the chain, which grows by one free cluster exactly if it ended here; no entry of another chain changes |
| FatSectors.WriteDone | src/kernel/fat32.c:245-257 | writing sector by sector is one overwrite and extension of the byte sequence |
| FatFile.File.LoadContent | src/kernel/fat32.c:54-69 | the cache holds the sectors of the chain in order: for a file as many as its size needs, for a directory all; the end mark must be exact only where it is looked at |
| FatFile.File.ByteOnDisk | src/kernel/fat32.c:12-69 | where each byte of a file is on the disk: the clusters of its chain one after the other, the cluster number giving the block |
| FatFile.File.Read | src/kernel/fat32.c:279-305 | exactly the slice of the file's bytes at the position, as far as the file goes, and nothing at its end |
| FatFile.File.WriteSectors | src/kernel/fat32.c:245-269 | across any number of sectors and clusters: the bytes are in place, and the chain has grown at its end only |
| FatFile.File.Write | src/kernel/fat32.c:227-277 | the file's bytes are overwritten and extended at the position; its chain is extended at the end by what the walk needed, and its sectors cover the new size if and only if it was long enough; no entry of another chain and no other file's bytes change |
| FatFile.File.Seek | src/kernel/tmpfs.c:58-87 | which seeks are accepted and where they lead; the position stays in the file if and only if it is not a seek from the end to before the start |
| FatFile.SeekBeforeStart | src/kernel/tmpfs.c:75-80 | in an empty file a seek to one byte before the end is accepted and leads to the largest 64-bit position |
| FatFile.File.WriteSeekRead | src/kernel/fat32.c:227-305 | what was written is read back after a seek, and the rest of the file is as before |
| FatFile.CreateFile | src/kernel/fat32.c:173-193 | an empty file on the same volume with a chain of its own; no other file's bytes change |
| FatFile.CrossingsAre | src/kernel/fat32.c:259-269 | a write advances as often as cluster boundaries lie between its first sector and the end of its last |
| FatFile.CoversIff | src/kernel/fat32.c:233-269 | so many clusters that hold the file still do after a write, if and only if they were enough for it already, or the write starts in the first cluster, or in the second and ends with a cluster |
| FatFile.ChainCoversIff | src/kernel/fat32.c:54-69 | on a disk with room for the table, the sectors of a chain that held the file hold it after a write, under exactly that condition |
| FatFile.ThirdAppendIsNotCovered | src/kernel/fat32.c:233-269 | with one sector per cluster, three appends of a sector leave two clusters |
| Paths.Tokens.Next | src/kernel/string.c:68-98 | successive calls give the fields between delimiters one by one, empty ones included, and then NULL |
| Paths.FieldsOfJoin | src/kernel/string.c:84-94 | splitting undoes joining |
| Paths.JoinOfFields | src/kernel/string.c:84-94 | joining undoes splitting, and no field contains the delimiter |
| VfsTree.PathUnique | src/kernel/vfs.c:42-59 | a node is reached by one path only |
| VfsTree.CreateKeeps | src/kernel/vfs.c:207-261 | creating a node under a name that was not found keeps the tree and unique visible sibling names |
| VfsTree.MountShadows | src/kernel/vfs.c:110-131 | every path through the mount point resolves its rest from the new root |
| VfsTree.ShadowsIff | src/kernel/vfs.c:110-131 | every path through the mount point resolves its rest from the new root, if and only if the new root has the hidden node's name |
| VfsTree.MountElsewhere | src/kernel/vfs.c:110-131 | every path that does not pass through the mount point resolves as before |
| VfsTree.MountKeepsIff | src/kernel/vfs.c:110-131 | mounting keeps the tree, and unique visible sibling names if and only if the new root's name is free beside the hidden node |
| Vfs.ResolvesWalk | src/kernel/vfs.c:18-71 | an absolute path of plain components resolves by following them from the root |
| Vfs.FindOutcome | src/kernel/vfs.c:18-71 | every path without empty components: it starts at the root, in the working directory or in its parent, and the outcome, be it a node with its parent and name, a missing last component or a missing directory, is that of following the components from there |
| Vfs.SlashEnds | src/kernel/vfs.c:42-59 | an empty component ends a path: what follows is ignored, and what is before it must exist |
| Vfs.FindAdded | src/kernel/vfs.c:207-261 | after a node is created, the path that was missing leads to it, and every path that led somewhere leads there still |
| Vfs.DotDotIsParent | src/kernel/vfs.c:30-31 | in a directory reached by a path, `..` is the directory before it on that path |
| Vfs.CoveredParents | src/kernel/vfs.c:110-131 | a mount keeps every node pointing to the directory it is in, the new root to that of its mount point |
| Vfs.MountByPath | src/kernel/vfs.c:87-134 | mount shadowing for path names, both below the mount point and elsewhere |
| Vfs.PlainByName | src/kernel/vfs.c:18-71 | an absolute path of plain components reaches its node by name |
| Vfs.SecondDotMount | src/kernel/vfs.c:110-131 | a tree in which mounting on `.` finds the name taken |
| Vfs.CoveredShadowsIff | src/kernel/vfs.c:110-131 | after a mount on a found node, the node's absolute path leads into the new tree, whatever follows, if and only if the last component of the mount's path was the node's own name |
| Vfs.DotMountLosesPath | src/kernel/vfs.c:110-131 | a mount on `.` after which the directory's absolute path leads nowhere |
| Vfs.FileSystem.FindParent | src/kernel/vfs.c:18-71 | the loop over tokens reports, for every path, what following its components gives |
| Vfs.FileSystem.Create | src/kernel/vfs.c:207-261 | a node appears exactly if the last component, and only that, was missing, and the same path finds it afterwards; unique names and parents are kept |
| Vfs.FileSystem.Mount | src/kernel/vfs.c:87-134 | on `/` the new root replaces the old; elsewhere it succeeds exactly on an existing directory, which is then hidden behind the new root, and names stay unique if and only if the name is free, as for every target reached by name |

## Left out

- Slab.Allocator.Malloc: requires, for a request that is served from a pool, a free chunk or a free page, because the source goes on with page 0 when there is none.
- Slab.Allocator.AddPage: requires a free page, for the same reason.
- Slab.Allocator.Free: with `int` masks, requires that the address is not in a dead chunk whose bit a live chunk shares; `SlabHeap.IntMasksNameIff` says in which pools that can happen and `SlabHeap.IntMasksFreeDeadChunk` what it does to the record.
- PageTables.Tables.Translate: only user addresses; kernel addresses use another root table of the same form.
- Scheduler.Processes.ThreadCreate: requires that the search stays in the table, behind which the source reads arbitrary memory; `SchedWaiting.SearchExact` says exactly when it does.
- Scheduler.Processes.Exit: the queues are sequences in the class; `SchedLists` has the same steps on the linked lists.
- FatFile.File.Read: at the very end of a file whose last sector is full, requires a further sector in the cache, because the source reads through a null pointer there; a position beyond the end is not modelled.
- FatFile.File.Write: requires a position inside the file or at its end, and enough free clusters.
- Address-space teardown (`free_sections`, exec over a live image): reference counts are not conserved there, because sections are taken to be physically contiguous.
- The search for free addresses in mmap and its MAP_POPULATE path; the noise on the count of page 0.
- Interrupt masking inside operations, and the context switch inside `timer_int`.
- Waiting for a full or empty ring buffer: the operations require room, or something to consume.
- FAT32: directory entries, long names, growth of a directory, flushing the cache to disk.
- Wake-up liveness: a child may exit before its parent waits for it, and the parent then sleeps until a process with that pid ends (`SchedLife.WaitEnds`).
- `list_copy`, signals, file descriptors, tmpfs contents, the shell, drivers, boot code and assembly.
