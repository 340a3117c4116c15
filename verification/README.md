# NovaOS kernel: model and proofs

NovaOS is a small 32-bit x86 teaching kernel. This project models its hard parts in Dafny and proves what they are
for. Values are functions and lemmas; code that updates memory in place is a class whose methods are proved equal, step
by step, to those functions.

- **Address spaces** (`kernel/mm.c`, `kernel/paging.c`): the frame bitmap and reference counters, page directories and
  tables as words in frames, fork with copy-on-write, the write fault, the TLB. The main result is that copy-on-write
  cannot be observed: every run, seen through the page tables, is a run of a machine that copies at fork.
- **Processes** (`kernel/sched.c`, `kernel/isr_stubs.asm`, `kernel/user.c`, the fork, exit and sleep calls of
  `kernel/syscall.c`): interrupt frames in stack memory, the round-robin tick, fork, exit, thread and program creation,
  the ELF loader, the kernel heap the stacks come from. The main result is that every run is a run of ideal processes
  that own their registers and pages, with exact bounds on waiting and the exact conditions under which a step is
  defined.
- **Kernel heap** (`kernel/kheap.c`): block headers inside the arena, first fit, splitting, forward merging.
- **FAT12** (`kernel/fat.c`, `tools/mkdata.py`): 12-bit entries, chains, directory slots, both FAT copies, the sectors
  and the one static buffer, and the image builder. The main result goes from sectors to names: a mounted driver given
  any sequence of calls answers like a finite map from names to bytes.
- **Open files** (`kernel/syscall.c`): eight buffered descriptors over that driver, refining independent byte arrays.
- **Formatted output** (`libc/printf.c`): digits, fields, and the bounded buffer of `kvsnprintf`.

Where a result needs a condition, the condition is the guard of the branch that fails, and a lemma says that it is
exact; "Findings" below lists these places. Where code and its comments disagree, the model follows the code.

How the modules build on one another: `Frames`, `Paging`, `AddressSpaces`, `SpaceOps`, `PageOps`, `SpaceTeardown`,
`CowRuns`, `CowRefinement`, `FrameAccounting`, `SpaceEntries`, with `Machine` the code in place; `HeapBlocks`,
`HeapRuns`, with `KernelHeap` the code in place; `TaskFrames`, `Tasks`, `TaskStacks`, `TaskSpaces`, `TaskInv`,
`TaskSwitch`, `TaskBirth`, `TaskFork`, `ElfImages`, `ElfLoading`, `ElfRoom`, `TaskSpawn`, `TaskLife`, `TaskRuns`,
`TaskFairness`, `TaskSlices`, `TaskPids`, `TaskHeap`, `TaskDefined`, with `Schedulers` the code in place;
`FatEntries`, `FatChains`, `FatVolume`, `FatInvariant`, `FatDelete`, `FatAlloc`, `FatCreate`, `FatRefinement`,
`FatRuns`, `FatNames`, `FatImage`, `FatLayout`, `FatScan`, `FatLimits`, with `FatDriver`, `FatBuilder` and
`FatService` the code in place; `OpenFiles` and `OpenFileLaws` with `OpenFileTable`; `Numerals`, `Formats` and
`FormatMeanings`.

## Model

| member | source | states |
|---|---|---|
| `CowRefinement.CowRefinesEager` | kernel/paging.c:149-252 | Copy-on-write is unobservable: for every run of create, fork, destroy, map, CR3 loads, ring-3 loads and stores and TLB changes, the page contents seen through the tables form a run of the machine that copies at fork, with the same result for every event. Given how many frames are free, a fork or creation succeeds exactly with two, a mapping exactly with one for each missing page, and a store to a mapped page fails only with none |
| `CowRuns.MapRegionMaps` | kernel/paging.c:216-226 | Mapping a region below 4 MB adds exactly its missing pages, one frame each, or as many as there are frames, lowest first; it succeeds exactly when they suffice, and frees plus pages stay the same number |
| `CowRuns.RegionIsBytes` | kernel/paging.c:216-226 | Those pages are exactly the pages of the user window that hold a byte of the region |
| `CowRefinement.RunKeepsInv` | kernel/paging.c:133-252 | In every reachable state reference counts are exact, the bitmap is exact, nothing writable is shared, each space has two tables of its own, and the TLB agrees with the tables |
| `CowRefinement.StoreOutcome` | kernel/paging.c:232-252 | A ring-3 store, with its write fault and retry, fails exactly when the page is not mapped, or is read-only with no frame free; a failed store changes nothing |
| `CowRefinement.WritesStayPrivate` | kernel/paging.c:149-188 | A store by the loaded space changes no page of any other space |
| `CowRefinement.TlbRefines` | kernel/paging.c:232-252 | A TLB fill or eviction is no step of the eager machine: it keeps the invariant and every page |
| `CowRefinement.BootedInv` | kernel/paging.c:26-61 | After `mm_init` and `paging_init` the invariant holds with no space, and the abstract state is empty |
| `CowRefinement.SomeBooted` | kernel/paging.c:26-61 | There is such a boot state, so the theorems about runs from it are not empty |
| `AddressSpaces.RefsBounded` | kernel/mm.c:53-55 | At most 104 spaces exist, so a counter never exceeds their number and the saturation at 255 is never reached |
| `AddressSpaces.SpaceLayout` | kernel/paging.c:26-61 | Every space maps the kernel's pages of the first 4 MB to themselves, writable and closed to ring 3, nothing above them, and opens pages of 0x200000 to 0x2FFFFF to ring 3 only if they are its own |
| `SpaceOps.CreateKeepsInv` | kernel/paging.c:133-147 | Creation fails without changing anything, also when only one of its two frames could be had, or adds one space and keeps the invariant |
| `SpaceOps.ForkKeepsInv` | kernel/paging.c:149-188 | A fork of a space fails without changing anything or adds one space and keeps the invariant, its downgrades and increments included; when it succeeds is `FrameAccounting.ForkSucceedsIff` |
| `SpaceTeardown.DestroyKeepsInv` | kernel/paging.c:190-214 | Destroying a space that is not loaded keeps the invariant for the remaining spaces |
| `SpaceEntries.EntriesDetermineFrames` | kernel/mm.c:53-63 | Two consistent states with the same user entries have the same bitmap and counters: no frame is lost or kept without an entry naming it |
| `SpaceEntries.NamesDetermineFrames` | kernel/mm.c:53-63 | It is enough that the same spaces name the same frames, writable or not |
| `SpaceEntries.MapRegionEntries` | kernel/paging.c:216-226 | Mapping a region changes no other space's entries and leaves a fully writable space fully writable |
| `PageOps.MapRegionKeepsInv` | kernel/paging.c:119-127 | Mapping a region, also one that runs out of frames half-way or maps over mapped pages, keeps the invariant |
| `PageOps.CowFaultEffect` | kernel/paging.c:232-252 | A resolved fault points the faulting page alone at a new frame holding a copy of the old one and drops exactly its translation |
| `PageOps.CowFaultRefused` | kernel/paging.c:232-252 | A fault that is not a ring-3 write to a present read-only page, or finds no frame, changes nothing; a resolvable one is resolved, or is wild exactly when the old or new frame is out of the kernel's reach |
| `FrameAccounting.RefsCountPlaces` | kernel/mm.c:8-9 | `frame_refs[f]` is the number of present page-table words, over all live spaces, that name f |
| `FrameAccounting.FramesConserved` | kernel/mm.c:30-63 | Frames in use are two per live space plus the distinct mapped frames, and no others |
| `FrameAccounting.AllDestroyed` | kernel/paging.c:190-214 | Once every space is destroyed the allocator is back in its boot state |
| `FrameAccounting.SmallRunsNeverWild` | kernel/paging.c:133-252 | In a run with at most 206 frames in use, no enabled step writes through an address that is not identity-mapped |
| `FrameAccounting.CreateWildIff` | kernel/paging.c:133-147 | Creation writes through an unmapped address exactly when the second-lowest free frame lies in the user window |
| `FrameAccounting.ForkWildIff` | kernel/paging.c:149-188 | The same exact condition for a fork |
| `FrameAccounting.CreateSucceedsIff` | kernel/paging.c:133-147 | Creation returns a new directory exactly when two frames are free and the second-lowest is below the user window |
| `FrameAccounting.ForkSucceedsIff` | kernel/paging.c:149-188 | So does a fork of any live space, loaded or not |
| `FrameAccounting.SecondSpaceAfterFullImage` | kernel/user.c:80-105 | The condition is met: boot, create a space, map the largest region an image may use, and the next creation is wild |
| `Frames.AllocFirstFit` | kernel/mm.c:30-38 | Allocation fails exactly when no frame is free, and otherwise takes the lowest free one and changes no other bit |
| `Frames.AllocCounts` | kernel/mm.c:30-38 | Allocation fails exactly when no frame is free, and otherwise leaves one fewer |
| `Frames.FreeAtBoot` | kernel/mm.c:22-28 | At boot the 464 frames from 0x130000 up to 0x300000 are free and no others, and no frame is referenced |
| `Frames.FrameAllocator.FrameAlloc` | kernel/mm.c:30-38 | The loop over the bitmap bytes in place does what `Alloc` does to the table of flags |
| `Frames.FrameAllocator.FrameFree` | kernel/mm.c:40-44 | Clearing the bit in place clears that flag alone; frames out of range are ignored |
| `Frames.FrameAllocator.FreeFrames` | kernel/mm.c:46-51 | The result is the number of clear bits |
| `Frames.FrameAllocator.Inc` | kernel/mm.c:53-55 | The counter goes up by one unless it is 255 or the frame is out of range |
| `Frames.FrameAllocator.Dec` | kernel/mm.c:57-63 | The counter goes down unless zero, and the frame is freed at zero |
| `Machine.Memory.PagingInit` | kernel/paging.c:26-61 | The 1024 entries written in place are the kernel's tables exactly when the loader left directory entries 1 and up empty; nothing else changes |
| `Machine.Memory.CreateSpace` | kernel/paging.c:133-147 | The loops in place do what `Create` says and keep the invariant |
| `Machine.Memory.ForkSpace` | kernel/paging.c:149-188 | The loops in place do what `Fork` says: parent entries downgraded, child entries shared, counters incremented, translations flushed |
| `Machine.Memory.DestroySpace` | kernel/paging.c:190-214 | The loop in place does what `Destroy` says |
| `Machine.Memory.MapUserRegion` | kernel/paging.c:216-226 | The page loop in place does what `MapRegion` says, stopping at the first page it cannot map |
| `Machine.Memory.HandleFault` | kernel/paging.c:232-252 | The fault handler in place does what `CowFault` says and keeps the invariant |
| `TaskRuns.RunIsIdeal` | kernel/sched.c:251-453 | Every step of every run, tick, fork, exit, sleep, thread and program creation, computing, loading and storing, is a step of ideal processes that own their registers and pages; a fork or creation that has slot, frames and heap space succeeds, and one that lacks any of them fails |
| `TaskRuns.UndisturbedWhileParked` | kernel/sched.c:251-319 | While a process does not run, nothing the others do changes a register or a page of it |
| `TaskRuns.ResumesWhereItWas` | kernel/sched.c:251-319 | A task preempted by a tick resumes with the registers and pages it had, whatever ran in between |
| `TaskRuns.RunningOnItsOwn` | kernel/sched.c:283-310 | Whenever a task runs, CR3 and the TSS stack are its own, its privilege level matches its kind, and no two live processes share a directory |
| `TaskRuns.FramesOfProcesses` | kernel/sched.c:244-249 | However processes come and go, frames in use are two per live process plus those its pages name |
| `TaskRuns.HaltedIff` | kernel/sched.c:380-453 | The machine halts exactly when the last live task exits |
| `TaskRuns.BootOk` | kernel/sched.c:52-71 | Adopting the boot thread establishes the invariant, with that one process and a full slice |
| `TaskRuns.SomeBooting` | kernel/sched.c:105-110 | There is a state the kernel boots in, with an empty task table, so runs exist |
| `TaskRuns.RunKeepsInv` | kernel/sched.c:39-46 | The scheduler's invariant holds after every prefix of every run |
| `TaskFairness.BoundedWaiting` | kernel/sched.c:331-353 | In a run without sleeps that starts with at most a full slice, a ready slot runs before 90 ticks have passed, through any forks, exits and reuse of slots |
| `TaskFairness.WaitingWithSleeps` | kernel/syscall.c:234-258 | In any run it comes to run before 85 ticks, the rest of the running slice and 1000 ticks per sleep have passed |
| `TaskFairness.SleepersStarveOthers` | kernel/syscall.c:234-258 | From every state with another live slot i, for every n, the run that sleeps before each of n ticks never runs i |
| `TaskSlices.GetsFiveTicks` | kernel/sched.c:331-353 | A task that comes to run keeps the processor through five ticks, unless it exits or sleeps |
| `TaskSlices.RunsItsSlice` | kernel/sched.c:331-353 | From any state the running task stays on the processor for the ticks left of its slice |
| `TaskSlices.TickSpent` | kernel/sched.c:331-353 | A tick that finds the slice spent and another task ready switches, to a ready slot no farther round the table than any other, with a slice of 5 |
| `TaskSlices.SleepSlice` | kernel/syscall.c:234-258 | Sleeping makes the slice the value of ebx, cut to between 1 and 1000 |
| `TaskPids.PidsAreNames` | kernel/sched.c:132-151 | At every point of every run live tasks have different pids, and the next pid never goes back |
| `TaskPids.ForkNamesChild` | kernel/sched.c:183-217 | What a successful fork leaves in the parent's eax is the pid in the child's slot, and no other live task's, before or after |
| `TaskHeap.CreationsAreFew` | kernel/sched.c:115-217 | However many processes exit in between, a run adds at most 127 processes |
| `TaskHeap.FailedForkGivesBack` | kernel/sched.c:183-217 | A fork that answers 0 has given back every frame, has the same live heap blocks as before, and refuses no request that could be met before |
| `TaskHeap.FailedThreadIff` | kernel/sched.c:132-149 | A failed `task_create` leaves the heap as it was exactly when it did not get as far as its stack |
| `TaskSwitch.SwitchOk` | kernel/sched.c:251-319 | A switch to any live slot parks the outgoing registers and resumes the incoming ones on its own space and stack; no process changes |
| `TaskSwitch.TickOk` | kernel/sched.c:331-353 | A tick, whether it switches or not, changes the registers and pages of no process |
| `TaskPick.NextReadyNone` | kernel/sched.c:339-352 | The cyclic search passes over no ready slot in its range |
| `TaskFrames.PushPop` | kernel/isr_stubs.asm:85-120 | What the stub pushes and `iret` pops restores every register, in ring 0 and ring 3 |
| `TaskFork.ForkOk` | kernel/sched.c:183-217 | The parent goes on with the child's pid in eax, the child has its registers with eax = 0, pages that read the same and that pid in its slot, nobody else changes; a failed fork answers 0 and changes no process. It fails exactly when all sixteen slots are live, two frames within reach are lacking, or the heap has no room for 256 and then 8192 bytes |
| `TaskLife.ExitOk` | kernel/sched.c:380-453 | Exit removes exactly the exiting process and resumes another on its own space, or halts exactly when none is left; it never goes astray |
| `TaskLife.LeftVm` | kernel/sched.c:244-249 | The exiting process's directory is released only after CR3 has left it |
| `TaskSpawn.CreateUserOk` | kernel/sched.c:151-167 | `task_create_user` fails exactly for want of a slot or of an interrupt stack and then adds nobody; otherwise, given heap room for its first frame, it adds one process with eip = `entry`, esp = 0x2F0000, ring-3 selectors, interrupts on and all other registers zero |
| `TaskSpawn.CreateThreadOk` | kernel/sched.c:132-149 | `task_create` fails exactly for want of a slot or of its two stacks; otherwise it adds one thread with eip = `fn`, ring-0 code selector, interrupts on, and esp at the end of its own 16 KB stack |
| `TaskSpawn.StackMarked` | kernel/sched.c:132-149 | The unused part of that stack holds 0xCC bytes |
| `TaskSpawn.NoAreaStillReady` | kernel/sched.c:89-103 | The task `task_create_user` reports success for has a null frame exactly when the heap had no room for the first frame, and is ready all the same |
| `TaskSpawn.SpawnOk` | kernel/user.c:107-131 | `user_spawn` adds a process about to run at the image's entry point, with the 8 KB below its esp mapped and the image in its pages, or changes no process and gives back every frame. With an image that makes sense it succeeds exactly when there are a slot, two frames for tables within reach, a frame for each page, and heap room for an interrupt stack |
| `TaskSpawn.SpawnAstrayIff` | kernel/user.c:107-131 | With an image that makes sense it touches unmapped memory exactly when the tables of the new space would be out of the kernel's reach |
| `ElfLoading.LoadElfOk` | kernel/user.c:80-105 | Loading an image that makes sense never goes astray, and on success every LOAD segment reads back through the new space's tables: file bytes below `filesz`, zeros up to `memsz` |
| `ElfRoom.LoadElfIff` | kernel/user.c:80-105 | Loading an image that makes sense into an empty space succeeds exactly when every LOAD segment lies between 0x200000 and 0x2F0000 and inside the file, and there is a frame for each page they touch; the space then has those pages and no others |
| `TaskSpawn.LoadImageIff` | kernel/user.c:107-125 | The same with the two stack pages and a nonzero entry point |
| `ElfRoom.HeaderLayout` | kernel/user.c:67-91 | Magic number, type, machine, entry point and header table are read little-endian at the offsets of the ELF header |
| `ElfRoom.SegmentLayout` | kernel/user.c:74-98 | So are type, offset, address and sizes of a program header |
| `ElfLoading.LoadElfKeeps` | kernel/user.c:80-105 | Whatever the image, no other space changes |
| `ElfLoading.LoadedBytes` | kernel/user.c:92-102 | The byte a process reads at each address of a LOAD segment |
| `TaskDefined.ForkAstrayIff` | kernel/sched.c:183-217 | Fork touches unmapped memory exactly when a slot is free and the space is wild, or space and copy block are had and the parent's interrupt stack ends less than the copied bytes before the heap's end |
| `TaskDefined.StepDefined` | kernel/sched.c:183-453 | With few frames in use every enabled step is defined, except such a fork and a malformed image |
| `TaskDefined.SmallRunsDefined` | kernel/sched.c:183-453 | The same in any state of a run that never has more than 206 frames in use |
| `TaskDefined.LastBlockStack` | kernel/sched.c:124-130 | A stack taken from a last block of its own size has that bad end, whatever task gets it |
| `Schedulers.Scheduler.Tick` | kernel/sched.c:331-353 | The loop over the table in place does what `TickBody` says |
| `Schedulers.Scheduler.SwitchToTask` | kernel/sched.c:251-319 | Saving, CR3, TSS and resuming in place do what `SwitchTo` says |
| `Schedulers.Scheduler.ExitCurrent` | kernel/sched.c:380-453 | Exit in place does what `ExitBody` says, halting included |
| `Schedulers.Scheduler.ForkUserTask` | kernel/sched.c:183-217 | Fork in place does what `ForkUser` says, and is lost exactly when that is astray |
| `Schedulers.Scheduler.CreateUserTask` | kernel/sched.c:151-167 | Creation in place does what `CreateUser` says |
| `Schedulers.Scheduler.Create` | kernel/sched.c:132-149 | Thread creation in place does what `CreateThread` says |
| `Schedulers.Scheduler.SpawnProgram` | kernel/user.c:107-131 | `user_spawn` in place does what `Spawn` says |
| `Schedulers.Scheduler.TimerInterrupt` | kernel/isr.c:52-74 | A whole timer interrupt, stub to `iret`, keeps the invariant and every process |
| `Schedulers.Scheduler.ForkInterrupt` | kernel/isr.c:75-86 | A whole fork interrupt keeps the invariant and is a fork of the ideal machine |
| `Schedulers.Scheduler.ExitInterrupt` | kernel/isr.c:75-86 | A whole exit interrupt removes one process, or stops the machine exactly when it was the last |
| `HeapRuns.HeapRunSafe` | kernel/kheap.c:35-58 | After any calls, what callers hold lies in the arena, four-aligned, disjoint with a header in between, and headers plus payloads fill the arena |
| `HeapRuns.MallocEffect` | kernel/kheap.c:35-47 | `kmalloc` fails exactly when no free block is large enough and then changes nothing; otherwise it adds exactly one live block, large enough, and keeps the others |
| `HeapRuns.MallocTakes` | kernel/kheap.c:23-47 | `kmalloc` rounds up to a multiple of 8, takes the lowest free block that fits, returns the address 12 bytes into it, and splits off the rest exactly when more than 20 bytes are left; it fails exactly when no block fits |
| `HeapRuns.ArenaIs` | kernel/kheap.c:16-21 | The empty heap is one free block of 0xFFFF4 bytes at 0x300000 |
| `HeapRuns.FreeEffect` | kernel/kheap.c:49-58 | `kfree` releases exactly one live block and leaves every other one |
| `HeapRuns.FreeIsMerged` | kernel/kheap.c:49-58 | The merging loop replaces the block and the whole run of free blocks after it by one |
| `HeapRuns.NestedUseRestores` | kernel/kheap.c:35-58 | From any list without adjacent free blocks, every properly nested program of calls ends with the list it began with |
| `HeapRuns.MallocFreeRestoresIff` | kernel/kheap.c:35-58 | An allocate-release pair restores the list exactly when the chosen block has no free successor |
| `HeapRuns.MallocFreeNeverShrinks` | kernel/kheap.c:35-58 | From any list, the pair never makes a request fail that would have succeeded |
| `HeapRuns.WrappedRequest` | kernel/kheap.c:35-37 | A request of 0xFFFFFFFF bytes succeeds with an empty payload |
| `KernelHeap.Heap.Kmalloc` | kernel/kheap.c:35-47 | Splitting headers in the arena in place does what `Malloc` says and writes into no payload in use |
| `KernelHeap.Heap.Kfree` | kernel/kheap.c:49-58 | Following the next pointers and merging in place does what `Free` says and writes into no other payload |
| `KernelHeap.Heap.Used` | kernel/kheap.c:60-65 | The result is the sum of the payload sizes in use |
| `KernelHeap.UsedFollows` | kernel/kheap.c:60-65 | That sum is 0 for an empty heap and grows at each allocation by the size of the block taken |
| `KernelHeap.UsedReleased` | kernel/kheap.c:60-65 | It falls at each release by the size of the block released, whatever is merged |
| `FatEntries.GetSet` | kernel/fat.c:33-59 | Entries form an array: storing one returns it modulo 4096 and changes no other, although neighbours share a byte |
| `FatEntries.PackDecodes` | tools/mkdata.py:94-104 | The kernel's decoding inverts the Python packing for every packed entry |
| `FatRuns.RunRefinesMap` | kernel/fat.c:147-438 | Every sequence of write, read, delete, stat and free-space calls answers like a map from names to bytes with a budget of clusters and slots, and ends in its state |
| `FatRuns.PutSucceedsIff` | kernel/fat.c:378-438 | A write succeeds exactly when name, free slots and free clusters, those of the replaced file included, allow it |
| `FatRuns.ReadRefines` | kernel/fat.c:147-194 | A read returns the first bytes of exactly the named file, or says that there is none |
| `FatRuns.WriteIsUpdateIff` | kernel/fat.c:378-438 | A write that reports success updates the map exactly when the stored name does not begin with the deleted mark |
| `FatRuns.WrittenSlot` | kernel/fat.c:422-436 | The directory slot a write leaves, byte by byte; every other slot is as it was |
| `FatRuns.SpaceFollows` | kernel/fat.c:283-290 | Storing a new file takes exactly the clusters that hold it from the free space, and removing it gives them back |
| `FatRefinement.WriteRefines` | kernel/fat.c:378-438 | A write succeeds exactly when there is a slot and room; it then updates the map, keeps the invariant and takes exactly the clusters needed |
| `FatRefinement.FailedCreateRollsBack` | kernel/fat.c:392-407 | A failed create restores every FAT entry, the directory and every file |
| `FatRefinement.FailedReplaceIff` | kernel/fat.c:378-407 | A failed replacement keeps the invariant exactly when the old file was empty |
| `FatDelete.DeleteRefines` | kernel/fat.c:360-376 | Deleting succeeds exactly when the name is there, is map removal, and keeps the invariant |
| `FatAlloc.StreamStores` | kernel/fat.c:408-425 | Streaming a payload into its new chain stores exactly it, zero-padded in the last cluster |
| `FatChains.FreeChainEffect` | kernel/fat.c:273-281 | Releasing a chain zeroes all of it and touches nothing else |
| `FatLayout.SetBoth` | kernel/fat.c:215-252 | Storing an entry on both FAT copies, across a sector border if need be, sets it in the table and keeps the copies equal |
| `FatNames.NormStorableIff` | kernel/fat.c:68-86 | A normalised name can be stored exactly when it does not start with the deleted mark |
| `FatNames.ShownNormalises` | kernel/fat.c:114-145 | Normalising the name a listing shows gives back the stored one, for every stored name without small letters, inner blanks, or a dot in its first eight characters |
| `FatNames.ShownFinds` | kernel/fat.c:68-86 | So does that name in any letter case |
| `FatNames.CaseIgnored` | kernel/fat.c:68-86 | Names that differ only in letter case have the same normalised form |
| `FatNames.NormHasCapitals` | kernel/fat.c:68-86 | No byte of a normalised name is a small letter |
| `FatNames.NormSpelled` | kernel/fat.c:68-86 | The normalised form byte by byte: capitals of what stands before the dot, cut to eight, and of three characters after it, padded with spaces |
| `FatNames.NameKeptIff` | kernel/fat.c:68-145 | A name comes back from a listing, up to letter case, exactly when it is of 8.3 form: up to eight characters without blank or dot, and after a dot one to three without blank |
| `FatNames.FittingNamesDiffer` | kernel/fat.c:68-86 | Two names of that form name the same file exactly when they differ in letter case at most |
| `FatNames.LongNamesMeet` | kernel/fat.c:68-86 | Two names with the same first eight characters and no dot among them or after them name one file |
| `FatNames.HelloFound` | kernel/fat.c:61-86 | `hello.elf` finds HELLO.ELF |
| `FatScan.ScanIs` | kernel/fat.c:317-358 | The directory search ends at the slot with the name, or else at the first free one, or says that there is neither |
| `FatDriver.Driver.Mount` | kernel/fat.c:94-110 | Mounting succeeds exactly on 512-byte sectors, reads the geometry, and serves the volume the disk holds |
| `FatDriver.Driver.SetEntry` | kernel/fat.c:215-252 | Read, patch and write of one or two sectors per copy, through the static buffer, changes one entry of the volume |
| `FatDriver.Driver.AllocCluster` | kernel/fat.c:255-270 | The sector loops do what `AllocCluster` says: lowest free cluster, zeroed and marked |
| `FatDriver.Driver.FreeBytes` | kernel/fat.c:283-290 | The result is the free clusters in bytes, zero when not mounted |
| `FatDriver.Driver.FindSlot` | kernel/fat.c:317-358 | The scan over sectors and slots ends where `Scan` says |
| `FatDriver.Driver.FatStat` | kernel/fat.c:292-312 | The scan answers what `Stat` says of the volume |
| `FatDriver.Driver.FatRead` | kernel/fat.c:147-194 | The cluster and sector loops copy what `Read` says |
| `FatDriver.Driver.FatDelete` | kernel/fat.c:360-376 | The sector writes leave the volume `Delete` says |
| `FatDriver.Driver.FatWrite` | kernel/fat.c:378-438 | The sector writes leave the volume `Write` says, on failure too |
| `FatService.Serve` | kernel/fat.c:147-438 | A mounted driver given any calls by file name answers like the map machine on normalised names, sector by sector |
| `FatService.CallsIgnoreCase` | kernel/fat.c:68-86 | The letter case of a name makes no difference to any call |
| `FatService.GuardNeverFires` | kernel/fat.c:165-171 | In a volume that satisfies the invariant the loop guard of `fat_read` cannot fire, whatever the buffer |
| `FatService.Boot` | tools/mkdata.py:58-134 | Building an image and mounting it gives a driver that satisfies the invariant and holds exactly the files given |
| `FatBuilder.BuildImage` | tools/mkdata.py:58-134 | The sectors written hold the volume `Built` describes, under the geometry the boot sector states |
| `FatBuilder.ListEntries` | tools/mkdata.py:82-92 | The list built holds the link of every cluster of every file, and zeros |
| `FatImage.BuiltInvIff` | tools/mkdata.py:82-134 | The image satisfies the volume invariant exactly when no file is empty and none reaches the cluster whose entry packing drops |
| `FatImage.EmptyFileBreaks` | tools/mkdata.py:115-123 | An empty file names the cluster that comes next, and the invariant fails |
| `FatImage.DroppedEntryBreaks` | tools/mkdata.py:94-104 | A file that reaches the last cluster has its chain cut |
| `FatImage.BuiltFiles` | tools/mkdata.py:111-134 | Read through the FAT, the image holds exactly the files given |
| `FatLimits.ReplaceFitsIff` | kernel/fat.c:378-407 | On a fresh image a replacement succeeds exactly when the new bytes fit in the free clusters and the old file's, and otherwise breaks the invariant |
| `FatLimits.LoseFile` | kernel/fat.c:378-407 | On the disk itself, for every storable name: boot, write 2048 bytes over a small file, and the invariant is gone |
| `FatLimits.DeletedNameVanishes` | kernel/fat.c:378-438 | On an empty disk, a file whose name begins with the deleted mark is written with success and is gone |
| `OpenFiles.EndToEnd` | kernel/syscall.c:149-199 | Create or empty a file, edit it while other descriptors are used, close, open and read it: the bytes are those the edits left, which the laws below give call by call |
| `OpenFileLaws.ReadGives` | kernel/syscall.c:178-189 | A read gives the bytes from the position on, as many as asked for or as there are, moves the position past them and changes nothing else |
| `OpenFileLaws.WriteGives` | kernel/syscall.c:91-104 | A write stores up to the 2048-byte limit, byte by byte at the position, keeps every other byte, and answers how many it stored |
| `OpenFileLaws.SeekGives` | kernel/syscall.c:259-275 | A seek lands at the offset from the start, the position or the end for whence 0, 1 and 2, negative offsets included, whenever that is inside the file |
| `OpenFileLaws.SeekLands` | kernel/syscall.c:259-275 | Where every other seek lands: at 0, at 2048, or where the 32-bit sum leads |
| `OpenFileLaws.OpenGives` | kernel/syscall.c:143-176 | Open takes the lowest free descriptor from 3 to 7; exactly when it fails; and what position, rights and contents it starts with for each flag |
| `OpenFileLaws.CloseGives` | kernel/syscall.c:107-114 | Close frees the descriptor and stores what was modified, or fails and changes no file |
| `OpenFileLaws.CloseTame` | kernel/syscall.c:107-114 | Which closes that law speaks of: all but those that store under a name with the deleted mark or replace a nonempty file by one that does not fit |
| `OpenFileLaws.WriteRefused` | kernel/syscall.c:91-133 | A read-only or closed descriptor takes no bytes, and the console takes all of them |
| `OpenFileLaws.UnlinkGives` | kernel/syscall.c:276-285 | Unlink removes exactly the named file and fails when there is none |
| `OpenFileLaws.SizeGives` | kernel/syscall.c:286-298 | Stat answers the size of the named file and changes nothing |
| `OpenFileLaws.RewindAndRead` | kernel/syscall.c:259-275 | Seeking to n from the start and reading gives the bytes from n on |
| `OpenFileLaws.SeekEndAppends` | kernel/syscall.c:259-275 | Seeking to the end and writing appends |
| `OpenFileLaws.StepBackAndRead` | kernel/syscall.c:259-275 | Seeking back over what a read gave restores the state, and the next read gives it again |
| `OpenFileLaws.ReadsJoin` | kernel/syscall.c:178-189 | Two reads in a row are one read of both lengths |
| `OpenFileLaws.WriteAndRead` | kernel/syscall.c:91-104 | What is written is read back from the same place |
| `OpenFileLaws.LogReadBack` | userspace/writer.c:88-128 | Lines written one after the other to a new file, rewound and read, come back as their concatenation |
| `OpenFiles.DescriptorsAreSeparate` | kernel/syscall.c:91-189 | An open descriptor changes by its own calls only |
| `OpenFiles.CloseOpenRead` | kernel/syscall.c:107-199 | What a modified descriptor held at a successful close is what opening and reading the file gives |
| `OpenFiles.CreateMakesFileIff` | kernel/syscall.c:149-176 | Opening an absent name with O_CREAT and closing makes an empty file exactly when O_TRUNC was given and a slot is free; otherwise nothing changes |
| `OpenFiles.RewriteKeepsFileIff` | kernel/syscall.c:149-176 | Opening for writing, writing nothing and closing keeps the file exactly when it fits the buffer |
| `OpenFiles.ReadIsPlainIff` | kernel/syscall.c:178-189 | A read stays inside the file exactly when the position is not past the end; otherwise it returns what the buffer held there |
| `OpenFiles.WriteIsPlain` | kernel/syscall.c:91-104 | A write at or before the end is a splice; past it the gap shows what the buffer held |
| `OpenFiles.RangeOkIff` | kernel/syscall.c:80-88 | A user range passes exactly when every byte of it, wrap-around included, is in the user window |
| `OpenFileTable.Table.Serve` | kernel/syscall.c:91-199 | The eight structures updated in place, over the driver, answer any sequence of calls like the plain machine, whose steps the laws above give |
| `Numerals.ValueOfDigits` | libc/printf.c:33-42 | Evaluating the digits of a number gives the number back |
| `Numerals.DigitsOfValueIff` | libc/printf.c:33-42 | A numeral is the digits of its value exactly when it has no superfluous leading zero |
| `Numerals.U32ToStr` | libc/printf.c:33-42 | The loop that collects and reverses digits writes exactly those of the number, at most ten, and a terminator |
| `Formats.Kvsnprintf` | libc/printf.c:44-160 | Whatever the size, the buffer gets a terminated prefix of the output of the format, which `FormatMeanings.FormatSays` gives, nothing past `size` changes, and the result is the full length |
| `FormatMeanings.FormatSays` | libc/printf.c:44-160 | A format put together from literal text and directives prints that text and, for the k-th directive that takes an argument, the k-th argument: signed or unsigned decimal, hexadecimal in the right case, pointer, character or text, in as many digits as it takes or as the precision asks, laid out by flags and width |
| `FormatMeanings.FormatDefinedIff` | libc/printf.c:44-160 | Such a format has an output exactly when each directive that takes an argument has one of its kind, and what it makes of it fits 80 characters |
| `FormatMeanings.PrintPieces` | libc/printf.c:44-160 | The buffer `kvsnprintf` fills holds that output, cut to its size |
| `FormatMeanings.ConvertMeans` | libc/printf.c:75-143 | What each conversion makes of its argument, as a sign and a numeral of the argument's value |
| `FormatMeanings.FieldMeans` | libc/printf.c:145-156 | Where blanks, sign, zeros and text stand in a field for every combination of flags, width and precision |
| `FormatMeanings.DirectiveRead` | libc/printf.c:49-72 | A directive is read as it is spelled: flags, decimal width and precision, conversion character |
| `FormatMeanings.ValueByDigits` | libc/printf.c:33-42 | Evaluation of numerals is positional in the usual digits |
| `Formats.ConversionFitsIff` | libc/printf.c:75-121 | A conversion fits the 80-character temporary exactly when its precision, or for text the shorter of text and precision, does |
| `Formats.FieldWidthIff` | libc/printf.c:145-156 | A field has the width asked for exactly when it is not zero-padded with a precision, or the body is that wide already |
| `Formats.DecimalReads` | libc/printf.c:90-156 | Between its blanks a `%d` field is the sign of the argument and digits whose value is its magnitude |

## Findings

Properties the code, or a comment in it, would be expected to have and does not have on all inputs.

| property | when it fails | members |
|---|---|---|
| A failed `fat_write` leaves the old file (kernel/fat.c:378-407) | The old chain is released before room is sought, so exactly when the replacement does not fit and the old file was not empty | `FatRefinement.FailedReplaceIff`, `FatLimits.ReplaceFitsIff`, `FatLimits.LoseFile` |
| A successful `fat_write` stores the file (kernel/fat.c:68-86) | Exactly when the stored name begins with byte 0xE5, the deleted mark | `FatRuns.WriteIsUpdateIff`, `FatNames.NormStorableIff`, `FatLimits.DeletedNameVanishes` |
| The image builder writes a sound volume (tools/mkdata.py:82-134) | Exactly when some file is empty, or the files reach the last cluster, whose entry has no partner and is not packed | `FatImage.BuiltInvIff`, `FatImage.EmptyFileBreaks`, `FatImage.DroppedEntryBreaks` |
| `kmalloc` returns room for the request (kernel/kheap.c:35-37) | Exactly for requests above 0xFFFFFFF8, where rounding wraps to zero | `HeapBlocks.RoundedCovers`, `HeapRuns.WrappedRequest` |
| Payload sizes are multiples of 8 (kernel/kheap.c:9) | The one block of an empty heap has 0xFFFF4 bytes; sizes and addresses are multiples of 4, and no more can be said | `HeapBlocks.InitialBlocks`, `HeapRuns.HeapRunSafe` |
| `kmalloc` then `kfree` changes nothing | Exactly when the chosen block has a free successor | `HeapRuns.MallocFreeRestoresIff` |
| A position past the end reads nothing (kernel/syscall.c:178-189, 259-275) | `lseek` may pass the end; the subtraction then wraps and stale buffer bytes are returned or become part of the file | `OpenFiles.ReadIsPlainIff`, `OpenFiles.WriteIsPlain` |
| O_CREAT creates the file (kernel/syscall.c:149-176) | Exactly when O_TRUNC is missing or no slot is free | `OpenFiles.CreateMakesFileIff` |
| Rewriting a file keeps what was not overwritten | Exactly for files longer than the descriptor buffer, which are cut | `OpenFiles.RewriteKeepsFileIff` |
| Page tables are always within the kernel's reach (kernel/paging.c:133-188) | Exactly when the second-lowest free frame lies in the user window | `FrameAccounting.CreateWildIff`, `FrameAccounting.ForkWildIff`, `FrameAccounting.SecondSpaceAfterFullImage` |
| Fork copies memory that exists (kernel/sched.c:183-217) | Exactly when the parent's interrupt stack ends too near the heap's end, or the frames above | `TaskDefined.ForkAstrayIff`, `TaskDefined.LastBlockStack` |
| A failed fork can be told from the child (kernel/syscall.c:209-224) | Always: the parent of a failed fork reads 0, as a child does | `TaskFork.ForkOk` |
| `task_create_user` returns a pid only for a task that can run (kernel/sched.c:89-103) | Exactly when the heap has no room for the first frame: the task is ready with a null frame | `TaskSpawn.NoAreaStillReady` |
| Processes can come and go for ever (kernel/sched.c:112-114, 179-181) | Never: an exiting task's stacks and copied frame are not released, so no run adds more than 127 processes | `TaskHeap.CreationsAreFew`, `TaskHeap.ExitHeap` |
| A failed `task_create` gives back what it took (kernel/sched.c:132-149) | Exactly when it had its stack and failed at the interrupt stack | `TaskHeap.FailedThreadIff` |
| A name comes back from a listing, and different names are different files (kernel/fat.c:68-145) | Exactly when a name is not of 8.3 form; then the rest of a part that is too long is cut, and the extension with it when more than eight characters stand before the dot | `FatNames.NameKeptIff`, `FatNames.FittingNamesDiffer`, `FatNames.LongNamesMeet` |
| Sleeping lets others run (kernel/syscall.c:234-258) | Always: sleeping lengthens the caller's slice, and a task that sleeps before each tick keeps the processor for ever | `TaskFairness.SleepersStarveOthers`, `TaskFairness.WaitingWithSleeps` |
| Every conversion fits the temporary (libc/printf.c:75-121) | Exactly for text longer than 80 characters without a smaller precision, and for numbers with a larger precision | `Formats.ConversionFitsIff` |
| A zero-padded field has its width (libc/printf.c:145-156) | Exactly when a precision is given too and the body is narrower | `Formats.FieldWidthIff` |

## Left out

- Accesses through addresses that are not mapped: such a step is `Wild`, `Stray` or `Astray` and ends the model's run; the lemmas above say exactly when that happens.
- Preemption inside a FAT, heap or `user_spawn` call made by a kernel thread: each such call is one step.
- Accessed and dirty bits, directory-entry caching, CPU hardening bits of CR0 and CR4, and segment selectors other than `cs`.
- Disk errors: every sector transfer succeeds.
- Port I/O, PIC, timer, keyboard, mouse, serial, VGA, window system, shell, boot loaders, and the user programs.
- Wrap-around of pids after four thousand million creations, and task names.
- Bytes of a newly mapped page outside the image's segments: the kernel does not clear them, and nothing is said of them.
- User buffers of system calls are arguments and results, not words of the caller's pages; the byte loops over them cannot fault here.
- A page fault that cannot be resolved leaves the process running in its access; the kernel's kill (kernel/isr.c:32-37) is an exit that follows.
- The heap inside the scheduler is its block list; that headers in memory represent that list is proved in `KernelHeap`.
- `memcpy` and `memset` are one step each.
- `fat_list` beyond the shape of the names it shows, the volume label and long-name slots, and time stamps, which the kernel writes as zeros.
- `sched_yield`, which nothing calls, and the accessors that return one field.
- ELF header fields the loader does not read.
- FatDriver.Driver.FatWrite: lengths within one cluster of 2^32, where the cluster count wraps, are excluded; no caller has such a buffer.
- FatDriver.Driver.FatRead: a chain longer than the loop guard is excluded; `FatService.GuardNeverFires` shows that the invariant rules it out.
- FatDriver.Driver.FatDelete: chains that leave the table or form a cycle are excluded; the invariant rules them out.
- FatRuns.RunRefinesMap: runs in which a replacement fails or a stored name begins with the deleted mark are excluded; `FatRefinement.FailedReplaceIff` and `FatRuns.WriteIsUpdateIff` say exactly what happens there.
- OpenFileTable.Table.Serve: runs that seek past the end, or lose a file at close, are excluded; `OpenFiles.ReadIsPlainIff` and `FatRefinement.FailedReplaceIff` describe them.
- KernelHeap.Heap.Kfree: pointers that are neither null nor live are excluded, as the caller's error.
- TaskSpawn.SpawnOk: assumes heap room for the first frame; `TaskSpawn.NoAreaStillReady` says what happens without it.
- ElfRoom.LoadElfIff: assumes such an image too; when a malformed one is loaded is not said.
- ElfLoading.LoadElfOk: assumes program headers inside the file, and segments that are disjoint, do not wrap 32 bits and have `filesz` at most `memsz`; malformed images may send the loader outside its space, or let a later segment overwrite an earlier one.
- A format that ends inside a directive, which prints a percent sign, or that has a digit, a dot or a minus where the conversion character should be.
- Allocations of kernel threads themselves, such as the shell's file buffers, in runs of the scheduler; they could only leave less room for stacks.
- Formats.Kvsnprintf: assumes a format that has an output (`FormatMeanings.FormatDefinedIff`), and widths and precisions that fit an int.
- Numerals.U32ToStr: bases 10 and 16, the only ones used.
