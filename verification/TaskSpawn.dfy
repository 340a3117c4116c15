// task_create_user, task_create and user_spawn: one more process, or none.

module TaskSpawn {
  import opened Tasks
  import opened SpaceCalls
  import opened SpaceEntries
  import opened ElfImages
  import opened ElfLoading
  import opened TaskFrames
  import opened TaskStacks
  import opened TaskSpaces
  import opened TaskInv
  import opened TaskSwitch
  import opened TaskBirth
  import opened TaskFork
  import ElfRoom
  import Frames
  import FrameAccounting
  import Paging
  import CowRuns

  // ------------------------------------------------------------------
  // A task that can start
  // ------------------------------------------------------------------

  // Task t's stack and first frame are unused memory; only w has been written.
  ghost predicate Ready(k: Kernel, ram: Ram, h: Heap, t: Task, w: Span) {
    && Holding(k, h) && Unused(k, h, w) && Unused(k, h, StackOf(k, t)) && Within(FrameSpan(t), w)
    && |ram| == |k.ram| && (forall a: nat :: a < |k.ram| && !(w.lo <= a < w.hi) ==> ram[a] == k.ram[a])
    && FrameFits(ram, t.esp) && (Ring3(ram[t.esp + 60]) <==> t.user) &&
       (!t.user ==> Within(FrameSpan(t), StackOf(k, t)))
    && t.ready && (t.user ==> t.irqTop >= IRQ_STACK)
  }

  lemma ReadyAdded(k: Kernel, ram: Ram, h: Heap, vm: Paging.Vm, t: Task, w: Span)
    requires KInv(k) && NewSlot(k) < MAX_TASKS && Ready(k, ram, h, t, w)
    requires t.user ==> t.cr3 !in SpacesOf(k.tasks)
    requires VmOk(vm, if t.user then SpacesOf(k.tasks) + {t.cr3} else SpacesOf(k.tasks))
    requires vm.cr3 == k.vm.cr3 && SamePagesOf(k.vm, vm, SpacesOf(k.tasks))
    ensures var (slot, count) := AllocSlot(k.tasks, k.count); var k' := WithTask(k, slot, count, t, vm, h, ram);
            && KInv(k') && slot !in Procs(k)
            && Procs(k') == Procs(k)[slot := Proc(Load(ram, t.esp), if t.user then PagesOf(vm, t.cr3) else map[])]
  {
    var (slot, count) := AllocSlot(k.tasks, k.count);
    var k' := WithTask(k, slot, count, t, vm, h, ram);
    NewSlotFree(k);
    WithTaskAround(k, slot, count, t, vm, h, ram);
    UnusedWithin(k, h, w, FrameSpan(t));
    assert StackOf(k', t) == StackOf(k, t);
    TaskAdded(k, k', slot, w);
  }

  // A creation that gave up after taking a slot.
  lemma GaveUp(k: Kernel, h: Heap, vm: Paging.Vm, t: Task)
    requires KInv(k) && NewSlot(k) < MAX_TASKS && Holding(k, h) && !t.ready
    requires VmOk(vm, SpacesOf(k.tasks)) && vm.cr3 == k.vm.cr3 && SamePagesOf(k.vm, vm, SpacesOf(k.tasks))
    ensures var (slot, count) := AllocSlot(k.tasks, k.count); var k' := WithTask(k, slot, count, t, vm, h, k.ram);
            KInv(k') && Procs(k') == Procs(k)
  {
    var (slot, count) := AllocSlot(k.tasks, k.count);
    NewSlotFree(k);
    WithTaskAround(k, slot, count, t, vm, h, k.ram);
    DeadSlotAdded(k, WithTask(k, slot, count, t, vm, h, k.ram), slot, Span(0, 0));
  }

  lemma FirstFrame(ram: Ram, c: Ctx, top: nat)
    requires CtxOk(c) && FrameSize(c.cs) <= top && FrameFits(ram, top - FrameSize(c.cs))
    requires !Ring3(c.cs) ==> c.esp == top
    ensures var fp := top - FrameSize(c.cs); var ram' := Put(ram, fp, Words(c, 0, 0, 0));
            && Load(ram', fp) == c && ram'[fp + 60] == c.cs && |ram'| == |ram|
            && (forall a: nat :: a < |ram| && !(fp <= a < top) ==> ram'[a] == ram[a])
  {
    var fp := top - FrameSize(c.cs);
    var w := Words(c, 0, 0, 0);
    PushPop(ram, c, top, 0, 0, 0);
    assert Load(Put(ram, fp, w), fp).cs == c.cs;
    forall a: nat | a < |ram| && !(fp <= a < top) ensures Put(ram, fp, w)[a] == ram[a] { PutAt(ram, fp, w, a); }
  }

  // ------------------------------------------------------------------
  // User tasks
  // ------------------------------------------------------------------

  lemma UserIs(k: Kernel, entry: nat, c: nat, h1: Heap, irq: nat, h2: Heap, area: nat)
    requires |k.tasks| == MAX_TASKS && k.count <= MAX_TASKS && NewSlot(k) < MAX_TASKS
    requires Gives(k.heap, IRQ_STACK, h1, irq) && Gives(h1, USER_AREA, h2, area)
    ensures var (slot, count), fp := AllocSlot(k.tasks, k.count), area + USER_AREA - USER_FRAME;
            CreateUser(k, entry, c) == (WithTask(k, slot, count, ChildTask(k, c, irq, fp), k.vm, h2,
                                                 Put(k.ram, fp, Words(UserStart(entry), 0, 0, 0))), k.nextPid)
  {
    assert Unwrap(0);
  }

  lemma UserReady(k: Kernel, entry: nat, c: nat, h1: Heap, irq: nat, h2: Heap, area: nat)
    requires KInv(k) && Gives(k.heap, IRQ_STACK, h1, irq) && Gives(h1, USER_AREA, h2, area)
    ensures var fp := area + USER_AREA - USER_FRAME; var ram := Put(k.ram, fp, Words(UserStart(entry), 0, 0, 0));
            Ready(k, ram, h2, ChildTask(k, c, irq, fp), Span(area, area + USER_AREA)) &&
                Load(ram, fp) == UserStart(entry)
  {
    HoldingNow(k);
    assert HeapOk(k) && k.nextPid > 0 by { assert Open(0); }
    TwoUnused(k, IRQ_STACK, h1, irq, USER_AREA, h2, area);
    FirstFrame(k.ram, UserStart(entry), area + USER_AREA);
  }

  // Room for the interrupt stack, and then for the first frame.
  predicate IrqRoom(h: Heap) { Alloc(h, 0x2000).1 != 0 }
  predicate AreaRoom(h: Heap) { Alloc(Alloc(h, 0x2000).0, 0x1000).1 != 0 }

  // CreateUser leaves address spaces alone.
  lemma CreateUserVm(k: Kernel, vm: Paging.Vm, entry: nat, c: nat)
    requires |k.tasks| == MAX_TASKS && k.count <= MAX_TASKS
    ensures var (k1, pid) := CreateUser(k, entry, c);
            CreateUser(k.(vm := vm), entry, c) == (k1.(vm := vm), pid) && k1.vm == k.vm
  {
  }

  lemma UserGivesUp(k: Kernel, entry: nat, c: nat)
    requires |k.tasks| == MAX_TASKS && k.count <= MAX_TASKS && !IrqRoom(k.heap)
    ensures var (slot, count), (k1, pid) := AllocSlot(k.tasks, k.count), CreateUser(k, entry, c);
            pid == 0 && k1 == if slot >= MAX_TASKS then k
                              else WithTask(k, slot, count, EmptySlot.(pid := k.nextPid, user := true), k.vm, k.heap,
                                  k.ram)
  {
  }

  // task_create_user fails only for want of a slot or of an interrupt stack, and then adds
  // no process; otherwise, given room for the first frame, it adds one about to run `entry`.
  lemma CreateUserOk(k: Kernel, vm: Paging.Vm, entry: nat, c: nat)
    requires KInv(k) && c !in SpacesOf(k.tasks) && vm.cr3 == k.vm.cr3 && SamePagesOf(k.vm, vm, SpacesOf(k.tasks))
    requires IrqRoom(k.heap) ==> AreaRoom(k.heap)
    ensures var (k1, pid) := CreateUser(k, entry, c); var k' := k1.(vm := vm);
            && (pid == 0 <==> NewSlot(k) == MAX_TASKS || !IrqRoom(k.heap))
            && (pid == 0 && VmOk(vm, SpacesOf(k.tasks)) ==> KInv(k') && Procs(k') == Procs(k))
            && (pid != 0 && VmOk(vm, SpacesOf(k.tasks) + {c}) ==>
                  KInv(k') && pid == k.nextPid && NewSlot(k) !in Procs(k) && k'.tasks[NewSlot(k)].pid == pid
                  && exists ctx :: Begins(ctx, entry)
                                   && Procs(k') == Procs(k)[NewSlot(k) := Proc(ctx, PagesOf(vm, c))])
  {
    assert k.nextPid > 0 by { assert Open(0); }
    assert Begins(UserStart(entry), entry);
    var (k1, pid) := CreateUser(k, entry, c);
    if NewSlot(k) >= MAX_TASKS {
      if VmOk(vm, SpacesOf(k.tasks)) { SameAround(k, k.(vm := vm)); }
    } else if !IrqRoom(k.heap) {
      UserGivesUp(k, entry, c);
      HoldingNow(k);
      if VmOk(vm, SpacesOf(k.tasks)) { GaveUp(k, k.heap, vm, EmptySlot.(pid := k.nextPid, user := true)); }
    } else {
      UserStarts(k, vm, entry, c);
    }
  }

  lemma UserStarts(k: Kernel, vm: Paging.Vm, entry: nat, c: nat)
    requires KInv(k) && c !in SpacesOf(k.tasks) && vm.cr3 == k.vm.cr3 && SamePagesOf(k.vm, vm, SpacesOf(k.tasks))
    requires NewSlot(k) < MAX_TASKS && IrqRoom(k.heap) && AreaRoom(k.heap)
    ensures var (k1, pid) := CreateUser(k, entry, c); var k' := k1.(vm := vm);
            && pid == k.nextPid
            && (VmOk(vm, SpacesOf(k.tasks) + {c}) ==>
                  KInv(k') && NewSlot(k) !in Procs(k) && k'.tasks[NewSlot(k)].pid == pid
                  && Procs(k') == Procs(k)[NewSlot(k) := Proc(UserStart(entry), PagesOf(vm, c))])
  {
    var (h1, irq) := Alloc(k.heap, IRQ_STACK);
    var (h2, area) := Alloc(h1, USER_AREA);
    UserIs(k, entry, c, h1, irq, h2, area);
    UserReady(k, entry, c, h1, irq, h2, area);
    var fp := area + USER_AREA - USER_FRAME;
    if VmOk(vm, SpacesOf(k.tasks) + {c}) {
      ReadyAdded(k, Put(k.ram, fp, Words(UserStart(entry), 0, 0, 0)), h2, vm, ChildTask(k, c, irq, fp),
          Span(area, area + USER_AREA));
    }
  }

  // Without room for the first frame task_create_user still reports success, and the task
  // it leaves is ready to be resumed from address 0, whatever `entry` was.
  lemma NoAreaStillReady(k: Kernel, entry: nat, c: nat)
    requires KInv(k) && NewSlot(k) < MAX_TASKS && IrqRoom(k.heap)
    ensures var (k1, pid) := CreateUser(k, entry, c);
            && pid == k.nextPid > 0 && Live(k1.tasks, NewSlot(k)) && k1.tasks[NewSlot(k)].pid == pid
            && (k1.tasks[NewSlot(k)].esp == 0 <==> !AreaRoom(k.heap))
  {
    assert k.nextPid > 0 by { assert Open(0); }
    var (h1, irq) := Alloc(k.heap, IRQ_STACK);
    if AreaRoom(k.heap) {
      var (h2, area) := Alloc(h1, USER_AREA);
      UserIs(k, entry, c, h1, irq, h2, area);
    }
  }

  // ------------------------------------------------------------------
  // Kernel threads
  // ------------------------------------------------------------------

  lemma {:induction false} FillAt(ram: Ram, lo: nat, n: nat, a: nat)
    requires a < |ram| && !(lo <= a < lo + 4 * n)
    ensures Fill(ram, lo, n)[a] == ram[a]
    decreases n
  {
    if n > 0 { FillAt(ram, lo, n - 1, a); }
  }

  function ThreadTask(k: Kernel, stack: nat, irq: nat): Task {
    Task(k.nextPid, true, false, stack + TASK_STACK - KERNEL_FRAME, stack, irq + IRQ_STACK, 0, SLICE)
  }

  lemma ThreadIs(k: Kernel, fn: nat, h1: Heap, stack: nat, h2: Heap, irq: nat)
    requires |k.tasks| == MAX_TASKS && k.count <= MAX_TASKS && NewSlot(k) < MAX_TASKS
    requires Gives(k.heap, TASK_STACK, h1, stack) && Gives(h1, IRQ_STACK, h2, irq)
    ensures var (slot, count) := AllocSlot(k.tasks, k.count);
            CreateThread(k, fn) == (WithTask(k, slot, count, ThreadTask(k, stack, irq), k.vm, h2,
                ThreadRam(k.ram, fn, stack)), k.nextPid)
  {
    assert Unwrap(0);
  }

  lemma ThreadReady(k: Kernel, fn: nat, h1: Heap, stack: nat, h2: Heap, irq: nat)
    requires KInv(k) && Gives(k.heap, TASK_STACK, h1, stack) && Gives(h1, IRQ_STACK, h2, irq)
    ensures var ram, t := ThreadRam(k.ram, fn, stack), ThreadTask(k, stack, irq);
            Ready(k, ram, h2, t, Span(stack, stack + TASK_STACK)) &&
                Load(ram, t.esp) == ThreadStart(fn, stack + TASK_STACK)
  {
    HoldingNow(k);
    assert HeapOk(k) by { assert Open(0); }
    TwoUnused(k, TASK_STACK, h1, stack, IRQ_STACK, h2, irq);
    var filled := Fill(k.ram, stack, TASK_STACK / 4);
    FirstFrame(filled, ThreadStart(fn, stack + TASK_STACK), stack + TASK_STACK);
    forall a: nat | a < |k.ram| && !(stack <= a < stack + TASK_STACK) ensures filled[a] == k.ram[a] {
      FillAt(k.ram, stack, TASK_STACK / 4, a);
    }
  }

  // Room for a thread's two stacks.
  predicate ThreadRoom(h: Heap) { Alloc(h, 0x4000).1 != 0 && Alloc(Alloc(h, 0x4000).0, 0x2000).1 != 0 }

  // task_create adds a process about to run fn on a stack of its own, or fails for want of
  // a slot or of memory and changes no process.
  lemma CreateThreadOk(k: Kernel, fn: nat)
    requires KInv(k)
    ensures var (k', pid) := CreateThread(k, fn);
            && KInv(k') && (pid == 0 <==> NewSlot(k) == MAX_TASKS || !ThreadRoom(k.heap))
            && (pid == 0 ==> Procs(k') == Procs(k))
            && (pid != 0 ==> var slot := NewSlot(k);
                  && pid == k.nextPid && slot !in Procs(k) && k'.tasks[slot].pid == pid
                  && exists ctx :: ThreadBegins(ctx, fn, k'.tasks[slot].stackBottom + 0x4000)
                                   && Procs(k') == Procs(k)[slot := Proc(ctx, map[])])
  {
    assert k.nextPid > 0 by { assert Open(0); }
    CurrentSpace(k);
    HoldingNow(k);
    if NewSlot(k) < MAX_TASKS {
      var (h1, stack) := Alloc(k.heap, TASK_STACK);
      if stack == 0 {
        GaveUp(k, k.heap, k.vm, EmptySlot.(pid := k.nextPid));
      } else if Alloc(h1, IRQ_STACK).1 == 0 {
        ThreadNoIrq(k, fn, h1, stack);
      } else {
        var (h2, irq) := Alloc(h1, IRQ_STACK);
        ThreadAdded(k, fn, h1, stack, h2, irq);
      }
    }
  }

  lemma ThreadAdded(k: Kernel, fn: nat, h1: Heap, stack: nat, h2: Heap, irq: nat)
    requires KInv(k) && NewSlot(k) < MAX_TASKS
    requires Gives(k.heap, TASK_STACK, h1, stack) && Gives(h1, IRQ_STACK, h2, irq)
    ensures var (k', pid) := CreateThread(k, fn); var slot := NewSlot(k);
            && pid == k.nextPid && KInv(k') && slot !in Procs(k) && k'.tasks[slot].pid == pid
            && k'.tasks[slot].stackBottom == stack
            && exists ctx :: ThreadBegins(ctx, fn, stack + 0x4000) && Procs(k') == Procs(k)[slot := Proc(ctx, map[])]
  {
    CurrentSpace(k);
    ThreadIs(k, fn, h1, stack, h2, irq);
    ThreadReady(k, fn, h1, stack, h2, irq);
    var start := ThreadStart(fn, stack + TASK_STACK);
    ReadyAdded(k, ThreadRam(k.ram, fn, stack), h2, k.vm, ThreadTask(k, stack, irq), Span(stack, stack + TASK_STACK));
    assert ThreadBegins(start, fn, stack + 0x4000);
  }

  lemma {:induction false} FillWord(ram: Ram, lo: nat, n: nat, i: nat)
    requires i < n && lo + 4 * n <= |ram|
    ensures Fill(ram, lo, n)[lo + 4 * i] == 0xCCCC_CCCC
    decreases n
  {
    if i < n - 1 { FillWord(ram, lo, n - 1, i); }
  }

  // The unused part of a new thread's stack holds 0xCC bytes.
  lemma StackMarked(k: Kernel, fn: nat, h1: Heap, stack: nat, h2: Heap, irq: nat, i: nat)
    requires KInv(k) && NewSlot(k) < MAX_TASKS && i < 4079
    requires Gives(k.heap, TASK_STACK, h1, stack) && Gives(h1, IRQ_STACK, h2, irq)
    ensures stack + 4 * i < |k.ram| == |CreateThread(k, fn).0.ram|
    ensures CreateThread(k, fn).0.ram[stack + 4 * i] == 0xCCCC_CCCC
  {
    HoldingNow(k);
    assert HeapOk(k) by { assert Open(0); }
    ThreadIs(k, fn, h1, stack, h2, irq);
    TwoUnused(k, TASK_STACK, h1, stack, IRQ_STACK, h2, irq);
    FillWord(k.ram, stack, TASK_STACK / 4, i);
    PutAt(Fill(k.ram, stack, TASK_STACK / 4), stack + TASK_STACK - KERNEL_FRAME,
          Words(ThreadStart(fn, stack + TASK_STACK), 0, 0, 0), stack + 4 * i);
  }

  // The stack already allocated is lost.
  lemma ThreadNoIrq(k: Kernel, fn: nat, h1: Heap, stack: nat)
    requires KInv(k) && NewSlot(k) < MAX_TASKS && Gives(k.heap, TASK_STACK, h1, stack) && Alloc(h1, IRQ_STACK).1 == 0
    ensures var (k', pid) := CreateThread(k, fn); pid == 0 && KInv(k') && Procs(k') == Procs(k)
  {
    HoldingNow(k);
    assert HeapOk(k) by { assert Open(0); }
    Fresh(k, k.heap, TASK_STACK, h1, stack);
    AllocNull(h1, IRQ_STACK);
    CurrentSpace(k);
    GaveUp(k, h1, k.vm, EmptySlot.(pid := k.nextPid, stackBottom := stack));
    ThreadNoIrqIs(k, fn, h1, stack);
  }

  lemma ThreadNoIrqIs(k: Kernel, fn: nat, h1: Heap, stack: nat)
    requires |k.tasks| == MAX_TASKS && k.count <= MAX_TASKS && NewSlot(k) < MAX_TASKS
    requires Gives(k.heap, TASK_STACK, h1, stack) && Alloc(h1, IRQ_STACK) == (h1, 0)
    ensures var (slot, count) := AllocSlot(k.tasks, k.count);
            CreateThread(k, fn) == (WithTask(k, slot, count, EmptySlot.(pid := k.nextPid, stackBottom := stack), k.vm,
                h1, k.ram), 0)
  {
    assert Unwrap(0);
  }

  // ------------------------------------------------------------------
  // Programs
  // ------------------------------------------------------------------

  // The pages hold the image, when it makes sense.
  ghost predicate Imaged(img: Bytes, pages: CowRuns.PageMap) {
    ImageOk(img) ==> LoadedUpTo(img, pages, Count(img))
  }

  // A space with nothing mapped yet, loaded from an image.
  lemma LoadImageOk(vm: Paging.Vm, spaces: set<nat>, c: nat, img: Bytes)
    requires VmOk(vm, spaces) && c in spaces && AllWritable(vm.mem, c) && !LoadImage(vm, c, img).Stray?
    ensures var r := LoadImage(vm, c, img);
            && VmOk(r.vm, spaces) && Untouched(vm, r.vm, spaces - {c})
            && (r.Loaded? ==> |img| >= HEADER && Imaged(img, PagesOf(r.vm, c))
                              && ElfRoom.HasStack(PagesOf(r.vm, c), 0x2F_0000))
  {
    LoadSpace(vm, spaces, c);
    var vm0 := LoadOf(vm, c);
    assert Fit(vm0, spaces, c);
    var r := LoadElf(vm0, c, img);
    LoadElfKeeps(vm0, spaces, c, img);
    if ImageOk(img) { LoadElfOk(vm0, spaces, c, img); }
    ReachedFit(vm0, r.vm, spaces, c);
    MapFit(r.vm, spaces, c, USER_STACK_TOP - 0x2000, 0x2000);
    ElfRoom.StackMapped(r.vm, spaces, c);
    var vm1 := MapOf(r.vm, c, USER_STACK_TOP - 0x2000, 0x2000).0;
    if ImageOk(img) && r.Loaded? { LoadedStays(img, PagesOf(r.vm, c), PagesOf(vm1, c), Count(img)); }
    LoadedVm(vm, vm0, r.vm, vm1, spaces, c);
  }

  // Into an empty space an image that makes sense can be loaded exactly when its segments
  // are in bounds, it has an entry point, and there is a frame for each of its pages.
  lemma LoadImageIff(vm: Paging.Vm, spaces: set<nat>, c: nat, img: Bytes)
    requires VmOk(vm, spaces) && c in spaces && AllWritable(vm.mem, c) && PagesOf(vm, c) == map[] && ImageOk(img)
    ensures var r := LoadImage(vm, c, img);
            && !r.Stray?
            && (r.Loaded? <==> ElfRoom.AllInBounds(img, 0) && EntryPoint(img) != 0
                               && |ElfRoom.ImagePages(img)| <= Frames.FreeFrames(vm.ft))
            && (r.Loaded? ==> PagesOf(r.vm, c).Keys == ElfRoom.ImagePages(img))
  {
    LoadSpace(vm, spaces, c);
    var vm0 := LoadOf(vm, c);
    assert Fit(vm0, spaces, c);
    LoadElfOk(vm0, spaces, c, img);
    ElfRoom.LoadElfIff(vm0, spaces, c, img);
    var r := LoadElf(vm0, c, img);
    var pages, stack := ElfRoom.Needed(img, 0), ElfRoom.PagesIn(0x2E_E000, 0x2000);
    ElfRoom.TakenTogether(pages, stack, {});
    assert pages + stack - {} == pages + stack && pages - {} == pages && {} + pages == pages;
    if r.Loaded? {
      LoadElfKeeps(vm0, spaces, c, img);
      ReachedFit(vm0, r.vm, spaces, c);
      ElfRoom.StackMapped(r.vm, spaces, c);
    }
  }

  lemma LoadedVm(vm: Paging.Vm, vm0: Paging.Vm, vm1: Paging.Vm, vm2: Paging.Vm, spaces: set<nat>, c: nat)
    requires vm0.mem == vm.mem && Reached(vm0, vm1, spaces, c) && Fit(vm2, spaces, c)
    requires Untouched(vm1, vm2, spaces - {c})
    ensures VmOk(vm1, spaces) && VmOk(vm2, spaces) && Untouched(vm, vm1, spaces - {c})
    ensures Untouched(vm, vm2, spaces - {c})
  {
    assert Peek(0);
    assert Untouched(vm, vm0, spaces - {c});
    UntouchedThrough(vm, vm0, vm1, spaces - {c});
    UntouchedThrough(vm, vm1, vm2, spaces - {c});
  }

  // Moving CR3 back to the running task's space.
  lemma LoadBack(k: Kernel, vm: Paging.Vm, c: nat)
    requires KInv(k) && c !in SpacesOf(k.tasks) && VmOk(vm, SpacesOf(k.tasks) + {c})
    requires Untouched(k.vm, vm, SpacesOf(k.tasks))
    ensures var vm' := LoadOf(vm, k.vm.cr3); var vm'' := DestroyOf(vm', c); var spaces := SpacesOf(k.tasks);
            && VmOk(vm', spaces + {c}) && vm'.cr3 == k.vm.cr3 && SamePagesOf(k.vm, vm', spaces) && vm'.mem == vm.mem
            && VmOk(vm'', spaces) && vm''.cr3 == k.vm.cr3 && SamePagesOf(k.vm, vm'', spaces) && vm''.ft == k.vm.ft
  {
    CurrentSpace(k);
    LoadSpace(vm, SpacesOf(k.tasks) + {c}, k.vm.cr3);
    Unmade(k, LoadOf(vm, k.vm.cr3), c);
    SameFrames(k.vm, DestroyOf(LoadOf(vm, k.vm.cr3), c), SpacesOf(k.tasks));
  }

  // The pages of a process that can run img: the image, when it makes sense, and a stack.
  ghost predicate Runnable(img: Bytes, pages: CowRuns.PageMap)
    requires |img| >= HEADER
  {
    && Imaged(img, pages) && ElfRoom.HasStack(pages, 0x2F_0000)
    && (ImageOk(img) ==> pages.Keys == ElfRoom.ImagePages(img))
  }

  // With `free` frames, two of them for tables, img can be loaded into a new space.
  ghost predicate Loadable(img: Bytes, free: nat) {
    && |img| >= HEADER && ElfRoom.AllInBounds(img, 0) && EntryPoint(img) != 0
    && |ElfRoom.ImagePages(img)| + 2 <= free
  }

  // A spawn succeeds: a dead slot, frames, and heap room for an interrupt stack.
  ghost predicate CanSpawn(k: Kernel, img: Bytes)
    requires |k.tasks| == MAX_TASKS
  {
    && (exists i: nat :: i < 16 && !k.tasks[i].ready)
    && FrameAccounting.TwoLowFrames(k.vm.ft) && Loadable(img, Frames.FreeFrames(k.vm.ft)) && IrqRoom(k.heap)
  }

  // A process about to run img.
  ghost predicate Started(p: Proc, img: Bytes) {
    && |img| >= HEADER && EntryPoint(img) != 0 && Begins(p.ctx, EntryPoint(img))
    && Imaged(img, p.pages) && ElfRoom.HasStack(p.pages, p.ctx.esp)
    && (ImageOk(img) ==> p.pages.Keys == ElfRoom.ImagePages(img))
  }

  // The new space once the image is loaded.
  ghost predicate FilledSpace(k: Kernel, c: nat, vm: Paging.Vm) {
    c !in SpacesOf(k.tasks) && VmOk(vm, SpacesOf(k.tasks) + {c}) && Untouched(k.vm, vm, SpacesOf(k.tasks))
  }

  lemma Filled(k: Kernel, img: Bytes)
    requires KInv(k) && CreateOf(k.vm).Done? && CreateOf(k.vm).ret != 0
    requires !LoadImage(CreateOf(k.vm).vm, CreateOf(k.vm).ret, img).Stray?
    ensures var s := CreateOf(k.vm); var r := LoadImage(s.vm, s.ret, img);
            && FilledSpace(k, s.ret, r.vm)
            && (r.Loaded? ==> |img| >= HEADER && Runnable(img, PagesOf(r.vm, s.ret)))
            && (ImageOk(img) ==> (r.Loaded? <==> Loadable(img, Frames.FreeFrames(k.vm.ft))))
  {
    CurrentSpace(k);
    CreateSpaceOk(k.vm, SpacesOf(k.tasks));
    var s := CreateOf(k.vm);
    CreateSpaceEmpty(k.vm, SpacesOf(k.tasks));
    LoadImageOk(s.vm, SpacesOf(k.tasks) + {s.ret}, s.ret, img);
    if ImageOk(img) { LoadImageIff(s.vm, SpacesOf(k.tasks) + {s.ret}, s.ret, img); }
    var r := LoadImage(s.vm, s.ret, img);
    assert SpacesOf(k.tasks) + {s.ret} - {s.ret} == SpacesOf(k.tasks);
    UntouchedThrough(k.vm, s.vm, r.vm, SpacesOf(k.tasks));
  }

  // What a spawn does: nothing to any process, space or frame when it fails; otherwise one
  // more process, about to run the image. With an image that makes sense it fails exactly
  // when a slot, frames or heap room are lacking.
  ghost predicate SpawnResult(k: Kernel, img: Bytes, k': Kernel, pid: nat)
    requires KInv(k)
  {
    && KInv(k')
    && (pid == 0 ==> Procs(k') == Procs(k) && SpacesOf(k'.tasks) == SpacesOf(k.tasks) && k'.vm.ft == k.vm.ft)
    && (pid != 0 ==> pid == k.nextPid && NewSlot(k) !in Procs(k)
                     && NewSlot(k) < |k'.tasks| && k'.tasks[NewSlot(k)].pid == pid
                     && exists p :: Started(p, img) && Procs(k') == Procs(k)[NewSlot(k) := p])
    && (ImageOk(img) ==> (pid != 0 <==> CanSpawn(k, img)))
  }

  // user_spawn, with heap room for the first frame.
  lemma SpawnOk(k: Kernel, img: Bytes)
    requires KInv(k) && (IrqRoom(k.heap) ==> AreaRoom(k.heap)) && Spawn(k, img).Spawned?
    ensures SpawnResult(k, img, Spawn(k, img).k, Spawn(k, img).pid)
  {
    CurrentSpace(k);
    CreateSpaceOk(k.vm, SpacesOf(k.tasks));
    CreateSpaceIff(k.vm, SpacesOf(k.tasks));
    var s := CreateOf(k.vm);
    if s.ret == 0 {
      SameAround(k, k.(vm := s.vm));
    } else {
      Filled(k, img);
      var r := LoadImage(s.vm, s.ret, img);
      LoadBack(k, r.vm, s.ret);
      if r.Rejected? {
        SameAround(k, k.(vm := DestroyOf(LoadOf(r.vm, k.vm.cr3), s.ret)));
      } else {
        SpawnFilled(k, img, s.ret, r.vm);
      }
    }
  }

  lemma CreateSpaceIff(vm: Paging.Vm, spaces: set<nat>)
    requires VmOk(vm, spaces)
    ensures CreateOf(vm).Done? && CreateOf(vm).ret != 0 <==> FrameAccounting.TwoLowFrames(vm.ft)
  {
    assert Peek(0);
    FrameAccounting.CreateSucceedsIff(vm, spaces);
  }

  lemma SpawnFilled(k: Kernel, img: Bytes, c: nat, vm: Paging.Vm)
    requires KInv(k) && (IrqRoom(k.heap) ==> AreaRoom(k.heap)) && CreateOf(k.vm).Done? && CreateOf(k.vm).ret == c != 0
    requires LoadImage(CreateOf(k.vm).vm, c, img) == Loaded(vm) && |img| >= HEADER && EntryPoint(img) != 0
    requires FilledSpace(k, c, vm) && Runnable(img, PagesOf(vm, c))
    requires FrameAccounting.TwoLowFrames(k.vm.ft) && (ImageOk(img) ==> Loadable(img, Frames.FreeFrames(k.vm.ft)))
    ensures Spawn(k, img).Spawned? && SpawnResult(k, img, Spawn(k, img).k, Spawn(k, img).pid)
  {
    var vm2 := LoadOf(vm, k.vm.cr3);
    var (k1, pid) := CreateUser(k, EntryPoint(img), c);
    var vm3 := if pid == 0 then DestroyOf(vm2, c) else vm2;
    SpawnIs(k, img, c, vm, vm3);
    if pid == 0 { SpawnGivesUp(k, img, c, vm, k1); } else { SpawnStarts(k, img, c, vm, k1); }
  }

  // No slot, or no interrupt stack: the space is destroyed again.
  lemma SpawnGivesUp(k: Kernel, img: Bytes, c: nat, vm: Paging.Vm, k1: Kernel)
    requires KInv(k) && (IrqRoom(k.heap) ==> AreaRoom(k.heap)) && FilledSpace(k, c, vm) && |img| >= HEADER
    requires CreateUser(k, EntryPoint(img), c) == (k1, 0)
    ensures SpawnResult(k, img, k1.(vm := DestroyOf(LoadOf(vm, k.vm.cr3), c)), 0)
  {
    LoadBack(k, vm, c);
    SlotIff(k);
    CreateUserOk(k, DestroyOf(LoadOf(vm, k.vm.cr3), c), EntryPoint(img), c);
    SameTable(k, EntryPoint(img), c);
  }

  lemma SpawnStarts(k: Kernel, img: Bytes, c: nat, vm: Paging.Vm, k1: Kernel)
    requires KInv(k) && (IrqRoom(k.heap) ==> AreaRoom(k.heap)) && FilledSpace(k, c, vm) && |img| >= HEADER
    requires Runnable(img, PagesOf(vm, c)) && EntryPoint(img) != 0 && CreateUser(k, EntryPoint(img), c).0 == k1
    requires CreateUser(k, EntryPoint(img), c).1 != 0
    requires FrameAccounting.TwoLowFrames(k.vm.ft) && (ImageOk(img) ==> Loadable(img, Frames.FreeFrames(k.vm.ft)))
    ensures SpawnResult(k, img, k1.(vm := LoadOf(vm, k.vm.cr3)), CreateUser(k, EntryPoint(img), c).1)
  {
    LoadBack(k, vm, c);
    SlotIff(k);
    var vm2 := LoadOf(vm, k.vm.cr3);
    CreateUserOk(k, vm2, EntryPoint(img), c);
    assert PagesOf(vm2, c) == PagesOf(vm, c);
    var ctx :| Begins(ctx, EntryPoint(img))
               && Procs(k1.(vm := vm2)) == Procs(k)[NewSlot(k) := Proc(ctx, PagesOf(vm2, c))];
    assert Started(Proc(ctx, PagesOf(vm2, c)), img);
  }

  // Once the image is loaded the slot is all that is left to do.
  lemma SpawnIs(k: Kernel, img: Bytes, c: nat, vm: Paging.Vm, vm3: Paging.Vm)
    requires |k.tasks| == MAX_TASKS && k.count <= MAX_TASKS && |img| >= HEADER
    requires CreateOf(k.vm).Done? && CreateOf(k.vm).ret == c != 0 && LoadImage(CreateOf(k.vm).vm, c, img) == Loaded(vm)
    requires var pid, vm2 := CreateUser(k, EntryPoint(img), c).1, LoadOf(vm, k.vm.cr3);
             vm3 == if pid == 0 then DestroyOf(vm2, c) else vm2
    ensures var (k1, pid) := CreateUser(k, EntryPoint(img), c); Spawn(k, img) == Spawned(k1.(vm := vm3), pid)
  {
    CreateUserVm(k, vm, EntryPoint(img), c);
  }

  // An image that makes sense never sends the loader astray: user_spawn touches unmapped
  // memory exactly when the tables of the new space would be out of the kernel's reach.
  lemma SpawnAstrayIff(k: Kernel, img: Bytes)
    requires KInv(k) && ImageOk(img)
    ensures Frames.Sized(k.vm.ft)
    ensures Spawn(k, img).SpawnAstray? <==>
            exists f: nat, g: nat :: FrameAccounting.LowestTwo(k.vm.ft, f, g) && 0x200 <= g
  {
    CurrentSpace(k);
    var spaces := SpacesOf(k.tasks);
    assert Frames.Sized(k.vm.ft) by { assert Peek(0); }
    CreateWild(k.vm, spaces);
    var s := CreateOf(k.vm);
    if s.Done? && s.ret != 0 {
      CreateSpaceOk(k.vm, spaces);
      CreateSpaceEmpty(k.vm, spaces);
      LoadImageIff(s.vm, spaces + {s.ret}, s.ret, img);
    }
  }

  lemma CreateWild(vm: Paging.Vm, spaces: set<nat>)
    requires VmOk(vm, spaces)
    ensures Frames.Sized(vm.ft)
    ensures CreateOf(vm).Wild? <==>
            exists f: nat, g: nat :: FrameAccounting.LowestTwo(vm.ft, f, g) && 0x200 <= g
  {
    assert Peek(0);
    FrameAccounting.CreateWildIff(vm, spaces);
  }

  // A failed creation leaves the live tasks' spaces as they were.
  lemma SameTable(k: Kernel, entry: nat, c: nat)
    requires KInv(k) && CreateUser(k, entry, c).1 == 0
    ensures SpacesOf(CreateUser(k, entry, c).0.tasks) == SpacesOf(k.tasks)
  {
    NewSlotFree(k);
    var tasks' := CreateUser(k, entry, c).0.tasks;
    assert k.nextPid > 0 by { assert Open(0); }
    SameSpaces(k.tasks, tasks');
  }
}
