// task_fork_user: one more process, a copy of its parent, or nothing at all.

module TaskFork {
  import opened Tasks
  import opened SpaceCalls
  import opened TaskFrames
  import opened TaskStacks
  import opened TaskSpaces
  import opened TaskInv
  import opened TaskSwitch
  import opened TaskBirth
  import HeapBlocks
  import Paging
  import FrameAccounting

  // The slot a creation takes, MAX_TASKS when the table is full.
  function NewSlot(k: Kernel): nat
    requires k.count <= |k.tasks| == MAX_TASKS
  {
    AllocSlot(k.tasks, k.count).0
  }

  lemma NewSlotFree(k: Kernel)
    requires KInv(k)
    ensures var (slot, count) := AllocSlot(k.tasks, k.count);
            slot < MAX_TASKS ==>
              !Live(k.tasks, slot) && slot < count <= MAX_TASKS && k.count <= count && slot != k.current
  {
    assert Open(0);
  }

  // Slots are refused only when all sixteen tasks are live.
  lemma FullIff(k: Kernel)
    requires KInv(k)
    ensures NewSlot(k) == MAX_TASKS <==> forall i: nat :: i < MAX_TASKS ==> Live(k.tasks, i)
  {
    assert Open(0);
    if forall i: nat :: i < MAX_TASKS ==> Live(k.tasks, i) {
      assert Live(k.tasks, MAX_TASKS - 1);
      var i := DeadSlot(k.tasks, k.count, 0);
      assert i < k.count ==> !Live(k.tasks, i);
    }
  }

  lemma UnusedWithin(k: Kernel, h: Heap, w: Span, s: Span)
    requires Unused(k, h, w) && Within(s, w)
    ensures Unused(k, h, s)
  {
    var b :| b in h && Holds(b, w);
    assert Holds(b, s);
    forall i: nat, u | Live(k.tasks, i) && u in Areas(k, i) ensures Apart(u, s) { assert Apart(u, w); }
  }

  // ------------------------------------------------------------------
  // Fork
  // ------------------------------------------------------------------

  lemma {:induction false} CopyAt(ram: Ram, to: nat, from: nat, n: nat, a: nat)
    requires a < |ram| && !(to <= a < to + 4 * n)
    ensures Copy(ram, to, from, n)[a] == ram[a]
    decreases n
  {
    if n > 0 { CopyAt(ram, to, from, n - 1, a); }
  }

  // Word i is copied faithfully if the copy does not overwrite it first.
  lemma {:induction false} CopyWord(ram: Ram, to: nat, from: nat, n: nat, i: nat)
    requires i < n && to + 4 * n <= |ram| && from + 4 * n <= |ram| && !(to <= from + 4 * i < to + 4 * n)
    ensures Copy(ram, to, from, n)[to + 4 * i] == ram[from + 4 * i]
    decreases n
  {
    if i < n - 1 { CopyWord(ram, to, from, n - 1, i); } else { CopyAt(ram, to, from, n - 1, from + 4 * i); }
  }

  // The child's frame: the parent's words with eax zeroed.
  lemma ForkRam(ram: Ram, to: nat, from: nat)
    requires to + FRAME_BYTES <= |ram| && from + FRAME_BYTES <= |ram| && Ring3(ram[from + 60])
    requires Apart(Span(from, from + USER_FRAME), Span(to, to + FRAME_BYTES))
    ensures var ram' := Put(Copy(ram, to, from, FRAME_BYTES / 4), to + EAX, [0]);
            && |ram'| == |ram| && Load(ram', to) == Load(ram, from).(eax := 0) && ram'[to + 60] == ram[from + 60]
            && (forall a: nat :: a < |ram| && !(to <= a < to + FRAME_BYTES) ==> ram'[a] == ram[a])
  {
    var mid := Copy(ram, to, from, FRAME_BYTES / 4);
    var ram' := Put(mid, to + EAX, [0]);
    forall i: nat | i < 19 ensures ram'[to + 4 * i] == if i == 11 then 0 else ram[from + 4 * i] {
      PutAt(mid, to + EAX, [0], to + 4 * i);
      CopyWord(ram, to, from, FRAME_BYTES / 4, i);
    }
    forall a: nat | a < |ram| && !(to <= a < to + FRAME_BYTES) ensures ram'[a] == ram[a] {
      PutAt(mid, to + EAX, [0], a);
      CopyAt(ram, to, from, FRAME_BYTES / 4, a);
    }
    CopiedFrame(ram, ram', from, to);
    assert ram'[to + 4 * 15] == ram[from + 4 * 15];
  }

  // The interrupted task's own frame is not disturbed by writes to unused memory.
  lemma OwnFrame(k: Kernel, k': Kernel, slot: nat, w: Span, fp: nat)
    requires KInv(k) && Interrupted(k, fp) && Around(k, k', slot) && slot != k.current
    requires k'.ram == k.ram || WroteUnused(k, k', w)
    ensures Interrupted(k', fp)
  {
    assert Open(0);
    if k'.ram != k.ram {
      var t := k.tasks[k.current];
      var s := StackOf(k, t);
      assert s in Areas(k, k.current) && Apart(s, w);
      var f := Span(fp, fp + if t.user then USER_FRAME else KERNEL_FRAME);
      assert Kept(k.ram, k'.ram, f.lo, f.hi);
      LoadKept(k.ram, k'.ram, fp);
    }
  }

  // What fork does to the processes: nothing when it fails; otherwise one more, with the
  // parent's registers but eax = 0, and the parent's pages.
  ghost predicate ForkParts(k: Kernel, fp: nat, k': Kernel, pid: nat)
    requires KInv(k)
  {
    && KInv(k') && k'.current == k.current && k'.cpu == k.cpu && k'.tasks[k.current] == k.tasks[k.current]
    && Interrupted(k', fp)
    && (pid == 0 ==> Procs(k') == Procs(k))
    && (pid != 0 ==> (NewSlot(k) < MAX_TASKS && !Live(k.tasks, NewSlot(k)) && pid == k.nextPid
                      && k.current in Procs(k)
                      && Procs(k') == Procs(k)[NewSlot(k) := Proc(k.cpu.(eax := 0), Procs(k)[k.current].pages)]))
  }

  // The same, unfolded only where a proof mentions Open.
  ghost predicate ForkResult(k: Kernel, fp: nat, k': Kernel, pid: nat)
    requires KInv(k)
  {
    forall n: nat {:trigger Open(n)} :: Open(n) ==> ForkParts(k, fp, k', pid)
  }

  lemma SameFork(k: Kernel, k': Kernel, fp: nat)
    requires KInv(k) && KInv(k') && Interrupted(k', fp) && Procs(k') == Procs(k)
    requires k'.current == k.current && k'.cpu == k.cpu && k'.tasks[k.current] == k.tasks[k.current]
    ensures ForkResult(k, fp, k', 0)
  {
  }

  lemma SameAround(k: Kernel, k': Kernel)
    requires KInv(k) && k' == k.(count := k'.count, vm := k'.vm) && k.count <= k'.count <= MAX_TASKS
    requires VmOk(k'.vm, SpacesOf(k.tasks)) && k'.vm.cr3 == k.vm.cr3 && SamePagesOf(k.vm, k'.vm, SpacesOf(k.tasks))
    ensures KInv(k') && Procs(k') == Procs(k)
  {
    assert Open(0);
    SameAreas(k, k');
    forall i: nat | Live(k.tasks, i) && i != k.current ensures FrameOk(k', i) { assert FrameOk(k, i); }
    forall i: nat | Live(k.tasks, i) ensures ProcOf(k', i) == ProcOf(k, i) {
      if k.tasks[i].user { assert LiveUser(k.tasks, i) && k.tasks[i].cr3 in SpacesOf(k.tasks); }
    }
    assert Procs(k') == Procs(k);
  }

  // Space c made and unmade again.
  lemma Unmade(k: Kernel, vm: Paging.Vm, c: nat)
    requires KInv(k) && VmOk(vm, SpacesOf(k.tasks) + {c}) && c !in SpacesOf(k.tasks) && vm.cr3 == k.vm.cr3
    requires SamePagesOf(k.vm, vm, SpacesOf(k.tasks))
    ensures var vm' := DestroyOf(vm, c);
            VmOk(vm', SpacesOf(k.tasks)) && vm'.cr3 == k.vm.cr3 && SamePagesOf(k.vm, vm', SpacesOf(k.tasks)) &&
                vm'.mem == vm.mem
  {
    assert Open(0);
    var spaces := SpacesOf(k.tasks);
    SpaceNumbers(vm, spaces + {c}, c);
    SpaceOfLive(k, k.current);
    DestroySpaceOk(vm, spaces + {c}, c);
    assert spaces + {c} - {c} == spaces;
  }

  lemma CurrentSpace(k: Kernel)
    requires KInv(k)
    ensures VmOk(k.vm, SpacesOf(k.tasks)) && k.vm.cr3 == SpaceFor(k.tasks[k.current])
    ensures k.tasks[k.current].user ==> k.tasks[k.current].cr3 in SpacesOf(k.tasks)
  {
    assert Open(0);
    if k.tasks[k.current].user { assert LiveUser(k.tasks, k.current); }
  }

  lemma ForkUserOk(k: Kernel, fp: nat)
    requires KInv(k) && Interrupted(k, fp) && k.tasks[k.current].user && ForkUser(k, fp).Forked?
    ensures ForkResult(k, fp, ForkUser(k, fp).k, ForkUser(k, fp).pid)
  {
    NewSlotFree(k);
    if NewSlot(k) >= MAX_TASKS {
      SameFork(k, k, fp);
    } else {
      ForkWithSlot(k, fp);
    }
  }

  lemma ForkWithSlot(k: Kernel, fp: nat)
    requires KInv(k) && Interrupted(k, fp) && k.tasks[k.current].user && ForkUser(k, fp).Forked?
    requires NewSlot(k) < MAX_TASKS
    ensures ForkResult(k, fp, ForkUser(k, fp).k, ForkUser(k, fp).pid)
  {
    var count, s := AllocSlot(k.tasks, k.count).1, ForkOf(k.vm, k.tasks[k.current].cr3);
    NewSlotFree(k);
    CurrentSpace(k);
    ForkSpaceOk(k.vm, SpacesOf(k.tasks), k.tasks[k.current].cr3);
    if s.ret == 0 {
      ForkNothing(k, fp, count, s.vm);
    } else {
      Unmade(k, s.vm, s.ret);
      ForkHeap(k, fp, s);
    }
  }

  // A fork that got no further than the address space.
  lemma ForkNothing(k: Kernel, fp: nat, count: nat, vm: Paging.Vm)
    requires KInv(k) && Interrupted(k, fp) && k.count <= count <= MAX_TASKS
    requires VmOk(vm, SpacesOf(k.tasks)) && vm.cr3 == k.vm.cr3 && SamePagesOf(k.vm, vm, SpacesOf(k.tasks))
    ensures ForkResult(k, fp, k.(count := count, vm := vm), 0)
  {
    SameAround(k, k.(count := count, vm := vm));
    SameFork(k, k.(count := count, vm := vm), fp);
  }

  lemma ForkHeap(k: Kernel, fp: nat, s: Paging.Outcome)
    requires KInv(k) && Interrupted(k, fp) && k.tasks[k.current].user && ForkUser(k, fp).Forked?
    requires NewSlot(k) < MAX_TASKS
    requires ChildSpace(k, s)
    ensures ForkResult(k, fp, ForkUser(k, fp).k, ForkUser(k, fp).pid)
  {
    var count := AllocSlot(k.tasks, k.count).1;
    var (h1, copy) := Alloc(k.heap, FRAME_BYTES);
    assert Unwrap(0);
    NewSlotFree(k);
    HeapTiled(k, FRAME_BYTES);
    if copy == 0 {
      Unmade(k, s.vm, s.ret);
      ForkNothing(k, fp, count, DestroyOf(s.vm, s.ret));
    } else if Alloc(h1, IRQ_STACK).1 == 0 {
      AllocNull(h1, IRQ_STACK);
      ForkNoStack(k, fp, s, h1, copy);
    } else {
      var (h2, irq) := Alloc(h1, IRQ_STACK);
      ForkSucceeds(k, fp, s, h1, copy, h2, irq);
    }
  }

  lemma HeapTiled(k: Kernel, size: nat)
    requires KInv(k) && 0 < size < 0x1_0000
    ensures HeapBlocks.Tiled(k.heap) && HeapBlocks.Tiled(Alloc(k.heap, size).0)
  {
    assert Open(0);
    HeapBlocks.MallocTiled(k.heap, size);
  }

  // The child's space as fork leaves it, unfolded where a proof mentions Unwrap.
  ghost predicate ChildSpace(k: Kernel, s: Paging.Outcome)
    requires k.current < |k.tasks|
  {
    s.Done? && forall n: nat {:trigger Unwrap(n)} :: Unwrap(n) ==> ChildSpaceParts(k, s)
  }

  ghost predicate ChildSpaceParts(k: Kernel, s: Paging.Outcome)
    requires k.current < |k.tasks|
  {
    && s == ForkOf(k.vm, k.tasks[k.current].cr3) && s.Done? && s.ret != 0 && s.ret !in SpacesOf(k.tasks)
    && VmOk(s.vm, SpacesOf(k.tasks) + {s.ret}) && s.vm.cr3 == k.vm.cr3
    && SamePagesOf(k.vm, s.vm, SpacesOf(k.tasks)) && PagesOf(s.vm, s.ret) == PagesOf(k.vm, k.tasks[k.current].cr3)
  }

  lemma CopyFits(k: Kernel, fp: nat)
    requires KInv(k) && Interrupted(k, fp)
    ensures fp + FRAME_BYTES <= |k.ram|
  {
    assert Open(0);
    var s := StackOf(k, k.tasks[k.current]);
    assert s in Areas(k, k.current) && Placed(k, s);
    StackInRam(k, s);
  }

  // The kernel with a new slot and everything a creation sets besides.
  function WithTask(k: Kernel, slot: nat, count: nat, t: Task, vm: Paging.Vm, heap: Heap, ram: Ram): Kernel
    requires slot < |k.tasks|
  {
    k.(tasks := k.tasks[slot := t], count := count, nextPid := k.nextPid + 1, vm := vm, heap := heap, ram := ram)
  }

  lemma WithTaskAround(k: Kernel, slot: nat, count: nat, t: Task, vm: Paging.Vm, heap: Heap, ram: Ram)
    requires |k.tasks| == MAX_TASKS && slot < MAX_TASKS && !Live(k.tasks, slot) && slot < count <= MAX_TASKS
    requires k.count <= count
    requires Holding(k, heap) && vm.cr3 == k.vm.cr3 && SamePagesOf(k.vm, vm, SpacesOf(k.tasks))
    ensures Around(k, WithTask(k, slot, count, t, vm, heap, ram), slot)
  {
  }

  lemma ForkNoStackIs(k: Kernel, fp: nat, s: Paging.Outcome, h1: Heap, copy: nat)
    requires |k.tasks| == MAX_TASKS && k.current < k.count <= MAX_TASKS && ChildSpace(k, s) && ForkUser(k, fp).Forked?
    requires NewSlot(k) < MAX_TASKS && Gives(k.heap, FRAME_BYTES, h1, copy) && Alloc(h1, IRQ_STACK) == (h1, 0)
    ensures var (slot, count) := AllocSlot(k.tasks, k.count);
            ForkUser(k, fp) == Forked(WithTask(k, slot, count, EmptySlot.(pid := k.nextPid, user := true),
                                               DestroyOf(s.vm, s.ret), FreeOf(h1, copy),
                                                   Copy(k.ram, copy, fp, FRAME_BYTES / 4)), 0)
  {
    assert Unwrap(0);
  }

  lemma ForkNoStack(k: Kernel, fp: nat, s: Paging.Outcome, h1: Heap, copy: nat)
    requires KInv(k) && Interrupted(k, fp) && k.tasks[k.current].user && ChildSpace(k, s) && ForkUser(k, fp).Forked?
    requires NewSlot(k) < MAX_TASKS && Gives(k.heap, FRAME_BYTES, h1, copy) && Alloc(h1, IRQ_STACK) == (h1, 0)
    ensures ForkResult(k, fp, ForkUser(k, fp).k, ForkUser(k, fp).pid)
  {
    ForkNoStackIs(k, fp, s, h1, copy);
    var k' := ForkUser(k, fp).k;
    NoStackAround(k, fp, s, h1, copy);
    NoStackRam(k, k', fp, NewSlot(k), copy);
    SameFork(k, k', fp);
  }

  lemma NoStackAround(k: Kernel, fp: nat, s: Paging.Outcome, h1: Heap, copy: nat)
    requires KInv(k) && ChildSpace(k, s) && NewSlot(k) < MAX_TASKS && Gives(k.heap, FRAME_BYTES, h1, copy)
    ensures var (slot, count) := AllocSlot(k.tasks, k.count); var vm := DestroyOf(s.vm, s.ret);
            var k' := WithTask(k, slot, count, EmptySlot.(pid := k.nextPid, user := true), vm, FreeOf(h1, copy),
                               Copy(k.ram, copy, fp, FRAME_BYTES / 4));
            Around(k, k', slot) && slot != k.current && VmOk(vm, SpacesOf(k.tasks))
    ensures copy + FRAME_BYTES <= HeapBlocks.HEAP_END
    ensures forall i: nat, s :: Live(k.tasks, i) && s in Areas(k, i) ==> Apart(s, Span(copy, copy + FRAME_BYTES))
  {
    var (slot, count) := AllocSlot(k.tasks, k.count);
    assert ChildSpaceParts(k, s) by { assert Unwrap(0); }
    NewSlotFree(k);
    BriefBlock(k, h1, copy);
    Unmade(k, s.vm, s.ret);
    WithTaskAround(k, slot, count, EmptySlot.(pid := k.nextPid, user := true), DestroyOf(s.vm, s.ret), FreeOf(h1, copy),
                   Copy(k.ram, copy, fp, FRAME_BYTES / 4));
  }

  lemma BriefBlock(k: Kernel, h1: Heap, copy: nat)
    requires KInv(k) && Gives(k.heap, FRAME_BYTES, h1, copy)
    ensures Holding(k, FreeOf(h1, copy)) && copy + FRAME_BYTES <= HeapBlocks.HEAP_END
    ensures forall i: nat, s :: Live(k.tasks, i) && s in Areas(k, i) ==> Apart(s, Span(copy, copy + FRAME_BYTES))
  {
    HoldingNow(k);
    assert HeapOk(k) by { assert Open(0); }
    Fresh(k, k.heap, FRAME_BYTES, h1, copy);
    Returned(k, k.heap, FRAME_BYTES, h1, copy);
  }

  // Freeing the copy again: its block is free space now, so what it held no longer matters.
  lemma NoStackRam(k: Kernel, k': Kernel, fp: nat, slot: nat, copy: nat)
    requires KInv(k) && Interrupted(k, fp) && Around(k, k', slot) && !k'.tasks[slot].ready && slot != k.current
    requires k'.ram == Copy(k.ram, copy, fp, FRAME_BYTES / 4) && copy + FRAME_BYTES <= HeapBlocks.HEAP_END
    requires forall i: nat, s :: Live(k.tasks, i) && s in Areas(k, i) ==> Apart(s, Span(copy, copy + FRAME_BYTES))
    requires VmOk(k'.vm, SpacesOf(k.tasks))
    ensures KInv(k') && Procs(k') == Procs(k) && Interrupted(k', fp)
  {
    assert Open(0);
    CopyFits(k, fp);
    var mid := k'.(ram := k.ram);
    DeadSlotAdded(k, mid, slot, Span(0, 0));
    OwnFrame(k, mid, slot, Span(0, 0), fp);
    forall a: nat | a < |k.ram| && !(copy <= a < copy + FRAME_BYTES) ensures k'.ram[a] == k.ram[a] {
      CopyAt(k.ram, copy, fp, FRAME_BYTES / 4, a);
    }
    forall i: nat, s | Live(mid.tasks, i) && s in Areas(mid, i) ensures Apart(s, Span(copy, copy + FRAME_BYTES)) {
      OldAreas(k, mid, i);
      assert Live(k.tasks, i);
    }
    UnusedWrite(mid, k'.ram, Span(copy, copy + FRAME_BYTES), fp);
  }

  // Memory apart from every live task's may change freely.
  lemma UnusedWrite(k: Kernel, ram': Ram, w: Span, fp: nat)
    requires KInv(k) && Interrupted(k, fp) && |ram'| == |k.ram|
    requires forall i: nat, s :: Live(k.tasks, i) && s in Areas(k, i) ==> Apart(s, w)
    requires forall a: nat :: a < |k.ram| && !(w.lo <= a < w.hi) ==> ram'[a] == k.ram[a]
    ensures KInv(k.(ram := ram')) && Procs(k.(ram := ram')) == Procs(k) && Interrupted(k.(ram := ram'), fp)
  {
    assert Open(0);
    var k' := k.(ram := ram');
    SameAreas(k, k');
    forall i: nat | Live(k.tasks, i) && i != k.current
      ensures FrameOk(k', i) && Load(ram', k.tasks[i].esp) == Load(k.ram, k.tasks[i].esp)
    {
      assert FrameOk(k, i);
      var f := FrameSpan(k.tasks[i]);
      assert f in Areas(k, i) && Apart(f, w);
      assert Kept(k.ram, ram', f.lo, f.hi);
      LoadKept(k.ram, ram', k.tasks[i].esp);
    }
    forall i: nat | Live(k.tasks, i) ensures ProcOf(k', i) == ProcOf(k, i) { }
    assert Procs(k') == Procs(k);
    var t := k.tasks[k.current];
    var s := StackOf(k, t);
    assert s in Areas(k, k.current) && Apart(s, w);
    var f := Span(fp, fp + if t.user then USER_FRAME else KERNEL_FRAME);
    assert Kept(k.ram, ram', f.lo, f.hi);
    LoadKept(k.ram, ram', fp);
  }

  lemma ForkIs(k: Kernel, fp: nat, s: Paging.Outcome, h1: Heap, copy: nat, h2: Heap, irq: nat)
    requires |k.tasks| == MAX_TASKS && k.current < k.count <= MAX_TASKS && ChildSpace(k, s) && ForkUser(k, fp).Forked?
    requires NewSlot(k) < MAX_TASKS && Gives(k.heap, FRAME_BYTES, h1, copy) && Gives(h1, IRQ_STACK, h2, irq)
    ensures var (slot, count) := AllocSlot(k.tasks, k.count);
            ForkUser(k, fp) == Forked(WithTask(k, slot, count, ChildTask(k, s.ret, irq, copy), s.vm, h2,
                                               Put(Copy(k.ram, copy, fp, FRAME_BYTES / 4), copy + EAX, [0])), k.nextPid)
  {
    assert Unwrap(0);
  }

  function ChildTask(k: Kernel, c: nat, irq: nat, copy: nat): Task {
    Task(k.nextPid, true, true, copy, 0, irq + IRQ_STACK, c, SLICE)
  }

  lemma ForkSucceeds(k: Kernel, fp: nat, s: Paging.Outcome, h1: Heap, copy: nat, h2: Heap, irq: nat)
    requires KInv(k) && Interrupted(k, fp) && k.tasks[k.current].user && ChildSpace(k, s) && ForkUser(k, fp).Forked?
    requires NewSlot(k) < MAX_TASKS && Gives(k.heap, FRAME_BYTES, h1, copy) && Gives(h1, IRQ_STACK, h2, irq)
    ensures ForkResult(k, fp, ForkUser(k, fp).k, ForkUser(k, fp).pid)
  {
    ForkIs(k, fp, s, h1, copy, h2, irq);
    ForkBuilds(k, fp, s, h1, copy, h2, irq);
    ChildAdded(k, ForkUser(k, fp).k, fp, s, copy, irq);
  }

  // The kernel once fork has filled in the child's slot, unfolded where a proof mentions Unwrap.
  ghost predicate ChildBuilt(k: Kernel, k': Kernel, s: Paging.Outcome, copy: nat, irq: nat) {
    forall n: nat {:trigger Unwrap(n)} :: Unwrap(n) ==> ChildParts(k, k', s, copy, irq)
  }

  ghost predicate ChildParts(k: Kernel, k': Kernel, s: Paging.Outcome, copy: nat, irq: nat) {
    && s.Done? && k.count <= |k.tasks| == MAX_TASKS && NewSlot(k) < MAX_TASKS && Around(k, k', NewSlot(k)) &&
       NewSlot(k) != k.current
    && k'.vm == s.vm && k'.nextPid == k.nextPid + 1
    && k'.tasks[NewSlot(k)] == ChildTask(k, s.ret, irq, copy)
    && Unused(k, k'.heap, Span(copy, copy + FRAME_BYTES)) && Unused(k, k'.heap, Span(irq, irq + IRQ_STACK))
    && |k'.ram| == |k.ram| && copy + FRAME_BYTES <= |k.ram| && Load(k'.ram, copy) == k.cpu.(eax := 0) &&
       Ring3(k'.ram[copy + 60])
    && (forall a: nat :: a < |k.ram| && !(copy <= a < copy + FRAME_BYTES) ==> k'.ram[a] == k.ram[a])
  }

  // The child's frame in memory, away from everything in use.
  ghost predicate ChildRam(k: Kernel, ram: Ram, h: Heap, copy: nat, irq: nat) {
    && Holding(k, h) && Unused(k, h, Span(copy, copy + FRAME_BYTES)) && Unused(k, h, Span(irq, irq + IRQ_STACK))
    && |ram| == |k.ram| && copy + FRAME_BYTES <= |k.ram| && Load(ram, copy) == k.cpu.(eax := 0) && Ring3(ram[copy + 60])
    && (forall a: nat :: a < |k.ram| && !(copy <= a < copy + FRAME_BYTES) ==> ram[a] == k.ram[a])
  }

  lemma ForkWrites(k: Kernel, fp: nat, h1: Heap, copy: nat, h2: Heap, irq: nat)
    requires KInv(k) && Interrupted(k, fp) && k.tasks[k.current].user
    requires Gives(k.heap, FRAME_BYTES, h1, copy) && Gives(h1, IRQ_STACK, h2, irq)
    ensures ChildRam(k, Put(Copy(k.ram, copy, fp, FRAME_BYTES / 4), copy + EAX, [0]), h2, copy, irq)
  {
    ParentFrame(k, fp);
    TwoUnused(k, FRAME_BYTES, h1, copy, IRQ_STACK, h2, irq);
    var s := StackOf(k, k.tasks[k.current]);
    assert Live(k.tasks, k.current) && s in Areas(k, k.current);
    assert Apart(s, Span(copy, copy + FRAME_BYTES));
    ForkRam(k.ram, copy, fp);
  }

  lemma ForkBuilds(k: Kernel, fp: nat, s: Paging.Outcome, h1: Heap, copy: nat, h2: Heap, irq: nat)
    requires KInv(k) && Interrupted(k, fp) && k.tasks[k.current].user && ChildSpace(k, s)
    requires NewSlot(k) < MAX_TASKS && Gives(k.heap, FRAME_BYTES, h1, copy) && Gives(h1, IRQ_STACK, h2, irq)
    ensures var (slot, count) := AllocSlot(k.tasks, k.count);
            ChildBuilt(k, WithTask(k, slot, count, ChildTask(k, s.ret, irq, copy), s.vm, h2,
                                   Put(Copy(k.ram, copy, fp, FRAME_BYTES / 4), copy + EAX, [0])), s, copy, irq)
  {
    ForkWrites(k, fp, h1, copy, h2, irq);
    Builds(k, Put(Copy(k.ram, copy, fp, FRAME_BYTES / 4), copy + EAX, [0]), s, copy, h2, irq);
  }

  lemma Builds(k: Kernel, ram: Ram, s: Paging.Outcome, copy: nat, h: Heap, irq: nat)
    requires KInv(k) && ChildSpace(k, s) && NewSlot(k) < MAX_TASKS && ChildRam(k, ram, h, copy, irq)
    ensures var (slot, count) := AllocSlot(k.tasks, k.count);
            ChildBuilt(k, WithTask(k, slot, count, ChildTask(k, s.ret, irq, copy), s.vm, h, ram), s, copy, irq)
  {
    var (slot, count) := AllocSlot(k.tasks, k.count);
    assert ChildSpaceParts(k, s) by { assert Unwrap(0); }
    NewSlotFree(k);
    WithTaskAround(k, slot, count, ChildTask(k, s.ret, irq, copy), s.vm, h, ram);
  }

  // Facts about the interrupted task's frame.
  lemma ParentFrame(k: Kernel, fp: nat)
    requires KInv(k) && Interrupted(k, fp) && k.tasks[k.current].user
    ensures fp + FRAME_BYTES <= |k.ram| == RAM_SIZE && Ring3(k.ram[fp + 60]) && Load(k.ram, fp) == k.cpu
    ensures Holding(k, k.heap) && HeapOk(k)
  {
    CopyFits(k, fp);
    HoldingNow(k);
    assert Open(0);
  }

  lemma ChildAdded(k: Kernel, k': Kernel, fp: nat, s: Paging.Outcome, copy: nat, irq: nat)
    requires KInv(k) && Interrupted(k, fp) && k.tasks[k.current].user && ChildSpace(k, s)
    requires ChildBuilt(k, k', s, copy, irq)
    ensures ForkResult(k, fp, k', k.nextPid)
  {
    assert Unwrap(0);
    var w := Span(copy, copy + FRAME_BYTES);
    OwnFrame(k, k', NewSlot(k), w, fp);
    ChildInv(k, k', s, copy, irq);
    assert Open(0);
  }

  lemma ChildInv(k: Kernel, k': Kernel, s: Paging.Outcome, copy: nat, irq: nat)
    requires KInv(k) && k.tasks[k.current].user && ChildSpace(k, s) && ChildBuilt(k, k', s, copy, irq)
    ensures KInv(k') && NewSlot(k) < MAX_TASKS && !Live(k.tasks, NewSlot(k)) && k.nextPid > 0 && k.current in Procs(k)
    ensures k'.cpu == k.cpu && k'.tasks[k.current] == k.tasks[k.current]
    ensures Procs(k') == Procs(k)[NewSlot(k) := Proc(k.cpu.(eax := 0), Procs(k)[k.current].pages)]
  {
    assert Unwrap(0);
    var slot, w := NewSlot(k), Span(copy, copy + FRAME_BYTES);
    ChildFits(k, k', s, copy, irq);
    TaskAdded(k, k', slot, w);
    ParentKept(k, k', slot);
  }

  // The child's slot fits beside the live ones.
  lemma ChildFits(k: Kernel, k': Kernel, s: Paging.Outcome, copy: nat, irq: nat)
    requires KInv(k) && ChildSpace(k, s) && ChildBuilt(k, k', s, copy, irq)
    ensures NewSlot(k) < |k'.tasks| && NewAreas(k, k', NewSlot(k)) && FrameOk(k', NewSlot(k))
    ensures WroteUnused(k, k', Span(copy, copy + FRAME_BYTES))
  {
    assert Unwrap(0);
    var slot, w := NewSlot(k), Span(copy, copy + FRAME_BYTES);
    UnusedWithin(k, k'.heap, w, FrameSpan(k'.tasks[slot]));
  }

  lemma ParentKept(k: Kernel, k': Kernel, slot: nat)
    requires KInv(k) && Around(k, k', slot) && slot != k.current
    ensures !Live(k.tasks, slot) && k.nextPid > 0 && k.current in Procs(k)
    ensures k'.cpu == k.cpu && k'.tasks[k.current] == k.tasks[k.current]
  {
    assert Open(0);
    assert Live(k.tasks, k.current);
  }

  // ------------------------------------------------------------------
  // The system call
  // ------------------------------------------------------------------

  lemma ReplyRam(ram: Ram, fp: nat, v: nat)
    requires FrameFits(ram, fp)
    ensures var ram' := Put(ram, fp + EAX, [v]);
            Load(ram', fp) == Load(ram, fp).(eax := v) && forall a: nat :: a < |ram| && a != fp + EAX ==>
                ram'[a] == ram[a]
  {
    assert Put(ram, fp + EAX, [v]) == ram[fp + EAX := v];
  }

  // The processes once the running one has been answered v.
  ghost function Replied(ps: map<nat, Proc>, i: nat, v: nat): map<nat, Proc>
    requires i in ps
  {
    ps[i := Proc(ps[i].ctx.(eax := v), ps[i].pages)]
  }

  // Storing an answer in the frame gives the caller that answer and nothing else.
  lemma ReplyOk(k: Kernel, fp: nat, v: nat)
    requires KInv(k) && Interrupted(k, fp)
    ensures var r := Leave(k.(ram := Put(k.ram, fp + EAX, [v])), fp);
            r.Go? && KInv(r.k) && r.k.current == k.current && r.k.nextPid == k.nextPid && k.current in Procs(k)
            && Procs(r.k) == Replied(Procs(k), k.current, v)
  {
    assert Live(k.tasks, k.current);
    ReplyRam(k.ram, fp, v);
    var k1 := k.(ram := Put(k.ram, fp + EAX, [v]));
    StackWrite(k, k1.ram);
    assert CtxFits(k1, k1.tasks[k1.current], k.cpu.(eax := v)) by { assert Open(0); }
    Computes(k1, k.cpu.(eax := v));
  }

  ghost predicate ForkedProcs(k: Kernel, k': Kernel, pid: nat) {
    && k.current in Procs(k) && k.count <= |k.tasks| == MAX_TASKS
    && if pid == 0 then Procs(k') == Replied(Procs(k), k.current, 0)
       else && pid == k.nextPid && NewSlot(k) < MAX_TASKS && NewSlot(k) !in Procs(k)
            && Procs(k') == Replied(Procs(k), k.current, pid)
                              [NewSlot(k) := Proc(Procs(k)[k.current].ctx.(eax := 0), Procs(k)[k.current].pages)]
  }

  lemma RepliedBeside(ps: map<nat, Proc>, i: nat, j: nat, p: Proc, v: nat)
    requires i in ps && j !in ps
    ensures Replied(ps[j := p], i, v) == Replied(ps, i, v)[j := p]
  {
  }

  // The answer stored after a fork.
  lemma ForkReplied(k: Kernel, fp: nat, k1: Kernel, pid: nat)
    requires KInv(k) && ForkParts(k, fp, k1, pid)
    ensures var r := Leave(k1.(ram := Put(k1.ram, fp + EAX, [pid])), fp);
            r.Go? && KInv(r.k) && ForkedProcs(k, r.k, pid)
  {
    assert Live(k.tasks, k.current);
    ReplyOk(k1, fp, pid);
    if pid != 0 {
      var ps, slot := Procs(k), NewSlot(k);
      RepliedBeside(ps, k.current, slot, Proc(k.cpu.(eax := 0), ps[k.current].pages), pid);
    }
  }

  lemma ForkBodyOk(k: Kernel, fp: nat)
    requires KInv(k) && Interrupted(k, fp) && k.tasks[k.current].user
    ensures var r, f := ForkBody(k, fp), ForkUser(k, fp);
            && (r.Go? <==> f.Forked?) && !r.Halted?
            && (r.Go? ==> KInv(r.k) && ForkedProcs(k, r.k, f.pid))
  {
    var f := ForkUser(k, fp);
    if f.Forked? {
      ForkUserOk(k, fp);
      assert ForkParts(k, fp, f.k, f.pid) by { assert Open(0); }
      ForkReplied(k, fp, f.k, f.pid);
    }
  }

  // ------------------------------------------------------------------
  // When a fork succeeds
  // ------------------------------------------------------------------

  // Heap room for the child's frame, and then for its interrupt stack.
  predicate ChildRoom(h: Heap) { Alloc(h, 0x100).1 != 0 && Alloc(Alloc(h, 0x100).0, 0x2000).1 != 0 }

  // A dead slot, two frames for tables within the kernel's reach, and heap room.
  ghost predicate CanFork(k: Kernel)
    requires |k.tasks| == MAX_TASKS
  {
    && (exists i: nat :: i < 16 && !k.tasks[i].ready)
    && FrameAccounting.TwoLowFrames(k.vm.ft) && ChildRoom(k.heap)
  }

  lemma SlotIff(k: Kernel)
    requires KInv(k)
    ensures NewSlot(k) < MAX_TASKS <==> exists i: nat :: i < MAX_TASKS && !k.tasks[i].ready
  {
    FullIff(k);
    NewSlotFree(k);
    if i: nat :| i < MAX_TASKS && !k.tasks[i].ready { assert !Live(k.tasks, i); }
  }

  lemma ForkSpaceIff(vm: Paging.Vm, spaces: set<nat>, c: nat)
    requires VmOk(vm, spaces) && c in spaces
    ensures ForkOf(vm, c).Done? && ForkOf(vm, c).ret != 0 <==> FrameAccounting.TwoLowFrames(vm.ft)
  {
    assert Peek(0);
    FrameAccounting.ForkSucceedsIff(vm, spaces, c);
  }

  // task_fork_user gives a pid exactly when it can; the child's slot has that pid.
  lemma ForkPid(k: Kernel, fp: nat)
    requires KInv(k) && k.tasks[k.current].user && ForkUser(k, fp).Forked?
    ensures var f := ForkUser(k, fp);
            && (f.pid != 0 <==> CanFork(k))
            && (f.pid != 0 ==> NewSlot(k) < MAX_TASKS && f.k.tasks[NewSlot(k)].pid == f.pid == k.nextPid)
  {
    SlotIff(k);
    CurrentSpace(k);
    ForkSpaceIff(k.vm, SpacesOf(k.tasks), k.tasks[k.current].cr3);
    assert k.nextPid > 0 by { assert Open(0); }
  }

  // Fork: the parent goes on with the child's pid in eax, the child has the parent's
  // registers but eax = 0 and pages that read the same, and nobody else changes. When the
  // fork fails the parent reads 0 and nothing else has happened to any process. It fails
  // exactly when there is no slot, no frame within reach, or no heap room.
  lemma ForkOk(k: Kernel)
    requires KInv(k) && k.tasks[k.current].user
    ensures var r, f := ForkBody(Enter(k, SYSCALL), FramePtr(k)), ForkUser(Enter(k, SYSCALL), FramePtr(k));
            && (r.Go? <==> f.Forked?) && !r.Halted?
            && (r.Go? ==> KInv(r.k) && ForkedProcs(k, r.k, f.pid) && (f.pid != 0 <==> CanFork(k)))
            && (r.Go? && f.pid != 0 ==> r.k.tasks[NewSlot(k)].pid == f.pid)
  {
    EnterOk(k, SYSCALL);
    var k1, fp := Enter(k, SYSCALL), FramePtr(k);
    ForkBodyOk(k1, fp);
    if ForkUser(k1, fp).Forked? { ForkPid(k1, fp); }
  }
}
