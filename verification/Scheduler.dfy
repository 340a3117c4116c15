// The scheduler as it runs: the table and the stacks are updated in place. Every method
// does what the function of the same name in Tasks says.

module Schedulers {
  import opened Tasks
  import opened SpaceCalls
  import opened ElfImages
  import FatVolume
  import opened TaskFrames
  import opened Paging
  import opened TaskInv
  import opened TaskSwitch
  import opened TaskLife
  import TaskFork
  import TaskRuns
  import HeapBlocks

  // What became of a call that gives up the processor.
  datatype Outcome = Resumed | Stopped | Lost

  datatype LoadOutcome = Fine | Refused | WentAstray

  function OutcomeOf(o: LoadOutcome, vm: Vm): Loading {
    match o
    case Fine => Loaded(vm)
    case Refused => Rejected(vm)
    case WentAstray => Stray
  }

  class Scheduler {
    const tasks: array<Task>
    const ram: array<nat>
    var count: nat
    var current: nat
    var nextPid: nat
    var zombie: nat
    var esp0: nat
    var vm: Vm
    var heap: Heap
    var cpu: Ctx
    const bootLo: nat
    const bootHi: nat

    // The state as a value.
    ghost function State(): Kernel
      reads this, tasks, ram
    {
      Kernel(tasks[..], count, current, nextPid, zombie, esp0, vm, heap, ram[..], cpu, bootLo, bootHi)
    }

    ghost predicate Valid()
      reads this
    {
      tasks.Length == MAX_TASKS && count <= MAX_TASKS && current < MAX_TASKS
    }

    // sched_init, with memory, address spaces and the heap as boot leaves them.
    constructor (memory: array<nat>, vm: Vm, heap: Heap, cpu: Ctx, bootLo: nat, bootHi: nat)
      ensures Valid() && fresh(tasks) && ram == memory
      ensures State() == Kernel(seq(MAX_TASKS, _ => EmptySlot), 0, 0, 1, 0, 0, vm, heap, memory[..], cpu, bootLo,
              bootHi)
    {
      tasks := new Task[MAX_TASKS](_ => EmptySlot);
      ram := memory;
      count, current, nextPid, zombie, esp0 := 0, 0, 1, 0, 0;
      this.vm, this.heap, this.cpu, this.bootLo, this.bootHi := vm, heap, cpu, bootLo, bootHi;
      new;
      assert tasks[..] == seq(MAX_TASKS, _ => EmptySlot);
    }

    // ----------------------------------------------------------------
    // Memory
    // ----------------------------------------------------------------

    method PutWords(fp: nat, words: seq<nat>)
      modifies ram
      ensures ram[..] == Put(old(ram[..]), fp, words)
    {
      var i: nat := 0;
      while i < |words| && fp + 4 * i < ram.Length
        invariant i <= |words|
        invariant Put(ram[..], fp + 4 * i, words[i..]) == Put(old(ram[..]), fp, words)
      {
        assert words[i..][1..] == words[i + 1..];
        ghost var was := ram[..];
        ram[fp + 4 * i] := words[i];
        assert ram[..] == was[fp + 4 * i := words[i]];
        i := i + 1;
      }
    }

    // memcpy
    method CopyWords(to: nat, from: nat, n: nat)
      modifies ram
      ensures ram[..] == Copy(old(ram[..]), to, from, n)
    {
      var i: nat := 0;
      while i < n
        invariant i <= n
        invariant ram[..] == Copy(old(ram[..]), to, from, i)
      {
        ghost var was := ram[..];
        if to + 4 * i < ram.Length && from + 4 * i < ram.Length {
          ram[to + 4 * i] := ram[from + 4 * i];
          assert ram[..] == was[to + 4 * i := was[from + 4 * i]];
        }
        i := i + 1;
      }
    }

    // memset with 0xCC
    method FillWords(lo: nat, n: nat)
      modifies ram
      ensures ram[..] == Fill(old(ram[..]), lo, n)
    {
      var i: nat := 0;
      while i < n
        invariant i <= n
        invariant ram[..] == Fill(old(ram[..]), lo, i)
      {
        ghost var was := ram[..];
        if lo + 4 * i < ram.Length {
          ram[lo + 4 * i] := 0xCCCC_CCCC;
          assert ram[..] == was[lo + 4 * i := 0xCCCC_CCCC];
        }
        i := i + 1;
      }
    }

    // Popping the frame at fp.
    method Resume(fp: nat)
      modifies this`cpu
      ensures Go(State()) == Leave(old(State()), fp)
    {
      cpu := Load(ram[..], fp);
    }

    // ----------------------------------------------------------------
    // Switching
    // ----------------------------------------------------------------

    method SwitchToTask(fp: nat, next: nat)
      requires Valid()
      modifies this, tasks
      ensures Valid() && Go(State()) == SwitchTo(old(State()), fp, next)
    {
      if next >= MAX_TASKS || !tasks[next].ready {
        Resume(fp);
        return;
      }
      if tasks[current].user || tasks[next].user {
        vm := LoadOf(vm, if tasks[next].user then tasks[next].cr3 else KERNEL_PD);
      }
      tasks[current] := tasks[current].(esp := fp);
      if tasks[next].irqTop != 0 { esp0 := tasks[next].irqTop; }
      current := next;
      Resume(tasks[next].esp);
    }

    // sched_tick, with the interrupt's frame at fp.
    method Tick(fp: nat)
      requires Valid()
      modifies this, tasks
      ensures Valid() && Go(State()) == TickBody(old(State()), fp)
    {
      if count < 2 || current >= count {
        Resume(fp);
        return;
      }
      if tasks[current].slice > 0 {
        tasks[current] := tasks[current].(slice := tasks[current].slice - 1);
        Resume(fp);
        return;
      }
      var i: nat := 1;
      while i <= count
        invariant 1 <= i <= count + 1
        invariant NextReady(tasks[..], count, current, 1, count) == NextReady(tasks[..], count, current, i, count)
      {
        var next := (current + i) % count;
        if tasks[next].ready {
          tasks[current] := tasks[current].(esp := fp, slice := SLICE);
          tasks[next] := tasks[next].(slice := SLICE);
          SwitchToTask(fp, next);
          return;
        }
        i := i + 1;
      }
      Resume(fp);
    }

    // ----------------------------------------------------------------
    // Exit
    // ----------------------------------------------------------------

    method ReapZombies()
      modifies this`vm, this`zombie
      ensures State() == Reap(old(State()))
    {
      if zombie != 0 {
        vm := DestroyOf(vm, zombie);
        zombie := 0;
      }
    }

    method AdoptSlot(n: nat)
      requires Valid() && n < MAX_TASKS
      modifies this, tasks
      ensures Valid() && Go(State()) == ExitTo(old(State()), n)
    {
      tasks[n] := tasks[n].(slice := SLICE);
      vm := LoadOf(vm, if tasks[n].user then tasks[n].cr3 else KERNEL_PD);
      if tasks[n].irqTop != 0 { esp0 := tasks[n].irqTop; }
      ReapZombies();
      current := n;
      Resume(tasks[n].esp);
    }

    // The next ready slot other than me, MAX_TASKS if there is none.
    method PickOther(me: nat) returns (n: nat)
      requires Valid() && count > 0
      ensures n == if count > 1 then NextReady(tasks[..], count, me, 1, count - 1) else MAX_TASKS
    {
      var i: nat := 1;
      while i < count
        invariant 1 <= i <= count
        invariant NextReady(tasks[..], count, me, 1, count - 1) == NextReady(tasks[..], count, me, i, count - 1)
      {
        n := (me + i) % count;
        if tasks[n].ready { return; }
        i := i + 1;
      }
      n := MAX_TASKS;
    }

    // The departing slot is dead and its space parked.
    method Park()
      requires Valid()
      modifies this`zombie, tasks
      ensures var k, me := old(State()), old(tasks[current]);
              var park := me.user && me.cr3 != 0;
              State() == SetSlot(k, k.current, me.(ready := false, cr3 := if park then 0 else me.cr3))
                         .(zombie := if park then me.cr3 else k.zombie)
    {
      var me := current;
      if tasks[me].user && tasks[me].cr3 != 0 {
        zombie := tasks[me].cr3;
        tasks[me] := tasks[me].(cr3 := 0);
      }
      tasks[me] := tasks[me].(ready := false);
    }

    method ExitCurrent() returns (o: Outcome)
      requires Valid() && count > 0
      modifies this, tasks
      ensures Valid() && o != Lost
      ensures o == Resumed ==> Go(State()) == ExitBody(old(State()))
      ensures o == Stopped <==> ExitBody(old(State())) == Halted
    {
      Park();
      var n := PickOther(current);
      if n == MAX_TASKS { return Stopped; }
      AdoptSlot(n);
      return Resumed;
    }

    // ----------------------------------------------------------------
    // Creation
    // ----------------------------------------------------------------

    method TakeSlot() returns (slot: nat)
      requires Valid()
      modifies this`count
      ensures Valid() && (slot, count) == AllocSlot(tasks[..], old(count))
    {
      var i: nat := 0;
      while i < count
        invariant i <= count
        invariant DeadSlot(tasks[..], count, 0) == DeadSlot(tasks[..], count, i)
      {
        if !tasks[i].ready { return i; }
        i := i + 1;
      }
      if count < MAX_TASKS {
        slot := count;
        count := count + 1;
      } else {
        slot := MAX_TASKS;
      }
    }

    method AdoptCurrent()
      requires Valid() && count < MAX_TASKS
      modifies this, tasks
      ensures Valid() && State() == Adopt(old(State()))
    {
      tasks[count] := Task(nextPid, true, false, 0, 0, tasks[count].irqTop, 0, SLICE);
      nextPid := nextPid + 1;
      current := count;
      count := count + 1;
    }

    method Kmalloc(size: nat) returns (p: nat)
      requires size < 0x1_0000
      modifies this`heap
      ensures (heap, p) == Alloc(old(heap), size) && (p == 0 ==> heap == old(heap))
    {
      var r := Alloc(heap, size);
      heap, p := r.0, r.1;
    }

    // task_create
    method Create(fn: nat) returns (pid: nat)
      requires Valid()
      modifies this, tasks, ram
      ensures Valid() && (State(), pid) == CreateThread(old(State()), fn)
    {
      var slot := TakeSlot();
      if slot >= MAX_TASKS { return 0; }
      nextPid := nextPid + 1;
      pid := FillThread(slot, EmptySlot.(pid := nextPid - 1, ready := true), fn);
    }

    // The slot is written once its contents are settled.
    method FillThread(slot: nat, t: Task, fn: nat) returns (pid: nat)
      requires Valid() && slot < MAX_TASKS
      modifies this`heap, tasks, ram
      ensures Valid() && (State(), pid) == ThreadInto(old(State()), slot, t, fn)
    {
      var stack := Kmalloc(TASK_STACK);
      if stack == 0 {
        tasks[slot] := t.(ready := false);
        return 0;
      }
      var irq := Kmalloc(IRQ_STACK);
      if irq == 0 {
        tasks[slot] := t.(ready := false, stackBottom := stack);
        return 0;
      }
      FillWords(stack, TASK_STACK / 4);
      PutWords(stack + TASK_STACK - KERNEL_FRAME, Words(ThreadStart(fn, stack + TASK_STACK), 0, 0, 0));
      tasks[slot] := t.(stackBottom := stack, irqTop := irq + IRQ_STACK, slice := SLICE,
          esp := stack + TASK_STACK - KERNEL_FRAME);
      return t.pid;
    }

    // task_create_user
    method CreateUserTask(entry: nat, cr3: nat) returns (pid: nat)
      requires Valid()
      modifies this, tasks, ram
      ensures Valid() && (State(), pid) == CreateUser(old(State()), entry, cr3)
    {
      var slot := TakeSlot();
      if slot >= MAX_TASKS { return 0; }
      nextPid := nextPid + 1;
      pid := FillUser(slot, EmptySlot.(pid := nextPid - 1, ready := true, user := true), entry, cr3);
    }

    method FillUser(slot: nat, t: Task, entry: nat, cr3: nat) returns (pid: nat)
      requires Valid() && slot < MAX_TASKS
      modifies this`heap, tasks, ram
      ensures Valid() && (State(), pid) == UserInto(old(State()), slot, t, entry, cr3)
    {
      var irq := Kmalloc(IRQ_STACK);
      if irq == 0 {
        tasks[slot] := t.(ready := false);
        return 0;
      }
      var t1 := t.(irqTop := irq + IRQ_STACK, cr3 := cr3, slice := SLICE);
      var area := Kmalloc(USER_AREA);
      if area != 0 {
        t1 := t1.(esp := area + USER_AREA - USER_FRAME);
        PutWords(t1.esp, Words(UserStart(entry), 0, 0, 0));
      }
      tasks[slot] := t1;
      return t.pid;
    }

    // task_fork_user; o is Lost when the kernel would touch unmapped memory.
    method ForkUserTask(fp: nat) returns (o: Outcome, pid: nat)
      requires Valid()
      modifies this, tasks, ram
      ensures Valid() && o != Stopped && (o == Lost <==> ForkUser(old(State()), fp) == ForkAstray)
      ensures o == Resumed ==> Forked(State(), pid) == ForkUser(old(State()), fp)
    {
      var slot := TakeSlot();
      if slot >= MAX_TASKS { return Resumed, 0; }
      var s := ForkOf(vm, tasks[current].cr3);
      if s.Wild? { return Lost, 0; }
      vm := s.vm;
      if s.ret == 0 { return Resumed, 0; }
      var copy := Kmalloc(FRAME_BYTES);
      if copy == 0 {
        vm := DestroyOf(vm, s.ret);
        return Resumed, 0;
      }
      o, pid := FillChild(slot, s.ret, copy, fp);
    }

    method FillChild(slot: nat, c: nat, copy: nat, fp: nat) returns (o: Outcome, pid: nat)
      requires Valid() && slot < MAX_TASKS
      modifies this`heap, this`vm, this`nextPid, tasks, ram
      ensures Valid() && o != Stopped && (o == Lost <==> ForkInto(old(State()), slot, c, copy, fp) == ForkAstray)
      ensures o == Resumed ==> Forked(State(), pid) == ForkInto(old(State()), slot, c, copy, fp)
    {
      if fp + FRAME_BYTES > HeapBlocks.HEAP_END { return Lost, 0; }
      CopyWords(copy, fp, FRAME_BYTES / 4);
      var t := EmptySlot.(pid := nextPid, ready := true, user := true);
      nextPid := nextPid + 1;
      var irq := Kmalloc(IRQ_STACK);
      if irq == 0 {
        tasks[slot] := t.(ready := false);
        heap, vm := FreeOf(heap, copy), DestroyOf(vm, c);
        return Resumed, 0;
      }
      tasks[slot] := t.(irqTop := irq + IRQ_STACK, cr3 := c, slice := SLICE, esp := copy);
      PutWords(copy + EAX, [0]);
      return Resumed, t.pid;
    }

    // The fork system call.
    method ForkCall(fp: nat) returns (o: Outcome)
      requires Valid()
      modifies this, tasks, ram
      ensures Valid() && o != Stopped && (o == Lost <==> ForkBody(old(State()), fp) == Astray)
      ensures o == Resumed ==> Go(State()) == ForkBody(old(State()), fp)
    {
      if !tasks[current].user {
        PutWords(fp + EAX, [ERROR]);
      } else {
        var pid;
        o, pid := ForkUserTask(fp);
        if o == Lost { return; }
        PutWords(fp + EAX, [pid]);
      }
      Resume(fp);
      return Resumed;
    }

    // The sleep system call.
    method SleepCall(fp: nat)
      requires Valid()
      modifies this, tasks, ram
      ensures Valid() && Go(State()) == SleepBody(old(State()), fp)
    {
      var want := Load(ram[..], fp).ebx;
      if want > 1000 { want := 1000; }
      tasks[current] := tasks[current].(slice := if want != 0 then want else 1);
      PutWords(fp + EAX, [0]);
      Resume(fp);
    }

    // ----------------------------------------------------------------
    // Programs
    // ----------------------------------------------------------------

    // memcpy to user memory, through the page tables CR3 points at.
    method PutUserBytes(a: nat, bytes: Bytes) returns (ok: bool)
      modifies this`vm
      ensures PutBytes(old(vm), a, bytes) == if ok then Filled(vm) else NoPage
    {
      ghost var vm0 := vm;
      var i: nat := 0;
      CopyStarts(vm, a, bytes);
      while i < |bytes|
        invariant i <= |bytes| && Copying(vm0, a, bytes, vm, i)
      {
        CopyStep(vm0, a, bytes, vm, i);
        if !CanStore(vm, a + i) { return false; }
        vm := StoreByte(vm, a + i, bytes[i]);
        i := i + 1;
      }
      CopyEnds(vm0, a, bytes, vm);
      return true;
    }

    method FillOne(a: nat, file: Bytes, n: nat) returns (o: LoadOutcome)
      modifies this`vm
      ensures FillSegment(old(vm), a, file, n) == OutcomeOf(o, vm)
    {
      var ok := PutUserBytes(a, file);
      if !ok { return WentAstray; }
      if n > |file| {
        ok := PutUserBytes(a + |file|, FatVolume.Zeros(n - |file|));
        if !ok { return WentAstray; }
      }
      return Fine;
    }

    method LoadOne(c: nat, img: Bytes, s: Segment) returns (o: LoadOutcome)
      modifies this`vm
      ensures LoadSegment(old(vm), c, img, s) == OutcomeOf(o, vm)
    {
      if s.vaddr < TEXT_BASE || (s.vaddr + s.memsz) % U32 > USER_STACK_TOP ||
          (s.offset + s.filesz) % U32 > |img| { return Refused; }
      var r := MapOf(vm, c, s.vaddr, s.memsz);
      vm := r.0;
      if !r.1 { return Refused; }
      if s.offset + s.filesz > |img| { return WentAstray; }
      o := FillOne(s.vaddr, img[s.offset..s.offset + s.filesz], s.memsz);
    }

    // user_load_elf
    method LoadElfImage(c: nat, img: Bytes) returns (o: LoadOutcome)
      modifies this`vm
      ensures LoadElf(old(vm), c, img) == OutcomeOf(o, vm)
    {
      if !HeaderOk(img) { return Refused; }
      var i: nat := 0;
      while i < Count(img)
        invariant i <= Count(img) && LoadSegments(vm, c, img, i) == LoadSegments(old(vm), c, img, 0)
      {
        var at := TableAt(img) + ENTRY * i;
        if at + ENTRY > |img| { return WentAstray; }
        var s := SegmentAt(img, at);
        if s.kind == LOAD {
          o := LoadOne(c, img, s);
          if o != Fine { return; }
        }
        i := i + 1;
      }
      return Fine;
    }

    // user_spawn
    method SpawnProgram(img: Bytes) returns (o: Outcome, pid: nat)
      requires Valid()
      modifies this, tasks, ram
      ensures Valid() && o != Stopped && (o == Lost <==> Spawn(old(State()), img) == SpawnAstray)
      ensures o == Resumed ==> Spawned(State(), pid) == Spawn(old(State()), img)
    {
      var s := CreateOf(vm);
      if s.Wild? { return Lost, 0; }
      var back := vm.cr3;
      vm := s.vm;
      if s.ret == 0 { return Resumed, 0; }
      vm := LoadOf(vm, s.ret);
      var l := LoadElfImage(s.ret, img);
      if l == WentAstray { return Lost, 0; }
      var ok := l == Fine && EntryPoint(img) != 0;
      if ok {
        var r := MapOf(vm, s.ret, USER_STACK_TOP - 0x2000, 0x2000);
        vm, ok := r.0, r.1;
      }
      if !ok {
        vm := DestroyOf(LoadOf(vm, back), s.ret);
        return Resumed, 0;
      }
      pid := CreateUserTask(EntryPoint(img), s.ret);
      vm := LoadOf(vm, back);
      if pid == 0 { vm := DestroyOf(vm, s.ret); }
      return Resumed, pid;
    }

    // ----------------------------------------------------------------
    // Interrupts, from the running task and back to a task
    // ----------------------------------------------------------------

    // The processor and the stub push the frame.
    method Push(vec: nat) returns (fp: nat)
      modifies ram
      ensures fp == FramePtr(old(State())) && State() == Enter(old(State()), vec)
    {
      var top := FrameTop(cpu, esp0);
      fp := if top >= FrameSize(cpu.cs) then top - FrameSize(cpu.cs) else 0;
      PutWords(fp, Words(cpu, vec, 0, 0));
    }

    // A timer interrupt changes no process, whoever runs afterwards.
    method TimerInterrupt()
      requires Valid() && KInv(State())
      modifies this, tasks, ram
      ensures Valid() && KInv(State()) && Procs(State()) == old(Procs(State()))
    {
      TickOk(State());
      var fp := Push(IRQ0);
      Tick(fp);
    }

    method ForkInterrupt() returns (o: Outcome)
      requires Valid() && KInv(State())
      modifies this, tasks, ram
      ensures Valid() && o != Stopped
      ensures o == Resumed ==>
              KInv(State())
              && TaskRuns.IdealStep(old(Procs(State())), old(current), TaskRuns.Fork, old(TaskFork.CanFork(State())),
                                    Procs(State()))
    {
      ghost var k := State();
      var fp := Push(SYSCALL);
      o := ForkCall(fp);
      if o == Resumed { TaskRuns.ForkStep(k); }
    }

    // Exit stops the machine when the last process is gone, and otherwise removes one process.
    method ExitInterrupt() returns (o: Outcome)
      requires Valid() && KInv(State())
      modifies this, tasks, ram
      ensures Valid() && o != Lost
      ensures o == Stopped <==> old(Procs(State()).Keys) == {old(current)}
      ensures o == Resumed ==> KInv(State()) && Procs(State()) == old(Procs(State())) - {old(current)}
    {
      ghost var k := State();
      ExitOk(k);
      TaskRuns.HaltedIff(k, TaskRuns.Exit);
      var fp := Push(SYSCALL);
      o := ExitCurrent();
    }
  }
}
