// Whole runs: the kernel's processes behave like processes with registers and pages of
// their own, whatever the scheduler does in between.

module TaskRuns {
  import opened Tasks
  import opened ElfImages
  import opened ElfLoading
  import opened TaskFrames
  import opened TaskStacks
  import opened TaskSpaces
  import opened TaskInv
  import opened TaskSwitch
  import opened TaskLife
  import opened TaskFork
  import opened TaskSpawn
  import HeapBlocks
  import Paging
  import CowRuns
  import CowRefinement
  import HeapRuns
  import FrameAccounting
  import Frames

  // What can happen while a task runs. An access that faults for good leaves the process
  // running here; the kernel kills it, which is an Exit that follows.
  datatype Event =
    | Compute(c: Ctx)                       // an instruction changes registers
    | Scribble(ram: Ram)                    // a thread writes its own stack
    | Access(a: CowRuns.Event)              // a process touches its memory, or the TLB changes
    | Tick
    | Fork
    | Exit
    | Sleep
    | NewThread(fn: nat)
    | NewProgram(img: Bytes)

  ghost predicate Enabled(k: Kernel, ev: Event)
    requires KInv(k)
  {
    var t := k.tasks[k.current];
    match ev
    case Compute(c) => CtxFits(k, t, c)
    case Scribble(ram) => !t.user && OwnStackOnly(k, ram)
    case Access(a) => t.user && AccessOk(k.vm, SpacesOf(k.tasks), a)
    case NewProgram(img) => IrqRoom(k.heap) ==> AreaRoom(k.heap)
    case _ => true
  }

  ghost function TaskStep(k: Kernel, ev: Event): Result
    requires KInv(k) && Enabled(k, ev)
  {
    match ev
    case Compute(c) => Go(k.(cpu := c))
    case Scribble(ram) => Go(k.(ram := ram))
    case Access(a) =>
      var r := CowRuns.Step(CowRuns.State(k.vm, SpacesOf(k.tasks)), a);
      if r.Next? then Go(k.(vm := r.st.vm)) else Astray
    case Tick => TickBody(Enter(k, IRQ0), FramePtr(k))
    case Fork => ForkBody(Enter(k, SYSCALL), FramePtr(k))
    case Exit => ExitBody(Enter(k, SYSCALL))
    case Sleep => SleepBody(Enter(k, SYSCALL), FramePtr(k))
    case NewThread(fn) => Go(CreateThread(k, fn).0)
    case NewProgram(img) =>
      var r := Spawn(k, img);
      if r.Spawned? then Go(r.k) else Astray
  }

  // ------------------------------------------------------------------
  // The ideal machine: processes that own their registers and pages
  // ------------------------------------------------------------------

  // What event ev needs in order to succeed is there: a slot, frames and heap space.
  ghost predicate Room(k: Kernel, ev: Event)
    requires KInv(k)
  {
    match ev
    case Access(_) => Frames.FreeFrames(k.vm.ft) > 0
    case Fork => CanFork(k)
    case NewThread(_) => (exists i: nat :: i < 16 && !k.tasks[i].ready) && ThreadRoom(k.heap)
    case NewProgram(img) => CanSpawn(k, img)
    case _ => true
  }

  // A step of process me. With room a fork or a creation succeeds, and without it fails.
  ghost predicate IdealStep(ps: map<nat, Proc>, me: nat, ev: Event, room: bool, ps': map<nat, Proc>) {
    me in ps &&
    match ev
    case Compute(c) => ps' == ps[me := ps[me].(ctx := c)]
    case Access(a) => me in ps' && ps' == ps[me := ps[me].(pages := ps'[me].pages)]
                      && exists out :: Accessed(ps[me].pages, a, room, out, ps'[me].pages)
    case Scribble(_) => ps' == ps
    case Tick => ps' == ps
    case Sleep => ps' == Replied(ps, me, 0)
    case Exit => ps' == ps - {me}
    case Fork =>
      if ps[me].ctx.cs % 4 != 3 then ps' == Replied(ps, me, 0xFFFF_FFFF)
      else if !room then ps' == Replied(ps, me, 0)
      else exists child: nat, pid: nat :: ForkAdds(ps, me, child, pid, ps')
    case NewThread(fn) =>
      if !room then ps' == ps else exists child: nat, p :: ThreadStarts(p, fn) && Adds(ps, child, p, ps')
    case NewProgram(img) =>
      && (ImageOk(img) ==> (room <==> ps' != ps))
      && (ps' == ps || exists child: nat, p :: Started(p, img) && Adds(ps, child, p, ps'))
  }

  ghost predicate Adds(ps: map<nat, Proc>, child: nat, p: Proc, ps': map<nat, Proc>) {
    child !in ps && ps' == ps[child := p]
  }

  // A thread about to run fn on some stack.
  ghost predicate ThreadStarts(p: Proc, fn: nat) {
    p.pages == map[] && exists top: nat :: ThreadBegins(p.ctx, fn, top)
  }

  // The child is the parent with eax = 0.
  ghost predicate ForkAdds(ps: map<nat, Proc>, me: nat, child: nat, pid: nat, ps': map<nat, Proc>)
    requires me in ps
  {
    pid != 0 && child !in ps && ps' == Replied(ps, me, pid)[child := Proc(ps[me].ctx.(eax := 0), ps[me].pages)]
  }

  // ------------------------------------------------------------------
  // One step
  // ------------------------------------------------------------------

  // Everything outside address spaces as it was.
  lemma VmStep(k: Kernel, vm: Paging.Vm)
    requires KInv(k) && k.tasks[k.current].user && vm.cr3 == k.vm.cr3 && VmOk(vm, SpacesOf(k.tasks))
    ensures KInv(k.(vm := vm)) && k.vm.cr3 == k.tasks[k.current].cr3 && k.vm.cr3 in SpacesOf(k.tasks)
  {
    assert Open(0);
    var k' := k.(vm := vm);
    assert LiveUser(k.tasks, k.current);
    SameAreas(k, k');
    forall i: nat | Live(k.tasks, i) && i != k.current ensures FrameOk(k', i) { assert FrameOk(k, i); }
  }

  lemma VmStepProcs(k: Kernel, vm: Paging.Vm, me: nat)
    requires KInv(k) && me == k.current && k.tasks[me].user && k.vm.cr3 == k.tasks[me].cr3
    requires SamePagesOf(k.vm, vm, SpacesOf(k.tasks) - {k.vm.cr3})
    ensures me in Procs(k) && Procs(k.(vm := vm)) == Procs(k)[me := Procs(k)[me].(pages := PagesOf(vm, k.vm.cr3))]
  {
    var k' := k.(vm := vm);
    assert LiveUser(k.tasks, me);
    forall i: nat | Live(k.tasks, i) && i != me ensures ProcOf(k', i) == ProcOf(k, i) {
      assert OwnSpaces(k.tasks) by { assert Open(0); }
      if k.tasks[i].user { assert LiveUser(k.tasks, i) && k.tasks[i].cr3 in SpacesOf(k.tasks); }
    }
    assert Procs(k') == Procs(k)[me := Procs(k)[me].(pages := PagesOf(vm, k.vm.cr3))];
  }

  lemma AccessStep(k: Kernel, a: CowRuns.Event)
    requires KInv(k) && Enabled(k, Access(a)) && TaskStep(k, Access(a)).Go?
    ensures var k' := TaskStep(k, Access(a)).k;
            KInv(k') && IdealStep(Procs(k), k.current, Access(a), Room(k, Access(a)), Procs(k'))
  {
    CurrentSpace(k);
    assert k.vm.cr3 in SpacesOf(k.tasks);
    AccessKeeps(k.vm, SpacesOf(k.tasks), a);
    var vm := TaskStep(k, Access(a)).k.vm;
    VmStep(k, vm);
    VmStepProcs(k, vm, k.current);
  }

  lemma SleepOk(k: Kernel)
    requires KInv(k)
    ensures var r := SleepBody(Enter(k, SYSCALL), FramePtr(k));
            r.Go? && KInv(r.k) && k.current in Procs(k) && Procs(r.k) == Replied(Procs(k), k.current, 0)
  {
    EnterOk(k, SYSCALL);
    SleepBodyOk(Enter(k, SYSCALL), FramePtr(k));
  }

  lemma SleepBodyOk(k: Kernel, fp: nat)
    requires KInv(k) && Interrupted(k, fp)
    ensures var r := SleepBody(k, fp);
            r.Go? && KInv(r.k) && k.current in Procs(k) && Procs(r.k) == Replied(Procs(k), k.current, 0)
  {
    var ebx := Load(k.ram, fp).ebx;
    var want := if ebx > 1000 then 1000 else ebx;
    var n := if want != 0 then want else 1;
    SliceSet(k, fp, n);
    ReplyOk(SetSlot(k, k.current, k.tasks[k.current].(slice := n)), fp, 0);
  }

  // Changing the running task's slice changes no process.
  lemma SliceSet(k: Kernel, fp: nat, n: nat)
    requires KInv(k) && Interrupted(k, fp)
    ensures var k1 := SetSlot(k, k.current, k.tasks[k.current].(slice := n));
            KInv(k1) && Interrupted(k1, fp) && Procs(k1) == Procs(k) && k1.current == k.current && k1.ram == k.ram
  {
    Refresh(k, k.tasks[k.current := k.tasks[k.current].(slice := n)]);
  }

  lemma ForkStep(k: Kernel)
    requires KInv(k) && TaskStep(k, Fork).Go?
    ensures var k' := TaskStep(k, Fork).k; KInv(k') && IdealStep(Procs(k), k.current, Fork, Room(k, Fork), Procs(k'))
  {
    if k.tasks[k.current].user { UserForkStep(k); } else { ThreadForkStep(k); }
  }

  // The running process is in ring 3 exactly when its slot is a user task's.
  lemma RingOf(k: Kernel)
    requires KInv(k)
    ensures k.current in Procs(k) && Procs(k)[k.current].ctx == k.cpu
    ensures k.cpu.cs % 4 == 3 <==> k.tasks[k.current].user
  {
    assert Live(k.tasks, k.current);
    assert Open(0);
  }

  lemma UserForkStep(k: Kernel)
    requires KInv(k) && k.tasks[k.current].user && ForkBody(Enter(k, SYSCALL), FramePtr(k)).Go?
    ensures var k' := ForkBody(Enter(k, SYSCALL), FramePtr(k)).k;
            KInv(k') && IdealStep(Procs(k), k.current, Fork, CanFork(k), Procs(k'))
  {
    ForkOk(k);
    ForkIsIdeal(k, ForkBody(Enter(k, SYSCALL), FramePtr(k)).k, ForkUser(Enter(k, SYSCALL), FramePtr(k)).pid);
  }

  // A thread's fork is answered with the error value.
  lemma ThreadForkStep(k: Kernel)
    requires KInv(k) && !k.tasks[k.current].user && ForkBody(Enter(k, SYSCALL), FramePtr(k)).Go?
    ensures var k' := ForkBody(Enter(k, SYSCALL), FramePtr(k)).k;
            KInv(k') && IdealStep(Procs(k), k.current, Fork, CanFork(k), Procs(k'))
  {
    RingOf(k);
    EnterOk(k, SYSCALL);
    ReplyOk(Enter(k, SYSCALL), FramePtr(k), ERROR);
  }

  lemma ForkIsIdeal(k: Kernel, k': Kernel, pid: nat)
    requires KInv(k) && k.tasks[k.current].user && ForkedProcs(k, k', pid) && (pid != 0 <==> CanFork(k))
    ensures IdealStep(Procs(k), k.current, Fork, CanFork(k), Procs(k'))
  {
    RingOf(k);
    assert k.nextPid > 0 by { assert Open(0); }
    if pid != 0 { assert ForkAdds(Procs(k), k.current, NewSlot(k), pid, Procs(k')); }
  }

  lemma NewThreadStep(k: Kernel, fn: nat)
    requires KInv(k)
    ensures var k' := TaskStep(k, NewThread(fn)).k;
            KInv(k') && IdealStep(Procs(k), k.current, NewThread(fn), Room(k, NewThread(fn)), Procs(k'))
  {
    RingOf(k);
    SlotIff(k);
    CreateThreadOk(k, fn);
    var (k', pid) := CreateThread(k, fn);
    if pid != 0 {
      var slot := NewSlot(k);
      var ctx :| ThreadBegins(ctx, fn, k'.tasks[slot].stackBottom + 0x4000)
                 && Procs(k') == Procs(k)[slot := Proc(ctx, map[])];
      assert ThreadStarts(Proc(ctx, map[]), fn) && Adds(Procs(k), slot, Proc(ctx, map[]), Procs(k'));
    }
  }

  lemma NewProgramStep(k: Kernel, img: Bytes)
    requires KInv(k) && Enabled(k, NewProgram(img)) && TaskStep(k, NewProgram(img)).Go?
    ensures var k' := TaskStep(k, NewProgram(img)).k;
            KInv(k') && IdealStep(Procs(k), k.current, NewProgram(img), CanSpawn(k, img), Procs(k'))
  {
    RingOf(k);
    SpawnOk(k, img);
    var r := Spawn(k, img);
    if r.pid != 0 {
      var p :| Started(p, img) && Procs(r.k) == Procs(k)[NewSlot(k) := p];
      assert Adds(Procs(k), NewSlot(k), p, Procs(r.k)) && NewSlot(k) in Procs(r.k);
    }
  }

  // Every step of the kernel is a step of the ideal machine by the running process.
  lemma StepIsIdeal(k: Kernel, ev: Event)
    requires KInv(k) && Enabled(k, ev) && TaskStep(k, ev).Go?
    ensures var k' := TaskStep(k, ev).k; KInv(k') && IdealStep(Procs(k), k.current, ev, Room(k, ev), Procs(k'))
  {
    assert Live(k.tasks, k.current);
    match ev
    case Compute(c) => Computes(k, c);
    case Scribble(ram) => StackWrite(k, ram);
    case Access(a) => AccessStep(k, a);
    case Tick => TickOk(k);
    case Fork => ForkStep(k);
    case Exit => ExitOk(k);
    case Sleep => SleepOk(k);
    case NewThread(fn) => NewThreadStep(k, fn);
    case NewProgram(img) => NewProgramStep(k, img);
  }

  // The machine halts only when the last task exits.
  lemma HaltedIff(k: Kernel, ev: Event)
    requires KInv(k) && Enabled(k, ev)
    ensures TaskStep(k, ev).Halted? <==> ev.Exit? && Procs(k).Keys == {k.current}
  {
    assert Live(k.tasks, k.current);
    match ev
    case Exit =>
      ExitOk(k);
      assert Procs(k).Keys == {k.current} <==> forall i: nat :: Live(k.tasks, i) ==> i == k.current by {
        if Procs(k).Keys == {k.current} {
          forall i: nat | Live(k.tasks, i) ensures i == k.current { assert i in Procs(k).Keys; }
        }
      }
    case Tick => TickOk(k);
    case Fork => 
      EnterOk(k, SYSCALL);
      if k.tasks[k.current].user { ForkOk(k); }
    case Sleep => SleepOk(k);
    case _ =>
  }

  // ------------------------------------------------------------------
  // Runs
  // ------------------------------------------------------------------

  datatype Trace = Trace(states: seq<Kernel>, events: seq<Event>)

  // k' follows k by ev; unfolded where a proof mentions Follow.
  ghost predicate IsStep(k: Kernel, ev: Event, k': Kernel) {
    forall n: nat {:trigger Follow(n)} :: Follow(n) && KInv(k) ==> Enabled(k, ev) && TaskStep(k, ev) == Go(k')
  }

  ghost predicate Follow(n: nat) { true }

  lemma StepTaken(k: Kernel, ev: Event, k': Kernel)
    requires KInv(k) && IsStep(k, ev, k')
    ensures Enabled(k, ev) && TaskStep(k, ev) == Go(k')
  {
    assert Follow(0);
  }

  ghost predicate IsRun(t: Trace) {
    && |t.states| == |t.events| + 1 && KInv(t.states[0])
    && forall j :: 0 <= j < |t.events| ==> IsStep(t.states[j], t.events[j], t.states[j + 1])
  }

  // The invariant holds throughout.
  lemma {:induction false} RunKeepsInv(t: Trace, n: nat)
    requires IsRun(t) && n <= |t.events|
    ensures KInv(t.states[n])
  {
    if n > 0 {
      RunKeepsInv(t, n - 1);
      assert IsStep(t.states[n - 1], t.events[n - 1], t.states[n]);
      FollowsIdeally(t.states[n - 1], t.events[n - 1], t.states[n]);
    }
  }

  lemma FollowsIdeally(k: Kernel, ev: Event, k': Kernel)
    requires KInv(k) && IsStep(k, ev, k')
    ensures KInv(k') && IdealStep(Procs(k), k.current, ev, Room(k, ev), Procs(k'))
  {
    StepTaken(k, ev, k');
    StepIsIdeal(k, ev);
  }

  // Each step of a run is a step of the ideal machine.
  lemma RunIsIdeal(t: Trace, n: nat)
    requires IsRun(t) && n < |t.events|
    ensures KInv(t.states[n]) && KInv(t.states[n + 1])
    ensures IdealStep(Procs(t.states[n]), t.states[n].current, t.events[n], Room(t.states[n], t.events[n]),
                      Procs(t.states[n + 1]))
  {
    RunKeepsInv(t, n);
    assert IsStep(t.states[n], t.events[n], t.states[n + 1]);
    FollowsIdeally(t.states[n], t.events[n], t.states[n + 1]);
  }

  // A step of the ideal machine touches only the process that makes it.
  lemma IdealLocal(ps: map<nat, Proc>, me: nat, ev: Event, room: bool, ps': map<nat, Proc>, i: nat)
    requires IdealStep(ps, me, ev, room, ps') && i in ps && i != me
    ensures i in ps' && ps'[i] == ps[i]
  {
  }

  // Registers and pages of a process that does not run are safe from everything the others
  // do: computing, storing, forking, exiting, spawning.
  lemma {:induction false} UndisturbedWhileParked(t: Trace, a: nat, b: nat, i: nat)
    requires IsRun(t) && a <= b <= |t.events| && i in Procs(t.states[a])
    requires forall j :: a <= j < b ==> t.states[j].current != i
    ensures i in Procs(t.states[b]) && Procs(t.states[b])[i] == Procs(t.states[a])[i]
    decreases b
  {
    if a < b {
      UndisturbedWhileParked(t, a, b - 1, i);
      RunIsIdeal(t, b - 1);
      IdealLocal(Procs(t.states[b - 1]), t.states[b - 1].current, t.events[b - 1],
                 Room(t.states[b - 1], t.events[b - 1]), Procs(t.states[b]), i);
    }
  }

  // A preempted task resumes with exactly the registers and pages it had.
  lemma ResumesWhereItWas(t: Trace, a: nat, b: nat)
    requires IsRun(t) && a < b <= |t.events| && t.events[a] == Tick && t.states[b].current == t.states[a].current
    requires forall j :: a < j < b ==> t.states[j].current != t.states[a].current
    ensures t.states[b].cpu == t.states[a].cpu
    ensures var i, ps, ps' := t.states[a].current, Procs(t.states[a]), Procs(t.states[b]);
            i in ps && i in ps' && ps'[i] == ps[i]
  {
    var i := t.states[a].current;
    RunIsIdeal(t, a);
    RunKeepsInv(t, b);
    UndisturbedWhileParked(t, a + 1, b, i);
    assert Live(t.states[b].tasks, i);
    assert Procs(t.states[a])[i].ctx == t.states[a].cpu;
    assert Procs(t.states[b])[i].ctx == t.states[b].cpu;
  }

  // ------------------------------------------------------------------
  // Boot
  // ------------------------------------------------------------------

  // After mm_init, kheap_init, paging_init and sched_init, on the boot stack.
  ghost predicate Booting(k: Kernel) {
    && |k.tasks| == MAX_TASKS && (forall i :: 0 <= i < MAX_TASKS ==> k.tasks[i] == EmptySlot)
    && k.count == 0 && k.nextPid == 1 && k.zombie == 0 && |k.ram| == RAM_SIZE && k.heap == HeapBlocks.InitialBlocks()
    && CowRefinement.Booted(CowRuns.State(k.vm, {}))
    && !Ring3(k.cpu.cs) && k.cpu.ss == 0 && k.bootLo + KERNEL_FRAME <= k.cpu.esp <= k.bootHi <= HeapBlocks.HEAP_START
  }

  // The kernel does start, so runs exist.
  lemma SomeBooting() returns (k: Kernel)
    ensures Booting(k)
  {
    var st := CowRefinement.SomeBooted();
    var cpu := Ctx(0, 0, 0, 0, 0, 0, 0, 0, 0, 0, 0, 0, 8, 0, 0x9_0000, 0);
    k := Kernel(seq(MAX_TASKS, i => EmptySlot), 0, 0, 1, 0, 0, st.vm, HeapBlocks.InitialBlocks(),
                seq(RAM_SIZE, i => 0), cpu, 0x8_0000, 0x9_0000);
  }

  // Adopting the boot thread establishes the invariant, with that one process.
  lemma BootOk(k: Kernel)
    requires Booting(k)
    ensures KInv(Adopt(k)) && Procs(Adopt(k)) == map[0 := Proc(k.cpu, map[])]
    ensures Adopt(k).tasks[Adopt(k).current].slice == 5
  {
    var k' := Adopt(k);
    forall i: nat | Live(k'.tasks, i) ensures i == 0 { }
    assert SpacesOf(k'.tasks) == {};
    assert VmOk(k.vm, {}) by { CowRefinement.BootedInv(CowRuns.State(k.vm, {})); }
    HeapRuns.InitialInv();
    assert k'.tasks[0].ready && ProcOf(k', 0) == Proc(k.cpu, map[]);
    assert Areas(k', 0) == [StackOf(k', k'.tasks[0])];
  }

  // ------------------------------------------------------------------
  // What the invariant says of address spaces
  // ------------------------------------------------------------------

  // Whenever a task runs, CR3 and esp0 are its own, no other live process has its directory.
  lemma RunningOnItsOwn(t: Trace, n: nat)
    requires IsRun(t) && n <= |t.events|
    ensures KInv(t.states[n])
    ensures var k := t.states[n]; var me := k.tasks[k.current];
            && k.vm.cr3 == SpaceFor(me) &&
               (me.user ==> k.esp0 == me.irqTop != 0 && me.cr3 != Paging.KERNEL_PD && me.cr3 != 0)
            && (Ring3(k.cpu.cs) <==> me.user)
            && forall i: nat, j: nat :: LiveUser(k.tasks, i) && LiveUser(k.tasks, j) && i != j ==>
               k.tasks[i].cr3 != k.tasks[j].cr3
  {
    RunKeepsInv(t, n);
    var k := t.states[n];
    CurrentSpace(k);
    assert Open(0);
    if k.tasks[k.current].user { SpaceNumbers(k.vm, SpacesOf(k.tasks), k.tasks[k.current].cr3); }
  }

  ghost function LiveUsers(tasks: seq<Task>): set<nat> { set i: nat | i < |tasks| && LiveUser(tasks, i) }

  lemma {:induction false} CountSpaces(tasks: seq<Task>, s: set<nat>, spaces: set<nat>)
    requires OwnSpaces(tasks) && (forall i :: i in s ==> LiveUser(tasks, i))
    requires spaces == set i | i in s && i < |tasks| :: tasks[i].cr3
    ensures |spaces| == |s|
    decreases |s|
  {
    if i :| i in s {
      var s' := s - {i};
      var spaces' := set j | j in s' && j < |tasks| :: tasks[j].cr3;
      assert spaces' == spaces - {tasks[i].cr3};
      assert LiveUser(tasks, i) && tasks[i].cr3 in spaces;
      CountSpaces(tasks, s', spaces');
    }
  }

  // No frame is lost however processes come and go: two for each live user process, and the
  // frames their pages name.
  lemma FramesOfProcesses(t: Trace, n: nat)
    requires IsRun(t) && n <= |t.events|
    ensures var k := t.states[n];
            Frames.Sized(k.vm.ft) &&
            |FrameAccounting.InUse(k.vm.ft)| == 2 * |LiveUsers(k.tasks)| + |FrameAccounting.MappedFrames(k.vm.ft)|
  {
    RunKeepsInv(t, n);
    var k := t.states[n];
    assert Open(0);
    assert Peek(0);
    FrameAccounting.FramesConserved(k.vm.mem, k.vm.ft, SpacesOf(k.tasks));
    var users := LiveUsers(k.tasks);
    assert SpacesOf(k.tasks) == set i | i in users && i < |k.tasks| :: k.tasks[i].cr3;
    CountSpaces(k.tasks, users, SpacesOf(k.tasks));
  }
}
