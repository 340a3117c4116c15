// Process numbers: live tasks have different pids, a pid is never given out twice, and the
// number a fork answers is the child's.

module TaskPids {
  import opened Tasks
  import opened SpaceCalls
  import opened ElfImages
  import opened TaskFrames
  import opened TaskInv
  import opened TaskLife
  import opened TaskFork
  import opened TaskSpawn
  import opened TaskRuns
  import opened TaskFairness

  // Pids of live tasks are positive, below the next one, and all different.
  ghost predicate PidsOk(k: Kernel) {
    && (forall i: nat :: Live(k.tasks, i) ==> 0 < k.tasks[i].pid < k.nextPid)
    && (forall i: nat, j: nat :: Live(k.tasks, i) && Live(k.tasks, j) && i != j ==> k.tasks[i].pid != k.tasks[j].pid)
  }

  // Only slot s may have become a new task, and then with the next pid.
  ghost predicate PidStep(k: Kernel, k': Kernel, s: nat) {
    && |k'.tasks| == |k.tasks| && k.nextPid <= k'.nextPid
    && (forall i: nat :: Live(k'.tasks, i) && i != s ==> Live(k.tasks, i) && k'.tasks[i].pid == k.tasks[i].pid)
    && (Live(k'.tasks, s) ==> || (Live(k.tasks, s) && k'.tasks[s].pid == k.tasks[s].pid)
                              || (k'.tasks[s].pid == k.nextPid < k'.nextPid))
  }

  lemma PidsKept(k: Kernel, k': Kernel, s: nat)
    requires PidsOk(k) && PidStep(k, k', s) && k.nextPid > 0
    ensures PidsOk(k')
  {
  }

  lemma TickPids(k: Kernel)
    requires KInv(k)
    ensures var r := TaskStep(k, Tick); r.Go? && PidStep(k, r.k, MAX_TASKS)
  {
    EnterOk(k, IRQ0);
  }

  lemma ExitPids(k: Kernel)
    requires KInv(k) && TaskStep(k, Exit).Go?
    ensures PidStep(k, TaskStep(k, Exit).k, MAX_TASKS)
  {
    EnterOk(k, SYSCALL);
    ExitTable(Enter(k, SYSCALL));
  }

  lemma SleepPids(k: Kernel)
    requires KInv(k)
    ensures var r := TaskStep(k, Sleep); r.Go? && PidStep(k, r.k, MAX_TASKS)
  {
    EnterOk(k, SYSCALL);
    SleepTable(Enter(k, SYSCALL), FramePtr(k));
  }

  lemma ForkPids(k: Kernel)
    requires KInv(k) && TaskStep(k, Fork).Go?
    ensures PidStep(k, TaskStep(k, Fork).k, NewSlot(k))
  {
    EnterOk(k, SYSCALL);
    if k.tasks[k.current].user { ForkUserPids(Enter(k, SYSCALL), FramePtr(k)); }
  }

  lemma ForkUserPids(k: Kernel, fp: nat)
    requires KInv(k) && ForkUser(k, fp).Forked?
    ensures PidStep(k, ForkUser(k, fp).k, NewSlot(k))
  {
    NewSlotFree(k);
  }

  lemma ThreadPids(k: Kernel, fn: nat)
    requires KInv(k)
    ensures PidStep(k, CreateThread(k, fn).0, NewSlot(k))
  {
    NewSlotFree(k);
  }

  lemma CreateUserPids(k: Kernel, entry: nat, c: nat)
    requires KInv(k)
    ensures PidStep(k, CreateUser(k, entry, c).0, NewSlot(k))
  {
    NewSlotFree(k);
  }

  lemma SpawnPids(k: Kernel, img: Bytes)
    requires KInv(k) && Spawn(k, img).Spawned?
    ensures PidStep(k, Spawn(k, img).k, NewSlot(k))
  {
    var s := CreateOf(k.vm);
    if s.ret != 0 {
      var r := LoadImage(s.vm, s.ret, img);
      if r.Loaded? {
        CreateUserVm(k, r.vm, EntryPoint(img), s.ret);
        CreateUserPids(k, EntryPoint(img), s.ret);
      }
    }
  }

  lemma StepPids(k: Kernel, ev: Event)
    requires KInv(k) && Enabled(k, ev) && TaskStep(k, ev).Go?
    ensures exists s: nat :: PidStep(k, TaskStep(k, ev).k, s)
  {
    match ev
    case Tick => TickPids(k);
    case Exit => ExitPids(k);
    case Sleep => SleepPids(k);
    case Fork => ForkPids(k);
    case NewThread(fn) => ThreadPids(k, fn);
    case NewProgram(img) => SpawnPids(k, img);
    case Compute(c) => assert PidStep(k, k.(cpu := c), 0);
    case Scribble(ram) => assert PidStep(k, k.(ram := ram), 0);
    case Access(a) => assert PidStep(k, TaskStep(k, ev).k, 0);
  }

  // At boot there is one task, with pid 1.
  lemma BootPids(k: Kernel)
    requires Booting(k)
    ensures PidsOk(Adopt(k)) && Adopt(k).tasks[0].pid == 1
  {
  }

  // Live tasks have different pids at every point of every run, and the next pid to be given
  // out never goes back.
  lemma {:induction false} PidsAreNames(t: Trace, n: nat)
    requires IsRun(t) && n <= |t.events| && PidsOk(t.states[0])
    ensures PidsOk(t.states[n]) && t.states[0].nextPid <= t.states[n].nextPid
    decreases n
  {
    if n > 0 {
      PidsAreNames(t, n - 1);
      PidsStep(t, n - 1);
    }
  }

  lemma PidsStep(t: Trace, n: nat)
    requires IsRun(t) && n < |t.events| && PidsOk(t.states[n])
    ensures PidsOk(t.states[n + 1]) && t.states[n].nextPid <= t.states[n + 1].nextPid
  {
    RunKeepsInv(t, n);
    assert IsStep(t.states[n], t.events[n], t.states[n + 1]);
    StepTaken(t.states[n], t.events[n], t.states[n + 1]);
    StepPids(t.states[n], t.events[n]);
    var s: nat :| PidStep(t.states[n], t.states[n + 1], s);
    assert t.states[n].nextPid > 0 by { assert Open(0); }
    PidsKept(t.states[n], t.states[n + 1], s);
  }

  // What a fork that succeeds answers the parent is the pid in the child's slot, and no
  // other live task, before or after, has it.
  lemma ForkNamesChild(k: Kernel)
    requires KInv(k) && PidsOk(k) && k.tasks[k.current].user && CanFork(k) && TaskStep(k, Fork).Go?
    ensures var k', child := TaskStep(k, Fork).k, NewSlot(k);
            && child < MAX_TASKS == |k'.tasks| && k'.current == k.current && k'.cpu.eax == k'.tasks[child].pid != 0
            && !Live(k.tasks, child) && Live(k'.tasks, child)
            && forall i: nat :: (Live(k.tasks, i) ==> k.tasks[i].pid != k'.cpu.eax)
                                && (Live(k'.tasks, i) && i != child ==> k'.tasks[i].pid != k'.cpu.eax)
  {
    ForkOk(k);
    ForkPids(k);
    ForkCpu(k);
    NewSlotFree(k);
    assert k.nextPid > 0 by { assert Open(0); }
    PidsKept(k, TaskStep(k, Fork).k, NewSlot(k));
    var f := ForkUser(Enter(k, SYSCALL), FramePtr(k));
    assert NewSlot(k) in Procs(TaskStep(k, Fork).k);
  }

  lemma ForkCpu(k: Kernel)
    requires KInv(k) && k.tasks[k.current].user && TaskStep(k, Fork).Go?
    ensures var k', f := TaskStep(k, Fork).k, ForkUser(Enter(k, SYSCALL), FramePtr(k));
            f.Forked? && k'.current == k.current && k'.cpu.eax == f.pid
  {
    ForkOk(k);
    EnterOk(k, SYSCALL);
    ForkGrew(Enter(k, SYSCALL), FramePtr(k));
    var k' := TaskStep(k, Fork).k;
    RingOf(k');
  }
}
