// Time slices from below: whoever gets the processor keeps it for five ticks, a sleeper for
// as many as it asked for, and the next tick hands it to the nearest ready slot.

module TaskSlices {
  import opened Tasks
  import opened ElfImages
  import opened TaskFrames
  import opened TaskInv
  import opened TaskSwitch
  import opened TaskLife
  import opened TaskPick
  import opened TaskFork
  import opened TaskRuns
  import opened TaskFairness

  // Events that can take the processor from the running task before its slice is spent, or
  // change the slice.
  predicate GivesUp(ev: Event) { ev == Exit || ev == Sleep }

  // A tick of an unspent slice leaves the task running.
  lemma TickUnspent(k: Kernel)
    requires KInv(k) && SliceLeft(k) > 0
    ensures var r := TaskStep(k, Tick);
            r.Go? && r.k.current == k.current < |r.k.tasks| && SliceLeft(r.k) + 1 >= SliceLeft(k)
  {
    EnterOk(k, IRQ0);
  }

  // With the slice spent and another task ready, a tick runs the ready slot that comes next,
  // cyclically, with a slice of 5.
  lemma TickSpent(k: Kernel, i: nat)
    requires KInv(k) && SliceLeft(k) == 0 && Live(k.tasks, i) && i != k.current
    ensures var r := TaskStep(k, Tick);
            && r.Go? && Live(k.tasks, r.k.current) && r.k.current != k.current && r.k.current < |r.k.tasks|
            && SliceLeft(r.k) == 5
            && (i == r.k.current || Dist(r.k.current, i) < Dist(k.current, i))
  {
    EnterOk(k, IRQ0);
    LiveBelow(k);
    PickNearer(k.tasks, k.count, k.current, k.count, i);
  }

  // An exit gives the next task a slice of 5.
  lemma ExitSlice(k: Kernel)
    requires KInv(k) && TaskStep(k, Exit).Go?
    ensures var k' := TaskStep(k, Exit).k; k'.current < |k'.tasks| && k'.current != k.current && SliceLeft(k') == 5
  {
    EnterOk(k, SYSCALL);
    var k1 := Enter(k, SYSCALL);
    ExitTable(k1);
    var gone := k1.tasks[k1.current := Gone(k1.tasks[k1.current])];
    NextReadyOther(gone, k1.count, k1.current, 1, k1.count - 1);
  }

  // A sleep makes the caller's slice the delay it holds in ebx, cut to between 1 and 1000.
  lemma SleepSlice(k: Kernel)
    requires KInv(k)
    ensures var r := TaskStep(k, Sleep);
            && r.Go? && r.k.current == k.current < |r.k.tasks|
            && SliceLeft(r.k) == if k.cpu.ebx == 0 then 1 else if k.cpu.ebx > 1000 then 1000 else k.cpu.ebx
  {
    EnterOk(k, SYSCALL);
  }

  // Any other step leaves the running task and its slice alone.
  lemma OtherSlice(k: Kernel, ev: Event)
    requires KInv(k) && Enabled(k, ev) && TaskStep(k, ev).Go? && !GivesUp(ev) && ev != Tick
    ensures var k' := TaskStep(k, ev).k; k'.current == k.current < |k'.tasks| && SliceLeft(k') == SliceLeft(k)
  {
    match ev
    case Fork =>
      EnterOk(k, SYSCALL);
      ForkGrew(Enter(k, SYSCALL), FramePtr(k));
    case NewThread(fn) => ThreadGrew(k, fn);
    case NewProgram(img) => SpawnGrew(k, img);
    case _ =>
  }

  lemma SliceStep(k: Kernel, ev: Event)
    requires KInv(k) && Enabled(k, ev) && TaskStep(k, ev).Go? && !GivesUp(ev) && (ev == Tick ==> SliceLeft(k) > 0)
    ensures var k' := TaskStep(k, ev).k;
            k'.current == k.current < |k'.tasks| && SliceLeft(k') + TicksIn(ev) >= SliceLeft(k)
  {
    if ev == Tick { TickUnspent(k); } else { OtherSlice(k, ev); }
  }

  // A task keeps the processor as long as its slice lasts and it neither exits nor sleeps.
  lemma {:induction false} RunsItsSlice(t: Trace, a: nat, b: nat)
    requires IsRun(t) && a <= b <= |t.events| && t.states[a].current < |t.states[a].tasks|
    requires forall j :: a <= j < b ==> !GivesUp(t.events[j])
    requires Ticks(t.events, a, b) <= SliceLeft(t.states[a])
    ensures t.states[b].current == t.states[a].current < |t.states[b].tasks|
    ensures SliceLeft(t.states[b]) + Ticks(t.events, a, b) >= SliceLeft(t.states[a])
    decreases b
  {
    if a < b {
      RunsItsSlice(t, a, b - 1);
      RunKeepsInv(t, b - 1);
      assert IsStep(t.states[b - 1], t.events[b - 1], t.states[b]);
      StepTaken(t.states[b - 1], t.events[b - 1], t.states[b]);
      SliceStep(t.states[b - 1], t.events[b - 1]);
    }
  }

  // Whoever a step brings to the processor has a slice of 5.
  lemma NewcomerSlice(k: Kernel, ev: Event)
    requires KInv(k) && Enabled(k, ev) && TaskStep(k, ev).Go? && TaskStep(k, ev).k.current != k.current
    ensures var k' := TaskStep(k, ev).k; k'.current < |k'.tasks| && SliceLeft(k') == 5
  {
    if ev == Exit {
      ExitSlice(k);
    } else if ev == Sleep {
      SleepSlice(k);
    } else if ev == Tick {
      if SliceLeft(k) > 0 { TickUnspent(k); } else { SwitchSlice(k); }
    } else {
      OtherSlice(k, ev);
    }
  }

  lemma SwitchSlice(k: Kernel)
    requires KInv(k) && SliceLeft(k) == 0 && TaskStep(k, Tick).Go? && TaskStep(k, Tick).k.current != k.current
    ensures var k' := TaskStep(k, Tick).k; k'.current < |k'.tasks| && SliceLeft(k') == 5
  {
    EnterOk(k, IRQ0);
    LiveBelow(k);
  }

  // So a task that comes to run keeps the processor through five ticks, unless it exits or
  // sleeps.
  lemma GetsFiveTicks(t: Trace, a: nat, b: nat)
    requires IsRun(t) && 0 < a <= b <= |t.events| && t.states[a].current != t.states[a - 1].current
    requires (forall j :: a <= j < b ==> !GivesUp(t.events[j])) && Ticks(t.events, a, b) <= 5
    ensures t.states[b].current == t.states[a].current
  {
    RunKeepsInv(t, a - 1);
    assert IsStep(t.states[a - 1], t.events[a - 1], t.states[a]);
    StepTaken(t.states[a - 1], t.events[a - 1], t.states[a]);
    NewcomerSlice(t.states[a - 1], t.events[a - 1]);
    RunsItsSlice(t, a, b);
  }
}
