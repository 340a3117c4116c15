// Waiting: without sleeps a ready task runs within 6 * (MAX_TASKS - 1) ticks, each sleep may
// add 1000, and a task that keeps sleeping keeps the processor.

module TaskFairness {
  import opened Tasks
  import opened SpaceCalls
  import opened ElfImages
  import opened TaskFrames
  import opened TaskInv
  import opened TaskPick
  import opened TaskSwitch
  import opened TaskLife
  import opened TaskFork
  import opened TaskSpawn
  import opened TaskRuns

  // Slots from `from` round to i.
  function Dist(from: nat, i: nat): (d: nat)
    requires from < MAX_TASKS && i < MAX_TASKS
    ensures d < MAX_TASKS && (d == 0 <==> i == from)
  {
    if i >= from then i - from else i + MAX_TASKS - from
  }

  // Ticks left of the running task's slice.
  function SliceLeft(k: Kernel): nat
    requires k.current < |k.tasks|
  {
    k.tasks[k.current].slice
  }

  // Ticks slot i may still have to wait: a full slice for each slot in between and what is
  // left of the running one.
  function Wait(k: Kernel, i: nat): (w: nat)
    requires |k.tasks| == MAX_TASKS && k.current < MAX_TASKS && i < MAX_TASKS && i != k.current
    ensures 1 <= w <= (SLICE + 1) * (MAX_TASKS - 2) + SliceLeft(k) + 1
  {
    (SLICE + 1) * (Dist(k.current, i) - 1) + SliceLeft(k) + 1
  }

  // ------------------------------------------------------------------
  // Picking the next task
  // ------------------------------------------------------------------

  // The slot x steps after `from` is ready.
  predicate ReadyAfter(tasks: seq<Task>, count: nat, from: nat, x: nat)
    requires 0 < count <= |tasks|
  {
    tasks[(from + x) % count].ready
  }

  // The slot found is the nearest ready one.
  lemma {:induction false} NearestReady(tasks: seq<Task>, count: nat, from: nat, i: nat, last: nat) returns (m: nat)
    requires 0 < count <= |tasks| == MAX_TASKS && NextReady(tasks, count, from, i, last) != MAX_TASKS
    ensures i <= m <= last && NextReady(tasks, count, from, i, last) == (from + m) % count
    ensures forall x: nat :: i <= x < m ==> !ReadyAfter(tasks, count, from, x)
    decreases last + 1 - i
  {
    if tasks[(from + i) % count].ready { m := i; } else { m := NearestReady(tasks, count, from, i + 1, last); }
  }

  lemma Nearer(from: nat, n: nat, i: nat, count: nat, m: nat)
    requires from < count <= MAX_TASKS && i < count && i != from && 1 <= m <= StepsTo(from, i, count)
    requires n == (from + m) % count
    ensures n < MAX_TASKS && (n == i || Dist(n, i) < Dist(from, i))
  {
    if from + m < count {
      SmallMod(from + m, count);
    } else {
      SmallMod(from + m - count, count);
      assert n == from + m - count;
    }
  }

  // Whoever is picked is no farther round than any other ready slot.
  lemma PickNearer(tasks: seq<Task>, count: nat, from: nat, last: nat, i: nat)
    requires from < count <= |tasks| == MAX_TASKS && Live(tasks, i) && i < count && i != from && count - 1 <= last
    ensures var n := NextReady(tasks, count, from, 1, last);
            n < count && tasks[n].ready && n != from && (n == i || Dist(n, i) < Dist(from, i))
  {
    var j := StepsTo(from, i, count);
    NextReadyNone(tasks, count, from, 1, last, j);
    var m := NearestReady(tasks, count, from, 1, last);
    assert ReadyAfter(tasks, count, from, j);
    assert m <= j;
    Nearer(from, NextReady(tasks, count, from, 1, last), i, count, m);
    OtherSlot(from, m, count);
  }

  // ------------------------------------------------------------------
  // What each step does to the table
  // ------------------------------------------------------------------

  // Nothing, or a new task in a dead slot.
  predicate Grew(k: Kernel, k': Kernel) {
    && k'.current == k.current && |k'.tasks| == |k.tasks|
    && forall i: nat :: i < |k.tasks| ==> k'.tasks[i] == k.tasks[i] || !k.tasks[i].ready
  }

  lemma ForkGrew(k: Kernel, fp: nat)
    requires KInv(k) && ForkBody(k, fp).Go?
    ensures Grew(k, ForkBody(k, fp).k)
  {
    if k.tasks[k.current].user { ForkUserGrew(k, fp); }
  }

  lemma ForkUserGrew(k: Kernel, fp: nat)
    requires KInv(k) && ForkUser(k, fp).Forked?
    ensures Grew(k, ForkUser(k, fp).k)
  {
    NewSlotFree(k);
  }

  lemma CreateUserGrew(k: Kernel, entry: nat, c: nat)
    requires KInv(k)
    ensures Grew(k, CreateUser(k, entry, c).0)
  {
    NewSlotFree(k);
  }

  lemma SpawnGrew(k: Kernel, img: Bytes)
    requires KInv(k) && Spawn(k, img).Spawned?
    ensures Grew(k, Spawn(k, img).k)
  {
    var s := CreateOf(k.vm);
    if s.ret != 0 {
      var r := LoadImage(s.vm, s.ret, img);
      if r.Loaded? {
        CreateUserVm(k, r.vm, EntryPoint(img), s.ret);
        CreateUserGrew(k, EntryPoint(img), s.ret);
      }
    }
  }

  lemma ThreadGrew(k: Kernel, fn: nat)
    requires KInv(k)
    ensures Grew(k, CreateThread(k, fn).0)
  {
    NewSlotFree(k);
  }

  // Slot i is still live, and running or at least `ticks` nearer to it, give or take `delay`.
  ghost predicate Closer(k: Kernel, k': Kernel, i: nat, ticks: nat, delay: nat) {
    && |k.tasks| == |k'.tasks| == MAX_TASKS && k.current < MAX_TASKS && k'.current < MAX_TASKS
    && (Live(k.tasks, i) && i != k.current ==>
          Live(k'.tasks, i) && (k'.current == i || Wait(k', i) + ticks <= Wait(k, i) + delay))
  }

  // The running task's slice stays within bounds.
  ghost predicate SliceKept(k: Kernel, k': Kernel) {
    && k.current < |k.tasks| && k'.current < |k'.tasks|
    && (SliceLeft(k) <= SLICE ==> SliceLeft(k') <= SLICE)
  }

  // A creation delays nobody.
  lemma GrewWait(k: Kernel, k': Kernel, i: nat)
    requires KInv(k) && Grew(k, k')
    ensures Closer(k, k', i, 0, 0) && SliceKept(k, k')
  {
    assert Live(k.tasks, k.current);
  }

  // A tick brings every waiting task one tick nearer, or to the front.
  lemma TickWait(k: Kernel, fp: nat, i: nat)
    requires KInv(k)
    ensures TickBody(k, fp).Go? && Closer(k, TickBody(k, fp).k, i, 1, 0) && SliceKept(k, TickBody(k, fp).k)
  {
    LiveBelow(k);
    if Live(k.tasks, i) && i != k.current {
      PickNearer(k.tasks, k.count, k.current, k.count, i);
    }
  }

  lemma ExitWait(k: Kernel, i: nat)
    requires KInv(k) && ExitBody(k).Go?
    ensures Closer(k, ExitBody(k).k, i, 0, 0) && SliceKept(k, ExitBody(k).k)
  {
    LiveBelow(k);
    ExitTable(k);
    if Live(k.tasks, i) && i != k.current {
      PickNearer(k.tasks[k.current := Gone(k.tasks[k.current])], k.count, k.current, k.count - 1, i);
    }
  }

  lemma ExitTable(k: Kernel)
    requires |k.tasks| == MAX_TASKS && 0 < k.count <= MAX_TASKS && k.current < MAX_TASKS && ExitBody(k).Go?
    ensures var gone, k' := k.tasks[k.current := Gone(k.tasks[k.current])], ExitBody(k).k;
            var n := NextReady(gone, k.count, k.current, 1, k.count - 1);
            k.count > 1 && n < MAX_TASKS && k'.current == n && k'.tasks == gone[n := gone[n].(slice := SLICE)]
  {
  }

  // A sleep leaves the running task where it is, with a slice of 1 to 1000.
  lemma SleepTable(k: Kernel, fp: nat)
    requires |k.tasks| == MAX_TASKS && k.current < MAX_TASKS
    ensures var r := SleepBody(k, fp);
            && r.Go? && r.k.current == k.current && r.k.count == k.count && 1 <= SliceLeft(r.k) <= LONGEST_SLEEP
            && r.k.tasks == k.tasks[k.current := k.tasks[k.current].(slice := SliceLeft(r.k))]
  {
  }

  const LONGEST_SLEEP: nat := 1000

  lemma SleepWait(k: Kernel, fp: nat, i: nat)
    requires KInv(k)
    ensures SleepBody(k, fp).Go? && Closer(k, SleepBody(k, fp).k, i, 0, LONGEST_SLEEP)
  {
    SleepTable(k, fp);
  }

  // ------------------------------------------------------------------
  // Steps and runs
  // ------------------------------------------------------------------

  lemma SameTableWait(k: Kernel, k': Kernel, i: nat)
    requires KInv(k) && k'.tasks == k.tasks && k'.current == k.current
    ensures Closer(k, k', i, 0, 0) && SliceKept(k, k')
  {
  }

  function TicksIn(ev: Event): nat { if ev == Tick then 1 else 0 }

  function SleepsIn(ev: Event): nat { if ev == Sleep then 1 else 0 }

  lemma TickStepWait(k: Kernel, i: nat)
    requires KInv(k)
    ensures var r := TickBody(Enter(k, IRQ0), FramePtr(k)); r.Go? && Closer(k, r.k, i, 1, 0) && SliceKept(k, r.k)
  {
    EnterOk(k, IRQ0);
    TickWait(Enter(k, IRQ0), FramePtr(k), i);
  }

  lemma ExitStepWait(k: Kernel, i: nat)
    requires KInv(k)
    ensures var r := ExitBody(Enter(k, SYSCALL)); r.Go? ==> Closer(k, r.k, i, 0, 0) && SliceKept(k, r.k)
  {
    EnterOk(k, SYSCALL);
    if ExitBody(Enter(k, SYSCALL)).Go? { ExitWait(Enter(k, SYSCALL), i); }
  }

  lemma SleepStepWait(k: Kernel, i: nat)
    requires KInv(k)
    ensures var r := SleepBody(Enter(k, SYSCALL), FramePtr(k)); r.Go? && Closer(k, r.k, i, 0, LONGEST_SLEEP)
  {
    EnterOk(k, SYSCALL);
    SleepWait(Enter(k, SYSCALL), FramePtr(k), i);
  }

  lemma ForkStepWait(k: Kernel, i: nat)
    requires KInv(k)
    ensures var r := ForkBody(Enter(k, SYSCALL), FramePtr(k)); r.Go? ==> Closer(k, r.k, i, 0, 0) && SliceKept(k, r.k)
  {
    EnterOk(k, SYSCALL);
    var r := ForkBody(Enter(k, SYSCALL), FramePtr(k));
    if r.Go? {
      ForkGrew(Enter(k, SYSCALL), FramePtr(k));
      GrewWait(Enter(k, SYSCALL), r.k, i);
    }
  }

  // Every tick brings a waiting task nearer; only a sleep delays it, and by at most 1000.
  lemma StepWait(k: Kernel, ev: Event, i: nat)
    requires KInv(k) && Enabled(k, ev) && TaskStep(k, ev).Go?
    ensures Closer(k, TaskStep(k, ev).k, i, TicksIn(ev), LONGEST_SLEEP * SleepsIn(ev))
    ensures ev != Sleep ==> SliceKept(k, TaskStep(k, ev).k)
  {
    match ev
    case Tick => TickStepWait(k, i);
    case Exit => ExitStepWait(k, i);
    case Sleep => SleepStepWait(k, i);
    case Fork => ForkStepWait(k, i);
    case NewThread(fn) =>
      ThreadGrew(k, fn);
      GrewWait(k, CreateThread(k, fn).0, i);
    case NewProgram(img) =>
      SpawnGrew(k, img);
      GrewWait(k, Spawn(k, img).k, i);
    case Compute(c) => SameTableWait(k, k.(cpu := c), i);
    case Scribble(ram) => SameTableWait(k, k.(ram := ram), i);
    case Access(a) => SameTableWait(k, TaskStep(k, Access(a)).k, i);
  }

  function Ticks(events: seq<Event>, a: nat, b: nat): nat
    requires a <= b <= |events|
    decreases b
  {
    if a == b then 0 else Ticks(events, a, b - 1) + TicksIn(events[b - 1])
  }

  function Sleeps(events: seq<Event>, a: nat, b: nat): nat
    requires a <= b <= |events|
    decreases b
  {
    if a == b then 0 else Sleeps(events, a, b - 1) + SleepsIn(events[b - 1])
  }

  lemma TraceStep(t: Trace, n: nat, i: nat)
    requires IsRun(t) && n < |t.events|
    ensures Closer(t.states[n], t.states[n + 1], i, TicksIn(t.events[n]), LONGEST_SLEEP * SleepsIn(t.events[n]))
    ensures t.events[n] != Sleep ==> SliceKept(t.states[n], t.states[n + 1])
  {
    RunKeepsInv(t, n);
    assert IsStep(t.states[n], t.events[n], t.states[n + 1]);
    StepTaken(t.states[n], t.events[n], t.states[n + 1]);
    StepWait(t.states[n], t.events[n], i);
  }

  lemma {:induction false} RunWait(t: Trace, a: nat, b: nat, i: nat)
    requires IsRun(t) && a <= b <= |t.events| && Live(t.states[a].tasks, i)
    requires forall j :: a <= j <= b ==> t.states[j].current != i
    ensures Live(t.states[b].tasks, i)
    ensures Closer(t.states[a], t.states[b], i, Ticks(t.events, a, b), LONGEST_SLEEP * Sleeps(t.events, a, b))
    decreases b
  {
    RunKeepsInv(t, a);
    if a < b {
      RunWait(t, a, b - 1, i);
      TraceStep(t, b - 1, i);
      CloserStill(t.states[a], t.states[b - 1], t.states[b], i, Ticks(t.events, a, b - 1), TicksIn(t.events[b - 1]),
                  LONGEST_SLEEP * Sleeps(t.events, a, b - 1), LONGEST_SLEEP * SleepsIn(t.events[b - 1]));
    }
  }

  lemma CloserStill(k0: Kernel, k1: Kernel, k2: Kernel, i: nat, n: nat, m: nat, d: nat, e: nat)
    requires Closer(k0, k1, i, n, d) && Closer(k1, k2, i, m, e)
    requires Live(k1.tasks, i) && k1.current != i && k2.current != i
    ensures Closer(k0, k2, i, n + m, d + e) && Live(k2.tasks, i)
  {
  }

  // From any moment at which slot i is ready it comes to run: before 85 ticks, the rest of
  // the running slice and 1000 ticks per sleep have passed, whatever else happens.
  lemma WaitingWithSleeps(t: Trace, a: nat, b: nat, i: nat)
    requires IsRun(t) && a <= b <= |t.events| && Live(t.states[a].tasks, i) && t.states[a].current < |t.states[a].tasks|
    requires Ticks(t.events, a, b)
             > 84 + SliceLeft(t.states[a]) + 1000 * Sleeps(t.events, a, b)
    ensures exists j :: a <= j <= b && t.states[j].current == i
  {
    if forall j :: a <= j <= b ==> t.states[j].current != i {
      RunKeepsInv(t, a);
      RunWait(t, a, b, i);
    }
  }

  ghost predicate NoSleep(t: Trace) { forall j :: 0 <= j < |t.events| ==> t.events[j] != Sleep }

  lemma {:induction false} RunSlice(t: Trace, n: nat)
    requires IsRun(t) && n <= |t.events| && NoSleep(t)
    requires t.states[0].current < |t.states[0].tasks| && SliceLeft(t.states[0]) <= SLICE
    ensures t.states[n].current < |t.states[n].tasks| && SliceLeft(t.states[n]) <= SLICE
  {
    if n > 0 {
      RunSlice(t, n - 1);
      TraceStep(t, n - 1, 0);
    }
  }

  lemma {:induction false} NoSleeps(t: Trace, a: nat, b: nat)
    requires a <= b <= |t.events| && NoSleep(t)
    ensures Sleeps(t.events, a, b) == 0
    decreases b
  {
    if a < b { NoSleeps(t, a, b - 1); }
  }

  // Without sleeps a ready slot runs before 90 ticks have passed, whatever forks, exits and
  // slot reuse happen in between.
  lemma BoundedWaiting(t: Trace, a: nat, b: nat, i: nat)
    requires IsRun(t) && a <= b <= |t.events| && NoSleep(t) && Live(t.states[a].tasks, i)
    requires t.states[0].current < |t.states[0].tasks| && SliceLeft(t.states[0]) <= 5
    requires Ticks(t.events, a, b) >= 90
    ensures exists j :: a <= j <= b && t.states[j].current == i
  {
    RunSlice(t, a);
    NoSleeps(t, a, b);
    WaitingWithSleeps(t, a, b, i);
  }

  // ------------------------------------------------------------------
  // Starvation
  // ------------------------------------------------------------------

  // A sleep, however short, gives the caller a slice the next tick finds unspent.
  lemma SleepThenTick(k: Kernel) returns (k1: Kernel, k2: Kernel)
    requires KInv(k)
    ensures KInv(k1) && IsStep(k, Sleep, k1) && IsStep(k1, Tick, k2) && KInv(k2)
    ensures k1.current == k.current && k2.current == k.current
    ensures forall i: nat :: (Live(k1.tasks, i) <==> Live(k.tasks, i)) && (Live(k2.tasks, i) <==> Live(k.tasks, i))
  {
    SleepOk(k);
    EnterOk(k, SYSCALL);
    SleepTable(Enter(k, SYSCALL), FramePtr(k));
    k1 := TaskStep(k, Sleep).k;
    TickOk(k1);
    EnterOk(k1, IRQ0);
    k2 := TaskStep(k1, Tick).k;
  }

  // Two steps more at the end of a run.
  lemma Extended(t: Trace, k1: Kernel, k2: Kernel) returns (t': Trace)
    requires IsRun(t) && var k := t.states[|t.events|]; IsStep(k, Sleep, k1) && IsStep(k1, Tick, k2)
    ensures t' == Trace(t.states + [k1, k2], t.events + [Sleep, Tick]) && IsRun(t')
  {
    t' := Trace(t.states + [k1, k2], t.events + [Sleep, Tick]);
    forall j | 0 <= j < |t'.events| ensures IsStep(t'.states[j], t'.events[j], t'.states[j + 1]) {
      if j < |t.events| { assert IsStep(t.states[j], t.events[j], t.states[j + 1]); }
    }
  }

  lemma {:induction false} TicksPrefix(events: seq<Event>, more: seq<Event>, b: nat)
    requires b <= |events|
    ensures Ticks(events + more, 0, b) == Ticks(events, 0, b)
    decreases b
  {
    if b > 0 { TicksPrefix(events, more, b - 1); }
  }

  // n times a sleep and a tick.
  function SleepsAndTicks(n: nat): (events: seq<Event>)
    ensures |events| == 2 * n
  {
    if n == 0 then [] else SleepsAndTicks(n - 1) + [Sleep, Tick]
  }

  lemma {:induction false} TicksOf(n: nat)
    ensures Ticks(SleepsAndTicks(n), 0, 2 * n) == n
  {
    if n > 0 {
      var m, events := 2 * (n - 1), SleepsAndTicks(n);
      TicksOf(n - 1);
      TicksPrefix(SleepsAndTicks(n - 1), [Sleep, Tick], m);
      assert events[m] == Sleep && events[m + 1] == Tick;
      assert Ticks(events, 0, m + 1) == Ticks(events, 0, m);
    }
  }

  // So a task that sleeps before every tick is never put aside: from every state with
  // another live slot i, and for every n, some run has n ticks in which i never runs.
  lemma {:induction false} SleepersStarveOthers(k: Kernel, i: nat, n: nat) returns (t: Trace)
    requires KInv(k) && Live(k.tasks, i) && i != k.current
    ensures IsRun(t) && t.states[0] == k && t.events == SleepsAndTicks(n) && Ticks(t.events, 0, |t.events|) == n
    ensures forall j :: 0 <= j < |t.states| ==> Live(t.states[j].tasks, i) && t.states[j].current == k.current
    decreases n
  {
    TicksOf(n);
    if n == 0 {
      t := Trace([k], []);
    } else {
      var t0 := SleepersStarveOthers(k, i, n - 1);
      RunKeepsInv(t0, |t0.events|);
      var k1, k2 := SleepThenTick(t0.states[|t0.events|]);
      t := Extended(t0, k1, k2);
    }
  }
}
