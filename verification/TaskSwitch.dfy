// Switching tasks: no process notices, and CR3, esp0 and `current` move together.

module TaskSwitch {
  import opened Tasks
  import opened TaskFrames
  import opened TaskStacks
  import opened TaskSpaces
  import opened TaskInv
  import Paging

  // The table as before but for slices and the running task's saved esp.
  predicate Refreshed(tasks: seq<Task>, tasks': seq<Task>, current: nat) {
    && |tasks'| == |tasks|
    && forall i: nat :: i < |tasks| ==>
         tasks'[i] == tasks[i].(slice := tasks'[i].slice, esp := if i == current then tasks'[i].esp else tasks[i].esp)
  }

  lemma SameSpaces(tasks: seq<Task>, tasks': seq<Task>)
    requires |tasks'| == |tasks|
    requires forall i: nat :: i < |tasks| ==>
             (LiveUser(tasks', i) <==> LiveUser(tasks, i)) && (LiveUser(tasks, i) ==> tasks'[i].cr3 == tasks[i].cr3)
    ensures SpacesOf(tasks') == SpacesOf(tasks)
    ensures OwnSpaces(tasks) ==> OwnSpaces(tasks')
  {
    forall c ensures c in SpacesOf(tasks') <==> c in SpacesOf(tasks) {
      if c in SpacesOf(tasks') {
        var i :| 0 <= i < |tasks'| && LiveUser(tasks', i) && tasks'[i].cr3 == c;
        assert LiveUser(tasks, i);
      }
      if c in SpacesOf(tasks) {
        var i :| 0 <= i < |tasks| && LiveUser(tasks, i) && tasks[i].cr3 == c;
        assert LiveUser(tasks', i);
      }
    }
  }

  // Bookkeeping changes no process.
  lemma Refresh(k: Kernel, tasks': seq<Task>)
    requires KInv(k) && Refreshed(k.tasks, tasks', k.current)
    ensures KInv(k.(tasks := tasks')) && Procs(k.(tasks := tasks')) == Procs(k)
  {
    assert Open(0);
    var k' := k.(tasks := tasks');
    SameSpaces(k.tasks, tasks');
    RefreshAreas(k, k');
    forall i: nat | Live(tasks', i) && i != k.current
      ensures FrameOk(k', i)
    {
      assert Live(k.tasks, i) && FrameOk(k, i);
    }
    forall i: nat | i < |k.tasks| ensures Live(tasks', i) <==> Live(k.tasks, i) { }
    forall i: nat | Live(k.tasks, i) ensures ProcOf(k', i) == ProcOf(k, i) { }
    assert Procs(k') == Procs(k);
  }

  lemma RefreshAreas(k: Kernel, k': Kernel)
    requires k' == k.(tasks := k'.tasks) && Refreshed(k.tasks, k'.tasks, k.current) && AreasPlaced(k) && AreasApart(k)
    ensures AreasPlaced(k') && AreasApart(k')
  {
    forall i: nat, s | Live(k'.tasks, i) && s in Areas(k', i) ensures Live(k.tasks, i) && s in Areas(k, i) { }
    SubAreas(k, k');
  }

  // Areas inside the areas there were stay placed and apart.
  lemma SubAreas(k: Kernel, k': Kernel)
    requires AreasPlaced(k) && AreasApart(k)
    requires k'.heap == k.heap && k'.bootLo == k.bootLo && k'.bootHi == k.bootHi && |k'.tasks| == |k.tasks|
    requires forall i: nat, s :: Live(k'.tasks, i) && s in Areas(k', i) ==> Live(k.tasks, i) && Inside(k, i, s)
    ensures AreasPlaced(k') && AreasApart(k')
  {
    forall i: nat, s | Live(k'.tasks, i) && s in Areas(k', i) ensures Placed(k', s) {
      assert Inside(k, i, s);
      var o :| o in Areas(k, i) && Within(s, o);
      assert Placed(k, o);
      PlacedWithin(k, k', s, o);
    }
    forall i: nat, j: nat, s, u | Live(k'.tasks, i) && Live(k'.tasks, j) && i != j && s in Areas(k', i) &&
        u in Areas(k', j) ensures Apart(s, u)
    {
      assert Inside(k, i, s) && Inside(k, j, u);
      var o :| o in Areas(k, i) && Within(s, o);
      var p :| p in Areas(k, j) && Within(u, p);
      assert Apart(o, p);
    }
  }

  // Inside one of slot i's areas.
  ghost predicate Inside(k: Kernel, i: nat, s: Span) {
    i < |k.tasks| && exists o :: o in Areas(k, i) && Within(s, o)
  }

  lemma PlacedWithin(k: Kernel, k': Kernel, s: Span, o: Span)
    requires Placed(k, o) && Within(s, o) && k'.heap == k.heap && k'.bootHi == k.bootHi
    ensures Placed(k', s)
  {
    if InBlock(k.heap, o) {
      var b :| b in k.heap && Holds(b, o);
      assert Holds(b, s);
    }
  }

  // The frame at fp is the running task's, on its own stack.
  ghost predicate Interrupted(k: Kernel, fp: nat)
    requires k.current < |k.tasks|
  {
    var t := k.tasks[k.current];
    && FrameFits(k.ram, fp) && Load(k.ram, fp) == k.cpu && (Ring3(k.ram[fp + 60]) <==> t.user)
    && Within(Span(fp, fp + if t.user then USER_FRAME else KERNEL_FRAME), StackOf(k, t))
  }

  // switch_to: the outgoing task is parked with the registers it had, the incoming one
  // resumes with the registers it was parked with, on its own space and stack.
  lemma SwitchOk(k: Kernel, fp: nat, n: nat)
    requires KInv(k) && Interrupted(k, fp) && Live(k.tasks, n)
    ensures var r := SwitchTo(k, fp, n);
            r.Go? && KInv(r.k) && Procs(r.k) == Procs(k) && r.k.current == n
  {
    assert Open(0);
    var k' := SwitchTo(k, fp, n).k;
    SwitchVm(k, fp, n);
    SwitchAreas(k, k', fp, n);
    SwitchFrames(k, k', fp, n);
    SwitchRunsOn(k, k', fp, n);
    SameSpaces(k.tasks, k'.tasks);
    SwitchProcs(k, k', fp, n);
    forall i: nat | Live(k'.tasks, i) ensures i < k.count && (k'.tasks[i].user ==> k'.tasks[i].irqTop >= IRQ_STACK) {
      assert Live(k.tasks, i) && (k.tasks[i].user ==> LiveUser(k.tasks, i));
    }
  }

  lemma SpaceOfLive(k: Kernel, n: nat)
    requires Live(k.tasks, n)
    ensures SpaceFor(k.tasks[n]) in SpacesOf(k.tasks) || SpaceFor(k.tasks[n]) == Paging.KERNEL_PD
  {
    if k.tasks[n].user { assert LiveUser(k.tasks, n); }
  }

  lemma SwitchVm(k: Kernel, fp: nat, n: nat)
    requires KInv(k) && Live(k.tasks, n)
    ensures var k' := SwitchTo(k, fp, n).k;
            VmOk(k'.vm, SpacesOf(k.tasks)) && k'.vm.cr3 == SpaceFor(k.tasks[n]) && k'.vm.mem == k.vm.mem
  {
    assert Open(0);
    SpaceOfLive(k, n);
    LoadSpace(k.vm, SpacesOf(k.tasks), SpaceFor(k.tasks[n]));
  }

  // What switching does to everything but address spaces.
  ghost predicate Switched(k: Kernel, k': Kernel, fp: nat, n: nat)
    requires k.current < |k.tasks| && n < |k.tasks|
  {
    && k'.tasks == k.tasks[k.current := k.tasks[k.current].(esp := fp)] && k'.current == n && k'.count == k.count
    && k'.ram == k.ram && k'.heap == k.heap && k'.bootLo == k.bootLo && k'.bootHi == k.bootHi && k'.zombie == k.zombie
    && k'.esp0 == (if k.tasks[n].irqTop != 0 then k.tasks[n].irqTop else k.esp0)
    && k'.cpu == Load(k.ram, k'.tasks[n].esp)
  }

  lemma SwitchAreas(k: Kernel, k': Kernel, fp: nat, n: nat)
    requires KInv(k) && Interrupted(k, fp) && Live(k.tasks, n) && Switched(k, k', fp, n)
    ensures AreasPlaced(k') && AreasApart(k')
  {
    assert Open(0);
    forall i: nat, s | Live(k'.tasks, i) && s in Areas(k', i) ensures Live(k.tasks, i) && Inside(k, i, s) {
      var t := k.tasks[i];
      assert StackOf(k', k'.tasks[i]) == StackOf(k, t);
      assert StackOf(k, t) in Areas(k, i) && Within(StackOf(k, t), StackOf(k, t));
      if i != k.current && s != StackOf(k, t) { assert s in Areas(k, i) && Within(s, s); }
    }
    SubAreas(k, k');
  }

  lemma SwitchFrames(k: Kernel, k': Kernel, fp: nat, n: nat)
    requires KInv(k) && Interrupted(k, fp) && Live(k.tasks, n) && Switched(k, k', fp, n)
    ensures FramesOk(k')
  {
    assert Open(0);
    forall i: nat | Live(k'.tasks, i) && i != n ensures FrameOk(k', i) {
      if i != k.current { assert FrameOk(k, i); }
    }
  }

  lemma SwitchRunsOn(k: Kernel, k': Kernel, fp: nat, n: nat)
    requires KInv(k) && Interrupted(k, fp) && Live(k.tasks, n) && Switched(k, k', fp, n)
    requires k'.vm.cr3 == SpaceFor(k.tasks[n])
    ensures RunsOn(k')
  {
    assert Open(0);
    if n != k.current { assert FrameOk(k, n); }
    assert LiveUser(k.tasks, n) ==> k.tasks[n].irqTop >= IRQ_STACK;
  }

  lemma SwitchProcs(k: Kernel, k': Kernel, fp: nat, n: nat)
    requires KInv(k) && Interrupted(k, fp) && Live(k.tasks, n) && Switched(k, k', fp, n) && k'.vm.mem == k.vm.mem
    ensures Procs(k') == Procs(k)
  {
    assert Open(0);
    forall i: nat | i < |k.tasks| ensures Live(k'.tasks, i) <==> Live(k.tasks, i) { }
    forall i: nat | Live(k.tasks, i) ensures ProcOf(k', i) == ProcOf(k, i) { }
    assert Procs(k') == Procs(k);
  }

  // ------------------------------------------------------------------
  // The timer
  // ------------------------------------------------------------------

  // A tick, whether it switches or not, changes the registers and pages of no process.
  lemma TickOk(k: Kernel)
    requires KInv(k)
    ensures var r := TickBody(Enter(k, IRQ0), FramePtr(k));
            r.Go? && KInv(r.k) && Procs(r.k) == Procs(k)
  {
    EnterOk(k, IRQ0);
    TickBodyOk(Enter(k, IRQ0), FramePtr(k));
  }

  lemma TickBodyOk(k: Kernel, fp: nat)
    requires KInv(k) && Interrupted(k, fp)
    ensures var r := TickBody(k, fp);
            r.Go? && KInv(r.k) && Procs(r.k) == Procs(k)
  {
    var t := k.tasks[k.current];
    if k.count < 2 {
    } else if t.slice > 0 {
      Refresh(k, k.tasks[k.current := t.(slice := t.slice - 1)]);
    } else {
      var n := NextReady(k.tasks, k.count, k.current, 1, k.count);
      if n != MAX_TASKS {
        var tasks1 := k.tasks[k.current := t.(esp := fp, slice := SLICE)];
        var tasks2 := tasks1[n := tasks1[n].(slice := SLICE)];
        Refresh(k, tasks2);
        SwitchOk(k.(tasks := tasks2), fp, n);
      }
    }
  }
}
