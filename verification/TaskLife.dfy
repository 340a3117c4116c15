// The end and the beginning of processes: exit gives back exactly the exiting process's
// space, fork and spawn add exactly one process, and nobody else notices.

module TaskLife {
  import opened Tasks
  import opened SpaceCalls
  import opened TaskFrames
  import opened TaskStacks
  import opened TaskSpaces
  import opened TaskInv
  import opened TaskSwitch
  import opened TaskPick

  // ------------------------------------------------------------------
  // Exit
  // ------------------------------------------------------------------

  lemma SpacesWithout(tasks: seq<Task>, tasks': seq<Task>, me: nat)
    requires |tasks'| == |tasks| && Live(tasks, me) && OwnSpaces(tasks)
    requires forall i: nat :: i < |tasks| && i != me ==>
             (LiveUser(tasks', i) <==> LiveUser(tasks, i)) && (LiveUser(tasks, i) ==> tasks'[i].cr3 == tasks[i].cr3)
    requires !Live(tasks', me)
    ensures SpacesOf(tasks') == if tasks[me].user then SpacesOf(tasks) - {tasks[me].cr3} else SpacesOf(tasks)
    ensures OwnSpaces(tasks')
  {
    var gone := if tasks[me].user then SpacesOf(tasks) - {tasks[me].cr3} else SpacesOf(tasks);
    forall c ensures c in SpacesOf(tasks') <==> c in gone {
      if c in SpacesOf(tasks') {
        var i :| 0 <= i < |tasks'| && LiveUser(tasks', i) && tasks'[i].cr3 == c;
        assert LiveUser(tasks, i) && i != me && (tasks[me].user ==> LiveUser(tasks, me));
      }
      if c in gone {
        var i :| 0 <= i < |tasks| && LiveUser(tasks, i) && tasks[i].cr3 == c;
        assert LiveUser(tasks', i);
      }
    }
  }

  // What exiting in favour of slot n does to everything but address spaces.
  ghost predicate Left(k: Kernel, k': Kernel, n: nat)
    requires k.current < |k.tasks| && n < |k.tasks|
  {
    && |k'.tasks| == |k.tasks| && !k'.tasks[k.current].ready
    && (forall i: nat :: i < |k.tasks| && i != k.current ==> k'.tasks[i] == k.tasks[i].(slice := k'.tasks[i].slice))
    && k'.current == n && k'.count == k.count && k'.nextPid == k.nextPid && k'.zombie == 0
    && k'.ram == k.ram && k'.heap == k.heap && k'.bootLo == k.bootLo && k'.bootHi == k.bootHi
    && k'.esp0 == (if k.tasks[n].irqTop != 0 then k.tasks[n].irqTop else k.esp0)
    && k'.cpu == Load(k.ram, k.tasks[n].esp)
  }

  lemma LeftAreas(k: Kernel, k': Kernel, n: nat)
    requires KInv(k) && Live(k.tasks, n) && n != k.current && Left(k, k', n)
    ensures AreasPlaced(k') && AreasApart(k')
  {
    assert Open(0);
    forall i: nat, s | Live(k'.tasks, i) && s in Areas(k', i) ensures Live(k.tasks, i) && Inside(k, i, s) {
      assert StackOf(k', k'.tasks[i]) == StackOf(k, k.tasks[i]) && FrameSpan(k'.tasks[i]) == FrameSpan(k.tasks[i]);
      assert s in Areas(k, i) && Within(s, s);
    }
    SubAreas(k, k');
  }

  lemma LeftFrames(k: Kernel, k': Kernel, n: nat)
    requires KInv(k) && Live(k.tasks, n) && n != k.current && Left(k, k', n)
    ensures FramesOk(k') && TableOk(k')
  {
    assert Open(0);
    forall i: nat | Live(k'.tasks, i)
      ensures i != k.current && Live(k.tasks, i) && FrameOk(k', i) &&
              (k'.tasks[i].user ==> k'.tasks[i].irqTop >= IRQ_STACK)
    {
      assert FrameOk(k, i);
      assert k.tasks[i].user ==> LiveUser(k.tasks, i);
    }
  }

  lemma LeftProcs(k: Kernel, k': Kernel, n: nat)
    requires KInv(k) && Live(k.tasks, n) && n != k.current && Left(k, k', n) && k'.vm.mem == k.vm.mem
    ensures Procs(k') == Procs(k) - {k.current}
  {
    assert Open(0);
    forall i: nat | i < |k.tasks| ensures Live(k'.tasks, i) <==> Live(k.tasks, i) && i != k.current { }
    forall i: nat | Live(k'.tasks, i) ensures ProcOf(k', i) == ProcOf(k, i) { }
    assert Procs(k') == Procs(k) - {k.current};
  }

  // The parked space is released only after CR3 has left it.
  lemma LeftVm(k: Kernel, n: nat)
    requires KInv(k) && Live(k.tasks, n) && n != k.current
    ensures var me := k.tasks[k.current]; var vm1 := LoadOf(k.vm, SpaceFor(k.tasks[n]));
            var vm2 := if me.user then DestroyOf(vm1, me.cr3) else vm1;
            && (me.user ==> vm1.cr3 != me.cr3)
            && VmOk(vm2, if me.user then SpacesOf(k.tasks) - {me.cr3} else SpacesOf(k.tasks))
            && vm2.cr3 == SpaceFor(k.tasks[n]) && vm2.mem == k.vm.mem && (me.user ==> me.cr3 != 0)
  {
    assert Open(0);
    var me, spaces := k.tasks[k.current], SpacesOf(k.tasks);
    SpaceOfLive(k, n);
    LoadSpace(k.vm, spaces, SpaceFor(k.tasks[n]));
    if me.user {
      assert LiveUser(k.tasks, k.current) && me.cr3 in spaces;
      SpaceNumbers(k.vm, spaces, me.cr3);
      assert SpaceFor(k.tasks[n]) != me.cr3 by {
        if k.tasks[n].user { assert LiveUser(k.tasks, n); }
      }
      DestroySpaceOk(LoadOf(k.vm, SpaceFor(k.tasks[n])), spaces, me.cr3);
    }
  }

  // Exit: some other task takes over, on its own space and stack; the exiting process is
  // gone, its space with it, and every other process is as it was. It halts exactly when
  // no other task is left.
  lemma ExitOk(k: Kernel)
    requires KInv(k)
    ensures var r := ExitBody(Enter(k, SYSCALL));
            && (r.Halted? <==> forall i: nat :: Live(k.tasks, i) ==> i == k.current)
            && (r.Go? ==> KInv(r.k) && Procs(r.k) == Procs(k) - {k.current})
            && !r.Astray?
  {
    EnterOk(k, SYSCALL);
    ExitBodyOk(Enter(k, SYSCALL));
  }

  // The slots left by the exiting task.
  function Gone(t: Task): Task { t.(ready := false, cr3 := if t.user && t.cr3 != 0 then 0 else t.cr3) }

  lemma ExitPick(tasks: seq<Task>, count: nat, me: nat)
    requires |tasks| == MAX_TASKS && me < count <= MAX_TASKS && Live(tasks, me)
    requires forall i: nat :: Live(tasks, i) ==> i < count
    ensures var tasks1 := tasks[me := Gone(tasks[me])];
            var n := if count > 1 then NextReady(tasks1, count, me, 1, count - 1) else MAX_TASKS;
            && (n == MAX_TASKS <==> forall i: nat :: Live(tasks, i) ==> i == me)
            && (n != MAX_TASKS ==> Live(tasks, n) && n != me)
  {
    var tasks1 := tasks[me := Gone(tasks[me])];
    if count > 1 {
      var n := NextReady(tasks1, count, me, 1, count - 1);
      NextReadyOther(tasks1, count, me, 1, count - 1);
      forall i: nat | Live(tasks, i) && i != me ensures n != MAX_TASKS {
        NextReadyNone(tasks1, count, me, 1, count - 1, StepsTo(me, i, count));
      }
      if n != MAX_TASKS { assert Live(tasks, n); }
    }
  }

  lemma LiveBelow(k: Kernel)
    requires KInv(k)
    ensures forall i: nat :: Live(k.tasks, i) ==> i < k.count
  {
    assert Open(0);
  }

  // Leaving in favour of slot n, spelled out.
  lemma ExitGoes(k: Kernel, n: nat)
    requires |k.tasks| == MAX_TASKS && k.current < k.count <= MAX_TASKS && k.zombie == 0 && n < MAX_TASKS
    requires n != k.current
    requires k.tasks[k.current].user ==> k.tasks[k.current].cr3 != 0
    requires n == if k.count > 1
             then NextReady(k.tasks[k.current := Gone(k.tasks[k.current])], k.count, k.current, 1, k.count - 1)
                 else MAX_TASKS
    ensures var r, me := ExitBody(k), k.tasks[k.current]; var vm1 := LoadOf(k.vm, SpaceFor(k.tasks[n]));
            r.Go? && Left(k, r.k, n) && r.k.vm == if me.user then DestroyOf(vm1, me.cr3) else vm1
  {
    var me := k.tasks[k.current];
    var k1 := SetSlot(k, k.current, Gone(me)).(zombie := if me.user then me.cr3 else k.zombie);
    assert k1.tasks[n] == k.tasks[n];
  }

  lemma NoZombie(k: Kernel)
    requires KInv(k)
    ensures k.zombie == 0
  {
    assert Open(0);
  }

  lemma ExitBodyOk(k: Kernel)
    requires KInv(k)
    ensures var r := ExitBody(k);
            && (r.Halted? <==> forall i: nat :: Live(k.tasks, i) ==> i == k.current)
            && (r.Go? ==> KInv(r.k) && Procs(r.k) == Procs(k) - {k.current})
            && !r.Astray?
  {
    LiveBelow(k);
    NoZombie(k);
    ExitPick(k.tasks, k.count, k.current);
    var n := if k.count > 1
        then NextReady(k.tasks[k.current := Gone(k.tasks[k.current])], k.count, k.current, 1, k.count - 1)
            else MAX_TASKS;
    if n != MAX_TASKS {
      LeftVm(k, n);
      ExitGoes(k, n);
      LeftKeepsInv(k, ExitBody(k).k, n);
    }
  }

  lemma LeftKeepsInv(k: Kernel, k': Kernel, n: nat)
    requires KInv(k) && Live(k.tasks, n) && n != k.current && Left(k, k', n)
    requires k'.vm.mem == k.vm.mem && k'.vm.cr3 == SpaceFor(k.tasks[n])
    requires var me := k.tasks[k.current];
             VmOk(k'.vm, if me.user then SpacesOf(k.tasks) - {me.cr3} else SpacesOf(k.tasks))
    ensures KInv(k') && Procs(k') == Procs(k) - {k.current}
  {
    assert Open(0);
    LeftAreas(k, k', n);
    LeftFrames(k, k', n);
    LeftProcs(k, k', n);
    SpacesWithout(k.tasks, k'.tasks, k.current);
    assert FrameOk(k, n);
    assert RunsOn(k') by { assert k.tasks[n].user ==> LiveUser(k.tasks, n); }
  }
}
