// What tasks take from the heap: every creation takes an interrupt stack that nothing gives
// back, so a run creates at most 127 tasks. A fork that fails takes nothing.

module TaskHeap {
  import opened Tasks
  import opened SpaceCalls
  import opened ElfImages
  import opened TaskFrames
  import opened TaskSpaces
  import opened TaskInv
  import opened TaskSwitch
  import opened TaskLife
  import opened TaskFork
  import opened TaskSpawn
  import opened TaskRuns
  import opened HeapBlocks
  import AddressSpaces
  import Frames
  import HeapRuns
  import Paging
  import PageOps
  import SpaceEntries
  import SpaceOps

  // ------------------------------------------------------------------
  // Large live blocks
  // ------------------------------------------------------------------

  // Live blocks of at least 8 KB.
  ghost function Large(h: Heap): set<Block> { set b | b in h && !b.free && b.size >= 0x2000 }

  function LargeCount(h: Heap): nat {
    if h == [] then 0
    else LargeCount(h[..|h| - 1]) + if !h[|h| - 1].free && h[|h| - 1].size >= 0x2000 then 1 else 0
  }

  lemma {:induction false} LargeIsCounted(h: Heap)
    ensures |Large(h)| <= LargeCount(h)
    ensures LargeCount(h) * (0x2000 + 12) <= HeapRuns.TotalSize(h)
    decreases |h|
  {
    if h != [] {
      var front, last := h[..|h| - 1], h[|h| - 1];
      LargeIsCounted(front);
      assert h == front + [last];
      var more: set<Block> := if !last.free && last.size >= 0x2000 then {last} else {};
      assert Large(h) == Large(front) + more;
      assert |Large(h)| <= |Large(front)| + |more|;
    }
  }

  // The 1 MB arena has room for 127 of them.
  lemma LargeAreFew(h: Heap)
    requires Tiled(h)
    ensures |Large(h)| <= 127
  {
    LargeIsCounted(h);
    HeapRuns.SpaceConserved(h);
  }

  // Large blocks stay, and n are new.
  ghost predicate Grew(h: Heap, h': Heap, n: nat) {
    Tiled(h') && Large(h) <= Large(h') && |Large(h)| + n <= |Large(h')|
  }

  lemma GrewTwice(h: Heap, h1: Heap, h2: Heap, m: nat, n: nat)
    requires Grew(h, h1, m) && Grew(h1, h2, n)
    ensures Grew(h, h2, m + n)
  {
  }

  lemma AllocGrew(h: Heap, size: nat)
    requires Tiled(h) && size < 0x1_0000
    ensures var (h', p) := Alloc(h, size); Grew(h, h', if p != 0 && size >= 0x2000 then 1 else 0)
  {
    var (h', p) := Alloc(h, size);
    MallocTiled(h, size);
    HeapRuns.MallocEffect(h, size);
    LargeKept(h, h');
    if p != 0 && size >= 0x2000 {
      RoundedCovers(size);
      var k: nat :| LiveAt(h', k, p);
      var b := h'[k];
      assert b in Large(h');
      assert b !in Large(h) by { NotLive(h, p, b); }
      OneNew(Large(h), Large(h'), b);
    }
  }

  lemma LargeKept(h: Heap, h': Heap)
    requires HeapRuns.LiveKept(h, h')
    ensures Large(h) <= Large(h') && |Large(h)| <= |Large(h')|
  {
    Frames.SubsetSize(Large(h), Large(h'));
  }

  lemma NotLive(h: Heap, p: nat, b: Block)
    requires !HeapBlocks.Live(h, p) && Payload(b) == p && !b.free
    ensures b !in h
  {
    if b in h {
      var j: nat :| j < |h| && h[j] == b;
      assert LiveAt(h, j, p);
    }
  }

  lemma OneNew(a: set<Block>, b: set<Block>, x: Block)
    requires a <= b && x in b && x !in a
    ensures |a| + 1 <= |b|
  {
    Frames.SubsetSize(a + {x}, b);
  }

  // Allocating a small block and giving it back changes no live block, and refuses no
  // request that was met before.
  lemma GaveBack(h: Heap, size: nat)
    requires Tiled(h) && size < 0x1_0000 && Alloc(h, size).1 != 0
    ensures var (h1, p) := Alloc(h, size); var h2 := FreeOf(h1, p);
            && Grew(h, h2, 0)
            && (forall b :: b in h2 && !b.free <==> b in h && !b.free)
            && (forall other: nat :: other < 0x1_0000_0000 && Malloc(h, other).1 != 0 ==> Malloc(h2, other).1 != 0)
  {
    var (h1, p) := Alloc(h, size);
    var h2 := FreeOf(h1, p);
    HeapRuns.MallocEffect(h, size);
    MallocTiled(h, size);
    var k: nat :| LiveAt(h1, k, p);
    FreeOfIs(h1, k, p);
    HeapRuns.FreeEffect(h1, k, p);
    FreeTiled(h1, k);
    forall b ensures b in h2 && !b.free <==> b in h && !b.free {
      if b in h && !b.free && Payload(b) == p { NotLive(h, p, b); }
    }
    LargeKept(h, h2);
    forall other: nat | other < 0x1_0000_0000 && Malloc(h, other).1 != 0 ensures Malloc(h2, other).1 != 0 {
      HeapRuns.MallocFreeNeverShrinks(h, size, other);
      FreeIs(h1, k, p);
    }
  }

  lemma FreeOfIs(h: Heap, k: nat, p: nat)
    requires Tiled(h) && LiveAt(h, k, p)
    ensures FreeOf(h, p) == FreeBlock(h, k)
  {
    var j := BlockOf(h, p, 0);
    BlockFoundAt(h, p, 0, k);
    LiveUnique(h, j, k, p);
  }

  lemma {:induction false} BlockFoundAt(h: Heap, p: nat, j: nat, k: nat)
    requires j <= k < |h| && LiveAt(h, k, p)
    ensures BlockOf(h, p, j) <= k
    decreases k - j
  {
    if !LiveAt(h, j, p) { BlockFoundAt(h, p, j + 1, k); }
  }

  // ------------------------------------------------------------------
  // Creations
  // ------------------------------------------------------------------

  lemma HeapNow(k: Kernel)
    requires KInv(k)
    ensures Tiled(k.heap) && k.nextPid > 0
  {
    assert Open(0);
  }

  // The heap a fork leaves.
  lemma ForkHeapIs(k: Kernel, fp: nat)
    requires |k.tasks| == MAX_TASKS && k.count <= MAX_TASKS && k.current < MAX_TASKS && k.nextPid > 0
    requires ForkUser(k, fp).Forked?
    ensures var f, (h1, copy) := ForkUser(k, fp), Alloc(k.heap, 0x100); var (h2, irq) := Alloc(h1, 0x2000);
            if f.pid != 0 then copy != 0 && irq != 0 && f.k.heap == h2
            else f.k.heap == k.heap || (copy != 0 && irq == 0 && f.k.heap == FreeOf(h2, copy))
  {
  }

  lemma ForkHeap(k: Kernel, fp: nat)
    requires KInv(k) && ForkUser(k, fp).Forked?
    ensures Grew(k.heap, ForkUser(k, fp).k.heap, if ForkUser(k, fp).pid != 0 then 1 else 0)
  {
    HeapNow(k);
    ForkHeapIs(k, fp);
    TwoAllocs(k.heap, 0x100, 0x2000);
  }

  lemma TwoAllocs(h: Heap, s1: nat, s2: nat)
    requires Tiled(h) && s1 < 0x1_0000 && s2 < 0x1_0000
    ensures var (h1, p1) := Alloc(h, s1); var (h2, p2) := Alloc(h1, s2);
            && Grew(h, h, 0) && Grew(h, h1, 0) && Grew(h, h2, if p2 != 0 && s2 >= 0x2000 then 1 else 0)
            && (p2 == 0 ==> h2 == h1) && (p1 != 0 && p2 == 0 ==> Grew(h, FreeOf(h2, p1), 0))
  {
    var (h1, p1) := Alloc(h, s1);
    AllocGrew(h, s1);
    AllocGrew(h1, s2);
    HeapRuns.MallocEffect(h1, s2);
    if p1 != 0 { GaveBack(h, s1); }
  }

  lemma CreateUserHeap(k: Kernel, entry: nat, c: nat)
    requires KInv(k)
    ensures Grew(k.heap, CreateUser(k, entry, c).0.heap, if CreateUser(k, entry, c).1 != 0 then 1 else 0)
  {
    HeapNow(k);
    TwoAllocs(k.heap, IRQ_STACK, USER_AREA);
    AllocGrew(k.heap, IRQ_STACK);
    AllocGrew(Alloc(k.heap, IRQ_STACK).0, USER_AREA);
  }

  lemma ThreadHeap(k: Kernel, fn: nat)
    requires KInv(k)
    ensures Grew(k.heap, CreateThread(k, fn).0.heap, if CreateThread(k, fn).1 != 0 then 1 else 0)
  {
    HeapNow(k);
    TwoAllocs(k.heap, TASK_STACK, IRQ_STACK);
  }

  lemma SpawnHeap(k: Kernel, img: Bytes)
    requires KInv(k) && Spawn(k, img).Spawned?
    ensures Grew(k.heap, Spawn(k, img).k.heap, if Spawn(k, img).pid != 0 then 1 else 0)
  {
    HeapNow(k);
    var s := CreateOf(k.vm);
    if s.ret != 0 {
      var r := LoadImage(s.vm, s.ret, img);
      if r.Loaded? {
        CreateUserVm(k, r.vm, EntryPoint(img), s.ret);
        CreateUserHeap(k, EntryPoint(img), s.ret);
      }
    }
  }

  // Process i is new.
  ghost predicate Gains(k: Kernel, k': Kernel) { exists i :: i in Procs(k') && i !in Procs(k) }

  predicate Creates(ev: Event) { ev.Fork? || ev.NewThread? || ev.NewProgram? }

  lemma OtherHeap(k: Kernel, ev: Event)
    requires KInv(k) && Enabled(k, ev) && TaskStep(k, ev).Go? && !Creates(ev)
    ensures TaskStep(k, ev).k.heap == k.heap && !Gains(k, TaskStep(k, ev).k)
  {
    StepIsIdeal(k, ev);
    if ev == Exit { ExitHeap(k); }
  }

  // Every step keeps the large blocks, and one that adds a process adds one.
  lemma StepHeap(k: Kernel, ev: Event)
    requires KInv(k) && Enabled(k, ev) && TaskStep(k, ev).Go?
    ensures Grew(k.heap, TaskStep(k, ev).k.heap, if Gains(k, TaskStep(k, ev).k) then 1 else 0)
  {
    if ev.Fork? {
      ForkStepHeap(k);
    } else if ev.NewThread? {
      CreateThreadOk(k, ev.fn);
      ThreadHeap(k, ev.fn);
    } else if ev.NewProgram? {
      SpawnOk(k, ev.img);
      SpawnHeap(k, ev.img);
    } else {
      HeapNow(k);
      OtherHeap(k, ev);
    }
  }

  lemma ForkStepHeap(k: Kernel)
    requires KInv(k) && TaskStep(k, Fork).Go?
    ensures Grew(k.heap, TaskStep(k, Fork).k.heap, if Gains(k, TaskStep(k, Fork).k) then 1 else 0)
  {
    EnterOk(k, SYSCALL);
    HeapNow(k);
    ForkStep(k);
    if k.tasks[k.current].user {
      ForkOk(k);
      ForkHeap(Enter(k, SYSCALL), FramePtr(k));
    }
  }

  // Exit gives nothing back to the heap.
  lemma ExitHeap(k: Kernel)
    requires KInv(k) && TaskStep(k, Exit).Go?
    ensures TaskStep(k, Exit).k.heap == k.heap
  {
  }

  // ------------------------------------------------------------------
  // Whole runs
  // ------------------------------------------------------------------

  // Steps among the first n that add a process.
  ghost function Created(t: Trace, n: nat): nat
    requires |t.states| == |t.events| + 1 && n <= |t.events|
  {
    if n == 0 then 0 else Created(t, n - 1) + if Gains(t.states[n - 1], t.states[n]) then 1 else 0
  }

  lemma {:induction false} CreatedHeap(t: Trace, n: nat)
    requires IsRun(t) && n <= |t.events|
    ensures Grew(t.states[0].heap, t.states[n].heap, Created(t, n))
    decreases n
  {
    RunKeepsInv(t, n);
    HeapNow(t.states[n]);
    if n > 0 {
      CreatedHeap(t, n - 1);
      RunKeepsInv(t, n - 1);
      assert IsStep(t.states[n - 1], t.events[n - 1], t.states[n]);
      StepTaken(t.states[n - 1], t.events[n - 1], t.states[n]);
      StepHeap(t.states[n - 1], t.events[n - 1]);
      GrewTwice(t.states[0].heap, t.states[n - 1].heap, t.states[n].heap, Created(t, n - 1),
                if Gains(t.states[n - 1], t.states[n]) then 1 else 0);
    }
  }

  // However many processes exit in between, a run creates at most 127: their stacks are
  // never given back.
  lemma CreationsAreFew(t: Trace, n: nat)
    requires IsRun(t) && n <= |t.events|
    ensures Created(t, n) <= 127
  {
    CreatedHeap(t, n);
    LargeAreFew(t.states[n].heap);
  }

  // ------------------------------------------------------------------
  // A fork that fails
  // ------------------------------------------------------------------

  // A fork that answers 0 has given back every frame, and its heap meets every request it
  // could meet before.
  lemma FailedForkGivesBack(k: Kernel, fp: nat)
    requires KInv(k) && k.tasks[k.current].user && ForkUser(k, fp).Forked? && ForkUser(k, fp).pid == 0
    ensures var k' := ForkUser(k, fp).k;
            && k'.vm.ft == k.vm.ft
            && (forall b :: b in k'.heap && !b.free <==> b in k.heap && !b.free)
            && (forall other: nat :: other < 0x1_0000_0000 && Malloc(k.heap, other).1 != 0 ==>
                                     Malloc(k'.heap, other).1 != 0)
  {
    HeapNow(k);
    FailedForkFrames(k, fp);
    ForkHeapIs(k, fp);
    HeapBack(k.heap);
  }

  lemma HeapBack(h: Heap)
    requires Tiled(h)
    ensures var (h1, copy) := Alloc(h, 0x100); var (h2, irq) := Alloc(h1, 0x2000);
            copy != 0 && irq == 0 ==>
              && (forall b :: b in FreeOf(h2, copy) && !b.free <==> b in h && !b.free)
              && (forall other: nat :: other < 0x1_0000_0000 && Malloc(h, other).1 != 0 ==>
                                       Malloc(FreeOf(h2, copy), other).1 != 0)
  {
    TwoAllocs(h, 0x100, 0x2000);
    if Alloc(h, 0x100).1 != 0 { GaveBack(h, 0x100); }
  }

  lemma FailedForkFrames(k: Kernel, fp: nat)
    requires KInv(k) && k.tasks[k.current].user && ForkUser(k, fp).Forked? && ForkUser(k, fp).pid == 0
    ensures ForkUser(k, fp).k.vm.ft == k.vm.ft
  {
    HeapNow(k);
    CurrentSpace(k);
    if ForkOf(k.vm, k.tasks[k.current].cr3).Done? { UndoneFork(k.vm, SpacesOf(k.tasks), k.tasks[k.current].cr3); }
  }

  // A thread that could not be created leaves the heap as it was exactly when it did not get
  // as far as its stack, which is otherwise lost.
  lemma FailedThreadIff(k: Kernel, fn: nat)
    requires KInv(k) && CreateThread(k, fn).1 == 0
    ensures CreateThread(k, fn).0.heap == k.heap <==> NewSlot(k) == MAX_TASKS || Alloc(k.heap, 0x4000).1 == 0
  {
    HeapNow(k);
    var (h1, stack) := Alloc(k.heap, 0x4000);
    TwoAllocs(k.heap, 0x4000, 0x2000);
    if stack != 0 { HeapRuns.MallocEffect(k.heap, 0x4000); }
  }

  // Forking a space and destroying the copy takes no frame.
  lemma UndoneFork(vm: Paging.Vm, spaces: set<nat>, c: nat)
    requires VmOk(vm, spaces) && c in spaces && (vm.cr3 in spaces || vm.cr3 == Paging.KERNEL_PD) && ForkOf(vm, c).Done?
    ensures var r := ForkOf(vm, c);
            && (r.ret == 0 ==> r.vm == vm)
            && (r.ret != 0 ==> DestroyOf(r.vm, r.ret).ft == vm.ft)
  {
    ForkSpaceOk(vm, spaces, c);
    var r := ForkOf(vm, c);
    if r.ret != 0 {
      SpaceNumbers(r.vm, spaces + {r.ret}, r.ret);
      DestroySpaceOk(r.vm, spaces + {r.ret}, r.ret);
      assert spaces + {r.ret} - {r.ret} == spaces;
      var vm' := DestroyOf(r.vm, r.ret);
      ForkedNames(vm, spaces, c);
      assert Peek(0);
      SpaceEntries.NamesDetermineFrames(vm.mem, vm.ft, vm'.mem, vm'.ft, spaces);
    }
  }

  // The old spaces name the same frames after a fork.
  lemma ForkedNames(vm: Paging.Vm, spaces: set<nat>, c: nat)
    requires VmOk(vm, spaces) && c in spaces && ForkOf(vm, c).Done? && ForkOf(vm, c).ret != 0
    ensures SpaceEntries.SameNames(vm.mem, ForkOf(vm, c).vm.mem, spaces)
  {
    assert Peek(0);
    PageOps.DirectoryOk(vm, spaces, c);
    SpaceOps.ForkAdds(vm, spaces, c);
    var r := ForkOf(vm, c);
    forall d, f: nat | d in spaces ensures AddressSpaces.Names(r.vm.mem, d, f) <==> AddressSpaces.Names(vm.mem, d, f) {
      SpaceOps.AddedNames(vm.mem, r.vm.mem, vm.ft, r.vm.ft, spaces, r.ret, AddressSpaces.PtOf(r.vm.mem, r.ret), d, f);
    }
  }
}
