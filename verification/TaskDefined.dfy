// When a step of the kernel is defined: it touches no memory that is not mapped as long as
// few frames are in use, forked stacks end clear of the heap's end, and images make sense.

module TaskDefined {
  import opened Tasks
  import opened SpaceCalls
  import opened ElfImages
  import opened ElfLoading
  import opened TaskFrames
  import opened TaskSpaces
  import opened TaskInv
  import opened TaskSwitch
  import opened TaskLife
  import opened TaskFork
  import opened TaskSpawn
  import opened TaskRuns
  import Frames
  import Paging
  import PageOps
  import SpaceEntries
  import CowRuns
  import CowRefinement
  import FrameAccounting
  import HeapBlocks
  import FatVolume

  // ------------------------------------------------------------------
  // Fork
  // ------------------------------------------------------------------

  // Fork copies FRAME_BYTES from the frame at the top of the parent's interrupt stack, so
  // it reads past the stack's end; this is past the end of the heap, and of mapped memory,
  // when the stack ends there.
  predicate StackEndsClear(t: Task) {
    t.irqTop + (FRAME_BYTES - USER_FRAME) <= HeapBlocks.HEAP_END
  }

  // Fork touches unmapped memory exactly when it reaches the copy of the frame with a stack
  // too close to the end of the heap, or the two frames of the child's tables lie in the
  // user window.
  lemma ForkAstrayIff(k: Kernel)
    requires KInv(k) && k.tasks[k.current].user
    ensures var me, s := k.tasks[k.current], ForkOf(k.vm, k.tasks[k.current].cr3);
            ForkUser(Enter(k, SYSCALL), FramePtr(k)) == ForkAstray
            <==> NewSlot(k) < MAX_TASKS
                 && (s.Wild? || (s.ret != 0 && Alloc(k.heap, FRAME_BYTES).1 != 0 && !StackEndsClear(me)))
  {
    assert Open(0);
    assert LiveUser(k.tasks, k.current);
  }

  lemma SpaceInv(k: Kernel)
    requires KInv(k)
    ensures CowRuns.StateInv(CowRuns.State(k.vm, SpacesOf(k.tasks)))
  {
    CurrentSpace(k);
    assert Peek(0);
  }

  // At most 206 frames in use, so that two more stay below the user window.
  ghost predicate FewFrames(vm: Paging.Vm) {
    Frames.Sized(vm.ft) && |FrameAccounting.InUse(vm.ft)| + 2 <= FrameAccounting.LOW_FRAMES
  }

  ghost predicate LowFrames(vm: Paging.Vm) { Frames.Sized(vm.ft) && FrameAccounting.Low(vm.ft) }

  // A fork with few frames in use and a clear stack is defined.
  lemma ForkDefined(k: Kernel)
    requires KInv(k) && k.tasks[k.current].user && LowFrames(k.vm) && FewFrames(k.vm)
    requires StackEndsClear(k.tasks[k.current])
    ensures ForkUser(Enter(k, SYSCALL), FramePtr(k)).Forked?
  {
    CurrentSpace(k);
    SpaceInv(k);
    ForkSpaceDone(k.vm, SpacesOf(k.tasks), k.tasks[k.current].cr3);
    ForkAstrayIff(k);
  }

  lemma ForkSpaceDone(vm: Paging.Vm, spaces: set<nat>, c: nat)
    requires CowRuns.StateInv(CowRuns.State(vm, spaces)) && c in spaces && LowFrames(vm) && FewFrames(vm)
    ensures !ForkOf(vm, c).Wild?
  {
    PageOps.DirectoryOk(vm, spaces, c);
    FrameAccounting.NotWild(CowRuns.State(vm, spaces), CowRuns.ForkSpace(c));
  }

  // With few frames in use, no step but the loading of a malformed image, or a fork from a
  // stack at the very end of the heap, touches unmapped memory.
  lemma StepDefined(k: Kernel, ev: Event)
    requires KInv(k) && Enabled(k, ev) && LowFrames(k.vm) && FewFrames(k.vm)
    requires ev.Fork? && k.tasks[k.current].user ==> StackEndsClear(k.tasks[k.current])
    requires ev.NewProgram? ==> ImageOk(ev.img)
    ensures TaskStep(k, ev).Go? || TaskStep(k, ev).Halted?
  {
    match ev
    case Compute(_) =>
    case Scribble(_) =>
    case NewThread(_) =>
    case Tick => TickOk(k);
    case Sleep => SleepOk(k);
    case Exit => ExitOk(k);
    case Access(a) =>
      SpaceInv(k);
      FrameAccounting.NotWild(CowRuns.State(k.vm, SpacesOf(k.tasks)), a);
    case Fork =>
      if k.tasks[k.current].user {
        ForkDefined(k);
        ForkOk(k);
      }
    case NewProgram(img) =>
      SpaceInv(k);
      FrameAccounting.NotWild(CowRuns.State(k.vm, SpacesOf(k.tasks)), CowRuns.CreateSpace);
      CurrentSpace(k);
      CreateWild(k.vm, SpacesOf(k.tasks));
      SpawnAstrayIff(k, img);
  }

  // ------------------------------------------------------------------
  // Frames stay low
  // ------------------------------------------------------------------

  // As long as at most 208 frames are in use they all lie below the user window.
  ghost predicate LowWhileFew(vm: Paging.Vm) {
    Frames.Sized(vm.ft) && (|FrameAccounting.InUse(vm.ft)| <= FrameAccounting.LOW_FRAMES ==> FrameAccounting.Low(vm.ft))
  }

  lemma MapLowWhileFew(vm: Paging.Vm, spaces: set<nat>, c: nat, a: nat, n: nat)
    requires Fit(vm, spaces, c) && LowWhileFew(vm)
    ensures LowWhileFew(MapOf(vm, c, a, n).0)
  {
    assert Peek(0);
    var vm' := MapOf(vm, c, a, n).0;
    PageOps.DirectoryOk(vm, spaces, c);
    FrameAccounting.MapRegionGrows(vm, c, a, n);
    if |FrameAccounting.InUse(vm'.ft)| <= FrameAccounting.LOW_FRAMES {
      FrameAccounting.MapLow(vm, spaces, c, a, n);
    }
  }

  lemma {:induction false} PutBytesFrames(vm: Paging.Vm, a: nat, bytes: Bytes)
    requires PutBytes(vm, a, bytes).Filled?
    ensures PutBytes(vm, a, bytes).vm.ft == vm.ft
    decreases |bytes|
  {
    if |bytes| > 0 { PutBytesFrames(StoreByte(vm, a, bytes[0]), a + 1, bytes[1..]); }
  }

  lemma FillFrames(vm: Paging.Vm, a: nat, file: Bytes, n: nat, r: Loading)
    requires r == FillSegment(vm, a, file, n) && r.Loaded?
    ensures r.vm.ft == vm.ft
  {
    PutBytesFrames(vm, a, file);
    if n > |file| {
      var vm1, b, zeros := PutBytes(vm, a, file).vm, a + |file|, FatVolume.Zeros(n - |file|);
      PutBytesFrames(vm1, b, zeros);
    }
  }

  lemma SegmentLow(vm: Paging.Vm, spaces: set<nat>, c: nat, img: Bytes, s: Segment, r: Loading)
    requires Fit(vm, spaces, c) && LowWhileFew(vm) && SegmentTo(vm, c, img, s, r) && !r.Stray?
    ensures LowWhileFew(r.vm)
  {
    var vm1, file := SegmentCases(vm, c, img, s, r);
    MapLowWhileFew(vm, spaces, c, s.vaddr, s.memsz);
    if r.Loaded? { FillFrames(vm1, s.vaddr, file, s.memsz, r); }
  }

  lemma StepLow(vm: Paging.Vm, spaces: set<nat>, c: nat, img: Bytes, i: nat, r: Loading)
    returns (on: bool, vm': Paging.Vm)
    requires Fit(vm, spaces, c) && LowWhileFew(vm)
    requires |img| >= HEADER && i < Count(img) && LoadsTo(vm, c, img, i, r) && !r.Stray?
    ensures if on then LoadsTo(vm', c, img, i + 1, r) && Fit(vm', spaces, c) && LowWhileFew(vm') else LowWhileFew(r.vm)
  {
    var load, r1 := SegmentsStep(vm, c, img, i, r);
    if !load {
      on, vm' := true, vm;
    } else {
      LoadSegmentKeeps(vm, spaces, c, img, SegmentOf(img, i), r1);
      SegmentLow(vm, spaces, c, img, SegmentOf(img, i), r1);
      on, vm' := r1.Loaded?, r1.vm;
      ReachedFit(vm, vm', spaces, c);
    }
  }

  lemma {:induction false} SegmentsLow(vm: Paging.Vm, spaces: set<nat>, c: nat, img: Bytes, i: nat, r: Loading)
    requires Fit(vm, spaces, c) && LowWhileFew(vm)
    requires |img| >= HEADER && i <= Count(img) && LoadsTo(vm, c, img, i, r) && !r.Stray?
    ensures LowWhileFew(r.vm)
    decreases Count(img) - i
  {
    if i == Count(img) {
      LoadsAll(vm, c, img, r);
    } else {
      var on, vm1 := StepLow(vm, spaces, c, img, i, r);
      if on { SegmentsLow(vm1, spaces, c, img, i + 1, r); }
    }
  }

  lemma ImageLow(vm: Paging.Vm, spaces: set<nat>, c: nat, img: Bytes)
    requires VmOk(vm, spaces) && c in spaces && SpaceEntries.AllWritable(vm.mem, c) && LowWhileFew(vm)
    requires !LoadImage(vm, c, img).Stray?
    ensures LowWhileFew(LoadImage(vm, c, img).vm)
  {
    LoadSpace(vm, spaces, c);
    var vm0 := LoadOf(vm, c);
    assert Fit(vm0, spaces, c);
    var r := LoadElf(vm0, c, img);
    LoadElfKeeps(vm0, spaces, c, img);
    ReachedFit(vm0, r.vm, spaces, c);
    if HeaderOk(img) {
      assert LoadsTo(vm0, c, img, 0, r);
      SegmentsLow(vm0, spaces, c, img, 0, r);
    }
    MapLowWhileFew(r.vm, spaces, c, USER_STACK_TOP - 0x2000, 0x2000);
  }

  // ------------------------------------------------------------------
  // Steps and runs
  // ------------------------------------------------------------------

  // A successful spawn leaves the memory its loader left, with CR3 put back.
  lemma SpawnVm(k: Kernel, img: Bytes)
    requires |k.tasks| == MAX_TASKS && k.count <= MAX_TASKS && Spawn(k, img).Spawned? && Spawn(k, img).pid != 0
    ensures var s := CreateOf(k.vm);
            && s.Done? && s.ret != 0 && LoadImage(s.vm, s.ret, img).Loaded?
            && Spawn(k, img).k.vm == LoadOf(LoadImage(s.vm, s.ret, img).vm, k.vm.cr3)
  {
    var s := CreateOf(k.vm);
    var r := LoadImage(s.vm, s.ret, img);
    if r.Loaded? { CreateUserVm(k, r.vm, EntryPoint(img), s.ret); }
  }

  lemma LoadedLow(vm: Paging.Vm, spaces: set<nat>, img: Bytes)
    requires VmOk(vm, spaces) && vm.cr3 in spaces + {Paging.KERNEL_PD} && LowFrames(vm) && FewFrames(vm)
    requires var s := CreateOf(vm); s.Done? && s.ret != 0 && LoadImage(s.vm, s.ret, img).Loaded?
    ensures LowWhileFew(LoadImage(CreateOf(vm).vm, CreateOf(vm).ret, img).vm)
  {
    var s := CreateOf(vm);
    assert Peek(0);
    CreateSpaceOk(vm, spaces);
    FrameAccounting.CreateLow(vm, spaces);
    ImageLow(s.vm, spaces + {s.ret}, s.ret, img);
  }

  lemma SpawnLow(k: Kernel, img: Bytes)
    requires KInv(k) && Enabled(k, NewProgram(img)) && Spawn(k, img).Spawned? && LowFrames(k.vm) && FewFrames(k.vm)
    ensures LowWhileFew(Spawn(k, img).k.vm)
  {
    SpawnOk(k, img);
    if Spawn(k, img).pid != 0 {
      SpawnVm(k, img);
      CurrentSpace(k);
      LoadedLow(k.vm, SpacesOf(k.tasks), img);
    }
  }

  lemma ForkUserLow(k: Kernel, fp: nat)
    requires KInv(k) && k.tasks[k.current].user && ForkUser(k, fp).Forked? && LowFrames(k.vm) && FewFrames(k.vm)
    ensures LowFrames(ForkUser(k, fp).k.vm)
  {
    var c, spaces := k.tasks[k.current].cr3, SpacesOf(k.tasks);
    var s := ForkOf(k.vm, c);
    CurrentSpace(k);
    SpaceInv(k);
    if NewSlot(k) < MAX_TASKS {
      PageOps.DirectoryOk(k.vm, spaces, c);
      FrameAccounting.ForkLow(k.vm, spaces, c);
      ForkSpaceOk(k.vm, spaces, c);
      if s.ret != 0 { DestroyOfLow(s.vm, spaces + {s.ret}, s.ret); }
    }
  }

  lemma DestroyOfLow(vm: Paging.Vm, spaces: set<nat>, c: nat)
    requires VmOk(vm, spaces) && c in spaces && LowFrames(vm)
    ensures LowFrames(DestroyOf(vm, c))
  {
    assert Peek(0);
    PageOps.DirectoryOk(vm, spaces, c);
    FrameAccounting.DestroyLow(vm, spaces, c);
  }

  lemma ExitLow(k: Kernel)
    requires KInv(k) && ExitBody(k).Go? && LowFrames(k.vm)
    ensures LowFrames(ExitBody(k).k.vm)
  {
    LiveBelow(k);
    NoZombie(k);
    ExitPick(k.tasks, k.count, k.current);
    var n := NextReady(k.tasks[k.current := Gone(k.tasks[k.current])], k.count, k.current, 1, k.count - 1);
    var me := k.tasks[k.current];
    LeftVm(k, n);
    ExitGoes(k, n);
    CurrentSpace(k);
    SpaceOfLive(k, n);
    LoadSpace(k.vm, SpacesOf(k.tasks), SpaceFor(k.tasks[n]));
    if me.user { DestroyOfLow(LoadOf(k.vm, SpaceFor(k.tasks[n])), SpacesOf(k.tasks), me.cr3); }
  }

  // A step that ends with at most 208 frames in use leaves them all below the window.
  lemma StepKeepsLow(k: Kernel, ev: Event)
    requires KInv(k) && Enabled(k, ev) && TaskStep(k, ev).Go? && LowFrames(k.vm) && FewFrames(k.vm)
    ensures LowWhileFew(TaskStep(k, ev).k.vm)
  {
    match ev
    case Compute(_) =>
    case Scribble(_) =>
    case NewThread(_) =>
    case Tick =>
    case Sleep =>
    case Exit =>
      EnterOk(k, SYSCALL);
      ExitLow(Enter(k, SYSCALL));
    case Access(a) =>
      SpaceInv(k);
      AccessLow(k, a);
    case Fork =>
      EnterOk(k, SYSCALL);
      if k.tasks[k.current].user { ForkUserLow(Enter(k, SYSCALL), FramePtr(k)); }
    case NewProgram(img) => SpawnLow(k, img);
  }

  lemma AccessLow(k: Kernel, a: CowRuns.Event)
    requires KInv(k) && Enabled(k, Access(a)) && TaskStep(k, Access(a)).Go? && LowFrames(k.vm) && FewFrames(k.vm)
    ensures LowWhileFew(TaskStep(k, Access(a)).k.vm)
  {
    SpaceInv(k);
    var st := CowRuns.State(k.vm, SpacesOf(k.tasks));
    CowRefinement.StepRefines(st, a);
    var ft := CowRuns.Step(st, a).st.vm.ft;
    if |FrameAccounting.InUse(ft)| <= FrameAccounting.LOW_FRAMES { FrameAccounting.StepLow(st, a); }
  }

  lemma {:induction false} SmallRunsStayLow(t: Trace, n: nat)
    requires IsRun(t) && n <= |t.events| && LowFrames(t.states[0].vm)
    requires forall j :: 0 <= j <= n ==> FewFrames(t.states[j].vm)
    ensures KInv(t.states[n]) && LowFrames(t.states[n].vm)
  {
    RunKeepsInv(t, n);
    if n > 0 {
      SmallRunsStayLow(t, n - 1);
      assert IsStep(t.states[n - 1], t.events[n - 1], t.states[n]);
      StepTaken(t.states[n - 1], t.events[n - 1], t.states[n]);
      StepKeepsLow(t.states[n - 1], t.events[n - 1]);
    }
  }

  // In a run that never has more than 206 frames in use, every step that is enabled is
  // defined, but for a fork from a stack at the very end of the heap and a malformed image.
  lemma SmallRunsDefined(t: Trace, n: nat, ev: Event)
    requires IsRun(t) && n <= |t.events| && LowFrames(t.states[0].vm)
    requires forall j :: 0 <= j <= n ==> FewFrames(t.states[j].vm)
    requires KInv(t.states[n]) && Enabled(t.states[n], ev) && (ev.NewProgram? ==> ImageOk(ev.img))
    requires var k := t.states[n]; ev.Fork? && k.tasks[k.current].user ==> StackEndsClear(k.tasks[k.current])
    ensures TaskStep(t.states[n], ev).Go? || TaskStep(t.states[n], ev).Halted?
  {
    SmallRunsStayLow(t, n);
    StepDefined(t.states[n], ev);
  }

  // The condition does fail: a stack allocated in a last block of its own size ends where
  // the heap does.
  lemma LastBlockStack(h: Heap)
    requires HeapBlocks.Tiled(h) && h[|h| - 1].free && h[|h| - 1].size == IRQ_STACK
    requires forall i :: 0 <= i < |h| - 1 && h[i].free ==> h[i].size < IRQ_STACK
    ensures Alloc(h, IRQ_STACK).1 != 0 && forall t: Task :: t.irqTop == Alloc(h, IRQ_STACK).1 + IRQ_STACK ==>
            !StackEndsClear(t)
  {
    var k := HeapBlocks.FirstFit(h, IRQ_STACK, 0);
    assert HeapBlocks.Rounded(IRQ_STACK) == IRQ_STACK;
    LastFits(h, 0);
    assert k == |h| - 1;
  }

  lemma {:induction false} LastFits(h: Heap, i: nat)
    requires i < |h| && h[|h| - 1].free && h[|h| - 1].size == IRQ_STACK
    requires forall j :: 0 <= j < |h| - 1 && h[j].free ==> h[j].size < IRQ_STACK
    ensures HeapBlocks.FirstFit(h, IRQ_STACK, i) == |h| - 1
    decreases |h| - i
  {
    if i < |h| - 1 { LastFits(h, i + 1); }
  }
}
