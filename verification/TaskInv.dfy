// What holds of the scheduler whenever a task is running: one live address space per
// user process, CR3, esp0 and `current` in agreement, and memory areas that never overlap.

module TaskInv {
  import opened Tasks
  import opened TaskFrames
  import opened TaskStacks
  import opened TaskSpaces
  import HeapBlocks
  import Paging
  import CowRuns

  predicate Live(tasks: seq<Task>, i: nat) { i < |tasks| && tasks[i].ready }

  predicate LiveUser(tasks: seq<Task>, i: nat) { Live(tasks, i) && tasks[i].user }

  ghost predicate TableOk(k: Kernel) {
    && |k.tasks| == MAX_TASKS && 0 < k.count <= MAX_TASKS && k.current < k.count && k.zombie == 0 && k.nextPid > 0
    && Live(k.tasks, k.current)
    && (forall i: nat :: Live(k.tasks, i) ==> i < k.count)
    && (forall i: nat :: LiveUser(k.tasks, i) ==> k.tasks[i].irqTop >= IRQ_STACK)
  }

  // Directories of the live user processes.
  ghost function SpacesOf(tasks: seq<Task>): set<nat> {
    set i | 0 <= i < |tasks| && LiveUser(tasks, i) :: tasks[i].cr3
  }

  // No two processes share a directory.
  ghost predicate OwnSpaces(tasks: seq<Task>) {
    forall i: nat, j: nat :: LiveUser(tasks, i) && LiveUser(tasks, j) && tasks[i].cr3 == tasks[j].cr3 ==> i == j
  }

  // The directory a task runs on.
  function SpaceFor(t: Task): nat { if t.user then t.cr3 else Paging.KERNEL_PD }

  // CR3, esp0, the privilege level and the stack pointer are those of the running task.
  ghost predicate RunsOn(k: Kernel)
    requires k.current < |k.tasks|
  {
    var t := k.tasks[k.current];
    && k.vm.cr3 == SpaceFor(t)
    && (t.user ==> k.esp0 == t.irqTop)
    && CtxFits(k, t, k.cpu)
  }

  // Registers task t can run with: a thread's stack pointer has room for a frame.
  predicate CtxFits(k: Kernel, t: Task, c: Ctx) {
    && (Ring3(c.cs) <==> t.user) && CtxOk(c)
    && (!t.user ==> StackOf(k, t).lo + KERNEL_FRAME <= c.esp <= StackOf(k, t).hi)
  }

  ghost predicate HeapOk(k: Kernel) {
    HeapBlocks.Tiled(k.heap) && |k.ram| == RAM_SIZE && k.bootLo < k.bootHi <= HeapBlocks.HEAP_START
  }

  ghost predicate AreasPlaced(k: Kernel) {
    forall i: nat, s :: Live(k.tasks, i) && s in Areas(k, i) ==> Placed(k, s)
  }

  ghost predicate AreasApart(k: Kernel) {
    forall i: nat, j: nat, s, u ::
      Live(k.tasks, i) && Live(k.tasks, j) && i != j && s in Areas(k, i) && u in Areas(k, j) ==> Apart(s, u)
  }

  // A parked frame is one its task can resume from.
  ghost predicate FrameOk(k: Kernel, i: nat)
    requires i < |k.tasks|
  {
    && FrameFits(k.ram, k.tasks[i].esp)
    && (Ring3(k.ram[k.tasks[i].esp + 60]) <==> k.tasks[i].user)
    && (!k.tasks[i].user ==> Within(FrameSpan(k.tasks[i]), StackOf(k, k.tasks[i])))
  }

  ghost predicate FramesOk(k: Kernel) {
    forall i: nat :: Live(k.tasks, i) && i != k.current ==> FrameOk(k, i)
  }

  ghost predicate KParts(k: Kernel) {
    && TableOk(k) && OwnSpaces(k.tasks) && VmOk(k.vm, SpacesOf(k.tasks))
    && RunsOn(k) && HeapOk(k) && AreasPlaced(k) && AreasApart(k) && FramesOk(k)
  }

  // The invariant. Its parts sit behind the trigger Open, so that a proof unfolds them
  // only where it mentions Open.
  ghost predicate KInv(k: Kernel) {
    && |k.tasks| == MAX_TASKS && k.current < k.count <= MAX_TASKS && k.tasks[k.current].ready
    && forall n: nat {:trigger Open(n)} :: Open(n) ==> KParts(k)
  }

  ghost predicate Open(n: nat) { true }

  // ------------------------------------------------------------------
  // Processes: registers and memory
  // ------------------------------------------------------------------

  ghost function CtxOf(k: Kernel, i: nat): Ctx
    requires i < |k.tasks|
  {
    if i == k.current then k.cpu else Load(k.ram, k.tasks[i].esp)
  }

  datatype Proc = Proc(ctx: Ctx, pages: CowRuns.PageMap)

  ghost function ProcOf(k: Kernel, i: nat): Proc
    requires i < |k.tasks|
  {
    Proc(CtxOf(k, i), if k.tasks[i].user then PagesOf(k.vm, k.tasks[i].cr3) else map[])
  }

  // What the kernel implements: a process per live slot.
  ghost function Procs(k: Kernel): map<nat, Proc> {
    map i: nat | i < |k.tasks| && Live(k.tasks, i) :: ProcOf(k, i)
  }

  // ------------------------------------------------------------------
  // Memory
  // ------------------------------------------------------------------

  // Writing inside one task's stack leaves every other task's frame alone.
  lemma OthersKept(k: Kernel, ram': Ram, w: Span, i: nat)
    requires KInv(k) && Live(k.tasks, i) && i != k.current && |ram'| == |k.ram|
    requires Within(w, StackOf(k, k.tasks[k.current]))
    requires forall a: nat :: a < |k.ram| && !(w.lo <= a < w.hi) ==> ram'[a] == k.ram[a]
    ensures Load(ram', k.tasks[i].esp) == Load(k.ram, k.tasks[i].esp) && FrameFits(ram', k.tasks[i].esp)
    ensures ram'[k.tasks[i].esp + 60] == k.ram[k.tasks[i].esp + 60]
  {
    assert Open(0);
    assert FrameOk(k, i);
    var f := FrameSpan(k.tasks[i]);
    assert f in Areas(k, i) && StackOf(k, k.tasks[k.current]) in Areas(k, k.current);
    assert Apart(f, StackOf(k, k.tasks[k.current]));
    assert Kept(k.ram, ram', f.lo, f.hi);
    LoadKept(k.ram, ram', k.tasks[i].esp);
  }

  // Only words of the running task's stack may differ.
  ghost predicate OwnStackOnly(k: Kernel, ram': Ram)
    requires k.current < |k.tasks|
  {
    var s := StackOf(k, k.tasks[k.current]);
    |ram'| == |k.ram| && forall a: nat :: a < |k.ram| && !(s.lo <= a < s.hi) ==> ram'[a] == k.ram[a]
  }

  // The running task may do what it likes with its own stack.
  lemma StackWrite(k: Kernel, ram': Ram)
    requires KInv(k) && OwnStackOnly(k, ram')
    ensures KInv(k.(ram := ram')) && Procs(k.(ram := ram')) == Procs(k)
  {
    assert Open(0);
    var k' := k.(ram := ram');
    forall i: nat | Live(k.tasks, i) && i != k.current
      ensures FrameOk(k', i) && Load(ram', k.tasks[i].esp) == Load(k.ram, k.tasks[i].esp)
    {
      assert FrameOk(k, i);
      OthersKept(k, ram', StackOf(k, k.tasks[k.current]), i);
    }
    SameAreas(k, k');
    forall i: nat | Live(k.tasks, i) ensures ProcOf(k', i) == ProcOf(k, i) { }
    assert Procs(k') == Procs(k);
  }

  // A state with the same table, heap and boot stack has the same areas.
  lemma SameAreas(k: Kernel, k': Kernel)
    requires k'.tasks == k.tasks && k'.current == k.current && k'.heap == k.heap && k'.bootLo == k.bootLo
    requires k'.bootHi == k.bootHi
    requires AreasPlaced(k) && AreasApart(k)
    ensures AreasPlaced(k') && AreasApart(k')
  {
    forall i: nat, s | Live(k'.tasks, i) && s in Areas(k', i) ensures Placed(k', s) {
      assert s in Areas(k, i) && Placed(k, s);
    }
    forall i: nat, j: nat, s, u | Live(k'.tasks, i) && Live(k'.tasks, j) && i != j && s in Areas(k', i) &&
        u in Areas(k', j) ensures Apart(s, u)
    {
      assert s in Areas(k, i) && u in Areas(k, j);
    }
  }

  // Other registers for the running task, on the same stack.
  lemma Computes(k: Kernel, c: Ctx)
    requires KInv(k) && CtxFits(k, k.tasks[k.current], c)
    ensures KInv(k.(cpu := c))
    ensures Procs(k.(cpu := c)) == Procs(k)[k.current := Procs(k)[k.current].(ctx := c)]
  {
    assert Open(0);
    var k' := k.(cpu := c);
    SameAreas(k, k');
    forall i: nat | Live(k.tasks, i) && i != k.current ensures FrameOk(k', i) { assert FrameOk(k, i); }
  }

  // ------------------------------------------------------------------
  // Interrupt entry
  // ------------------------------------------------------------------

  // The frame goes to the running task's own stack, and popping it gives the registers back.
  lemma EnterOk(k: Kernel, vec: nat)
    requires KInv(k)
    ensures var k1, fp, t := Enter(k, vec), FramePtr(k), k.tasks[k.current];
            && KInv(k1) && Procs(k1) == Procs(k) && k1 == k.(ram := k1.ram)
            && FrameFits(k1.ram, fp) && Load(k1.ram, fp) == k.cpu && (Ring3(k1.ram[fp + 60]) <==> t.user)
            && Within(Span(fp, fp + if t.user then USER_FRAME else KERNEL_FRAME), StackOf(k, t))
            && Leave(k1, fp) == Go(k1)
  {
    assert Open(0);
    var t, fp, w := k.tasks[k.current], FramePtr(k), Words(k.cpu, vec, 0, 0);
    var s := StackOf(k, t);
    assert s in Areas(k, k.current) && Placed(k, s);
    StackInRam(k, s);
    PushPop(k.ram, k.cpu, k.esp0, vec, 0, 0);
    var ram' := Put(k.ram, fp, w);
    forall a: nat | a < |k.ram| && !(s.lo <= a < s.hi) ensures ram'[a] == k.ram[a] { PutAt(k.ram, fp, w, a); }
    StackWrite(k, ram');
    assert Load(ram', fp).cs == ram'[fp + 60];
  }

  // Placed areas lie in RAM with a frame's slack.
  lemma StackInRam(k: Kernel, s: Span)
    requires HeapOk(k) && Placed(k, s)
    ensures s.hi + FRAME_BYTES <= |k.ram|
  {
    if !(s.hi <= k.bootHi) {
      var b :| b in k.heap && Holds(b, s);
      var j :| 0 <= j < |k.heap| && k.heap[j] == b;
      HeapBlocks.InArena(k.heap, j);
    }
  }
}
