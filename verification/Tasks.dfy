// The scheduler's state and what each entry point of kernel/sched.c does to it.

module Tasks {
  import opened Paging
  import opened SpaceCalls
  import opened ElfImages
  import opened TaskFrames
  import HeapBlocks

  const MAX_TASKS: nat := 16
  const TASK_STACK: nat := 0x4000
  const IRQ_STACK: nat := 0x2000
  const USER_AREA: nat := 0x1000
  const FRAME_BYTES: nat := 0x100
  const SLICE: nat := 5
  const RAM_SIZE: nat := 0x40_0100       // identity-mapped memory and one frame's slack
  const USER_CS: nat := 0x1B
  const USER_SS: nat := 0x23
  const KERNEL_CS: nat := 0x08
  const IRQ0: nat := 32
  const SYSCALL: nat := 128
  const ERROR: nat := 0xFFFF_FFFF

  type Heap = seq<HeapBlocks.Block>

  // One slot of the task table; cr3 is a frame number.
  datatype Task = Task(pid: nat, ready: bool, user: bool, esp: nat, stackBottom: nat, irqTop: nat, cr3: nat, slice: nat)

  const EmptySlot := Task(0, false, false, 0, 0, 0, 0, 0)

  // The boot thread's stack is [bootLo, bootHi), fixed when the kernel is linked.
  datatype Kernel = Kernel(tasks: seq<Task>, count: nat, current: nat, nextPid: nat, zombie: nat, esp0: nat,
                           vm: Vm, heap: Heap, ram: Ram, cpu: Ctx, bootLo: nat, bootHi: nat)

  // Halted: no task is left. Astray: the kernel touched memory that is not mapped.
  datatype Result = Go(k: Kernel) | Halted | Astray

  // ------------------------------------------------------------------
  // The heap
  // ------------------------------------------------------------------

  // The live block with payload ptr at or after k.
  function BlockOf(h: Heap, ptr: nat, k: nat): (r: nat)
    requires k <= |h|
    ensures k <= r <= |h| && (r < |h| ==> HeapBlocks.LiveAt(h, r, ptr))
    decreases |h| - k
  {
    if k == |h| || HeapBlocks.LiveAt(h, k, ptr) then k else BlockOf(h, ptr, k + 1)
  }

  function FreeOf(h: Heap, ptr: nat): Heap {
    var k := BlockOf(h, ptr, 0);
    if k < |h| then HeapBlocks.FreeBlock(h, k) else h
  }

  // ------------------------------------------------------------------
  // Interrupt entry and return
  // ------------------------------------------------------------------

  function FramePtr(k: Kernel): nat {
    var top := FrameTop(k.cpu, k.esp0);
    if top >= FrameSize(k.cpu.cs) then top - FrameSize(k.cpu.cs) else 0
  }

  // The processor and the stub push the frame.
  function Enter(k: Kernel, vec: nat): Kernel {
    k.(ram := Put(k.ram, FramePtr(k), Words(k.cpu, vec, 0, 0)))
  }

  // Popping the frame at fp resumes the interrupted context.
  function Leave(k: Kernel, fp: nat): Result {
    Go(k.(cpu := Load(k.ram, fp)))
  }

  // ------------------------------------------------------------------
  // Switching
  // ------------------------------------------------------------------

  function SetSlot(k: Kernel, i: nat, t: Task): (r: Kernel)
    requires i < |k.tasks|
    ensures |r.tasks| == |k.tasks|
  {
    k.(tasks := k.tasks[i := t])
  }

  // switch_to: park the frame at fp in the running slot and resume slot `next`.
  function SwitchTo(k: Kernel, fp: nat, next: nat): Result
    requires |k.tasks| == MAX_TASKS && k.current < MAX_TASKS
  {
    if next >= MAX_TASKS || !k.tasks[next].ready then Leave(k, fp)
    else
      var leaving, n := k.tasks[k.current], k.tasks[next];
      var vm := if leaving.user || n.user then LoadOf(k.vm, if n.user then n.cr3 else KERNEL_PD) else k.vm;
      var tasks := k.tasks[k.current := leaving.(esp := fp)];
      var k1 := k.(vm := vm, tasks := tasks, esp0 := if n.irqTop != 0 then n.irqTop else k.esp0, current := next);
      Leave(k1, tasks[next].esp)
  }

  // The first ready slot among those i, i + 1, ... steps after `from`; MAX_TASKS if none
  // within `last` steps.
  function NextReady(tasks: seq<Task>, count: nat, from: nat, i: nat, last: nat): (r: nat)
    requires 0 < count <= |tasks| == MAX_TASKS
    ensures r < count || r == MAX_TASKS
    ensures r < count ==> tasks[r].ready
    decreases last + 1 - i
  {
    if i > last then MAX_TASKS
    else if tasks[(from + i) % count].ready then (from + i) % count
    else NextReady(tasks, count, from, i + 1, last)
  }

  // sched_tick, with the interrupt's frame at fp.
  function TickBody(k: Kernel, fp: nat): Result
    requires |k.tasks| == MAX_TASKS && k.current < MAX_TASKS && k.count <= MAX_TASKS
  {
    if k.count < 2 || k.current >= k.count then Leave(k, fp)
    else if k.tasks[k.current].slice > 0 then
      Leave(SetSlot(k, k.current, k.tasks[k.current].(slice := k.tasks[k.current].slice - 1)), fp)
    else
      var n := NextReady(k.tasks, k.count, k.current, 1, k.count);
      if n == MAX_TASKS then Leave(k, fp)
      else
        var k1 := SetSlot(k, k.current, k.tasks[k.current].(esp := fp, slice := SLICE));
        var k2 := SetSlot(k1, n, k1.tasks[n].(slice := SLICE));
        SwitchTo(k2, fp, n)
  }

  // ------------------------------------------------------------------
  // Exit
  // ------------------------------------------------------------------

  // reap_zombies
  function Reap(k: Kernel): Kernel {
    if k.zombie != 0 then k.(vm := DestroyOf(k.vm, k.zombie), zombie := 0) else k
  }

  // sched_exit_current: park the address space and pick another task.
  function ExitBody(k: Kernel): Result
    requires |k.tasks| == MAX_TASKS && 0 < k.count <= MAX_TASKS && k.current < MAX_TASKS
  {
    var me := k.tasks[k.current];
    var park := me.user && me.cr3 != 0;
    var k1 := SetSlot(k, k.current, me.(ready := false, cr3 := if park then 0 else me.cr3))
              .(zombie := if park then me.cr3 else k.zombie);
    var n := if k.count > 1 then NextReady(k1.tasks, k.count, k.current, 1, k.count - 1) else MAX_TASKS;
    if n == MAX_TASKS then Halted else ExitTo(k1, n)
  }

  // CR3 and esp0 move to slot n, the parked space is released, and only then is the slot
  // adopted.
  function ExitTo(k: Kernel, n: nat): Result
    requires n < |k.tasks|
  {
    var next := k.tasks[n];
    var k1 := SetSlot(k, n, next.(slice := SLICE))
              .(vm := LoadOf(k.vm, if next.user then next.cr3 else KERNEL_PD),
                esp0 := if next.irqTop != 0 then next.irqTop else k.esp0);
    Leave(Reap(k1).(current := n), next.esp)
  }

  // ------------------------------------------------------------------
  // Creation
  // ------------------------------------------------------------------

  // alloc_slot: a dead slot, or the next unused one; MAX_TASKS when the table is full.
  function DeadSlot(tasks: seq<Task>, count: nat, i: nat): (r: nat)
    requires i <= count <= |tasks|
    ensures i <= r <= count && (r < count ==> !tasks[r].ready)
    ensures forall j :: i <= j < r ==> tasks[j].ready
    decreases count - i
  {
    if i == count || !tasks[i].ready then i else DeadSlot(tasks, count, i + 1)
  }

  function AllocSlot(tasks: seq<Task>, count: nat): (nat, nat)
    requires count <= |tasks| == MAX_TASKS
  {
    var i := DeadSlot(tasks, count, 0);
    if i < count then (i, count) else if count < MAX_TASKS then (count, count + 1) else (MAX_TASKS, count)
  }

  // kmalloc with a size that needs no wrapping
  function Alloc(h: Heap, size: nat): (Heap, nat)
    requires size < 0x1_0000
  {
    HeapBlocks.Malloc(h, size)
  }

  // The frame task_setup_user_stack and task_setup_stack leave for the first return.
  function UserStart(entry: nat): Ctx {
    Ctx(0, 0, 0, 0, 0, 0, 0, 0, 0, 0, 0, entry, USER_CS, 0x202, USER_STACK_TOP, USER_SS)
  }

  function ThreadStart(fn: nat, top: nat): Ctx {
    Ctx(0, 0, 0, 0, 0, 0, 0, 0, 0, 0, 0, fn, KERNEL_CS, 0x202, top, 0)
  }

  // A context about to run `entry` in ring 3, with interrupts on and an empty stack below
  // 0x2F0000, all other registers zero.
  predicate Begins(c: Ctx, entry: nat) {
    && c.eip == entry && c.cs == 0x1B && c.cs % 4 == 3 && c.eflags == 0x202 && c.esp == 0x2F_0000 && c.ss == 0x23
    && c.eax == c.ebx == c.ecx == c.edx == c.esi == c.edi == c.ebp == 0 && c.ds == c.es == c.fs == c.gs == 0
  }

  // A context about to run fn in ring 0, with interrupts on and the stack that ends at top.
  predicate ThreadBegins(c: Ctx, fn: nat, top: nat) {
    && c.eip == fn && c.cs == 0x08 && c.cs % 4 == 0 && c.eflags == 0x202 && c.esp == top
    && c.eax == c.ebx == c.ecx == c.edx == c.esi == c.edi == c.ebp == 0 && c.ds == c.es == c.fs == c.gs == 0
  }

  // task_create_user: the kernel afterwards and the pid, 0 if there is none.
  function CreateUser(k: Kernel, entry: nat, cr3: nat): (r: (Kernel, nat))
    requires |k.tasks| == MAX_TASKS && k.count <= MAX_TASKS
    ensures |r.0.tasks| == MAX_TASKS
  {
    var (slot, count) := AllocSlot(k.tasks, k.count);
    if slot >= MAX_TASKS then (k, 0)
    else UserInto(k.(count := count, nextPid := k.nextPid + 1), slot,
        EmptySlot.(pid := k.nextPid, ready := true, user := true), entry, cr3)
  }

  // When the block for the first frame cannot be allocated the task is left ready with esp 0.
  function UserInto(k: Kernel, slot: nat, t: Task, entry: nat, cr3: nat): (r: (Kernel, nat))
    requires slot < |k.tasks| == MAX_TASKS
    ensures |r.0.tasks| == MAX_TASKS
  {
    var (h1, irq) := Alloc(k.heap, IRQ_STACK);
    if irq == 0 then (SetSlot(k, slot, t.(ready := false)), 0)
    else
      var t1 := t.(irqTop := irq + IRQ_STACK, cr3 := cr3, slice := SLICE);
      var (h2, area) := Alloc(h1, USER_AREA);
      if area == 0 then (SetSlot(k.(heap := h2), slot, t1), t.pid)
      else
        var fp := area + USER_AREA - USER_FRAME;
        (SetSlot(k.(heap := h2, ram := Put(k.ram, fp, Words(UserStart(entry), 0, 0, 0))), slot, t1.(esp := fp)), t.pid)
  }

  // task_create: a kernel thread.
  function CreateThread(k: Kernel, fn: nat): (r: (Kernel, nat))
    requires |k.tasks| == MAX_TASKS && k.count <= MAX_TASKS
    ensures |r.0.tasks| == MAX_TASKS
  {
    var (slot, count) := AllocSlot(k.tasks, k.count);
    if slot >= MAX_TASKS then (k, 0)
    else ThreadInto(k.(count := count, nextPid := k.nextPid + 1), slot, EmptySlot.(pid := k.nextPid, ready := true), fn)
  }

  function ThreadInto(k: Kernel, slot: nat, t: Task, fn: nat): (r: (Kernel, nat))
    requires slot < |k.tasks| == MAX_TASKS
    ensures |r.0.tasks| == MAX_TASKS
  {
    var (h1, stack) := Alloc(k.heap, TASK_STACK);
    if stack == 0 then (SetSlot(k, slot, t.(ready := false)), 0)
    else
      var (h2, irq) := Alloc(h1, IRQ_STACK);
      if irq == 0 then (SetSlot(k.(heap := h2), slot, t.(ready := false, stackBottom := stack)), 0)
      else
        (SetSlot(k.(heap := h2, ram := ThreadRam(k.ram, fn, stack)), slot,
                 t.(stackBottom := stack, irqTop := irq + IRQ_STACK, slice := SLICE,
                     esp := stack + TASK_STACK - KERNEL_FRAME)), t.pid)
  }

  // A thread's stack, filled with 0xCC, and its first frame.
  function ThreadRam(ram: Ram, fn: nat, stack: nat): Ram {
    Put(Fill(ram, stack, TASK_STACK / 4), stack + TASK_STACK - KERNEL_FRAME,
        Words(ThreadStart(fn, stack + TASK_STACK), 0, 0, 0))
  }

  // memset(lo, 0xCC, 4 * n)
  function Fill(ram: Ram, lo: nat, n: nat): (r: Ram)
    ensures |r| == |ram|
  {
    if n == 0 then ram
    else
      var r := Fill(ram, lo, n - 1);
      if lo + 4 * (n - 1) < |r| then r[lo + 4 * (n - 1) := 0xCCCC_CCCC] else r
  }

  // memcpy(to, from, 4 * n), ascending and word by word
  function Copy(ram: Ram, to: nat, from: nat, n: nat): (r: Ram)
    ensures |r| == |ram|
  {
    if n == 0 then ram
    else
      var r := Copy(ram, to, from, n - 1);
      if to + 4 * (n - 1) < |r| && from + 4 * (n - 1) < |r| then r[to + 4 * (n - 1) := r[from + 4 * (n - 1)]] else r
  }

  // task_fork_user, with the parent's system-call frame at fp: the pid, or 0. Forking
  // copies FRAME_BYTES from the frame up, past the top of the parent's stack.
  datatype Forked = Forked(k: Kernel, pid: nat) | ForkAstray

  function ForkUser(k: Kernel, fp: nat): (r: Forked)
    requires |k.tasks| == MAX_TASKS && k.count <= MAX_TASKS && k.current < MAX_TASKS
    ensures r.Forked? ==> |r.k.tasks| == MAX_TASKS
  {
    var (slot, count) := AllocSlot(k.tasks, k.count);
    if slot >= MAX_TASKS then Forked(k, 0)
    else
      var k0 := k.(count := count);
      var s := ForkOf(k.vm, k.tasks[k.current].cr3);
      if s.Wild? then ForkAstray
      else if s.ret == 0 then Forked(k0.(vm := s.vm), 0)
      else
        var (h1, copy) := Alloc(k.heap, FRAME_BYTES);
        if copy == 0 then Forked(k0.(vm := DestroyOf(s.vm, s.ret)), 0)
        else ForkInto(k0.(vm := s.vm, heap := h1), slot, s.ret, copy, fp)
  }

  // Filling in the child's slot, for space c and a block of FRAME_BYTES at `copy`.
  function ForkInto(k: Kernel, slot: nat, c: nat, copy: nat, fp: nat): (r: Forked)
    requires slot < |k.tasks| == MAX_TASKS
    ensures r.Forked? ==> |r.k.tasks| == MAX_TASKS
  {
    if fp + FRAME_BYTES > HeapBlocks.HEAP_END then ForkAstray
    else
      var t := EmptySlot.(pid := k.nextPid, ready := true, user := true);
      var ram := Copy(k.ram, copy, fp, FRAME_BYTES / 4);
      var k1 := k.(nextPid := k.nextPid + 1, ram := ram);
      var (h2, irq) := Alloc(k.heap, IRQ_STACK);
      if irq == 0 then
        Forked(SetSlot(k1.(heap := FreeOf(h2, copy), vm := DestroyOf(k.vm, c)), slot, t.(ready := false)), 0)
      else
        Forked(SetSlot(k1.(heap := h2, ram := Put(ram, copy + EAX, [0])), slot,
                       t.(irqTop := irq + IRQ_STACK, cr3 := c, slice := SLICE, esp := copy)), t.pid)
  }

  // The fork system call: the pid goes to the parent's saved eax.
  function ForkBody(k: Kernel, fp: nat): Result
    requires |k.tasks| == MAX_TASKS && k.count <= MAX_TASKS && k.current < MAX_TASKS
  {
    if !k.tasks[k.current].user then Leave(k.(ram := Put(k.ram, fp + EAX, [ERROR])), fp)
    else
      match ForkUser(k, fp)
      case ForkAstray => Astray
      case Forked(k1, pid) => Leave(k1.(ram := Put(k1.ram, fp + EAX, [pid])), fp)
  }

  // The sleep system call: the caller's slice becomes the delay it asked for in ebx.
  function SleepBody(k: Kernel, fp: nat): Result
    requires |k.tasks| == MAX_TASKS && k.current < MAX_TASKS
  {
    var ebx := Load(k.ram, fp).ebx;
    var want := if ebx > 1000 then 1000 else ebx;
    var k1 := SetSlot(k, k.current, k.tasks[k.current].(slice := if want != 0 then want else 1));
    Leave(k1.(ram := Put(k.ram, fp + EAX, [0])), fp)
  }

  // sched_adopt_current: the context already executing becomes a thread on the boot stack.
  function Adopt(k: Kernel): Kernel
    requires k.count < |k.tasks|
  {
    SetSlot(k, k.count, Task(k.nextPid, true, false, 0, 0, k.tasks[k.count].irqTop, 0, SLICE))
      .(current := k.count, count := k.count + 1, nextPid := k.nextPid + 1)
  }

  // ------------------------------------------------------------------
  // Loading a program
  // ------------------------------------------------------------------

  // Loading an image into space c: CR3 moves to c, the segments are loaded, then two pages
  // of stack are mapped. An entry point of 0 counts as failure.
  function LoadImage(vm: Vm, c: nat, img: Bytes): Loading {
    var r := LoadElf(LoadOf(vm, c), c, img);
    if !r.Loaded? then r
    else if EntryPoint(img) == 0 then Rejected(r.vm)
    else
      var (vm1, ok) := MapOf(r.vm, c, USER_STACK_TOP - 0x2000, 0x2000);
      if ok then Loaded(vm1) else Rejected(vm1)
  }

  datatype Spawned = Spawned(k: Kernel, pid: nat) | SpawnAstray

  // user_spawn. CR3 is put back before the new space is destroyed on failure.
  function Spawn(k: Kernel, img: Bytes): (r: Spawned)
    requires |k.tasks| == MAX_TASKS && k.count <= MAX_TASKS
    ensures r.Spawned? ==> |r.k.tasks| == MAX_TASKS
  {
    var s := CreateOf(k.vm);
    if s.Wild? then SpawnAstray
    else if s.ret == 0 then Spawned(k.(vm := s.vm), 0)
    else
      match LoadImage(s.vm, s.ret, img)
      case Stray => SpawnAstray
      case Rejected(vm1) => Spawned(k.(vm := DestroyOf(LoadOf(vm1, k.vm.cr3), s.ret)), 0)
      case Loaded(vm1) =>
        var (k1, pid) := CreateUser(k.(vm := vm1), EntryPoint(img), s.ret);
        var vm2 := LoadOf(k1.vm, k.vm.cr3);
        Spawned(k1.(vm := if pid == 0 then DestroyOf(vm2, s.ret) else vm2), pid)
  }
}
