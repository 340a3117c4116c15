// Fork, spawn and thread creation add exactly one process, on memory nobody else uses.

module TaskBirth {
  import opened Tasks
  import opened TaskFrames
  import opened TaskStacks
  import opened TaskSpaces
  import opened TaskInv
  import opened TaskSwitch
  import HeapBlocks
  import HeapRuns

  // ------------------------------------------------------------------
  // Memory for a new task
  // ------------------------------------------------------------------

  // Everything the live tasks use lies in live blocks of h, or in the boot stack.
  ghost predicate Holding(k: Kernel, h: Heap) {
    HeapBlocks.Tiled(h) && forall i: nat, s :: Live(k.tasks, i) && s in Areas(k, i) ==> Placed(k.(heap := h), s)
  }

  // A span of h no live task uses.
  ghost predicate Unused(k: Kernel, h: Heap, w: Span) {
    InBlock(h, w) && forall i: nat, s :: Live(k.tasks, i) && s in Areas(k, i) ==> Apart(s, w)
  }

  lemma HoldingNow(k: Kernel)
    requires KInv(k)
    ensures Holding(k, k.heap)
  {
    assert Open(0);
    assert k.(heap := k.heap) == k;
  }

  // kmalloc(size) turns heap h into h' and returns p. Behind a trigger, so that a proof
  // unfolds the allocator only where it mentions Unwrap.
  ghost predicate Gives(h: Heap, size: nat, h': Heap, p: nat) {
    forall n: nat {:trigger Unwrap(n)} :: Unwrap(n) ==> 0 < size < 0x1_0000 && p != 0 && Alloc(h, size) == (h', p)
  }

  ghost predicate Unwrap(n: nat) { true }

  // A new block is unused, and nothing in use moves.
  lemma Fresh(k: Kernel, h: Heap, size: nat, h': Heap, p: nat)
    requires Holding(k, h) && HeapOk(k) && Gives(h, size, h', p)
    ensures Holding(k, h') && Unused(k, h', Span(p, p + size)) && HeapBlocks.HEAP_START <= p
    ensures p + size <= HeapBlocks.HEAP_END
  {
    var w := Span(p, p + size);
    GivesBlock(h, size, h', p, Span(0, 0));
    forall i: nat, s | Live(k.tasks, i) && s in Areas(k, i) ensures Placed(k.(heap := h'), s) {
      assert Placed(k.(heap := h), s);
      GivesBlock(h, size, h', p, s);
    }
    forall i: nat, s | Live(k.tasks, i) && s in Areas(k, i) ensures Apart(s, w) {
      assert Placed(k.(heap := h), s);
      GivesBlock(h, size, h', p, s);
      if !InBlock(h, s) { assert s.hi <= HeapBlocks.HEAP_START; }
    }
    assert Unused(k, h', w);
  }

  lemma GivesBlock(h: Heap, size: nat, h': Heap, p: nat, s: Span)
    requires HeapBlocks.Tiled(h) && Gives(h, size, h', p)
    ensures HeapBlocks.Tiled(h') && InBlock(h', Span(p, p + size)) && HeapBlocks.HEAP_START <= p
    ensures p + size <= HeapBlocks.HEAP_END
    ensures InBlock(h, s) ==> InBlock(h', s) && Apart(s, Span(p, p + size))
    ensures s.hi <= HeapBlocks.HEAP_START ==> Apart(s, Span(p, p + size))
  {
    assert Unwrap(0);
    FreshBlock(h, size, s);
  }

  lemma StillUnused(k: Kernel, h: Heap, size: nat, h': Heap, p: nat, w: Span)
    requires Holding(k, h) && Unused(k, h, w) && Gives(h, size, h', p)
    ensures Unused(k, h', w)
  {
    GivesBlock(h, size, h', p, w);
  }

  // Two blocks allocated one after the other are unused by every live task.
  lemma TwoUnused(k: Kernel, s1: nat, h1: Heap, p1: nat, s2: nat, h2: Heap, p2: nat)
    requires Holding(k, k.heap) && HeapOk(k) && Gives(k.heap, s1, h1, p1) && Gives(h1, s2, h2, p2)
    ensures Holding(k, h2) && Unused(k, h2, Span(p1, p1 + s1)) && Unused(k, h2, Span(p2, p2 + s2))
    ensures p1 + s1 <= HeapBlocks.HEAP_END && HeapBlocks.HEAP_START <= p1 && p2 + s2 <= HeapBlocks.HEAP_END
    ensures HeapBlocks.HEAP_START <= p2
  {
    Fresh(k, k.heap, s1, h1, p1);
    Fresh(k, h1, s2, h2, p2);
    StillUnused(k, h1, s2, h2, p2, Span(p1, p1 + s1));
  }

  lemma AllocNull(h: Heap, size: nat)
    requires HeapBlocks.Tiled(h) && 0 < size < 0x1_0000 && Alloc(h, size).1 == 0
    ensures Alloc(h, size) == (h, 0)
  {
    HeapRuns.MallocEffect(h, size);
  }

  // Allocating and freeing again leaves everything in use in place.
  lemma Returned(k: Kernel, h: Heap, size: nat, h': Heap, p: nat)
    requires Holding(k, h) && Gives(h, size, h', p)
    ensures Holding(k, FreeOf(h', p))
  {
    var h2 := FreeOf(h', p);
    ReturnedBlock(h, size, h', p, Span(0, 0));
    forall i: nat, s | Live(k.tasks, i) && s in Areas(k, i) ensures Placed(k.(heap := h2), s) {
      assert Placed(k.(heap := h), s);
      ReturnedBlock(h, size, h', p, s);
    }
  }

  lemma ReturnedBlock(h: Heap, size: nat, h': Heap, p: nat, s: Span)
    requires HeapBlocks.Tiled(h) && Gives(h, size, h', p)
    ensures HeapBlocks.Tiled(FreeOf(h', p)) && (InBlock(h, s) ==> InBlock(FreeOf(h', p), s))
  {
    assert Unwrap(0);
    HeapBlocks.MallocTiled(h, size);
    var k := BlockOf(h', p, 0);
    if k < |h'| { HeapBlocks.FreeTiled(h', k); }
    if InBlock(h, s) { AllocFree(h, size, s); }
  }

  // ------------------------------------------------------------------
  // The table with one more task, or one more dead slot
  // ------------------------------------------------------------------

  // What a creation changes besides the new slot, unfolded where a proof mentions Open.
  ghost predicate Around(k: Kernel, k': Kernel, slot: nat) {
    && slot < |k.tasks| && |k'.tasks| == |k.tasks| && k'.current == k.current
    && forall n: nat {:trigger Open(n)} :: Open(n) ==> AroundParts(k, k', slot)
  }

  ghost predicate AroundParts(k: Kernel, k': Kernel, slot: nat)
    requires slot < |k.tasks| && |k'.tasks| == |k.tasks|
  {
    && !Live(k.tasks, slot) && slot < k'.count <= MAX_TASKS && k.count <= k'.count
    && (forall i: nat :: i < |k.tasks| && i != slot ==> k'.tasks[i] == k.tasks[i])
    && k'.current == k.current && k'.zombie == k.zombie && k'.nextPid >= k.nextPid && k'.esp0 == k.esp0 &&
       k'.cpu == k.cpu
    && k'.bootLo == k.bootLo && k'.bootHi == k.bootHi && Holding(k, k'.heap)
    && k'.vm.cr3 == k.vm.cr3 && SamePagesOf(k.vm, k'.vm, SpacesOf(k.tasks))
  }

  // Memory changed only in a span no live task uses.
  ghost predicate WroteUnused(k: Kernel, k': Kernel, w: Span) {
    && Unused(k, k'.heap, w) && |k'.ram| == |k.ram|
    && forall a: nat :: a < |k.ram| && !(w.lo <= a < w.hi) ==> k'.ram[a] == k.ram[a]
  }

  lemma OldFrames(k: Kernel, k': Kernel, slot: nat, w: Span, i: nat)
    requires KInv(k) && Around(k, k', slot) && (k'.ram == k.ram || WroteUnused(k, k', w)) && Live(k.tasks, i)
    requires i != k.current
    ensures FrameOk(k', i) && Load(k'.ram, k'.tasks[i].esp) == Load(k.ram, k.tasks[i].esp)
  {
    assert Open(0);
    assert i != slot && FrameOk(k, i);
    if k'.ram != k.ram {
      var f := FrameSpan(k.tasks[i]);
      assert f in Areas(k, i) && Apart(f, w);
      assert Kept(k.ram, k'.ram, f.lo, f.hi);
      LoadKept(k.ram, k'.ram, k.tasks[i].esp);
    }
  }

  lemma OldProcs(k: Kernel, k': Kernel, slot: nat, w: Span, i: nat)
    requires KInv(k) && Around(k, k', slot) && (k'.ram == k.ram || WroteUnused(k, k', w)) && Live(k.tasks, i)
    ensures Live(k'.tasks, i) && ProcOf(k', i) == ProcOf(k, i)
  {
    assert Open(0);
    if i != k.current { OldFrames(k, k', slot, w, i); }
    if k.tasks[i].user { assert LiveUser(k.tasks, i) && k.tasks[i].cr3 in SpacesOf(k.tasks); }
  }

  lemma OldAreas(k: Kernel, k': Kernel, i: nat)
    requires i < |k.tasks| && i < |k'.tasks| && k'.tasks[i] == k.tasks[i]
    requires k'.current == k.current && k'.bootLo == k.bootLo && k'.bootHi == k.bootHi
    ensures Areas(k', i) == Areas(k, i)
  {
  }

  // A dead slot changes no process.
  lemma DeadSlotAdded(k: Kernel, k': Kernel, slot: nat, w: Span)
    requires KInv(k) && Around(k, k', slot) && !k'.tasks[slot].ready && (k'.ram == k.ram || WroteUnused(k, k', w))
    requires VmOk(k'.vm, SpacesOf(k.tasks))
    ensures KInv(k') && Procs(k') == Procs(k)
  {
    assert Open(0);
    assert slot != k.current;
    forall i: nat | Live(k'.tasks, i)
      ensures Live(k.tasks, i) && i < k.count && (k'.tasks[i].user ==> k'.tasks[i].irqTop >= IRQ_STACK)
    {
      assert i != slot && Live(k.tasks, i);
      assert k.tasks[i].user ==> LiveUser(k.tasks, i);
    }
    SameSpaces(k.tasks, k'.tasks);
    forall i: nat | Live(k'.tasks, i) && i != k'.current ensures FrameOk(k', i) { OldFrames(k, k', slot, w, i); }
    DeadAreas(k, k', slot);
    forall i: nat | Live(k.tasks, i)
      ensures Live(k'.tasks, i) && ProcOf(k', i) == ProcOf(k, i)
    {
      OldProcs(k, k', slot, w, i);
    }
    assert Procs(k') == Procs(k);
  }

  lemma DeadAreas(k: Kernel, k': Kernel, slot: nat)
    requires KInv(k) && Around(k, k', slot) && !k'.tasks[slot].ready
    ensures AreasPlaced(k') && AreasApart(k')
  {
    assert Open(0);
    forall i: nat, s | Live(k'.tasks, i) && s in Areas(k', i) ensures Placed(k', s) {
      OldAreas(k, k', i);
      assert Live(k.tasks, i) && Placed(k.(heap := k'.heap), s);
    }
    forall i: nat, j: nat, s, u | Live(k'.tasks, i) && Live(k'.tasks, j) && i != j && s in Areas(k', i) &&
        u in Areas(k', j) ensures Apart(s, u)
    {
      OldAreas(k, k', i);
      OldAreas(k, k', j);
      assert Live(k.tasks, i) && Live(k.tasks, j);
    }
  }

  // The new task's stack and first frame are its own.
  ghost predicate NewAreas(k: Kernel, k': Kernel, slot: nat) {
    && slot < |k'.tasks| && slot != k'.current
    && Unused(k, k'.heap, StackOf(k', k'.tasks[slot])) && Unused(k, k'.heap, FrameSpan(k'.tasks[slot]))
  }

  lemma AddedAreas(k: Kernel, k': Kernel, slot: nat)
    requires KInv(k) && Around(k, k', slot) && NewAreas(k, k', slot)
    ensures AreasPlaced(k') && AreasApart(k')
  {
    assert Open(0);
    forall i: nat, s | Live(k'.tasks, i) && s in Areas(k', i) ensures Placed(k', s) {
      if i != slot {
        OldAreas(k, k', i);
        assert Live(k.tasks, i) && Placed(k.(heap := k'.heap), s);
      }
    }
    forall i: nat, j: nat, s, u | Live(k'.tasks, i) && Live(k'.tasks, j) && i != j && s in Areas(k', i) &&
        u in Areas(k', j) ensures Apart(s, u)
    {
      if i != slot { OldAreas(k, k', i); assert Live(k.tasks, i); }
      if j != slot { OldAreas(k, k', j); assert Live(k.tasks, j); }
      if i != slot && j != slot { assert Apart(s, u); }
      if i == slot { assert Apart(u, s); }
      if j == slot { assert Apart(s, u); }
    }
  }

  lemma SpacesWith(tasks: seq<Task>, tasks': seq<Task>, slot: nat)
    requires |tasks'| == |tasks| && slot < |tasks| && !Live(tasks, slot) && tasks'[slot].ready && OwnSpaces(tasks)
    requires forall i: nat :: i < |tasks| && i != slot ==> tasks'[i] == tasks[i]
    requires tasks'[slot].user ==> tasks'[slot].cr3 !in SpacesOf(tasks)
    ensures SpacesOf(tasks') == if tasks'[slot].user then SpacesOf(tasks) + {tasks'[slot].cr3} else SpacesOf(tasks)
    ensures OwnSpaces(tasks')
  {
    var more := if tasks'[slot].user then SpacesOf(tasks) + {tasks'[slot].cr3} else SpacesOf(tasks);
    forall c ensures c in SpacesOf(tasks') <==> c in more {
      if c in SpacesOf(tasks') {
        var i :| 0 <= i < |tasks'| && LiveUser(tasks', i) && tasks'[i].cr3 == c;
        if i != slot { assert LiveUser(tasks, i); }
      }
      if c in SpacesOf(tasks) {
        var i :| 0 <= i < |tasks| && LiveUser(tasks, i) && tasks[i].cr3 == c;
        assert i != slot && LiveUser(tasks', i);
      }
      if tasks'[slot].user { assert LiveUser(tasks', slot); }
    }
    forall i: nat, j: nat | LiveUser(tasks', i) && LiveUser(tasks', j) && tasks'[i].cr3 == tasks'[j].cr3
      ensures i == j
    {
      if i != slot { assert LiveUser(tasks, i) && tasks[i].cr3 in SpacesOf(tasks); }
      if j != slot { assert LiveUser(tasks, j) && tasks[j].cr3 in SpacesOf(tasks); }
    }
  }

  // A live slot adds its process and changes no other.
  lemma TaskAdded(k: Kernel, k': Kernel, slot: nat, w: Span)
    requires KInv(k) && Around(k, k', slot) && NewAreas(k, k', slot) && WroteUnused(k, k', w)
    requires var t := k'.tasks[slot]; t.ready && (t.user ==> t.irqTop >= IRQ_STACK && t.cr3 !in SpacesOf(k.tasks))
    requires FrameOk(k', slot)
    requires VmOk(k'.vm, if k'.tasks[slot].user then SpacesOf(k.tasks) + {k'.tasks[slot].cr3} else SpacesOf(k.tasks))
    ensures KInv(k')
    ensures Procs(k') == Procs(k)[slot := Proc(Load(k'.ram, k'.tasks[slot].esp),
                                              if k'.tasks[slot].user then PagesOf(k'.vm, k'.tasks[slot].cr3)
                                                  else map[])]
  {
    assert Open(0);
    SpacesWith(k.tasks, k'.tasks, slot);
    AddedAreas(k, k', slot);
    forall i: nat | Live(k'.tasks, i) && i != k'.current ensures FrameOk(k', i) {
      if i != slot { OldFrames(k, k', slot, w, i); }
    }
    AddedTable(k, k', slot);
    AddedProcs(k, k', slot, w);
  }

  lemma AddedTable(k: Kernel, k': Kernel, slot: nat)
    requires KInv(k) && Around(k, k', slot) && slot != k.current
    requires k'.tasks[slot].user ==> k'.tasks[slot].irqTop >= IRQ_STACK
    ensures TableOk(k') && RunsOn(k')
  {
    assert Open(0);
    forall i: nat | Live(k'.tasks, i) ensures i < k'.count && (k'.tasks[i].user ==> k'.tasks[i].irqTop >= IRQ_STACK) {
      if i != slot { assert Live(k.tasks, i) && (k.tasks[i].user ==> LiveUser(k.tasks, i)); }
    }
  }

  lemma AddedProcs(k: Kernel, k': Kernel, slot: nat, w: Span)
    requires KInv(k) && Around(k, k', slot) && WroteUnused(k, k', w) && k'.tasks[slot].ready && slot != k.current
    ensures Procs(k') == Procs(k)[slot := Proc(Load(k'.ram, k'.tasks[slot].esp),
                                              if k'.tasks[slot].user then PagesOf(k'.vm, k'.tasks[slot].cr3)
                                                  else map[])]
  {
    assert Open(0);
    forall i: nat | Live(k.tasks, i)
      ensures Live(k'.tasks, i) && ProcOf(k', i) == ProcOf(k, i)
    {
      OldProcs(k, k', slot, w, i);
    }
    forall i: nat | i < |k.tasks| ensures Live(k'.tasks, i) <==> Live(k.tasks, i) || i == slot { }
  }
}
