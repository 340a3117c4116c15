// Where stacks and parked frames lie, and why no task's activity reaches another's.

module TaskStacks {
  import opened Tasks
  import opened TaskFrames
  import opened HeapBlocks
  import HeapRuns

  // Addresses lo up to hi.
  datatype Span = Span(lo: nat, hi: nat)

  predicate Apart(a: Span, b: Span) { a.hi <= b.lo || b.hi <= a.lo }

  predicate Within(a: Span, b: Span) { b.lo <= a.lo && a.hi <= b.hi }

  // The stack a task's interrupts use.
  function StackOf(k: Kernel, t: Task): Span {
    if t.user then Span(if t.irqTop >= IRQ_STACK then t.irqTop - IRQ_STACK else 0, t.irqTop)
    else if t.stackBottom != 0 then Span(t.stackBottom, t.stackBottom + TASK_STACK)
    else Span(k.bootLo, k.bootHi)
  }

  function FrameSpan(t: Task): Span { Span(t.esp, t.esp + if t.user then USER_FRAME else KERNEL_FRAME) }

  // What slot i keeps in memory: its stack and, while it is not running, its parked frame.
  function Areas(k: Kernel, i: nat): seq<Span>
    requires i < |k.tasks|
  {
    [StackOf(k, k.tasks[i])] + if i == k.current then [] else [FrameSpan(k.tasks[i])]
  }

  // Inside a live heap block, or inside the boot stack.
  ghost predicate InBlock(h: Heap, s: Span) {
    exists b :: b in h && Holds(b, s)
  }

  predicate Holds(b: Block, s: Span) { !b.free && Payload(b) <= s.lo && s.hi <= EndOf(b) }

  ghost predicate Placed(k: Kernel, s: Span) {
    (s.hi <= k.bootHi && k.bootHi <= HEAP_START) || InBlock(k.heap, s)
  }

  // ------------------------------------------------------------------
  // Allocation
  // ------------------------------------------------------------------

  // A fresh block holds the size asked for and lies apart from everything placed before.
  lemma FreshBlock(h: Heap, size: nat, s: Span)
    requires Tiled(h) && 0 < size < 0x1_0000 && Alloc(h, size).1 != 0
    ensures var (h', p) := Alloc(h, size);
            && Tiled(h') && InBlock(h', Span(p, p + size)) && HEAP_START <= p && p + size <= HEAP_END
            && (InBlock(h, s) ==> InBlock(h', s) && Apart(s, Span(p, p + size)))
            && (s.hi <= HEAP_START ==> Apart(s, Span(p, p + size)))
  {
    HeapRuns.MallocEffect(h, size);
    RoundedCovers(size);
    MallocTiled(h, size);
    var (h', p) := Alloc(h, size);
    var j: nat :| LiveAt(h', j, p);
    InArena(h', j);
    assert h'[j] in h' && Holds(h'[j], Span(p, p + size));
    if InBlock(h, s) {
      FreshApart(h, h', j, p, size, s);
    }
  }

  lemma FreshApart(h: Heap, h': Heap, j: nat, p: nat, size: nat, s: Span)
    requires Tiled(h') && LiveAt(h', j, p) && Holds(h'[j], Span(p, p + size)) && HeapRuns.LiveKept(h, h')
    requires InBlock(h, s)
    requires forall m: nat :: m < |h| ==> !LiveAt(h, m, p)
    ensures InBlock(h', s) && Apart(s, Span(p, p + size))
  {
    var b :| b in h && Holds(b, s);
    KeptBlock(h, h', b);
    var i: nat :| i < |h'| && h'[i] == b;
    var m: nat :| m < |h| && h[m] == b;
    assert !LiveAt(h, m, p);
    if i < j { Ordered(h', i, j); } else { Ordered(h', j, i); }
  }

  lemma KeptBlock(h: Heap, h': Heap, b: Block)
    requires HeapRuns.LiveKept(h, h') && b in h && !b.free
    ensures b in h'
  {
  }

  lemma {:induction false} BlockFound(h: Heap, p: nat, k: nat, j: nat)
    requires k <= j < |h| && LiveAt(h, j, p)
    ensures BlockOf(h, p, k) < |h|
    decreases j - k
  {
    if k < j && !LiveAt(h, k, p) { BlockFound(h, p, k + 1, j); }
  }

  // Freeing what was just allocated, undoing the split.
  lemma AllocFree(h: Heap, size: nat, s: Span)
    requires Tiled(h) && 0 < size < 0x1_0000 && Alloc(h, size).1 != 0 && InBlock(h, s)
    ensures var (h1, p) := Alloc(h, size); Tiled(FreeOf(h1, p)) && InBlock(FreeOf(h1, p), s)
  {
    var (h1, p) := Alloc(h, size);
    FreshBlock(h, size, s);
    HeapRuns.MallocEffect(h, size);
    var j: nat :| LiveAt(h1, j, p);
    BlockFound(h1, p, 0, j);
    var k := BlockOf(h1, p, 0);
    HeapRuns.FreeEffect(h1, k, p);
    FreeTiled(h1, k);
    var b :| b in h && Holds(b, s);
    KeptBlock(h, h1, b);
    assert Payload(b) != p by {
      var m: nat :| m < |h| && h[m] == b;
      assert Payload(b) == p ==> LiveAt(h, m, p);
    }
  }
}
