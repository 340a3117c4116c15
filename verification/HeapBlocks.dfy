// The kernel heap as a list of blocks in address order (kernel/kheap.c): first-fit
// allocation with splitting, and release with forward coalescing.

module HeapBlocks {

  const HEAP_START: nat := 0x30_0000
  const HEAP_END: nat := 0x40_0000
  const HEADER: nat := 12                // sizeof(block_t)
  const U32: nat := 0x1_0000_0000

  datatype Block = Block(addr: nat, size: nat, free: bool)

  function EndOf(b: Block): nat { b.addr + HEADER + b.size }
  function Payload(b: Block): nat { b.addr + HEADER }

  // Blocks cover [HEAP_START, HEAP_END) without gap or overlap.
  ghost predicate Tiled(bs: seq<Block>) {
    && |bs| > 0
    && bs[0].addr == HEAP_START
    && EndOf(bs[|bs| - 1]) == HEAP_END
    && (forall j, k :: 0 <= j < k < |bs| && k == j + 1 ==> EndOf(bs[j]) == bs[k].addr)
  }

  // Headers are word aligned. The 12-byte header keeps payloads from being aligned to 8.
  ghost predicate Aligned(bs: seq<Block>) {
    forall b :: b in bs ==> b.addr % 4 == 0 && b.size % 4 == 0
  }

  // kheap_init
  function InitialBlocks(): (bs: seq<Block>)
    ensures Tiled(bs) && Aligned(bs) && NoAdjacentFree(bs)
  {
    [Block(HEAP_START, HEAP_END - HEAP_START - HEADER, true)]
  }

  // ------------------------------------------------------------------
  // kmalloc
  // ------------------------------------------------------------------

  // The rounding kmalloc applies, in 32-bit arithmetic.
  function Rounded(size: nat): (r: nat)
    requires size < U32
    ensures r % 8 == 0
  {
    if size == 0 then 8 else (size + 7) % U32 / 8 * 8
  }

  // The rounded size covers the request unless the addition wrapped.
  lemma RoundedCovers(size: nat)
    requires size < U32
    ensures Rounded(size) >= size <==> size <= 0xFFFF_FFF8
    ensures size > 0xFFFF_FFF8 ==> Rounded(size) == 0
  {
  }

  // The first block at or after k that can hold `need` bytes, |bs| when none can.
  function FirstFit(bs: seq<Block>, need: nat, k: nat): (r: nat)
    requires k <= |bs|
    ensures k <= r <= |bs|
    ensures r < |bs| ==> bs[r].free && bs[r].size >= need
    ensures forall j :: k <= j < r ==> !(bs[j].free && bs[j].size >= need)
    decreases |bs| - k
  {
    if k == |bs| || (bs[k].free && bs[k].size >= need) then k else FirstFit(bs, need, k + 1)
  }

  // heap_split: a remainder of at most HEADER + 8 bytes stays with the block.
  function Split(b: Block, need: nat): (r: seq<Block>)
    requires need <= b.size
    ensures |r| >= 1
  {
    if b.size - need <= HEADER + 8 then [Block(b.addr, b.size, false)]
    else [Block(b.addr, need, false), Block(b.addr + HEADER + need, b.size - need - HEADER, true)]
  }

  function TakeBlock(bs: seq<Block>, k: nat, need: nat): seq<Block>
    requires k < |bs| && need <= bs[k].size
  {
    bs[..k] + Split(bs[k], need) + bs[k + 1..]
  }

  // The new block list and the payload address, 0 for the null pointer.
  function Malloc(bs: seq<Block>, size: nat): (seq<Block>, nat)
    requires size < U32
  {
    var k := FirstFit(bs, Rounded(size), 0);
    if k == |bs| then (bs, 0) else (TakeBlock(bs, k, Rounded(size)), Payload(bs[k]))
  }

  // ------------------------------------------------------------------
  // kfree
  // ------------------------------------------------------------------

  // Block k absorbs its successor.
  function Absorb(bs: seq<Block>, k: nat): (r: seq<Block>)
    requires k + 1 < |bs|
    ensures |r| == |bs| - 1
  {
    bs[..k] + [bs[k].(size := bs[k].size + HEADER + bs[k + 1].size)] + bs[k + 2..]
  }

  // Block k absorbs successors as long as they are free.
  function Coalesce(bs: seq<Block>, k: nat): (r: seq<Block>)
    requires k < |bs|
    decreases |bs|
  {
    if k + 1 < |bs| && bs[k + 1].free then Coalesce(Absorb(bs, k), k) else bs
  }

  function FreeBlock(bs: seq<Block>, k: nat): seq<Block>
    requires k < |bs|
  {
    Coalesce(bs[k := bs[k].(free := true)], k)
  }

  // Block k is allocated and its payload starts at ptr.
  predicate LiveAt(bs: seq<Block>, k: nat, ptr: nat) {
    k < |bs| && !bs[k].free && Payload(bs[k]) == ptr
  }

  ghost predicate Live(bs: seq<Block>, ptr: nat) {
    exists k: nat :: LiveAt(bs, k, ptr)
  }

  // The block list after kfree(ptr); a pointer to no live block is outside the model.
  ghost function Free(bs: seq<Block>, ptr: nat): seq<Block>
    requires Live(bs, ptr)
  {
    var k: nat :| LiveAt(bs, k, ptr);
    FreeBlock(bs, k)
  }

  ghost predicate NoAdjacentFree(bs: seq<Block>) {
    forall j, k :: 0 <= j < k < |bs| && k == j + 1 ==> !(bs[j].free && bs[k].free)
  }

  // ------------------------------------------------------------------
  // Tiling
  // ------------------------------------------------------------------

  // In a tiled list every block lies between all earlier and all later ones.
  lemma {:induction false} Ordered(bs: seq<Block>, i: nat, j: nat)
    requires Tiled(bs) && i < j < |bs|
    ensures EndOf(bs[i]) <= bs[j].addr
    decreases j
  {
    if i + 1 < j {
      Ordered(bs, i, j - 1);
    }
  }

  lemma {:induction false} InArena(bs: seq<Block>, k: nat)
    requires Tiled(bs) && k < |bs|
    ensures HEAP_START <= bs[k].addr && EndOf(bs[k]) <= HEAP_END
  {
    if k > 0 { Ordered(bs, 0, k); }
    if k < |bs| - 1 { Ordered(bs, k, |bs| - 1); }
  }

  // One live block per payload address.
  lemma LiveUnique(bs: seq<Block>, i: nat, j: nat, ptr: nat)
    requires Tiled(bs) && LiveAt(bs, i, ptr) && LiveAt(bs, j, ptr)
    ensures i == j
  {
    if i < j { Ordered(bs, i, j); }
    if j < i { Ordered(bs, j, i); }
  }

  lemma FreeIs(bs: seq<Block>, k: nat, ptr: nat)
    requires Tiled(bs) && LiveAt(bs, k, ptr)
    ensures Live(bs, ptr) && Free(bs, ptr) == FreeBlock(bs, k)
  {
    var j: nat :| LiveAt(bs, j, ptr) && Free(bs, ptr) == FreeBlock(bs, j);
    LiveUnique(bs, k, j, ptr);
  }

  lemma TakeTiled(bs: seq<Block>, k: nat, need: nat)
    requires Tiled(bs) && k < |bs| && need <= bs[k].size
    ensures Tiled(TakeBlock(bs, k, need))
  {
    var r := TakeBlock(bs, k, need);
    var n := |Split(bs[k], need)|;
    forall j | 0 <= j < |r|
      ensures r[j] == if j < k then bs[j] else if j < k + n then Split(bs[k], need)[j - k] else bs[j - n + 1]
    {
    }
    forall j | 0 <= j < |r| - 1 ensures EndOf(r[j]) == r[j + 1].addr {
      if j + 1 < k { assert EndOf(bs[j]) == bs[j + 1].addr; }
      if j >= k + n { assert EndOf(bs[j - n + 1]) == bs[j - n + 2].addr; }
    }
  }

  lemma MallocTiled(bs: seq<Block>, size: nat)
    requires Tiled(bs) && size < U32
    ensures Tiled(Malloc(bs, size).0)
  {
    var k := FirstFit(bs, Rounded(size), 0);
    if k < |bs| { TakeTiled(bs, k, Rounded(size)); }
  }

  lemma AbsorbTiled(bs: seq<Block>, k: nat)
    requires Tiled(bs) && k + 1 < |bs|
    ensures Tiled(Absorb(bs, k))
  {
    var r := Absorb(bs, k);
    forall j | 0 <= j < |r| - 1 ensures EndOf(r[j]) == r[j + 1].addr {
      if j > k { assert EndOf(bs[j + 1]) == bs[j + 2].addr; }
      if j + 1 < k { assert EndOf(bs[j]) == bs[j + 1].addr; }
    }
  }

  lemma {:induction false} CoalesceTiled(bs: seq<Block>, k: nat)
    requires Tiled(bs) && k < |bs|
    ensures Tiled(Coalesce(bs, k))
    decreases |bs|
  {
    if k + 1 < |bs| && bs[k + 1].free {
      AbsorbTiled(bs, k);
      CoalesceTiled(Absorb(bs, k), k);
    }
  }

  lemma FreeTiled(bs: seq<Block>, k: nat)
    requires Tiled(bs) && k < |bs|
    ensures Tiled(FreeBlock(bs, k))
  {
    CoalesceTiled(bs[k := bs[k].(free := true)], k);
  }

  // ------------------------------------------------------------------
  // Alignment
  // ------------------------------------------------------------------

  lemma SplitAligned(b: Block, need: nat)
    requires b.addr % 4 == 0 && b.size % 4 == 0 && need % 8 == 0 && need <= b.size
    ensures forall x :: x in Split(b, need) ==> x.addr % 4 == 0 && x.size % 4 == 0
  {
    Fours(b.addr, need, b.size);
  }

  lemma Fours(a: nat, n: nat, m: nat)
    requires a % 4 == 0 && n % 8 == 0 && m % 4 == 0 && n <= m
    ensures n % 4 == 0 && (a + HEADER + n) % 4 == 0 && (m - n - HEADER) % 4 == 0
  {
    assert n == 4 * (2 * (n / 8)) && a == 4 * (a / 4) && m == 4 * (m / 4);
  }

  lemma MallocAligned(bs: seq<Block>, size: nat)
    requires Aligned(bs) && size < U32
    ensures Aligned(Malloc(bs, size).0)
  {
    var need := Rounded(size);
    var k := FirstFit(bs, need, 0);
    if k < |bs| {
      assert bs[k] in bs;
      SplitAligned(bs[k], need);
      forall b | b in TakeBlock(bs, k, need) ensures b.addr % 4 == 0 && b.size % 4 == 0 {
        Taken(bs, k, need, b);
      }
    }
  }

  lemma Taken(bs: seq<Block>, k: nat, need: nat, b: Block)
    requires k < |bs| && need <= bs[k].size && b in TakeBlock(bs, k, need)
    ensures b in bs || b in Split(bs[k], need)
  {
    assert b in bs[..k] || b in Split(bs[k], need) || b in bs[k + 1..];
  }

  lemma {:induction false} CoalesceAligned(bs: seq<Block>, k: nat)
    requires Aligned(bs) && k < |bs|
    ensures Aligned(Coalesce(bs, k))
    decreases |bs|
  {
    if k + 1 < |bs| && bs[k + 1].free {
      AbsorbAligned(bs, k);
      CoalesceAligned(Absorb(bs, k), k);
    }
  }

  lemma AbsorbAligned(bs: seq<Block>, k: nat)
    requires Aligned(bs) && k + 1 < |bs|
    ensures Aligned(Absorb(bs, k))
  {
    var b0, size := bs[k], bs[k].size + HEADER + bs[k + 1].size;
    assert b0 in bs && bs[k + 1] in bs;
    SumOfFours(b0.size, bs[k + 1].size);
    forall b | b in Absorb(bs, k) ensures b in bs || b == b0.(size := size) {
      assert b in bs[..k] || b == b0.(size := size) || b in bs[k + 2..];
    }
  }

  lemma SumOfFours(m: nat, n: nat)
    requires m % 4 == 0 && n % 4 == 0
    ensures (m + HEADER + n) % 4 == 0
  {
    assert m + HEADER + n == 4 * (m / 4 + 3 + n / 4);
  }

  lemma FreeAligned(bs: seq<Block>, k: nat)
    requires Aligned(bs) && k < |bs|
    ensures Aligned(FreeBlock(bs, k))
  {
    assert bs[k] in bs;
    CoalesceAligned(bs[k := bs[k].(free := true)], k);
  }
}
