// Whole runs of the heap: live payloads stay disjoint, space is conserved, and
// nested use leaves no trace.

module HeapRuns {
  import opened HeapBlocks

  // ------------------------------------------------------------------
  // What one call keeps
  // ------------------------------------------------------------------

  // Every live payload of bs is a live payload of bs', with the same size.
  ghost predicate LiveKept(bs: seq<Block>, bs': seq<Block>) {
    forall b :: b in bs && !b.free ==> b in bs'
  }

  lemma MallocEffect(bs: seq<Block>, size: nat)
    requires Tiled(bs) && size < U32
    ensures var (bs', ptr) := Malloc(bs, size);
            && (ptr == 0 <==> forall b :: b in bs && b.free ==> b.size < Rounded(size))
            && (ptr == 0 ==> bs' == bs)
            && (ptr != 0 ==>
                && !Live(bs, ptr) && Live(bs', ptr) && LiveKept(bs, bs')
                && (forall b :: b in bs' && !b.free && Payload(b) != ptr ==> b in bs)
                && (forall b :: b in bs' && Payload(b) == ptr ==> b.size >= Rounded(size)))
  {
    var need := Rounded(size);
    var k := FirstFit(bs, need, 0);
    var (bs', ptr) := Malloc(bs, size);
    if k < |bs| {
      InArena(bs, k);
      TakeTiled(bs, k, need);
      assert bs'[k] == Split(bs[k], need)[0];
      assert LiveAt(bs', k, ptr);
      forall j: nat ensures !LiveAt(bs, j, ptr) {
        if LiveAt(bs, j, ptr) {
          if j < k { Ordered(bs, j, k); } else if k < j { Ordered(bs, k, j); }
        }
      }
      forall b | b in bs && !b.free ensures b in bs' { KeptByTake(bs, k, need, b); }
      forall b | b in bs' && !b.free && Payload(b) != ptr ensures b in bs { FromTake(bs, k, need, b); }
      forall b | b in bs' && Payload(b) == ptr ensures b.size >= need { TakenIsFirst(bs, k, need, b); }
    }
  }

  // The size a request is rounded to: the multiple of 8 at or above it, at least 8; past
  // 0xFFFFFFF8 the addition wraps and it is 0.
  predicate Asks(size: nat, need: nat) {
    need % 8 == 0 && if size == 0 then need == 8 else if size <= 0xFFFF_FFF8 then size <= need < size + 8 else need == 0
  }

  lemma AsksRounded(size: nat, need: nat)
    requires size < U32 && Asks(size, need)
    ensures need == Rounded(size)
  {
    RoundedCovers(size);
    if 0 < size <= 0xFFFF_FFF8 { assert (size + 7) % U32 == size + 7; }
  }

  // Block k, the lowest free one that is large enough, is given out: the payload is behind
  // its 12-byte header, and every other block is as it was.
  predicate GivenOut(bs: seq<Block>, bs': seq<Block>, k: nat, need: nat, ptr: nat) {
    && k < |bs| && bs[k].free && bs[k].size >= need && ptr == bs[k].addr + 12
    && (forall j :: 0 <= j < k && bs[j].free ==> bs[j].size < need)
    && bs' == bs[..k] + Taken20(bs[k], need) + bs[k + 1..]
  }

  // kmalloc gives out the first free block that fits, or changes nothing when none does.
  // When more than 20 bytes would be left over they become a free block with a header of
  // their own; otherwise they stay with the block.
  lemma MallocTakes(bs: seq<Block>, size: nat, need: nat) returns (k: nat)
    requires Tiled(bs) && size < U32 && Asks(size, need)
    ensures var (bs', ptr) := Malloc(bs, size);
            if ptr == 0 then bs' == bs && forall b :: b in bs && b.free ==> b.size < need
            else GivenOut(bs, bs', k, need, ptr)
  {
    AsksRounded(size, need);
    k := FirstFit(bs, need, 0);
    if k < |bs| {
      InArena(bs, k);
      assert Split(bs[k], need) == Taken20(bs[k], need);
    } else {
      forall b | b in bs && b.free ensures b.size < need {
        var j :| 0 <= j < |bs| && bs[j] == b;
      }
    }
  }

  // Block b given out for need bytes.
  function Taken20(b: Block, need: nat): seq<Block> {
    if b.size > need + 20 then [Block(b.addr, need, false), Block(b.addr + 12 + need, b.size - need - 12, true)]
    else [Block(b.addr, b.size, false)]
  }

  lemma KeptByTake(bs: seq<Block>, k: nat, need: nat, b: Block)
    requires k < |bs| && need <= bs[k].size && bs[k].free && b in bs && !b.free
    ensures b in TakeBlock(bs, k, need)
  {
    var j :| 0 <= j < |bs| && bs[j] == b;
    var r := TakeBlock(bs, k, need);
    if j < k { assert r[j] == b; } else { assert r[j - 1 + |Split(bs[k], need)|] == b; }
  }

  lemma FromTake(bs: seq<Block>, k: nat, need: nat, b: Block)
    requires k < |bs| && need <= bs[k].size && b in TakeBlock(bs, k, need) && !b.free && Payload(b) != Payload(bs[k])
    ensures b in bs
  {
    assert b in bs[..k] || b in Split(bs[k], need) || b in bs[k + 1..];
  }

  lemma TakenIsFirst(bs: seq<Block>, k: nat, need: nat, b: Block)
    requires Tiled(bs) && k < |bs| && need <= bs[k].size && b in TakeBlock(bs, k, need) && Payload(b) == Payload(bs[k])
    ensures b == Split(bs[k], need)[0]
  {
    var r := TakeBlock(bs, k, need);
    TakeTiled(bs, k, need);
    var j :| 0 <= j < |r| && r[j] == b;
    if j < k { Ordered(r, j, k); }
    if k < j { Ordered(r, k, j); }
  }

  // The first block at or after j that is in use, |bs| when all are free.
  function RunEnd(bs: seq<Block>, j: nat): (e: nat)
    requires j <= |bs|
    ensures j <= e <= |bs| && (e < |bs| ==> !bs[e].free)
    ensures forall i :: j <= i < e ==> bs[i].free
    decreases |bs| - j
  {
    if j == |bs| || !bs[j].free then j else RunEnd(bs, j + 1)
  }

  // Blocks k, ..., e - 1 replaced by one that covers them all.
  function Merged(bs: seq<Block>, k: nat, e: nat): (r: seq<Block>)
    requires k < e <= |bs| && bs[k].addr + HEADER <= EndOf(bs[e - 1])
    ensures |r| == |bs| - (e - k) + 1
  {
    bs[..k] + [Block(bs[k].addr, EndOf(bs[e - 1]) - bs[k].addr - HEADER, bs[k].free)] + bs[e..]
  }

  lemma MergedAt(bs: seq<Block>, k: nat, e: nat, j: nat)
    requires k < e <= |bs| && bs[k].addr + HEADER <= EndOf(bs[e - 1]) && j < |Merged(bs, k, e)|
    ensures Merged(bs, k, e)[j] == if j < k then bs[j]
                                   else if j == k then Block(bs[k].addr, EndOf(bs[e - 1]) - bs[k].addr - HEADER,
                                       bs[k].free)
                                   else bs[j + e - k - 1]
  {
  }

  lemma MergeBounds(bs: seq<Block>, k: nat, e: nat)
    requires Tiled(bs) && k < e <= |bs|
    ensures bs[k].addr + HEADER + bs[k].size <= EndOf(bs[e - 1])
  {
    if k < e - 1 { Ordered(bs, k, e - 1); }
  }

  lemma MergeStep(bs: seq<Block>, k: nat, e: nat)
    requires Tiled(bs) && k + 1 < e <= |bs|
    ensures bs[k].addr + HEADER <= EndOf(bs[e - 1])
    ensures Absorb(bs, k)[k].addr + HEADER <= EndOf(Absorb(bs, k)[e - 2])
    ensures Merged(Absorb(bs, k), k, e - 1) == Merged(bs, k, e)
  {
    MergeBounds(bs, k, e);
    var a := Absorb(bs, k);
    AbsorbTiled(bs, k);
    MergeBounds(a, k, e - 1);
    assert EndOf(bs[k]) == bs[k + 1].addr;
    assert EndOf(a[e - 2]) == EndOf(bs[e - 1]);
  }

  lemma AbsorbRun(bs: seq<Block>, k: nat)
    requires k + 1 < |bs| && bs[k + 1].free
    ensures RunEnd(Absorb(bs, k), k + 1) == RunEnd(bs, k + 1) - 1
  {
    var a := Absorb(bs, k);
    assert bs[k + 2..] == a[k + 1..];
    RunEndShift(bs, a, k + 2, k + 1);
  }

  // Coalescing merges block k with exactly the run of free blocks after it.
  lemma {:induction false} CoalesceIs(bs: seq<Block>, k: nat)
    requires Tiled(bs) && k < |bs|
    ensures bs[k].addr + HEADER + bs[k].size <= EndOf(bs[RunEnd(bs, k + 1) - 1])
    ensures Coalesce(bs, k) == Merged(bs, k, RunEnd(bs, k + 1))
    decreases |bs|
  {
    var e := RunEnd(bs, k + 1);
    MergeBounds(bs, k, e);
    if k + 1 < |bs| && bs[k + 1].free {
      AbsorbTiled(bs, k);
      CoalesceIs(Absorb(bs, k), k);
      AbsorbRun(bs, k);
      MergeStep(bs, k, e);
    } else {
      assert Merged(bs, k, k + 1) == bs;
    }
  }

  lemma {:induction false} RunEndShift(bs: seq<Block>, a: seq<Block>, i: nat, j: nat)
    requires i <= |bs| && j <= |a| && bs[i..] == a[j..]
    ensures RunEnd(bs, i) - i == RunEnd(a, j) - j
    decreases |bs| - i
  {
    assert |bs| - i == |a| - j;
    if i < |bs| {
      assert bs[i] == bs[i..][0] && a[j] == a[j..][0];
      assert bs[i + 1..] == bs[i..][1..] && a[j + 1..] == a[j..][1..];
      RunEndShift(bs, a, i + 1, j + 1);
    }
  }

  lemma MarkedTiled(bs: seq<Block>, k: nat)
    requires Tiled(bs) && k < |bs|
    ensures Tiled(bs[k := bs[k].(free := true)])
  {
    var m := bs[k := bs[k].(free := true)];
    assert forall j :: 0 <= j < |bs| ==> m[j].addr == bs[j].addr && m[j].size == bs[j].size;
  }

  lemma FreeIsMerged(bs: seq<Block>, k: nat)
    requires Tiled(bs) && k < |bs|
    ensures var m := bs[k := bs[k].(free := true)];
            && Tiled(m) && m[k].addr + HEADER + m[k].size <= EndOf(m[RunEnd(m, k + 1) - 1])
            && FreeBlock(bs, k) == Merged(m, k, RunEnd(m, k + 1))
  {
    MarkedTiled(bs, k);
    CoalesceIs(bs[k := bs[k].(free := true)], k);
  }

  // kfree turns one live block into free space and leaves every other live block alone.
  lemma FreeEffect(bs: seq<Block>, k: nat, ptr: nat)
    requires Tiled(bs) && LiveAt(bs, k, ptr)
    ensures var bs' := FreeBlock(bs, k);
            && (forall b :: b in bs && !b.free && Payload(b) != ptr ==> b in bs')
            && (forall b :: b in bs' && !b.free ==> b in bs && Payload(b) != ptr)
  {
    var m := bs[k := bs[k].(free := true)];
    FreeIsMerged(bs, k);
    var e := RunEnd(m, k + 1);
    var bs' := FreeBlock(bs, k);
    forall b | b in bs && !b.free && Payload(b) != ptr ensures b in bs' {
      var j :| 0 <= j < |bs| && bs[j] == b;
      assert m[j] == b && (j < k || e <= j);
      MergedAt(m, k, e, if j < k then j else j - e + k + 1);
    }
    forall b | b in bs' && !b.free ensures b in bs && Payload(b) != ptr {
      var j :| 0 <= j < |bs'| && bs'[j] == b;
      SurvivorOf(bs, m, k, e, j);
    }
  }

  lemma SurvivorOf(bs: seq<Block>, m: seq<Block>, k: nat, e: nat, j: nat)
    requires Tiled(bs) && k < e <= |bs| && m == bs[k := bs[k].(free := true)]
    requires m[k].addr + HEADER <= EndOf(m[e - 1]) && j < |Merged(m, k, e)| && !Merged(m, k, e)[j].free
    ensures Merged(m, k, e)[j] in bs && Payload(Merged(m, k, e)[j]) != Payload(bs[k])
  {
    var i := if j < k then j else j + e - k - 1;
    MergedAt(m, k, e, j);
    if i < k { Ordered(bs, i, k); } else { Ordered(bs, k, i); }
  }

  // The freed block lies inside one free block, so its space can be handed out again.
  lemma FreeGives(bs: seq<Block>, k: nat)
    requires Tiled(bs) && k < |bs|
    ensures exists b :: b in FreeBlock(bs, k) && b.free && b.addr == bs[k].addr && b.size >= bs[k].size
  {
    FreeIsMerged(bs, k);
    var m := bs[k := bs[k].(free := true)];
    MergedAt(m, k, RunEnd(m, k + 1), k);
    assert FreeBlock(bs, k)[k] in FreeBlock(bs, k);
  }

  // ------------------------------------------------------------------
  // Conservation
  // ------------------------------------------------------------------

  function TotalSize(bs: seq<Block>): nat {
    if bs == [] then 0 else TotalSize(bs[..|bs| - 1]) + HEADER + bs[|bs| - 1].size
  }

  lemma {:induction false} PrefixSize(bs: seq<Block>, n: nat)
    requires Tiled(bs) && 0 < n <= |bs|
    ensures TotalSize(bs[..n]) == EndOf(bs[n - 1]) - HEAP_START
    decreases n
  {
    assert bs[..n][..n - 1] == bs[..n - 1];
    if n == 1 {
      assert TotalSize(bs[..1][..0]) == 0;
    } else {
      PrefixSize(bs, n - 1);
    }
  }

  // Payload bytes and headers always add up to the whole arena.
  lemma SpaceConserved(bs: seq<Block>)
    requires Tiled(bs)
    ensures TotalSize(bs) == HEAP_END - HEAP_START
  {
    PrefixSize(bs, |bs|);
    assert bs[..|bs|] == bs;
  }

  // ------------------------------------------------------------------
  // Nested use
  // ------------------------------------------------------------------

  // Freeing a block just taken undoes the split.
  lemma TakeThenFree(bs: seq<Block>, k: nat, need: nat)
    requires k < |bs| && need <= bs[k].size && bs[k].free
    ensures k < |TakeBlock(bs, k, need)| && FreeBlock(TakeBlock(bs, k, need), k) == Coalesce(bs, k)
  {
    var parts := Split(bs[k], need);
    var x := parts[0].(free := true);
    HeadReplaced(bs[..k], parts, bs[k + 1..], x);
    var m := TakeBlock(bs, k, need)[k := x];
    if |parts| == 1 {
      assert x == bs[k] && [x] + parts[1..] == [x];
      assert bs == bs[..k] + [bs[k]] + bs[k + 1..];
      assert m == bs;
    } else {
      assert x == bs[k].(size := need) && [x] + parts[1..] == [x, parts[1]];
      SplitThenAbsorb(bs, m, k, need, parts[1]);
    }
  }

  lemma HeadReplaced(pre: seq<Block>, parts: seq<Block>, post: seq<Block>, x: Block)
    requires |parts| > 0
    ensures (pre + parts + post)[|pre|] == parts[0]
    ensures (pre + parts + post)[|pre| := x] == pre + ([x] + parts[1..]) + post
  {
  }

  lemma SplitThenAbsorb(bs: seq<Block>, m: seq<Block>, k: nat, need: nat, rest: Block)
    requires k < |bs| && m == bs[..k] + [bs[k].(size := need), rest] + bs[k + 1..]
    requires need + HEADER + rest.size == bs[k].size
    ensures k + 1 < |m| && Absorb(m, k) == bs
  {
    assert m[..k] == bs[..k] && m[k + 2..] == bs[k + 1..];
    assert bs == bs[..k] + [bs[k]] + bs[k + 1..];
  }

  // kmalloc followed by kfree of its result is coalescing of the block it chose.
  lemma MallocThenFree(bs: seq<Block>, size: nat)
    requires Tiled(bs) && size < U32 && Malloc(bs, size).1 != 0
    ensures var (bs1, ptr) := Malloc(bs, size); var k := FirstFit(bs, Rounded(size), 0);
            k < |bs| && Live(bs1, ptr) && Free(bs1, ptr) == Coalesce(bs, k)
  {
    var need := Rounded(size);
    var k := FirstFit(bs, need, 0);
    var (bs1, ptr) := Malloc(bs, size);
    TakeTiled(bs, k, need);
    assert bs1[k] == Split(bs[k], need)[0];
    FreeIs(bs1, k, ptr);
    TakeThenFree(bs, k, need);
  }

  // The pair restores the block list exactly when the chosen block had no free successor.
  lemma MallocFreeRestoresIff(bs: seq<Block>, size: nat)
    requires Tiled(bs) && size < U32 && Malloc(bs, size).1 != 0
    ensures var (bs1, ptr) := Malloc(bs, size); var k := FirstFit(bs, Rounded(size), 0);
            && k < |bs| && Live(bs1, ptr)
            && (Free(bs1, ptr) == bs <==> !(k + 1 < |bs| && bs[k + 1].free))
  {
    MallocThenFree(bs, size);
    var k := FirstFit(bs, Rounded(size), 0);
    CoalesceIs(bs, k);
  }

  // Allocate `size` bytes, run `body`, release, run `rest`.
  datatype Program = End | Scope(size: nat, body: Program, rest: Program)

  ghost predicate Sizes32(p: Program) {
    p.Scope? ==> p.size < U32 && Sizes32(p.body) && Sizes32(p.rest)
  }

  // Runs p; None if it would release a pointer that is not live.
  ghost function Exec(bs: seq<Block>, p: Program): Option
    requires Sizes32(p)
    decreases p
  {
    match p
    case End => Heap(bs)
    case Scope(size, body, rest) =>
      var (bs1, ptr) := Malloc(bs, size);
      match Exec(bs1, body)
      case Bad => Bad
      case Heap(bs2) =>
        if ptr == 0 then Exec(bs2, rest)
        else if Live(bs2, ptr) then Exec(Free(bs2, ptr), rest)
        else Bad
  }

  datatype Option = Bad | Heap(bs: seq<Block>)

  lemma MallocNoAdjacent(bs: seq<Block>, size: nat)
    requires Tiled(bs) && NoAdjacentFree(bs) && size < U32
    ensures NoAdjacentFree(Malloc(bs, size).0)
  {
    var need := Rounded(size);
    var k := FirstFit(bs, need, 0);
    if k < |bs| {
      var r := TakeBlock(bs, k, need);
      var n := |Split(bs[k], need)|;
      forall j | 0 <= j < |r|
        ensures r[j] == if j < k then bs[j] else if j < k + n then Split(bs[k], need)[j - k] else bs[j - n + 1]
      {
      }
      forall j | 0 <= j < |r| - 1 ensures !(r[j].free && r[j + 1].free) {
        if j + 1 < k { assert !(bs[j].free && bs[j + 1].free); }
        if j >= k + n { assert !(bs[j - n + 1].free && bs[j - n + 2].free); }
        if j + 1 == k + n { assert k + 1 < |bs| ==> !(bs[k].free && bs[k + 1].free); }
      }
    }
  }

  // Stack discipline: from kheap_init, or any list without adjacent free blocks, every
  // properly nested program gives back exactly the block list it started from.
  lemma {:induction false} NestedUseRestores(bs: seq<Block>, p: Program)
    requires Tiled(bs) && NoAdjacentFree(bs) && Sizes32(p)
    ensures Exec(bs, p) == Heap(bs)
    decreases p
  {
    match p
    case End =>
    case Scope(size, body, rest) =>
      var (bs1, ptr) := Malloc(bs, size);
      MallocTiled(bs, size);
      MallocNoAdjacent(bs, size);
      NestedUseRestores(bs1, body);
      if ptr != 0 {
        MallocFreeRestoresIff(bs, size);
      } else {
        MallocEffect(bs, size);
      }
      NestedUseRestores(bs, rest);
  }

  lemma MergedFits(bs: seq<Block>, k: nat, e: nat, j: nat)
    requires Tiled(bs) && k < e <= |bs| && j < |bs| && bs[j].free && bs[k].free
    ensures bs[k].addr + HEADER <= EndOf(bs[e - 1])
    ensures exists b :: b in Merged(bs, k, e) && b.free && b.size >= bs[j].size
  {
    MergeBounds(bs, k, e);
    var i := if j < k then j else if e <= j then j - e + k + 1 else k;
    MergedAt(bs, k, e, i);
    assert Merged(bs, k, e)[i] in Merged(bs, k, e);
    if k <= j < e {
      if j < e - 1 { Ordered(bs, j, e - 1); }
      if k < j { Ordered(bs, k, j); }
    }
  }

  // Coalescing never removes the last block that could serve a request.
  lemma CoalesceStillFits(bs: seq<Block>, k: nat, j: nat)
    requires Tiled(bs) && k < |bs| && j < |bs| && bs[j].free && bs[k].free
    ensures exists b :: b in Coalesce(bs, k) && b.free && b.size >= bs[j].size
  {
    CoalesceIs(bs, k);
    MergedFits(bs, k, RunEnd(bs, k + 1), j);
  }

  // From any state, kmalloc then kfree of its result never makes a request fail that
  // would have succeeded before.
  lemma MallocFreeNeverShrinks(bs: seq<Block>, size: nat, other: nat)
    requires Tiled(bs) && size < U32 && other < U32 && Malloc(bs, size).1 != 0
    ensures Live(Malloc(bs, size).0, Malloc(bs, size).1)
    ensures Malloc(bs, other).1 != 0 ==> Malloc(Free(Malloc(bs, size).0, Malloc(bs, size).1), other).1 != 0
  {
    MallocThenFree(bs, size);
    var k := FirstFit(bs, Rounded(size), 0);
    var r := Coalesce(bs, k);
    CoalesceTiled(bs, k);
    MallocEffect(bs, other);
    MallocEffect(r, other);
    if Malloc(bs, other).1 != 0 {
      CoalesceStillFits(bs, k, FirstFit(bs, Rounded(other), 0));
    }
  }

  // ------------------------------------------------------------------
  // Whole runs
  // ------------------------------------------------------------------

  datatype Call = Allocate(size: nat) | Release(ptr: nat)

  // The block list, and what the callers hold: payload address to requested bytes.
  datatype HeapState = HeapState(bs: seq<Block>, held: map<nat, nat>)

  ghost predicate Callable(st: HeapState, c: Call) {
    match c
    case Allocate(size) => size < U32
    case Release(ptr) => ptr in st.held
  }

  ghost predicate HeapInv(st: HeapState) {
    && Tiled(st.bs) && Aligned(st.bs)
    && (forall ptr :: ptr in st.held <==> Live(st.bs, ptr))
    && (forall ptr :: ptr in st.held ==> st.held[ptr] < U32)
    && (forall b :: b in st.bs && !b.free && Payload(b) in st.held ==> b.size >= Rounded(st.held[Payload(b)]))
  }

  ghost function CallStep(st: HeapState, c: Call): HeapState
    requires HeapInv(st) && Callable(st, c)
  {
    match c
    case Allocate(size) =>
      var (bs', ptr) := Malloc(st.bs, size);
      HeapState(bs', if ptr == 0 then st.held else st.held[ptr := size])
    case Release(ptr) => HeapState(Free(st.bs, ptr), st.held - {ptr})
  }

  lemma LiveIff(bs: seq<Block>, bs': seq<Block>, ptr: nat)
    requires forall b: Block :: !b.free && Payload(b) == ptr ==> (b in bs <==> b in bs')
    ensures Live(bs, ptr) <==> Live(bs', ptr)
  {
    if Live(bs, ptr) {
      var k: nat :| LiveAt(bs, k, ptr);
      assert bs[k] in bs';
      var j: nat :| j < |bs'| && bs'[j] == bs[k];
      assert LiveAt(bs', j, ptr);
    }
    if Live(bs', ptr) {
      var k: nat :| LiveAt(bs', k, ptr);
      assert bs'[k] in bs;
      var j: nat :| j < |bs| && bs[j] == bs'[k];
      assert LiveAt(bs, j, ptr);
    }
  }

  lemma AllocateHeld(st: HeapState, size: nat, p: nat)
    requires HeapInv(st) && size < U32
    ensures p in CallStep(st, Allocate(size)).held <==> Live(CallStep(st, Allocate(size)).bs, p)
  {
    MallocEffect(st.bs, size);
    if p != Malloc(st.bs, size).1 {
      LiveIff(st.bs, Malloc(st.bs, size).0, p);
    }
  }

  lemma AllocateKeepsInv(st: HeapState, size: nat)
    requires HeapInv(st) && size < U32
    ensures HeapInv(CallStep(st, Allocate(size)))
  {
    MallocEffect(st.bs, size);
    MallocTiled(st.bs, size);
    MallocAligned(st.bs, size);
    forall p ensures p in CallStep(st, Allocate(size)).held <==> Live(CallStep(st, Allocate(size)).bs, p) {
      AllocateHeld(st, size, p);
    }
  }

  lemma ReleaseKeepsInv(st: HeapState, ptr: nat)
    requires HeapInv(st) && ptr in st.held
    ensures HeapInv(CallStep(st, Release(ptr)))
  {
    var k: nat :| LiveAt(st.bs, k, ptr);
    FreeIs(st.bs, k, ptr);
    FreeEffect(st.bs, k, ptr);
    FreeTiled(st.bs, k);
    FreeAligned(st.bs, k);
    var st' := CallStep(st, Release(ptr));
    forall p ensures Live(st'.bs, p) <==> Live(st.bs, p) && p != ptr {
      if p != ptr { LiveIff(st.bs, st'.bs, p); }
    }
  }

  ghost predicate IsHeapRun(states: seq<HeapState>, calls: seq<Call>) {
    && |states| == |calls| + 1
    && states[0] == HeapState(InitialBlocks(), map[])
    && (forall k :: 0 <= k < |calls| && HeapInv(states[k]) ==>
          Callable(states[k], calls[k]) && states[k + 1] == CallStep(states[k], calls[k]))
  }

  lemma InitialInv()
    ensures HeapInv(HeapState(InitialBlocks(), map[]))
  {
  }

  lemma {:induction false} HeapRunKeepsInv(states: seq<HeapState>, calls: seq<Call>, n: nat)
    requires IsHeapRun(states, calls) && n < |states|
    ensures HeapInv(states[n])
    decreases n
  {
    if n == 0 {
      InitialInv();
    } else {
      HeapRunKeepsInv(states, calls, n - 1);
      match calls[n - 1]
      case Allocate(size) => AllocateKeepsInv(states[n - 1], size);
      case Release(ptr) => ReleaseKeepsInv(states[n - 1], ptr);
    }
  }

  // What a caller holds lies in the arena and covers its request unless the rounding wrapped.
  lemma HeldInArena(st: HeapState, p: nat, i: nat)
    requires HeapInv(st) && p in st.held && LiveAt(st.bs, i, p)
    ensures HEAP_START + HEADER <= p && p % 4 == 0 && EndOf(st.bs[i]) <= HEAP_END
    ensures st.held[p] <= 0xFFFF_FFF8 ==> p + st.held[p] <= EndOf(st.bs[i])
  {
    InArena(st.bs, i);
    RoundedCovers(st.held[p]);
    assert st.bs[i] in st.bs;
    assert st.bs[i].size >= Rounded(st.held[p]);
    PayloadAligned(st.bs[i]);
  }

  lemma PayloadAligned(b: Block)
    requires b.addr % 4 == 0
    ensures Payload(b) % 4 == 0
  {
  }

  // After any calls: what callers hold lies in the arena, is pairwise disjoint with
  // headers in between, covers each request that did not wrap, and headers plus
  // payloads add up to the arena.
  lemma HeapRunSafe(states: seq<HeapState>, calls: seq<Call>, n: nat, p: nat, q: nat)
    requires IsHeapRun(states, calls) && n < |states| && p in states[n].held && q in states[n].held
    ensures TotalSize(states[n].bs) == HEAP_END - HEAP_START
    ensures states[n].held[p] <= 0xFFFF_FFF8 ==> HEAP_START + HEADER <= p && p + states[n].held[p] <= HEAP_END
    ensures p < q && states[n].held[p] <= 0xFFFF_FFF8 ==> p + states[n].held[p] + HEADER <= q
    ensures p % 4 == 0
  {
    HeapRunKeepsInv(states, calls, n);
    var st := states[n];
    SpaceConserved(st.bs);
    assert Live(st.bs, p) && Live(st.bs, q);
    var i: nat :| LiveAt(st.bs, i, p);
    var j: nat :| LiveAt(st.bs, j, q);
    HeldInArena(st, p, i);
    if p < q { LiveOrder(st.bs, i, j, p, q); }
  }

  lemma LiveOrder(bs: seq<Block>, i: nat, j: nat, p: nat, q: nat)
    requires Tiled(bs) && LiveAt(bs, i, p) && LiveAt(bs, j, q) && p < q
    ensures EndOf(bs[i]) + HEADER <= q
  {
    if j < i { Ordered(bs, j, i); }
    Ordered(bs, i, j);
  }

  // kheap_init: the megabyte from 0x300000 on, less one header.
  lemma ArenaIs()
    ensures InitialBlocks() == [Block(0x30_0000, 0xF_FFF4, true)]
  {
  }

  // A request of 0xFFFFFFFF bytes wraps, is rounded to zero and succeeds with no payload at all.
  lemma WrappedRequest()
    ensures var (bs, ptr) := Malloc(InitialBlocks(), 0xFFFF_FFFF);
            ptr == HEAP_START + HEADER && |bs| == 2 && bs[0] == Block(HEAP_START, 0, false)
  {
    RoundedCovers(0xFFFF_FFFF);
    assert FirstFit(InitialBlocks(), 0, 0) == 0;
  }
}
