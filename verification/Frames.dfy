// Physical frame allocator: a bitmap with first-fit allocation and one
// saturating reference counter per frame (kernel/mm.c).

module Frames {

  const FRAME_COUNT: nat := 1024
  const DYN_START: nat := 304      // 0x130000 / 0x1000
  const DYN_END: nat := 768        // 0x300000 / 0x1000
  const REF_MAX: nat := 255        // frame_refs[] is an array of u8

  // ------------------------------------------------------------------
  // Specification: a frame table is one "used" flag and one counter per frame
  // ------------------------------------------------------------------

  datatype FrameTable = FrameTable(used: seq<bool>, refs: seq<nat>)

  predicate Sized(ft: FrameTable) {
    |ft.used| == FRAME_COUNT && |ft.refs| == FRAME_COUNT
  }

  function BootTable(): (ft: FrameTable)
    ensures Sized(ft)
  {
    FrameTable(seq(FRAME_COUNT, i => i < DYN_START || DYN_END <= i), seq(FRAME_COUNT, i => 0))
  }

  // The lowest free frame at or above `from`, or |used| when there is none.
  function FirstFree(used: seq<bool>, from: nat): (f: nat)
    requires from <= |used|
    ensures from <= f <= |used|
    ensures f < |used| ==> !used[f]
    ensures forall j :: from <= j < f ==> used[j]
    decreases |used| - from
  {
    if from == |used| || !used[from] then from else FirstFree(used, from + 1)
  }

  // Frame 0 stands for the null pointer; it is reserved, so it is never handed out.
  function Alloc(ft: FrameTable): (r: (FrameTable, nat))
    requires Sized(ft)
    ensures Sized(r.0)
  {
    var f := FirstFree(ft.used, 0);
    if f == FRAME_COUNT then (ft, 0) else (ft.(used := ft.used[f := true]), f)
  }

  function Free(ft: FrameTable, f: nat): (r: FrameTable)
    requires Sized(ft)
    ensures Sized(r)
  {
    if f >= FRAME_COUNT then ft else ft.(used := ft.used[f := false])
  }

  function RefInc(ft: FrameTable, f: nat): (r: FrameTable)
    requires Sized(ft)
    ensures Sized(r)
  {
    if f < FRAME_COUNT && ft.refs[f] < REF_MAX then ft.(refs := ft.refs[f := ft.refs[f] + 1]) else ft
  }

  function RefDec(ft: FrameTable, f: nat): (r: FrameTable)
    requires Sized(ft)
    ensures Sized(r)
  {
    if f >= FRAME_COUNT then ft
    else
      var refs := if ft.refs[f] > 0 then ft.refs[f := ft.refs[f] - 1] else ft.refs;
      var ft1 := ft.(refs := refs);
      if refs[f] == 0 && ft.used[f] then Free(ft1, f) else ft1
  }

  function CountFree(used: seq<bool>, n: nat): nat
    requires n <= |used|
  {
    if n == 0 then 0 else CountFree(used, n - 1) + (if used[n - 1] then 0 else 1)
  }

  ghost function FreeSet(used: seq<bool>, n: nat): set<nat>
    requires n <= |used|
  {
    set f: nat | f < n && !used[f]
  }

  // mm_free_frames counts exactly the free frames.
  lemma {:induction false} CountFreeIsCardinality(used: seq<bool>, n: nat)
    requires n <= |used|
    ensures CountFree(used, n) == |FreeSet(used, n)|
  {
    if n == 0 {
      assert FreeSet(used, 0) == {};
    } else {
      CountFreeIsCardinality(used, n - 1);
      if used[n - 1] {
        assert FreeSet(used, n) == FreeSet(used, n - 1);
      } else {
        assert FreeSet(used, n) == FreeSet(used, n - 1) + {n - 1};
      }
    }
  }

  // Allocation fails exactly when no frame is free, and otherwise takes the lowest one.
  lemma AllocFirstFit(ft: FrameTable)
    requires Sized(ft) && ft.used[0]
    ensures var (ft', f) := Alloc(ft);
            && (f == 0 <==> forall g :: 0 <= g < FRAME_COUNT ==> ft.used[g])
            && (f == 0 ==> ft' == ft)
            && (f != 0 ==> f < FRAME_COUNT && !ft.used[f] && ft' == ft.(used := ft.used[f := true])
                           && forall g :: 0 <= g < f ==> ft.used[g])
  {
    var f := FirstFree(ft.used, 0);
    if f == FRAME_COUNT {
    } else {
      assert !ft.used[f];
    }
  }

  // Free frames, as mm_free_frames counts them.
  ghost function FreeFrames(ft: FrameTable): nat { |FreeSet(ft.used, |ft.used|)| }

  // Allocation fails exactly when none is free, and otherwise leaves one fewer.
  lemma AllocCounts(ft: FrameTable)
    requires Sized(ft) && ft.used[0]
    ensures var (ft', f) := Alloc(ft);
            && (f == 0 <==> FreeFrames(ft) == 0)
            && (f != 0 ==> FreeFrames(ft') + 1 == FreeFrames(ft))
  {
    AllocFirstFit(ft);
    var (ft', f) := Alloc(ft);
    var free := FreeSet(ft.used, FRAME_COUNT);
    if f == 0 {
      assert free == {};
    } else {
      assert f in free && FreeSet(ft'.used, FRAME_COUNT) == free - {f};
    }
  }

  // After mm_init the 464 frames from 0x130000 up to 0x300000 are free, and nobody's.
  lemma FreeAtBoot()
    ensures FreeFrames(BootTable()) == 464
    ensures forall f :: 0 <= f < 1024 ==> BootTable().refs[f] == 0
                                          && (BootTable().used[f] <==> f * 4096 < 0x13_0000 || 0x30_0000 <= f * 4096)
  {
    assert FreeSet(BootTable().used, FRAME_COUNT) == Range(DYN_START, DYN_END);
  }

  // The numbers in [lo, hi).
  ghost function Range(lo: nat, hi: nat): (r: set<nat>)
    requires lo <= hi
    ensures forall x :: x in r <==> lo <= x < hi
    ensures |r| == hi - lo
    decreases hi
  {
    if lo == hi then {} else Range(lo, hi - 1) + {hi - 1}
  }

  // First-fit pigeonhole: when fewer than k - DYN_START dynamic frames are in use,
  // the frame handed out lies below k.
  lemma FirstFitBelow(used: seq<bool>, k: nat)
    requires |used| == FRAME_COUNT && DYN_START < k <= DYN_END
    requires |(set f: nat | DYN_START <= f < DYN_END && used[f])| < k - DYN_START
    ensures FirstFree(used, 0) < k
  {
    if FirstFree(used, 0) >= k {
      var inUse := set f: nat | DYN_START <= f < DYN_END && used[f];
      forall g | g in Range(DYN_START, k) ensures g in inUse { assert used[g]; }
      SubsetSize(Range(DYN_START, k), inUse);
      assert false;
    }
  }

  lemma {:induction false} SubsetSize<T>(a: set<T>, b: set<T>)
    requires a <= b
    ensures |a| <= |b|
    decreases |a|
  {
    if a == {} {
    } else {
      var x :| x in a;
      SubsetSize(a - {x}, b - {x});
    }
  }

  // ------------------------------------------------------------------
  // The bitmap: eight frames per byte
  // ------------------------------------------------------------------

  predicate Bit(b: bv8, k: nat)
    requires k < 8
  {
    b & (1 << k) != 0
  }

  ghost function Bits(bitmap: seq<bv8>): (used: seq<bool>)
    ensures |used| == 8 * |bitmap|
    ensures forall i: nat :: i < 8 * |bitmap| ==> used[i] == Bit(bitmap[i / 8], i % 8)
  {
    seq(8 * |bitmap|, i requires 0 <= i < 8 * |bitmap| => Bit(bitmap[i / 8], i % 8))
  }

  function Mask(k: nat): bv8
    requires k < 8
  {
    if k == 0 then 1 else if k == 1 then 2 else if k == 2 then 4 else if k == 3 then 8
    else if k == 4 then 16 else if k == 5 then 32 else if k == 6 then 64 else 128
  }

  lemma MaskIs(k: nat)
    requires k < 8
    ensures (1 as bv8) << k == Mask(k)
  {
    assert k == 0 || k == 1 || k == 2 || k == 3 || k == 4 || k == 5 || k == 6 || k == 7;
  }

  lemma SetBit(b: bv8, k: nat, j: nat)
    requires k < 8 && j < 8
    ensures Bit(b | (1 << k), j) == (j == k || Bit(b, j))
  {
    MaskIs(k);
    MaskIs(j);
  }

  lemma ClearBit(b: bv8, k: nat, j: nat)
    requires k < 8 && j < 8
    ensures Bit(b & !(1 << k), j) == (j != k && Bit(b, j))
  {
    MaskIs(k);
    MaskIs(j);
  }

  // Writing one byte of the bitmap changes exactly one flag.
  lemma SetFlag(bitmap: seq<bv8>, i: nat)
    requires |bitmap| == FRAME_COUNT / 8 && i < FRAME_COUNT
    ensures Bits(bitmap[i / 8 := bitmap[i / 8] | (1 << (i % 8))]) == Bits(bitmap)[i := true]
  {
    SetBit(bitmap[i / 8], i % 8, i % 8);
    forall j: nat | j < FRAME_COUNT && j / 8 == i / 8
      ensures Bit(bitmap[i / 8] | (1 << (i % 8)), j % 8) == (j == i || Bit(bitmap[j / 8], j % 8))
    {
      SetBit(bitmap[i / 8], i % 8, j % 8);
    }
    FlagWritten(bitmap, i, bitmap[i / 8] | (1 << (i % 8)), true);
  }

  lemma ClearFlag(bitmap: seq<bv8>, i: nat)
    requires |bitmap| == FRAME_COUNT / 8 && i < FRAME_COUNT
    ensures Bits(bitmap[i / 8 := bitmap[i / 8] & !(1 << (i % 8))]) == Bits(bitmap)[i := false]
  {
    forall j: nat | j < FRAME_COUNT && j / 8 == i / 8
      ensures Bit(bitmap[i / 8] & !(1 << (i % 8)), j % 8) == (j != i && Bit(bitmap[j / 8], j % 8))
    {
      ClearBit(bitmap[i / 8], i % 8, j % 8);
    }
    FlagWritten(bitmap, i, bitmap[i / 8] & !(1 << (i % 8)), false);
  }

  lemma FlagWritten(bitmap: seq<bv8>, i: nat, b: bv8, flag: bool)
    requires |bitmap| == FRAME_COUNT / 8 && i < FRAME_COUNT
    requires forall j: nat :: j < FRAME_COUNT && j / 8 == i / 8 ==>
             Bit(b, j % 8) == if j == i then flag else Bit(bitmap[j / 8], j % 8)
    ensures Bits(bitmap[i / 8 := b]) == Bits(bitmap)[i := flag]
  {
    var bitmap' := bitmap[i / 8 := b];
    forall j: nat | j < FRAME_COUNT ensures Bits(bitmap')[j] == Bits(bitmap)[i := flag][j] {
      assert Bits(bitmap')[j] == Bit(bitmap'[j / 8], j % 8);
    }
  }

  // ------------------------------------------------------------------
  // The allocator itself
  // ------------------------------------------------------------------

  class FrameAllocator {
    const bitmap: array<bv8>
    const frameRefs: array<nat>

    ghost predicate Valid()
      reads bitmap, frameRefs
    {
      bitmap.Length == FRAME_COUNT / 8 && frameRefs.Length == FRAME_COUNT
    }

    ghost function Table(): (ft: FrameTable)
      reads bitmap, frameRefs
      requires Valid()
      ensures Sized(ft)
    {
      FrameTable(Bits(bitmap[..]), frameRefs[..])
    }

    // mm_init
    constructor ()
      ensures Valid() && fresh(bitmap) && fresh(frameRefs)
      ensures Table() == BootTable()
    {
      bitmap := new bv8[FRAME_COUNT / 8](_ => 0);
      frameRefs := new nat[FRAME_COUNT](_ => 0);
      new;
      assert forall i: nat :: i < FRAME_COUNT ==> Bits(bitmap[..])[i] == Bit(0, i % 8);
      assert forall k: nat :: k < 8 ==> !Bit(0, k);
      for i := 0 to DYN_START
        invariant forall j: nat :: j < FRAME_COUNT ==> Bits(bitmap[..])[j] == (j < i)
        invariant forall j: nat :: j < FRAME_COUNT ==> frameRefs[j] == 0
      {
        MarkUsed(i);
      }
      for i := DYN_END to FRAME_COUNT
        invariant forall j: nat :: j < FRAME_COUNT ==> Bits(bitmap[..])[j] == (j < DYN_START || DYN_END <= j < i)
        invariant forall j: nat :: j < FRAME_COUNT ==> frameRefs[j] == 0
      {
        MarkUsed(i);
      }
      assert Table().used == BootTable().used;
      assert Table().refs == BootTable().refs;
    }

    method MarkUsed(i: nat)
      requires Valid() && i < FRAME_COUNT
      modifies bitmap
      ensures Valid() && Table() == old(Table()).(used := old(Table()).used[i := true])
    {
      ghost var before := bitmap[..];
      SetFlag(before, i);
      bitmap[i / 8] := bitmap[i / 8] | (1 << (i % 8));
      assert bitmap[..] == before[i / 8 := before[i / 8] | (1 << (i % 8))];
    }

    // frame_alloc: the frame number, or 0 for the null pointer.
    method FrameAlloc() returns (f: nat)
      requires Valid()
      modifies bitmap
      ensures Valid() && (Table(), f) == Alloc(old(Table()))
    {
      ghost var used := Bits(bitmap[..]);
      for i := 0 to FRAME_COUNT
        invariant Table() == old(Table())
        invariant FirstFree(used, 0) == FirstFree(used, i)
      {
        if bitmap[i / 8] & (1 << (i % 8)) == 0 {
          assert !used[i];
          MarkUsed(i);
          return i;
        }
        assert used[i];
      }
      return 0;
    }

    // frame_free
    method FrameFree(f: nat)
      requires Valid()
      modifies bitmap
      ensures Valid() && Table() == Free(old(Table()), f)
    {
      if f < FRAME_COUNT {
        MarkFree(f);
      }
    }

    method MarkFree(i: nat)
      requires Valid() && i < FRAME_COUNT
      modifies bitmap
      ensures Valid() && Table() == old(Table()).(used := old(Table()).used[i := false])
    {
      ghost var before := bitmap[..];
      ClearFlag(before, i);
      bitmap[i / 8] := bitmap[i / 8] & !(1 << (i % 8));
      assert bitmap[..] == before[i / 8 := before[i / 8] & !(1 << (i % 8))];
    }

    // mm_free_frames
    method FreeFrames() returns (n: nat)
      requires Valid()
      ensures n == |FreeSet(Table().used, FRAME_COUNT)|
    {
      n := 0;
      for i := 0 to FRAME_COUNT
        invariant n == CountFree(Table().used, i)
      {
        if bitmap[i / 8] & (1 << (i % 8)) == 0 {
          n := n + 1;
        }
      }
      CountFreeIsCardinality(Table().used, FRAME_COUNT);
    }

    // mm_ref_inc
    method Inc(f: nat)
      requires Valid()
      modifies frameRefs
      ensures Valid() && Table() == RefInc(old(Table()), f)
    {
      if f < FRAME_COUNT && frameRefs[f] < REF_MAX {
        frameRefs[f] := frameRefs[f] + 1;
      }
    }

    // mm_ref_dec
    method Dec(f: nat)
      requires Valid()
      modifies bitmap, frameRefs
      ensures Valid() && Table() == RefDec(old(Table()), f)
    {
      if f >= FRAME_COUNT {
        return;
      }
      if frameRefs[f] > 0 {
        frameRefs[f] := frameRefs[f] - 1;
      }
      if frameRefs[f] == 0 && bitmap[f / 8] & (1 << (f % 8)) != 0 {
        FrameFree(f);
      }
    }
  }
}
