// The heap as it runs: block headers are three words inside the arena they describe,
// split and merged in place by following the next pointers.

module KernelHeap {
  import opened HeapBlocks
  import opened HeapRuns

  // Memory is an array of 32-bit words: slot a holds the word at address a. The heap
  // uses the slots of word-aligned addresses in the arena (see Aligned).
  const MEM_END: nat := HEAP_END

  // ------------------------------------------------------------------
  // What the words of the arena say
  // ------------------------------------------------------------------

  // The header of block b holds (size, free, next).
  ghost predicate HeaderAt(ws: seq<nat>, b: Block, next: nat) {
    && HEAP_START <= b.addr && b.addr + HEADER <= HEAP_END && |ws| == MEM_END
    && ws[b.addr] == b.size
    && ws[b.addr + 4] == (if b.free then 1 else 0)
    && ws[b.addr + 8] == next
  }

  function NextAddr(bs: seq<Block>, k: nat): nat {
    if k + 1 < |bs| then bs[k + 1].addr else 0
  }

  ghost predicate Headers(ws: seq<nat>, bs: seq<Block>) {
    |ws| == MEM_END && forall k: nat {:trigger NextAddr(bs, k)} :: k < |bs| ==> HeaderAt(ws, bs[k], NextAddr(bs, k))
  }

  // Only words with an address in [lo, hi) differ.
  ghost predicate ChangedWithin(ws: seq<nat>, ws': seq<nat>, lo: nat, hi: nat) {
    && |ws| == |ws'| == MEM_END
    && forall i: nat :: i < MEM_END && !(lo <= i < hi) ==> ws'[i] == ws[i]
  }

  // Every word of every live payload is as before.
  ghost predicate PayloadsKept(bs: seq<Block>, ws: seq<nat>, ws': seq<nat>) {
    && |ws| == |ws'| == MEM_END
    && forall b: Block, i: nat :: b in bs && !b.free && i < MEM_END && Payload(b) <= i < EndOf(b) ==> ws'[i] == ws[i]
  }

  // Writing inside block k disturbs neither the header nor the payload of another block.
  lemma OtherBlock(ws: seq<nat>, ws': seq<nat>, bs: seq<Block>, k: nat, j: nat)
    requires Tiled(bs) && Headers(ws, bs) && k < |bs| && j < |bs| && j != k
    requires ChangedWithin(ws, ws', bs[k].addr, EndOf(bs[k]))
    ensures HeaderAt(ws', bs[j], NextAddr(bs, j))
    ensures forall i: nat :: i < MEM_END && bs[j].addr <= i < EndOf(bs[j]) ==> ws'[i] == ws[i]
  {
    InArena(bs, j);
    if j < k { Ordered(bs, j, k); } else { Ordered(bs, k, j); }
    assert HeaderAt(ws, bs[j], NextAddr(bs, j));
  }

  lemma FreeBlockWritten(ws: seq<nat>, ws': seq<nat>, bs: seq<Block>, k: nat)
    requires Tiled(bs) && Headers(ws, bs) && k < |bs| && bs[k].free
    requires ChangedWithin(ws, ws', bs[k].addr, EndOf(bs[k]))
    ensures PayloadsKept(bs, ws, ws')
  {
    forall b: Block, i: nat | b in bs && !b.free && i < MEM_END && Payload(b) <= i < EndOf(b) ensures ws'[i] == ws[i] {
      var j: nat :| j < |bs| && bs[j] == b;
      OtherBlock(ws, ws', bs, k, j);
    }
  }

  // ------------------------------------------------------------------
  // The three in-place updates
  // ------------------------------------------------------------------

  // The stores of heap_split: a header for the remainder, a new size and next for block b.
  ghost predicate SplitWritten(ws: seq<nat>, ws': seq<nat>, b: nat, need: nat) {
    && HEAP_START <= b && b + 2 * HEADER + need <= HEAP_END && |ws| == |ws'| == MEM_END
    && ws'[b] == need && ws'[b + 4] == ws[b + 4] && ws'[b + 8] == b + HEADER + need
    && ws'[b + HEADER + need] + need + HEADER == ws[b]
    && ws'[b + HEADER + need + 4] == 1
    && ws'[b + HEADER + need + 8] == ws[b + 8]
    && ChangedWithin(ws, ws', b, b + 2 * HEADER + need)
  }

  function SplitBlocks(bs: seq<Block>, k: nat, need: nat): seq<Block>
    requires k < |bs| && need + HEADER <= bs[k].size
  {
    bs[..k] + [Block(bs[k].addr, need, true),
        Block(bs[k].addr + HEADER + need, bs[k].size - need - HEADER, true)] + bs[k + 1..]
  }

  lemma SplitAt(bs: seq<Block>, k: nat, need: nat, j: nat)
    requires k < |bs| && need + HEADER <= bs[k].size && j < |SplitBlocks(bs, k, need)|
    ensures var r := SplitBlocks(bs, k, need);
            && (j < k ==> r[j] == bs[j] && NextAddr(r, j) == NextAddr(bs, j))
            && (j == k ==> r[j] == Block(bs[k].addr, need, true) && NextAddr(r, j) == bs[k].addr + HEADER + need)
            && (j == k + 1 ==> r[j] == Block(bs[k].addr + HEADER + need, bs[k].size - need - HEADER, true))
            && (j == k + 1 ==> NextAddr(r, j) == NextAddr(bs, k))
            && (j > k + 1 ==> r[j] == bs[j - 1] && NextAddr(r, j) == NextAddr(bs, j - 1))
  {
  }

  lemma SplitKeeps(ws: seq<nat>, ws': seq<nat>, bs: seq<Block>, k: nat, need: nat)
    requires Tiled(bs) && Headers(ws, bs) && k < |bs| && bs[k].free && need + HEADER <= bs[k].size
    requires SplitWritten(ws, ws', bs[k].addr, need)
    ensures ChangedWithin(ws, ws', bs[k].addr, EndOf(bs[k]))
    ensures HeaderAt(ws', Block(bs[k].addr, need, true), bs[k].addr + HEADER + need)
    ensures HeaderAt(ws', Block(bs[k].addr + HEADER + need, bs[k].size - need - HEADER, true), NextAddr(bs, k))
  {
    InArena(bs, k);
    assert HeaderAt(ws, bs[k], NextAddr(bs, k));
  }

  lemma SplitHeaders(ws: seq<nat>, ws': seq<nat>, bs: seq<Block>, k: nat, need: nat)
    requires Tiled(bs) && Headers(ws, bs) && k < |bs| && bs[k].free && need + HEADER <= bs[k].size
    requires SplitWritten(ws, ws', bs[k].addr, need)
    ensures Headers(ws', SplitBlocks(bs, k, need))
    ensures PayloadsKept(bs, ws, ws')
  {
    SplitKeeps(ws, ws', bs, k, need);
    FreeBlockWritten(ws, ws', bs, k);
    var r := SplitBlocks(bs, k, need);
    forall j: nat | j < |r| ensures HeaderAt(ws', r[j], NextAddr(r, j)) {
      SplitAt(bs, k, need, j);
      if j < k { OtherBlock(ws, ws', bs, k, j); }
      if j > k + 1 { OtherBlock(ws, ws', bs, k, j - 1); }
    }
  }

  // The store that sets or clears the free word of the header at b.
  ghost predicate MarkWritten(ws: seq<nat>, ws': seq<nat>, b: nat, free: bool) {
    && HEAP_START <= b && b + HEADER <= HEAP_END && |ws| == |ws'| == MEM_END
    && ws'[b + 4] == (if free then 1 else 0)
    && forall i: nat :: i < MEM_END && i != b + 4 ==> ws'[i] == ws[i]
  }

  lemma MarkHeaders(ws: seq<nat>, ws': seq<nat>, bs: seq<Block>, k: nat, free: bool)
    requires Tiled(bs) && Headers(ws, bs) && k < |bs| && MarkWritten(ws, ws', bs[k].addr, free)
    ensures Headers(ws', bs[k := bs[k].(free := free)]) && PayloadsKept(bs, ws, ws')
  {
    InArena(bs, k);
    assert HeaderAt(ws, bs[k], NextAddr(bs, k));
    var r := bs[k := bs[k].(free := free)];
    forall j: nat | j < |r| ensures HeaderAt(ws', r[j], NextAddr(r, j)) {
      assert NextAddr(r, j) == NextAddr(bs, j);
      if j != k { OtherBlock(ws, ws', bs, k, j); }
    }
    forall b: Block, w: nat | b in bs && !b.free && w < MEM_END && Payload(b) <= w < EndOf(b) ensures ws'[w] == ws[w] {
      var j: nat :| j < |bs| && bs[j] == b;
      if j != k { OtherBlock(ws, ws', bs, k, j); }
    }
  }

  // The stores of one round of kfree's loop.
  ghost predicate AbsorbWritten(ws: seq<nat>, ws': seq<nat>, b: nat, next: nat) {
    && HEAP_START <= b && b + HEADER <= HEAP_END && HEAP_START <= next && next + HEADER <= HEAP_END &&
       |ws| == |ws'| == MEM_END
    && ws'[b] == ws[b] + HEADER + ws[next]
    && ws'[b + 4] == ws[b + 4]
    && ws'[b + 8] == ws[next + 8]
    && ChangedWithin(ws, ws', b, b + HEADER)
  }

  // What kfree reads before it merges block k with its successor.
  lemma ReadNext(ws: seq<nat>, bs: seq<Block>, k: nat)
    requires Tiled(bs) && Headers(ws, bs) && k < |bs|
    ensures HEAP_START <= bs[k].addr && bs[k].addr + HEADER <= HEAP_END && |ws| == MEM_END
    ensures ws[bs[k].addr] == bs[k].size && ws[bs[k].addr + 4] == (if bs[k].free then 1 else 0)
    ensures ws[bs[k].addr + 8] == if k + 1 < |bs| then bs[k + 1].addr else 0
  {
    assert HeaderAt(ws, bs[k], NextAddr(bs, k));
  }

  lemma AbsorbAt(bs: seq<Block>, k: nat, j: nat)
    requires k + 1 < |bs| && j < |Absorb(bs, k)|
    ensures var r := Absorb(bs, k);
            && (j < k ==> r[j] == bs[j] && NextAddr(r, j) == NextAddr(bs, j))
            && (j == k ==> r[j] == bs[k].(size := bs[k].size + HEADER + bs[k + 1].size))
            && (j == k ==> NextAddr(r, j) == NextAddr(bs, k + 1))
            && (j > k ==> r[j] == bs[j + 1] && NextAddr(r, j) == NextAddr(bs, j + 1))
  {
  }

  // Block k takes over its successor's size and next pointer.
  lemma AbsorbHeaders(ws: seq<nat>, ws': seq<nat>, bs: seq<Block>, k: nat)
    requires Tiled(bs) && Headers(ws, bs) && k + 1 < |bs| && bs[k].free
    requires AbsorbWritten(ws, ws', bs[k].addr, bs[k + 1].addr)
    ensures Headers(ws', Absorb(bs, k))
    ensures PayloadsKept(bs, ws, ws')
  {
    ReadNext(ws, bs, k);
    ReadNext(ws, bs, k + 1);
    assert ChangedWithin(ws, ws', bs[k].addr, EndOf(bs[k]));
    FreeBlockWritten(ws, ws', bs, k);
    var r := Absorb(bs, k);
    forall j: nat | j < |r| ensures HeaderAt(ws', r[j], NextAddr(r, j)) {
      AbsorbAt(bs, k, j);
      if j < k { OtherBlock(ws, ws', bs, k, j); }
      if j > k { OtherBlock(ws, ws', bs, k, j + 1); }
    }
  }

  lemma AbsorbKeepsLive(bs: seq<Block>, k: nat, x: Block)
    requires k + 1 < |bs| && bs[k].free && bs[k + 1].free && x in bs && !x.free
    ensures x in Absorb(bs, k)
  {
    var j: nat :| j < |bs| && bs[j] == x;
    AbsorbAt(bs, k, if j < k then j else j - 1);
    assert Absorb(bs, k)[if j < k then j else j - 1] == x;
  }

  lemma SplitIsTake(bs: seq<Block>, k: nat, need: nat)
    requires k < |bs| && bs[k].free && bs[k].size - need > HEADER + 8
    ensures SplitBlocks(bs, k, need)[k := SplitBlocks(bs, k, need)[k].(free := false)] == TakeBlock(bs, k, need)
    ensures forall x :: x in bs && !x.free ==> x in SplitBlocks(bs, k, need)
  {
    forall x | x in bs && !x.free ensures x in SplitBlocks(bs, k, need) {
      var j: nat :| j < |bs| && bs[j] == x;
      SplitAt(bs, k, need, if j < k then j else j + 1);
      assert SplitBlocks(bs, k, need)[if j < k then j else j + 1] == x;
    }
  }

  lemma SplitTiled(bs: seq<Block>, k: nat, need: nat)
    requires Tiled(bs) && k < |bs| && bs[k].free && bs[k].size - need > HEADER + 8
    ensures Tiled(SplitBlocks(bs, k, need)) && k < |SplitBlocks(bs, k, need)|
    ensures SplitBlocks(bs, k, need)[k].addr == bs[k].addr
  {
    var r := SplitBlocks(bs, k, need);
    var t := TakeBlock(bs, k, need);
    TakeTiled(bs, k, need);
    SplitIsTake(bs, k, need);
    assert forall j :: 0 <= j < |r| ==> r[j].addr == t[j].addr && r[j].size == t[j].size;
  }

  lemma WholeIsTake(bs: seq<Block>, k: nat, need: nat)
    requires k < |bs| && need <= bs[k].size <= need + HEADER + 8
    ensures bs[k := bs[k].(free := false)] == TakeBlock(bs, k, need)
  {
  }

  lemma KeptTwice(bs: seq<Block>, bs1: seq<Block>, ws: seq<nat>, ws1: seq<nat>, ws2: seq<nat>)
    requires PayloadsKept(bs, ws, ws1) && PayloadsKept(bs1, ws1, ws2)
    requires forall b :: b in bs && !b.free ==> b in bs1
    ensures PayloadsKept(bs, ws, ws2)
  {
  }

  // A caller that stays inside its own payload leaves every header as it was.
  lemma PayloadWrites(ws: seq<nat>, ws': seq<nat>, bs: seq<Block>, k: nat)
    requires Tiled(bs) && Headers(ws, bs) && k < |bs|
    requires ChangedWithin(ws, ws', Payload(bs[k]), EndOf(bs[k]))
    ensures Headers(ws', bs)
  {
    forall j: nat | j < |bs| ensures HeaderAt(ws', bs[j], NextAddr(bs, j)) {
      assert HeaderAt(ws, bs[j], NextAddr(bs, j));
      if j != k { OtherBlock(ws, ws', bs, k, j); }
    }
  }

  // ------------------------------------------------------------------
  // The allocator itself
  // ------------------------------------------------------------------

  class Heap {
    const words: array<nat>
    ghost var blocks: seq<Block>       // what the headers say

    ghost predicate Valid()
      reads this, words
    {
      words.Length == MEM_END && Tiled(blocks) && Headers(words[..], blocks)
    }

    // kheap_init
    constructor ()
      ensures Valid() && fresh(words) && blocks == InitialBlocks()
    {
      words := new nat[MEM_END](_ => 0);
      blocks := InitialBlocks();
      new;
      words[HEAP_START] := HEAP_END - HEAP_START - HEADER;
      words[HEAP_START + 4] := 1;
      words[HEAP_START + 8] := 0;
    }

    // The five stores of heap_split.
    method WriteSplit(b: nat, need: nat)
      requires words.Length == MEM_END && HEAP_START <= b && b + 2 * HEADER + need <= HEAP_END
      requires words[b] >= need + HEADER
      modifies words
      ensures SplitWritten(old(words[..]), words[..], b, need)
    {
      var total := words[b];
      var rest := b + HEADER + need;
      words[rest] := total - need - HEADER;
      words[rest + 4] := 1;
      words[rest + 8] := words[b + 8];
      words[b] := need;
      words[b + 8] := rest;
    }

    // heap_split on block k, whose header is at address b
    method SplitBlock(ghost k: nat, b: nat, need: nat)
      requires Valid() && k < |blocks| && blocks[k].addr == b && blocks[k].free && need <= blocks[k].size
      modifies this, words
      ensures Valid() && k < |blocks| && blocks[k].addr == b
      ensures blocks[k := blocks[k].(free := false)] == TakeBlock(old(blocks), k, need)
      ensures PayloadsKept(old(blocks), old(words[..]), words[..])
      ensures forall x :: x in old(blocks) && !x.free ==> x in blocks
    {
      ReadNext(words[..], blocks, k);
      InArena(blocks, k);
      if words[b] - need > HEADER + 8 {
        WriteSplit(b, need);
        SplitHeaders(old(words[..]), words[..], blocks, k, need);
        SplitIsTake(blocks, k, need);
        SplitTiled(blocks, k, need);
        blocks := SplitBlocks(blocks, k, need);
      } else {
        WholeIsTake(blocks, k, need);
      }
    }

    // What kmalloc does with the first block that fits.
    method Take(ghost k: nat, b: nat, need: nat)
      requires Valid() && k < |blocks| && blocks[k].addr == b && blocks[k].free && need <= blocks[k].size
      modifies this, words
      ensures Valid() && blocks == TakeBlock(old(blocks), k, need)
      ensures PayloadsKept(old(blocks), old(words[..]), words[..])
    {
      SplitBlock(k, b, need);
      ghost var ws1, bs1 := words[..], blocks;
      ReadNext(words[..], blocks, k);
      words[b + 4] := 0;
      assert MarkWritten(ws1, words[..], b, false);
      MarkHeaders(ws1, words[..], bs1, k, false);
      KeptTwice(old(blocks), bs1, old(words[..]), ws1, words[..]);
      blocks := blocks[k := blocks[k].(free := false)];
      TakeTiled(old(blocks), k, need);
    }

    // kmalloc: the payload address, or 0.
    method Kmalloc(size: nat) returns (ptr: nat)
      requires Valid() && size < U32
      modifies this, words
      ensures Valid() && (blocks, ptr) == Malloc(old(blocks), size)
      ensures PayloadsKept(old(blocks), old(words[..]), words[..])
    {
      var need := if size == 0 then 8 else (size + 7) % U32 / 8 * 8;
      assert need == Rounded(size);
      var b := HEAP_START;
      ghost var k := 0;
      while b != 0
        invariant Valid() && blocks == old(blocks) && words[..] == old(words[..])
        invariant k <= |blocks| && b == (if k < |blocks| then blocks[k].addr else 0) && (b == 0 <==> k == |blocks|)
        invariant FirstFit(blocks, need, 0) == FirstFit(blocks, need, k)
        decreases |blocks| - k
      {
        ReadNext(words[..], blocks, k);
        if words[b + 4] != 0 && words[b] >= need {
          Take(k, b, need);
          return b + HEADER;
        }
        InNext(blocks, k);
        b := words[b + 8];
        k := k + 1;
      }
      return 0;
    }

    // One round of kfree's loop: block k absorbs the free block at `next`.
    method MergeNext(ghost k: nat, b: nat, next: nat) returns (after: nat)
      requires Valid() && k + 1 < |blocks| && blocks[k].addr == b && blocks[k].free
      requires blocks[k + 1].addr == next && blocks[k + 1].free
      modifies this, words
      ensures Valid() && blocks == Absorb(old(blocks), k)
      ensures k < |blocks| && blocks[k].addr == b && blocks[k].free && after == NextAddr(blocks, k)
      ensures PayloadsKept(old(blocks), old(words[..]), words[..])
    {
      ReadNext(words[..], blocks, k);
      ReadNext(words[..], blocks, k + 1);
      InArena(blocks, k);
      assert EndOf(blocks[k]) == next;
      words[b] := words[b] + HEADER + words[next];
      words[b + 8] := words[next + 8];
      assert AbsorbWritten(old(words[..]), words[..], b, next);
      AbsorbHeaders(old(words[..]), words[..], blocks, k);
      AbsorbTiled(blocks, k);
      AbsorbAt(blocks, k, k);
      blocks := Absorb(blocks, k);
      ReadNext(words[..], blocks, k);
      after := words[b + 8];
    }

    // Does the header at `next` exist and say free?
    method NextIsFree(ghost k: nat, next: nat) returns (free: bool)
      requires Valid() && k < |blocks| && next == NextAddr(blocks, k)
      ensures free == (k + 1 < |blocks| && blocks[k + 1].free)
    {
      if next == 0 {
        InNext(blocks, k);
        return false;
      }
      InNext(blocks, k);
      ReadNext(words[..], blocks, k + 1);
      return words[next + 4] != 0;
    }

    // kfree's loop on block k, whose header is at address b
    method MergeFree(ghost k: nat, b: nat)
      requires Valid() && k < |blocks| && blocks[k].addr == b && blocks[k].free
      modifies this, words
      ensures Valid() && blocks == Coalesce(old(blocks), k)
      ensures PayloadsKept(old(blocks), old(words[..]), words[..])
    {
      ReadNext(words[..], blocks, k);
      var next := words[b + 8];
      var merge := NextIsFree(k, next);
      while merge
        invariant Valid() && k < |blocks| && blocks[k].addr == b && blocks[k].free && next == NextAddr(blocks, k)
        invariant merge == (k + 1 < |blocks| && blocks[k + 1].free)
        invariant Coalesce(old(blocks), k) == Coalesce(blocks, k)
        invariant PayloadsKept(old(blocks), old(words[..]), words[..])
        invariant forall x :: x in old(blocks) && !x.free ==> x in blocks
        decreases |blocks|
      {
        ghost var bs1, ws1 := blocks, words[..];
        next := MergeNext(k, b, next);
        KeptTwice(old(blocks), bs1, old(words[..]), ws1, words[..]);
        forall x | x in bs1 && !x.free ensures x in blocks { AbsorbKeepsLive(bs1, k, x); }
        merge := NextIsFree(k, next);
      }
    }

    // kfree of a live payload, or of the null pointer
    method Kfree(ptr: nat)
      requires Valid() && (ptr == 0 || Live(blocks, ptr))
      modifies this, words
      ensures Valid() && blocks == (if ptr == 0 then old(blocks) else Free(old(blocks), ptr))
      ensures forall k: nat :: k < |old(blocks)| && Payload(old(blocks)[k]) != ptr ==>
              PayloadsKept([old(blocks)[k]], old(words[..]), words[..])
    {
      if ptr == 0 {
        return;
      }
      ghost var k: nat :| LiveAt(blocks, k, ptr);
      FreeIs(blocks, k, ptr);
      MarkedTiled(blocks, k);
      var b := ptr - HEADER;
      ReadNext(words[..], blocks, k);
      words[b + 4] := 1;
      assert MarkWritten(old(words[..]), words[..], b, true);
      MarkHeaders(old(words[..]), words[..], blocks, k, true);
      blocks := blocks[k := blocks[k].(free := true)];
      ghost var bs1, ws1 := blocks, words[..];
      MergeFree(k, b);
      forall j: nat | j < |old(blocks)| && Payload(old(blocks)[j]) != ptr
        ensures PayloadsKept([old(blocks)[j]], old(words[..]), words[..])
      {
        assert bs1[j] == old(blocks)[j];
        KeptTwice([old(blocks)[j]], bs1, old(words[..]), ws1, words[..]);
      }
    }

    // kheap_used: the payload bytes of the blocks in use
    method Used() returns (used: nat)
      requires Valid()
      ensures used == UsedBytes(blocks, |blocks|)
    {
      used := 0;
      var b := HEAP_START;
      ghost var k := 0;
      while b != 0
        invariant k <= |blocks| && b == (if k < |blocks| then blocks[k].addr else 0) && (b == 0 <==> k == |blocks|)
        invariant used == UsedBytes(blocks, k)
        decreases |blocks| - k
      {
        ReadNext(words[..], blocks, k);
        if words[b + 4] == 0 {
          used := used + words[b];
        }
        InNext(blocks, k);
        b := words[b + 8];
        k := k + 1;
      }
    }
  }

  function UsedBytes(bs: seq<Block>, n: nat): nat
    requires n <= |bs|
  {
    if n == 0 then 0 else UsedBytes(bs, n - 1) + if bs[n - 1].free then 0 else bs[n - 1].size
  }

  // An empty heap has no payload in use; an allocation adds the size of the block it takes,
  // and a release takes that size away.
  lemma UsedFollows(bs: seq<Block>, size: nat) returns (k: nat)
    requires Tiled(bs) && size < U32
    ensures UsedBytes(InitialBlocks(), 1) == 0
    ensures var (bs', ptr) := Malloc(bs, size);
            && (ptr == 0 ==> bs' == bs)
            && (ptr != 0 ==> LiveAt(bs', k, ptr) && UsedBytes(bs', |bs'|) == UsedBytes(bs, |bs|) + bs'[k].size)
  {
    k := FirstFit(bs, Rounded(size), 0);
    if k < |bs| {
      InArena(bs, k);
      UsedTaken(bs, k, Rounded(size));
      assert LiveAt(TakeBlock(bs, k, Rounded(size)), k, Payload(bs[k]));
    }
  }

  lemma UsedTaken(bs: seq<Block>, k: nat, need: nat)
    requires k < |bs| && bs[k].free && need <= bs[k].size
    ensures var bs' := TakeBlock(bs, k, need);
            && k < |bs'| && !bs'[k].free && bs'[k].addr == bs[k].addr
            && UsedBytes(bs', |bs'|) == UsedBytes(bs, |bs|) + bs'[k].size
  {
    var front, back, parts := bs[..k], bs[k + 1..], Split(bs[k], need);
    assert bs == front + [bs[k]] + back;
    UsedJoin(front + [bs[k]], back);
    UsedJoin(front, [bs[k]]);
    UsedJoin(front + parts, back);
    UsedJoin(front, parts);
    UsedOne([bs[k]]);
    if |parts| == 2 { assert parts == [parts[0]] + [parts[1]]; UsedJoin([parts[0]], [parts[1]]); UsedOne([parts[1]]); }
    UsedOne([parts[0]]);
    assert |parts| == 1 ==> parts == [parts[0]];
  }

  lemma UsedOne(bs: seq<Block>)
    requires |bs| == 1
    ensures UsedBytes(bs, 1) == if bs[0].free then 0 else bs[0].size
  {
    assert UsedBytes(bs, 0) == 0;
  }

  lemma {:induction false} UsedJoin(a: seq<Block>, b: seq<Block>)
    ensures UsedBytes(a + b, |a + b|) == UsedBytes(a, |a|) + UsedBytes(b, |b|)
    decreases |b|
  {
    if b == [] {
      assert a + b == a;
    } else {
      var front := b[..|b| - 1];
      UsedJoin(a, front);
      UsedPrefix(a + b, a + front, |a + front|);
      UsedPrefix(b, front, |front|);
    }
  }

  lemma {:induction false} UsedPrefix(a: seq<Block>, b: seq<Block>, n: nat)
    requires n <= |a| && n <= |b| && a[..n] == b[..n]
    ensures UsedBytes(a, n) == UsedBytes(b, n)
    decreases n
  {
    if n > 0 {
      assert a[..n][n - 1] == b[..n][n - 1] && a[..n][..n - 1] == a[..n - 1] && b[..n][..n - 1] == b[..n - 1];
      UsedPrefix(a, b, n - 1);
    }
  }

  // The release of a live block.
  lemma UsedReleased(bs: seq<Block>, k: nat)
    requires Tiled(bs) && k < |bs| && !bs[k].free
    ensures UsedBytes(FreeBlock(bs, k), |FreeBlock(bs, k)|) + bs[k].size == UsedBytes(bs, |bs|)
  {
    var m := bs[k := bs[k].(free := true)];
    var front, back := bs[..k], bs[k + 1..];
    assert bs == front + [bs[k]] + back && m == front + [m[k]] + back;
    UsedJoin(front + [bs[k]], back);
    UsedJoin(front, [bs[k]]);
    UsedJoin(front + [m[k]], back);
    UsedJoin(front, [m[k]]);
    UsedOne([bs[k]]);
    UsedOne([m[k]]);
    UsedCoalesced(m, k);
  }

  lemma {:induction false} UsedCoalesced(bs: seq<Block>, k: nat)
    requires k < |bs| && bs[k].free
    ensures UsedBytes(Coalesce(bs, k), |Coalesce(bs, k)|) == UsedBytes(bs, |bs|)
    decreases |bs|
  {
    if k + 1 < |bs| && bs[k + 1].free {
      var m := Absorb(bs, k);
      UsedAbsorbed(bs, k);
      UsedCoalesced(m, k);
    }
  }

  lemma UsedAbsorbed(bs: seq<Block>, k: nat)
    requires k + 1 < |bs| && bs[k].free && bs[k + 1].free
    ensures UsedBytes(Absorb(bs, k), |Absorb(bs, k)|) == UsedBytes(bs, |bs|)
  {
    var front, back, one := bs[..k], bs[k + 2..], Absorb(bs, k)[k];
    assert bs == front + ([bs[k]] + [bs[k + 1]]) + back && Absorb(bs, k) == front + [one] + back;
    UsedJoin(front + ([bs[k]] + [bs[k + 1]]), back);
    UsedJoin(front, [bs[k]] + [bs[k + 1]]);
    UsedJoin([bs[k]], [bs[k + 1]]);
    UsedJoin(front + [one], back);
    UsedJoin(front, [one]);
    UsedOne([bs[k]]);
    UsedOne([bs[k + 1]]);
    UsedOne([one]);
  }

  // The null pointer ends the list: no block lies at address 0.
  lemma InNext(bs: seq<Block>, k: nat)
    requires Tiled(bs) && k < |bs|
    ensures NextAddr(bs, k) == 0 <==> k + 1 == |bs|
  {
    if k + 1 < |bs| { InArena(bs, k + 1); }
  }
}
