// What every reachable state of the copy-on-write machine satisfies: frame
// ownership, exact reference counts, no writable sharing, TLB coherence.

module AddressSpaces {
  import opened Frames
  import opened Paging

  // The page-table frame of the space whose directory is frame c.
  ghost function PtOf(mem: seq<seq<nat>>, c: nat): nat {
    if c < |mem| && 0 < |mem[c]| then FrameOf(mem[c][0]) else 0
  }

  // The page-table word of page i in space c.
  ghost function Pte(mem: seq<seq<nat>>, c: nat, i: nat): nat {
    var pt := PtOf(mem, c);
    if pt < |mem| && i < |mem[pt]| then mem[pt][i] else 0
  }

  // Space c maps frame f at page i of its user window.
  ghost predicate NamesAt(mem: seq<seq<nat>>, c: nat, i: nat, f: nat) {
    InWindow(i) && Present(Pte(mem, c, i)) && FrameOf(Pte(mem, c, i)) == f
  }

  ghost predicate Names(mem: seq<seq<nat>>, c: nat, f: nat) {
    exists i: nat :: NamesAt(mem, c, i, f)
  }

  ghost function Sharers(mem: seq<seq<nat>>, spaces: set<nat>, f: nat): set<nat> {
    set c | c in spaces && Names(mem, c, f)
  }

  ghost predicate UserWordOk(w: nat) {
    || w == 0
    || (DYN_START <= FrameOf(w) < DYN_END && (w == FrameOf(w) * 4096 + 5 || w == UserWord(FrameOf(w))))
  }

  // A live space has its own identity-mapped directory and page table; outside the
  // user window it maps exactly what the kernel maps.
  ghost predicate SpaceOk(mem: seq<seq<nat>>, c: nat) {
    && DYN_START <= c < USER_PG_START
    && DYN_START <= PtOf(mem, c) < USER_PG_START
    && c < |mem| && |mem[c]| == PAGE_WORDS
    && mem[c][0] == UserWord(PtOf(mem, c))
    && (forall d :: 1 <= d < PAGE_WORDS ==> mem[c][d] == 0)
    && (forall i: nat :: i < PAGE_WORDS && !InWindow(i) ==> Pte(mem, c, i) == KernelWord(i))
    && (forall i: nat :: InWindow(i) ==> UserWordOk(Pte(mem, c, i)))
  }

  ghost predicate KernelTables(mem: seq<seq<nat>>) {
    && Framed(mem)
    && mem[KERNEL_PD][0] == UserWord(KERNEL_PT)
    && (forall d :: 1 <= d < PAGE_WORDS ==> mem[KERNEL_PD][d] == 0)
    && (forall i: nat :: i < PAGE_WORDS ==> mem[KERNEL_PT][i] == KernelWord(i))
  }

  ghost predicate SpacesOk(mem: seq<seq<nat>>, spaces: set<nat>) {
    forall c :: c in spaces ==> SpaceOk(mem, c)
  }

  ghost predicate IsTable(mem: seq<seq<nat>>, spaces: set<nat>, f: nat) {
    f in spaces || exists c :: c in spaces && PtOf(mem, c) == f
  }

  // Directories and page tables are pairwise different frames, and no user page lives in them.
  ghost predicate TablesApart(mem: seq<seq<nat>>, ft: FrameTable, spaces: set<nat>)
    requires Sized(ft)
  {
    && (forall c :: c in spaces ==> PtOf(mem, c) !in spaces)
    && (forall c, d :: c in spaces && d in spaces && PtOf(mem, c) == PtOf(mem, d) ==> c == d)
    && (forall f :: 0 <= f < FRAME_COUNT && IsTable(mem, spaces, f) ==> ft.refs[f] == 0)
  }

  // A frame appears at one page index only, in every space that shares it.
  ghost predicate SameIndex(mem: seq<seq<nat>>, spaces: set<nat>) {
    forall c, d, i: nat, j: nat, f: nat ::
      c in spaces && d in spaces && NamesAt(mem, c, i, f) && NamesAt(mem, d, j, f) ==> i == j
  }

  ghost predicate ExactRefs(mem: seq<seq<nat>>, ft: FrameTable, spaces: set<nat>)
    requires Sized(ft)
  {
    forall f :: 0 <= f < FRAME_COUNT ==> ft.refs[f] == |Sharers(mem, spaces, f)|
  }

  ghost predicate NoWritableSharing(mem: seq<seq<nat>>, ft: FrameTable, spaces: set<nat>)
    requires Sized(ft)
  {
    forall c, i: nat, f: nat ::
      c in spaces && NamesAt(mem, c, i, f) && Writable(Pte(mem, c, i)) && f < FRAME_COUNT ==> ft.refs[f] == 1
  }

  ghost predicate UsedExact(mem: seq<seq<nat>>, ft: FrameTable, spaces: set<nat>)
    requires Sized(ft)
  {
    && (forall f :: 0 <= f < FRAME_COUNT && !(DYN_START <= f < DYN_END) ==> ft.used[f])
    && (forall f :: DYN_START <= f < DYN_END ==> (ft.used[f] <==> ft.refs[f] > 0 || IsTable(mem, spaces, f)))
  }

  ghost predicate TlbCoherent(vm: Vm)
    requires Shape(vm)
  {
    forall e :: e in vm.tlb ==> e.0 < PAGE_COUNT && Present(e.1) && Walk(vm.mem, vm.cr3, e.0) == e.1
  }

  ghost predicate MemInv(mem: seq<seq<nat>>, ft: FrameTable, spaces: set<nat>) {
    && Sized(ft)
    && KernelTables(mem)
    && SpacesOk(mem, spaces)
    && TablesApart(mem, ft, spaces)
    && SameIndex(mem, spaces)
    && ExactRefs(mem, ft, spaces)
    && NoWritableSharing(mem, ft, spaces)
    && UsedExact(mem, ft, spaces)
  }

  ghost predicate Inv(vm: Vm, spaces: set<nat>) {
    && Shape(vm)
    && MemInv(vm.mem, vm.ft, spaces)
    && (vm.cr3 in spaces || vm.cr3 == KERNEL_PD)
    && TlbCoherent(vm)
  }

  // ------------------------------------------------------------------
  // Bounds: few spaces, so the u8 counters never saturate
  // ------------------------------------------------------------------

  ghost function PageTables(mem: seq<seq<nat>>, spaces: set<nat>): set<nat> {
    set c | c in spaces :: PtOf(mem, c)
  }

  lemma {:induction false} PageTablesSize(mem: seq<seq<nat>>, spaces: set<nat>)
    requires forall c, d :: c in spaces && d in spaces && PtOf(mem, c) == PtOf(mem, d) ==> c == d
    ensures |PageTables(mem, spaces)| == |spaces|
    decreases |spaces|
  {
    if spaces == {} {
      assert PageTables(mem, spaces) == {};
    } else {
      var c :| c in spaces;
      PageTablesSize(mem, spaces - {c});
      assert PageTables(mem, spaces) == PageTables(mem, spaces - {c}) + {PtOf(mem, c)};
    }
  }

  // Two identity-mapped frames per space leave room for at most 104 spaces, so the
  // 255 saturation of mm_ref_inc is never reached.
  lemma RefsBounded(mem: seq<seq<nat>>, ft: FrameTable, spaces: set<nat>)
    requires MemInv(mem, ft, spaces)
    ensures 2 * |spaces| <= USER_PG_START - DYN_START
    ensures forall f :: 0 <= f < FRAME_COUNT ==> ft.refs[f] <= |spaces| < REF_MAX
  {
    PageTablesSize(mem, spaces);
    var tables := spaces + PageTables(mem, spaces);
    assert spaces !! PageTables(mem, spaces);
    assert |tables| == 2 * |spaces|;
    assert tables <= Range(DYN_START, USER_PG_START) by {
      forall f | f in tables ensures f in Range(DYN_START, USER_PG_START) {
        if f in spaces { assert SpaceOk(mem, f); } else {
          var c :| c in spaces && PtOf(mem, c) == f;
          assert SpaceOk(mem, c);
        }
      }
    }
    SubsetSize(tables, Range(DYN_START, USER_PG_START));
    forall f | 0 <= f < FRAME_COUNT ensures ft.refs[f] <= |spaces| {
      SubsetSize(Sharers(mem, spaces, f), spaces);
    }
  }

  // A live user frame is in use and is not a table.
  lemma MappedFrame(mem: seq<seq<nat>>, ft: FrameTable, spaces: set<nat>, c: nat, i: nat)
    requires MemInv(mem, ft, spaces) && c in spaces && InWindow(i) && Present(Pte(mem, c, i))
    ensures var f := FrameOf(Pte(mem, c, i));
            && DYN_START <= f < DYN_END && NamesAt(mem, c, i, f) && Names(mem, c, f)
            && ft.refs[f] >= 1 && ft.used[f] && !IsTable(mem, spaces, f) && c in Sharers(mem, spaces, f)
  {
    var f := FrameOf(Pte(mem, c, i));
    assert SpaceOk(mem, c);
    assert UserWordOk(Pte(mem, c, i));
    assert NamesAt(mem, c, i, f);
    assert c in Sharers(mem, spaces, f);
    assert |Sharers(mem, spaces, f)| >= 1;
  }

  // Only the first directory entry of a live space, or of the kernel, leads anywhere.
  lemma WalkIs(mem: seq<seq<nat>>, ft: FrameTable, spaces: set<nat>, c: nat, vpn: nat)
    requires MemInv(mem, ft, spaces) && (c in spaces || c == KERNEL_PD)
    ensures c < FRAME_COUNT && PtOf(mem, c) < FRAME_COUNT && Present(mem[c][0])
    ensures forall d :: 1 <= d < PAGE_WORDS ==> mem[c][d] == 0
    ensures Walk(mem, c, vpn) == if vpn / PAGE_WORDS % PAGE_WORDS == 0 then Pte(mem, c, vpn % PAGE_WORDS) else 0
    ensures Present(Walk(mem, c, vpn)) ==> FrameOf(Walk(mem, c, vpn)) < FRAME_COUNT
  {
    if c in spaces {
      assert SpaceOk(mem, c);
      var i := vpn % PAGE_WORDS;
      if InWindow(i) { assert UserWordOk(Pte(mem, c, i)); }
    }
  }

  // Every space maps the kernel's pages of the first 4 MB to themselves, writable and out of
  // ring 3's reach, and nothing above them; pages of the window are ring 3's.
  lemma SpaceLayout(vm: Vm, spaces: set<nat>, c: nat, i: nat)
    requires Inv(vm, spaces) && (c in spaces || c == KERNEL_PD) && i < 0x10_0000
    ensures c < FRAME_COUNT
    ensures var w := Walk(vm.mem, c, i);
            && (i < 512 || 768 <= i < 1024 ==>
                  w / 4096 == i && w % 2 == 1 && w / 2 % 2 == 1 && w / 4 % 2 == 0)
            && (i >= 1024 ==> w % 2 == 0)
            && (512 <= i < 768 && c == KERNEL_PD ==> w % 2 == 0)
            && (512 <= i < 768 && w % 2 == 1 ==> w / 4 % 2 == 1)
  {
    SpaceWords(vm, spaces, c, i);
    EntryBits(i);
    var w := Walk(vm.mem, c, i);
    if 512 <= i < 768 && c in spaces && w % 2 == 1 { UserBits(w); }
  }

  lemma UserBits(w: nat)
    requires UserWordOk(w) && w % 2 == 1
    ensures w / 4 % 2 == 1
  {
    var f := FrameOf(w);
    assert w / 4 == 2 * (512 * f) + 1;
    Bit(512 * f, 1);
  }

  // The words behind it.
  lemma SpaceWords(vm: Vm, spaces: set<nat>, c: nat, i: nat)
    requires Inv(vm, spaces) && (c in spaces || c == KERNEL_PD) && i < 0x10_0000
    ensures c < FRAME_COUNT
    ensures var w := Walk(vm.mem, c, i);
            && (i < 1024 && !InWindow(i) ==> w == KernelWord(i))
            && (i >= 1024 || (InWindow(i) && c == KERNEL_PD) ==> w == 0)
            && (InWindow(i) && c in spaces ==> UserWordOk(w))
  {
    WalkIs(vm.mem, vm.ft, spaces, c, i);
    DirectoryOf(i);
    if i < 1024 { PteIs(vm.mem, spaces, c, i); }
  }

  lemma PteIs(mem: seq<seq<nat>>, spaces: set<nat>, c: nat, i: nat)
    requires KernelTables(mem) && SpacesOk(mem, spaces) && (c in spaces || c == KERNEL_PD) && i < PAGE_WORDS
    ensures !InWindow(i) ==> Pte(mem, c, i) == KernelWord(i)
    ensures InWindow(i) && c == KERNEL_PD ==> Pte(mem, c, i) == 0
    ensures InWindow(i) && c in spaces ==> UserWordOk(Pte(mem, c, i))
  {
    if c in spaces { assert SpaceOk(mem, c); }
  }

  lemma DirectoryOf(i: nat)
    requires i < 0x10_0000
    ensures i < 1024 ==> i / PAGE_WORDS % PAGE_WORDS == 0 && i % PAGE_WORDS == i
    ensures i >= 1024 ==> 1 <= i / PAGE_WORDS % PAGE_WORDS < PAGE_WORDS
  {
  }

  lemma EntryBits(i: nat)
    ensures !InWindow(i) ==> var w := KernelWord(i); w / 4096 == i && w % 2 == 1 && w / 2 % 2 == 1 && w / 4 % 2 == 0
  {
    Bit(2048 * i + 1, 1);
    Bit(1024 * i, 1);
    Bit(512 * i, 0);
  }

  lemma Bit(q: nat, b: nat)
    requires b < 2
    ensures (2 * q + b) % 2 == b && (2 * q + b) / 2 == q
  {
  }
}
