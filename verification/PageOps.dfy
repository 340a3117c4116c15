// Mapping a page and resolving a copy-on-write fault: both point one page of one
// space at a frame nobody else uses.

module PageOps {
  import opened Frames
  import opened Paging
  import opened AddressSpaces
  import opened SpaceOps

  // Page i of space c now names the fresh frame nf; whatever it named before has lost one reference.
  ghost predicate PageReplaced(mem: seq<seq<nat>>, mem': seq<seq<nat>>, ft: FrameTable, ft': FrameTable,
                               spaces: set<nat>, c: nat, i: nat, nf: nat)
    requires Framed(mem) && Sized(ft)
  {
    var w := Pte(mem, c, i);
    && Sized(ft') && Framed(mem')
    && c in spaces && InWindow(i) && PtOf(mem, c) < FRAME_COUNT
    && DYN_START <= nf < DYN_END && !ft.used[nf]
    && mem'[PtOf(mem, c)][i] == UserWord(nf)
    && (forall j :: 0 <= j < PAGE_WORDS && j != i ==> mem'[PtOf(mem, c)][j] == Pte(mem, c, j))
    && (forall f :: 0 <= f < |mem| && f != nf && f != PtOf(mem, c) ==> mem'[f] == mem[f])
    && ft'.refs[nf] == 1
    && (forall f :: 0 <= f < FRAME_COUNT && f != nf ==>
          ft'.refs[f] + (if Present(w) && f == FrameOf(w) then 1 else 0) == ft.refs[f])
    && (forall f :: 0 <= f < FRAME_COUNT ==>
          ft'.used[f] == if f == nf then true else if Present(w) && f == FrameOf(w) then ft.refs[f] > 1 else ft.used[f])
  }

  lemma ReplacedSpace(mem: seq<seq<nat>>, mem': seq<seq<nat>>, ft: FrameTable, ft': FrameTable, spaces: set<nat>,
                      c: nat, i: nat, nf: nat, d: nat)
    requires MemInv(mem, ft, spaces) && PageReplaced(mem, mem', ft, ft', spaces, c, i, nf) && d in spaces
    ensures PtOf(mem', d) == PtOf(mem, d) && SpaceOk(mem', d)
    ensures forall j: nat :: Pte(mem', d, j) == if d == c && j == i then UserWord(nf) else Pte(mem, d, j)
  {
    assert SpaceOk(mem, c) && SpaceOk(mem, d);
    assert IsTable(mem, spaces, d) && IsTable(mem, spaces, PtOf(mem, d)) && IsTable(mem, spaces, c) &&
        IsTable(mem, spaces, PtOf(mem, c));
    assert d != c ==> PtOf(mem, d) != PtOf(mem, c);
    assert FrameOf(UserWord(nf)) == nf;
  }

  lemma ReplacedNames(mem: seq<seq<nat>>, mem': seq<seq<nat>>, ft: FrameTable, ft': FrameTable, spaces: set<nat>,
                      c: nat, i: nat, nf: nat, d: nat, f: nat)
    requires MemInv(mem, ft, spaces) && PageReplaced(mem, mem', ft, ft', spaces, c, i, nf) && d in spaces
    ensures forall j: nat :: NamesAt(mem', d, j, f) <==> if d == c && j == i then f == nf else NamesAt(mem, d, j, f)
    ensures Names(mem', d, f) <==> if d == c && f == nf then true
                                   else if d == c && NamesAt(mem, c, i, f) then false
                                   else Names(mem, d, f)
  {
    ReplacedSpace(mem, mem', ft, ft', spaces, c, i, nf, d);
    assert Present(UserWord(nf)) && FrameOf(UserWord(nf)) == nf;
    NamesReplaced(mem, mem', c, i, nf, d, f);
  }

  lemma NamesReplaced(mem: seq<seq<nat>>, mem': seq<seq<nat>>, c: nat, i: nat, nf: nat, d: nat, f: nat)
    requires forall j: nat :: NamesAt(mem', d, j, f) <==> if d == c && j == i then f == nf else NamesAt(mem, d, j, f)
    requires forall j: nat :: d == c && NamesAt(mem, d, j, f) && NamesAt(mem, c, i, f) ==> j == i
    ensures Names(mem', d, f) <==> if d == c && f == nf then true
                                   else if d == c && NamesAt(mem, c, i, f) then false
                                   else Names(mem, d, f)
  {
    if d == c && f == nf { assert NamesAt(mem', d, i, f); }
    if Names(mem, d, f) {
      var j: nat :| NamesAt(mem, d, j, f);
      if !(d == c && j == i) { assert NamesAt(mem', d, j, f); }
    }
    if Names(mem', d, f) {
      var j: nat :| NamesAt(mem', d, j, f);
      if !(d == c && j == i) { assert NamesAt(mem, d, j, f); }
    }
  }

  lemma FreshNotNamed(mem: seq<seq<nat>>, ft: FrameTable, spaces: set<nat>, nf: nat, d: nat)
    requires MemInv(mem, ft, spaces) && d in spaces && nf < FRAME_COUNT && !ft.used[nf]
    ensures !Names(mem, d, nf)
  {
    if Names(mem, d, nf) {
      var i: nat :| NamesAt(mem, d, i, nf);
      MappedFrame(mem, ft, spaces, d, i);
    }
  }

  lemma ReplacedExactRefs(mem: seq<seq<nat>>, mem': seq<seq<nat>>, ft: FrameTable, ft': FrameTable, spaces: set<nat>,
                          c: nat, i: nat, nf: nat)
    requires MemInv(mem, ft, spaces) && PageReplaced(mem, mem', ft, ft', spaces, c, i, nf)
    ensures ExactRefs(mem', ft', spaces)
  {
    forall f: nat | f < FRAME_COUNT ensures ft'.refs[f] == |Sharers(mem', spaces, f)| {
      forall d | d in spaces
        ensures Names(mem', d, f) <==>
                if f == nf then d == c else if d == c && NamesAt(mem, c, i, f) then false else Names(mem, d, f)
      {
        ReplacedNames(mem, mem', ft, ft', spaces, c, i, nf, d, f);
        FreshNotNamed(mem, ft, spaces, nf, d);
      }
      assert ft.refs[f] == |Sharers(mem, spaces, f)|;
      SharersMoved(mem, mem', spaces, c, i, nf, f);
    }
  }

  lemma SharersMoved(mem: seq<seq<nat>>, mem': seq<seq<nat>>, spaces: set<nat>, c: nat, i: nat, nf: nat, f: nat)
    requires c in spaces
    requires forall d :: d in spaces ==>
               (Names(mem', d, f) <==> if f == nf then d == c else if d == c && NamesAt(mem, c, i, f) then false
                   else Names(mem, d, f))
    ensures |Sharers(mem', spaces, f)| == if f == nf then 1
            else |Sharers(mem, spaces, f)| - if NamesAt(mem, c, i, f) then 1 else 0
  {
    if f == nf {
      assert Sharers(mem', spaces, f) == {c};
    } else if NamesAt(mem, c, i, f) {
      assert c in Sharers(mem, spaces, f);
      assert Sharers(mem', spaces, f) == Sharers(mem, spaces, f) - {c};
    } else {
      assert Sharers(mem', spaces, f) == Sharers(mem, spaces, f);
    }
  }

  lemma ReplacedTables(mem: seq<seq<nat>>, mem': seq<seq<nat>>, ft: FrameTable, ft': FrameTable, spaces: set<nat>,
                       c: nat, i: nat, nf: nat)
    requires MemInv(mem, ft, spaces) && PageReplaced(mem, mem', ft, ft', spaces, c, i, nf)
    ensures KernelTables(mem') && SpacesOk(mem', spaces)
    ensures TablesApart(mem', ft', spaces)
    ensures UsedExact(mem', ft', spaces)
  {
    assert SpaceOk(mem, c);
    forall d | d in spaces ensures PtOf(mem', d) == PtOf(mem, d) && SpaceOk(mem', d) {
      ReplacedSpace(mem, mem', ft, ft', spaces, c, i, nf, d);
    }
    forall f: nat | f < FRAME_COUNT ensures IsTable(mem', spaces, f) <==> IsTable(mem, spaces, f) {
      SameTables(mem, mem', spaces, f);
    }
    if Present(Pte(mem, c, i)) { MappedFrame(mem, ft, spaces, c, i); }
  }

  lemma SameTables(mem: seq<seq<nat>>, mem': seq<seq<nat>>, spaces: set<nat>, f: nat)
    requires forall d :: d in spaces ==> PtOf(mem', d) == PtOf(mem, d)
    ensures IsTable(mem', spaces, f) <==> IsTable(mem, spaces, f)
  {
  }

  lemma ReplacedSharing(mem: seq<seq<nat>>, mem': seq<seq<nat>>, ft: FrameTable, ft': FrameTable, spaces: set<nat>,
                        c: nat, i: nat, nf: nat)
    requires MemInv(mem, ft, spaces) && PageReplaced(mem, mem', ft, ft', spaces, c, i, nf)
    ensures SameIndex(mem', spaces)
    ensures NoWritableSharing(mem', ft', spaces)
  {
    forall d, j: nat, f: nat | d in spaces && NamesAt(mem', d, j, f)
      ensures if f == nf then d == c && j == i else NamesAt(mem, d, j, f) && !(d == c && j == i)
    {
      ReplacedNames(mem, mem', ft, ft', spaces, c, i, nf, d, f);
      FreshNotNamed(mem, ft, spaces, nf, d);
    }
    forall d, j: nat, f: nat | d in spaces && NamesAt(mem', d, j, f) && Writable(Pte(mem', d, j)) && f < FRAME_COUNT
      ensures ft'.refs[f] == 1
    {
      ReplacedSpace(mem, mem', ft, ft', spaces, c, i, nf, d);
      if f != nf && NamesAt(mem, c, i, f) {
        SoleSharer(mem, ft, spaces, c, i, d, j, f);
      }
    }
  }

  lemma ReplacedKeepsInv(mem: seq<seq<nat>>, mem': seq<seq<nat>>, ft: FrameTable, ft': FrameTable, spaces: set<nat>,
                         c: nat, i: nat, nf: nat)
    requires MemInv(mem, ft, spaces) && PageReplaced(mem, mem', ft, ft', spaces, c, i, nf)
    ensures MemInv(mem', ft', spaces)
  {
    ReplacedTables(mem, mem', ft, ft', spaces, c, i, nf);
    ReplacedExactRefs(mem, mem', ft, ft', spaces, c, i, nf);
    ReplacedSharing(mem, mem', ft, ft', spaces, c, i, nf);
  }

  // ------------------------------------------------------------------
  // map_user_page
  // ------------------------------------------------------------------

  // Entries outside the window are present and writable, fresh user entries too.
  lemma EntryFlags(i: nat, f: nat)
    ensures !InWindow(i) ==> Present(KernelWord(i)) && Writable(KernelWord(i))
    ensures Present(UserWord(f)) && Writable(UserWord(f)) && FrameOf(UserWord(f)) == f
  {
    LowBits(i, 3);
    LowBits(f, 7);
  }

  lemma MapPageEffect(vm: Vm, spaces: set<nat>, c: nat, i: nat)
    requires Inv(vm, spaces) && c in spaces && i < PAGE_WORDS && PtOf(vm.mem, c) < FRAME_COUNT
    ensures var (vm', ok) := MapPage(vm, PtOf(vm.mem, c), i);
            && (Present(Pte(vm.mem, c, i)) ==> ok && vm' == vm)
            && (!Present(Pte(vm.mem, c, i)) ==> InWindow(i))
            && (!ok ==> vm' == vm && Alloc(vm.ft).1 == 0)
            && (!Present(Pte(vm.mem, c, i)) && ok ==>
                && PageReplaced(vm.mem, vm'.mem, vm.ft, vm'.ft, spaces, c, i, Alloc(vm.ft).1)
                && vm'.mem == SetWord(vm.mem, PtOf(vm.mem, c), i, UserWord(Alloc(vm.ft).1))
                && vm'.cr3 == vm.cr3 && vm'.tlb == vm.tlb)
  {
    assert SpaceOk(vm.mem, c);
    var (ft1, nf) := Alloc(vm.ft);
    EntryFlags(i, nf);
    if !Present(Pte(vm.mem, c, i)) && nf != 0 { FreshReplaces(vm, spaces, c, i, ft1, nf); }
  }

  lemma FreshReplaces(vm: Vm, spaces: set<nat>, c: nat, i: nat, ft1: FrameTable, nf: nat)
    requires Inv(vm, spaces) && c in spaces && InWindow(i) && PtOf(vm.mem, c) < FRAME_COUNT
    requires !Present(Pte(vm.mem, c, i)) && Alloc(vm.ft) == (ft1, nf) && nf != 0
    ensures var mem' := SetWord(vm.mem, PtOf(vm.mem, c), i, UserWord(nf));
            PageReplaced(vm.mem, mem', vm.ft, RefInc(ft1, nf), spaces, c, i, nf)
  {
    assert SpaceOk(vm.mem, c);
    FreshFrame(vm.mem, vm.ft, spaces);
  }

  lemma MapPageKeepsInv(vm: Vm, spaces: set<nat>, c: nat, i: nat)
    requires Inv(vm, spaces) && c in spaces && i < PAGE_WORDS && PtOf(vm.mem, c) < FRAME_COUNT
    ensures Inv(MapPage(vm, PtOf(vm.mem, c), i).0, spaces)
    ensures PtOf(MapPage(vm, PtOf(vm.mem, c), i).0.mem, c) == PtOf(vm.mem, c)
  {
    MapPageEffect(vm, spaces, c, i);
    var vm' := MapPage(vm, PtOf(vm.mem, c), i).0;
    var nf := Alloc(vm.ft).1;
    if vm' != vm {
      ReplacedKeepsInv(vm.mem, vm'.mem, vm.ft, vm'.ft, spaces, c, i, nf);
      ReplacedSpace(vm.mem, vm'.mem, vm.ft, vm'.ft, spaces, c, i, nf, c);
      forall e | e in vm'.tlb ensures Present(e.1) && Walk(vm'.mem, vm'.cr3, e.0) == e.1 {
        ReplacedWalk(vm.mem, vm'.mem, vm.ft, vm'.ft, spaces, c, i, nf, vm.cr3, e.0);
      }
    }
  }

  // Replacing a page of space c changes no other translation.
  lemma ReplacedWalk(mem: seq<seq<nat>>, mem': seq<seq<nat>>, ft: FrameTable, ft': FrameTable, spaces: set<nat>,
                     c: nat, i: nat, nf: nat, d: nat, vpn: nat)
    requires MemInv(mem, ft, spaces) && PageReplaced(mem, mem', ft, ft', spaces, c, i, nf)
    requires d in spaces || d == KERNEL_PD
    ensures d < FRAME_COUNT
    ensures Walk(mem', d, vpn) ==
            if d == c && vpn / PAGE_WORDS % PAGE_WORDS == 0 && vpn % PAGE_WORDS == i then UserWord(nf)
            else Walk(mem, d, vpn)
  {
    ReplacedKeepsInv(mem, mem', ft, ft', spaces, c, i, nf);
    WalkIs(mem, ft, spaces, d, vpn);
    WalkIs(mem', ft', spaces, d, vpn);
    if d in spaces {
      ReplacedSpace(mem, mem', ft, ft', spaces, c, i, nf, d);
    } else {
      assert SpaceOk(mem, c);
    }
  }

  // paging_map_user_region keeps the invariant whether or not it runs out of frames.
  lemma {:induction false} MapPagesKeepInv(vm: Vm, spaces: set<nat>, c: nat, i: nat, end: nat)
    requires Inv(vm, spaces) && c in spaces && end < PAGE_WORDS && PtOf(vm.mem, c) < FRAME_COUNT
    ensures Inv(MapPages(vm, PtOf(vm.mem, c), i, end).0, spaces)
    decreases end + 1 - i
  {
    if i <= end {
      MapPageKeepsInv(vm, spaces, c, i);
      var (vm1, ok) := MapPage(vm, PtOf(vm.mem, c), i);
      if ok { MapPagesKeepInv(vm1, spaces, c, i + 1, end); }
    }
  }

  // Mapping a region does nothing, or maps its pages in the space's one page table.
  lemma RegionIs(vm: Vm, spaces: set<nat>, c: nat, vaddr: nat, nbytes: nat)
    requires Inv(vm, spaces) && c in spaces
    ensures c < FRAME_COUNT && PtOf(vm.mem, c) < FRAME_COUNT && DirectoryInRange(vm, c)
    ensures || MapRegion(vm, c, vaddr, nbytes) == (vm, nbytes == 0)
            || (nbytes > 0 && RegionEnd(vaddr, nbytes) < PAGE_WORDS
                && MapRegion(vm, c, vaddr, nbytes)
                   == MapPages(vm, PtOf(vm.mem, c), RegionStart(vaddr), RegionEnd(vaddr, nbytes)))
    ensures nbytes > 0 && vaddr < 0x40_0000 ==>
            && RegionEnd(vaddr, nbytes) < PAGE_WORDS
            && MapRegion(vm, c, vaddr, nbytes)
               == MapPages(vm, PtOf(vm.mem, c), RegionStart(vaddr), RegionEnd(vaddr, nbytes))
    ensures nbytes > 0 && 0x40_0000 <= vaddr < 0x1_0000_0000 ==> MapRegion(vm, c, vaddr, nbytes) == (vm, false)
  {
    DirectoryOk(vm, spaces, c);
    assert SpaceOk(vm.mem, c);
    DirectoryIndex(vaddr);
    if nbytes > 0 {
      var k := vaddr / 0x40_0000 % PAGE_WORDS;
      TableIs(vm, c, k);
      RegionWith(vm, c, vaddr, nbytes, k, RegionEnd(vaddr, nbytes));
    }
  }

  lemma DirectoryIndex(vaddr: nat)
    ensures vaddr < 0x40_0000 ==> vaddr / 0x40_0000 % PAGE_WORDS == 0
    ensures 0x40_0000 <= vaddr < 0x1_0000_0000 ==> 1 <= vaddr / 0x40_0000 % PAGE_WORDS < PAGE_WORDS
  {
  }

  lemma TableIs(vm: Vm, c: nat, k: nat)
    requires Shape(vm) && c < FRAME_COUNT && k < PAGE_WORDS
    requires forall d :: 1 <= d < PAGE_WORDS ==> !Present(vm.mem[c][d])
    ensures Present(vm.mem[c][k]) ==> FrameOf(vm.mem[c][k]) == PtOf(vm.mem, c)
  {
  }

  lemma RegionWith(vm: Vm, c: nat, vaddr: nat, nbytes: nat, k: nat, end: nat)
    requires Shape(vm) && c < FRAME_COUNT && DirectoryInRange(vm, c) && nbytes > 0
    requires k == vaddr / 0x40_0000 % PAGE_WORDS && end == RegionEnd(vaddr, nbytes)
    ensures end < PAGE_WORDS
    ensures MapRegion(vm, c, vaddr, nbytes)
            == if Present(vm.mem[c][k]) then MapPages(vm, FrameOf(vm.mem[c][k]), RegionStart(vaddr), end)
               else (vm, false)
  {
  }

  lemma MapRegionKeepsInv(vm: Vm, spaces: set<nat>, c: nat, vaddr: nat, nbytes: nat)
    requires Inv(vm, spaces) && c in spaces
    ensures c < FRAME_COUNT && PtOf(vm.mem, c) < FRAME_COUNT && DirectoryInRange(vm, c)
    ensures Inv(MapRegion(vm, c, vaddr, nbytes).0, spaces)
  {
    RegionIs(vm, spaces, c, vaddr, nbytes);
    if MapRegion(vm, c, vaddr, nbytes).0 != vm {
      MapPagesKeepInv(vm, spaces, c, RegionStart(vaddr), RegionEnd(vaddr, nbytes));
    }
  }

  // ------------------------------------------------------------------
  // paging_cow_fault
  // ------------------------------------------------------------------

  lemma DirectoryOk(vm: Vm, spaces: set<nat>, c: nat)
    requires Inv(vm, spaces) && (c in spaces || c == KERNEL_PD)
    ensures c < FRAME_COUNT && PtOf(vm.mem, c) < FRAME_COUNT && DirectoryInRange(vm, c)
    ensures Present(vm.mem[c][0])
    ensures forall d :: 1 <= d < PAGE_WORDS ==> !Present(vm.mem[c][d])
  {
    WalkIs(vm.mem, vm.ft, spaces, c, 0);
  }

  ghost predicate Resolvable(vm: Vm, vpn: nat, user: bool, write: bool)
    requires Shape(vm)
  {
    var w := Walk(vm.mem, vm.cr3, vpn);
    user && write && Present(w) && !Writable(w) && Alloc(vm.ft).1 != 0
  }

  // The kernel can reach both the shared frame and the one it copies to.
  ghost predicate CopyReachable(vm: Vm, vpn: nat)
    requires Shape(vm)
  {
    Identity(FrameOf(Walk(vm.mem, vm.cr3, vpn))) && Identity(Alloc(vm.ft).1)
  }

  // A fault that is not a ring-3 write to a present read-only page, or that finds no
  // free frame, changes nothing.
  lemma CowFaultRefused(vm: Vm, spaces: set<nat>, vpn: nat, user: bool, write: bool)
    requires Inv(vm, spaces)
    ensures CanFault(vm, vpn)
    ensures !Resolvable(vm, vpn, user, write) ==> CowFault(vm, vpn, user, write) == Done(vm, 0)
    ensures Resolvable(vm, vpn, user, write) && !CopyReachable(vm, vpn) ==> CowFault(vm, vpn, user, write) == Wild
    ensures Resolvable(vm, vpn, user, write) && CopyReachable(vm, vpn) ==>
              CowFault(vm, vpn, user, write).Done? && CowFault(vm, vpn, user, write).ret == 1
  {
    DirectoryOk(vm, spaces, vm.cr3);
    WalkIs(vm.mem, vm.ft, spaces, vm.cr3, vpn);
  }

  lemma LowPage(vpn: nat)
    requires vpn < PAGE_COUNT && vpn / PAGE_WORDS % PAGE_WORDS == 0
    ensures vpn % PAGE_WORDS == vpn
  {
    assert vpn / PAGE_WORDS < PAGE_WORDS;
  }

  // Only user pages are ever present and read-only.
  lemma ReadOnlyIsUser(vm: Vm, spaces: set<nat>, vpn: nat)
    requires Inv(vm, spaces)
    requires Present(Walk(vm.mem, vm.cr3, vpn)) && !Writable(Walk(vm.mem, vm.cr3, vpn))
    ensures vm.cr3 in spaces && vpn / PAGE_WORDS % PAGE_WORDS == 0 && InWindow(vpn % PAGE_WORDS)
    ensures Walk(vm.mem, vm.cr3, vpn) == Pte(vm.mem, vm.cr3, vpn % PAGE_WORDS)
    ensures vpn < PAGE_COUNT ==> vpn % PAGE_WORDS == vpn
  {
    WalkIs(vm.mem, vm.ft, spaces, vm.cr3, vpn);
    ReadOnlyEntry(vm, spaces, vpn % PAGE_WORDS);
    if vpn < PAGE_COUNT { LowPage(vpn); }
  }

  lemma ReadOnlyEntry(vm: Vm, spaces: set<nat>, i: nat)
    requires Inv(vm, spaces) && i < PAGE_WORDS
    ensures !(vm.cr3 in spaces && InWindow(i)) && Present(Pte(vm.mem, vm.cr3, i)) ==> Writable(Pte(vm.mem, vm.cr3, i))
  {
    EntryFlags(i, 0);
    if vm.cr3 in spaces { assert SpaceOk(vm.mem, vm.cr3); }
    EntryFlags(i, KERNEL_PT);
  }

  // A resolved fault gives the faulting page alone a private copy of its frame.
  lemma CowFaultEffect(vm: Vm, spaces: set<nat>, vpn: nat)
    requires Inv(vm, spaces) && CanFault(vm, vpn) && Resolvable(vm, vpn, true, true) && CopyReachable(vm, vpn)
    ensures var r := CowFault(vm, vpn, true, true); var nf := Alloc(vm.ft).1;
            && r.Done? && r.ret == 1
            && PageReplaced(vm.mem, r.vm.mem, vm.ft, r.vm.ft, spaces, vm.cr3, vpn % PAGE_WORDS, nf)
            && nf < FRAME_COUNT && r.vm.mem[nf] == vm.mem[FrameOf(Walk(vm.mem, vm.cr3, vpn))]
            && r.vm.cr3 == vm.cr3 && r.vm.tlb == DropPage(vm.tlb, vpn)
  {
    CowFaultRefused(vm, spaces, vpn, true, true);
    ReadOnlyIsUser(vm, spaces, vpn);
    DirectoryOk(vm, spaces, vm.cr3);
    FreshFrame(vm.mem, vm.ft, spaces);
    MappedFrame(vm.mem, vm.ft, spaces, vm.cr3, vpn % PAGE_WORDS);
    assert IsTable(vm.mem, spaces, PtOf(vm.mem, vm.cr3));
    assert vpn / PAGE_WORDS % PAGE_WORDS == 0;
  }

  lemma CowFaultKeepsInv(vm: Vm, spaces: set<nat>, vpn: nat, user: bool, write: bool)
    requires Inv(vm, spaces) && vpn < PAGE_COUNT && CanFault(vm, vpn) && CowFault(vm, vpn, user, write).Done?
    ensures Inv(CowFault(vm, vpn, user, write).vm, spaces)
  {
    CowFaultRefused(vm, spaces, vpn, user, write);
    var r := CowFault(vm, vpn, user, write);
    if r.ret == 1 {
      CowFaultEffect(vm, spaces, vpn);
      ReadOnlyIsUser(vm, spaces, vpn);
      var nf := Alloc(vm.ft).1;
      var i := vpn % PAGE_WORDS;
      ReplacedKeepsInv(vm.mem, r.vm.mem, vm.ft, r.vm.ft, spaces, vm.cr3, i, nf);
      ReplacedTlb(vm, r.vm, spaces, vpn, nf);
    }
  }

  lemma ReplacedTlb(vm: Vm, vm': Vm, spaces: set<nat>, vpn: nat, nf: nat)
    requires Inv(vm, spaces) && Shape(vm') && vm'.cr3 == vm.cr3 && vm'.tlb == DropPage(vm.tlb, vpn)
    requires vpn < PAGE_COUNT && vpn / PAGE_WORDS % PAGE_WORDS == 0
    requires PageReplaced(vm.mem, vm'.mem, vm.ft, vm'.ft, spaces, vm.cr3, vpn % PAGE_WORDS, nf)
    ensures TlbCoherent(vm')
  {
    forall e | e in vm'.tlb ensures Present(e.1) && Walk(vm'.mem, vm'.cr3, e.0) == e.1 {
      ReplacedWalk(vm.mem, vm'.mem, vm.ft, vm'.ft, spaces, vm.cr3, vpn % PAGE_WORDS, nf, vm.cr3, e.0);
    }
  }
}
