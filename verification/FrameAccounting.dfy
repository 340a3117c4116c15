// How many frames a reachable state uses, and when the kernel can reach them.

module FrameAccounting {
  import opened Frames
  import opened Paging
  import opened AddressSpaces
  import opened SpaceOps
  import opened PageOps
  import opened SpaceTeardown
  import opened CowRuns
  import opened CowRefinement

  ghost function InUse(ft: FrameTable): set<nat>
    requires Sized(ft)
  {
    set f: nat | DYN_START <= f < DYN_END && ft.used[f]
  }

  // The frames some live space maps.
  ghost function MappedFrames(ft: FrameTable): set<nat>
    requires Sized(ft)
  {
    set f: nat | DYN_START <= f < DYN_END && ft.refs[f] > 0
  }

  // The places (space, page) at which frame f is mapped.
  ghost function Places(mem: seq<seq<nat>>, spaces: set<nat>, f: nat): set<(nat, nat)> {
    set c, i: nat | c in spaces && USER_PG_START <= i < USER_PG_END && NamesAt(mem, c, i, f) :: (c, i)
  }

  // frame_refs[f] is the number of present page-table words that name f, over all live spaces.
  lemma RefsCountPlaces(mem: seq<seq<nat>>, ft: FrameTable, spaces: set<nat>, f: nat)
    requires MemInv(mem, ft, spaces) && f < FRAME_COUNT
    ensures ft.refs[f] == |Places(mem, spaces, f)|
  {
    PlacesPerSpace(mem, spaces, spaces, f);
  }

  lemma {:induction false} PlacesPerSpace(mem: seq<seq<nat>>, spaces: set<nat>, all: set<nat>, f: nat)
    requires SameIndex(mem, all) && spaces <= all
    ensures |Places(mem, spaces, f)| == |Sharers(mem, spaces, f)|
    decreases |spaces|
  {
    if spaces == {} {
      assert Places(mem, spaces, f) == {} && Sharers(mem, spaces, f) == {};
    } else {
      var c :| c in spaces;
      PlacesPerSpace(mem, spaces - {c}, all, f);
      OneMorePlace(mem, spaces, all, c, f);
      assert Sharers(mem, spaces, f) == Sharers(mem, spaces - {c}, f) + if Names(mem, c, f) then {c} else {};
    }
  }

  // A space that maps f adds one place for it.
  lemma OneMorePlace(mem: seq<seq<nat>>, spaces: set<nat>, all: set<nat>, c: nat, f: nat)
    requires SameIndex(mem, all) && spaces <= all && c in spaces
    ensures |Places(mem, spaces, f)| == |Places(mem, spaces - {c}, f)| + if Names(mem, c, f) then 1 else 0
  {
    var rest := Places(mem, spaces - {c}, f);
    if Names(mem, c, f) {
      var i: nat :| NamesAt(mem, c, i, f);
      assert Places(mem, spaces, f) == rest + {(c, i)};
    } else {
      assert Places(mem, spaces, f) == rest;
    }
  }

  // Frames in use are two tables per live space and the distinct mapped frames, no more.
  lemma FramesConserved(mem: seq<seq<nat>>, ft: FrameTable, spaces: set<nat>)
    requires MemInv(mem, ft, spaces)
    ensures |InUse(ft)| == 2 * |spaces| + |MappedFrames(ft)|
  {
    PageTablesSize(mem, spaces);
    forall f: nat ensures f in InUse(ft) <==> f in spaces || f in PageTables(mem, spaces) || f in MappedFrames(ft)
                  ensures f in spaces || f in PageTables(mem, spaces) ==> f !in MappedFrames(ft)
    {
      IsTableFrame(mem, ft, spaces, f);
    }
    assert spaces !! PageTables(mem, spaces);
    ThreeParts(InUse(ft), spaces, PageTables(mem, spaces), MappedFrames(ft));
  }

  lemma ThreeParts(whole: set<nat>, a: set<nat>, b: set<nat>, c: set<nat>)
    requires forall x :: x in whole <==> x in a || x in b || x in c
    requires a !! b && (forall x :: x in a || x in b ==> x !in c)
    ensures |whole| == |a| + |b| + |c|
  {
    assert whole == a + b + c;
    DisjointSize(a, b);
    DisjointSize(a + b, c);
  }

  lemma DisjointSize(a: set<nat>, b: set<nat>)
    requires a !! b
    ensures |a + b| == |a| + |b|
  {
  }

  lemma IsTableFrame(mem: seq<seq<nat>>, ft: FrameTable, spaces: set<nat>, f: nat)
    requires MemInv(mem, ft, spaces)
    ensures f in spaces || f in PageTables(mem, spaces) <==> IsTable(mem, spaces, f)
    ensures IsTable(mem, spaces, f) ==> DYN_START <= f < USER_PG_START && ft.refs[f] == 0 && ft.used[f]
  {
    if f in spaces {
      assert SpaceOk(mem, f);
    } else if f in PageTables(mem, spaces) {
      var c :| c in spaces && PtOf(mem, c) == f;
      assert SpaceOk(mem, c);
    }
  }

  // Once every space is destroyed, the allocator is back in its boot state.
  lemma AllDestroyed(mem: seq<seq<nat>>, ft: FrameTable)
    requires MemInv(mem, ft, {})
    ensures ft == BootTable()
  {
    forall f: nat | f < FRAME_COUNT ensures ft.refs[f] == 0 && ft.used[f] == BootTable().used[f] {
      assert Sharers(mem, {}, f) == {};
    }
    assert ft.used == BootTable().used;
    assert ft.refs == BootTable().refs;
  }

  // ------------------------------------------------------------------
  // Reaching frames by their own address
  // ------------------------------------------------------------------

  const LOW_FRAMES: nat := USER_PG_START - DYN_START   // 208

  // Everything outside the dynamic range is marked used, as mm_init leaves it.
  ghost predicate Reserved(ft: FrameTable) {
    Sized(ft) && forall f :: 0 <= f < FRAME_COUNT && !(DYN_START <= f < DYN_END) ==> ft.used[f]
  }

  ghost predicate Low(ft: FrameTable)
    requires Sized(ft)
  {
    forall f :: f in InUse(ft) ==> Identity(f)
  }

  // First fit: as long as at most 208 frames are in use, all of them lie below 0x200000.
  lemma LowAlloc(ft: FrameTable)
    requires Reserved(ft) && Low(ft)
    ensures var (ft', f) := Alloc(ft);
            && Reserved(ft')
            && (f != 0 ==> |InUse(ft')| == |InUse(ft)| + 1)
            && (|InUse(ft)| < LOW_FRAMES ==> f != 0 && Identity(f))
            && (|InUse(ft')| <= LOW_FRAMES ==> Low(ft'))
  {
    AllocFirstFit(ft);
    var (ft', f) := Alloc(ft);
    if f != 0 {
      assert InUse(ft') == InUse(ft) + {f};
    }
    if |InUse(ft)| < LOW_FRAMES { FirstFitBelow(ft.used, USER_PG_START); }
  }

  // Frames in use among those already in use.
  lemma LowSubset(ft: FrameTable, ft': FrameTable)
    requires Sized(ft) && Sized(ft') && Low(ft)
    requires forall f :: 0 <= f < FRAME_COUNT && ft'.used[f] ==> ft.used[f]
    ensures Low(ft') && |InUse(ft')| <= |InUse(ft)|
  {
    SubsetSize(InUse(ft'), InUse(ft));
  }

  lemma PairReachable(vm: Vm, spaces: set<nat>)
    requires Inv(vm, spaces) && Low(vm.ft) && |InUse(vm.ft)| + 2 <= LOW_FRAMES
    ensures var (ft1, pd) := Alloc(vm.ft); var (ft2, pt) := Alloc(ft1);
            && pd != 0 && pt != 0 && Identity(pd) && Identity(pt) && Low(ft2)
  {
    LowAlloc(vm.ft);
    LowAlloc(Alloc(vm.ft).0);
  }

  lemma StoreReachable(st: State, vpn: nat, off: nat, val: nat, via: Option<nat>)
    requires StateInv(st) && Low(st.vm.ft) && |InUse(st.vm.ft)| < LOW_FRAMES
    requires Enabled(st, UserStore(vpn, off, val, via))
    ensures StoreStep(st, vpn, off, val, via).Next?
  {
    LowAlloc(st.vm.ft);
    CowFaultRefused(st.vm, st.spaces, vpn, true, true);
    if Resolvable(st.vm, vpn, true, true) {
      ReadOnlyIsUser(st.vm, st.spaces, vpn);
      MappedFrame(st.vm.mem, st.vm.ft, st.spaces, st.vm.cr3, vpn);
      assert FrameOf(Walk(st.vm.mem, st.vm.cr3, vpn)) in InUse(st.vm.ft);
    }
  }

  // With at most 206 frames in use, no step touches a frame the kernel cannot reach.
  lemma NotWild(st: State, ev: Event)
    requires StateInv(st) && Enabled(st, ev) && Low(st.vm.ft) && |InUse(st.vm.ft)| + 2 <= LOW_FRAMES
    ensures Step(st, ev).Next?
  {
    match ev
    case CreateSpace => PairReachable(st.vm, st.spaces);
    case ForkSpace(parent) =>
      PairReachable(st.vm, st.spaces);
      DirectoryOk(st.vm, st.spaces, parent);
    case UserStore(vpn, off, val, via) => StoreReachable(st, vpn, off, val, via);
    case _ =>
  }

  lemma {:induction false} MapPagesLow(vm: Vm, pt: nat, i: nat, end: nat)
    requires Shape(vm) && pt < FRAME_COUNT && end < PAGE_WORDS && Reserved(vm.ft) && Low(vm.ft)
    ensures var vm' := MapPages(vm, pt, i, end).0;
            |InUse(vm'.ft)| >= |InUse(vm.ft)| && (|InUse(vm'.ft)| <= LOW_FRAMES ==> Low(vm'.ft))
    decreases end + 1 - i
  {
    if i <= end {
      var (vm1, ok) := MapPage(vm, pt, i);
      LowAlloc(vm.ft);
      assert InUse(vm1.ft) == InUse(if vm1 == vm then vm.ft else Alloc(vm.ft).0);
      if ok && |InUse(vm1.ft)| <= LOW_FRAMES {
        MapPagesLow(vm1, pt, i + 1, end);
      } else if ok {
        MapPagesGrow(vm1, pt, i + 1, end);
      }
    }
  }

  lemma {:induction false} MapPagesGrow(vm: Vm, pt: nat, i: nat, end: nat)
    requires Shape(vm) && pt < FRAME_COUNT && end < PAGE_WORDS
    ensures InUse(vm.ft) <= InUse(MapPages(vm, pt, i, end).0.ft)
    ensures |InUse(vm.ft)| <= |InUse(MapPages(vm, pt, i, end).0.ft)|
    decreases end + 1 - i
  {
    if i <= end {
      var (vm1, ok) := MapPage(vm, pt, i);
      assert InUse(vm.ft) <= InUse(vm1.ft);
      if ok { MapPagesGrow(vm1, pt, i + 1, end); }
    }
    SubsetSize(InUse(vm.ft), InUse(MapPages(vm, pt, i, end).0.ft));
  }

  // The frame table after a copy: one frame taken, at most one given back.
  lemma CopyLow(ft: FrameTable, f: nat)
    requires Reserved(ft) && Low(ft) && |InUse(ft)| < LOW_FRAMES
    ensures Low(RefInc(RefDec(Alloc(ft).0, f), Alloc(ft).1))
  {
    LowAlloc(ft);
    LowSubset(Alloc(ft).0, RefInc(RefDec(Alloc(ft).0, f), Alloc(ft).1));
  }

  lemma StoreLow(st: State, vpn: nat, off: nat, val: nat, via: Option<nat>)
    requires StateInv(st) && Low(st.vm.ft) && |InUse(st.vm.ft)| < LOW_FRAMES
    requires Enabled(st, UserStore(vpn, off, val, via)) && StoreStep(st, vpn, off, val, via).Next?
    ensures Low(StoreStep(st, vpn, off, val, via).st.vm.ft)
  {
    CowFaultRefused(st.vm, st.spaces, vpn, true, true);
    if !MayWrite(Translation(st.vm, vpn, via)) { FaultLow(st.vm, vpn); }
    StoreTable(st, vpn, off, val, via);
  }

  lemma FaultLow(vm: Vm, vpn: nat)
    requires Shape(vm) && vpn < PAGE_COUNT && CanFault(vm, vpn) && CowFault(vm, vpn, true, true).Done?
    requires Reserved(vm.ft) && Low(vm.ft) && |InUse(vm.ft)| < LOW_FRAMES
    ensures Low(CowFault(vm, vpn, true, true).vm.ft)
  {
    CopyLow(vm.ft, FrameOf(Walk(vm.mem, vm.cr3, vpn)));
  }

  // A store changes the frame table only through the fault handler.
  lemma StoreTable(st: State, vpn: nat, off: nat, val: nat, via: Option<nat>)
    requires StateInv(st) && Enabled(st, UserStore(vpn, off, val, via)) && StoreStep(st, vpn, off, val, via).Next?
    requires CanFault(st.vm, vpn)
    ensures StoreStep(st, vpn, off, val, via).st.vm.ft ==
            if MayWrite(Translation(st.vm, vpn, via)) then st.vm.ft else CowFault(st.vm, vpn, true, true).vm.ft
  {
  }

  lemma ForkLow(vm: Vm, spaces: set<nat>, parent: nat)
    requires Inv(vm, spaces) && parent in spaces && Low(vm.ft) && |InUse(vm.ft)| + 2 <= LOW_FRAMES
    requires FrameOf(vm.mem[parent][0]) < FRAME_COUNT && Fork(vm, parent).Done?
    ensures Low(Fork(vm, parent).vm.ft)
  {
    PairReachable(vm, spaces);
    FreshPair(vm.mem, vm.ft, spaces);
    if Fork(vm, parent).ret != 0 {
      ForkCounts(vm, spaces, parent);
      ForkMemory(vm, spaces, parent);
      LowSubset(Alloc(Alloc(vm.ft).0).0, Fork(vm, parent).vm.ft);
    }
  }

  lemma DestroyLow(vm: Vm, spaces: set<nat>, c: nat)
    requires Inv(vm, spaces) && c in spaces && Low(vm.ft) && c < FRAME_COUNT && DirectoryInRange(vm, c)
    ensures Low(Destroy(vm, c).ft)
  {
    DestroyEffect(vm, spaces, c);
    LowSubset(vm.ft, Destroy(vm, c).ft);
  }

  lemma CreateLow(vm: Vm, spaces: set<nat>)
    requires Inv(vm, spaces) && Low(vm.ft) && |InUse(vm.ft)| + 2 <= LOW_FRAMES && Create(vm).Done?
    ensures Low(Create(vm).vm.ft)
  {
    PairReachable(vm, spaces);
  }

  lemma MapLow(vm: Vm, spaces: set<nat>, c: nat, vaddr: nat, nbytes: nat)
    requires Inv(vm, spaces) && c in spaces && Low(vm.ft) && c < FRAME_COUNT && DirectoryInRange(vm, c)
    requires |InUse(MapRegion(vm, c, vaddr, nbytes).0.ft)| <= LOW_FRAMES
    ensures Low(MapRegion(vm, c, vaddr, nbytes).0.ft)
  {
    RegionIs(vm, spaces, c, vaddr, nbytes);
    if MapRegion(vm, c, vaddr, nbytes).0 != vm {
      MapPagesLow(vm, PtOf(vm.mem, c), RegionStart(vaddr), RegionEnd(vaddr, nbytes));
    }
  }

  // Mapping only takes frames.
  lemma MapRegionGrows(vm: Vm, c: nat, vaddr: nat, nbytes: nat)
    requires Shape(vm) && c < FRAME_COUNT && DirectoryInRange(vm, c)
    ensures |InUse(vm.ft)| <= |InUse(MapRegion(vm, c, vaddr, nbytes).0.ft)|
  {
    if nbytes > 0 && Present(vm.mem[c][vaddr / 0x40_0000 % PAGE_WORDS]) {
      MapPagesGrow(vm, FrameOf(vm.mem[c][vaddr / 0x40_0000 % PAGE_WORDS]), RegionStart(vaddr),
          RegionEnd(vaddr, nbytes));
    }
  }

  lemma StepLow(st: State, ev: Event)
    requires StateInv(st) && Enabled(st, ev) && Low(st.vm.ft) && |InUse(st.vm.ft)| + 2 <= LOW_FRAMES
    requires Step(st, ev).Next? && |InUse(Step(st, ev).st.vm.ft)| <= LOW_FRAMES
    ensures Low(Step(st, ev).st.vm.ft)
  {
    match ev
    case CreateSpace => CreateLow(st.vm, st.spaces);
    case ForkSpace(parent) =>
      DirectoryOk(st.vm, st.spaces, parent);
      ForkLow(st.vm, st.spaces, parent);
    case MapUser(c, vaddr, nbytes) =>
      DirectoryOk(st.vm, st.spaces, c);
      MapLow(st.vm, st.spaces, c, vaddr, nbytes);
    case DestroySpace(c) =>
      DirectoryOk(st.vm, st.spaces, c);
      DestroyLow(st.vm, st.spaces, c);
    case UserStore(vpn, off, val, via) => StoreLow(st, vpn, off, val, via);
    case _ =>
  }

  // In a run that never has more than 206 frames in use, every enabled step is defined.
  lemma SmallRunsNeverWild(t: Trace, k: nat, ev: Event)
    requires IsRun(t) && k < |t.states|
    requires forall j :: 0 <= j <= k ==> Sized(t.states[j].vm.ft) && |InUse(t.states[j].vm.ft)| + 2 <= LOW_FRAMES
    ensures StateInv(t.states[k]) && (Enabled(t.states[k], ev) ==> Step(t.states[k], ev).Next?)
  {
    SmallRunsStayLow(t, k);
    if Enabled(t.states[k], ev) { NotWild(t.states[k], ev); }
  }

  lemma {:induction false} SmallRunsStayLow(t: Trace, k: nat)
    requires IsRun(t) && k < |t.states|
    requires forall j :: 0 <= j <= k ==> Sized(t.states[j].vm.ft) && |InUse(t.states[j].vm.ft)| + 2 <= LOW_FRAMES
    ensures StateInv(t.states[k]) && Low(t.states[k].vm.ft)
    decreases k
  {
    RunKeepsInv(t, k);
    if k > 0 {
      SmallRunsStayLow(t, k - 1);
      assert IsStep(t.states[k - 1], t.events[k - 1], t.outs[k - 1], t.states[k]);
      StepLow(t.states[k - 1], t.events[k - 1]);
    }
  }

  // ------------------------------------------------------------------
  // Past 208 frames
  // ------------------------------------------------------------------

  // f and g are the two lowest free frames.
  ghost predicate LowestTwo(ft: FrameTable, f: nat, g: nat)
    requires Sized(ft)
  {
    && f < g < FRAME_COUNT && !ft.used[f] && !ft.used[g]
    && forall h :: 0 <= h < g && h != f ==> ft.used[h]
  }

  lemma AllocLowestTwo(ft: FrameTable, f: nat, g: nat)
    requires Reserved(ft)
    ensures var (ft1, pd) := Alloc(ft); var (ft2, pt) := Alloc(ft1);
            pd != 0 && pt != 0 && pd == f && pt == g <==> LowestTwo(ft, f, g)
  {
    AllocFirstFit(ft);
    var (ft1, pd) := Alloc(ft);
    AllocFirstFit(ft1);
    var (ft2, pt) := Alloc(ft1);
    if LowestTwo(ft, f, g) {
      assert pd == f;
      assert !ft1.used[g] && pt == g;
    }
    if pd != 0 && pt != 0 {
      assert pd < pt;
      forall h | 0 <= h < pt && h != pd ensures ft.used[h] { assert ft1.used[h]; }
    }
  }

  // Creating a space needs two frames; the kernel cannot reach them exactly when the
  // second-lowest free frame lies in the user window.
  lemma CreateWildIff(vm: Vm, spaces: set<nat>)
    requires Inv(vm, spaces)
    ensures Create(vm).Wild? <==> exists f: nat, g: nat :: LowestTwo(vm.ft, f, g) && USER_PG_START <= g
  {
    assert Reserved(vm.ft);
    var (ft1, pd) := Alloc(vm.ft);
    var (ft2, pt) := Alloc(ft1);
    FreshPair(vm.mem, vm.ft, spaces);
    AllocLowestTwo(vm.ft, pd, pt);
    if Create(vm).Wild? { assert LowestTwo(vm.ft, pd, pt); }
    if f: nat, g: nat :| LowestTwo(vm.ft, f, g) && USER_PG_START <= g {
      AllocLowestTwo(vm.ft, f, g);
    }
  }

  // The same for a fork.
  lemma ForkWildIff(vm: Vm, spaces: set<nat>, parent: nat)
    requires Inv(vm, spaces) && parent in spaces
    ensures SpaceReady(vm, parent)
    ensures Fork(vm, parent).Wild? <==> exists f: nat, g: nat :: LowestTwo(vm.ft, f, g) && USER_PG_START <= g
  {
    DirectoryOk(vm, spaces, parent);
    assert Reserved(vm.ft);
    var (ft1, pd) := Alloc(vm.ft);
    var (ft2, pt) := Alloc(ft1);
    FreshPair(vm.mem, vm.ft, spaces);
    AllocLowestTwo(vm.ft, pd, pt);
    if Fork(vm, parent).Wild? { assert LowestTwo(vm.ft, pd, pt); }
    if f: nat, g: nat :| LowestTwo(vm.ft, f, g) && USER_PG_START <= g {
      AllocLowestTwo(vm.ft, f, g);
    }
  }

  // Two frames are free and the kernel can reach them.
  ghost predicate TwoLowFrames(ft: FrameTable) {
    Sized(ft) && exists f: nat, g: nat :: LowestTwo(ft, f, g) && g < USER_PG_START
  }

  // Creating a space succeeds exactly when two frames are free below the user window.
  lemma CreateSucceedsIff(vm: Vm, spaces: set<nat>)
    requires Inv(vm, spaces)
    ensures Create(vm).Done? && Create(vm).ret != 0 <==>
            exists f: nat, g: nat :: LowestTwo(vm.ft, f, g) && g < USER_PG_START
  {
    assert Reserved(vm.ft);
    var (ft1, pd) := Alloc(vm.ft);
    var (ft2, pt) := Alloc(ft1);
    FreshPair(vm.mem, vm.ft, spaces);
    AllocLowestTwo(vm.ft, pd, pt);
    if Create(vm).Done? && Create(vm).ret != 0 { assert LowestTwo(vm.ft, pd, pt); }
    if f: nat, g: nat :| LowestTwo(vm.ft, f, g) && g < USER_PG_START {
      AllocLowestTwo(vm.ft, f, g);
    }
  }

  // The same for a fork of any space, loaded or not.
  lemma ForkSucceedsIff(vm: Vm, spaces: set<nat>, parent: nat)
    requires Inv(vm, spaces) && parent in spaces
    ensures SpaceReady(vm, parent)
    ensures Fork(vm, parent).Done? && Fork(vm, parent).ret != 0 <==>
            exists f: nat, g: nat :: LowestTwo(vm.ft, f, g) && g < USER_PG_START
  {
    DirectoryOk(vm, spaces, parent);
    assert SpaceOk(vm.mem, parent);
    assert Reserved(vm.ft);
    var (ft1, pd) := Alloc(vm.ft);
    var (ft2, pt) := Alloc(ft1);
    FreshPair(vm.mem, vm.ft, spaces);
    AllocLowestTwo(vm.ft, pd, pt);
    if Fork(vm, parent).Done? && Fork(vm, parent).ret != 0 { assert LowestTwo(vm.ft, pd, pt); }
    if f: nat, g: nat :| LowestTwo(vm.ft, f, g) && g < USER_PG_START {
      AllocLowestTwo(vm.ft, f, g);
    }
  }

  // Space c's directory can be forked.
  ghost predicate SpaceReady(vm: Vm, c: nat) {
    Shape(vm) && c < FRAME_COUNT && (Present(vm.mem[c][0]) ==> FrameOf(vm.mem[c][0]) < FRAME_COUNT)
  }

  ghost predicate UsedBelow(ft: FrameTable, k: nat)
    requires Sized(ft)
  {
    DYN_START <= k <= DYN_END && forall f :: 0 <= f < FRAME_COUNT ==> (ft.used[f] <==> f < k || DYN_END <= f)
  }

  lemma AllocBelow(ft: FrameTable, k: nat)
    requires Sized(ft) && UsedBelow(ft, k) && k < DYN_END
    ensures Alloc(ft).1 == k && UsedBelow(Alloc(ft).0, k + 1)
  {
    AllocFirstFit(ft);
    assert !ft.used[k];
  }

  lemma {:induction false} MapPagesBelow(vm: Vm, pt: nat, i: nat, end: nat, k: nat)
    requires Shape(vm) && pt < FRAME_COUNT && i <= end + 1 && end < PAGE_WORDS && UsedBelow(vm.ft, k)
    requires k + (end + 1 - i) <= DYN_END
    requires forall j :: i <= j <= end ==> !Present(vm.mem[pt][j])
    ensures var (vm', ok) := MapPages(vm, pt, i, end); ok && UsedBelow(vm'.ft, k + (end + 1 - i))
    decreases end + 1 - i
  {
    if i <= end {
      AllocBelow(vm.ft, k);
      MapPagesBelow(MapPage(vm, pt, i).0, pt, i + 1, end, k + 1);
    }
  }

  lemma FirstCreate(vm: Vm)
    requires Inv(vm, {}) && UsedBelow(vm.ft, 304)
    ensures Create(vm).Done? && Create(vm).ret == 304 && UsedBelow(Create(vm).vm.ft, 306)
  {
    AllocBelow(vm.ft, 304);
    AllocBelow(Alloc(vm.ft).0, 305);
  }

  lemma LateCreate(vm: Vm)
    requires Shape(vm) && UsedBelow(vm.ft, 546)
    ensures Create(vm) == Wild
  {
    AllocBelow(vm.ft, 546);
    AllocBelow(Alloc(vm.ft).0, 547);
  }

  // Booting, creating one space and mapping all a program image may use, up to the top of
  // its stack, takes 242 frames, and the next creation then writes page tables through
  // unmapped addresses.
  lemma SecondSpaceAfterFullImage(st0: State)
    requires Booted(st0)
    ensures StateInv(st0)
    ensures var r1 := Step(st0, CreateSpace);
            && r1.Next? && r1.out == Ret(304) && StateInv(r1.st) && Enabled(r1.st, MapUser(304, 0x20_0000, 0xF_0000))
            && var r2 := Step(r1.st, MapUser(304, 0x20_0000, 0xF_0000));
            && r2.Next? && r2.out == Ret(1) && StateInv(r2.st) && Step(r2.st, CreateSpace) == WildStep
  {
    BootedInv(st0);
    FirstCreate(st0.vm);
    CreateRefines(st0);
    CreateAdds(st0.vm, {});
    var st1 := Step(st0, CreateSpace).st;
    assert st1.spaces == {304};
    FullImage(st1.vm);
    MapRefines(st1, 304, 0x20_0000, 0xF_0000);
    LateCreate(Step(st1, MapUser(304, 0x20_0000, 0xF_0000)).st.vm);
  }

  lemma WindowRegion()
    ensures RegionStart(0x20_0000) == 512 && RegionEnd(0x20_0000, 0xF_0000) == 751
    ensures 0x20_0000 / 0x40_0000 % PAGE_WORDS == 0
  {
  }

  lemma FullImage(vm: Vm)
    requires Inv(vm, {304}) && UsedBelow(vm.ft, 306)
    requires forall i: nat :: InWindow(i) ==> Pte(vm.mem, 304, i) == 0
    ensures DirectoryInRange(vm, 304)
    ensures var (vm', ok) := MapRegion(vm, 304, 0x20_0000, 0xF_0000); ok && UsedBelow(vm'.ft, 546)
  {
    DirectoryOk(vm, {304}, 304);
    WindowRegion();
    var pt := PtOf(vm.mem, 304);
    forall j | 512 <= j <= 751 ensures !Present(vm.mem[pt][j]) {
      assert InWindow(j) && Pte(vm.mem, 304, j) == 0;
    }
    MapPagesBelow(vm, pt, 512, 751, 306);
    assert MapRegion(vm, 304, 0x20_0000, 0xF_0000) == MapPages(vm, pt, 512, 751);
  }
}