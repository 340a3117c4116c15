// The copy-on-write machine refines the eager one, over every run.

module CowRefinement {
  import opened Frames
  import opened Paging
  import opened AddressSpaces
  import opened SpaceOps
  import opened PageOps
  import opened CowRuns

  // ------------------------------------------------------------------
  // Loads and stores
  // ------------------------------------------------------------------

  // Through the TLB or not, an access is checked against the current page-table word.
  lemma TranslationIs(vm: Vm, spaces: set<nat>, vpn: nat, via: Option<nat>)
    requires Inv(vm, spaces) && vpn < PAGE_COUNT && CanUse(vm, vpn, via)
    ensures Translation(vm, vpn, via) == Walk(vm.mem, vm.cr3, vpn)
  {
    if via.Some? { assert (vpn, via.value) in vm.tlb; }
  }

  // Ring 3 reaches exactly the mapped pages of the loaded space's window.
  lemma UserReach(vm: Vm, spaces: set<nat>, vpn: nat)
    requires Inv(vm, spaces) && vpn < PAGE_COUNT
    ensures var w := Walk(vm.mem, vm.cr3, vpn);
            && (MayRead(w) <==> vm.cr3 in spaces && InWindow(vpn) && Present(Pte(vm.mem, vm.cr3, vpn)))
            && (MayRead(w) ==> w == Pte(vm.mem, vm.cr3, vpn))
            && (MayWrite(w) <==> MayRead(w) && Writable(w))
  {
    WalkIs(vm.mem, vm.ft, spaces, vm.cr3, vpn);
    if vm.cr3 in spaces {
      assert SpaceOk(vm.mem, vm.cr3);
      if InWindow(vpn % PAGE_WORDS) { UserWordBits(Pte(vm.mem, vm.cr3, vpn % PAGE_WORDS)); }
    }
    KernelWordBits(vpn % PAGE_WORDS);
  }

  lemma UserWordBits(w: nat)
    requires UserWordOk(w)
    ensures Present(w) ==> UserMode(w) && FrameOf(w) < FRAME_COUNT
  {
    LowBits(FrameOf(w), 5);
    LowBits(FrameOf(w), 7);
  }

  lemma KernelWordBits(i: nat)
    ensures !UserMode(KernelWord(i))
  {
    if !InWindow(i) { assert KernelWord(i) / 4 == 2 * (512 * i); }
  }

  lemma LoadRefines(st: State, vpn: nat, off: nat, via: Option<nat>)
    requires StateInv(st) && Enabled(st, UserLoad(vpn, off, via))
    ensures var r := Step(st, UserLoad(vpn, off, via));
            r.Next? && StateInv(r.st) && EagerStep(Abs(st), UserLoad(vpn, off, via), FreeOf(st), r.out, Abs(r.st))
  {
    TranslationIs(st.vm, st.spaces, vpn, via);
    UserReach(st.vm, st.spaces, vpn);
  }

  // Frame f holds words val at off and nothing else in memory has changed.
  lemma WordStored(vm: Vm, spaces: set<nat>, i: nat, off: nat, val: nat)
    requires Inv(vm, spaces) && vm.cr3 in spaces && InWindow(i) && off < PAGE_WORDS
    requires Present(Pte(vm.mem, vm.cr3, i)) && Writable(Pte(vm.mem, vm.cr3, i))
    ensures FrameOf(Pte(vm.mem, vm.cr3, i)) < FRAME_COUNT
    ensures var mem' := SetWord(vm.mem, FrameOf(Pte(vm.mem, vm.cr3, i)), off, val);
            && Framed(mem')
            && (forall c :: c in spaces ==> PtOf(mem', c) == PtOf(vm.mem, c))
            && (forall c, j: nat :: c in spaces ==> Pte(mem', c, j) == Pte(vm.mem, c, j))
            && KernelTables(mem')
  {
    MappedFrame(vm.mem, vm.ft, spaces, vm.cr3, i);
    forall c | c in spaces
      ensures SpaceOk(vm.mem, c) && IsTable(vm.mem, spaces, c) && IsTable(vm.mem, spaces, PtOf(vm.mem, c))
    {
    }
  }

  // The invariant speaks of page tables only, so it does not see a user word change.
  lemma SameTablesSameInv(mem: seq<seq<nat>>, mem': seq<seq<nat>>, ft: FrameTable, spaces: set<nat>)
    requires MemInv(mem, ft, spaces) && KernelTables(mem')
    requires forall c :: c in spaces ==> PtOf(mem', c) == PtOf(mem, c) && mem'[c] == mem[c]
    requires forall c, j: nat :: c in spaces ==> Pte(mem', c, j) == Pte(mem, c, j)
    ensures MemInv(mem', ft, spaces)
  {
    forall c | c in spaces ensures SpaceOk(mem', c) { assert SpaceOk(mem, c); }
    forall f: nat | f < FRAME_COUNT
      ensures Sharers(mem', spaces, f) == Sharers(mem, spaces, f)
      ensures IsTable(mem', spaces, f) <==> IsTable(mem, spaces, f)
    {
      forall c | c in spaces ensures Names(mem', c, f) <==> Names(mem, c, f) {
        SameWordsSameNames(mem, mem', c, f);
      }
      SameTables(mem, mem', spaces, f);
    }
    forall c, j: nat, f: nat | c in spaces ensures NamesAt(mem', c, j, f) <==> NamesAt(mem, c, j, f) {
    }
  }

  lemma SameWordsSameNames(mem: seq<seq<nat>>, mem': seq<seq<nat>>, c: nat, f: nat)
    requires forall j: nat :: Pte(mem', c, j) == Pte(mem, c, j)
    ensures Names(mem', c, f) <==> Names(mem, c, f)
  {
    if Names(mem, c, f) {
      var j: nat :| NamesAt(mem, c, j, f);
      assert NamesAt(mem', c, j, f);
    }
    if Names(mem', c, f) {
      var j: nat :| NamesAt(mem', c, j, f);
      assert NamesAt(mem, c, j, f);
    }
  }

  // A store through a writable entry, as the hardware performs it.
  function Stored(vm: Vm, f: nat, off: nat, val: nat): (r: Vm)
    requires Shape(vm) && f < FRAME_COUNT && off < PAGE_WORDS
    ensures Shape(r)
  {
    vm.(mem := SetWord(vm.mem, f, off, val))
  }

  lemma StoreKeepsInv(vm: Vm, spaces: set<nat>, i: nat, off: nat, val: nat)
    requires Inv(vm, spaces) && vm.cr3 in spaces && InWindow(i) && off < PAGE_WORDS
    requires Present(Pte(vm.mem, vm.cr3, i)) && Writable(Pte(vm.mem, vm.cr3, i))
    ensures FrameOf(Pte(vm.mem, vm.cr3, i)) < FRAME_COUNT
    ensures Inv(Stored(vm, FrameOf(Pte(vm.mem, vm.cr3, i)), off, val), spaces)
  {
    WordStored(vm, spaces, i, off, val);
    var f := FrameOf(Pte(vm.mem, vm.cr3, i));
    MappedFrame(vm.mem, vm.ft, spaces, vm.cr3, i);
    var vm' := Stored(vm, f, off, val);
    forall c | c in spaces ensures vm'.mem[c] == vm.mem[c] && vm'.mem[PtOf(vm.mem, c)] == vm.mem[PtOf(vm.mem, c)] {
      assert SpaceOk(vm.mem, c) && IsTable(vm.mem, spaces, c) && IsTable(vm.mem, spaces, PtOf(vm.mem, c));
    }
    SameTablesSameInv(vm.mem, vm'.mem, vm.ft, spaces);
    forall e | e in vm'.tlb ensures Walk(vm'.mem, vm'.cr3, e.0) == Walk(vm.mem, vm.cr3, e.0) {
      WalkStable(vm.mem, vm'.mem, vm.ft, spaces, vm.cr3, e.0);
    }
  }

  // A writable page is nobody else's, so the store is seen by the loaded space alone.
  lemma StorePages(vm: Vm, spaces: set<nat>, i: nat, off: nat, val: nat, c: nat, j: nat)
    requires Inv(vm, spaces) && vm.cr3 in spaces && InWindow(i) && off < PAGE_WORDS
    requires Present(Pte(vm.mem, vm.cr3, i)) && Writable(Pte(vm.mem, vm.cr3, i))
    requires c in spaces && InWindow(j) && Present(Pte(vm.mem, c, j))
    ensures var f := FrameOf(Pte(vm.mem, vm.cr3, i));
            && f < FRAME_COUNT
            && (FrameOf(Pte(vm.mem, c, j)) == f <==> c == vm.cr3 && j == i)
  {
    MappedFrame(vm.mem, vm.ft, spaces, vm.cr3, i);
    MappedFrame(vm.mem, vm.ft, spaces, c, j);
    var f := FrameOf(Pte(vm.mem, vm.cr3, i));
    if FrameOf(Pte(vm.mem, c, j)) == f {
      SoleSharer(vm.mem, vm.ft, spaces, vm.cr3, i, c, j, f);
    }
  }

  lemma StoreAbs(st: State, i: nat, off: nat, val: nat)
    requires StateInv(st) && st.vm.cr3 in st.spaces && InWindow(i) && off < PAGE_WORDS
    requires Present(Pte(st.vm.mem, st.vm.cr3, i)) && Writable(Pte(st.vm.mem, st.vm.cr3, i))
    ensures FrameOf(Pte(st.vm.mem, st.vm.cr3, i)) < FRAME_COUNT
    ensures EagerMapped(Abs(st), i) && |Abs(st).spaces[st.vm.cr3][i]| == PAGE_WORDS
    ensures Abs(st.(vm := Stored(st.vm, FrameOf(Pte(st.vm.mem, st.vm.cr3, i)), off, val))) ==
            EagerStore(Abs(st), i, off, val)
  {
    var vm := st.vm;
    MappedFrame(vm.mem, vm.ft, st.spaces, vm.cr3, i);
    WordStored(vm, st.spaces, i, off, val);
    var f := FrameOf(Pte(vm.mem, vm.cr3, i));
    var mem' := SetWord(vm.mem, f, off, val);
    var page: seq<nat> := vm.mem[f][off := val];
    forall c | c in st.spaces
      ensures c != vm.cr3 ==> Pages(mem', c) == Pages(vm.mem, c)
      ensures c == vm.cr3 ==> Pages(mem', c) == Pages(vm.mem, c)[i := page]
    {
      forall j: nat | InWindow(j) && Present(Pte(vm.mem, c, j)) && !(c == vm.cr3 && j == i)
        ensures Words(mem', FrameOf(Pte(vm.mem, c, j))) == Words(vm.mem, FrameOf(Pte(vm.mem, c, j)))
      {
        StorePages(vm, st.spaces, i, off, val, c, j);
      }
      StoredPages(vm.mem, mem', c, if c == vm.cr3 then Some(i) else None);
    }
    StoreIsEager(st, st.(vm := vm.(mem := mem')), i, off, val, page);
  }

  // Pages of c are the same in both memories except, when given, page i.
  lemma StoredPages(mem: seq<seq<nat>>, mem': seq<seq<nat>>, c: nat, i: Option<nat>)
    requires forall j: nat :: Pte(mem', c, j) == Pte(mem, c, j)
    requires forall j: nat :: InWindow(j) && Present(Pte(mem, c, j)) && i != Some(j) ==>
               Words(mem', FrameOf(Pte(mem, c, j))) == Words(mem, FrameOf(Pte(mem, c, j)))
    requires i.Some? ==> InWindow(i.value) && Present(Pte(mem, c, i.value))
    ensures i.None? ==> Pages(mem', c) == Pages(mem, c)
    ensures i.Some? ==> Pages(mem', c) == Pages(mem, c)[i.value := Words(mem', FrameOf(Pte(mem, c, i.value)))]
  {
    forall j: nat ensures j in Pages(mem', c) <==> j in Pages(mem, c) {
    }
    forall j: nat | j in Pages(mem, c) && i != Some(j) ensures Pages(mem', c)[j] == Pages(mem, c)[j] {
      assert InWindow(j);
    }
  }

  lemma StoreIsEager(st: State, st': State, i: nat, off: nat, val: nat, page: seq<nat>)
    requires st'.spaces == st.spaces && st'.vm.cr3 == st.vm.cr3 && st.vm.cr3 in st.spaces
    requires i in Pages(st.vm.mem, st.vm.cr3) && off < |Pages(st.vm.mem, st.vm.cr3)[i]|
    requires page == Pages(st.vm.mem, st.vm.cr3)[i][off := val]
    requires forall c :: c in st.spaces ==>
               Pages(st'.vm.mem, c) == if c == st.vm.cr3 then Pages(st.vm.mem, c)[i := page] else Pages(st.vm.mem, c)
    ensures Abs(st') == EagerStore(Abs(st), i, off, val)
  {
    assert Abs(st').spaces == EagerStore(Abs(st), i, off, val).spaces;
  }

  // Pointing a page at a copy of its own frame changes the words of no page.
  lemma CopiedPages(mem: seq<seq<nat>>, mem': seq<seq<nat>>, ft: FrameTable, ft': FrameTable, spaces: set<nat>,
                    c: nat, i: nat, nf: nat, d: nat)
    requires MemInv(mem, ft, spaces) && PageReplaced(mem, mem', ft, ft', spaces, c, i, nf) && d in spaces
    requires Present(Pte(mem, c, i)) && mem'[nf] == Words(mem, FrameOf(Pte(mem, c, i)))
    ensures Pages(mem', d) == Pages(mem, d)
  {
    ReplacedPages(mem, mem', ft, ft', spaces, c, i, nf, d);
    assert d == c ==> i in Pages(mem, c) && Pages(mem, c)[i] == mem'[nf];
  }

  lemma FaultReplaces(vm: Vm, spaces: set<nat>, vpn: nat)
    requires Inv(vm, spaces) && vpn < PAGE_COUNT && CanFault(vm, vpn)
    requires CowFault(vm, vpn, true, true).Done? && CowFault(vm, vpn, true, true).ret == 1
    ensures var vm' := CowFault(vm, vpn, true, true).vm; var nf := Alloc(vm.ft).1;
            && PageReplaced(vm.mem, vm'.mem, vm.ft, vm'.ft, spaces, vm.cr3, vpn, nf)
            && Present(Pte(vm.mem, vm.cr3, vpn)) && vm'.mem[nf] == Words(vm.mem, FrameOf(Pte(vm.mem, vm.cr3, vpn)))
            && vm'.cr3 == vm.cr3
  {
    CowFaultRefused(vm, spaces, vpn, true, true);
    ReadOnlyIsUser(vm, spaces, vpn);
    CowFaultEffect(vm, spaces, vpn);
    MappedFrame(vm.mem, vm.ft, spaces, vm.cr3, vpn);
  }

  // Resolving a fault changes what no space reads.
  lemma FaultAbs(st: State, vpn: nat)
    requires StateInv(st) && vpn < PAGE_COUNT && CanFault(st.vm, vpn)
    requires CowFault(st.vm, vpn, true, true).Done? && CowFault(st.vm, vpn, true, true).ret == 1
    ensures Abs(st.(vm := CowFault(st.vm, vpn, true, true).vm)) == Abs(st)
  {
    FaultReplaces(st.vm, st.spaces, vpn);
    var vm' := CowFault(st.vm, vpn, true, true).vm;
    forall c | c in st.spaces ensures Pages(vm'.mem, c) == Pages(st.vm.mem, c) {
      CopiedPages(st.vm.mem, vm'.mem, st.vm.ft, vm'.ft, st.spaces, st.vm.cr3, vpn, Alloc(st.vm.ft).1, c);
    }
    SameAbs(st, st.(vm := vm'));
  }

  lemma SameAbs(st: State, st': State)
    requires st'.spaces == st.spaces && st'.vm.cr3 == st.vm.cr3
    requires forall c :: c in st.spaces ==> Pages(st'.vm.mem, c) == Pages(st.vm.mem, c)
    ensures Abs(st') == Abs(st)
  {
    assert Abs(st').spaces == Abs(st).spaces;
  }

  lemma StoreRefines(st: State, vpn: nat, off: nat, val: nat, via: Option<nat>)
    requires StateInv(st) && Enabled(st, UserStore(vpn, off, val, via))
    requires StoreStep(st, vpn, off, val, via).Next?
    ensures var r := StoreStep(st, vpn, off, val, via);
            StateInv(r.st) && EagerStep(Abs(st), UserStore(vpn, off, val, via), FreeOf(st), r.out, Abs(r.st))
  {
    TranslationIs(st.vm, st.spaces, vpn, via);
    UserReach(st.vm, st.spaces, vpn);
    var w := Walk(st.vm.mem, st.vm.cr3, vpn);
    if MayWrite(w) {
      StoreKeepsInv(st.vm, st.spaces, vpn, off, val);
      StoreAbs(st, vpn, off, val);
    } else {
      CowFaultRefused(st.vm, st.spaces, vpn, true, true);
      var r := CowFault(st.vm, vpn, true, true);
      if r.ret == 1 { RetriedStore(st, vpn, off, val); } else { AllocCounts(st.vm.ft); }
    }
  }

  // After a resolved fault the page is present and writable for its own space.
  lemma ReplacedWritable(mem: seq<seq<nat>>, mem': seq<seq<nat>>, ft: FrameTable, ft': FrameTable, spaces: set<nat>,
                         c: nat, i: nat, nf: nat)
    requires MemInv(mem, ft, spaces) && PageReplaced(mem, mem', ft, ft', spaces, c, i, nf)
    ensures InWindow(i) && c in spaces && Present(Pte(mem', c, i)) && Writable(Pte(mem', c, i))
  {
    ReplacedSpace(mem, mem', ft, ft', spaces, c, i, nf, c);
  }

  lemma StoreToOwned(st: State, vpn: nat, off: nat, val: nat)
    requires StateInv(st) && vpn < PAGE_COUNT && off < PAGE_WORDS && InWindow(vpn) && st.vm.cr3 in st.spaces
    requires Present(Pte(st.vm.mem, st.vm.cr3, vpn)) && Writable(Pte(st.vm.mem, st.vm.cr3, vpn))
    ensures var w := Walk(st.vm.mem, st.vm.cr3, vpn);
            && MayWrite(w)
            && Inv(Stored(st.vm, FrameOf(w), off, val), st.spaces)
            && EagerMapped(Abs(st), vpn) && |Abs(st).spaces[st.vm.cr3][vpn]| == PAGE_WORDS
            && Abs(st.(vm := Stored(st.vm, FrameOf(w), off, val))) == EagerStore(Abs(st), vpn, off, val)
  {
    UserReach(st.vm, st.spaces, vpn);
    StoreKeepsInv(st.vm, st.spaces, vpn, off, val);
    StoreAbs(st, vpn, off, val);
  }

  // After a resolved fault the retried store lands, in a page the loaded space now owns.
  lemma RetriedStore(st: State, vpn: nat, off: nat, val: nat)
    requires StateInv(st) && vpn < PAGE_COUNT && off < PAGE_WORDS && CanFault(st.vm, vpn)
    requires CowFault(st.vm, vpn, true, true).Done? && CowFault(st.vm, vpn, true, true).ret == 1
    ensures var vm1 := CowFault(st.vm, vpn, true, true).vm; var w := Walk(vm1.mem, vm1.cr3, vpn);
            && MayWrite(w)
            && Inv(Stored(vm1, FrameOf(w), off, val), st.spaces)
            && EagerMapped(Abs(st), vpn) && |Abs(st).spaces[st.vm.cr3][vpn]| == PAGE_WORDS
            && Abs(st.(vm := Stored(vm1, FrameOf(w), off, val))) == EagerStore(Abs(st), vpn, off, val)
  {
    CowFaultKeepsInv(st.vm, st.spaces, vpn, true, true);
    FaultAbs(st, vpn);
    FaultReplaces(st.vm, st.spaces, vpn);
    var vm1 := CowFault(st.vm, vpn, true, true).vm;
    ReplacedWritable(st.vm.mem, vm1.mem, st.vm.ft, vm1.ft, st.spaces, st.vm.cr3, vpn, Alloc(st.vm.ft).1);
    StoreToOwned(st.(vm := vm1), vpn, off, val);
  }

  // A ring-3 store to a mapped page fails exactly when the page is shared and no frame
  // is free; a failed store changes nothing at all.
  lemma StoreOutcome(st: State, vpn: nat, off: nat, val: nat, via: Option<nat>)
    requires StateInv(st) && Enabled(st, UserStore(vpn, off, val, via)) && StoreStep(st, vpn, off, val, via).Next?
    ensures var r := StoreStep(st, vpn, off, val, via);
            && (r.out == Fault ==> r.st == st)
            && (r.out == Fault <==>
                 || !EagerMapped(Abs(st), vpn)
                 || (!Writable(Pte(st.vm.mem, st.vm.cr3, vpn)) && forall f :: 0 <= f < FRAME_COUNT ==>
                     st.vm.ft.used[f]))
  {
    TranslationIs(st.vm, st.spaces, vpn, via);
    UserReach(st.vm, st.spaces, vpn);
    CowFaultRefused(st.vm, st.spaces, vpn, true, true);
    AllocFirstFit(st.vm.ft);
    if !MayWrite(Walk(st.vm.mem, st.vm.cr3, vpn)) && CowFault(st.vm, vpn, true, true).ret == 1 {
      RetriedStore(st, vpn, off, val);
    }
  }

  // ------------------------------------------------------------------
  // Runs
  // ------------------------------------------------------------------

  lemma TlbRefines(st: State, tlb: set<(nat, nat)>)
    requires StateInv(st) && Enabled(st, TlbChange(tlb))
    ensures StateInv(st.(vm := st.vm.(tlb := tlb))) && Abs(st.(vm := st.vm.(tlb := tlb))) == Abs(st)
  {
  }

  // Every step keeps the invariant and is a step of the eager machine with the same output.
  lemma StepRefines(st: State, ev: Event)
    requires StateInv(st) && Enabled(st, ev) && Step(st, ev).Next?
    ensures StateInv(Step(st, ev).st)
    ensures EagerStep(Abs(st), ev, FreeOf(st), Step(st, ev).out, Abs(Step(st, ev).st))
  {
    match ev
    case CreateSpace => CreateRefines(st);
    case ForkSpace(parent) => ForkRefines(st, parent);
    case MapUser(c, vaddr, nbytes) => MapRefines(st, c, vaddr, nbytes);
    case DestroySpace(c) => DestroyRefines(st, c);
    case LoadCr3(c) => LoadCr3Refines(st, c);
    case UserLoad(vpn, off, via) => LoadRefines(st, vpn, off, via);
    case UserStore(vpn, off, val, via) => StoreRefines(st, vpn, off, val, via);
    case TlbChange(tlb) => TlbRefines(st, tlb);
  }

  // A run visits states[0], states[1], ...; event k leads from states[k] to states[k + 1] with outs[k].
  datatype Trace = Trace(states: seq<State>, events: seq<Event>, outs: seq<Output>)

  ghost predicate IsStep(st: State, ev: Event, out: Output, st': State) {
    StateInv(st) && Enabled(st, ev) && Step(st, ev) == Next(st', out)
  }

  ghost predicate IsRun(t: Trace) {
    && |t.states| == |t.events| + 1 && |t.outs| == |t.events|
    && Booted(t.states[0])
    && (forall k :: 0 <= k < |t.events| && StateInv(t.states[k]) ==>
        IsStep(t.states[k], t.events[k], t.outs[k], t.states[k + 1]))
  }

  // After mm_init and paging_init: the kernel tables are in place and no space exists.
  ghost predicate Booted(st: State) {
    && Shape(st.vm) && st.vm.ft == BootTable() && KernelTables(st.vm.mem)
    && st.vm.cr3 == KERNEL_PD && st.vm.tlb == {} && st.spaces == {}
  }

  // There is such a state.
  lemma SomeBooted() returns (st: State)
    ensures Booted(st)
  {
    var directory: seq<nat> := seq(PAGE_WORDS, i requires 0 <= i => if i == 0 then UserWord(KERNEL_PT) else 0);
    var table: seq<nat> := seq(PAGE_WORDS, i requires 0 <= i => KernelWord(i));
    var blank: seq<nat> := seq(PAGE_WORDS, i => 0);
    var mem := seq(FRAME_COUNT, f => if f == KERNEL_PD then directory else if f == KERNEL_PT then table else blank);
    st := State(Vm(mem, BootTable(), KERNEL_PD, {}), {});
  }

  lemma BootedInv(st: State)
    requires Booted(st)
    ensures StateInv(st) && Abs(st) == Eager(map[], KERNEL_PD)
  {
    forall f: nat ensures Sharers(st.vm.mem, {}, f) == {} {
    }
    assert Abs(st).spaces == map[];
  }

  // In every reachable state the invariant holds: reference counts are exact, nothing
  // writable is shared, the TLB agrees with the tables.
  lemma {:induction false} RunKeepsInv(t: Trace, k: nat)
    requires IsRun(t) && k < |t.states|
    ensures StateInv(t.states[k])
    decreases k
  {
    if k == 0 {
      BootedInv(t.states[0]);
    } else {
      RunKeepsInv(t, k - 1);
      assert IsStep(t.states[k - 1], t.events[k - 1], t.outs[k - 1], t.states[k]);
      StepRefines(t.states[k - 1], t.events[k - 1]);
    }
  }

  // Step k finds frees[k] frames free.
  ghost predicate IsEagerRun(es: seq<Eager>, events: seq<Event>, frees: seq<nat>, outs: seq<Output>) {
    && |es| == |events| + 1 && |outs| == |events| && |frees| == |es|
    && es[0] == Eager(map[], KERNEL_PD)
    && (forall k :: 0 <= k < |events| ==> EagerStep(es[k], events[k], frees[k], outs[k], es[k + 1]))
  }

  ghost function FreeRun(states: seq<State>): (frees: seq<nat>)
    ensures |frees| == |states| && forall k :: 0 <= k < |states| ==> frees[k] == FreeOf(states[k])
  {
    seq(|states|, k requires 0 <= k < |states| => FreeOf(states[k]))
  }

  ghost function AbsRun(states: seq<State>): (es: seq<Eager>)
    ensures |es| == |states| && forall k :: 0 <= k < |states| ==> es[k] == Abs(states[k])
  {
    seq(|states|, k requires 0 <= k < |states| => Abs(states[k]))
  }

  // Copy-on-write is unobservable: every run, seen through the page tables, is a run of
  // the machine that copies at fork, with the same results for every load and store; what
  // can fail fails exactly when the free frames do not suffice.
  lemma CowRefinesEager(t: Trace)
    requires IsRun(t)
    ensures IsEagerRun(AbsRun(t.states), t.events, FreeRun(t.states), t.outs)
  {
    BootedInv(t.states[0]);
    forall k | 0 <= k < |t.events|
      ensures EagerStep(AbsRun(t.states)[k], t.events[k], FreeRun(t.states)[k], t.outs[k], AbsRun(t.states)[k + 1])
    {
      RunKeepsInv(t, k);
      assert IsStep(t.states[k], t.events[k], t.outs[k], t.states[k + 1]);
      StepRefines(t.states[k], t.events[k]);
    }
  }

  // A step a process takes with its space loaded changes what no other space reads.
  lemma WritesStayPrivate(t: Trace, k: nat, c: nat)
    requires IsRun(t) && k < |t.events| && t.events[k].UserStore?
    requires c in t.states[k].spaces && c != t.states[k].vm.cr3
    ensures c in t.states[k + 1].spaces
    ensures Pages(t.states[k + 1].vm.mem, c) == Pages(t.states[k].vm.mem, c)
  {
    CowRefinesEager(t);
    RunKeepsInv(t, k);
    var es := AbsRun(t.states);
    assert EagerStep(es[k], t.events[k], FreeRun(t.states)[k], t.outs[k], es[k + 1]);
    assert c in es[k].spaces && c in es[k + 1].spaces && es[k + 1].spaces[c] == es[k].spaces[c];
  }
}
