// Whole runs of the copy-on-write machine, and the eager machine they refine: one
// in which every space owns its pages and fork copies them.

module CowRuns {
  import opened Frames
  import opened Paging
  import opened AddressSpaces
  import opened SpaceOps
  import opened PageOps
  import opened SpaceTeardown

  datatype Option<T> = None | Some(value: T)

  // `via` is the TLB entry the processor uses for an access, None when it walks the tables.
  datatype Event =
    | CreateSpace
    | ForkSpace(parent: nat)
    | MapUser(c: nat, vaddr: nat, nbytes: nat)
    | DestroySpace(c: nat)
    | LoadCr3(c: nat)
    | UserLoad(vpn: nat, off: nat, via: Option<nat>)
    | UserStore(vpn: nat, off: nat, val: nat, via: Option<nat>)
    | TlbChange(tlb: set<(nat, nat)>)

  datatype Output = Ret(n: nat) | Loaded(word: nat) | Fault

  datatype State = State(vm: Vm, spaces: set<nat>)

  datatype StepResult = Next(st: State, out: Output) | WildStep

  ghost predicate StateInv(st: State) {
    Inv(st.vm, st.spaces)
  }

  ghost predicate Enabled(st: State, ev: Event)
    requires StateInv(st)
  {
    match ev
    case CreateSpace => true
    case ForkSpace(parent) => parent in st.spaces
    case MapUser(c, vaddr, nbytes) => c in st.spaces && vaddr < 0x1_0000_0000 && nbytes < 0x1_0000_0000
    case DestroySpace(c) => c in st.spaces && c != st.vm.cr3
    case LoadCr3(c) => c in st.spaces || c == KERNEL_PD
    case UserLoad(vpn, off, via) => vpn < PAGE_COUNT && off < PAGE_WORDS && CanUse(st.vm, vpn, via)
    case UserStore(vpn, off, val, via) => vpn < PAGE_COUNT && off < PAGE_WORDS && val < 0x1_0000_0000 &&
        CanUse(st.vm, vpn, via)
    case TlbChange(tlb) =>
      forall e :: e in tlb ==>
          e in st.vm.tlb || (e.0 < PAGE_COUNT && Present(e.1) && Walk(st.vm.mem, st.vm.cr3, e.0) == e.1)
  }

  predicate CanUse(vm: Vm, vpn: nat, via: Option<nat>) {
    via.Some? ==> (vpn, via.value) in vm.tlb
  }

  // The page-table word an access to page vpn is checked against.
  function Translation(vm: Vm, vpn: nat, via: Option<nat>): nat
    requires Shape(vm)
  {
    if via.Some? then via.value else Walk(vm.mem, vm.cr3, vpn)
  }

  predicate MayWrite(w: nat) { Present(w) && UserMode(w) && Writable(w) && FrameOf(w) < FRAME_COUNT }
  predicate MayRead(w: nat) { Present(w) && UserMode(w) && FrameOf(w) < FRAME_COUNT }

  // A ring-3 store: it goes through, or it faults, the handler runs, and a resolved fault retries.
  ghost function StoreStep(st: State, vpn: nat, off: nat, val: nat, via: Option<nat>): StepResult
    requires StateInv(st) && vpn < PAGE_COUNT && off < PAGE_WORDS
  {
    var w := Translation(st.vm, vpn, via);
    if MayWrite(w) then Next(st.(vm := st.vm.(mem := SetWord(st.vm.mem, FrameOf(w), off, val))), Ret(1))
    else
      CowFaultRefused(st.vm, st.spaces, vpn, true, true);
      var r := CowFault(st.vm, vpn, true, true);
      if r.Wild? then WildStep
      else if r.ret == 0 then Next(st.(vm := r.vm), Fault)
      else
        var w' := Walk(r.vm.mem, r.vm.cr3, vpn);
        if MayWrite(w') then Next(st.(vm := r.vm.(mem := SetWord(r.vm.mem, FrameOf(w'), off, val))), Ret(1))
        else Next(st.(vm := r.vm), Fault)
  }

  ghost function Step(st: State, ev: Event): StepResult
    requires StateInv(st) && Enabled(st, ev)
  {
    match ev
    case CreateSpace =>
      var r := Create(st.vm);
      if r.Wild? then WildStep
      else Next(State(r.vm, if r.ret == 0 then st.spaces else st.spaces + {r.ret}), Ret(r.ret))
    case ForkSpace(parent) =>
      DirectoryOk(st.vm, st.spaces, parent);
      var r := Fork(st.vm, parent);
      if r.Wild? then WildStep
      else Next(State(r.vm, if r.ret == 0 then st.spaces else st.spaces + {r.ret}), Ret(r.ret))
    case MapUser(c, vaddr, nbytes) =>
      DirectoryOk(st.vm, st.spaces, c);
      var (vm', ok) := MapRegion(st.vm, c, vaddr, nbytes);
      Next(st.(vm := vm'), Ret(if ok then 1 else 0))
    case DestroySpace(c) =>
      DirectoryOk(st.vm, st.spaces, c);
      Next(State(Destroy(st.vm, c), st.spaces - {c}), Ret(0))
    case LoadCr3(c) =>
      DirectoryOk(st.vm, st.spaces, c);
      Next(st.(vm := Switch(st.vm, c)), Ret(0))
    case UserLoad(vpn, off, via) =>
      var w := Translation(st.vm, vpn, via);
      Next(st, if MayRead(w) then Loaded(st.vm.mem[FrameOf(w)][off]) else Fault)
    case UserStore(vpn, off, val, via) => StoreStep(st, vpn, off, val, via)
    case TlbChange(tlb) => Next(st.(vm := st.vm.(tlb := tlb)), Ret(0))
  }

  // ------------------------------------------------------------------
  // The eager machine
  // ------------------------------------------------------------------

  // The words of each mapped page of a space.
  type PageMap = map<nat, seq<nat>>

  // Each space owns its pages.
  datatype Eager = Eager(spaces: map<nat, PageMap>, cur: nat)

  // A step with `free` frames to take. Creating and forking need two, mapping one for each
  // page that is not there yet, and with a frame free a store to a mapped page succeeds.
  ghost predicate EagerStep(e: Eager, ev: Event, free: nat, out: Output, e': Eager) {
    match ev
    case CreateSpace =>
      && out.Ret? && (out.n == 0 <==> free < 2)
      && if out.n == 0 then e' == e
         else out.n !in e.spaces && e' == e.(spaces := e.spaces[out.n := map[]])
    case ForkSpace(parent) =>
      && out.Ret? && parent in e.spaces && (out.n == 0 <==> free < 2)
      && if out.n == 0 then e' == e
         else out.n !in e.spaces && e' == e.(spaces := e.spaces[out.n := e.spaces[parent]])
    case MapUser(c, vaddr, nbytes) =>
      && out.Ret? && c in e.spaces && c in e'.spaces
      && e' == e.(spaces := e.spaces[c := e'.spaces[c]])
      && PagesMapped(e.spaces[c], e'.spaces[c], vaddr, nbytes, free, out.n != 0)
    case DestroySpace(c) => out.Ret? && e' == e.(spaces := e.spaces - {c})
    case LoadCr3(c) => out.Ret? && e' == e.(cur := c)
    case UserLoad(vpn, off, _) =>
      e' == e && out == if EagerMapped(e, vpn) && off < |e.spaces[e.cur][vpn]| then Loaded(e.spaces[e.cur][vpn][off])
          else Fault
    case UserStore(vpn, off, val, _) =>
      || (out == Fault && e' == e && (EagerMapped(e, vpn) ==> free == 0))
      || (out == Ret(1) && EagerMapped(e, vpn) && off < |e.spaces[e.cur][vpn]| && e' == EagerStore(e, vpn, off, val))
    case TlbChange(_) => out.Ret? && e' == e
  }

  ghost predicate EagerMapped(e: Eager, vpn: nat) {
    e.cur in e.spaces && vpn in e.spaces[e.cur]
  }

  ghost function EagerStore(e: Eager, vpn: nat, off: nat, val: nat): Eager
    requires EagerMapped(e, vpn) && off < |e.spaces[e.cur][vpn]|
  {
    var page: seq<nat> := e.spaces[e.cur][vpn][off := val];
    var pages: PageMap := e.spaces[e.cur][vpn := page];
    e.(spaces := e.spaces[e.cur := pages])
  }

  // Old pages keep their words. It succeeds, for an address below 4 MB, exactly when there
  // are frames for the pages of the region that are missing, and then adds them all;
  // otherwise it adds as many of them as there are frames, lowest first.
  ghost predicate PagesMapped(m: PageMap, m': PageMap, vaddr: nat, nbytes: nat, free: nat, ok: bool) {
    && (forall i :: i in m ==> i in m' && m'[i] == m[i])
    && (ok <==> nbytes == 0 || (vaddr < 0x40_0000 && |Missing(m, vaddr, nbytes)| <= free))
    && (nbytes > 0 && vaddr >= 0x40_0000 ==> m' == m)
    && (ok ==> m'.Keys == m.Keys + Missing(m, vaddr, nbytes))
    && (!ok && vaddr < 0x40_0000 ==>
        && m'.Keys <= m.Keys + Missing(m, vaddr, nbytes) && |m'| == |m| + free
        && forall i, j :: i in m' && i !in m && j < i && j in Missing(m, vaddr, nbytes) ==> j in m')
  }

  // The pages of the region that m lacks.
  ghost function Missing(m: PageMap, vaddr: nat, nbytes: nat): set<nat> {
    set i: nat | USER_PG_START <= i < USER_PG_END && InRegion(i, vaddr, nbytes) && i !in m
  }

  // Below 4 MB the region is the pages of the user window that hold one of its bytes.
  lemma RegionIsBytes(i: nat, vaddr: nat, nbytes: nat)
    requires vaddr + nbytes <= 0x40_0000
    ensures InRegion(i, vaddr, nbytes) <==>
            512 <= i < 768 && exists a: nat :: vaddr <= a < vaddr + nbytes && a / 4096 == i
  {
    if InRegion(i, vaddr, nbytes) {
      var a := if vaddr < 4096 * i then 4096 * i else vaddr;
      assert a / 4096 == i;
    }
  }

  // Page i of the user window is one that [vaddr, vaddr + nbytes) touches, as paging_map_user_region computes it.
  ghost predicate InRegion(i: nat, vaddr: nat, nbytes: nat) {
    nbytes > 0 && InWindow(i) && RegionStart(vaddr) <= i <= RegionEnd(vaddr, nbytes)
  }

  // ------------------------------------------------------------------
  // The abstraction: what each space reads through its page table
  // ------------------------------------------------------------------

  ghost function Words(mem: seq<seq<nat>>, f: nat): seq<nat> {
    if f < |mem| then mem[f] else []
  }

  ghost function Pages(mem: seq<seq<nat>>, c: nat): PageMap {
    map i: nat | USER_PG_START <= i < USER_PG_END && Present(Pte(mem, c, i)) :: Words(mem, FrameOf(Pte(mem, c, i)))
  }

  ghost function Abs(st: State): Eager {
    Eager(map c | c in st.spaces :: Pages(st.vm.mem, c), st.vm.cr3)
  }

  ghost function FreeOf(st: State): nat { FreeFrames(st.vm.ft) }

  // Two frames can be had exactly when two are free.
  lemma TwoFrames(ft: FrameTable)
    requires Sized(ft) && ft.used[0]
    ensures var (ft1, f) := Alloc(ft); var (ft2, g) := Alloc(ft1);
            && (f != 0 && g != 0 <==> FreeFrames(ft) >= 2)
            && (f != 0 && g != 0 ==> FreeFrames(ft2) + 2 == FreeFrames(ft))
  {
    AllocCounts(ft);
    AllocFirstFit(ft);
    var (ft1, f) := Alloc(ft);
    AllocCounts(ft1);
  }

  // Two memories in which space c has the same words, page for page.
  lemma SamePages(mem: seq<seq<nat>>, mem': seq<seq<nat>>, c: nat, d: nat)
    requires forall i: nat :: InWindow(i) ==>
               && (Present(Pte(mem', d, i)) <==> Present(Pte(mem, c, i)))
               && (Present(Pte(mem, c, i)) ==>
                   Words(mem', FrameOf(Pte(mem', d, i))) == Words(mem, FrameOf(Pte(mem, c, i))))
    ensures Pages(mem', d) == Pages(mem, c)
  {
    var m := Pages(mem, c);
    var m' := Pages(mem', d);
    forall i: nat ensures i in m' <==> i in m {
      assert InWindow(i) <==> USER_PG_START <= i < USER_PG_END;
    }
    forall i: nat | i in m ensures m'[i] == m[i] {
      assert InWindow(i);
    }
  }

  // ------------------------------------------------------------------
  // One step of each kind
  // ------------------------------------------------------------------

  // Words of a mapped frame survive when only the given frames of nobody's pages change.
  lemma PagesUntouched(mem: seq<seq<nat>>, mem': seq<seq<nat>>, ft: FrameTable, spaces: set<nat>, c: nat)
    requires MemInv(mem, ft, spaces) && c in spaces && |mem'| == |mem|
    requires forall i: nat :: InWindow(i) ==> Downgraded(mem, mem', c, i)
    requires forall f: nat :: f < FRAME_COUNT && ft.refs[f] > 0 ==> mem'[f] == mem[f]
    ensures Pages(mem', c) == Pages(mem, c)
  {
    forall i: nat | InWindow(i)
      ensures Present(Pte(mem', c, i)) <==> Present(Pte(mem, c, i))
      ensures Present(Pte(mem, c, i)) ==> Words(mem', FrameOf(Pte(mem', c, i))) == Words(mem, FrameOf(Pte(mem, c, i)))
    {
      assert Downgraded(mem, mem', c, i);
      if Present(Pte(mem, c, i)) { MappedFrame(mem, ft, spaces, c, i); }
    }
    SamePages(mem, mem', c, c);
  }

  lemma AbsAdded(st: State, st': State, id: nat, pages: PageMap)
    requires st'.spaces == st.spaces + {id} && id !in st.spaces && st'.vm.cr3 == st.vm.cr3
    requires forall c :: c in st.spaces ==> Pages(st'.vm.mem, c) == Pages(st.vm.mem, c)
    requires Pages(st'.vm.mem, id) == pages
    ensures Abs(st') == Abs(st).(spaces := Abs(st).spaces[id := pages])
  {
    assert Abs(st').spaces == Abs(st).spaces[id := pages];
  }

  lemma CreatePages(vm: Vm, spaces: set<nat>, c: nat)
    requires Inv(vm, spaces) && c in spaces
    requires Create(vm).Done? && Create(vm).ret != 0
    ensures Pages(Create(vm).vm.mem, c) == Pages(vm.mem, c)
  {
    CreateAdds(vm, spaces);
    PagesUntouched(vm.mem, Create(vm).vm.mem, vm.ft, spaces, c);
  }

  lemma CreateEmpty(vm: Vm, spaces: set<nat>)
    requires Inv(vm, spaces)
    requires Create(vm).Done? && Create(vm).ret != 0
    ensures Pages(Create(vm).vm.mem, Create(vm).ret) == map[]
  {
    CreateAdds(vm, spaces);
    var r := Create(vm);
    forall i: nat | InWindow(i) ensures !Present(Pte(r.vm.mem, r.ret, i)) {
      assert Pte(r.vm.mem, r.ret, i) == 0;
    }
  }

  lemma CreateRefines(st: State)
    requires StateInv(st) && Step(st, CreateSpace).Next?
    ensures var r := Step(st, CreateSpace);
            StateInv(r.st) && EagerStep(Abs(st), CreateSpace, FreeOf(st), r.out, Abs(r.st))
  {
    var r := Step(st, CreateSpace);
    TwoFrames(st.vm.ft);
    CreateKeepsInv(st.vm, st.spaces);
    if r.out.n != 0 {
      forall c | c in st.spaces ensures Pages(r.st.vm.mem, c) == Pages(st.vm.mem, c) {
        CreatePages(st.vm, st.spaces, c);
      }
      CreateEmpty(st.vm, st.spaces);
      AbsAdded(st, r.st, r.out.n, map[]);
    }
  }

  // A fork changes the words of no mapped frame.
  lemma ForkKeepsWords(vm: Vm, spaces: set<nat>, parent: nat)
    requires Inv(vm, spaces) && parent in spaces
    requires FrameOf(vm.mem[parent][0]) < FRAME_COUNT
    requires Fork(vm, parent).Done? && Fork(vm, parent).ret != 0
    ensures forall f: nat :: f < FRAME_COUNT && vm.ft.refs[f] > 0 ==> Fork(vm, parent).vm.mem[f] == vm.mem[f]
  {
    ForkMemory(vm, spaces, parent);
    assert IsTable(vm.mem, spaces, PtOf(vm.mem, parent));
  }

  lemma ForkPages(vm: Vm, spaces: set<nat>, parent: nat, c: nat)
    requires Inv(vm, spaces) && parent in spaces && c in spaces
    requires FrameOf(vm.mem[parent][0]) < FRAME_COUNT
    requires Fork(vm, parent).Done? && Fork(vm, parent).ret != 0
    ensures var r := Fork(vm, parent);
            Pages(r.vm.mem, c) == Pages(vm.mem, c) && Pages(r.vm.mem, r.ret) == Pages(vm.mem, parent)
  {
    var r := Fork(vm, parent);
    ForkKeepsWords(vm, spaces, parent);
    ForkAdds(vm, spaces, parent);
    PagesUntouched(vm.mem, r.vm.mem, vm.ft, spaces, c);
    PagesUntouched(vm.mem, r.vm.mem, vm.ft, spaces, parent);
    ForkTables(vm, spaces, parent);
    SamePages(r.vm.mem, r.vm.mem, parent, r.ret);
  }

  lemma ForkAbs(st: State, parent: nat)
    requires StateInv(st) && parent in st.spaces
    requires FrameOf(st.vm.mem[parent][0]) < FRAME_COUNT
    requires Fork(st.vm, parent).Done? && Fork(st.vm, parent).ret != 0
    ensures var r := Fork(st.vm, parent);
            && r.ret !in st.spaces
            && Abs(State(r.vm, st.spaces + {r.ret})) ==
               Abs(st).(spaces := Abs(st).spaces[r.ret := Abs(st).spaces[parent]])
  {
    var r := Fork(st.vm, parent);
    ForkKeepsInv(st.vm, st.spaces, parent);
    forall c | c in st.spaces ensures Pages(r.vm.mem, c) == Pages(st.vm.mem, c) {
      ForkPages(st.vm, st.spaces, parent, c);
    }
    ForkPages(st.vm, st.spaces, parent, parent);
    AbsAdded(st, State(r.vm, st.spaces + {r.ret}), r.ret, Pages(st.vm.mem, parent));
  }

  lemma ForkRefines(st: State, parent: nat)
    requires StateInv(st) && parent in st.spaces && Step(st, ForkSpace(parent)).Next?
    ensures var r := Step(st, ForkSpace(parent));
            StateInv(r.st) && EagerStep(Abs(st), ForkSpace(parent), FreeOf(st), r.out, Abs(r.st))
  {
    TwoFrames(st.vm.ft);
    assert SpaceOk(st.vm.mem, parent);
    DirectoryOk(st.vm, st.spaces, parent);
    ForkKeepsInv(st.vm, st.spaces, parent);
    if Fork(st.vm, parent).ret != 0 {
      ForkAbs(st, parent);
    }
  }

  lemma DestroyRefines(st: State, c: nat)
    requires StateInv(st) && c in st.spaces && c != st.vm.cr3
    ensures Enabled(st, DestroySpace(c)) && Step(st, DestroySpace(c)).Next?
    ensures var r := Step(st, DestroySpace(c));
            StateInv(r.st) && EagerStep(Abs(st), DestroySpace(c), FreeOf(st), r.out, Abs(r.st))
  {
    DestroyKeepsInv(st.vm, st.spaces, c);
    DestroyEffect(st.vm, st.spaces, c);
    var r := Step(st, DestroySpace(c));
    assert Abs(r.st).spaces == Abs(st).spaces - {c};
  }

  lemma LoadCr3Refines(st: State, c: nat)
    requires StateInv(st) && (c in st.spaces || c == KERNEL_PD)
    ensures var r := Step(st, LoadCr3(c));
            r.Next? && StateInv(r.st) && EagerStep(Abs(st), LoadCr3(c), FreeOf(st), r.out, Abs(r.st))
  {
    DirectoryOk(st.vm, st.spaces, c);
  }

  // ------------------------------------------------------------------
  // Mapping
  // ------------------------------------------------------------------

  // A replaced page leaves every other page of every space with its words.
  lemma ReplacedPages(mem: seq<seq<nat>>, mem': seq<seq<nat>>, ft: FrameTable, ft': FrameTable, spaces: set<nat>,
                      c: nat, i: nat, nf: nat, d: nat)
    requires MemInv(mem, ft, spaces) && PageReplaced(mem, mem', ft, ft', spaces, c, i, nf) && d in spaces
    ensures d != c ==> Pages(mem', d) == Pages(mem, d)
    ensures d == c ==> Pages(mem', d) == Pages(mem, d)[i := mem'[nf]]
  {
    ReplacedSpace(mem, mem', ft, ft', spaces, c, i, nf, d);
    assert SpaceOk(mem, c) && IsTable(mem, spaces, PtOf(mem, c));
    assert Present(UserWord(nf)) && FrameOf(UserWord(nf)) == nf;
    forall j: nat | InWindow(j) && !(d == c && j == i) && Present(Pte(mem, d, j))
      ensures Pte(mem', d, j) == Pte(mem, d, j)
      ensures Words(mem', FrameOf(Pte(mem, d, j))) == Words(mem, FrameOf(Pte(mem, d, j)))
    {
      MappedFrame(mem, ft, spaces, d, j);
    }
    if d != c {
      SamePages(mem, mem', d, d);
    } else {
      ReplacedOwnPages(mem, mem', c, i, nf);
    }
  }

  lemma ReplacedOwnPages(mem: seq<seq<nat>>, mem': seq<seq<nat>>, c: nat, i: nat, nf: nat)
    requires InWindow(i) && nf < |mem'| && Pte(mem', c, i) == UserWord(nf)
    requires forall j: nat :: j != i ==> Pte(mem', c, j) == Pte(mem, c, j)
    requires forall j: nat :: InWindow(j) && j != i && Present(Pte(mem, c, j)) ==>
               Words(mem', FrameOf(Pte(mem, c, j))) == Words(mem, FrameOf(Pte(mem, c, j)))
    ensures Pages(mem', c) == Pages(mem, c)[i := mem'[nf]]
  {
    assert Present(UserWord(nf)) && FrameOf(UserWord(nf)) == nf;
    var m := Pages(mem, c);
    var m' := Pages(mem', c);
    forall j: nat ensures j in m' <==> j in m || j == i {
      assert InWindow(j) <==> USER_PG_START <= j < USER_PG_END;
    }
    forall j: nat | j in m' ensures m'[j] == if j == i then mem'[nf] else m[j] {
      assert InWindow(j);
    }
  }

  // Spaces other than c are untouched; c gains pages, and its old ones keep their words.
  ghost predicate Mapped(vm: Vm, vm': Vm, spaces: set<nat>, c: nat) {
    && (forall d :: d in spaces && d != c ==> Pages(vm'.mem, d) == Pages(vm.mem, d))
    && (forall j :: j in Pages(vm.mem, c) ==> j in Pages(vm'.mem, c) && Pages(vm'.mem, c)[j] == Pages(vm.mem, c)[j])
    && vm'.cr3 == vm.cr3
  }

  // Pages i..end are mapped in order, each for one frame, until no frame is free.
  ghost predicate Counted(m: PageMap, m': PageMap, i: nat, end: nat, free: nat, free': nat, ok: bool) {
    && free' + |m'| == free + |m|
    && m.Keys <= m'.Keys
    && (forall j :: j in m' && j !in m ==> i <= j <= end && InWindow(j))
    && (ok <==> forall j :: i <= j <= end && InWindow(j) ==> j in m')
    && (!ok ==> free' == 0)
    && (forall j, k :: j in m' && j !in m && i <= k < j && InWindow(k) ==> k in m')
  }

  lemma CountedStop(m: PageMap, m': PageMap, i: nat, end: nat, free: nat, free': nat)
    requires i <= end && Counted(m, m', i, i, free, free', false)
    ensures Counted(m, m', i, end, free, free', false)
  {
    assert i !in m';
  }

  lemma CountedOn(m: PageMap, m1: PageMap, m2: PageMap, i: nat, end: nat, free: nat, free1: nat, free2: nat, ok: bool)
    requires i <= end && Counted(m, m1, i, i, free, free1, true) && Counted(m1, m2, i + 1, end, free1, free2, ok)
    ensures Counted(m, m2, i, end, free, free2, ok)
  {
    assert InWindow(i) ==> i in m1;
  }

  ghost predicate MappedCounted(vm: Vm, vm': Vm, spaces: set<nat>, c: nat, i: nat, end: nat, ok: bool) {
    && Mapped(vm, vm', spaces, c)
    && Counted(Pages(vm.mem, c), Pages(vm'.mem, c), i, end, FreeFrames(vm.ft), FreeFrames(vm'.ft), ok)
  }

  lemma MapPageRefines(vm: Vm, spaces: set<nat>, c: nat, i: nat)
    requires Inv(vm, spaces) && c in spaces && i < PAGE_WORDS && PtOf(vm.mem, c) < FRAME_COUNT
    ensures var (vm', ok) := MapPage(vm, PtOf(vm.mem, c), i); MappedCounted(vm, vm', spaces, c, i, i, ok)
  {
    var (vm', ok) := MapPage(vm, PtOf(vm.mem, c), i);
    MapPageEffect(vm, spaces, c, i);
    AllocCounts(vm.ft);
    if vm' != vm {
      MapNewPage(vm, spaces, c, i);
    } else if ok {
      assert InWindow(i) ==> i in Pages(vm.mem, c);
    } else {
      assert i !in Pages(vm.mem, c);
    }
  }

  lemma MapNewPage(vm: Vm, spaces: set<nat>, c: nat, i: nat)
    requires Inv(vm, spaces) && c in spaces && i < PAGE_WORDS && PtOf(vm.mem, c) < FRAME_COUNT
    requires !Present(Pte(vm.mem, c, i)) && MapPage(vm, PtOf(vm.mem, c), i).1
    ensures var vm' := MapPage(vm, PtOf(vm.mem, c), i).0; MappedCounted(vm, vm', spaces, c, i, i, true)
  {
    var vm' := MapPage(vm, PtOf(vm.mem, c), i).0;
    MapPageEffect(vm, spaces, c, i);
    AllocCounts(vm.ft);
    var nf := Alloc(vm.ft).1;
    forall d | d in spaces
      ensures d != c ==> Pages(vm'.mem, d) == Pages(vm.mem, d)
      ensures d == c ==> Pages(vm'.mem, d) == Pages(vm.mem, d)[i := vm'.mem[nf]]
    {
      ReplacedPages(vm.mem, vm'.mem, vm.ft, vm'.ft, spaces, c, i, nf, d);
    }
    assert i !in Pages(vm.mem, c);
  }

  lemma {:induction false} MapPagesRefine(vm: Vm, spaces: set<nat>, c: nat, i: nat, end: nat)
    requires Inv(vm, spaces) && c in spaces && end < PAGE_WORDS && PtOf(vm.mem, c) < FRAME_COUNT
    ensures var (vm', ok) := MapPages(vm, PtOf(vm.mem, c), i, end); MappedCounted(vm, vm', spaces, c, i, end, ok)
    decreases end + 1 - i
  {
    if i <= end {
      MapPageRefines(vm, spaces, c, i);
      MapPageKeepsInv(vm, spaces, c, i);
      var (vm1, ok) := MapPage(vm, PtOf(vm.mem, c), i);
      var m, m1 := Pages(vm.mem, c), Pages(vm1.mem, c);
      if ok {
        MapPagesRefine(vm1, spaces, c, i + 1, end);
        var (vm2, ok2) := MapPages(vm1, PtOf(vm1.mem, c), i + 1, end);
        CountedOn(m, m1, Pages(vm2.mem, c), i, end, FreeFrames(vm.ft), FreeFrames(vm1.ft), FreeFrames(vm2.ft), ok2);
      } else {
        CountedStop(m, m1, i, end, FreeFrames(vm.ft), FreeFrames(vm1.ft));
      }
    }
  }

  // What the counts say of the pages lo..hi that m lacks.
  lemma CountedMissing(m: PageMap, m': PageMap, lo: nat, hi: nat, missing: set<nat>, free: nat, free': nat, ok: bool)
    requires Counted(m, m', lo, hi, free, free', ok)
    requires forall j: nat :: j in missing <==> lo <= j <= hi && InWindow(j) && j !in m
    ensures ok <==> |missing| <= free
    ensures ok ==> m'.Keys == m.Keys + missing
    ensures !ok ==> m'.Keys <= m.Keys + missing && |m'| == |m| + free
    ensures forall i, j :: i in m' && i !in m && j < i && j in missing ==> j in m'
  {
    var added := AddedKeys(m, m');
    assert added <= missing;
    if ok {
      assert added == missing;
    } else {
      var j: nat :| lo <= j <= hi && InWindow(j) && j !in m';
      OneLess(added, missing, j);
    }
  }

  lemma AddedKeys(m: PageMap, m': PageMap) returns (added: set<nat>)
    requires m.Keys <= m'.Keys
    ensures added == m'.Keys - m.Keys && m'.Keys == m.Keys + added && |m'| == |m| + |added|
  {
    added := m'.Keys - m.Keys;
    assert m'.Keys == m.Keys + added;
    assert |m'.Keys| == |m.Keys| + |added|;
  }

  lemma OneLess(a: set<nat>, b: set<nat>, j: nat)
    requires a <= b && j in b && j !in a
    ensures |a| < |b|
  {
    SubsetSize(a, b - {j});
  }

  // A region below 4 MB.
  lemma CountedRegion(m: PageMap, m': PageMap, vaddr: nat, nbytes: nat, free: nat, free': nat, ok: bool)
    requires nbytes > 0 && vaddr < 0x40_0000 && (forall i :: i in m ==> i in m' && m'[i] == m[i])
    requires Counted(m, m', RegionStart(vaddr), RegionEnd(vaddr, nbytes), free, free', ok)
    ensures PagesMapped(m, m', vaddr, nbytes, free, ok)
  {
    var lo, hi, missing := RegionStart(vaddr), RegionEnd(vaddr, nbytes), Missing(m, vaddr, nbytes);
    MissingIs(m, vaddr, nbytes, lo, hi, missing);
    CountedMissing(m, m', lo, hi, missing, free, free', ok);
  }

  lemma MissingIs(m: PageMap, vaddr: nat, nbytes: nat, lo: nat, hi: nat, missing: set<nat>)
    requires nbytes > 0 && lo == RegionStart(vaddr) && hi == RegionEnd(vaddr, nbytes)
    requires missing == Missing(m, vaddr, nbytes)
    ensures forall j: nat :: j in missing <==> lo <= j <= hi && InWindow(j) && j !in m
  {
  }

  lemma MapRegionMaps(vm: Vm, spaces: set<nat>, c: nat, vaddr: nat, nbytes: nat)
    requires Inv(vm, spaces) && c in spaces && vaddr < 0x1_0000_0000
    requires c < FRAME_COUNT && DirectoryInRange(vm, c)
    ensures var (vm', ok) := MapRegion(vm, c, vaddr, nbytes);
            && Mapped(vm, vm', spaces, c)
            && PagesMapped(Pages(vm.mem, c), Pages(vm'.mem, c), vaddr, nbytes, FreeFrames(vm.ft), ok)
            && FreeFrames(vm'.ft) + |Pages(vm'.mem, c)| == FreeFrames(vm.ft) + |Pages(vm.mem, c)|
  {
    RegionIs(vm, spaces, c, vaddr, nbytes);
    var (vm', ok) := MapRegion(vm, c, vaddr, nbytes);
    var m, m' := Pages(vm.mem, c), Pages(vm'.mem, c);
    if nbytes > 0 && vaddr < 0x40_0000 {
      MapPagesRefine(vm, spaces, c, RegionStart(vaddr), RegionEnd(vaddr, nbytes));
      CountedRegion(m, m', vaddr, nbytes, FreeFrames(vm.ft), FreeFrames(vm'.ft), ok);
    } else if nbytes == 0 {
      assert Missing(m, vaddr, nbytes) == {};
    }
  }

  lemma MapRefines(st: State, c: nat, vaddr: nat, nbytes: nat)
    requires StateInv(st) && Enabled(st, MapUser(c, vaddr, nbytes))
    ensures var r := Step(st, MapUser(c, vaddr, nbytes));
            r.Next? && StateInv(r.st) && EagerStep(Abs(st), MapUser(c, vaddr, nbytes), FreeOf(st), r.out, Abs(r.st))
  {
    DirectoryOk(st.vm, st.spaces, c);
    MapRegionKeepsInv(st.vm, st.spaces, c, vaddr, nbytes);
    MapRegionMaps(st.vm, st.spaces, c, vaddr, nbytes);
    var (vm', ok) := MapRegion(st.vm, c, vaddr, nbytes);
    OnlySpace(st, st.(vm := vm'), c);
  }

  lemma OnlySpace(st: State, st': State, c: nat)
    requires c in st.spaces && st'.spaces == st.spaces && Mapped(st.vm, st'.vm, st.spaces, c)
    ensures Abs(st') == Abs(st).(spaces := Abs(st).spaces[c := Abs(st').spaces[c]])
  {
    assert Abs(st').spaces == Abs(st).spaces[c := Abs(st').spaces[c]];
  }
}
