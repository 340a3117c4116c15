// The address spaces a scheduler works with: each call into kernel/paging.c keeps the
// invariant for the right set of spaces and leaves the pages of the others alone.

module TaskSpaces {
  import opened Paging
  import opened Frames
  import opened AddressSpaces
  import opened PageOps
  import opened CowRuns
  import opened CowRefinement
  import opened SpaceEntries
  import opened SpaceCalls

  // vm satisfies the invariant with exactly these spaces. The definition sits behind the
  // trigger Peek, so that only the lemmas below, which mention Peek, unfold it.
  ghost predicate VmOk(vm: Vm, spaces: set<nat>) {
    forall n: nat {:trigger Peek(n)} :: Peek(n) ==> Inv(vm, spaces)
  }

  ghost predicate Peek(n: nat) { true }

  // The pages a space maps, words included.
  ghost function PagesOf(vm: Vm, c: nat): PageMap { Pages(vm.mem, c) }

  // Pages of these spaces read the same.
  ghost predicate SamePagesOf(vm: Vm, vm': Vm, spaces: set<nat>) {
    forall c :: c in spaces ==> PagesOf(vm', c) == PagesOf(vm, c)
  }

  lemma SpaceNumbers(vm: Vm, spaces: set<nat>, c: nat)
    requires VmOk(vm, spaces) && c in spaces
    ensures c != 0 && c != KERNEL_PD
  {
    assert Peek(0);
  }

  lemma AbsSpaces(vm: Vm, spaces: set<nat>)
    requires Inv(vm, spaces)
    ensures Abs(State(vm, spaces)).spaces.Keys == spaces
    ensures forall c :: c in spaces ==> Abs(State(vm, spaces)).spaces[c] == PagesOf(vm, c)
  {
  }

  lemma LoadSpace(vm: Vm, spaces: set<nat>, c: nat)
    requires VmOk(vm, spaces) && (c in spaces || c == KERNEL_PD)
    ensures var vm' := LoadOf(vm, c); VmOk(vm', spaces) && vm'.cr3 == c && vm'.ft == vm.ft && vm'.mem == vm.mem
  {
    assert Peek(0);
    var st := State(vm, spaces);
    DirectoryOk(vm, spaces, c);
    StepRefines(st, LoadCr3(c));
  }

  lemma DestroySpaceOk(vm: Vm, spaces: set<nat>, c: nat)
    requires VmOk(vm, spaces) && c in spaces && c != vm.cr3
    ensures var vm' := DestroyOf(vm, c);
            VmOk(vm', spaces - {c}) && vm'.cr3 == vm.cr3 && vm'.mem == vm.mem
  {
    assert Peek(0);
    var st := State(vm, spaces);
    DirectoryOk(vm, spaces, c);
    StepRefines(st, DestroySpace(c));
  }

  lemma ForkSpaceOk(vm: Vm, spaces: set<nat>, c: nat)
    requires VmOk(vm, spaces) && c in spaces && ForkOf(vm, c).Done?
    ensures var r := ForkOf(vm, c);
            && r.vm.cr3 == vm.cr3
            && (r.ret == 0 ==> r.vm == vm)
            && (r.ret != 0 ==> r.ret !in spaces && VmOk(r.vm, spaces + {r.ret})
                               && SamePagesOf(vm, r.vm, spaces) && PagesOf(r.vm, r.ret) == PagesOf(vm, c))
  {
    assert Peek(0);
    var st := State(vm, spaces);
    DirectoryOk(vm, spaces, c);
    StepRefines(st, ForkSpace(c));
    SpaceOps.ForkKeepsInv(vm, spaces, c);
    var r := ForkOf(vm, c);
    if r.ret != 0 {
      AbsSpaces(vm, spaces);
      AbsSpaces(r.vm, spaces + {r.ret});
    }
  }

  lemma CreateSpaceOk(vm: Vm, spaces: set<nat>)
    requires VmOk(vm, spaces) && CreateOf(vm).Done?
    ensures var r := CreateOf(vm);
            && r.vm.cr3 == vm.cr3
            && (r.ret == 0 ==> r.vm == vm)
            && (r.ret != 0 ==> r.ret !in spaces && VmOk(r.vm, spaces + {r.ret})
                               && Untouched(vm, r.vm, spaces) && AllWritable(r.vm.mem, r.ret))
  {
    assert Peek(0);
    var st := State(vm, spaces);
    StepRefines(st, CreateSpace);
    SpaceOps.CreateKeepsInv(vm, spaces);
    var r := CreateOf(vm);
    if r.ret != 0 {
      CreateEntries(vm, spaces);
      AbsSpaces(vm, spaces);
      AbsSpaces(r.vm, spaces + {r.ret});
    }
  }

  // A new space has no page, and took two frames.
  lemma CreateSpaceEmpty(vm: Vm, spaces: set<nat>)
    requires VmOk(vm, spaces) && CreateOf(vm).Done? && CreateOf(vm).ret != 0
    ensures var r := CreateOf(vm);
            PagesOf(r.vm, r.ret) == map[] && FreeFrames(r.vm.ft) + 2 == FreeFrames(vm.ft)
  {
    assert Peek(0);
    CreateEmpty(vm, spaces);
    TwoFrames(vm.ft);
  }

  lemma MapSpaceOk(vm: Vm, spaces: set<nat>, c: nat, vaddr: nat, nbytes: nat)
    requires VmOk(vm, spaces) && c in spaces && vaddr < 0x1_0000_0000 && nbytes < 0x1_0000_0000
    ensures var (vm', ok) := MapOf(vm, c, vaddr, nbytes);
            && VmOk(vm', spaces) && vm'.cr3 == vm.cr3 && Untouched(vm, vm', spaces - {c})
            && (AllWritable(vm.mem, c) ==> AllWritable(vm'.mem, c))
            && PagesMapped(PagesOf(vm, c), PagesOf(vm', c), vaddr, nbytes, FreeFrames(vm.ft), ok)
            && FreeFrames(vm'.ft) + |PagesOf(vm', c)| == FreeFrames(vm.ft) + |PagesOf(vm, c)|
  {
    assert Peek(0);
    var st := State(vm, spaces);
    DirectoryOk(vm, spaces, c);
    StepRefines(st, MapUser(c, vaddr, nbytes));
    MapRegionEntries(vm, spaces, c, vaddr, nbytes);
    MapRegionMaps(vm, spaces, c, vaddr, nbytes);
    var (vm', ok) := MapOf(vm, c, vaddr, nbytes);
    AbsSpaces(vm, spaces);
    AbsSpaces(vm', spaces);
    MappedElsewhere(Abs(st), Abs(st.(vm := vm')), c);
    assert vm'.cr3 == vm.cr3;
  }

  lemma MappedElsewhere(e: Eager, e': Eager, c: nat)
    requires c in e.spaces && c in e'.spaces && e' == e.(spaces := e.spaces[c := e'.spaces[c]])
    ensures forall d :: d in e.spaces && d != c ==> d in e'.spaces && e'.spaces[d] == e.spaces[d]
  {
  }

  // Pages and page-table entries of these spaces are as they were.
  ghost predicate Untouched(vm: Vm, vm': Vm, spaces: set<nat>) {
    SamePagesOf(vm, vm', spaces) && SameEntries(vm.mem, vm'.mem, spaces)
  }

  lemma UntouchedThrough(vm: Vm, vm1: Vm, vm2: Vm, spaces: set<nat>)
    requires Untouched(vm, vm1, spaces) && Untouched(vm1, vm2, spaces)
    ensures Untouched(vm, vm2, spaces)
  {
    EntriesThrough(vm.mem, vm1.mem, vm2.mem, spaces);
  }

  // With the same spaces and the same entries, the same frames are in use.
  lemma SameFrames(vm: Vm, vm': Vm, spaces: set<nat>)
    requires VmOk(vm, spaces) && VmOk(vm', spaces) && Untouched(vm, vm', spaces)
    ensures vm'.ft == vm.ft
  {
    assert Peek(0);
    EntriesDetermineFrames(vm.mem, vm.ft, vm'.mem, vm'.ft, spaces);
  }

  // A memory access of the process whose space is loaded.
  predicate IsAccess(ev: Event) { ev.UserLoad? || ev.UserStore? || ev.TlbChange? }

  ghost predicate AccessOk(vm: Vm, spaces: set<nat>, ev: Event) {
    VmOk(vm, spaces) && IsAccess(ev) && Inv(vm, spaces) && Enabled(State(vm, spaces), ev)
  }

  // What an access does to the pages of the process that makes it, and what it gets. With
  // a frame free, a store to a mapped page succeeds.
  ghost predicate Accessed(m: PageMap, ev: Event, room: bool, out: Output, m': PageMap) {
    match ev
    case UserLoad(vpn, off, _) => m' == m && out == if vpn in m && off < |m[vpn]| then Loaded(m[vpn][off]) else Fault
    case UserStore(vpn, off, val, _) =>
      || (out == Fault && m' == m && (vpn in m ==> !room))
      || (out == Ret(1) && vpn in m && off < |m[vpn]| && var page: seq<nat> := m[vpn][off := val]; m' == m[vpn := page])
    case _ => m' == m
  }

  // In the eager machine an access touches the loaded space only.
  lemma AccessedOf(e: Eager, ev: Event, free: nat, out: Output, e': Eager)
    requires IsAccess(ev) && EagerStep(e, ev, free, out, e') && e.cur in e.spaces
    ensures e'.cur == e.cur && e'.spaces.Keys == e.spaces.Keys
    ensures forall d :: d in e.spaces && d != e.cur ==> e'.spaces[d] == e.spaces[d]
    ensures Accessed(e.spaces[e.cur], ev, free > 0, out, e'.spaces[e.cur])
  {
  }

  lemma AccessKeeps(vm: Vm, spaces: set<nat>, ev: Event)
    requires AccessOk(vm, spaces, ev) && Step(State(vm, spaces), ev).Next? && vm.cr3 in spaces
    ensures var r := Step(State(vm, spaces), ev); var vm' := r.st.vm;
            && r.st.spaces == spaces && VmOk(vm', spaces) && vm'.cr3 == vm.cr3 &&
               SamePagesOf(vm, vm', spaces - {vm.cr3})
            && Accessed(PagesOf(vm, vm.cr3), ev, FreeFrames(vm.ft) > 0, r.out, PagesOf(vm', vm.cr3))
  {
    var st := State(vm, spaces);
    var r := Step(st, ev);
    StepRefines(st, ev);
    AccessStays(st, ev);
    AccessSeen(vm, spaces, ev, r.out, r.st.vm);
  }

  lemma AccessStays(st: State, ev: Event)
    requires StateInv(st) && Enabled(st, ev) && IsAccess(ev) && Step(st, ev).Next?
    ensures Step(st, ev).st.spaces == st.spaces
  {
  }

  // What the step means for the pages.
  lemma AccessSeen(vm: Vm, spaces: set<nat>, ev: Event, out: Output, vm': Vm)
    requires Inv(vm, spaces) && Inv(vm', spaces) && IsAccess(ev) && vm.cr3 in spaces
    requires EagerStep(Abs(State(vm, spaces)), ev, FreeFrames(vm.ft), out, Abs(State(vm', spaces)))
    ensures vm'.cr3 == vm.cr3 && SamePagesOf(vm, vm', spaces - {vm.cr3})
    ensures Accessed(PagesOf(vm, vm.cr3), ev, FreeFrames(vm.ft) > 0, out, PagesOf(vm', vm.cr3))
  {
    AbsSpaces(vm, spaces);
    AbsSpaces(vm', spaces);
    AccessedOf(Abs(State(vm, spaces)), ev, FreeFrames(vm.ft), out, Abs(State(vm', spaces)));
  }
}
