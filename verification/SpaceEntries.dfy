// Page-table entries: which operations leave a space's entries alone, which keep a space
// fully writable, and that entries determine the frame table.

module SpaceEntries {
  import opened Frames
  import opened Paging
  import opened AddressSpaces
  import opened SpaceOps
  import opened PageOps

  // The entries of these spaces are the same in both memories.
  ghost predicate SameEntries(mem: seq<seq<nat>>, mem': seq<seq<nat>>, spaces: set<nat>) {
    forall c :: c in spaces ==> EntriesKept(mem, mem', c)
  }

  ghost predicate EntriesKept(mem: seq<seq<nat>>, mem': seq<seq<nat>>, c: nat) {
    PtOf(mem', c) == PtOf(mem, c) && forall i: nat :: Pte(mem', c, i) == Pte(mem, c, i)
  }

  // Every mapped page of space c is writable.
  ghost predicate AllWritable(mem: seq<seq<nat>>, c: nat) {
    forall i: nat :: InWindow(i) && Present(Pte(mem, c, i)) ==> Writable(Pte(mem, c, i))
  }

  // These spaces have the same page tables and name the same frames in both memories.
  ghost predicate SameNames(mem: seq<seq<nat>>, mem': seq<seq<nat>>, spaces: set<nat>) {
    && (forall c :: c in spaces ==> PtOf(mem', c) == PtOf(mem, c))
    && (forall c, f: nat :: c in spaces ==> (Names(mem', c, f) <==> Names(mem, c, f)))
  }

  // Two states that name the same frames have the same frame table: nothing is lost and
  // nothing is held that the entries do not name.
  lemma NamesDetermineFrames(mem: seq<seq<nat>>, ft: FrameTable, mem': seq<seq<nat>>, ft': FrameTable, spaces: set<nat>)
    requires MemInv(mem, ft, spaces) && MemInv(mem', ft', spaces) && SameNames(mem, mem', spaces)
    ensures ft' == ft
  {
    forall f: nat | f < FRAME_COUNT ensures ft'.refs[f] == ft.refs[f] && ft'.used[f] == ft.used[f] {
      assert Sharers(mem', spaces, f) == Sharers(mem, spaces, f);
      SameTables(mem, mem', spaces, f);
    }
    assert ft'.used == ft.used && ft'.refs == ft.refs;
  }

  // So have two states with the same entries.
  lemma EntriesDetermineFrames(mem: seq<seq<nat>>, ft: FrameTable, mem': seq<seq<nat>>, ft': FrameTable,
                               spaces: set<nat>)
    requires MemInv(mem, ft, spaces) && MemInv(mem', ft', spaces) && SameEntries(mem, mem', spaces)
    ensures ft' == ft
  {
    forall c | c in spaces ensures PtOf(mem', c) == PtOf(mem, c) { assert EntriesKept(mem, mem', c); }
    forall c, f: nat | c in spaces ensures Names(mem', c, f) <==> Names(mem, c, f) {
      assert EntriesKept(mem, mem', c);
      NamesKept(mem, mem', c, f);
    }
    NamesDetermineFrames(mem, ft, mem', ft', spaces);
  }

  lemma NamesKept(mem: seq<seq<nat>>, mem': seq<seq<nat>>, c: nat, f: nat)
    requires EntriesKept(mem, mem', c)
    ensures Names(mem', c, f) <==> Names(mem, c, f)
  {
    if Names(mem, c, f) {
      var i: nat :| NamesAt(mem, c, i, f);
      assert NamesAt(mem', c, i, f);
    }
    if Names(mem', c, f) {
      var i: nat :| NamesAt(mem', c, i, f);
      assert NamesAt(mem, c, i, f);
    }
  }

  // A new space starts with no page; the entries of the others are not touched.
  lemma CreateEntries(vm: Vm, spaces: set<nat>)
    requires Inv(vm, spaces) && Create(vm).Done? && Create(vm).ret != 0
    ensures SameEntries(vm.mem, Create(vm).vm.mem, spaces) && AllWritable(Create(vm).vm.mem, Create(vm).ret)
  {
    CreateAdds(vm, spaces);
    var mem', pd := Create(vm).vm.mem, Create(vm).ret;
    forall c | c in spaces ensures EntriesKept(vm.mem, mem', c) {
      var pt := PtOf(vm.mem, c);
      assert SpaceOk(vm.mem, c) && IsTable(vm.mem, spaces, pt) && vm.ft.used[pt];
    }
  }

  lemma MapPageEntries(vm: Vm, spaces: set<nat>, c: nat, i: nat)
    requires Inv(vm, spaces) && c in spaces && i < PAGE_WORDS && PtOf(vm.mem, c) < FRAME_COUNT
    ensures var mem' := MapPage(vm, PtOf(vm.mem, c), i).0.mem;
            SameEntries(vm.mem, mem', spaces - {c}) && (AllWritable(vm.mem, c) ==> AllWritable(mem', c))
  {
    MapPageEffect(vm, spaces, c, i);
    var vm' := MapPage(vm, PtOf(vm.mem, c), i).0;
    if vm' != vm { ReplacedEntries(vm.mem, vm'.mem, vm.ft, vm'.ft, spaces, c, i, Alloc(vm.ft).1); }
  }

  lemma ReplacedEntries(mem: seq<seq<nat>>, mem': seq<seq<nat>>, ft: FrameTable, ft': FrameTable, spaces: set<nat>,
                        c: nat, i: nat, nf: nat)
    requires MemInv(mem, ft, spaces) && PageReplaced(mem, mem', ft, ft', spaces, c, i, nf)
    ensures SameEntries(mem, mem', spaces - {c}) && (AllWritable(mem, c) ==> AllWritable(mem', c))
  {
    forall d | d in spaces - {c} ensures EntriesKept(mem, mem', d) {
      ReplacedSpace(mem, mem', ft, ft', spaces, c, i, nf, d);
    }
    ReplacedSpace(mem, mem', ft, ft', spaces, c, i, nf, c);
    EntryFlags(i, nf);
  }

  lemma {:induction false} MapPagesEntries(vm: Vm, spaces: set<nat>, c: nat, i: nat, end: nat)
    requires Inv(vm, spaces) && c in spaces && end < PAGE_WORDS && PtOf(vm.mem, c) < FRAME_COUNT
    ensures var mem' := MapPages(vm, PtOf(vm.mem, c), i, end).0.mem;
            SameEntries(vm.mem, mem', spaces - {c}) && (AllWritable(vm.mem, c) ==> AllWritable(mem', c))
    decreases end + 1 - i
  {
    if i <= end {
      MapPageEntries(vm, spaces, c, i);
      MapPageKeepsInv(vm, spaces, c, i);
      var (vm1, ok) := MapPage(vm, PtOf(vm.mem, c), i);
      if ok {
        MapPagesEntries(vm1, spaces, c, i + 1, end);
        EntriesThrough(vm.mem, vm1.mem, MapPages(vm1, PtOf(vm.mem, c), i + 1, end).0.mem, spaces - {c});
      }
    }
  }

  lemma EntriesThrough(mem: seq<seq<nat>>, mem1: seq<seq<nat>>, mem2: seq<seq<nat>>, spaces: set<nat>)
    requires SameEntries(mem, mem1, spaces) && SameEntries(mem1, mem2, spaces)
    ensures SameEntries(mem, mem2, spaces)
  {
    forall c | c in spaces
      ensures EntriesKept(mem, mem2, c)
    {
      assert EntriesKept(mem, mem1, c) && EntriesKept(mem1, mem2, c);
    }
  }

  // Mapping adds writable entries to space c and changes no other space's.
  lemma MapRegionEntries(vm: Vm, spaces: set<nat>, c: nat, vaddr: nat, nbytes: nat)
    requires Inv(vm, spaces) && c in spaces && c < FRAME_COUNT && DirectoryInRange(vm, c)
    ensures var mem' := MapRegion(vm, c, vaddr, nbytes).0.mem;
            SameEntries(vm.mem, mem', spaces - {c}) && (AllWritable(vm.mem, c) ==> AllWritable(mem', c))
  {
    RegionIs(vm, spaces, c, vaddr, nbytes);
    if MapRegion(vm, c, vaddr, nbytes).0 != vm {
      MapPagesEntries(vm, spaces, c, RegionStart(vaddr), RegionEnd(vaddr, nbytes));
    }
  }
}
