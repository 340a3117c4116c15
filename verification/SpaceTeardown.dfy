// Destroying an address space gives back its two tables and every user frame it
// was the last to use, and nothing else.

module SpaceTeardown {
  import opened Frames
  import opened Paging
  import opened AddressSpaces
  import opened SpaceOps

  // The teardown loop drops one reference per mapped frame and frees those that reach zero.
  lemma {:induction false} DecUpToEffect(ft: FrameTable, pt: seq<nat>, n: nat)
    requires Sized(ft) && |pt| == PAGE_WORDS && USER_PG_START <= n <= USER_PG_END && Injective(pt)
    requires forall i: nat, f: nat :: EntryNames(pt, i, f) && f < FRAME_COUNT ==> ft.refs[f] > 0 && ft.used[f]
    ensures forall f: nat :: f < FRAME_COUNT ==>
              && DecUpTo(ft, pt, n).refs[f] + (if NamedBelow(pt, n, f) then 1 else 0) == ft.refs[f]
              && DecUpTo(ft, pt, n).used[f] == (ft.used[f] && !(NamedBelow(pt, n, f) && ft.refs[f] == 1))
    decreases n
  {
    if n == USER_PG_START {
    } else {
      DecUpToEffect(ft, pt, n - 1);
      forall f: nat | f < FRAME_COUNT
        ensures NamedBelow(pt, n, f) <==> NamedBelow(pt, n - 1, f) || EntryNames(pt, n - 1, f)
        ensures !(NamedBelow(pt, n - 1, f) && EntryNames(pt, n - 1, f))
      {
        if EntryNames(pt, n - 1, f) { assert n - 1 < n; }
        if NamedBelow(pt, n - 1, f) {
          var i: nat :| i < n - 1 && EntryNames(pt, i, f);
          assert i < n;
        }
      }
    }
  }

  // Only the first directory entry names a table to tear down.
  lemma {:induction false} OneTable(mem: seq<seq<nat>>, ft: FrameTable, pd: seq<nat>, d: nat)
    requires Sized(ft) && |pd| == PAGE_WORDS && 1 <= d <= PAGE_WORDS && Framed(mem)
    requires forall k :: 0 <= k < PAGE_WORDS && Present(pd[k]) ==> FrameOf(pd[k]) < FRAME_COUNT
    requires Present(pd[0]) && FrameOf(pd[0]) != KERNEL_PT && FrameOf(pd[0]) != KERNEL_PD
    requires forall k :: 1 <= k < PAGE_WORDS ==> !Present(pd[k])
    ensures TearDownTables(mem, ft, pd, d) == Free(DecUpTo(ft, mem[FrameOf(pd[0])], USER_PG_END), FrameOf(pd[0]))
    decreases d
  {
    if d == 1 {
      assert TearDownTables(mem, ft, pd, 0) == ft;
    } else {
      OneTable(mem, ft, pd, d - 1);
    }
  }

  ghost predicate SpaceRemoved(mem: seq<seq<nat>>, ft: FrameTable, ft': FrameTable, c: nat)
    requires Sized(ft)
  {
    && Sized(ft')
    && (forall f :: 0 <= f < FRAME_COUNT ==> ft'.refs[f] + (if Names(mem, c, f) then 1 else 0) == ft.refs[f])
    && (forall f :: 0 <= f < FRAME_COUNT ==>
          ft'.used[f] == (ft.used[f] && f != c && f != PtOf(mem, c) && !(Names(mem, c, f) && ft.refs[f] == 1)))
  }

  lemma DestroyEffect(vm: Vm, spaces: set<nat>, c: nat)
    requires Inv(vm, spaces) && c in spaces && c < FRAME_COUNT && DirectoryInRange(vm, c)
    ensures SpaceRemoved(vm.mem, vm.ft, Destroy(vm, c).ft, c)
    ensures Destroy(vm, c) == vm.(ft := Destroy(vm, c).ft)
  {
    WalkIs(vm.mem, vm.ft, spaces, c, 0);
    assert SpaceOk(vm.mem, c);
    var pt := PtOf(vm.mem, c);
    SpaceInjective(vm.mem, vm.ft, spaces, c);
    forall i: nat, f: nat | EntryNames(vm.mem[pt], i, f) && f < FRAME_COUNT ensures vm.ft.refs[f] > 0 && vm.ft.used[f] {
      MappedFrame(vm.mem, vm.ft, spaces, c, i);
    }
    OneTable(vm.mem, vm.ft, vm.mem[c], PAGE_WORDS);
    DecUpToEffect(vm.ft, vm.mem[pt], USER_PG_END);
  }

  lemma RemovedCounts(mem: seq<seq<nat>>, ft: FrameTable, ft': FrameTable, spaces: set<nat>, c: nat)
    requires MemInv(mem, ft, spaces) && c in spaces && SpaceRemoved(mem, ft, ft', c)
    ensures ExactRefs(mem, ft', spaces - {c})
    ensures NoWritableSharing(mem, ft', spaces - {c})
  {
    forall f: nat | f < FRAME_COUNT ensures ft'.refs[f] == |Sharers(mem, spaces - {c}, f)| {
      assert ft.refs[f] == |Sharers(mem, spaces, f)|;
      SharersShrink(mem, spaces, c, f);
    }
    forall d, j: nat, f: nat | d in spaces - {c} && NamesAt(mem, d, j, f) && Writable(Pte(mem, d, j)) && f < FRAME_COUNT
      ensures ft'.refs[f] == 1
    {
      assert ft.refs[f] == 1 && d in Sharers(mem, spaces - {c}, f);
    }
  }

  lemma SharersShrink(mem: seq<seq<nat>>, spaces: set<nat>, c: nat, f: nat)
    requires c in spaces
    ensures |Sharers(mem, spaces, f)| == |Sharers(mem, spaces - {c}, f)| + if Names(mem, c, f) then 1 else 0
  {
    var rest := Sharers(mem, spaces - {c}, f);
    if Names(mem, c, f) {
      assert Sharers(mem, spaces, f) == rest + {c};
    } else {
      assert Sharers(mem, spaces, f) == rest;
    }
  }

  lemma RemovedUsed(mem: seq<seq<nat>>, ft: FrameTable, ft': FrameTable, spaces: set<nat>, c: nat)
    requires MemInv(mem, ft, spaces) && c in spaces && SpaceRemoved(mem, ft, ft', c)
    ensures TablesApart(mem, ft', spaces - {c})
    ensures UsedExact(mem, ft', spaces - {c})
  {
    assert SpaceOk(mem, c);
    assert IsTable(mem, spaces, c) && IsTable(mem, spaces, PtOf(mem, c));
    forall f: nat | f < FRAME_COUNT
      ensures IsTable(mem, spaces - {c}, f) <==> IsTable(mem, spaces, f) && f != c && f != PtOf(mem, c)
    {
      if IsTable(mem, spaces, f) && f != c && f != PtOf(mem, c) && f !in spaces {
        var d :| d in spaces && PtOf(mem, d) == f;
        assert d in spaces - {c};
      }
    }
    forall f: nat | f < FRAME_COUNT && Names(mem, c, f)
      ensures ft.refs[f] >= 1 && !IsTable(mem, spaces, f) && DYN_START <= f < DYN_END
    {
      var i: nat :| NamesAt(mem, c, i, f);
      MappedFrame(mem, ft, spaces, c, i);
    }
  }

  // Destroying a space that is not loaded keeps the invariant for the others.
  lemma DestroyKeepsInv(vm: Vm, spaces: set<nat>, c: nat)
    requires Inv(vm, spaces) && c in spaces && c != vm.cr3
    ensures c < FRAME_COUNT && DirectoryInRange(vm, c)
    ensures Inv(Destroy(vm, c), spaces - {c})
  {
    WalkIs(vm.mem, vm.ft, spaces, c, 0);
    DestroyEffect(vm, spaces, c);
    var ft' := Destroy(vm, c).ft;
    RemovedCounts(vm.mem, vm.ft, ft', spaces, c);
    RemovedUsed(vm.mem, vm.ft, ft', spaces, c);
    assert SameIndex(vm.mem, spaces - {c});
  }
}
