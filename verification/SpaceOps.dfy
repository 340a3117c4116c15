// Creating and forking address spaces keep the invariant, and what each adds.

module SpaceOps {
  import opened Frames
  import opened Paging
  import opened AddressSpaces

  // ------------------------------------------------------------------
  // Allocation from a valid state
  // ------------------------------------------------------------------

  // A frame handed out by the allocator is dynamic, unreferenced and nobody's table.
  lemma FreshFrame(mem: seq<seq<nat>>, ft: FrameTable, spaces: set<nat>)
    requires MemInv(mem, ft, spaces)
    ensures var (ft1, f) := Alloc(ft);
            && (f == 0 ==> ft1 == ft)
            && (f != 0 ==> && DYN_START <= f < DYN_END && ft1 == ft.(used := ft.used[f := true])
                           && !ft.used[f] && ft.refs[f] == 0 && !IsTable(mem, spaces, f)
                           && forall c, i: nat :: c in spaces ==> !NamesAt(mem, c, i, f))
  {
    AllocFirstFit(ft);
    var (ft1, f) := Alloc(ft);
    if f != 0 {
      assert DYN_START <= f < DYN_END;
      forall c, i: nat | c in spaces ensures !NamesAt(mem, c, i, f) {
        if NamesAt(mem, c, i, f) { MappedFrame(mem, ft, spaces, c, i); }
      }
    }
  }

  lemma FreshPair(mem: seq<seq<nat>>, ft: FrameTable, spaces: set<nat>)
    requires MemInv(mem, ft, spaces)
    ensures var (ft1, pd) := Alloc(ft); var (ft2, pt) := Alloc(ft1);
            && (pd == 0 || pt == 0 ==> GiveBack(ft2, pd, pt) == ft)
            && (pd != 0 && pt != 0 ==>
                && pd < pt && ft2 == ft.(used := ft.used[pd := true][pt := true])
                && DYN_START <= pt < DYN_END && !ft.used[pt] && ft.refs[pt] == 0 && !IsTable(mem, spaces, pt)
                && forall c, i: nat :: c in spaces ==> !NamesAt(mem, c, i, pt))
  {
    FreshFrame(mem, ft, spaces);
    var (ft1, pd) := Alloc(ft);
    AllocFirstFit(ft1);
    var (ft2, pt) := Alloc(ft1);
    if pd != 0 && pt == 0 {
      assert ft1.used[pd := false] == ft.used;
    } else if pd != 0 {
      forall c, i: nat | c in spaces ensures !NamesAt(mem, c, i, pt) {
        if NamesAt(mem, c, i, pt) { MappedFrame(mem, ft, spaces, c, i); }
      }
    }
  }

  // ------------------------------------------------------------------
  // Adding a space (create and fork)
  // ------------------------------------------------------------------

  // The mapping of page i in space c is the same frame in both memories, and no more writable in the second.
  ghost predicate Downgraded(mem: seq<seq<nat>>, mem': seq<seq<nat>>, c: nat, i: nat) {
    && (Present(Pte(mem', c, i)) <==> Present(Pte(mem, c, i)))
    && FrameOf(Pte(mem', c, i)) == FrameOf(Pte(mem, c, i))
    && (Writable(Pte(mem', c, i)) ==> Pte(mem', c, i) == Pte(mem, c, i))
  }

  // Space pd with page table pt joins `spaces`; older spaces keep their frames.
  ghost predicate SpaceAdded(mem: seq<seq<nat>>, mem': seq<seq<nat>>, ft: FrameTable, ft': FrameTable,
                             spaces: set<nat>, pd: nat, pt: nat)
    requires MemInv(mem, ft, spaces)
  {
    && Sized(ft')
    && DYN_START <= pd < USER_PG_START && DYN_START <= pt < USER_PG_START && pd != pt && !ft.used[pd] && !ft.used[pt]
    && PtOf(mem', pd) == pt
    && KernelTables(mem')
    && SpacesOk(mem', spaces + {pd})
    && (forall c :: c in spaces ==> PtOf(mem', c) == PtOf(mem, c))
    && (forall c, i: nat :: c in spaces && InWindow(i) ==> Downgraded(mem, mem', c, i))
    && ft'.used == ft.used[pd := true][pt := true]
    && (forall f: nat :: f < FRAME_COUNT ==> ft'.refs[f] == ft.refs[f] + if Names(mem', pd, f) then 1 else 0)
  }

  lemma AddedNames(mem: seq<seq<nat>>, mem': seq<seq<nat>>, ft: FrameTable, ft': FrameTable, spaces: set<nat>,
                   pd: nat, pt: nat, c: nat, f: nat)
    requires MemInv(mem, ft, spaces) && SpaceAdded(mem, mem', ft, ft', spaces, pd, pt) && c in spaces
    ensures forall i: nat :: NamesAt(mem', c, i, f) <==> NamesAt(mem, c, i, f)
    ensures Names(mem', c, f) <==> Names(mem, c, f)
  {
    forall i: nat ensures NamesAt(mem', c, i, f) <==> NamesAt(mem, c, i, f) {
      if InWindow(i) { assert Downgraded(mem, mem', c, i); }
    }
  }

  lemma SharersGrow(mem: seq<seq<nat>>, mem': seq<seq<nat>>, spaces: set<nat>, pd: nat, f: nat)
    requires pd !in spaces
    requires forall c :: c in spaces ==> (Names(mem', c, f) <==> Names(mem, c, f))
    ensures |Sharers(mem', spaces + {pd}, f)| == |Sharers(mem, spaces, f)| + if Names(mem', pd, f) then 1 else 0
  {
    assert Sharers(mem', spaces + {pd}, f) == Sharers(mem, spaces, f) + if Names(mem', pd, f) then {pd} else {};
    AddOne(Sharers(mem, spaces, f), pd);
  }

  lemma AddedExactRefs(mem: seq<seq<nat>>, mem': seq<seq<nat>>, ft: FrameTable, ft': FrameTable, spaces: set<nat>,
                       pd: nat, pt: nat)
    requires MemInv(mem, ft, spaces) && SpaceAdded(mem, mem', ft, ft', spaces, pd, pt)
    ensures ExactRefs(mem', ft', spaces + {pd})
  {
    assert pd !in spaces;
    forall f: nat | f < FRAME_COUNT ensures ft'.refs[f] == |Sharers(mem', spaces + {pd}, f)| {
      forall c | c in spaces ensures Names(mem', c, f) <==> Names(mem, c, f) {
        AddedNames(mem, mem', ft, ft', spaces, pd, pt, c, f);
      }
      SharersGrow(mem, mem', spaces, pd, f);
    }
  }

  lemma AddOne(s: set<nat>, x: nat)
    requires x !in s
    ensures |s + {x}| == |s| + 1
  {
  }

  lemma AddedIsTable(mem: seq<seq<nat>>, mem': seq<seq<nat>>, ft: FrameTable, ft': FrameTable, spaces: set<nat>,
                     pd: nat, pt: nat, f: nat)
    requires MemInv(mem, ft, spaces) && SpaceAdded(mem, mem', ft, ft', spaces, pd, pt) && f < FRAME_COUNT
    ensures IsTable(mem', spaces + {pd}, f) <==> IsTable(mem, spaces, f) || f == pd || f == pt
    ensures f == pd || f == pt ==> !IsTable(mem, spaces, f) && ft.refs[f] == 0
  {
    var all := spaces + {pd};
    if IsTable(mem, spaces, f) && f !in spaces {
      var c :| c in spaces && PtOf(mem, c) == f;
      assert c in all && PtOf(mem', c) == f;
    }
    if f == pt { assert pd in all && PtOf(mem', pd) == f; }
  }

  lemma AddedApart(mem: seq<seq<nat>>, mem': seq<seq<nat>>, ft: FrameTable, ft': FrameTable, spaces: set<nat>,
                   pd: nat, pt: nat)
    requires MemInv(mem, ft, spaces) && SpaceAdded(mem, mem', ft, ft', spaces, pd, pt)
    requires forall f: nat :: Names(mem', pd, f) ==> DYN_START <= f < DYN_END && ft.refs[f] > 0
    ensures TablesApart(mem', ft', spaces + {pd})
  {
    var all := spaces + {pd};
    AddedDistinct(mem, mem', ft, ft', spaces, pd, pt);
    forall f: nat | f < FRAME_COUNT && IsTable(mem', all, f) ensures ft'.refs[f] == 0 {
      AddedIsTable(mem, mem', ft, ft', spaces, pd, pt, f);
    }
  }

  lemma AddedDistinct(mem: seq<seq<nat>>, mem': seq<seq<nat>>, ft: FrameTable, ft': FrameTable, spaces: set<nat>,
                      pd: nat, pt: nat)
    requires MemInv(mem, ft, spaces) && SpaceAdded(mem, mem', ft, ft', spaces, pd, pt)
    ensures forall c :: c in spaces + {pd} ==> PtOf(mem', c) !in spaces + {pd}
    ensures forall c, d :: c in spaces + {pd} && d in spaces + {pd} && PtOf(mem', c) == PtOf(mem', d) ==> c == d
  {
    AddedIsTable(mem, mem', ft, ft', spaces, pd, pt, pd);
    AddedIsTable(mem, mem', ft, ft', spaces, pd, pt, pt);
    forall c | c in spaces
      ensures c != pd && c != pt && PtOf(mem', c) != pd && PtOf(mem', c) != pt && PtOf(mem', c) == PtOf(mem, c)
    {
      assert IsTable(mem, spaces, c) && IsTable(mem, spaces, PtOf(mem, c));
    }
  }

  lemma AddedUsed(mem: seq<seq<nat>>, mem': seq<seq<nat>>, ft: FrameTable, ft': FrameTable, spaces: set<nat>, pd: nat,
                  pt: nat)
    requires MemInv(mem, ft, spaces) && SpaceAdded(mem, mem', ft, ft', spaces, pd, pt)
    requires forall f: nat :: Names(mem', pd, f) ==> DYN_START <= f < DYN_END && ft.refs[f] > 0
    ensures UsedExact(mem', ft', spaces + {pd})
  {
    forall f: nat | f < FRAME_COUNT
      ensures IsTable(mem', spaces + {pd}, f) <==> IsTable(mem, spaces, f) || f == pd || f == pt
    {
      AddedIsTable(mem, mem', ft, ft', spaces, pd, pt, f);
    }
  }

  // The invariant survives when a space joins whose pages are all shared with, and at
  // the same index as, those of an older space.
  lemma AddedKeepsInv(mem: seq<seq<nat>>, mem': seq<seq<nat>>, ft: FrameTable, ft': FrameTable, spaces: set<nat>,
                      pd: nat, pt: nat)
    requires MemInv(mem, ft, spaces) && SpaceAdded(mem, mem', ft, ft', spaces, pd, pt)
    requires forall i: nat, f: nat :: NamesAt(mem', pd, i, f) ==>
               exists c :: c in spaces && NamesAt(mem, c, i, f) && !Writable(Pte(mem', pd, i)) &&
                   !Writable(Pte(mem', c, i))
    ensures MemInv(mem', ft', spaces + {pd})
  {
    forall f: nat | Names(mem', pd, f) ensures DYN_START <= f < DYN_END && ft.refs[f] > 0 {
      var i: nat :| NamesAt(mem', pd, i, f);
      var c :| c in spaces && NamesAt(mem, c, i, f) && !Writable(Pte(mem', pd, i)) && !Writable(Pte(mem', c, i));
      MappedFrame(mem, ft, spaces, c, i);
    }
    AddedExactRefs(mem, mem', ft, ft', spaces, pd, pt);
    AddedApart(mem, mem', ft, ft', spaces, pd, pt);
    AddedUsed(mem, mem', ft, ft', spaces, pd, pt);
    AddedSameIndex(mem, mem', ft, ft', spaces, pd, pt);
    AddedNoWritable(mem, mem', ft, ft', spaces, pd, pt);
  }

  lemma AddedSameIndex(mem: seq<seq<nat>>, mem': seq<seq<nat>>, ft: FrameTable, ft': FrameTable, spaces: set<nat>,
                       pd: nat, pt: nat)
    requires MemInv(mem, ft, spaces) && SpaceAdded(mem, mem', ft, ft', spaces, pd, pt)
    requires forall i: nat, f: nat :: NamesAt(mem', pd, i, f) ==> exists c :: c in spaces && NamesAt(mem, c, i, f)
    ensures SameIndex(mem', spaces + {pd})
  {
    var all := spaces + {pd};
    forall c, i: nat, f: nat | c in all && NamesAt(mem', c, i, f)
      ensures exists e :: e in spaces && NamesAt(mem, e, i, f)
    {
      if c in spaces { AddedNames(mem, mem', ft, ft', spaces, pd, pt, c, f); }
    }
  }

  lemma AddedNoWritable(mem: seq<seq<nat>>, mem': seq<seq<nat>>, ft: FrameTable, ft': FrameTable, spaces: set<nat>,
                        pd: nat, pt: nat)
    requires MemInv(mem, ft, spaces) && SpaceAdded(mem, mem', ft, ft', spaces, pd, pt)
    requires forall i: nat, f: nat :: NamesAt(mem', pd, i, f) ==>
               exists c :: c in spaces && NamesAt(mem, c, i, f) && !Writable(Pte(mem', pd, i)) &&
                   !Writable(Pte(mem', c, i))
    ensures NoWritableSharing(mem', ft', spaces + {pd})
  {
    forall d, j: nat, f: nat | d in spaces + {pd} && NamesAt(mem', d, j, f) && Writable(Pte(mem', d, j)) &&
        f < FRAME_COUNT
      ensures ft'.refs[f] == 1
    {
      assert d in spaces;
      assert Downgraded(mem, mem', d, j);
      assert NamesAt(mem, d, j, f) && ft.refs[f] == 1;
      if Names(mem', pd, f) {
        var i: nat :| NamesAt(mem', pd, i, f);
        var c :| c in spaces && NamesAt(mem, c, i, f) && !Writable(Pte(mem', pd, i)) && !Writable(Pte(mem', c, i));
        SoleSharer(mem, ft, spaces, c, i, d, j, f);
        assert false;
      }
    }
  }

  // When one reference is counted, the two places that name the frame are the same.
  lemma SoleSharer(mem: seq<seq<nat>>, ft: FrameTable, spaces: set<nat>, c: nat, i: nat, d: nat, j: nat, f: nat)
    requires MemInv(mem, ft, spaces) && c in spaces && d in spaces && f < FRAME_COUNT
    requires NamesAt(mem, c, i, f) && NamesAt(mem, d, j, f) && ft.refs[f] == 1
    ensures c == d && i == j
  {
    assert {c, d} <= Sharers(mem, spaces, f);
    if c != d { SubsetSize({c, d}, Sharers(mem, spaces, f)); }
  }

  // A walk gives the same word when the directory and page table it uses are unchanged.
  lemma WalkStable(mem: seq<seq<nat>>, mem': seq<seq<nat>>, ft: FrameTable, spaces: set<nat>, c: nat, vpn: nat)
    requires Framed(mem')
    requires MemInv(mem, ft, spaces) && (c in spaces || c == KERNEL_PD)
    requires mem'[c] == mem[c] && mem'[PtOf(mem, c)] == mem[PtOf(mem, c)]
    ensures Walk(mem', c, vpn) == Walk(mem, c, vpn)
  {
    WalkIs(mem, ft, spaces, c, vpn);
  }

  // ------------------------------------------------------------------
  // Create
  // ------------------------------------------------------------------

  lemma CreateAdds(vm: Vm, spaces: set<nat>)
    requires Inv(vm, spaces) && Create(vm).Done? && Create(vm).ret != 0
    ensures var r := Create(vm);
            && r.ret !in spaces
            && SpaceAdded(vm.mem, r.vm.mem, vm.ft, r.vm.ft, spaces, r.ret, PtOf(r.vm.mem, r.ret))
            && (forall i: nat :: InWindow(i) ==> Pte(r.vm.mem, r.ret, i) == 0)
            && (forall f :: 0 <= f < FRAME_COUNT && f != r.ret && f != PtOf(r.vm.mem, r.ret) ==>
                r.vm.mem[f] == vm.mem[f])
  {
    FreshFrame(vm.mem, vm.ft, spaces);
    FreshPair(vm.mem, vm.ft, spaces);
    var r := Create(vm);
    var mem' := r.vm.mem;
    var (ft1, pd) := Alloc(vm.ft);
    var (ft2, pt) := Alloc(ft1);
    assert FrameOf(UserWord(pt)) == pt;
    assert mem'[pt] == Cleared(vm.mem[KERNEL_PT]);
    assert PtOf(mem', pd) == pt;
    forall i: nat, f: nat ensures !NamesAt(mem', pd, i, f) {
      if InWindow(i) { assert Pte(mem', pd, i) == 0; }
    }
    forall c | c in spaces ensures PtOf(mem', c) == PtOf(vm.mem, c) && SpaceOk(mem', c)
                           && forall i: nat :: Pte(mem', c, i) == Pte(vm.mem, c, i) {
      SpaceUntouched(vm.mem, mem', vm.ft, spaces, pd, pt, c);
    }
    assert SpaceOk(mem', pd);
  }

  lemma SpaceUntouched(mem: seq<seq<nat>>, mem': seq<seq<nat>>, ft: FrameTable, spaces: set<nat>, pd: nat, pt: nat,
                       c: nat)
    requires MemInv(mem, ft, spaces) && c in spaces && |mem'| == |mem|
    requires !IsTable(mem, spaces, pd) && !IsTable(mem, spaces, pt)
    requires forall f :: 0 <= f < |mem| && f != pd && f != pt ==> mem'[f] == mem[f]
    ensures PtOf(mem', c) == PtOf(mem, c) && SpaceOk(mem', c)
    ensures forall i: nat :: Pte(mem', c, i) == Pte(mem, c, i)
  {
    assert SpaceOk(mem, c);
    assert IsTable(mem, spaces, c) && IsTable(mem, spaces, PtOf(mem, c));
  }

  lemma CreateKeepsInv(vm: Vm, spaces: set<nat>)
    requires Inv(vm, spaces) && Create(vm).Done?
    ensures var r := Create(vm);
            if r.ret == 0 then r.vm == vm else r.ret !in spaces && Inv(r.vm, spaces + {r.ret})
  {
    var r := Create(vm);
    FreshPair(vm.mem, vm.ft, spaces);
    if r.ret != 0 {
      CreateAdds(vm, spaces);
      var pt := PtOf(r.vm.mem, r.ret);
      AddedKeepsInv(vm.mem, r.vm.mem, vm.ft, r.vm.ft, spaces, r.ret, pt);
      forall e | e in r.vm.tlb ensures Walk(r.vm.mem, r.vm.cr3, e.0) == Walk(vm.mem, vm.cr3, e.0) {
        if vm.cr3 in spaces {
          assert SpaceOk(vm.mem, vm.cr3) && IsTable(vm.mem, spaces, vm.cr3) &&
              IsTable(vm.mem, spaces, PtOf(vm.mem, vm.cr3));
        }
        WalkStable(vm.mem, r.vm.mem, vm.ft, spaces, vm.cr3, e.0);
      }
    }
  }

  // ------------------------------------------------------------------
  // Fork
  // ------------------------------------------------------------------

  // Entry i of table pt maps frame f.
  ghost predicate EntryNames(pt: seq<nat>, i: nat, f: nat) {
    InWindow(i) && i < |pt| && Present(pt[i]) && FrameOf(pt[i]) == f
  }

  // No frame is mapped by two entries of the window.
  ghost predicate Injective(pt: seq<nat>) {
    forall i: nat, j: nat, f: nat :: EntryNames(pt, i, f) && EntryNames(pt, j, f) ==> i == j
  }

  ghost predicate NamedBelow(pt: seq<nat>, n: nat, f: nat) {
    exists i: nat :: i < n && EntryNames(pt, i, f)
  }

  // The fork loop adds exactly one reference to each frame the table maps.
  lemma {:induction false} IncUpToRefs(ft: FrameTable, pt: seq<nat>, n: nat)
    requires Sized(ft) && |pt| == PAGE_WORDS && USER_PG_START <= n <= USER_PG_END && Injective(pt)
    requires forall f :: 0 <= f < FRAME_COUNT ==> ft.refs[f] < REF_MAX
    ensures IncUpTo(ft, pt, n).used == ft.used
    ensures forall f: nat :: f < FRAME_COUNT ==>
              IncUpTo(ft, pt, n).refs[f] == ft.refs[f] + if NamedBelow(pt, n, f) then 1 else 0
    decreases n
  {
    if n == USER_PG_START {
    } else {
      IncUpToRefs(ft, pt, n - 1);
      forall f: nat | f < FRAME_COUNT
        ensures NamedBelow(pt, n, f) <==> NamedBelow(pt, n - 1, f) || EntryNames(pt, n - 1, f)
        ensures !(NamedBelow(pt, n - 1, f) && EntryNames(pt, n - 1, f))
      {
        if EntryNames(pt, n - 1, f) { assert n - 1 < n; }
        if NamedBelow(pt, n - 1, f) {
          var i: nat :| i < n - 1 && EntryNames(pt, i, f);
          assert i < n;
        }
      }
    }
  }

  lemma SpaceInjective(mem: seq<seq<nat>>, ft: FrameTable, spaces: set<nat>, c: nat)
    requires MemInv(mem, ft, spaces) && c in spaces && PtOf(mem, c) < FRAME_COUNT
    ensures Injective(mem[PtOf(mem, c)])
    ensures forall f: nat :: NamedBelow(mem[PtOf(mem, c)], USER_PG_END, f) <==> Names(mem, c, f)
  {
    assert SpaceOk(mem, c);
    var pt := mem[PtOf(mem, c)];
    forall i: nat, f: nat ensures EntryNames(pt, i, f) <==> NamesAt(mem, c, i, f) {
    }
    forall f: nat ensures NamedBelow(pt, USER_PG_END, f) <==> Names(mem, c, f) {
      if Names(mem, c, f) {
        var i: nat :| NamesAt(mem, c, i, f);
        assert i < USER_PG_END && EntryNames(pt, i, f);
      }
    }
  }

  // The frames a fork writes: the new directory and page table, and the parent's page table.
  lemma ForkMemory(vm: Vm, spaces: set<nat>, parent: nat)
    requires Inv(vm, spaces) && parent in spaces
    requires FrameOf(vm.mem[parent][0]) < FRAME_COUNT
    requires Fork(vm, parent).Done? && Fork(vm, parent).ret != 0
    ensures var r := Fork(vm, parent); var mem' := r.vm.mem; var pd := r.ret; var pt := PtOf(mem', pd);
            var ppt := PtOf(vm.mem, parent);
            && DYN_START <= pd < USER_PG_START && DYN_START <= pt < USER_PG_START && pd != pt
            && !vm.ft.used[pd] && !vm.ft.used[pt] && !IsTable(vm.mem, spaces, pd) && !IsTable(vm.mem, spaces, pt)
            && mem'[pd][0] == UserWord(pt) && (forall d :: 1 <= d < PAGE_WORDS ==> mem'[pd][d] == 0)
            && mem'[pt] == mem'[ppt] == Shared(vm.mem[ppt])
            && (forall f :: 0 <= f < FRAME_COUNT && f != pd && f != pt && f != ppt ==> mem'[f] == vm.mem[f])
            && r.vm.ft == IncUpTo(vm.ft.(used := vm.ft.used[pd := true][pt := true]), vm.mem[ppt], USER_PG_END)
            && r.vm.cr3 == vm.cr3 && r.vm.tlb == if parent == vm.cr3 then {} else vm.tlb
  {
    FreshFrame(vm.mem, vm.ft, spaces);
    FreshPair(vm.mem, vm.ft, spaces);
    assert SpaceOk(vm.mem, parent);
    var (ft1, pd) := Alloc(vm.ft);
    var (ft2, pt) := Alloc(ft1);
    assert FrameOf(UserWord(pt)) == pt;
    assert IsTable(vm.mem, spaces, parent) && IsTable(vm.mem, spaces, PtOf(vm.mem, parent));
  }

  lemma ReadOnlyWord(w: nat)
    ensures Present(ReadOnly(w)) <==> Present(w)
    ensures FrameOf(ReadOnly(w)) == FrameOf(w)
    ensures !Writable(ReadOnly(w))
    ensures UserWordOk(w) ==> UserWordOk(ReadOnly(w))
  {
    var q, r := w / 4096, w % 4096;
    assert w == q * 4096 + r;
    ReadOnlyOf(w, q, r);
    ReadOnlyOf(0, 0, 0);
    if UserWordOk(w) && w != 0 { ReadOnlyUser(w, q); }
  }

  // Clearing the write flag of a word with low bits r.
  lemma ReadOnlyOf(w: nat, q: nat, r: nat)
    requires r < 4096 && w == q * 4096 + r
    ensures ReadOnly(w) == q * 4096 + if r / 2 % 2 == 1 then r - 2 else r
    ensures Present(ReadOnly(w)) <==> Present(w)
    ensures FrameOf(ReadOnly(w)) == FrameOf(w) == q
    ensures !Writable(ReadOnly(w))
  {
    LowBits(q, r);
    var s := if r / 2 % 2 == 1 then r - 2 else r;
    EvenLess(r);
    LowBits(q, s);
  }

  lemma EvenLess(r: nat)
    ensures r / 2 % 2 == 1 ==> r >= 2 && (r - 2) / 2 % 2 == 0 && (r - 2) % 2 == r % 2
  {
  }

  lemma ReadOnlyUser(w: nat, q: nat)
    requires UserWordOk(w) && w != 0 && q == FrameOf(w)
    ensures ReadOnly(w) == q * 4096 + 5 && FrameOf(ReadOnly(w)) == q
  {
    if w == q * 4096 + 5 { ReadOnlyOf(w, q, 5); } else { ReadOnlyOf(w, q, 7); }
  }

  // The flags of a word are those of its low twelve bits.
  lemma LowBits(q: nat, r: nat)
    requires r < 4096
    ensures var w := q * 4096 + r;
            w / 4096 == q && w % 2 == r % 2 && w / 2 % 2 == r / 2 % 2 && w / 4 % 2 == r / 4 % 2
  {
    EvenPlus(q * 2048, r);
    EvenPlus(q * 1024, r / 2);
    EvenPlus(q * 512, r / 4);
    assert (q * 4096 + r) / 4 == (q * 2048 + r / 2) / 2;
  }

  lemma EvenPlus(h: nat, r: nat)
    ensures (2 * h + r) % 2 == r % 2 && (2 * h + r) / 2 == h + r / 2
  {
  }

  lemma ForkTables(vm: Vm, spaces: set<nat>, parent: nat)
    requires Inv(vm, spaces) && parent in spaces
    requires FrameOf(vm.mem[parent][0]) < FRAME_COUNT
    requires Fork(vm, parent).Done? && Fork(vm, parent).ret != 0
    ensures var r := Fork(vm, parent); var mem' := r.vm.mem; var pd := r.ret;
            && PtOf(mem', parent) == PtOf(vm.mem, parent)
            && SpaceOk(mem', pd) && SpaceOk(mem', parent)
            && (forall i: nat :: InWindow(i) ==>
                 && Downgraded(vm.mem, mem', parent, i) &&
                    !(Present(Pte(mem', parent, i)) && Writable(Pte(mem', parent, i)))
                 && Pte(mem', pd, i) == Pte(mem', parent, i))
  {
    ForkMemory(vm, spaces, parent);
    assert SpaceOk(vm.mem, parent);
    var r := Fork(vm, parent);
    var mem' := r.vm.mem;
    var pd := r.ret;
    assert IsTable(vm.mem, spaces, parent) && IsTable(vm.mem, spaces, PtOf(vm.mem, parent));
    forall i: nat | InWindow(i)
      ensures UserWordOk(Pte(mem', parent, i)) && Pte(mem', pd, i) == Pte(mem', parent, i)
      ensures Downgraded(vm.mem, mem', parent, i) && !(Present(Pte(mem', parent, i)) && Writable(Pte(mem', parent, i)))
    {
      assert UserWordOk(Pte(vm.mem, parent, i));
      ReadOnlyWord(Pte(vm.mem, parent, i));
    }
  }

  lemma ForkAdds(vm: Vm, spaces: set<nat>, parent: nat)
    requires Inv(vm, spaces) && parent in spaces
    requires FrameOf(vm.mem[parent][0]) < FRAME_COUNT
    requires Fork(vm, parent).Done? && Fork(vm, parent).ret != 0
    ensures var r := Fork(vm, parent);
            && r.ret !in spaces
            && SpaceAdded(vm.mem, r.vm.mem, vm.ft, r.vm.ft, spaces, r.ret, PtOf(r.vm.mem, r.ret))
  {
    ForkMemory(vm, spaces, parent);
    ForkTables(vm, spaces, parent);
    var r := Fork(vm, parent);
    var mem' := r.vm.mem;
    var pd := r.ret;
    assert SpaceOk(vm.mem, parent);
    forall c | c in spaces
      ensures PtOf(mem', c) == PtOf(vm.mem, c) && SpaceOk(mem', c)
      ensures forall i: nat :: InWindow(i) ==> Downgraded(vm.mem, mem', c, i)
    {
      if c != parent {
        assert PtOf(vm.mem, c) != PtOf(vm.mem, parent);
        assert SpaceOk(vm.mem, c);
        assert IsTable(vm.mem, spaces, c) && IsTable(vm.mem, spaces, PtOf(vm.mem, c));
      }
    }
    ForkCounts(vm, spaces, parent);
  }

  lemma ForkCounts(vm: Vm, spaces: set<nat>, parent: nat)
    requires Inv(vm, spaces) && parent in spaces
    requires FrameOf(vm.mem[parent][0]) < FRAME_COUNT
    requires Fork(vm, parent).Done? && Fork(vm, parent).ret != 0
    ensures var r := Fork(vm, parent);
            && PtOf(r.vm.mem, r.ret) < FRAME_COUNT
            && r.vm.ft.used == vm.ft.used[r.ret := true][PtOf(r.vm.mem, r.ret) := true]
            && forall f: nat :: f < FRAME_COUNT ==>
                 && (Names(r.vm.mem, r.ret, f) <==> Names(vm.mem, parent, f))
                 && r.vm.ft.refs[f] == vm.ft.refs[f] + if Names(r.vm.mem, r.ret, f) then 1 else 0
  {
    ForkMemory(vm, spaces, parent);
    ForkTables(vm, spaces, parent);
    var r := Fork(vm, parent);
    var table := vm.mem[PtOf(vm.mem, parent)];
    var ft2 := vm.ft.(used := vm.ft.used[r.ret := true][PtOf(r.vm.mem, r.ret) := true]);
    RefsBounded(vm.mem, vm.ft, spaces);
    SpaceInjective(vm.mem, vm.ft, spaces, parent);
    IncUpToRefs(ft2, table, USER_PG_END);
    forall f: nat, i: nat ensures NamesAt(r.vm.mem, r.ret, i, f) <==> NamesAt(vm.mem, parent, i, f) {
      if InWindow(i) { assert Downgraded(vm.mem, r.vm.mem, parent, i); }
    }
  }

  lemma ForkKeepsInv(vm: Vm, spaces: set<nat>, parent: nat)
    requires Inv(vm, spaces) && parent in spaces
    requires FrameOf(vm.mem[parent][0]) < FRAME_COUNT
    requires Fork(vm, parent).Done?
    ensures var r := Fork(vm, parent);
            if r.ret == 0 then r.vm == vm else r.ret !in spaces && Inv(r.vm, spaces + {r.ret})
  {
    var r := Fork(vm, parent);
    FreshPair(vm.mem, vm.ft, spaces);
    if r.ret != 0 {
      ForkAdds(vm, spaces, parent);
      ForkTables(vm, spaces, parent);
      var pt := PtOf(r.vm.mem, r.ret);
      forall i: nat, f: nat | NamesAt(r.vm.mem, r.ret, i, f)
        ensures parent in spaces && NamesAt(vm.mem, parent, i, f) && !Writable(Pte(r.vm.mem, r.ret, i))
        ensures !Writable(Pte(r.vm.mem, parent, i))
      {
        assert Downgraded(vm.mem, r.vm.mem, parent, i);
      }
      AddedKeepsInv(vm.mem, r.vm.mem, vm.ft, r.vm.ft, spaces, r.ret, pt);
      ForkTlb(vm, spaces, parent);
    }
  }

  // A fork of the loaded space flushes the TLB; a fork of another leaves the loaded
  // space's translations alone.
  lemma ForkTlb(vm: Vm, spaces: set<nat>, parent: nat)
    requires Inv(vm, spaces) && parent in spaces
    requires FrameOf(vm.mem[parent][0]) < FRAME_COUNT
    requires Fork(vm, parent).Done? && Fork(vm, parent).ret != 0
    ensures TlbCoherent(Fork(vm, parent).vm)
  {
    ForkMemory(vm, spaces, parent);
    var r := Fork(vm, parent);
    if parent != vm.cr3 {
      forall e | e in r.vm.tlb ensures Walk(r.vm.mem, r.vm.cr3, e.0) == Walk(vm.mem, vm.cr3, e.0) {
        assert SpaceOk(vm.mem, parent);
        if vm.cr3 in spaces {
          assert PtOf(vm.mem, vm.cr3) != PtOf(vm.mem, parent);
          assert SpaceOk(vm.mem, vm.cr3) && IsTable(vm.mem, spaces, vm.cr3) &&
              IsTable(vm.mem, spaces, PtOf(vm.mem, vm.cr3));
        }
        WalkStable(vm.mem, r.vm.mem, vm.ft, spaces, vm.cr3, e.0);
      }
    }
  }
}
