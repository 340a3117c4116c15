// The paging code as it runs: loops that overwrite page-table words in place,
// each proved to compute the functions of module Paging.

module Machine {
  import opened Frames
  import opened Paging
  import opened AddressSpaces
  import opened SpaceOps
  import opened PageOps
  import opened SpaceTeardown

  class Memory {
    const frames: array<seq<nat>>    // physical memory, one sequence of words per frame
    const mm: FrameAllocator
    var cr3: nat
    ghost var tlb: set<(nat, nat)>

    ghost predicate Valid()
      reads this, frames, mm.bitmap, mm.frameRefs
    {
      && mm.Valid() && Framed(frames[..]) && cr3 < FRAME_COUNT
      && frames as object != mm.bitmap && frames as object != mm.frameRefs
    }

    ghost function Vm(): (vm: Vm)
      reads this, frames, mm.bitmap, mm.frameRefs
      requires Valid()
      ensures Shape(vm)
    {
      Paging.Vm(frames[..], mm.Table(), cr3, tlb)
    }

    // Machine state after the boot loader, with the frame allocator initialised.
    constructor (mem: seq<seq<nat>>)
      requires Framed(mem)
      ensures Valid() && fresh(frames) && fresh(mm) && fresh(mm.bitmap) && fresh(mm.frameRefs)
      ensures Vm() == Paging.Vm(mem, BootTable(), KERNEL_PD, {})
    {
      frames := new seq<nat>[FRAME_COUNT](i requires 0 <= i < FRAME_COUNT => mem[i]);
      mm := new FrameAllocator();
      cr3 := KERNEL_PD;
      tlb := {};
      new;
      assert frames[..] == mem;
    }

    // One 32-bit store.
    method SetFrameWord(f: nat, i: nat, w: nat)
      requires Valid() && f < FRAME_COUNT && i < PAGE_WORDS
      modifies frames
      ensures Valid() && Vm() == old(Vm()).(mem := SetWord(old(Vm().mem), f, i, w))
    {
      frames[f] := frames[f][i := w];
      assert frames[..] == SetWord(old(frames[..]), f, i, w);
    }

    // memcpy of a whole frame
    method CopyFrame(dst: nat, src: nat)
      requires Valid() && dst < FRAME_COUNT && src < FRAME_COUNT
      modifies frames
      ensures Valid() && Vm() == old(Vm()).(mem := old(Vm().mem)[dst := old(Vm().mem)[src]])
    {
      frames[dst] := frames[src];
      assert frames[..] == old(frames[..])[dst := old(frames[..])[src]];
    }

    // paging_init: the page table is rewritten entry by entry; the directory keeps
    // whatever the loader put above entry 0, so the result is right exactly when
    // the loader left those entries empty.
    method PagingInit()
      requires Valid()
      modifies this, frames
      ensures Valid()
      ensures KernelTables(Vm().mem) <==> forall d :: 1 <= d < PAGE_WORDS ==> old(Vm().mem)[KERNEL_PD][d] == 0
      ensures Vm().ft == old(Vm().ft) && Vm().cr3 == KERNEL_PD && Vm().tlb == {}
      ensures forall f :: 0 <= f < FRAME_COUNT && f != KERNEL_PD && f != KERNEL_PT ==> Vm().mem[f] == old(Vm().mem)[f]
    {
      for i := 0 to PAGE_WORDS
        invariant Valid() && Vm().ft == old(Vm().ft)
        invariant forall j: nat :: j < i ==> Vm().mem[KERNEL_PT][j] == KernelWord(j)
        invariant forall f :: 0 <= f < FRAME_COUNT && f != KERNEL_PT ==> Vm().mem[f] == old(Vm().mem)[f]
      {
        SetFrameWord(KERNEL_PT, i, if USER_PG_START <= i < USER_PG_END then 0 else i * 4096 + 3);
      }
      SetFrameWord(KERNEL_PD, 0, UserWord(KERNEL_PT));
      assert forall d :: 1 <= d < PAGE_WORDS ==> Vm().mem[KERNEL_PD][d] == old(Vm().mem)[KERNEL_PD][d];
      SwitchTo(KERNEL_PD);
    }

    // paging_switch
    method SwitchTo(c: nat)
      requires Valid() && c < FRAME_COUNT
      modifies this
      ensures Valid() && Vm() == Switch(old(Vm()), c)
    {
      cr3 := c;
      tlb := {};
    }

    // map_user_page, on the page table of live space c
    method MapUserPage(ghost spaces: set<nat>, ghost c: nat, pt: nat, i: nat) returns (ok: bool)
      requires Valid() && Inv(Vm(), spaces) && c in spaces && pt == PtOf(Vm().mem, c) && i < PAGE_WORDS
      modifies frames, mm.bitmap, mm.frameRefs
      ensures Valid() && pt < FRAME_COUNT && (Vm(), ok) == MapPage(old(Vm()), pt, i)
    {
      DirectoryOk(Vm(), spaces, c);
      FreshFrame(Vm().mem, Vm().ft, spaces);
      if Present(frames[pt][i]) {
        return true;
      }
      var f := mm.FrameAlloc();
      if f == 0 {
        return false;
      }
      SetFrameWord(pt, i, UserWord(f));
      mm.Inc(f);
      return true;
    }

    // paging_map_user_region
    method MapUserRegion(ghost spaces: set<nat>, c: nat, vaddr: nat, nbytes: nat) returns (ok: bool)
      requires Valid() && Inv(Vm(), spaces) && c in spaces
      modifies frames, mm.bitmap, mm.frameRefs
      ensures Valid() && old(c < FRAME_COUNT && DirectoryInRange(Vm(), c))
      ensures (Vm(), ok) == MapRegion(old(Vm()), c, vaddr, nbytes) && Inv(Vm(), spaces)
    {
      DirectoryOk(Vm(), spaces, c);
      MapRegionKeepsInv(Vm(), spaces, c, vaddr, nbytes);
      if nbytes == 0 {
        return true;
      }
      var k := vaddr / 0x40_0000 % PAGE_WORDS;
      TableIs(Vm(), c, k);
      RegionWith(Vm(), c, vaddr, nbytes, k, RegionEnd(vaddr, nbytes));
      var pde := frames[c][k];
      if !Present(pde) {
        return false;
      }
      ok := MapRange(spaces, c, FrameOf(pde), RegionStart(vaddr), RegionEnd(vaddr, nbytes));
    }

    // Its loop over the pages first..end.
    method MapRange(ghost spaces: set<nat>, ghost c: nat, pt: nat, first: nat, end: nat) returns (ok: bool)
      requires Valid() && Inv(Vm(), spaces) && c in spaces && PtOf(Vm().mem, c) == pt < FRAME_COUNT && end < PAGE_WORDS
      modifies frames, mm.bitmap, mm.frameRefs
      ensures Valid() && (Vm(), ok) == MapPages(old(Vm()), pt, first, end)
    {
      var i := first;
      while i <= end
        invariant Valid() && Inv(Vm(), spaces) && PtOf(Vm().mem, c) == pt
        invariant MapPages(old(Vm()), pt, first, end) == MapPages(Vm(), pt, i, end)
        decreases PAGE_WORDS - i
      {
        MapPageKeepsInv(Vm(), spaces, c, i);
        var mapped := MapUserPage(spaces, c, pt, i);
        if !mapped {
          return false;
        }
        i := i + 1;
      }
      return true;
    }

    // The two frames of a new space; when one is missing the other is given back.
    method AllocPair() returns (pd: nat, pt: nat)
      requires Valid()
      modifies mm.bitmap
      ensures Valid()
      ensures var (ft1, f) := Alloc(old(Vm()).ft); var (ft2, g) := Alloc(ft1);
              && (f == 0 || g == 0 ==> pd == 0 && Vm() == old(Vm()).(ft := GiveBack(ft2, f, g)))
              && (f != 0 && g != 0 ==> pd == f && pt == g && Vm() == old(Vm()).(ft := ft2))
    {
      pd := mm.FrameAlloc();
      pt := mm.FrameAlloc();
      if pd == 0 || pt == 0 {
        if pd != 0 { mm.FrameFree(pd); }
        if pt != 0 { mm.FrameFree(pt); }
        pd := 0;
      }
    }

    // The loop that empties the user window of page table pt.
    method ClearWindow(pt: nat)
      requires Valid() && pt < FRAME_COUNT
      modifies frames
      ensures Valid() && Vm() == old(Vm()).(mem := old(Vm()).mem[pt := Cleared(old(Vm()).mem[pt])])
    {
      for i := USER_PG_START to USER_PG_END
        invariant Valid() && Vm() == old(Vm()).(mem := Vm().mem)
        invariant forall f :: 0 <= f < FRAME_COUNT && f != pt ==> Vm().mem[f] == old(Vm()).mem[f]
        invariant forall j: nat :: j < PAGE_WORDS ==>
                  Vm().mem[pt][j] == if USER_PG_START <= j < i then 0 else old(Vm()).mem[pt][j]
      {
        SetFrameWord(pt, i, 0);
      }
      assert Vm().mem[pt] == Cleared(old(Vm()).mem[pt]);
    }

    // paging_create_addr_space: the new directory frame, or 0.
    method CreateSpace(ghost spaces: set<nat>) returns (pd: nat)
      requires Valid() && Inv(Vm(), spaces) && Create(Vm()).Done?
      modifies frames, mm.bitmap
      ensures Valid() && Create(old(Vm())) == Done(Vm(), pd)
      ensures Inv(Vm(), if pd == 0 then spaces else spaces + {pd})
    {
      CreateKeepsInv(Vm(), spaces);
      FreshPair(Vm().mem, Vm().ft, spaces);
      ghost var vm0 := Vm();
      var pt: nat;
      pd, pt := AllocPair();
      if pd != 0 {
        BuildSpace(pd, pt);
      }
    }

    // The kernel's tables copied into frames pd and pt, with an empty window.
    method BuildSpace(pd: nat, pt: nat)
      requires Valid() && pd < FRAME_COUNT && pt < FRAME_COUNT && pd != pt
      requires pd != KERNEL_PT && pd != KERNEL_PD && pt != KERNEL_PT && pt != KERNEL_PD
      modifies frames
      ensures Valid()
      ensures var mem := old(Vm()).mem;
              Vm() == old(Vm()).(mem :=
                SetWord(mem[pt := Cleared(mem[KERNEL_PT])][pd := mem[KERNEL_PD]], pd, 0, UserWord(pt)))
    {
      CopyFrame(pt, KERNEL_PT);
      ClearWindow(pt);
      assert Vm().mem == old(Vm()).mem[pt := Cleared(old(Vm()).mem[KERNEL_PT])];
      CopyFrame(pd, KERNEL_PD);
      SetFrameWord(pd, 0, UserWord(pt));
    }

    // The sharing loop of a fork: both tables read-only, one more reference per page.
    method ShareWindow(ppt: nat, pt: nat)
      requires Valid() && ppt < FRAME_COUNT && pt < FRAME_COUNT && ppt != pt
      requires Vm().mem[pt] == Vm().mem[ppt]
      modifies frames, mm.frameRefs
      ensures Valid()
      ensures var mem := old(Vm()).mem;
              Vm() == old(Vm()).(mem := mem[pt := Shared(mem[ppt])][ppt := Shared(mem[ppt])],
                                 ft := IncUpTo(old(Vm()).ft, mem[ppt], USER_PG_END))
    {
      ghost var table := Vm().mem[ppt];
      for i := USER_PG_START to USER_PG_END
        invariant Valid() && Vm().cr3 == old(Vm()).cr3 && Vm().tlb == old(Vm()).tlb
        invariant Vm().ft == IncUpTo(old(Vm()).ft, table, i)
        invariant forall f :: 0 <= f < FRAME_COUNT && f != pt && f != ppt ==> Vm().mem[f] == old(Vm()).mem[f]
        invariant forall j: nat :: j < PAGE_WORDS ==>
                    Vm().mem[ppt][j] == Vm().mem[pt][j] == if USER_PG_START <= j < i then Shared(table)[j] else table[j]
      {
        if Present(frames[ppt][i]) {
          SetFrameWord(pt, i, ReadOnly(frames[ppt][i]));
          SetFrameWord(ppt, i, ReadOnly(frames[ppt][i]));
          ReadOnlyWord(table[i]);
          mm.Inc(FrameOf(frames[ppt][i]));
        }
      }
      assert Vm().mem[pt] == Shared(table) && Vm().mem[ppt] == Shared(table);
      assert Vm().mem == old(Vm()).mem[pt := Shared(table)][ppt := Shared(table)];
    }

    // paging_fork_addr_space: the child's directory frame, or 0.
    method ForkSpace(ghost spaces: set<nat>, parent: nat) returns (pd: nat)
      requires Valid() && Inv(Vm(), spaces) && parent in spaces
      requires parent < FRAME_COUNT && PtOf(Vm().mem, parent) < FRAME_COUNT && Fork(Vm(), parent).Done?
      modifies this, frames, mm.bitmap, mm.frameRefs
      ensures Valid() && Fork(old(Vm()), parent) == Done(Vm(), pd)
      ensures Inv(Vm(), if pd == 0 then spaces else spaces + {pd})
    {
      DirectoryOk(Vm(), spaces, parent);
      ForkKeepsInv(Vm(), spaces, parent);
      FreshPair(Vm().mem, Vm().ft, spaces);
      pd := 0;
      var ppde := frames[parent][0];
      if !Present(ppde) {
        return;
      }
      var ppt := FrameOf(ppde);
      assert IsTable(Vm().mem, spaces, parent) && IsTable(Vm().mem, spaces, ppt);
      var pt: nat;
      pd, pt := AllocPair();
      if pd != 0 {
        CopyFrame(pd, parent);
        CopyFrame(pt, ppt);
        ShareWindow(ppt, pt);
        SetFrameWord(pd, 0, UserWord(pt));
        if parent == cr3 {
          SwitchTo(cr3);
        }
      }
    }

    // The teardown loop over one page table.
    method DropWindow(pt: nat)
      requires Valid() && pt < FRAME_COUNT
      modifies mm.bitmap, mm.frameRefs
      ensures Valid() && Vm() == old(Vm()).(ft := DecUpTo(old(Vm()).ft, old(Vm()).mem[pt], USER_PG_END))
    {
      for i := USER_PG_START to USER_PG_END
        invariant Valid() && Vm() == old(Vm()).(ft := DecUpTo(old(Vm()).ft, old(Vm()).mem[pt], i))
      {
        if Present(frames[pt][i]) {
          mm.Dec(FrameOf(frames[pt][i]));
        }
      }
    }

    // paging_destroy_addr_space
    method DestroySpace(ghost spaces: set<nat>, c: nat)
      requires Valid() && Inv(Vm(), spaces) && c in spaces && c != cr3
      modifies mm.bitmap, mm.frameRefs
      ensures Valid() && old(c < FRAME_COUNT && DirectoryInRange(Vm(), c)) && Vm() == Destroy(old(Vm()), c)
      ensures Inv(Vm(), spaces - {c})
    {
      DirectoryOk(Vm(), spaces, c);
      DestroyKeepsInv(Vm(), spaces, c);
      if c == KERNEL_PD {
        return;
      }
      for d := 0 to PAGE_WORDS
        invariant Valid() && Vm() == old(Vm()).(ft := TearDownTables(old(Vm()).mem, old(Vm()).ft, old(Vm()).mem[c], d))
      {
        var pde := frames[c][d];
        if Present(pde) && FrameOf(pde) != KERNEL_PT && FrameOf(pde) != KERNEL_PD {
          DropWindow(FrameOf(pde));
          mm.FrameFree(FrameOf(pde));
        }
      }
      mm.FrameFree(c);
    }

    // paging_cow_fault
    method HandleFault(ghost spaces: set<nat>, vpn: nat, user: bool, write: bool) returns (resolved: nat)
      requires Valid() && Inv(Vm(), spaces) && vpn < PAGE_COUNT
      requires CanFault(Vm(), vpn) && CowFault(Vm(), vpn, user, write).Done?
      modifies this, frames, mm.bitmap, mm.frameRefs
      ensures Valid() && CowFault(old(Vm()), vpn, user, write) == Done(Vm(), resolved)
      ensures Inv(Vm(), spaces)
    {
      CowFaultKeepsInv(Vm(), spaces, vpn, user, write);
      resolved := TryCopy(spaces, vpn, user, write);
    }

    method TryCopy(ghost spaces: set<nat>, vpn: nat, user: bool, write: bool) returns (resolved: nat)
      requires Valid() && Inv(Vm(), spaces) && vpn < PAGE_COUNT
      requires CanFault(Vm(), vpn) && CowFault(Vm(), vpn, user, write).Done?
      modifies this, frames, mm.bitmap, mm.frameRefs
      ensures Valid() && CowFault(old(Vm()), vpn, user, write) == Done(Vm(), resolved)
    {
      FreshFrame(Vm().mem, Vm().ft, spaces);
      if !user || !write {
        return 0;
      }
      var pde := frames[cr3][vpn / PAGE_WORDS % PAGE_WORDS];
      if !Present(pde) {
        return 0;
      }
      var pt := FrameOf(pde);
      var pte := frames[pt][vpn % PAGE_WORDS];
      if !Present(pte) || Writable(pte) {
        return 0;
      }
      var nf := mm.FrameAlloc();
      if nf == 0 {
        return 0;
      }
      CopyFrame(nf, FrameOf(pte));
      SetFrameWord(pt, vpn % PAGE_WORDS, UserWord(nf));
      mm.Dec(FrameOf(pte));
      mm.Inc(nf);
      tlb := DropPage(tlb, vpn);
      return 1;
    }
  }
}
