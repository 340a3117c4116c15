// Per-process address spaces with copy-on-write (kernel/paging.c): page
// directories and page tables are words in physical frames, and every
// operation is a function on the words, the frame table, CR3 and the TLB.
// Physical addresses of frames are written as frame numbers (address / 4096).

module Paging {
  import opened Frames

  const PAGE_WORDS: nat := 1024       // 32-bit words in a frame, entries in a table
  const KERNEL_PD: nat := 9           // 0x9000
  const KERNEL_PT: nat := 10          // 0xA000
  const USER_PG_START: nat := 512     // 0x200000
  const USER_PG_END: nat := 768       // 0x300000
  const PAGE_COUNT: nat := 0x10_0000  // pages of a 32-bit address space

  // ------------------------------------------------------------------
  // Page-table words: the frame number in bits 12..31, P, W and U below
  // ------------------------------------------------------------------

  predicate Present(w: nat) { w % 2 == 1 }
  predicate Writable(w: nat) { w / 2 % 2 == 1 }
  predicate UserMode(w: nat) { w / 4 % 2 == 1 }
  function FrameOf(w: nat): nat { w / 4096 }

  // f | PTE_P | PTE_W | PTE_U for a 4 KB-aligned f
  function UserWord(f: nat): nat { f * 4096 + 7 }
  // w & ~PTE_W
  function ReadOnly(w: nat): nat { if Writable(w) then w - 2 else w }

  predicate InWindow(i: nat) { USER_PG_START <= i < USER_PG_END }

  // The word paging_init gives the kernel page table at index i.
  function KernelWord(i: nat): nat { if InWindow(i) then 0 else i * 4096 + 3 }

  // Frames the kernel can touch at their own address: the user window
  // 0x200000-0x2FFFFF is not identity mapped.
  predicate Identity(f: nat) { f < USER_PG_START }

  // ------------------------------------------------------------------
  // Machine state
  // ------------------------------------------------------------------

  // `tlb` holds (page number, page-table word) pairs, at most what earlier walks loaded.
  datatype Vm = Vm(mem: seq<seq<nat>>, ft: FrameTable, cr3: nat, tlb: set<(nat, nat)>)

  predicate Framed(mem: seq<seq<nat>>) {
    && |mem| == FRAME_COUNT
    && (forall f :: 0 <= f < FRAME_COUNT ==> |mem[f]| == PAGE_WORDS)
  }

  predicate Shape(vm: Vm) {
    Sized(vm.ft) && Framed(vm.mem) && vm.cr3 < FRAME_COUNT
  }

  // Every table the directory in frame c names is a frame of the machine.
  predicate DirectoryInRange(vm: Vm, c: nat)
    requires Shape(vm) && c < FRAME_COUNT
  {
    forall k :: 0 <= k < PAGE_WORDS && Present(vm.mem[c][k]) ==> FrameOf(vm.mem[c][k]) < FRAME_COUNT
  }

  // Wild: the kernel dereferenced a frame that is not identity mapped, and what
  // follows is outside this model.
  datatype Outcome = Done(vm: Vm, ret: nat) | Wild

  // The page-table word that translates page `vpn` in the space whose directory is frame c.
  function Walk(mem: seq<seq<nat>>, c: nat, vpn: nat): nat
    requires Framed(mem) && c < FRAME_COUNT
  {
    var pde := mem[c][vpn / PAGE_WORDS % PAGE_WORDS];
    if Present(pde) && FrameOf(pde) < FRAME_COUNT then mem[FrameOf(pde)][vpn % PAGE_WORDS] else 0
  }

  // Memory after the word w is stored at index i of frame f.
  function SetWord(mem: seq<seq<nat>>, f: nat, i: nat, w: nat): (r: seq<seq<nat>>)
    requires f < |mem| && i < |mem[f]|
    ensures |r| == |mem| && r[f] == mem[f][i := w]
    ensures forall g :: 0 <= g < |mem| && g != f ==> r[g] == mem[g]
  {
    var frame: seq<nat> := mem[f][i := w];
    mem[f := frame]
  }

  // ------------------------------------------------------------------
  // Creation and fork
  // ------------------------------------------------------------------

  function GiveBack(ft: FrameTable, pd: nat, pt: nat): (r: FrameTable)
    requires Sized(ft)
    ensures Sized(r)
  {
    var ft1 := if pd != 0 then Free(ft, pd) else ft;
    if pt != 0 then Free(ft1, pt) else ft1
  }

  // A page table with its user window cleared.
  function Cleared(pt: seq<nat>): (r: seq<nat>)
    requires |pt| == PAGE_WORDS
    ensures |r| == PAGE_WORDS
  {
    seq(PAGE_WORDS, i requires 0 <= i < PAGE_WORDS => if InWindow(i) then 0 else pt[i])
  }

  // paging_create_addr_space
  function Create(vm: Vm): (r: Outcome)
    requires Shape(vm)
    ensures r.Done? ==> Shape(r.vm)
  {
    var (ft1, pd) := Alloc(vm.ft);
    var (ft2, pt) := Alloc(ft1);
    if pd == 0 || pt == 0 then Done(vm.(ft := GiveBack(ft2, pd, pt)), 0)
    else if !Identity(pd) || !Identity(pt) then Wild
    else
      Done(vm.(ft := ft2,
               mem := SetWord(vm.mem[pt := Cleared(vm.mem[KERNEL_PT])][pd := vm.mem[KERNEL_PD]], pd, 0,
                   UserWord(pt))), pd)
  }

  // A page table with every present window entry made read-only.
  function Shared(pt: seq<nat>): (r: seq<nat>)
    requires |pt| == PAGE_WORDS
    ensures |r| == PAGE_WORDS
  {
    seq(PAGE_WORDS, i requires 0 <= i < PAGE_WORDS => if InWindow(i) && Present(pt[i]) then ReadOnly(pt[i]) else pt[i])
  }

  // One more reference for the frame of every present entry below index n of the window.
  function IncUpTo(ft: FrameTable, pt: seq<nat>, n: nat): (r: FrameTable)
    requires Sized(ft) && |pt| == PAGE_WORDS && USER_PG_START <= n <= USER_PG_END
    ensures Sized(r)
    decreases n
  {
    if n == USER_PG_START then ft
    else
      var r := IncUpTo(ft, pt, n - 1);
      if Present(pt[n - 1]) then RefInc(r, FrameOf(pt[n - 1])) else r
  }

  // paging_fork_addr_space
  function Fork(vm: Vm, parent: nat): (r: Outcome)
    requires Shape(vm) && parent < FRAME_COUNT
    requires Present(vm.mem[parent][0]) ==> FrameOf(vm.mem[parent][0]) < FRAME_COUNT
    ensures r.Done? ==> Shape(r.vm)
  {
    if !Present(vm.mem[parent][0]) then Done(vm, 0)
    else
      var ppt := FrameOf(vm.mem[parent][0]);
      var (ft1, pd) := Alloc(vm.ft);
      var (ft2, pt) := Alloc(ft1);
      if pd == 0 || pt == 0 then Done(vm.(ft := GiveBack(ft2, pd, pt)), 0)
      else if !Identity(pd) || !Identity(pt) then Wild
      else
        var mem1 := vm.mem[pd := vm.mem[parent]];
        var mem2 := mem1[pt := mem1[ppt]];
        var mem3 := mem2[pt := Shared(mem2[ppt])][ppt := Shared(mem2[ppt])];
        Done(vm.(ft := IncUpTo(ft2, mem2[ppt], USER_PG_END),
                 mem := SetWord(mem3, pd, 0, UserWord(pt)),
                 tlb := if parent == vm.cr3 then {} else vm.tlb), pd)
  }

  // ------------------------------------------------------------------
  // Destruction
  // ------------------------------------------------------------------

  // Drop one reference for the frame of every present entry below index n of the window.
  function DecUpTo(ft: FrameTable, pt: seq<nat>, n: nat): (r: FrameTable)
    requires Sized(ft) && |pt| == PAGE_WORDS && USER_PG_START <= n <= USER_PG_END
    ensures Sized(r)
    decreases n
  {
    if n == USER_PG_START then ft
    else
      var r := DecUpTo(ft, pt, n - 1);
      if Present(pt[n - 1]) then RefDec(r, FrameOf(pt[n - 1])) else r
  }

  // The page tables named by directory entries below d, torn down in order.
  function TearDownTables(mem: seq<seq<nat>>, ft: FrameTable, pd: seq<nat>, d: nat): (r: FrameTable)
    requires Sized(ft) && |pd| == PAGE_WORDS && d <= PAGE_WORDS && Framed(mem)
    requires forall k :: 0 <= k < PAGE_WORDS && Present(pd[k]) ==> FrameOf(pd[k]) < FRAME_COUNT
    ensures Sized(r)
    decreases d
  {
    if d == 0 then ft
    else
      var r := TearDownTables(mem, ft, pd, d - 1);
      if !Present(pd[d - 1]) || FrameOf(pd[d - 1]) == KERNEL_PT || FrameOf(pd[d - 1]) == KERNEL_PD then r
      else Free(DecUpTo(r, mem[FrameOf(pd[d - 1])], USER_PG_END), FrameOf(pd[d - 1]))
  }

  // paging_destroy_addr_space
  function Destroy(vm: Vm, c: nat): (r: Vm)
    requires Shape(vm) && c < FRAME_COUNT
    requires DirectoryInRange(vm, c)
    ensures Shape(r)
  {
    if c == KERNEL_PD then vm
    else vm.(ft := Free(TearDownTables(vm.mem, vm.ft, vm.mem[c], PAGE_WORDS), c))
  }

  // ------------------------------------------------------------------
  // Mapping
  // ------------------------------------------------------------------

  // map_user_page, on the page table in frame pt
  function MapPage(vm: Vm, pt: nat, i: nat): (r: (Vm, bool))
    requires Shape(vm) && pt < FRAME_COUNT && i < PAGE_WORDS
    ensures Shape(r.0)
  {
    if Present(vm.mem[pt][i]) then (vm, true)
    else
      var (ft1, f) := Alloc(vm.ft);
      if f == 0 then (vm, false)
      else (vm.(ft := RefInc(ft1, f), mem := SetWord(vm.mem, pt, i, UserWord(f))), true)
  }

  // Map pages i..end in order, stopping at the first that cannot be mapped.
  function MapPages(vm: Vm, pt: nat, i: nat, end: nat): (r: (Vm, bool))
    requires Shape(vm) && pt < FRAME_COUNT && end < PAGE_WORDS
    ensures Shape(r.0)
    decreases end + 1 - i
  {
    if i > end then (vm, true)
    else
      var (vm1, ok) := MapPage(vm, pt, i);
      if !ok then (vm1, false) else MapPages(vm1, pt, i + 1, end)
  }

  // paging_map_user_region; addresses are 32-bit and wrap.
  function MapRegion(vm: Vm, c: nat, vaddr: nat, nbytes: nat): (r: (Vm, bool))
    requires Shape(vm) && c < FRAME_COUNT
    requires DirectoryInRange(vm, c)
    ensures Shape(r.0)
  {
    if nbytes == 0 then (vm, true)
    else
      var pde := vm.mem[c][vaddr / 0x40_0000 % PAGE_WORDS];
      if !Present(pde) then (vm, false)
      else MapPages(vm, FrameOf(pde), RegionStart(vaddr), RegionEnd(vaddr, nbytes))
  }

  function RegionStart(vaddr: nat): nat { vaddr / 4096 % PAGE_WORDS }

  function RegionEnd(vaddr: nat, nbytes: nat): nat
    requires nbytes > 0
  {
    (vaddr + nbytes - 1) % 0x1_0000_0000 / 4096 % PAGE_WORDS
  }

  // ------------------------------------------------------------------
  // Copy-on-write faults
  // ------------------------------------------------------------------

  predicate CanFault(vm: Vm, vpn: nat)
    requires Shape(vm)
  {
    && DirectoryInRange(vm, vm.cr3)
    && (Present(Walk(vm.mem, vm.cr3, vpn)) ==> FrameOf(Walk(vm.mem, vm.cr3, vpn)) < FRAME_COUNT)
  }

  function DropPage(tlb: set<(nat, nat)>, vpn: nat): set<(nat, nat)> {
    set e | e in tlb && e.0 != vpn
  }

  // paging_cow_fault for page `vpn`; `user` and `write` are the U and W bits of the error code.
  function CowFault(vm: Vm, vpn: nat, user: bool, write: bool): (r: Outcome)
    requires Shape(vm) && CanFault(vm, vpn)
    ensures r.Done? ==> Shape(r.vm)
  {
    var pde := vm.mem[vm.cr3][vpn / PAGE_WORDS % PAGE_WORDS];
    if !user || !write || !Present(pde) then Done(vm, 0)
    else
      var pt := FrameOf(pde);
      var pte := vm.mem[pt][vpn % PAGE_WORDS];
      if !Present(pte) || Writable(pte) then Done(vm, 0)
      else
        var f := FrameOf(pte);
        var (ft1, nf) := Alloc(vm.ft);
        if nf == 0 then Done(vm, 0)
        else if !Identity(f) || !Identity(nf) then Wild
        else
          var mem1 := vm.mem[nf := vm.mem[f]];
          Done(vm.(mem := SetWord(mem1, pt, vpn % PAGE_WORDS, UserWord(nf)),
                   ft := RefInc(RefDec(ft1, f), nf),
                   tlb := DropPage(vm.tlb, vpn)), 1)
  }

  // paging_switch: loading CR3 empties the TLB.
  function Switch(vm: Vm, c: nat): (r: Vm)
    requires Shape(vm) && c < FRAME_COUNT
    ensures Shape(r)
  {
    vm.(cr3 := c, tlb := {})
  }
}
