// The ELF32 loader (kernel/user.c): the image's headers, and the loop that maps, copies and
// clears each LOAD segment through the page tables CR3 points at.

module ElfImages {
  import opened Paging
  import opened SpaceCalls
  import Frames
  import FatVolume

  type Bytes = FatVolume.Bytes

  const U32: nat := 0x1_0000_0000
  const HEADER: nat := 52                // sizeof(struct elf32_hdr)
  const ENTRY: nat := 32                 // sizeof(struct elf32_phdr)
  const LOAD: nat := 1
  const TEXT_BASE: nat := 0x20_0000
  const USER_STACK_TOP: nat := 0x2F_0000

  // ------------------------------------------------------------------
  // Headers
  // ------------------------------------------------------------------

  function U16At(img: Bytes, o: nat): nat
    requires o + 2 <= |img|
  {
    img[o] as nat + 256 * (img[o + 1] as nat)
  }

  function U32At(img: Bytes, o: nat): (n: nat)
    requires o + 4 <= |img|
    ensures n < U32
  {
    U16At(img, o) + 0x1_0000 * U16At(img, o + 2)
  }

  function EntryPoint(img: Bytes): nat
    requires |img| >= HEADER
  {
    U32At(img, 24)
  }

  function TableAt(img: Bytes): nat
    requires |img| >= HEADER
  {
    U32At(img, 28)
  }

  function Count(img: Bytes): nat
    requires |img| >= HEADER
  {
    U16At(img, 44)
  }

  // ELF magic, EM_386, ET_EXEC, and a program header table inside the image as far as
  // 32-bit arithmetic can tell.
  predicate HeaderOk(img: Bytes) {
    && |img| >= HEADER
    && img[0] == 0x7F && img[1] == 0x45 && img[2] == 0x4C && img[3] == 0x46
    && U16At(img, 18) == 3 && U16At(img, 16) == 2
    && (TableAt(img) + Count(img) * ENTRY) % U32 <= |img|
  }

  datatype Segment = Segment(kind: nat, offset: nat, vaddr: nat, filesz: nat, memsz: nat)

  function SegmentAt(img: Bytes, at: nat): Segment
    requires at + ENTRY <= |img|
  {
    Segment(U32At(img, at), U32At(img, at + 4), U32At(img, at + 8), U32At(img, at + 16), U32At(img, at + 20))
  }

  // ------------------------------------------------------------------
  // Bytes of memory
  // ------------------------------------------------------------------

  // Byte k of a little-endian word.
  function ByteOf(w: nat, k: nat): nat
    requires k < 4
  {
    if k == 0 then w % 256 else if k == 1 then w / 0x100 % 256 else if k == 2 then w / 0x1_0000 % 256
        else w / 0x100_0000 % 256
  }

  function Join(b0: nat, b1: nat, b2: nat, b3: nat): nat { b0 + 0x100 * b1 + 0x1_0000 * b2 + 0x100_0000 * b3 }

  function WithByte(w: nat, k: nat, b: nat): nat
    requires k < 4
  {
    Join(if k == 0 then b else ByteOf(w, 0), if k == 1 then b else ByteOf(w, 1),
         if k == 2 then b else ByteOf(w, 2), if k == 3 then b else ByteOf(w, 3))
  }

  function PageOf(a: nat): nat { a / 4096 }
  function WordOf(a: nat): nat { a % 4096 / 4 }

  // A ring-0 store at address a goes through: with CR0.WP set it needs a writable page.
  predicate CanStore(vm: Vm, a: nat) {
    && Shape(vm) && InWindow(PageOf(a))
    && var w := Walk(vm.mem, vm.cr3, PageOf(a)); Present(w) && Writable(w) && FrameOf(w) < Frames.FRAME_COUNT
  }

  function StoreByte(vm: Vm, a: nat, b: nat): (r: Vm)
    requires CanStore(vm, a)
    ensures Shape(r)
  {
    var f := FrameOf(Walk(vm.mem, vm.cr3, PageOf(a)));
    vm.(mem := SetWord(vm.mem, f, WordOf(a), WithByte(vm.mem[f][WordOf(a)], a % 4, b)))
  }

  // NoPage: a store met a page that is not there.
  datatype Filled = Filled(vm: Vm) | NoPage

  // memcpy to user memory
  function PutBytes(vm: Vm, a: nat, bytes: Bytes): Filled
    decreases |bytes|
  {
    if |bytes| == 0 then Filled(vm)
    else if CanStore(vm, a) then PutBytes(StoreByte(vm, a, bytes[0]), a + 1, bytes[1..])
    else NoPage
  }

  // The copy, i bytes along, has come to vm; unfolded only where a proof mentions Along.
  ghost predicate Copying(vm0: Vm, a: nat, bytes: Bytes, vm: Vm, i: nat) {
    forall n: nat {:trigger Along(n)} :: Along(n) && i <= |bytes| ==>
        PutBytes(vm, a + i, bytes[i..]) == PutBytes(vm0, a, bytes)
  }

  ghost predicate Along(n: nat) { true }

  lemma CopyStarts(vm: Vm, a: nat, bytes: Bytes)
    ensures Copying(vm, a, bytes, vm, 0)
  {
    assert bytes[0..] == bytes;
  }

  // The next byte is stored, or there is no page for it.
  lemma CopyStep(vm0: Vm, a: nat, bytes: Bytes, vm: Vm, i: nat)
    requires i < |bytes| && Copying(vm0, a, bytes, vm, i)
    ensures if CanStore(vm, a + i) then Copying(vm0, a, bytes, StoreByte(vm, a + i, bytes[i]), i + 1)
            else PutBytes(vm0, a, bytes) == NoPage
  {
    assert Along(0);
    assert bytes[i..][1..] == bytes[i + 1..];
  }

  lemma CopyEnds(vm0: Vm, a: nat, bytes: Bytes, vm: Vm)
    requires Copying(vm0, a, bytes, vm, |bytes|)
    ensures PutBytes(vm0, a, bytes) == Filled(vm)
  {
    assert Along(0);
  }

  // ------------------------------------------------------------------
  // Loading
  // ------------------------------------------------------------------

  // Stray: memory outside the image or outside the new space's pages was touched.
  datatype Loading = Loaded(vm: Vm) | Rejected(vm: Vm) | Stray

  function LoadSegment(vm: Vm, c: nat, img: Bytes, s: Segment): Loading {
    if s.vaddr < TEXT_BASE || (s.vaddr + s.memsz) % U32 > USER_STACK_TOP || (s.offset + s.filesz) % U32 > |img|
        then Rejected(vm)
    else
      var (vm1, ok) := MapOf(vm, c, s.vaddr, s.memsz);
      if !ok then Rejected(vm1)
      else if s.offset + s.filesz > |img| then Stray
      else FillSegment(vm1, s.vaddr, img[s.offset..s.offset + s.filesz], s.memsz)
  }

  // Copy the file's bytes to a and clear the rest of the n bytes there.
  function FillSegment(vm: Vm, a: nat, file: Bytes, n: nat): Loading {
    match PutBytes(vm, a, file)
    case NoPage => Stray
    case Filled(vm1) =>
      if n <= |file| then Loaded(vm1)
      else
        match PutBytes(vm1, a + |file|, FatVolume.Zeros(n - |file|))
        case NoPage => Stray
        case Filled(vm2) => Loaded(vm2)
  }

  function LoadSegments(vm: Vm, c: nat, img: Bytes, i: nat): Loading
    requires |img| >= HEADER && i <= Count(img)
    decreases Count(img) - i
  {
    if i == Count(img) then Loaded(vm)
    else
      var at := TableAt(img) + ENTRY * i;
      if at + ENTRY > |img| then Stray
      else if SegmentAt(img, at).kind != LOAD then LoadSegments(vm, c, img, i + 1)
      else
        var r := LoadSegment(vm, c, img, SegmentAt(img, at));
        if r.Loaded? then LoadSegments(r.vm, c, img, i + 1) else r
  }

  // user_load_elf
  function LoadElf(vm: Vm, c: nat, img: Bytes): Loading {
    if HeaderOk(img) then LoadSegments(vm, c, img, 0) else Rejected(vm)
  }
}
