// What loading an image leaves in the new space: every byte of every LOAD segment reads as
// the image says, and no other space changes.

module ElfLoading {
  import opened Frames
  import opened Paging
  import opened AddressSpaces
  import opened SpaceCalls
  import opened SpaceEntries
  import opened TaskSpaces
  import opened ElfImages
  import CowRuns
  import CowRefinement
  import FatVolume

  // ------------------------------------------------------------------
  // Bytes of words
  // ------------------------------------------------------------------

  lemma JoinedBytes(b0: nat, b1: nat, b2: nat, b3: nat)
    requires b0 < 256 && b1 < 256 && b2 < 256 && b3 < 256
    ensures var w := Join(b0, b1, b2, b3);
            ByteOf(w, 0) == b0 && ByteOf(w, 1) == b1 && ByteOf(w, 2) == b2 && ByteOf(w, 3) == b3
  {
    var w := Join(b0, b1, b2, b3);
    var w1 := b1 + 0x100 * b2 + 0x1_0000 * b3;
    assert w == b0 + 0x100 * w1;
    assert w / 0x1_0000 == b2 + 0x100 * b3;
    assert w / 0x100_0000 == b3;
  }

  lemma WithByteAt(w: nat, k: nat, b: nat, j: nat)
    requires k < 4 && j < 4 && b < 256
    ensures ByteOf(WithByte(w, k, b), j) == if j == k then b else ByteOf(w, j)
  {
    JoinedBytes(if k == 0 then b else ByteOf(w, 0), if k == 1 then b else ByteOf(w, 1),
                if k == 2 then b else ByteOf(w, 2), if k == 3 then b else ByteOf(w, 3));
  }

  // Pages are whole frames.
  ghost predicate Paged(m: CowRuns.PageMap) {
    forall i :: i in m ==> InWindow(i) && |m[i]| == PAGE_WORDS
  }

  // The byte a space reads at address a.
  ghost function ByteAt(m: CowRuns.PageMap, a: nat): nat
    requires PageOf(a) in m && |m[PageOf(a)]| == PAGE_WORDS
  {
    ByteOf(m[PageOf(a)][WordOf(a)], a % 4)
  }

  ghost function Poked(m: CowRuns.PageMap, a: nat, b: nat): CowRuns.PageMap
    requires PageOf(a) in m && |m[PageOf(a)]| == PAGE_WORDS
  {
    var page: seq<nat> := m[PageOf(a)][WordOf(a) := WithByte(m[PageOf(a)][WordOf(a)], a % 4, b)];
    m[PageOf(a) := page]
  }

  lemma SameWord(a: nat, x: nat)
    requires PageOf(a) == PageOf(x) && WordOf(a) == WordOf(x) && a % 4 == x % 4
    ensures a == x
  {
    WordByte(a);
    WordByte(x);
  }

  // An address is its page, its word and its byte.
  lemma WordByte(a: nat)
    ensures a == 4096 * PageOf(a) + 4 * WordOf(a) + a % 4
  {
    var p: nat, w: nat, e: nat := a / 4096, a % 4096 / 4, a % 4096 % 4;
    assert a == 4096 * p + a % 4096 && a % 4096 == 4 * w + e;
    Remainder(1024 * p + w, e);
  }

  lemma Remainder(q: nat, e: nat)
    requires e < 4
    ensures (4 * q + e) % 4 == e
  {
  }

  lemma PokedAt(m: CowRuns.PageMap, a: nat, b: nat, x: nat)
    requires Paged(m) && PageOf(a) in m && PageOf(x) in m && b < 256
    ensures Paged(Poked(m, a, b)) && ByteAt(Poked(m, a, b), x) == if x == a then b else ByteAt(m, x)
  {
    if PageOf(x) == PageOf(a) && WordOf(x) == WordOf(a) {
      WithByteAt(m[PageOf(a)][WordOf(a)], a % 4, b, x % 4);
      if x % 4 == a % 4 { SameWord(a, x); }
    }
  }

  // ------------------------------------------------------------------
  // Stores
  // ------------------------------------------------------------------

  // Space c is loaded and all its pages are writable, as in a space that has never forked.
  ghost predicate Writing(vm: Vm, spaces: set<nat>, c: nat) {
    VmOk(vm, spaces) && c in spaces && vm.cr3 == c && AllWritable(vm.mem, c)
  }

  lemma CanStoreIff(vm: Vm, spaces: set<nat>, c: nat, a: nat)
    requires Writing(vm, spaces, c)
    ensures CanStore(vm, a) <==> PageOf(a) in PagesOf(vm, c)
    ensures Paged(PagesOf(vm, c))
  {
    assert Peek(0);
    forall i | i in PagesOf(vm, c) ensures InWindow(i) && |PagesOf(vm, c)[i]| == PAGE_WORDS {
      MappedFrame(vm.mem, vm.ft, spaces, c, i);
    }
    if InWindow(PageOf(a)) { CowRefinement.UserReach(vm, spaces, PageOf(a)); }
  }

  lemma StoreByteOk(vm: Vm, spaces: set<nat>, c: nat, a: nat, b: nat)
    requires Writing(vm, spaces, c) && CanStore(vm, a) && b < 256
    ensures PageOf(a) in PagesOf(vm, c) && Paged(PagesOf(vm, c))
    ensures var vm' := StoreByte(vm, a, b);
            Writing(vm', spaces, c) && Untouched(vm, vm', spaces - {c}) &&
                PagesOf(vm', c) == Poked(PagesOf(vm, c), a, b)
  {
    CanStoreIff(vm, spaces, c, a);
    assert Peek(0);
    var i, st := PageOf(a), CowRuns.State(vm, spaces);
    CowRefinement.UserReach(vm, spaces, i);
    var w := Pte(vm.mem, c, i);
    var val := WithByte(vm.mem[FrameOf(w)][WordOf(a)], a % 4, b);
    CowRefinement.StoreToOwned(st, i, WordOf(a), val);
    CowRefinement.WordStored(vm, spaces, i, WordOf(a), val);
    AbsSpaces(vm, spaces);
    var vm' := StoreByte(vm, a, b);
    assert vm' == CowRefinement.Stored(vm, FrameOf(w), WordOf(a), val);
    AbsSpaces(vm', spaces);
  }

  // Facts about bytes of pages are unfolded only where a proof mentions Glance.
  ghost predicate Glance(n: nat) { true }

  // m' is m with bytes at a.
  ghost predicate BytesPut(m: CowRuns.PageMap, m': CowRuns.PageMap, a: nat, bytes: Bytes) {
    forall n: nat {:trigger Glance(n)} :: Glance(n) ==> FilledParts(m, m', a, bytes)
  }

  ghost predicate FilledParts(m: CowRuns.PageMap, m': CowRuns.PageMap, a: nat, bytes: Bytes) {
    && Paged(m) && Paged(m') && m'.Keys == m.Keys
    && forall x: nat {:trigger PageOf(x)} :: PageOf(x) in m ==>
       ByteAt(m', x) == if a <= x < a + |bytes| then bytes[x - a] as nat else ByteAt(m, x)
  }

  lemma FilledStep(m: CowRuns.PageMap, m': CowRuns.PageMap, a: nat, bytes: Bytes)
    requires |bytes| > 0 && Paged(m) && PageOf(a) in m && BytesPut(Poked(m, a, bytes[0] as nat), m', a + 1, bytes[1..])
    ensures BytesPut(m, m', a, bytes)
  {
    assert Glance(0);
    forall x: nat | PageOf(x) in m
      ensures ByteAt(m', x) == if a <= x < a + |bytes| then bytes[x - a] as nat else ByteAt(m, x)
    {
      PokedAt(m, a, bytes[0] as nat, x);
    }
  }

  // vm' is vm with bytes at a, and still fit for writing; unfolded where a proof mentions Peek.
  ghost predicate Wrote(vm: Vm, vm': Vm, spaces: set<nat>, c: nat, a: nat, bytes: Bytes) {
    forall n: nat {:trigger Peek(n)} :: Peek(n) ==>
      Writing(vm', spaces, c) && Untouched(vm, vm', spaces - {c}) && BytesPut(PagesOf(vm, c), PagesOf(vm', c), a, bytes)
  }

  ghost predicate Fit(vm: Vm, spaces: set<nat>, c: nat) {
    forall n: nat {:trigger Peek(n)} :: Peek(n) ==> Writing(vm, spaces, c)
  }

  lemma WroteNothing(vm: Vm, spaces: set<nat>, c: nat, a: nat)
    requires Fit(vm, spaces, c)
    ensures Wrote(vm, vm, spaces, c, a, [])
  {
    assert Peek(0);
    CanStoreIff(vm, spaces, c, a);
  }

  lemma WroteMore(vm: Vm, vm': Vm, spaces: set<nat>, c: nat, a: nat, bytes: Bytes)
    requires Fit(vm, spaces, c) && |bytes| > 0 && CanStore(vm, a)
    requires Wrote(StoreByte(vm, a, bytes[0] as nat), vm', spaces, c, a + 1, bytes[1..])
    ensures Wrote(vm, vm', spaces, c, a, bytes)
  {
    assert Peek(0);
    StoreByteOk(vm, spaces, c, a, bytes[0] as nat);
    UntouchedThrough(vm, StoreByte(vm, a, bytes[0] as nat), vm', spaces - {c});
    FilledStep(PagesOf(vm, c), PagesOf(vm', c), a, bytes);
  }

  lemma StillFit(vm: Vm, spaces: set<nat>, c: nat, a: nat, b: nat)
    requires Fit(vm, spaces, c) && CanStore(vm, a) && b < 256
    ensures Fit(StoreByte(vm, a, b), spaces, c) && PagesOf(StoreByte(vm, a, b), c).Keys == PagesOf(vm, c).Keys
  {
    assert Peek(0);
    StoreByteOk(vm, spaces, c, a, b);
  }

  // A copy that goes through writes its bytes and nothing else.
  lemma {:induction false} PutBytesOk(vm: Vm, spaces: set<nat>, c: nat, a: nat, bytes: Bytes)
    requires Fit(vm, spaces, c) && PutBytes(vm, a, bytes).Filled?
    ensures Wrote(vm, PutBytes(vm, a, bytes).vm, spaces, c, a, bytes)
    decreases |bytes|
  {
    if |bytes| == 0 {
      WroteNothing(vm, spaces, c, a);
      assert bytes == [];
    } else {
      StillFit(vm, spaces, c, a, bytes[0] as nat);
      PutBytesOk(StoreByte(vm, a, bytes[0]), spaces, c, a + 1, bytes[1..]);
      WroteMore(vm, PutBytes(vm, a, bytes).vm, spaces, c, a, bytes);
    }
  }

  // Every byte of [a, a + n) lies on one of these pages.
  ghost predicate Covers(pages: set<nat>, a: nat, n: nat) {
    forall x: nat {:trigger PageOf(x)} :: a <= x < a + n ==> PageOf(x) in pages
  }

  lemma CoversRest(pages: set<nat>, a: nat, n: nat)
    requires Covers(pages, a, n) && n > 0
    ensures PageOf(a) in pages && Covers(pages, a + 1, n - 1)
  {
  }

  // The first store goes through and leaves the rest of the copy to do.
  lemma StoreOnPage(vm: Vm, spaces: set<nat>, c: nat, a: nat, bytes: Bytes) returns (vm1: Vm)
    requires Fit(vm, spaces, c) && |bytes| > 0 && PageOf(a) in PagesOf(vm, c).Keys
    ensures Fit(vm1, spaces, c) && PagesOf(vm1, c).Keys == PagesOf(vm, c).Keys
    ensures PutBytes(vm1, a + 1, bytes[1..]) == PutBytes(vm, a, bytes)
  {
    assert CanStore(vm, a) by { assert Peek(0); CanStoreIff(vm, spaces, c, a); }
    StillFit(vm, spaces, c, a, bytes[0] as nat);
    vm1 := StoreByte(vm, a, bytes[0]);
  }

  // It goes through when every page is there.
  lemma {:induction false} PutBytesDefined(vm: Vm, spaces: set<nat>, c: nat, a: nat, bytes: Bytes, pages: set<nat>)
    requires Fit(vm, spaces, c) && pages == PagesOf(vm, c).Keys && Covers(pages, a, |bytes|)
    ensures PutBytes(vm, a, bytes).Filled?
    decreases |bytes|
  {
    if |bytes| > 0 {
      CoversRest(pages, a, |bytes|);
      var vm1 := StoreOnPage(vm, spaces, c, a, bytes);
      PutBytesDefined(vm1, spaces, c, a + 1, bytes[1..], pages);
    }
  }

  // ------------------------------------------------------------------
  // Segments
  // ------------------------------------------------------------------

  // What an image must satisfy for its segments to make sense: no 32-bit wrap, and no more
  // bytes in the file than in memory.
  predicate SegmentOk(s: Segment) {
    s.filesz <= s.memsz && s.vaddr + s.memsz < U32 && s.offset + s.filesz < U32
  }

  // The byte a segment puts at its j-th place.
  function Wanted(img: Bytes, s: Segment, j: nat): nat {
    if j < s.filesz && s.offset + j < |img| then img[s.offset + j] as nat else 0
  }

  ghost predicate SegmentIn(img: Bytes, m: CowRuns.PageMap, s: Segment) {
    forall n: nat {:trigger Glance(n)} :: Glance(n) ==> SegmentReads(img, m, s)
  }

  // Every byte of the segment is on a page and reads as the image says.
  ghost predicate SegmentReads(img: Bytes, m: CowRuns.PageMap, s: Segment) {
    && Paged(m)
    && forall x: nat {:trigger PageOf(x)} :: s.vaddr <= x < s.vaddr + s.memsz ==>
         PageOf(x) in m && ByteAt(m, x) == Wanted(img, s, x - s.vaddr)
  }

  // Pages are only added, and bytes outside [lo, hi) are as they were.
  ghost predicate KeptOutside(m: CowRuns.PageMap, m': CowRuns.PageMap, lo: nat, hi: nat) {
    forall n: nat {:trigger Glance(n)} :: Glance(n) ==> KeptParts(m, m', lo, hi)
  }

  ghost predicate KeptParts(m: CowRuns.PageMap, m': CowRuns.PageMap, lo: nat, hi: nat) {
    && Paged(m) && Paged(m')
    && forall x: nat {:trigger PageOf(x)} :: PageOf(x) in m ==>
         PageOf(x) in m' && (!(lo <= x < hi) ==> ByteAt(m', x) == ByteAt(m, x))
  }

  lemma RegionCovers(m: CowRuns.PageMap, m': CowRuns.PageMap, a: nat, n: nat, free: nat)
    requires CowRuns.PagesMapped(m, m', a, n, free, true) && TEXT_BASE <= a && a + n <= USER_STACK_TOP
    ensures Covers(m'.Keys, a, n)
  {
    forall x: nat | a <= x < a + n ensures PageOf(x) in m'.Keys {
      CowRuns.RegionIsBytes(PageOf(x), a, n);
      assert PageOf(x) in m || PageOf(x) in CowRuns.Missing(m, a, n) by { PageInWindow(x); }
    }
  }

  lemma PageInWindow(x: nat)
    requires TEXT_BASE <= x < USER_STACK_TOP
    ensures USER_PG_START <= PageOf(x) < USER_PG_END && x / 4096 == PageOf(x)
  {
  }

  lemma MapFit(vm: Vm, spaces: set<nat>, c: nat, a: nat, n: nat)
    requires Fit(vm, spaces, c) && a < U32 && n < U32
    ensures var (vm', ok) := MapOf(vm, c, a, n);
            && Fit(vm', spaces, c) && Untouched(vm, vm', spaces - {c})
            && CowRuns.PagesMapped(PagesOf(vm, c), PagesOf(vm', c), a, n, Frames.FreeFrames(vm.ft), ok)
            && Frames.FreeFrames(vm'.ft) + |PagesOf(vm', c)| == Frames.FreeFrames(vm.ft) + |PagesOf(vm, c)|
            && KeptOutside(PagesOf(vm, c), PagesOf(vm', c), 0, 0)
  {
    assert Peek(0);
    MapSpaceOk(vm, spaces, c, a, n);
    CanStoreIff(vm, spaces, c, 0);
    CanStoreIff(MapOf(vm, c, a, n).0, spaces, c, 0);
  }

  // vm' is fit and differs from vm in space c only; unfolded where a proof mentions Peek.
  ghost predicate Reached(vm: Vm, vm': Vm, spaces: set<nat>, c: nat) {
    forall n: nat {:trigger Peek(n)} :: Peek(n) ==> Fit(vm', spaces, c) && Untouched(vm, vm', spaces - {c})
  }

  lemma ReachedThrough(vm: Vm, vm1: Vm, vm2: Vm, spaces: set<nat>, c: nat)
    requires Reached(vm, vm1, spaces, c) && Reached(vm1, vm2, spaces, c)
    ensures Reached(vm, vm2, spaces, c)
  {
    assert Peek(0);
    UntouchedThrough(vm, vm1, vm2, spaces - {c});
  }

  lemma ReachedFit(vm: Vm, vm': Vm, spaces: set<nat>, c: nat)
    requires Reached(vm, vm', spaces, c)
    ensures Fit(vm', spaces, c)
  {
    assert Peek(0);
  }

  lemma PutReaches(vm: Vm, spaces: set<nat>, c: nat, a: nat, bytes: Bytes, vm': Vm)
    requires Fit(vm, spaces, c) && PutBytes(vm, a, bytes) == Filled(vm')
    ensures Reached(vm, vm', spaces, c) && Fit(vm', spaces, c)
  {
    PutBytesOk(vm, spaces, c, a, bytes);
    assert Peek(0);
  }

  lemma FillReaches(vm: Vm, spaces: set<nat>, c: nat, a: nat, file: Bytes, n: nat, vm': Vm)
    requires Fit(vm, spaces, c) && FillSegment(vm, a, file, n) == Loaded(vm')
    ensures Reached(vm, vm', spaces, c)
  {
    var vm1 := PutBytes(vm, a, file).vm;
    PutReaches(vm, spaces, c, a, file, vm1);
    if n > |file| {
      var b, zeros := a + |file|, FatVolume.Zeros(n - |file|);
      PutReaches(vm1, spaces, c, b, zeros, vm');
      ReachedThrough(vm, vm1, vm', spaces, c);
    }
  }

  lemma MapReaches(vm: Vm, spaces: set<nat>, c: nat, a: nat, n: nat)
    requires Fit(vm, spaces, c) && a < U32 && n < U32
    ensures Reached(vm, MapOf(vm, c, a, n).0, spaces, c) && Reached(vm, vm, spaces, c)
  {
    MapFit(vm, spaces, c, a, n);
  }

  // r is what loading segment s, or the program headers from i on, comes to; unfolded only
  // where a proof mentions Glance.
  ghost predicate SegmentTo(vm: Vm, c: nat, img: Bytes, s: Segment, r: Loading) {
    forall n: nat {:trigger Glance(n)} :: Glance(n) ==> r == LoadSegment(vm, c, img, s)
  }

  ghost predicate LoadsTo(vm: Vm, c: nat, img: Bytes, i: nat, r: Loading) {
    forall n: nat {:trigger Glance(n)} :: Glance(n) ==>
        |img| >= HEADER && i <= Count(img) && r == LoadSegments(vm, c, img, i)
  }

  // What LoadSegment comes down to: refused at once, refused when mapping fails, or filled in.
  lemma SegmentCases(vm: Vm, c: nat, img: Bytes, s: Segment, r: Loading) returns (vm1: Vm, file: Bytes)
    requires SegmentTo(vm, c, img, s, r) && !r.Stray?
    ensures vm1 == MapOf(vm, c, s.vaddr, s.memsz).0
    ensures r == Rejected(vm) || r == Rejected(vm1) || FillSegment(vm1, s.vaddr, file, s.memsz) == r
  {
    assert Glance(0);
    vm1 := MapOf(vm, c, s.vaddr, s.memsz).0;
    file := if s.offset + s.filesz <= |img| then img[s.offset..s.offset + s.filesz] else [];
  }

  // Whatever the image says, a load that stays on the new space's pages touches no other
  // space.
  lemma LoadSegmentKeeps(vm: Vm, spaces: set<nat>, c: nat, img: Bytes, s: Segment, r: Loading)
    requires Fit(vm, spaces, c) && s.vaddr < U32 && s.memsz < U32 && SegmentTo(vm, c, img, s, r) && !r.Stray?
    ensures Reached(vm, r.vm, spaces, c)
  {
    var vm1, file := SegmentCases(vm, c, img, s, r);
    MapReaches(vm, spaces, c, s.vaddr, s.memsz);
    ReachedFit(vm, vm1, spaces, c);
    if r.Loaded? {
      FillReaches(vm1, spaces, c, s.vaddr, file, s.memsz, r.vm);
      ReachedThrough(vm, vm1, r.vm, spaces, c);
    }
  }

  lemma CoversPart(pages: set<nat>, a: nat, n: nat, lo: nat, k: nat)
    requires Covers(pages, a, n) && a <= lo && lo + k <= a + n
    ensures Covers(pages, lo, k)
  {
  }

  // The copy goes through and leaves vm'; unfolded where a proof mentions Glance.
  ghost predicate Copied(vm: Vm, a: nat, bytes: Bytes, vm': Vm) {
    forall n: nat {:trigger Glance(n)} :: Glance(n) ==> PutBytes(vm, a, bytes) == Filled(vm')
  }

  // A copy onto mapped pages goes through and is read back.
  lemma PutOn(vm: Vm, spaces: set<nat>, c: nat, a: nat, bytes: Bytes, m: CowRuns.PageMap)
    returns (vm': Vm, m': CowRuns.PageMap)
    requires Fit(vm, spaces, c) && m == PagesOf(vm, c) && Covers(m.Keys, a, |bytes|)
    ensures Copied(vm, a, bytes, vm') && Fit(vm', spaces, c)
    ensures m' == PagesOf(vm', c) && m'.Keys == m.Keys && BytesPut(m, m', a, bytes)
  {
    PutBytesDefined(vm, spaces, c, a, bytes, m.Keys);
    PutBytesOk(vm, spaces, c, a, bytes);
    vm' := PutBytes(vm, a, bytes).vm;
    m' := PagesOf(vm', c);
    assert Peek(0);
    assert Glance(0);
  }

  // The pages of a segment once it is filled.
  ghost predicate FilledIn(m: CowRuns.PageMap, m': CowRuns.PageMap, a: nat, file: Bytes, n: nat) {
    forall i: nat {:trigger Glance(i)} :: Glance(i) ==> FilledInParts(m, m', a, file, n)
  }

  ghost predicate FilledInParts(m: CowRuns.PageMap, m': CowRuns.PageMap, a: nat, file: Bytes, n: nat) {
    && Paged(m) && Paged(m') && m'.Keys == m.Keys
    && forall x: nat {:trigger PageOf(x)} :: PageOf(x) in m ==>
         ByteAt(m', x) == if a <= x < a + |file| then file[x - a] as nat else if a <= x < a + n then 0 else ByteAt(m, x)
  }

  lemma FilledInFrom(m: CowRuns.PageMap, m1: CowRuns.PageMap, m2: CowRuns.PageMap, a: nat, file: Bytes, n: nat,
                     b: nat, zeros: Bytes)
    requires |file| <= n && b == a + |file| && zeros == FatVolume.Zeros(n - |file|) && BytesPut(m, m1, a, file)
    requires BytesPut(m1, m2, b, zeros)
    ensures FilledIn(m, m2, a, file, n)
  {
    assert Glance(0);
    forall x: nat | PageOf(x) in m
      ensures ByteAt(m2, x) == if a <= x < a + |file| then file[x - a] as nat else if a <= x < a + n then 0
              else ByteAt(m, x)
    {
      assert PageOf(x) in m1;
    }
  }

  // Clearing nothing is what the loader does when the file fills the segment.
  lemma FillIs(vm: Vm, a: nat, file: Bytes, n: nat, b: nat, zeros: Bytes, vm1: Vm, vm2: Vm)
    requires |file| <= n && b == a + |file| && zeros == FatVolume.Zeros(n - |file|)
    requires Copied(vm, a, file, vm1) && Copied(vm1, b, zeros, vm2)
    ensures FillSegment(vm, a, file, n) == Loaded(vm2)
  {
    assert Glance(0);
  }

  lemma FillOk(vm: Vm, spaces: set<nat>, c: nat, a: nat, file: Bytes, n: nat, m: CowRuns.PageMap)
    returns (vm': Vm, m': CowRuns.PageMap)
    requires Fit(vm, spaces, c) && m == PagesOf(vm, c) && Covers(m.Keys, a, n) && |file| <= n
    ensures FillSegment(vm, a, file, n) == Loaded(vm') && m' == PagesOf(vm', c) && FilledIn(m, m', a, file, n)
  {
    var b, zeros := a + |file|, FatVolume.Zeros(n - |file|);
    CoversPart(m.Keys, a, n, a, |file|);
    CoversPart(m.Keys, a, n, b, |zeros|);
    var vm1, m1 := PutOn(vm, spaces, c, a, file, m);
    vm', m' := PutOn(vm1, spaces, c, b, zeros, m1);
    FillIs(vm, a, file, n, b, zeros, vm1, vm');
    FilledInFrom(m, m1, m', a, file, n, b, zeros);
  }

  lemma SegmentFilled(img: Bytes, m: CowRuns.PageMap, m1: CowRuns.PageMap, m2: CowRuns.PageMap, s: Segment)
    requires SegmentOk(s) && s.offset + s.filesz <= |img| && KeptOutside(m, m1, 0, 0)
    requires Covers(m1.Keys, s.vaddr, s.memsz)
    requires FilledIn(m1, m2, s.vaddr, img[s.offset..s.offset + s.filesz], s.memsz)
    ensures SegmentIn(img, m2, s) && KeptOutside(m, m2, s.vaddr, s.vaddr + s.memsz)
  {
    assert Glance(0);
    forall x: nat | s.vaddr <= x < s.vaddr + s.memsz
      ensures PageOf(x) in m2 && ByteAt(m2, x) == Wanted(img, s, x - s.vaddr)
    {
      assert PageOf(x) in m1.Keys;
    }
    forall x: nat | PageOf(x) in m
      ensures PageOf(x) in m2 && (!(s.vaddr <= x < s.vaddr + s.memsz) ==> ByteAt(m2, x) == ByteAt(m, x))
    {
      assert PageOf(x) in m1;
    }
  }

  lemma SmallSum(x: nat, y: nat)
    requires x + y < U32
    ensures (x + y) % U32 == x + y
  {
  }

  // A segment that makes sense, and is not refused, comes down to filling it in.
  lemma SegmentFits(vm: Vm, c: nat, img: Bytes, s: Segment, r: Loading) returns (vm1: Vm, ok: bool)
    requires SegmentTo(vm, c, img, s, r) && SegmentOk(s)
    ensures (vm1, ok) == MapOf(vm, c, s.vaddr, s.memsz)
    ensures r.Rejected? || (ok && TEXT_BASE <= s.vaddr && s.vaddr + s.memsz <= USER_STACK_TOP &&
            s.offset + s.filesz <= |img|
                            && r == FillSegment(vm1, s.vaddr, img[s.offset..s.offset + s.filesz], s.memsz))
  {
    assert Glance(0);
    SmallSum(s.vaddr, s.memsz);
    SmallSum(s.offset, s.filesz);
    var (v, b) := MapOf(vm, c, s.vaddr, s.memsz);
    vm1, ok := v, b;
  }

  // A segment that makes sense is loaded where it says, or refused; nothing goes astray.
  lemma LoadSegmentOk(vm: Vm, spaces: set<nat>, c: nat, img: Bytes, s: Segment, r: Loading)
    requires Fit(vm, spaces, c) && SegmentOk(s) && SegmentTo(vm, c, img, s, r)
    ensures !r.Stray?
    ensures r.Loaded? ==> SegmentIn(img, PagesOf(r.vm, c), s)
    ensures r.Loaded? ==> KeptOutside(PagesOf(vm, c), PagesOf(r.vm, c), s.vaddr, s.vaddr + s.memsz)
  {
    var vm1, ok := SegmentFits(vm, c, img, s, r);
    MapFit(vm, spaces, c, s.vaddr, s.memsz);
    if !r.Rejected? {
      var file := img[s.offset..s.offset + s.filesz];
      RegionCovers(PagesOf(vm, c), PagesOf(vm1, c), s.vaddr, s.memsz, Frames.FreeFrames(vm.ft));
      var vm2, m2 := FillOk(vm1, spaces, c, s.vaddr, file, s.memsz, PagesOf(vm1, c));
      SegmentFilled(img, PagesOf(vm, c), PagesOf(vm1, c), m2, s);
    }
  }

  // ------------------------------------------------------------------
  // Whole images
  // ------------------------------------------------------------------

  function EntryAt(img: Bytes, i: nat): nat
    requires |img| >= HEADER
  {
    TableAt(img) + ENTRY * i
  }

  predicate IsLoad(img: Bytes, i: nat)
    requires |img| >= HEADER
  {
    EntryAt(img, i) + ENTRY <= |img| && SegmentAt(img, EntryAt(img, i)).kind == LOAD
  }

  function SegmentOf(img: Bytes, i: nat): Segment
    requires |img| >= HEADER && IsLoad(img, i)
  {
    SegmentAt(img, EntryAt(img, i))
  }

  predicate ApartInMemory(s: Segment, t: Segment) {
    s.memsz == 0 || t.memsz == 0 || s.vaddr + s.memsz <= t.vaddr || t.vaddr + t.memsz <= s.vaddr
  }

  // An image whose program headers lie inside it and whose LOAD segments make sense and
  // do not overlap; they may share pages.
  predicate ImageOk(img: Bytes) {
    && HeaderOk(img) && |img| < U32 && EntryAt(img, Count(img)) < U32
    && (forall i: nat :: i < Count(img) && IsLoad(img, i) ==> SegmentOk(SegmentOf(img, i)))
    && (forall i: nat, j: nat :: i < j < Count(img) && IsLoad(img, i) && IsLoad(img, j) ==>
          ApartInMemory(SegmentOf(img, i), SegmentOf(img, j)))
  }

  // The same, unfolded only where a proof mentions Glance.
  ghost predicate Sensible(img: Bytes) {
    |img| >= HEADER && forall n: nat {:trigger Glance(n)} :: Glance(n) ==> ImageOk(img)
  }

  // The first n program headers have been carried out.
  ghost predicate LoadedUpTo(img: Bytes, m: CowRuns.PageMap, n: nat)
    requires |img| >= HEADER
  {
    forall g: nat {:trigger Glance(g)} :: Glance(g) ==>
      forall i: nat :: i < n && IsLoad(img, i) ==> SegmentIn(img, m, SegmentOf(img, i))
  }

  lemma SegmentStays(img: Bytes, m: CowRuns.PageMap, m': CowRuns.PageMap, s: Segment, t: Segment)
    requires SegmentIn(img, m, s) && KeptOutside(m, m', t.vaddr, t.vaddr + t.memsz) && ApartInMemory(s, t)
    ensures SegmentIn(img, m', s)
  {
    assert Glance(0);
    forall x: nat | s.vaddr <= x < s.vaddr + s.memsz
      ensures PageOf(x) in m' && ByteAt(m', x) == Wanted(img, s, x - s.vaddr)
    {
      assert PageOf(x) in m;
    }
  }

  lemma OneMore(img: Bytes, m: CowRuns.PageMap, m': CowRuns.PageMap, n: nat)
    requires Sensible(img) && n < Count(img) && IsLoad(img, n) && LoadedUpTo(img, m, n)
    requires var s := SegmentOf(img, n); SegmentIn(img, m', s) && KeptOutside(m, m', s.vaddr, s.vaddr + s.memsz)
    ensures LoadedUpTo(img, m', n + 1)
  {
    assert Glance(0);
    forall i: nat | i < n + 1 && IsLoad(img, i) ensures SegmentIn(img, m', SegmentOf(img, i)) {
      if i < n { SegmentStays(img, m, m', SegmentOf(img, i), SegmentOf(img, n)); }
    }
  }

  // LoadSegments one program header at a time: the header is skipped, its segment ends the
  // loop with r, or the loop goes on from r1.
  lemma SegmentsStep(vm: Vm, c: nat, img: Bytes, i: nat, r: Loading) returns (load: bool, r1: Loading)
    requires |img| >= HEADER && i < Count(img) && LoadsTo(vm, c, img, i, r)
    requires EntryAt(img, i) + ENTRY <= |img| || !r.Stray?
    ensures EntryAt(img, i) + ENTRY <= |img| && load == IsLoad(img, i)
    ensures if !load then LoadsTo(vm, c, img, i + 1, r)
            else SegmentTo(vm, c, img, SegmentOf(img, i), r1) && if r1.Loaded? then LoadsTo(r1.vm, c, img, i + 1, r)
                else r == r1
  {
    assert Glance(0);
    load := IsLoad(img, i);
    r1 := if load then LoadSegment(vm, c, img, SegmentOf(img, i)) else Stray;
  }

  lemma LoadsAll(vm: Vm, c: nat, img: Bytes, r: Loading)
    requires |img| >= HEADER && LoadsTo(vm, c, img, Count(img), r)
    ensures r == Loaded(vm)
  {
    assert Glance(0);
  }

  // One header carried out, whatever it says: the loop has ended with r, or goes on from vm'.
  lemma StepKeeps(vm: Vm, spaces: set<nat>, c: nat, img: Bytes, i: nat, r: Loading) returns (on: bool, vm': Vm)
    requires Fit(vm, spaces, c) && |img| >= HEADER && i < Count(img) && LoadsTo(vm, c, img, i, r) && !r.Stray?
    ensures Reached(vm, if on then vm' else r.vm, spaces, c)
    ensures on ==> LoadsTo(vm', c, img, i + 1, r) && Fit(vm', spaces, c)
  {
    MapReaches(vm, spaces, c, 0, 0);
    var load, r1 := SegmentsStep(vm, c, img, i, r);
    if !load {
      on, vm' := true, vm;
    } else {
      LoadSegmentKeeps(vm, spaces, c, img, SegmentOf(img, i), r1);
      on, vm' := r1.Loaded?, r1.vm;
      ReachedFit(vm, vm', spaces, c);
    }
  }

  lemma {:induction false} SegmentsKeep(vm: Vm, spaces: set<nat>, c: nat, img: Bytes, i: nat, r: Loading)
    requires Fit(vm, spaces, c) && |img| >= HEADER && i <= Count(img) && LoadsTo(vm, c, img, i, r) && !r.Stray?
    ensures Reached(vm, r.vm, spaces, c)
    decreases Count(img) - i
  {
    if i == Count(img) {
      LoadsAll(vm, c, img, r);
      MapReaches(vm, spaces, c, 0, 0);
    } else {
      var on, vm1 := StepKeeps(vm, spaces, c, img, i, r);
      if on {
        SegmentsKeep(vm1, spaces, c, img, i + 1, r);
        ReachedThrough(vm, vm1, r.vm, spaces, c);
      }
    }
  }

  lemma Skipped(img: Bytes, m: CowRuns.PageMap, n: nat)
    requires |img| >= HEADER && LoadedUpTo(img, m, n) && !IsLoad(img, n)
    ensures LoadedUpTo(img, m, n + 1)
  {
    assert Glance(0);
  }

  lemma SegmentStepOk(vm: Vm, spaces: set<nat>, c: nat, img: Bytes, i: nat, r: Loading)
    requires Fit(vm, spaces, c) && Sensible(img) && i < Count(img) && IsLoad(img, i)
    requires LoadedUpTo(img, PagesOf(vm, c), i)
    requires SegmentTo(vm, c, img, SegmentOf(img, i), r)
    ensures !r.Stray? && (r.Loaded? ==> Fit(r.vm, spaces, c) && LoadedUpTo(img, PagesOf(r.vm, c), i + 1))
  {
    var s := SegmentOf(img, i);
    assert SegmentOk(s) by { assert Glance(0); }
    LoadSegmentOk(vm, spaces, c, img, s, r);
    if r.Loaded? {
      LoadSegmentKeeps(vm, spaces, c, img, s, r);
      ReachedFit(vm, r.vm, spaces, c);
      OneMore(img, PagesOf(vm, c), PagesOf(r.vm, c), i);
    }
  }

  // One header of an image that makes sense.
  lemma StepOk(vm: Vm, spaces: set<nat>, c: nat, img: Bytes, i: nat, r: Loading) returns (on: bool, vm': Vm)
    requires Fit(vm, spaces, c) && Sensible(img) && i < Count(img) && LoadedUpTo(img, PagesOf(vm, c), i)
    requires LoadsTo(vm, c, img, i, r)
    ensures if !on then r.Rejected?
            else LoadsTo(vm', c, img, i + 1, r) && Fit(vm', spaces, c) && LoadedUpTo(img, PagesOf(vm', c), i + 1)
  {
    TableFits(img, i);
    var load, r1 := SegmentsStep(vm, c, img, i, r);
    if !load {
      Skipped(img, PagesOf(vm, c), i);
      on, vm' := true, vm;
    } else {
      SegmentStepOk(vm, spaces, c, img, i, r1);
      on, vm' := r1.Loaded?, r1.vm;
    }
  }

  lemma {:induction false} SegmentsOk(vm: Vm, spaces: set<nat>, c: nat, img: Bytes, i: nat, r: Loading)
    requires Fit(vm, spaces, c) && Sensible(img) && i <= Count(img) && LoadedUpTo(img, PagesOf(vm, c), i)
    requires LoadsTo(vm, c, img, i, r)
    ensures !r.Stray? && (r.Loaded? ==> LoadedUpTo(img, PagesOf(r.vm, c), Count(img)))
    decreases Count(img) - i
  {
    if i == Count(img) {
      LoadsAll(vm, c, img, r);
    } else {
      var on, vm1 := StepOk(vm, spaces, c, img, i, r);
      if on { SegmentsOk(vm1, spaces, c, img, i + 1, r); }
    }
  }

  lemma TableFits(img: Bytes, i: nat)
    requires Sensible(img) && i < Count(img)
    ensures EntryAt(img, i) + ENTRY <= |img|
  {
    assert Glance(0);
  }

  // Loading into a space that has no page yet: it never goes astray on an image that makes
  // sense, and on success every byte of every LOAD segment, read through the new space's
  // page table, is the file's byte below filesz and zero up to memsz.
  lemma LoadElfOk(vm: Vm, spaces: set<nat>, c: nat, img: Bytes)
    requires Fit(vm, spaces, c) && ImageOk(img)
    ensures var r := LoadElf(vm, c, img); !r.Stray? && (r.Loaded? ==> LoadedUpTo(img, PagesOf(r.vm, c), Count(img)))
  {
    var r := LoadElf(vm, c, img);
    assert LoadsTo(vm, c, img, 0, r);
    SegmentsOk(vm, spaces, c, img, 0, r);
  }

  // Whatever the image, a load that is not astray touches no other space.
  lemma LoadElfKeeps(vm: Vm, spaces: set<nat>, c: nat, img: Bytes)
    requires Fit(vm, spaces, c) && !LoadElf(vm, c, img).Stray?
    ensures Reached(vm, LoadElf(vm, c, img).vm, spaces, c)
  {
    if HeaderOk(img) {
      assert LoadsTo(vm, c, img, 0, LoadElf(vm, c, img));
      SegmentsKeep(vm, spaces, c, img, 0, LoadElf(vm, c, img));
    } else {
      MapReaches(vm, spaces, c, 0, 0);
    }
  }

  // Mapping more pages disturbs nothing that is loaded.
  lemma LoadedStays(img: Bytes, m: CowRuns.PageMap, m': CowRuns.PageMap, n: nat)
    requires |img| >= HEADER && LoadedUpTo(img, m, n) && KeptOutside(m, m', 0, 0)
    ensures LoadedUpTo(img, m', n)
  {
    assert Glance(0);
    forall i: nat | i < n && IsLoad(img, i) ensures SegmentIn(img, m', SegmentOf(img, i)) {
      SegmentStays(img, m, m', SegmentOf(img, i), Segment(0, 0, 0, 0, 0));
    }
  }

  // What a reader of the loaded space sees, spelled out.
  lemma LoadedBytes(img: Bytes, m: CowRuns.PageMap, i: nat, j: nat)
    requires |img| >= HEADER && i < Count(img) && IsLoad(img, i) && LoadedUpTo(img, m, Count(img))
    requires j < SegmentOf(img, i).memsz
    ensures var s := SegmentOf(img, i); var a := s.vaddr + j;
            PageOf(a) in m && |m[PageOf(a)]| == PAGE_WORDS
            && ByteAt(m, a) == if j < s.filesz && s.offset + j < |img| then img[s.offset + j] as nat else 0
  {
    assert Glance(0);
    var a := SegmentOf(img, i).vaddr + j;
    assert SegmentReads(img, m, SegmentOf(img, i));
    assert PageOf(a) in m;
  }
}
