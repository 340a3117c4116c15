// When an image can be loaded: exactly when its segments lie in bounds and there are frames
// for the pages they touch. A loaded process has those pages and no others.

module ElfRoom {
  import opened Frames
  import opened Paging
  import opened SpaceCalls
  import opened TaskSpaces
  import opened ElfImages
  import opened ElfLoading
  import CowRuns
  import FatVolume

  // The pages of the user window that hold one of the n bytes from a on.
  ghost function PagesIn(a: nat, n: nat): set<nat> {
    set i: nat | 512 <= i < 768 && HasByte(i, a, n)
  }

  ghost predicate HasByte(i: nat, a: nat, n: nat) { exists x: nat :: a <= x < a + n && PageOf(x) == i }

  // The segment lies between the text base and the stack top, and its bytes in the file.
  predicate InBounds(img: Bytes, s: Segment) {
    0x20_0000 <= s.vaddr && s.vaddr + s.memsz <= 0x2F_0000 && s.offset + s.filesz <= |img|
  }

  predicate AllInBounds(img: Bytes, i: nat)
    requires |img| >= HEADER
  {
    forall j: nat :: i <= j < Count(img) && IsLoad(img, j) ==> InBounds(img, SegmentOf(img, j))
  }

  // The pages LOAD segments from header i on touch.
  ghost function Needed(img: Bytes, i: nat): set<nat>
    requires |img| >= HEADER && i <= Count(img)
    decreases Count(img) - i
  {
    if i == Count(img) then {}
    else if IsLoad(img, i) then PagesIn(SegmentOf(img, i).vaddr, SegmentOf(img, i).memsz) + Needed(img, i + 1)
    else Needed(img, i + 1)
  }

  // ------------------------------------------------------------------
  // The file format
  // ------------------------------------------------------------------

  // The number in the n bytes from o on, lowest byte first.
  function Le(img: Bytes, o: nat, n: nat): nat
    requires o + n <= |img|
    decreases n
  {
    if n == 0 then 0 else img[o] as nat + 256 * Le(img, o + 1, n - 1)
  }

  // Where the ELF header keeps its magic number, type (2, executable), machine (3, 80386),
  // entry point, and the place and number of its 32-byte program headers.
  lemma HeaderLayout(img: Bytes)
    requires |img| >= 52
    ensures HeaderOk(img) <==>
            && img[..4] == [0x7F, 0x45, 0x4C, 0x46] && Le(img, 16, 2) == 2 && Le(img, 18, 2) == 3
            && (Le(img, 28, 4) + 32 * Le(img, 44, 2)) % 0x1_0000_0000 <= |img|
    ensures EntryPoint(img) == Le(img, 24, 4) && Count(img) == Le(img, 44, 2)
    ensures forall i: nat :: EntryAt(img, i) == Le(img, 28, 4) + 32 * i
  {
    LeTwo(img, 16);
    LeTwo(img, 18);
    LeTwo(img, 44);
    LeFour(img, 24);
    LeFour(img, 28);
    var magic := img[..4];
    assert magic[0] == img[0] && magic[1] == img[1] && magic[2] == img[2] && magic[3] == img[3];
  }

  // Where a program header keeps its type (1, load), offset, address and two sizes.
  lemma SegmentLayout(img: Bytes, i: nat)
    requires |img| >= 52 && EntryAt(img, i) + 32 <= |img|
    ensures var at := EntryAt(img, i); var s := SegmentAt(img, at);
            && (IsLoad(img, i) <==> Le(img, at, 4) == 1) && s.offset == Le(img, at + 4, 4)
            && s.vaddr == Le(img, at + 8, 4) && s.filesz == Le(img, at + 16, 4) && s.memsz == Le(img, at + 20, 4)
  {
    var at := EntryAt(img, i);
    LeFour(img, at);
    LeFour(img, at + 4);
    LeFour(img, at + 8);
    LeFour(img, at + 16);
    LeFour(img, at + 20);
  }

  lemma LeTwo(img: Bytes, o: nat)
    requires o + 2 <= |img|
    ensures U16At(img, o) == Le(img, o, 2)
  {
    assert Le(img, o + 2, 0) == 0;
    assert Le(img, o + 1, 1) == img[o + 1] as nat;
  }

  lemma LeFour(img: Bytes, o: nat)
    requires o + 4 <= |img|
    ensures U32At(img, o) == Le(img, o, 4)
  {
    LeTwo(img, o + 2);
    assert Le(img, o + 1, 3) == img[o + 1] as nat + 256 * Le(img, o + 2, 2);
  }

  // ------------------------------------------------------------------
  // Counting
  // ------------------------------------------------------------------

  // Taking the pages of a and then those of b is taking those of both.
  lemma TakenTogether(a: set<nat>, b: set<nat>, held: set<nat>)
    ensures |(a + b) - held| == |a - held| + |b - (held + a)|
  {
    assert (a + b) - held == (a - held) + (b - (held + a));
    assert (a - held) * (b - (held + a)) == {};
  }

  // Space c holds these pages and these many frames are free; unfolded where a proof
  // mentions Glance.
  ghost predicate Stock(vm: Vm, c: nat, held: set<nat>, free: nat) {
    forall n: nat {:trigger Glance(n)} :: Glance(n) ==> PagesOf(vm, c).Keys == held && FreeFrames(vm.ft) == free
  }

  lemma {:induction false} PutKeepsFrames(vm: Vm, a: nat, bytes: Bytes)
    requires PutBytes(vm, a, bytes).Filled?
    ensures PutBytes(vm, a, bytes).vm.ft == vm.ft
    decreases |bytes|
  {
    if |bytes| > 0 { PutKeepsFrames(StoreByte(vm, a, bytes[0]), a + 1, bytes[1..]); }
  }

  lemma FillKeepsFrames(vm: Vm, a: nat, file: Bytes, n: nat)
    requires FillSegment(vm, a, file, n).Loaded?
    ensures FillSegment(vm, a, file, n).vm.ft == vm.ft
  {
    PutKeepsFrames(vm, a, file);
    if n > |file| { PutKeepsFrames(PutBytes(vm, a, file).vm, a + |file|, FatVolume.Zeros(n - |file|)); }
  }

  lemma MissingPages(m: CowRuns.PageMap, a: nat, n: nat)
    requires a + n <= 0x40_0000
    ensures CowRuns.Missing(m, a, n) == PagesIn(a, n) - m.Keys
  {
    forall i: nat ensures i in CowRuns.Missing(m, a, n) <==> i in PagesIn(a, n) - m.Keys {
      CowRuns.RegionIsBytes(i, a, n);
      if HasByte(i, a, n) {
        var x: nat :| a <= x < a + n && PageOf(x) == i;
        assert x / 4096 == i;
      }
      if CowRuns.InRegion(i, a, n) {
        var x: nat :| a <= x < a + n && x / 4096 == i;
        assert PageOf(x) == i;
      }
    }
  }

  // Mapping takes a frame for each page the space lacks, and succeeds exactly when they suffice.
  lemma MapStock(vm: Vm, spaces: set<nat>, c: nat, a: nat, n: nat, held: set<nat>, free: nat)
    requires Fit(vm, spaces, c) && a + n <= 0x30_0000 && Stock(vm, c, held, free)
    ensures var (vm', ok) := MapOf(vm, c, a, n); var more := PagesIn(a, n);
            && Fit(vm', spaces, c) && (ok <==> |more - held| <= free)
            && (ok ==> Stock(vm', c, held + more, free - |more - held|))
  {
    assert Glance(0);
    var (vm', ok) := MapOf(vm, c, a, n);
    MapFit(vm, spaces, c, a, n);
    MissingPages(PagesOf(vm, c), a, n);
    var more := PagesIn(a, n);
    if n == 0 { assert more == {}; }
    if ok {
      assert held + (more - held) == held + more;
      assert |held + (more - held)| == |held| + |more - held|;
    }
  }

  // ------------------------------------------------------------------
  // One segment
  // ------------------------------------------------------------------

  // A segment that makes sense is refused at once, refused for want of frames, or filled in.
  lemma SegmentOutcome(vm: Vm, c: nat, img: Bytes, s: Segment, r: Loading)
    requires SegmentTo(vm, c, img, s, r) && SegmentOk(s)
    ensures var (vm1, ok) := MapOf(vm, c, s.vaddr, s.memsz);
            if !InBounds(img, s) then r == Rejected(vm)
            else if !ok then r == Rejected(vm1)
            else r == FillSegment(vm1, s.vaddr, img[s.offset..s.offset + s.filesz], s.memsz)
  {
    assert Glance(0);
    SmallSum(s.vaddr, s.memsz);
    SmallSum(s.offset, s.filesz);
  }

  lemma FillStock(vm: Vm, spaces: set<nat>, c: nat, s: Segment, file: Bytes, held: set<nat>, free: nat)
    requires Fit(vm, spaces, c) && Stock(vm, c, held, free) && PagesIn(s.vaddr, s.memsz) <= held
    requires 0x20_0000 <= s.vaddr && s.vaddr + s.memsz <= 0x2F_0000 && |file| <= s.memsz
    ensures var r := FillSegment(vm, s.vaddr, file, s.memsz); r.Loaded? && Stock(r.vm, c, held, free)
  {
    assert Glance(0);
    var m := PagesOf(vm, c);
    forall x: nat | s.vaddr <= x < s.vaddr + s.memsz ensures PageOf(x) in m.Keys {
      PageInWindow(x);
      assert PageOf(x) in PagesIn(s.vaddr, s.memsz);
    }
    var vm', m' := FillOk(vm, spaces, c, s.vaddr, file, s.memsz, m);
    FillKeepsFrames(vm, s.vaddr, file, s.memsz);
  }

  lemma SegmentStock(vm: Vm, spaces: set<nat>, c: nat, img: Bytes, s: Segment, r: Loading, held: set<nat>, free: nat)
    requires Fit(vm, spaces, c) && SegmentOk(s) && SegmentTo(vm, c, img, s, r) && Stock(vm, c, held, free)
    ensures var more := PagesIn(s.vaddr, s.memsz);
            && !r.Stray? && (r.Loaded? <==> InBounds(img, s) && |more - held| <= free)
            && (r.Loaded? ==> Stock(r.vm, c, held + more, free - |more - held|))
  {
    SegmentOutcome(vm, c, img, s, r);
    if InBounds(img, s) {
      MapStock(vm, spaces, c, s.vaddr, s.memsz, held, free);
      var (vm1, ok) := MapOf(vm, c, s.vaddr, s.memsz);
      if ok {
        var more, file := PagesIn(s.vaddr, s.memsz), img[s.offset..s.offset + s.filesz];
        FillStock(vm1, spaces, c, s, file, held + more, free - |more - held|);
      }
    }
  }

  // ------------------------------------------------------------------
  // The program headers
  // ------------------------------------------------------------------

  // What the headers from i on come to, given what the space holds and what is free;
  // unfolded only where a proof mentions Glance.
  ghost predicate Outcome(img: Bytes, i: nat, c: nat, r: Loading, held: set<nat>, free: nat) {
    forall n: nat {:trigger Glance(n)} :: Glance(n) ==>
      |img| >= HEADER && i <= Count(img) && OutcomeParts(img, i, c, r, held, free)
  }

  ghost predicate OutcomeParts(img: Bytes, i: nat, c: nat, r: Loading, held: set<nat>, free: nat)
    requires |img| >= HEADER && i <= Count(img)
  {
    var more := Needed(img, i);
    && (r.Loaded? <==> AllInBounds(img, i) && |more - held| <= free)
    && (r.Loaded? ==> Stock(r.vm, c, held + more, free - |more - held|))
  }

  // Header i has been carried out.
  ghost predicate Passed(img: Bytes, i: nat, held: set<nat>, free: nat, held': set<nat>, free': nat) {
    forall n: nat {:trigger Glance(n)} :: Glance(n) ==>
      |img| >= HEADER && i < Count(img) && PassedParts(img, i, held, free, held', free')
  }

  ghost predicate PassedParts(img: Bytes, i: nat, held: set<nat>, free: nat, held': set<nat>, free': nat)
    requires |img| >= HEADER && i < Count(img)
  {
    if IsLoad(img, i) then
      var s := SegmentOf(img, i);
      var more := PagesIn(s.vaddr, s.memsz);
      InBounds(img, s) && |more - held| <= free && held' == held + more && free' == free - |more - held|
    else held' == held && free' == free
  }

  lemma NeededIs(img: Bytes, i: nat)
    requires |img| >= HEADER && i < Count(img)
    ensures !IsLoad(img, i) ==>
            Needed(img, i) == Needed(img, i + 1) && (AllInBounds(img, i) <==> AllInBounds(img, i + 1))
    ensures IsLoad(img, i) ==> var s := SegmentOf(img, i);
            && Needed(img, i) == PagesIn(s.vaddr, s.memsz) + Needed(img, i + 1)
            && (AllInBounds(img, i) <==> InBounds(img, s) && AllInBounds(img, i + 1))
  {
  }

  lemma TakenInTurn(more: set<nat>, rest: set<nat>, all: set<nat>, held: set<nat>, free: nat)
    requires all == more + rest
    ensures |more - held| <= free ==>
            && (|rest - (held + more)| <= free - |more - held| <==> |all - held| <= free)
            && free - |more - held| - |rest - (held + more)| == free - |all - held|
    ensures |more - held| > free ==> |all - held| > free
    ensures held + more + rest == held + all
  {
    TakenTogether(more, rest, held);
  }

  lemma PassedOutcome(img: Bytes, i: nat, c: nat, r: Loading, held: set<nat>, free: nat, held': set<nat>, free': nat)
    requires Passed(img, i, held, free, held', free') && Outcome(img, i + 1, c, r, held', free')
    ensures Outcome(img, i, c, r, held, free)
  {
    assert Glance(0);
    NeededIs(img, i);
    if IsLoad(img, i) {
      var s := SegmentOf(img, i);
      TakenInTurn(PagesIn(s.vaddr, s.memsz), Needed(img, i + 1), Needed(img, i), held, free);
    }
  }

  lemma RefusedOutcome(img: Bytes, i: nat, c: nat, r: Loading, held: set<nat>, free: nat)
    requires |img| >= HEADER && i < Count(img) && IsLoad(img, i) && !r.Loaded?
    requires var s := SegmentOf(img, i); !(InBounds(img, s) && |PagesIn(s.vaddr, s.memsz) - held| <= free)
    ensures Outcome(img, i, c, r, held, free)
  {
    NeededIs(img, i);
    var s := SegmentOf(img, i);
    TakenInTurn(PagesIn(s.vaddr, s.memsz), Needed(img, i + 1), Needed(img, i), held, free);
  }

  // Pages a space holds and frames that are free.
  datatype Means = Means(held: set<nat>, free: nat)

  // The loop has come to header i with vm and will end with r; unfolded where a proof
  // mentions Glance.
  ghost predicate Going(vm: Vm, spaces: set<nat>, c: nat, img: Bytes, n: nat, i: nat, r: Loading, x: Means) {
    forall g: nat {:trigger Glance(g)} :: Glance(g) ==>
      && Fit(vm, spaces, c) && Sensible(img) && i <= n == Count(img) && LoadsTo(vm, c, img, i, r)
      && Stock(vm, c, x.held, x.free)
  }

  // One header: the loop has ended with r, or goes on from vm'.
  lemma HeaderStep(vm: Vm, spaces: set<nat>, c: nat, img: Bytes, n: nat, i: nat, r: Loading, x: Means)
    returns (on: bool, vm': Vm, y: Means)
    requires i < n && Going(vm, spaces, c, img, n, i, r, x)
    ensures on ==> Going(vm', spaces, c, img, n, i + 1, r, y) && Passed(img, i, x.held, x.free, y.held, y.free)
    ensures !on ==> Outcome(img, i, c, r, x.held, x.free)
  {
    assert Glance(0);
    TableFits(img, i);
    var load, r1 := SegmentsStep(vm, c, img, i, r);
    on, vm', y := true, vm, x;
    if load {
      var s := SegmentOf(img, i);
      SegmentStock(vm, spaces, c, img, s, r1, x.held, x.free);
      if !r1.Loaded? {
        on := false;
        RefusedOutcome(img, i, c, r, x.held, x.free);
      } else {
        LoadSegmentKeeps(vm, spaces, c, img, s, r1);
        ReachedFit(vm, r1.vm, spaces, c);
        var more := PagesIn(s.vaddr, s.memsz);
        vm', y := r1.vm, Means(x.held + more, x.free - |more - x.held|);
      }
    }
  }

  lemma {:induction false} SegmentsOutcome(vm: Vm, spaces: set<nat>, c: nat, img: Bytes, n: nat, i: nat, r: Loading,
                                           x: Means)
    requires i <= n && Going(vm, spaces, c, img, n, i, r, x)
    ensures Outcome(img, i, c, r, x.held, x.free)
    decreases n - i
  {
    if i == n {
      NoneLeft(vm, spaces, c, img, n, i, r, x);
    } else {
      var on, vm1, y := HeaderStep(vm, spaces, c, img, n, i, r, x);
      if on {
        SegmentsOutcome(vm1, spaces, c, img, n, i + 1, r, y);
        PassedOutcome(img, i, c, r, x.held, x.free, y.held, y.free);
      }
    }
  }

  lemma NoneLeft(vm: Vm, spaces: set<nat>, c: nat, img: Bytes, n: nat, i: nat, r: Loading, x: Means)
    requires i == n && Going(vm, spaces, c, img, n, i, r, x)
    ensures Outcome(img, i, c, r, x.held, x.free)
  {
    assert Glance(0);
    assert x.held + {} == x.held && {} - x.held == {};
  }

  // user_load_elf into an empty space succeeds exactly when every LOAD segment is in bounds
  // and there is a frame for every page they touch; the space then has those pages.
  lemma LoadElfIff(vm: Vm, spaces: set<nat>, c: nat, img: Bytes)
    requires Fit(vm, spaces, c) && ImageOk(img) && PagesOf(vm, c) == map[]
    ensures var r, pages := LoadElf(vm, c, img), Needed(img, 0);
            && (r.Loaded? <==> AllInBounds(img, 0) && |pages| <= FreeFrames(vm.ft))
            && (r.Loaded? ==> PagesOf(r.vm, c).Keys == pages && FreeFrames(r.vm.ft) == FreeFrames(vm.ft) - |pages|)
  {
    var r := LoadElf(vm, c, img);
    assert LoadsTo(vm, c, img, 0, r);
    SegmentsOutcome(vm, spaces, c, img, Count(img), 0, r, Means({}, FreeFrames(vm.ft)));
    assert Glance(0);
    assert Needed(img, 0) - {} == Needed(img, 0) && {} + Needed(img, 0) == Needed(img, 0);
  }

  // ------------------------------------------------------------------
  // With the stack
  // ------------------------------------------------------------------

  // The pages of a process that runs img: its segments' and two of stack.
  ghost function ImagePages(img: Bytes): set<nat>
    requires |img| >= HEADER
  {
    Needed(img, 0) + PagesIn(0x2E_E000, 0x2000)
  }

  // The 8 KB below the stack top are mapped.
  ghost predicate HasStack(pages: CowRuns.PageMap, esp: nat) {
    forall a: nat {:trigger PageOf(a)} :: esp - 0x2000 <= a < esp ==> PageOf(a) in pages
  }

  lemma StackPages(pages: CowRuns.PageMap)
    requires PagesIn(0x2E_E000, 0x2000) <= pages.Keys
    ensures HasStack(pages, 0x2F_0000)
  {
    forall a: nat | 0x2E_E000 <= a < 0x2F_0000 ensures PageOf(a) in pages {
      PageInWindow(a);
      assert HasByte(PageOf(a), 0x2E_E000, 0x2000);
    }
  }

  // Mapping the stack into a space whose image is loaded.
  lemma StackMapped(vm: Vm, spaces: set<nat>, c: nat)
    requires Fit(vm, spaces, c)
    ensures var (vm', ok) := MapOf(vm, c, 0x2E_E000, 0x2000); var more := PagesIn(0x2E_E000, 0x2000);
            var held := PagesOf(vm, c).Keys;
            && (ok <==> |more - held| <= FreeFrames(vm.ft))
            && (ok ==> PagesOf(vm', c).Keys == held + more && HasStack(PagesOf(vm', c), 0x2F_0000))
  {
    var (vm', ok) := MapOf(vm, c, 0x2E_E000, 0x2000);
    MapStock(vm, spaces, c, 0x2E_E000, 0x2000, PagesOf(vm, c).Keys, FreeFrames(vm.ft));
    assert Glance(0);
    if ok { StackPages(PagesOf(vm', c)); }
  }
}
