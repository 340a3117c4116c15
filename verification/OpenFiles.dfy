// Open files (kernel/syscall.c): the buffered descriptor table over the FAT volume, and
// the plain machine it stands for, in which a descriptor is a byte array and a position.

module OpenFiles {
  import opened FatVolume
  import opened FatCreate
  import opened FatRuns
  import opened FatNames
  import FatInvariant

  const MAX_OPEN: nat := 8
  const FIRST_FD: nat := 3
  const CAP: nat := 2048
  const NAME_MAX: nat := 31
  const U32: nat := 0x1_0000_0000
  const MEM_START: nat := 0x20_0000
  const MEM_END: nat := 0x30_0000

  // The fields of struct open_file.
  datatype OFile = OFile(used: bool, writable: bool, dirty: bool, size: nat, pos: nat, name: Bytes, data: Bytes)

  // ------------------------------------------------------------------
  // Guards on what ring 3 passes in
  // ------------------------------------------------------------------

  // user_range_ok
  predicate RangeOk(addr: nat, len: nat) {
    len == 0 || (MEM_START <= addr <= MEM_END && len <= MEM_END - addr)
  }

  // A range passes exactly when every byte of it is in the user window, wrap-around included.
  lemma RangeOkIff(addr: nat, len: nat)
    requires addr < U32 && len < U32
    ensures RangeOk(addr, len) <==> forall i: nat :: i < len ==> InUserMemory(Wrapped(addr, i))
  {
    if len > 0 && !(MEM_START <= addr <= MEM_END) { assert !InUserMemory(Wrapped(addr, 0)); }
    if MEM_START <= addr <= MEM_END && len > MEM_END - addr { assert !InUserMemory(Wrapped(addr, MEM_END - addr)); }
  }

  predicate InUserMemory(a: nat) { 0x20_0000 <= a < 0x30_0000 }
  function Wrapped(addr: nat, i: nat): nat { (addr + i) % U32 }

  // The part of a name before its first NUL, as strncpy copies it.
  function TillNul(s: Bytes): (r: Bytes)
    ensures |r| <= |s|
  {
    if |s| == 0 || s[0] == 0 then [] else [s[0]] + TillNul(s[1..])
  }

  lemma {:induction false} TillNulAt(s: Bytes, i: nat)
    ensures forall j: nat :: j < |TillNul(s)| ==> TillNul(s)[j] != 0
    ensures i <= |TillNul(s)| ==> CharAt(TillNul(s), i) == CharAt(s, i)
    decreases |s|
  {
    if |s| > 0 && s[0] != 0 {
      TillNulAt(s[1..], if i > 0 then i - 1 else 0);
      assert i > 0 ==> CharAt(s[1..], i - 1) == CharAt(s, i);
    }
  }

  lemma {:induction false} BaseLenSame(s: Bytes, t: Bytes, k: nat)
    requires k <= BASE && k <= |t| && forall i: nat :: i <= |t| ==> CharAt(t, i) == CharAt(s, i)
    ensures BaseLen(s, k) == BaseLen(t, k) && BaseLen(t, k) <= |t|
    decreases BASE - k
  {
    assert CharAt(t, k) == CharAt(s, k);
    if k < BASE && CharAt(s, k) != 0 && CharAt(s, k) != DOT { BaseLenSame(s, t, k + 1); }
  }

  lemma {:induction false} ExtLenSame(s: Bytes, t: Bytes, i: nat, k: nat)
    requires k <= EXT && i + k <= |t| && forall j: nat :: j <= |t| ==> CharAt(t, j) == CharAt(s, j)
    ensures ExtLen(s, i, k) == ExtLen(t, i, k) && i + ExtLen(t, i, k) <= |t|
    decreases EXT - k
  {
    assert CharAt(t, i + k) == CharAt(s, i + k);
    if k < EXT && CharAt(s, i + k) != 0 { ExtLenSame(s, t, i, k + 1); }
  }

  // Cutting a name at its NUL does not change the file it names.
  lemma NormTillNul(s: Bytes)
    ensures Norm(TillNul(s)) == Norm(s)
  {
    var t := TillNul(s);
    forall i: nat | i <= |t| ensures CharAt(t, i) == CharAt(s, i) { TillNulAt(s, i); }
    BaseLenSame(s, t, 0);
    var b := BaseLen(t, 0);
    assert CharAt(t, b) == CharAt(s, b);
    if CharAt(t, b) == DOT { ExtLenSame(s, t, b + 1, 0); }
    FieldSame(s, t, 0, b, BASE);
    FieldSame(s, t, b + 1, ExtOf(t), EXT);
  }

  lemma FieldSame(s: Bytes, t: Bytes, i: nat, n: nat, w: nat)
    requires n == 0 || i + n <= |t|
    requires forall j: nat :: j <= |t| ==> CharAt(t, j) == CharAt(s, j)
    ensures Field(t, i, n, w) == Field(s, i, n, w)
  {
    forall k: nat | k < w ensures Field(t, i, n, w)[k] == Field(s, i, n, w)[k] {
      assert k < n ==> CharAt(t, i + k) == CharAt(s, i + k);
    }
  }

  // ------------------------------------------------------------------
  // One descriptor
  // ------------------------------------------------------------------

  // What the descriptor stands for: bytes, a position, and what close will do.
  datatype Desc = Desc(name: Bytes, bytes: Bytes, pos: nat, writable: bool, dirty: bool)

  predicate FileOk(f: OFile) {
    |f.data| == CAP && f.pos <= CAP && f.size <= CAP
  }

  function View(f: OFile): Desc
    requires FileOk(f)
  {
    Desc(f.name, f.data[..f.size], f.pos, f.writable, f.dirty)
  }

  // A transfer, or an access beyond the buffer.
  datatype Moved = Moved(f: OFile, bytes: Bytes) | Overrun

  // sys_read, the subtraction in 32-bit arithmetic.
  function ReadFile(f: OFile, len: nat): Moved
    requires FileOk(f)
  {
    var avail := (f.size - f.pos) % U32;
    var n := if len > avail then avail else len;
    if f.pos + n > CAP then Overrun else Moved(f.(pos := f.pos + n), f.data[f.pos..f.pos + n])
  }

  // sys_write_file
  function WriteFile(f: OFile, buf: Bytes): (r: OFile)
    requires FileOk(f)
    ensures FileOk(f)
  {
    var n := Min(|buf|, CAP - f.pos);
    var pos := f.pos + n;
    f.(data := Splice(f.data, f.pos, buf[..n]), pos := pos, size := if pos > f.size then pos else f.size, dirty := true)
  }

  // b with chunk written at p, growing at the end.
  function Splice(b: Bytes, p: nat, chunk: Bytes): (r: Bytes)
    requires p <= |b|
    ensures |r| == if p + |chunk| < |b| then |b| else p + |chunk|
  {
    b[..p] + chunk + if p + |chunk| < |b| then b[p + |chunk|..] else []
  }

  // Two's complement of a register.
  function Signed(x: nat): int { if x >= 0x8000_0000 then x - U32 else x }

  // The lseek case, in 32-bit signed arithmetic.
  function SeekTo(size: nat, pos: nat, off: nat, whence: nat): (np: nat)
    ensures np <= CAP
  {
    var base := if whence == 0 then 0 else if whence == 1 then pos else size;
    var np := Signed((base + off) % U32);
    if np < 0 then 0 else if np > CAP then CAP else np
  }

  // The plain file: a read copies from the position, a write splices there, up to CAP.
  function PlainRead(d: Desc, len: nat): (Desc, Bytes)
    requires d.pos <= |d.bytes|
  {
    var n := Min(len, |d.bytes| - d.pos);
    (d.(pos := d.pos + n), d.bytes[d.pos..d.pos + n])
  }

  function PlainWrite(d: Desc, buf: Bytes): (Desc, nat)
    requires d.pos <= |d.bytes| <= CAP
  {
    var n := Min(|buf|, CAP - d.pos);
    (d.(bytes := Splice(d.bytes, d.pos, buf[..n]), pos := d.pos + n, dirty := true), n)
  }

  // Reading gets the file's bytes exactly when the position has not been moved past the
  // end; past it the subtraction wraps and the caller gets bytes that are not the file's.
  lemma ReadIsPlainIff(f: OFile, len: nat)
    requires FileOk(f) && 0 < len <= MEM_END - MEM_START
    ensures f.pos <= f.size <==>
            (ReadFile(f, len).Moved? && |ReadFile(f, len).bytes| <= f.size - f.pos)
    ensures f.pos <= f.size ==> var r, p := ReadFile(f, len), PlainRead(View(f), len);
                                r.Moved? && (View(r.f), r.bytes) == p
    ensures f.pos > f.size && ReadFile(f, len).Moved? ==> ReadFile(f, len).bytes == f.data[f.pos..f.pos + len]
  {
    if f.pos <= f.size {
      assert (f.size - f.pos) % U32 == f.size - f.pos;
      var n := Min(len, f.size - f.pos);
      SliceOfPrefix(f.data, f.size, f.pos, f.pos + n);
    } else {
      assert (f.size - f.pos) % U32 == f.size - f.pos + U32;
    }
  }

  lemma SliceOfPrefix(b: Bytes, m: nat, lo: nat, hi: nat)
    requires lo <= hi <= m <= |b|
    ensures b[..m][lo..hi] == b[lo..hi]
  {
    forall i | 0 <= i < hi - lo ensures b[..m][lo..hi][i] == b[lo..hi][i] { }
  }

  // Writing at or before the end is a splice; past it the gap shows what the buffer held.
  lemma WriteIsPlain(f: OFile, buf: Bytes)
    requires FileOk(f)
    ensures FileOk(WriteFile(f, buf))
    ensures f.pos <= f.size ==> View(WriteFile(f, buf)) == PlainWrite(View(f), buf).0
                                && WriteFile(f, buf).pos <= WriteFile(f, buf).size
    ensures f.pos > f.size ==> var d := View(WriteFile(f, buf));
            |d.bytes| >= f.pos && d.bytes[f.size..f.pos] == f.data[f.size..f.pos]
  {
    var n := Min(|buf|, CAP - f.pos);
    var chunk := buf[..n];
    var g := WriteFile(f, buf);
    if f.pos <= f.size {
      assert g.data[..g.size] == Splice(f.data[..f.size], f.pos, chunk);
    } else {
      assert g.data[..g.size][f.size..f.pos] == f.data[f.size..f.pos];
    }
  }

  // ------------------------------------------------------------------
  // The plain machine
  // ------------------------------------------------------------------

  datatype Plain = Plain(fs: Spec, fds: map<nat, Desc>)

  datatype Call =
    | Open(addr: nat, name: Bytes, flags: nat)
    | Write(fd: nat, addr: nat, bytes: Bytes)
    | Read(fd: nat, addr: nat, len: nat)
    | Seek(fd: nat, off: nat, whence: nat)
    | Close(fd: nat)
    | Unlink(addr: nat, name: Bytes)
    | SizeCall(addr: nat, name: Bytes)

  datatype Ret = Failed | Num(n: nat) | Data(bytes: Bytes)

  predicate MayWriteFlag(flags: nat) { flags % 2 == 1 || flags / 2 % 2 == 1 || flags / 4 % 2 == 1 }
  predicate MayCreate(flags: nat) { flags / 2 % 2 == 1 }
  predicate Truncates(flags: nat) { flags / 4 % 2 == 1 }

  predicate PathOk(addr: nat, name: Bytes) { RangeOk(addr, |name|) && 0 < |name| <= NAME_MAX }

  // The lowest descriptor not in use.
  function FreeFd(fds: map<nat, Desc>, fd: nat): (r: nat)
    requires fd <= MAX_OPEN
    ensures fd <= r <= MAX_OPEN && (r < MAX_OPEN ==> r !in fds)
    decreases MAX_OPEN - fd
  {
    if fd < MAX_OPEN && fd in fds then FreeFd(fds, fd + 1) else fd
  }

  function OpenDesc(fs: Spec, name: Bytes, flags: nat): Desc {
    var key := Norm(name);
    var bytes := if key in fs.files && !Truncates(flags) then fs.files[key][..Min(|fs.files[key]|, CAP)] else [];
    Desc(TillNul(name), bytes, 0, MayWriteFlag(flags), Truncates(flags))
  }

  predicate PlainOk(p: Plain) {
    p.fs.cb > 0 && forall fd :: fd in p.fds ==> FIRST_FD <= fd < MAX_OPEN && p.fds[fd].pos <= |p.fds[fd].bytes| <= CAP
  }

  // Seeks stay inside the file, and no write-back loses a file by not fitting.
  predicate Tame(p: Plain, c: Call)
    requires PlainOk(p)
  {
    match c
    case Seek(fd, off, whence) => fd in p.fds ==>
        SeekTo(|p.fds[fd].bytes|, p.fds[fd].pos, off, whence) <= |p.fds[fd].bytes|
    case Close(fd) => fd in p.fds && p.fds[fd].dirty ==>
                        CharAt(p.fds[fd].name, 0) != DELETED && Safe(p.fs, Put(Norm(p.fds[fd].name), p.fds[fd].bytes))
    case _ => true
  }

  function WithDesc(p: Plain, fd: nat, d: Desc): (r: Plain)
    requires PlainOk(p) && FIRST_FD <= fd < MAX_OPEN && d.pos <= |d.bytes| <= CAP
    ensures PlainOk(r)
  {
    p.(fds := p.fds[fd := d])
  }

  function PlainStep(p: Plain, c: Call): (r: (Plain, Ret))
    requires PlainOk(p) && Tame(p, c)
    ensures PlainOk(r.0)
  {
    match c
    case Open(addr, name, flags) =>
      var fd := FreeFd(p.fds, FIRST_FD);
      if !PathOk(addr, name) || fd == MAX_OPEN || (Norm(name) !in p.fs.files && !MayCreate(flags)) then (p, Failed)
      else (WithDesc(p, fd, OpenDesc(p.fs, name, flags)), Num(fd))
    case Write(fd, addr, bytes) =>
      if fd < FIRST_FD then (p, if RangeOk(addr, |bytes|) then Num(|bytes|) else Failed)
      else if fd !in p.fds || !p.fds[fd].writable || !RangeOk(addr, |bytes|) then (p, Failed)
      else
        var (d, n) := PlainWrite(p.fds[fd], bytes);
        (WithDesc(p, fd, d), Num(n))
    case Read(fd, addr, len) =>
      if fd !in p.fds || !RangeOk(addr, len) then (p, Failed)
      else
        var (d, bytes) := PlainRead(p.fds[fd], len);
        (WithDesc(p, fd, d), Data(bytes))
    case Seek(fd, off, whence) =>
      if fd !in p.fds then (p, Failed)
      else
        var np := SeekTo(|p.fds[fd].bytes|, p.fds[fd].pos, off, whence);
        (WithDesc(p, fd, p.fds[fd].(pos := np)), Num(np))
    case Close(fd) =>
      if fd !in p.fds then (p, Failed)
      else if !p.fds[fd].dirty then (p.(fds := p.fds - {fd}), Num(0))
      else
        var (fs, a) := SpecStep(p.fs, Put(Norm(p.fds[fd].name), p.fds[fd].bytes));
        (Plain(fs, p.fds - {fd}), if a == Done(true) then Num(0) else Failed)
    case Unlink(addr, name) =>
      if !PathOk(addr, name) then (p, Failed)
      else
        var (fs, a) := SpecStep(p.fs, Remove(Norm(name)));
        (p.(fs := fs), if a == Done(true) then Num(0) else Failed)
    case SizeCall(addr, name) =>
      if !PathOk(addr, name) || Norm(name) !in p.fs.files then (p, Failed)
      else (p, Num(|p.fs.files[Norm(name)]|))
  }

  lemma SizeAnswer(p: Plain, addr: nat, name: Bytes)
    requires PlainOk(p) && PathOk(addr, name)
    ensures var (fs, a) := SpecStep(p.fs, Size(Norm(name)));
            fs == p.fs && PlainStep(p, SizeCall(addr, name)) == (p, if a.Sized? then Num(a.size) else Failed)
  {
  }

  predicate AllTame(p: Plain, calls: seq<Call>)
    requires PlainOk(p)
    decreases |calls|
  {
    |calls| == 0 || (Tame(p, calls[0]) && AllTame(PlainStep(p, calls[0]).0, calls[1..]))
  }

  function PlainRun(p: Plain, calls: seq<Call>): (r: (Plain, seq<Ret>))
    requires PlainOk(p) && AllTame(p, calls)
    ensures PlainOk(r.0)
    decreases |calls|
  {
    if |calls| == 0 then (p, [])
    else
      var (p1, a) := PlainStep(p, calls[0]);
      var (p2, rest) := PlainRun(p1, calls[1..]);
      (p2, [a] + rest)
  }

  // ------------------------------------------------------------------
  // Sessions
  // ------------------------------------------------------------------

  // What call c does to descriptor fd when it is open as d.
  function Edit(d: Desc, fd: nat, c: Call): (r: Desc)
    requires d.pos <= |d.bytes| <= CAP
    ensures |r.bytes| <= CAP
  {
    match c
    case Write(f, addr, bytes) => if f == fd && d.writable && RangeOk(addr, |bytes|) then PlainWrite(d, bytes).0 else d
    case Read(f, addr, len) => if f == fd && RangeOk(addr, len) then PlainRead(d, len).0 else d
    case Seek(f, off, whence) => if f == fd then d.(pos := SeekTo(|d.bytes|, d.pos, off, whence)) else d
    case _ => d
  }

  predicate EditsTame(d: Desc, fd: nat, calls: seq<Call>)
    requires d.pos <= |d.bytes| <= CAP
    decreases |calls|
  {
    |calls| == 0 || (var d1 := Edit(d, fd, calls[0]); d1.pos <= |d1.bytes| && EditsTame(d1, fd, calls[1..]))
  }

  function Edits(d: Desc, fd: nat, calls: seq<Call>): Desc
    requires d.pos <= |d.bytes| <= CAP && EditsTame(d, fd, calls)
    decreases |calls|
  {
    if |calls| == 0 then d else Edits(Edit(d, fd, calls[0]), fd, calls[1..])
  }

  lemma StepIsEdit(p: Plain, fd: nat, c: Call)
    requires PlainOk(p) && Tame(p, c) && fd in p.fds && c != Close(fd)
    ensures var p' := PlainStep(p, c).0; fd in p'.fds && p'.fds[fd] == Edit(p.fds[fd], fd, c)
  {
  }

  // An open descriptor changes by its own calls only, whatever other descriptors and
  // files do meanwhile.
  lemma {:induction false} DescriptorsAreSeparate(p: Plain, fd: nat, calls: seq<Call>)
    requires PlainOk(p) && AllTame(p, calls) && fd in p.fds && Close(fd) !in calls
    ensures EditsTame(p.fds[fd], fd, calls)
    ensures var p' := PlainRun(p, calls).0; fd in p'.fds && p'.fds[fd] == Edits(p.fds[fd], fd, calls)
    decreases |calls|
  {
    if |calls| > 0 {
      StepIsEdit(p, fd, calls[0]);
      DescriptorsAreSeparate(PlainStep(p, calls[0]).0, fd, calls[1..]);
    }
  }

  // Closing a modified descriptor, opening the file again and reading it gives the bytes
  // the descriptor held.
  lemma CloseOpenRead(p: Plain, fd: nat, addr: nat, name: Bytes, buf: nat, len: nat)
    requires PlainOk(p) && Tame(p, Close(fd)) && fd in p.fds && p.fds[fd].dirty && PlainStep(p, Close(fd)).1 == Num(0)
    requires PathOk(addr, name) && Norm(name) == Norm(p.fds[fd].name) && RangeOk(buf, len) && len >= CAP
    ensures var p1 := PlainStep(p, Close(fd)).0; var (p2, r) := PlainStep(p1, Open(addr, name, 0));
            r.Num? && PlainStep(p2, Read(r.n, buf, len)).1 == Data(p.fds[fd].bytes)
  {
    var p1 := PlainStep(p, Close(fd)).0;
    assert fd !in p1.fds;
    FreeFdBelow(p1.fds, FIRST_FD, fd);
    var d := OpenDesc(p1.fs, name, 0);
    assert d.bytes == p.fds[fd].bytes;
    assert d.bytes[0..|d.bytes|] == d.bytes;
  }

  lemma {:induction false} FreeFdBelow(fds: map<nat, Desc>, fd: nat, free: nat)
    requires fd <= free < MAX_OPEN && free !in fds
    ensures FreeFd(fds, fd) <= free
    decreases free - fd
  {
    if fd < free && fd in fds { FreeFdBelow(fds, fd + 1, free); }
  }

  // End to end: create or empty a file, edit it while other descriptors are used, close it,
  // open it again and read it.
  lemma EndToEnd(p: Plain, addr: nat, name: Bytes, flags: nat, calls: seq<Call>, buf: nat, len: nat)
    requires PlainOk(p) && PathOk(addr, name) && MayCreate(flags) && Truncates(flags)
    requires var (p1, r) := PlainStep(p, Open(addr, name, flags));
             && r.Num? && Close(r.n) !in calls && AllTame(p1, calls)
             && Tame(PlainRun(p1, calls).0, Close(r.n)) && PlainStep(PlainRun(p1, calls).0, Close(r.n)).1 == Num(0)
    requires RangeOk(buf, len) && len >= CAP
    ensures var (p1, r) := PlainStep(p, Open(addr, name, flags)); var fd := r.n;
            var empty := Desc(TillNul(name), [], 0, true, true);
            && EditsTame(empty, fd, calls)
            && var p2 := PlainStep(PlainRun(p1, calls).0, Close(fd)).0;
               var (p3, r3) := PlainStep(p2, Open(addr, name, 0));
               r3.Num? && PlainStep(p3, Read(r3.n, buf, len)).1 == Data(Edits(empty, fd, calls).bytes)
  {
    var (p1, r) := PlainStep(p, Open(addr, name, flags));
    var fd, empty := r.n, Desc(TillNul(name), [], 0, true, true);
    assert p1.fds[fd] == empty;
    DescriptorsAreSeparate(p1, fd, calls);
    EditsKeep(empty, fd, calls);
    NormTillNul(name);
    CloseOpenRead(PlainRun(p1, calls).0, fd, addr, name, buf, len);
  }

  lemma {:induction false} EditsKeep(d: Desc, fd: nat, calls: seq<Call>)
    requires d.pos <= |d.bytes| <= CAP && EditsTame(d, fd, calls)
    ensures var d' := Edits(d, fd, calls); d'.name == d.name && (d.dirty ==> d'.dirty)
    decreases |calls|
  {
    if |calls| > 0 { EditsKeep(Edit(d, fd, calls[0]), fd, calls[1..]); }
  }

  // ------------------------------------------------------------------
  // Where buffering shows
  // ------------------------------------------------------------------

  // Opening a name that does not exist with O_CREAT, and closing it again, makes an empty
  // file exactly when O_TRUNC was given too and a directory slot is free. Without O_TRUNC
  // the close succeeds and makes nothing.
  lemma CreateMakesFileIff(p: Plain, addr: nat, name: Bytes, flags: nat)
    requires PlainOk(p) && PathOk(addr, name) && FreeFd(p.fds, FIRST_FD) < MAX_OPEN && MayCreate(flags)
    requires Norm(name) !in p.fs.files && CharAt(name, 0) != DELETED
    ensures var (p1, r) := PlainStep(p, Open(addr, name, flags));
            && r.Num? && Tame(p1, Close(r.n))
            && var (p2, r2) := PlainStep(p1, Close(r.n));
               && (Norm(name) in p2.fs.files <==> Truncates(flags) && p.fs.slots > 0)
               && (Norm(name) in p2.fs.files ==> p2.fs.files == p.fs.files[Norm(name) := []])
               && (Norm(name) !in p2.fs.files ==> p2 == p)
               && (r2 == Num(0) <==> (Truncates(flags) ==> p.fs.slots > 0))
  {
    var fd := FreeFd(p.fds, FIRST_FD);
    var d := OpenDesc(p.fs, name, flags);
    NormTillNul(name);
    TillNulAt(name, 0);
    NoneNeeded(p.fs.cb);
    assert p.fds[fd := d] - {fd} == p.fds;
  }

  lemma NoneNeeded(cb: nat)
    requires cb > 0
    ensures Need(0, cb) == 0
  {
    FatInvariant.NeedCovers(0, cb);
  }

  // Opening a file for writing, writing nothing and closing keeps it exactly when it fits
  // the buffer; a longer file loses its tail.
  lemma RewriteKeepsFileIff(p: Plain, addr: nat, name: Bytes)
    requires PlainOk(p) && PathOk(addr, name) && FreeFd(p.fds, FIRST_FD) < MAX_OPEN && Norm(name) in p.fs.files
    requires CharAt(name, 0) != DELETED
    ensures var fd := FreeFd(p.fds, FIRST_FD);
            var p1 := PlainStep(p, Open(addr, name, 1)).0;
            var p2 := PlainStep(p1, Write(fd, addr, [])).0;
            Tame(p2, Close(fd))
            && (PlainStep(p2, Close(fd)).0.fs.files == p.fs.files <==> |p.fs.files[Norm(name)]| <= CAP)
  {
    var fd, key := FreeFd(p.fds, FIRST_FD), Norm(name);
    var file := p.fs.files[key];
    var p1 := PlainStep(p, Open(addr, name, 1)).0;
    var p2 := PlainStep(p1, Write(fd, addr, [])).0;
    NormTillNul(name);
    TillNulAt(name, 0);
    var cut := file[..Min(|file|, CAP)];
    assert p2.fs == p.fs && p2.fds[fd].dirty && p2.fds[fd].bytes == cut;
    CloseCuts(p2, fd, key, cut);
    if |file| <= CAP { assert cut == file; }
  }

  // A close that writes back a shorter version of a file.
  lemma CloseCuts(p: Plain, fd: nat, key: Bytes, cut: Bytes)
    requires PlainOk(p) && fd in p.fds && p.fds[fd].dirty && p.fds[fd].bytes == cut
    requires CharAt(p.fds[fd].name, 0) != DELETED && Norm(p.fds[fd].name) == key
    requires key in p.fs.files && |cut| <= |p.fs.files[key]|
    ensures Tame(p, Close(fd))
    ensures PlainStep(p, Close(fd)).0.fs.files == p.fs.files <==> p.fs.files[key] == cut
  {
    NeedShrinks(|cut|, |p.fs.files[key]|, p.fs.cb);
    assert PutFits(p.fs, key, cut);
    var files := PlainStep(p, Close(fd)).0.fs.files;
    assert files == p.fs.files[key := cut];
    if files == p.fs.files { assert files[key] == cut; }
  }

  lemma {:induction false} NeedShrinks(n: nat, m: nat, cb: nat)
    requires n <= m && cb > 0
    ensures Need(n, cb) <= Need(m, cb)
    decreases n
  {
    FatInvariant.NeedCovers(n, cb);
    FatInvariant.NeedCovers(m, cb);
    if n > cb { NeedShrinks(n - cb, m - cb, cb); }
  }
}
