// What a program can rely on when it opens, reads, writes and seeks: laws of the plain
// machine that say, in bytes and numbers, where each call leaves a descriptor.

module OpenFileLaws {
  import opened FatVolume
  import opened FatCreate
  import opened FatRuns
  import opened FatNames
  import opened OpenFiles

  // Descriptor fd is open as d, and nothing else is different from p.
  predicate Now(p: Plain, p': Plain, fd: nat, d: Desc) { p' == p.(fds := p.fds[fd := d]) }

  // Every byte of the caller's buffer is in the user window.
  predicate Buffer(addr: nat, len: nat) { 0x20_0000 <= addr && addr + len <= 0x30_0000 }

  // ------------------------------------------------------------------
  // One call
  // ------------------------------------------------------------------

  // A read gives the bytes from the position on, as many as asked for or as there are, and
  // moves the position past them.
  lemma ReadGives(p: Plain, fd: nat, addr: nat, len: nat)
    requires PlainOk(p) && fd in p.fds && Buffer(addr, len)
    ensures var d, (p', r) := p.fds[fd], PlainStep(p, Read(fd, addr, len));
            && r.Data? && |r.bytes| == (if d.pos + len <= |d.bytes| then len else |d.bytes| - d.pos)
            && (forall j :: 0 <= j < |r.bytes| ==> r.bytes[j] == d.bytes[d.pos + j])
            && Now(p, p', fd, d.(pos := d.pos + |r.bytes|))
  {
  }

  // A write to a descriptor that allows it stores bytes at the position, up to 2048 bytes of
  // file, leaves every other byte, and moves the position past what it stored.
  lemma WriteGives(p: Plain, fd: nat, addr: nat, b: Bytes)
    requires PlainOk(p) && fd in p.fds && fd >= 3 && p.fds[fd].writable && Buffer(addr, |b|)
    ensures var d, (p', r) := p.fds[fd], PlainStep(p, Write(fd, addr, b));
            && r == Num(if d.pos + |b| <= 2048 then |b| else 2048 - d.pos)
            && fd in p'.fds && var d' := p'.fds[fd];
               && |d'.bytes| == (if d.pos + r.n > |d.bytes| then d.pos + r.n else |d.bytes|)
               && (forall j :: 0 <= j < |d'.bytes| ==>
                     d'.bytes[j] == if d.pos <= j < d.pos + r.n then b[j - d.pos] else d.bytes[j])
               && Now(p, p', fd, d.(bytes := d'.bytes, pos := d.pos + r.n, dirty := true))
  {
  }

  // A descriptor opened for reading only cannot be written, and the console takes any bytes.
  lemma WriteRefused(p: Plain, fd: nat, addr: nat, b: Bytes)
    requires PlainOk(p)
    ensures fd in p.fds && !p.fds[fd].writable ==> PlainStep(p, Write(fd, addr, b)) == (p, Failed)
    ensures fd < 3 && Buffer(addr, |b|) ==> PlainStep(p, Write(fd, addr, b)) == (p, Num(|b|))
    ensures fd >= 3 && fd !in p.fds ==> PlainStep(p, Write(fd, addr, b)) == (p, Failed)
  {
  }

  // SEEK_SET, SEEK_CUR and SEEK_END with an offset that leads inside the file.
  lemma SeekGives(p: Plain, fd: nat, off: int, whence: nat)
    requires PlainOk(p) && fd in p.fds && -0x8000_0000 <= off < 0x8000_0000
    requires 0 <= off + (if whence == 0 then 0 else if whence == 1 then p.fds[fd].pos else |p.fds[fd].bytes|)
               <= |p.fds[fd].bytes|
    ensures var reg: nat := if off < 0 then off + 0x1_0000_0000 else off;
            var np := off + (if whence == 0 then 0 else if whence == 1 then p.fds[fd].pos else |p.fds[fd].bytes|);
            && Tame(p, Seek(fd, reg, whence))
            && PlainStep(p, Seek(fd, reg, whence)).1 == Num(np)
            && Now(p, PlainStep(p, Seek(fd, reg, whence)).0, fd, p.fds[fd].(pos := np))
  {
    var d := p.fds[fd];
    var reg: nat := if off < 0 then off + 0x1_0000_0000 else off;
    SeekInside(|d.bytes|, d.pos, off, reg, whence);
  }

  lemma SeekInside(size: nat, pos: nat, off: int, reg: nat, whence: nat)
    requires pos <= size <= 2048 && -0x8000_0000 <= off < 0x8000_0000
    requires reg == if off < 0 then off + 0x1_0000_0000 else off
    requires 0 <= off + (if whence == 0 then 0 else if whence == 1 then pos else size) <= size
    ensures SeekTo(size, pos, reg, whence) == off + (if whence == 0 then 0 else if whence == 1 then pos else size)
  {
  }

  // Where any seek lands: before the start is the start, past 2048 is 2048, and a sum past
  // the largest 32-bit integer is the start again.
  lemma SeekLands(size: nat, pos: nat, off: int, whence: nat)
    requires pos <= 2048 && size <= 2048 && -0x8000_0000 <= off < 0x8000_0000
    ensures var to := off + (if whence == 0 then 0 else if whence == 1 then pos else size);
            SeekTo(size, pos, if off < 0 then off + 0x1_0000_0000 else off, whence)
            == if to < 0 || to >= 0x8000_0000 then 0 else if to > 2048 then 2048 else to
  {
  }

  // Opening takes the lowest free descriptor from 3 to 7. It fails when there is none, when
  // the name is empty, too long or out of bounds, and when the file is missing and O_CREAT
  // is not given.
  lemma OpenGives(p: Plain, addr: nat, name: Bytes, flags: nat)
    requires PlainOk(p) && Buffer(addr, |name|)
    ensures var (p', r) := PlainStep(p, Open(addr, name, flags)); var there := Norm(name) in p.fs.files;
            && (r == Failed <==> || |name| == 0 || |name| > 31 || (forall fd: nat :: 3 <= fd < 8 ==> fd in p.fds)
                                 || (!there && flags / 2 % 2 == 0))
            && (r == Failed ==> p' == p)
            && (r != Failed ==>
                  && r.Num? && 3 <= r.n < 8 && r.n !in p.fds && (forall fd: nat :: 3 <= fd < r.n ==> fd in p.fds)
                  && r.n in p'.fds && var d := p'.fds[r.n];
                     && Now(p, p', r.n, d) && d.pos == 0 && (d.writable <==> flags % 8 != 0)
                     && (d.dirty <==> flags / 4 % 2 == 1)
                     && d.bytes == if there && flags / 4 % 2 == 0 then Head(p.fs.files[Norm(name)]) else [])
  {
    FreeFdLowest(p.fds, 3);
    FlagBits(flags);
  }

  // The first 2048 bytes.
  function Head(b: Bytes): Bytes { if |b| <= 2048 then b else b[..2048] }

  lemma FlagBits(flags: nat)
    ensures MayWriteFlag(flags) <==> flags % 8 != 0
  {
    LowBits(flags / 8, flags % 8);
  }

  lemma LowBits(q: nat, f: nat)
    requires f < 8
    ensures MayWriteFlag(8 * q + f) <==> f != 0
  {
    assert (8 * q + f) / 2 == 4 * q + f / 2 && (8 * q + f) / 4 == 2 * q + f / 4;
  }

  lemma {:induction false} FreeFdLowest(fds: map<nat, Desc>, fd: nat)
    requires fd <= MAX_OPEN
    ensures forall j: nat :: fd <= j < FreeFd(fds, fd) ==> j in fds
    decreases MAX_OPEN - fd
  {
    if fd < MAX_OPEN && fd in fds { FreeFdLowest(fds, fd + 1); }
  }

  // The closes the laws speak of: all but those that store under a name with the deleted
  // mark, and those that would replace a file that is not empty and do not fit.
  lemma CloseTame(p: Plain, fd: nat)
    requires PlainOk(p) && fd in p.fds
    ensures var d := p.fds[fd]; var key := Norm(d.name);
            Tame(p, Close(fd)) <==>
            || !d.dirty
            || (CharAt(d.name, 0) != 0xE5
                && (key in p.fs.files && |p.fs.files[key]| > 0 ==>
                      (|d.bytes| + p.fs.cb - 1) / p.fs.cb
                      <= p.fs.clusters + (|p.fs.files[key]| + p.fs.cb - 1) / p.fs.cb))
  {
  }

  // Unlinking removes the file and no other; what is open stays open.
  lemma UnlinkGives(p: Plain, addr: nat, name: Bytes)
    requires PlainOk(p) && Buffer(addr, |name|) && 0 < |name| <= 31
    ensures var (p', r) := PlainStep(p, Unlink(addr, name));
            && p'.fds == p.fds && p'.fs.files == p.fs.files - {Norm(name)}
            && r == if Norm(name) in p.fs.files then Num(0) else Failed
  {
  }

  // Stat answers the file's size, and changes nothing.
  lemma SizeGives(p: Plain, addr: nat, name: Bytes)
    requires PlainOk(p) && Buffer(addr, |name|) && 0 < |name| <= 31
    ensures PlainStep(p, SizeCall(addr, name))
            == (p, if Norm(name) in p.fs.files then Num(|p.fs.files[Norm(name)]|) else Failed)
  {
  }

  // Closing frees the descriptor. What was modified becomes the file's contents, or nothing
  // changes and the close fails; what was not modified is not written.
  lemma CloseGives(p: Plain, fd: nat)
    requires PlainOk(p) && fd in p.fds && Tame(p, Close(fd))
    ensures var d, (p', r) := p.fds[fd], PlainStep(p, Close(fd));
            && p'.fds == p.fds - {fd} && (r == Num(0) || r == Failed)
            && (!d.dirty ==> r == Num(0) && p'.fs == p.fs)
            && (d.dirty && r == Num(0) ==> p'.fs.files == p.fs.files[Norm(d.name) := d.bytes])
            && (r == Failed ==> p'.fs == p.fs)
  {
  }

  // ------------------------------------------------------------------
  // Calls in a row
  // ------------------------------------------------------------------

  // Rewinding to n and reading gives the bytes from n on.
  lemma RewindAndRead(p: Plain, fd: nat, n: nat, addr: nat, len: nat)
    requires PlainOk(p) && fd in p.fds && n <= |p.fds[fd].bytes| && Buffer(addr, len)
    ensures Tame(p, Seek(fd, n, 0))
    ensures var p1 := PlainStep(p, Seek(fd, n, 0)).0; var b := p.fds[fd].bytes;
            PlainStep(p1, Read(fd, addr, len)).1 == Data(if n + len <= |b| then b[n..n + len] else b[n..])
  {
    SeekGives(p, fd, n, 0);
    var p1, b := PlainStep(p, Seek(fd, n, 0)).0, p.fds[fd].bytes;
    ReadGives(p1, fd, addr, len);
    var r := PlainStep(p1, Read(fd, addr, len)).1;
    assert r.bytes == if n + len <= |b| then b[n..n + len] else b[n..];
  }

  lemma RewindAndReadAll(p: Plain, fd: nat, addr: nat, len: nat, b: Bytes)
    requires PlainOk(p) && fd in p.fds && p.fds[fd].bytes == b && Buffer(addr, len) && len >= |b|
    ensures Tame(p, Seek(fd, 0, 0))
    ensures PlainStep(PlainStep(p, Seek(fd, 0, 0)).0, Read(fd, addr, len)).1 == Data(b)
  {
    RewindAndRead(p, fd, 0, addr, len);
    assert b[0..] == b && (len == |b| ==> b[0..len] == b);
  }

  // Seeking to the end and writing appends.
  lemma SeekEndAppends(p: Plain, fd: nat, addr: nat, b: Bytes)
    requires PlainOk(p) && fd in p.fds && fd >= 3 && p.fds[fd].writable && Buffer(addr, |b|)
    requires |p.fds[fd].bytes| + |b| <= 2048
    ensures Tame(p, Seek(fd, 0, 2))
    ensures var p1 := PlainStep(p, Seek(fd, 0, 2)).0; var (p2, r) := PlainStep(p1, Write(fd, addr, b));
            r == Num(|b|) && fd in p2.fds && p2.fds[fd].bytes == p.fds[fd].bytes + b
  {
    SeekGives(p, fd, 0, 2);
    var p1 := PlainStep(p, Seek(fd, 0, 2)).0;
    WriteGives(p1, fd, addr, b);
    assert PlainStep(p1, Write(fd, addr, b)).0.fds[fd].bytes == p.fds[fd].bytes + b;
  }

  // Stepping back over what a read gave and reading again gives the same bytes.
  lemma StepBackAndRead(p: Plain, fd: nat, addr: nat, len: nat)
    requires PlainOk(p) && fd in p.fds && Buffer(addr, len)
    ensures var (p1, r) := PlainStep(p, Read(fd, addr, len));
            && r.Data? && |r.bytes| <= 2048
            && var back: nat := if |r.bytes| == 0 then 0 else 0x1_0000_0000 - |r.bytes|;
               && Tame(p1, Seek(fd, back, 1))
               && var p2 := PlainStep(p1, Seek(fd, back, 1)).0;
                  p2 == p && PlainStep(p2, Read(fd, addr, len)).1 == r
  {
    ReadGives(p, fd, addr, len);
    var (p1, r) := PlainStep(p, Read(fd, addr, len));
    SeekGives(p1, fd, -|r.bytes|, 1);
    assert p.fds[fd].(pos := p.fds[fd].pos) == p.fds[fd];
    assert p.fds[fd := p.fds[fd]] == p.fds;
  }

  // Two reads in a row are one read of both lengths.
  lemma ReadsJoin(p: Plain, fd: nat, addr: nat, m: nat, n: nat)
    requires PlainOk(p) && fd in p.fds && Buffer(addr, m + n)
    ensures var (p1, r1) := PlainStep(p, Read(fd, addr, m)); var (p2, r2) := PlainStep(p1, Read(fd, addr + m, n));
            r1.Data? && r2.Data? && PlainStep(p, Read(fd, addr, m + n)) == (p2, Data(r1.bytes + r2.bytes))
  {
    var d := p.fds[fd];
    var (d1, b1) := PlainRead(d, m);
    var (d2, b2) := PlainRead(d1, n);
    PlainReadsJoin(d, m, n);
    ReadIs(p, fd, addr, m, d1, b1);
    var p1 := p.(fds := p.fds[fd := d1]);
    ReadIs(p1, fd, addr + m, n, d2, b2);
    ReadIs(p, fd, addr, m + n, d2, b1 + b2);
    NowTwice(p, p1, p1.(fds := p1.fds[fd := d2]), fd, d1, d2);
  }

  lemma PlainReadsJoin(d: Desc, m: nat, n: nat)
    requires d.pos <= |d.bytes|
    ensures var (d1, b1) := PlainRead(d, m); var (d2, b2) := PlainRead(d1, n); PlainRead(d, m + n) == (d2, b1 + b2)
  {
    var x, y := Min(m, |d.bytes| - d.pos), Min(m + n, |d.bytes| - d.pos);
    assert d.bytes[d.pos..d.pos + y] == d.bytes[d.pos..d.pos + x] + d.bytes[d.pos + x..d.pos + y];
  }

  lemma ReadIs(p: Plain, fd: nat, addr: nat, len: nat, d: Desc, b: Bytes)
    requires PlainOk(p) && fd in p.fds && Buffer(addr, len) && (d, b) == PlainRead(p.fds[fd], len)
    ensures PlainStep(p, Read(fd, addr, len)) == (p.(fds := p.fds[fd := d]), Data(b))
    ensures PlainOk(p.(fds := p.fds[fd := d]))
  {
  }

  lemma NowTwice(p: Plain, p1: Plain, p2: Plain, fd: nat, d1: Desc, d2: Desc)
    requires Now(p, p1, fd, d1) && Now(p1, p2, fd, d2)
    ensures Now(p, p2, fd, d2)
  {
    assert p.fds[fd := d1][fd := d2] == p.fds[fd := d2];
  }

  // What is written is read back from the same place.
  lemma WriteAndRead(p: Plain, fd: nat, addr: nat, b: Bytes, buf: nat)
    requires PlainOk(p) && fd in p.fds && fd >= 3 && p.fds[fd].writable && Buffer(addr, |b|) && Buffer(buf, |b|)
    requires p.fds[fd].pos + |b| <= 2048
    ensures var at := p.fds[fd].pos; var p1 := PlainStep(p, Write(fd, addr, b)).0;
            && Tame(p1, Seek(fd, at, 0))
            && var p2 := PlainStep(p1, Seek(fd, at, 0)).0; PlainStep(p2, Read(fd, buf, |b|)).1 == Data(b)
  {
    WriteGives(p, fd, addr, b);
    var p1 := PlainStep(p, Write(fd, addr, b)).0;
    RewindAndRead(p1, fd, p.fds[fd].pos, buf, |b|);
    var at := p.fds[fd].pos;
    assert p1.fds[fd].bytes[at..at + |b|] == b;
  }

  // ------------------------------------------------------------------
  // A log
  // ------------------------------------------------------------------

  function Concat(lines: seq<Bytes>): Bytes {
    if |lines| == 0 then [] else Concat(lines[..|lines| - 1]) + lines[|lines| - 1]
  }

  function Writes(fd: nat, addr: nat, lines: seq<Bytes>): (calls: seq<Call>)
    ensures |calls| == |lines|
  {
    if |lines| == 0 then [] else Writes(fd, addr, lines[..|lines| - 1]) + [Write(fd, addr, lines[|lines| - 1])]
  }

  // One more call at the end of a run.
  lemma {:induction false} RunMore(p: Plain, calls: seq<Call>, c: Call)
    requires PlainOk(p) && AllTame(p, calls) && Tame(PlainRun(p, calls).0, c)
    ensures AllTame(p, calls + [c]) && PlainRun(p, calls + [c]).0 == PlainStep(PlainRun(p, calls).0, c).0
    decreases |calls|
  {
    if |calls| == 0 {
      assert calls + [c] == [c] && [c][1..] == [];
    } else {
      RunMore(PlainStep(p, calls[0]).0, calls[1..], c);
      assert (calls + [c])[1..] == calls[1..] + [c];
    }
  }

  // Lines written one after the other to an empty file make their concatenation.
  lemma {:induction false} LinesAppend(p: Plain, fd: nat, addr: nat, lines: seq<Bytes>)
    requires PlainOk(p) && fd in p.fds && fd >= 3 && p.fds[fd].writable && p.fds[fd].bytes == []
    requires |Concat(lines)| <= 2048 && forall j :: 0 <= j < |lines| ==> Buffer(addr, |lines[j]|)
    ensures AllTame(p, Writes(fd, addr, lines))
    ensures var p' := PlainRun(p, Writes(fd, addr, lines)).0;
            && fd in p'.fds && p'.fds[fd].bytes == Concat(lines) && p'.fds[fd].pos == |Concat(lines)|
            && p'.fds[fd].writable && p'.fs == p.fs
    decreases |lines|
  {
    if |lines| > 0 {
      var front, last := lines[..|lines| - 1], lines[|lines| - 1];
      LinesAppend(p, fd, addr, front);
      var p1 := PlainRun(p, Writes(fd, addr, front)).0;
      RunMore(p, Writes(fd, addr, front), Write(fd, addr, last));
      AppendOne(p1, fd, addr, Concat(front), last);
    }
  }

  lemma AppendOne(p: Plain, fd: nat, addr: nat, so: Bytes, b: Bytes)
    requires PlainOk(p) && fd in p.fds && fd >= 3 && p.fds[fd].writable && Buffer(addr, |b|)
    requires p.fds[fd].bytes == so && p.fds[fd].pos == |so| && |so| + |b| <= 2048
    ensures var p' := PlainStep(p, Write(fd, addr, b)).0;
            && fd in p'.fds && p'.fds[fd].bytes == so + b && p'.fds[fd].pos == |so + b|
            && p'.fds[fd].writable && p'.fs == p.fs
  {
    WriteGives(p, fd, addr, b);
    assert PlainStep(p, Write(fd, addr, b)).0.fds[fd].bytes == so + b;
  }

  // A program that creates a file, writes lines to it, rewinds and reads gets the lines.
  lemma LogReadBack(p: Plain, fd: nat, addr: nat, lines: seq<Bytes>, buf: nat, len: nat)
    requires PlainOk(p) && fd in p.fds && fd >= 3 && p.fds[fd].writable && p.fds[fd].bytes == []
    requires |Concat(lines)| <= 2048 && forall j :: 0 <= j < |lines| ==> Buffer(addr, |lines[j]|)
    requires Buffer(buf, len) && len >= |Concat(lines)|
    ensures AllTame(p, Writes(fd, addr, lines))
    ensures var p1 := PlainRun(p, Writes(fd, addr, lines)).0;
            && Tame(p1, Seek(fd, 0, 0))
            && var p2 := PlainStep(p1, Seek(fd, 0, 0)).0; PlainStep(p2, Read(fd, buf, len)).1 == Data(Concat(lines))
  {
    LinesAppend(p, fd, addr, lines);
    var p1 := PlainRun(p, Writes(fd, addr, lines)).0;
    RewindAndReadAll(p1, fd, buf, len, Concat(lines));
  }
}
