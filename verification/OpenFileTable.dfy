// The descriptor table as the kernel keeps it: eight structures updated in place, over a
// mounted disk. Each system call does what the plain machine of OpenFiles does.

module OpenFileTable {
  import opened FatEntries
  import opened FatVolume
  import opened FatInvariant
  import opened FatRuns
  import opened FatNames
  import opened OpenFiles
  import FatDriver
  import FatService

  const MAX_CLUSTER: nat := 0x2_0000     // 255 sectors at most

  // The volume invariant, unfolded only where a proof mentions Sounding.
  ghost predicate Sound(v: Vol) {
    forall n: nat {:trigger Sounding(n)} :: Sounding(n) ==> Inv(v) && v.cb <= MAX_CLUSTER
  }

  ghost predicate Sounding(n: nat) { true }

  // ------------------------------------------------------------------
  // The table as a value
  // ------------------------------------------------------------------

  ghost predicate StatesOk(fs: seq<OFile>) {
    |fs| == MAX_OPEN && forall i :: 0 <= i < MAX_OPEN ==>
        FileOk(fs[i]) && (fs[i].used ==> FIRST_FD <= i && fs[i].pos <= fs[i].size)
  }

  ghost function FdsOf(fs: seq<OFile>): map<nat, Desc>
    requires StatesOk(fs)
  {
    map i: nat | i < MAX_OPEN && fs[i].used :: View(fs[i])
  }

  lemma FdsUpdate(fs: seq<OFile>, fd: nat, f: OFile)
    requires StatesOk(fs) && FIRST_FD <= fd < MAX_OPEN && FileOk(f) && (f.used ==> f.pos <= f.size)
    ensures StatesOk(fs[fd := f])
    ensures FdsOf(fs[fd := f]) == if f.used then FdsOf(fs)[fd := View(f)] else FdsOf(fs) - {fd}
  {
  }

  lemma Spliced(was: Bytes, now: Bytes, p: nat, chunk: Bytes)
    requires |now| == |was| && p + |chunk| <= |was|
    requires forall j :: 0 <= j < |was| ==> now[j] == if p <= j < p + |chunk| then chunk[j - p] else was[j]
    ensures now == Splice(was, p, chunk)
  {
    forall j | 0 <= j < |was| ensures Splice(was, p, chunk)[j] == now[j] { }
  }

  lemma FetchRefines(v: Vol, path: Bytes)
    requires Sound(v)
    ensures WellFormed(v) && FatDriver.Sane(v) && v.cb > 0 && FatDriver.GuardSuffices(v, Norm(path), CAP)
    ensures var fs := Abs(v).files; var key := Norm(path);
            FatVolume.Read(v, key, CAP) == if key in fs then Found(fs[key][..Min(|fs[key]|, CAP)]) else Missing
  {
    assert Sounding(0);
    FatService.InvIsSane(v);
    FatService.GuardNeverFires(v, Norm(path), CAP);
    ReadRefines(v, Norm(path), CAP);
  }

  // ------------------------------------------------------------------
  // One structure
  // ------------------------------------------------------------------

  class OpenFile {
    var used: bool
    var writable: bool
    var dirty: bool
    var size: nat
    var pos: nat
    var name: Bytes
    const data: array<byte>

    ghost function State(): OFile
      reads this, data
    {
      OFile(used, writable, dirty, size, pos, name, data[..])
    }

    constructor ()
      ensures fresh(data) && FileOk(State()) && !used
    {
      used, writable, dirty, size, pos, name := false, false, false, 0, 0, [];
      data := new byte[CAP](_ => 0);
    }

    // The loop of sys_read, with the position inside the file.
    method ReadBytes(len: nat) returns (got: Bytes)
      requires FileOk(State()) && pos <= size
      modifies this`pos
      ensures FileOk(State()) && State() == old(State()).(pos := pos) && pos <= size
      ensures (View(State()), got) == PlainRead(old(View(State())), len)
    {
      var n := if len > size - pos then size - pos else len;
      got := [];
      for i := 0 to n
        invariant got == data[pos..pos + i]
      {
        got := got + [data[pos + i]];
      }
      SliceOfPrefix(data[..], size, pos, pos + n);
      pos := pos + n;
    }

    // The loop of sys_write_file.
    method WriteBytes(buf: Bytes) returns (n: nat)
      requires FileOk(State())
      modifies this, data
      ensures State() == WriteFile(old(State()), buf) && n == Min(|buf|, CAP - old(pos))
    {
      n := if |buf| > CAP - pos then CAP - pos else |buf|;
      ghost var was := data[..];
      for i := 0 to n
        modifies data
        invariant forall j :: 0 <= j < CAP ==> data[j] == if pos <= j < pos + i then buf[j - pos] else was[j]
      {
        data[pos + i] := buf[i];
      }
      Spliced(was, data[..], pos, buf[..n]);
      pos := pos + n;
      if pos > size { size := pos; }
      dirty := true;
    }

    // The fields sys_open sets, once the buffer holds the first n bytes of the file.
    method Adopt(path: Bytes, n: nat, mayWrite: bool, empty: bool)
      requires data.Length == CAP && n <= CAP
      modifies this
      ensures FileOk(State()) && used && pos <= size
      ensures View(State()) == Desc(TillNul(path), if empty then [] else data[..n], 0, mayWrite, empty)
    {
      used, writable, dirty, size, pos := true, mayWrite, false, n, 0;
      if empty { size, dirty := 0, true; }
      name := TillNul(path);
    }
  }

  // ------------------------------------------------------------------
  // The table
  // ------------------------------------------------------------------

  class Table {
    const files: seq<OpenFile>
    const disk: FatDriver.Driver

    ghost function Parts(): set<object>
    {
      (set f | f in files :: f as object) + (set f | f in files :: f.data as object)
    }

    // Eight structures and their buffers, all different objects.
    ghost predicate Distinct() {
      && |files| == MAX_OPEN
      && (forall i, j :: 0 <= i < j < MAX_OPEN ==> files[i] != files[j] && files[i].data != files[j].data)
      && (forall i :: 0 <= i < MAX_OPEN ==> files[i].data != disk.secbuf)
    }

    ghost function States(): (r: seq<OFile>)
      reads Parts()
      ensures |r| == |files| && forall i :: 0 <= i < |r| ==> r[i] == files[i].State()
    {
      seq(|files|, i requires 0 <= i < |files| reads Parts() => assert files[i] in files; files[i].State())
    }

    ghost predicate Valid()
      reads Parts(), disk, disk.sectors
    {
      && Distinct() && StatesOk(States()) && disk.Ready() && disk.vol.cb > 0 && Sound(disk.vol)
    }

    ghost function AsPlain(): Plain
      reads Parts(), disk, disk.sectors
      requires Valid()
    {
      Plain(Abs(disk.vol), FdsOf(States()))
    }

    constructor (d: FatDriver.Driver)
      requires d.Ready() && Inv(d.vol) && d.vol.cb <= MAX_CLUSTER
      ensures disk == d && Valid() && AsPlain() == Plain(Abs(d.vol), map[])
      ensures fresh(Parts())
    {
      disk := d;
      var fs: seq<OpenFile> := [];
      while |fs| < MAX_OPEN
        invariant |fs| <= MAX_OPEN && forall i :: 0 <= i < |fs| ==> fresh(fs[i]) && fresh(fs[i].data)
        invariant forall i :: 0 <= i < |fs| ==> FileOk(fs[i].State()) && !fs[i].used
        invariant forall i, j :: 0 <= i < j < |fs| ==> fs[i] != fs[j] && fs[i].data != fs[j].data
      {
        var f := new OpenFile();
        fs := fs + [f];
      }
      files := fs;
    }

    // When one structure changes, the descriptors change at that one.
    lemma OneChanged(was: seq<OFile>, fd: nat)
      requires Distinct() && StatesOk(was) && FIRST_FD <= fd < MAX_OPEN
      requires FileOk(files[fd].State()) && (files[fd].used ==> files[fd].pos <= files[fd].size)
      requires forall i :: 0 <= i < MAX_OPEN && i != fd ==> files[i].State() == was[i]
      ensures StatesOk(States())
      ensures FdsOf(States()) == if files[fd].used then FdsOf(was)[fd := View(files[fd].State())] else FdsOf(was) - {fd}
    {
      assert States() == was[fd := files[fd].State()];
      FdsUpdate(was, fd, files[fd].State());
    }

    method ReadCall(fd: nat, addr: nat, len: nat) returns (r: Ret)
      requires Valid()
      modifies Parts()
      ensures Valid() && (AsPlain(), r) == PlainStep(old(AsPlain()), Read(fd, addr, len))
    {
      ghost var was := States();
      if fd >= MAX_OPEN || !files[fd].used || !RangeOk(addr, len) { return Failed; }
      var got := files[fd].ReadBytes(len);
      OneChanged(was, fd);
      r := Data(got);
    }

    method WriteCall(fd: nat, addr: nat, bytes: Bytes) returns (r: Ret)
      requires Valid()
      modifies Parts()
      ensures Valid() && (AsPlain(), r) == PlainStep(old(AsPlain()), Write(fd, addr, bytes))
    {
      if fd < FIRST_FD { return if RangeOk(addr, |bytes|) then Num(|bytes|) else Failed; }
      if fd >= MAX_OPEN || !files[fd].used || !files[fd].writable || !RangeOk(addr, |bytes|) { return Failed; }
      var n := StoreAt(fd, bytes);
      r := Num(n);
    }

    method StoreAt(fd: nat, bytes: Bytes) returns (n: nat)
      requires Valid() && FIRST_FD <= fd < MAX_OPEN && files[fd].used
      modifies Parts()
      ensures Valid() && fd in old(AsPlain()).fds && old(AsPlain()).fds[fd].pos <= |old(AsPlain()).fds[fd].bytes| <= CAP
      ensures var p := old(AsPlain()); var (d, m) := PlainWrite(p.fds[fd], bytes);
              AsPlain() == p.(fds := p.fds[fd := d]) && n == m
    {
      ghost var was := States();
      WriteIsPlain(files[fd].State(), bytes);
      n := files[fd].WriteBytes(bytes);
      OneChanged(was, fd);
    }

    method SeekCall(fd: nat, off: nat, whence: nat) returns (r: Ret)
      requires Valid() && Tame(AsPlain(), Seek(fd, off, whence))
      modifies Parts()
      ensures Valid() && (AsPlain(), r) == PlainStep(old(AsPlain()), Seek(fd, off, whence))
    {
      ghost var was := States();
      if fd >= MAX_OPEN || !files[fd].used { return Failed; }
      files[fd].pos := SeekTo(files[fd].size, files[fd].pos, off, whence);
      OneChanged(was, fd);
      r := Num(files[fd].pos);
    }

    // A file-system call; the descriptors do not change.
    method Ask(c: FatService.Call) returns (a: Answer)
      requires Valid() && FatService.CallOk(c, MAX_CLUSTER) && Safe(Abs(disk.vol), FatService.OpOf(c))
      modifies disk.sectors, disk.secbuf, disk`vol
      ensures Valid() && States() == old(States())
      ensures (Abs(disk.vol), a) == SpecStep(old(Abs(disk.vol)), FatService.OpOf(c))
    {
      assert Sounding(0);
      ghost var was := States();
      a := FatService.Perform(disk, c);
      assert States() == was;
    }

    // alloc_fd
    method AllocFd() returns (fd: nat)
      requires Valid()
      ensures fd == FreeFd(FdsOf(States()), FIRST_FD)
    {
      fd := FIRST_FD;
      while fd < MAX_OPEN && files[fd].used
        invariant FIRST_FD <= fd <= MAX_OPEN && FreeFd(FdsOf(States()), FIRST_FD) == FreeFd(FdsOf(States()), fd)
      {
        fd := fd + 1;
      }
    }

    method OpenCall(addr: nat, path: Bytes, flags: nat) returns (r: Ret)
      requires Valid()
      modifies Parts(), disk.secbuf
      ensures Valid() && (AsPlain(), r) == PlainStep(old(AsPlain()), Open(addr, path, flags))
    {
      if !PathOk(addr, path) { return Failed; }
      var fd := AllocFd();
      if fd == MAX_OPEN { return Failed; }
      var ok := LoadInto(fd, path, flags);
      r := if ok then Num(fd) else Failed;
    }

    // Fill structure fd from the disk, unless there is no such file and none may be made.
    method LoadInto(fd: nat, path: Bytes, flags: nat) returns (ok: bool)
      requires Valid() && FIRST_FD <= fd < MAX_OPEN && !files[fd].used
      modifies Parts(), disk.secbuf
      ensures Valid() && ok == (Norm(path) in old(AsPlain()).fs.files || MayCreate(flags))
      ensures var p := old(AsPlain());
              AsPlain() == if ok then p.(fds := p.fds[fd := OpenDesc(p.fs, path, flags)]) else p
    {
      var found, size := FetchInto(fd, path);
      ok := found || MayCreate(flags);
      if ok {
        ghost var was, fs := States(), Abs(disk.vol);
        files[fd].Adopt(path, if found then size else 0, MayWriteFlag(flags), Truncates(flags));
        assert View(files[fd].State()) == OpenDesc(fs, path, flags);
        OneChanged(was, fd);
      }
    }

    // The buffer of an unused structure gets the head of the file; no descriptor changes.
    method FetchInto(fd: nat, path: Bytes) returns (found: bool, size: nat)
      requires Valid() && FIRST_FD <= fd < MAX_OPEN && !files[fd].used
      modifies files[fd].data, disk.secbuf
      ensures Valid() && AsPlain() == old(AsPlain()) && found == (Norm(path) in AsPlain().fs.files) && size <= CAP
      ensures found ==> var file := AsPlain().fs.files[Norm(path)];
              files[fd].data[..size] == file[..Min(|file|, CAP)]
    {
      ghost var was := States();
      assert fd !in FdsOf(was);
      FetchRefines(disk.vol, path);
      found, size := disk.FatRead(path, files[fd].data, CAP);
      OneChanged(was, fd);
    }

    // sys_close; the dirty flag sys_sync clears is cleared with the rest.
    method CloseCall(fd: nat) returns (r: Ret)
      requires Valid() && Tame(AsPlain(), Close(fd))
      modifies Parts(), disk.sectors, disk.secbuf, disk`vol
      ensures Valid() && (AsPlain(), r) == PlainStep(old(AsPlain()), Close(fd))
    {
      if fd >= MAX_OPEN || !files[fd].used { return Failed; }
      r := WriteBack(fd);
      Release(fd);
    }

    // The fat_write of sys_sync.
    method WriteBack(fd: nat) returns (r: Ret)
      requires Valid() && Tame(AsPlain(), Close(fd)) && FIRST_FD <= fd < MAX_OPEN && files[fd].used
      modifies disk.sectors, disk.secbuf, disk`vol
      ensures Valid() && fd in old(AsPlain()).fds && FdsOf(States()) == old(FdsOf(States()))
      ensures (Plain(AsPlain().fs, old(AsPlain()).fds - {fd}), r) == PlainStep(old(AsPlain()), Close(fd))
    {
      var f := files[fd];
      if !f.dirty { return Num(0); }
      var a := Ask(FatService.PutFile(f.name, f.data[..f.size]));
      r := if a == Done(true) then Num(0) else Failed;
    }

    method Release(fd: nat)
      requires Valid() && FIRST_FD <= fd < MAX_OPEN
      modifies Parts()
      ensures Valid() && AsPlain() == old(AsPlain()).(fds := old(AsPlain()).fds - {fd})
    {
      ghost var was := States();
      var f := files[fd];
      f.used, f.writable, f.dirty := false, false, false;
      OneChanged(was, fd);
    }

    method UnlinkCall(addr: nat, path: Bytes) returns (r: Ret)
      requires Valid()
      modifies disk.sectors, disk.secbuf, disk`vol
      ensures Valid() && (AsPlain(), r) == PlainStep(old(AsPlain()), Unlink(addr, path))
    {
      if !PathOk(addr, path) { return Failed; }
      var a := Ask(FatService.RemoveFile(path));
      r := if a == Done(true) then Num(0) else Failed;
    }

    method StatCall(addr: nat, path: Bytes) returns (r: Ret)
      requires Valid()
      modifies disk.sectors, disk.secbuf, disk`vol
      ensures Valid() && (AsPlain(), r) == PlainStep(old(AsPlain()), SizeCall(addr, path))
    {
      if !PathOk(addr, path) { return Failed; }
      SizeAnswer(AsPlain(), addr, path);
      var a := Ask(FatService.SizeOf(path));
      r := if a.Sized? then Num(a.size) else Failed;
    }

    method Dispatch(c: Call) returns (r: Ret)
      requires Valid() && Tame(AsPlain(), c)
      modifies Parts(), disk.sectors, disk.secbuf, disk`vol
      ensures Valid() && (AsPlain(), r) == PlainStep(old(AsPlain()), c)
    {
      match c {
        case Open(addr, name, flags) => r := OpenCall(addr, name, flags);
        case Write(fd, addr, bytes) => r := WriteCall(fd, addr, bytes);
        case Read(fd, addr, len) => r := ReadCall(fd, addr, len);
        case Seek(fd, off, whence) => r := SeekCall(fd, off, whence);
        case Close(fd) => r := CloseCall(fd);
        case Unlink(addr, name) => r := UnlinkCall(addr, name);
        case SizeCall(addr, name) => r := StatCall(addr, name);
      }
    }

    // Any sequence of tame calls gets the answers of the plain machine.
    method Serve(calls: seq<Call>) returns (answers: seq<Ret>)
      requires Valid() && AllTame(AsPlain(), calls)
      modifies Parts(), disk.sectors, disk.secbuf, disk`vol
      ensures Valid() && (AsPlain(), answers) == PlainRun(old(AsPlain()), calls)
      decreases |calls|
    {
      if |calls| == 0 { return []; }
      var a := Dispatch(calls[0]);
      var rest := Serve(calls[1..]);
      answers := [a] + rest;
    }
  }
}
