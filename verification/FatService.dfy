// From sectors to names: a mounted driver, given any sequence of calls by file name,
// answers like the map machine of FatRuns.

module FatService {
  import opened FatEntries
  import opened FatChains
  import opened FatVolume
  import opened FatInvariant
  import opened FatCreate
  import opened FatRuns
  import opened FatNames
  import FatLayout
  import FatDriver
  import FatImage
  import FatBuilder

  // A volume that satisfies the invariant is one the driver can work on.
  lemma InvIsSane(v: Vol)
    requires Inv(v)
    ensures FatDriver.Sane(v)
  {
    LinksInRange(v);
    forall k | 0 <= k < |v.dir| && InUse(v.dir[k]) ensures LinkOk(v.fat, SlotFirst(v.dir[k])) {
      assert FileAt(v, k) && SlotOk(v, k);
    }
  }

  lemma {:induction false} DistinctFit(s: seq<nat>, m: nat)
    requires forall i :: 0 <= i < |s| ==> s[i] < m
    requires forall i, j :: 0 <= i < j < |s| ==> s[i] != s[j]
    ensures |s| <= m
    decreases m
  {
    if i :| 0 <= i < |s| && s[i] == m - 1 {
      DistinctFit(s[..i] + s[i + 1..], m - 1);
    } else if |s| > 0 && s[0] < m {
      DistinctFit(s, m - 1);
    }
  }

  lemma ChainShort(v: Vol, k: nat)
    requires Inv(v) && FileAt(v, k)
    ensures Need(SlotSize(v.dir[k]), v.cb) <= CHAIN_END
  {
    assert SlotOk(v, k);
    DistinctFit(Chain(v, k), |v.fat|);
  }

  lemma SizeFits(size: nat, cb: nat)
    requires cb > 0 && Need(size, cb) <= FatDriver.GUARD
    ensures size <= FatDriver.GUARD * cb
  {
    NeedCovers(size, cb);
    FatLayout.MulMono(Need(size, cb), FatDriver.GUARD, cb);
  }

  // Files are so short that the read guard of fat_read cannot fire, whatever the buffer.
  lemma GuardNeverFires(v: Vol, name: Bytes, max: nat)
    requires Inv(v) && |name| == NAME
    ensures FatDriver.GuardSuffices(v, name, max)
  {
    var k := Find(v.dir, name, 0);
    if k < |v.dir| {
      FindMissing(v, name);
      ChainShort(v, k);
      SizeFits(SlotSize(v.dir[k]), v.cb);
    }
  }

  // A call, by the name the caller gives.
  datatype Call =
    | PutFile(name: Bytes, data: Bytes)
    | RemoveFile(name: Bytes)
    | FetchFile(name: Bytes, max: nat)
    | SizeOf(name: Bytes)
    | SpaceLeft

  function OpOf(c: Call): Op {
    match c
    case PutFile(name, data) => Put(Norm(name), data)
    case RemoveFile(name) => Remove(Norm(name))
    case FetchFile(name, max) => Fetch(Norm(name), max)
    case SizeOf(name) => Size(Norm(name))
    case SpaceLeft => Space
  }

  // The same call with the name in another letter case.
  predicate SameCall(c: Call, d: Call) {
    match (c, d)
    case (PutFile(s, data), PutFile(t, data')) => SameLetters(s, t) && data == data'
    case (RemoveFile(s), RemoveFile(t)) => SameLetters(s, t)
    case (FetchFile(s, max), FetchFile(t, max')) => SameLetters(s, t) && max == max'
    case (SizeOf(s), SizeOf(t)) => SameLetters(s, t)
    case _ => c == d
  }

  // Letter case does not matter to any call.
  lemma CallsIgnoreCase(c: Call, d: Call)
    requires SameCall(c, d)
    ensures OpOf(c) == OpOf(d)
  {
    match (c, d)
    case (PutFile(s, _), PutFile(t, _)) => CaseIgnored(s, t);
    case (RemoveFile(s), RemoveFile(t)) => CaseIgnored(s, t);
    case (FetchFile(s, _), FetchFile(t, _)) => CaseIgnored(s, t);
    case (SizeOf(s), SizeOf(t)) => CaseIgnored(s, t);
    case _ =>
  }

  // What the 32-bit arithmetic of the driver calls for, and a first character that does not
  // mark the slot deleted.
  predicate CallOk(c: Call, cb: nat) {
    match c
    case PutFile(name, data) => CharAt(name, 0) != DELETED && |data| + cb <= 0x1_0000_0000
    case _ => true
  }

  lemma CallNameOk(c: Call, cb: nat)
    requires CallOk(c, cb) && cb > 0
    ensures NameOk(OpOf(c))
  {
    match c
    case PutFile(name, data) => NormStorableIff(name);
    case _ =>
  }

  method Perform(d: FatDriver.Driver, c: Call) returns (a: Answer)
    requires d.Ready() && Inv(d.vol) && CallOk(c, d.vol.cb) && Safe(Abs(d.vol), OpOf(c))
    modifies d.sectors, d.secbuf, d`vol
    ensures d.Ready() && Inv(d.vol) && d.vol.cb == old(d.vol.cb)
    ensures (Abs(d.vol), a) == SpecStep(old(Abs(d.vol)), OpOf(c))
  {
    InvIsSane(d.vol);
    CallNameOk(c, d.vol.cb);
    StepRefines(d.vol, OpOf(c));
    match c {
      case PutFile(name, data) =>
        var ok := d.FatWrite(name, data);
        a := Done(ok);
      case RemoveFile(name) =>
        var ok := d.FatDelete(name);
        a := Done(ok);
      case FetchFile(name, max) =>
        GuardNeverFires(d.vol, Norm(name), max);
        var out := new byte[max];
        var ok, size := d.FatRead(name, out, max);
        a := Fetched(if ok then Found(out[..size]) else Missing);
      case SizeOf(name) =>
        var r := d.FatStat(name);
        a := match r case NoFile => NotThere case Stats(n, _, _) => Sized(n);
      case SpaceLeft =>
        var n := d.FreeBytes();
        a := Free(n);
    }
  }

  function OpsOf(calls: seq<Call>): (r: seq<Op>)
    ensures |r| == |calls|
  {
    if |calls| == 0 then [] else [OpOf(calls[0])] + OpsOf(calls[1..])
  }

  // Any sequence of calls gets the answers of the map machine.
  method Serve(d: FatDriver.Driver, calls: seq<Call>) returns (answers: seq<Answer>)
    requires d.Ready() && Inv(d.vol) && (forall i :: 0 <= i < |calls| ==> CallOk(calls[i], d.vol.cb))
    requires AllSafe(Abs(d.vol), OpsOf(calls))
    modifies d.sectors, d.secbuf, d`vol
    ensures d.Ready() && Inv(d.vol) && (Abs(d.vol), answers) == SpecRun(old(Abs(d.vol)), OpsOf(calls))
    decreases |calls|
  {
    if |calls| == 0 { return []; }
    OpsSplit(calls);
    var a := Perform(d, calls[0]);
    var rest := Serve(d, calls[1..]);
    answers := [a] + rest;
  }

  lemma OpsSplit(calls: seq<Call>)
    requires |calls| > 0
    ensures OpsOf(calls)[0] == OpOf(calls[0]) && OpsOf(calls)[1..] == OpsOf(calls[1..])
  {
  }

  // The disk mkdata.py lays out.
  const CLUSTERS: nat := 2847
  const ROOT_SLOTS: nat := 224

  // A mkdata.py image with no empty file and the last cluster free boots into a driver
  // that holds exactly the files it was built from.
  method Boot(files: seq<FatImage.File>) returns (d: FatDriver.Driver)
    requires FatImage.Fits(files, CLUSTERS, ROOT_SLOTS) && FatImage.Sound(files, CLUSTERS)
    ensures fresh(d) && fresh(d.sectors) && fresh(d.secbuf)
    ensures d.Ready() && Inv(d.vol) && d.vol.cb == 512 && d.vol == FatImage.Built(files, CLUSTERS, ROOT_SLOTS)
    ensures forall k :: 0 <= k < |files| ==>
            files[k].name in Files(d.vol) && Files(d.vol)[files[k].name] == files[k].data
    ensures forall name :: name in Files(d.vol) ==> exists k :: 0 <= k < |files| && files[k].name == name
  {
    ghost var g := FatLayout.Geo(1, 9, 19, 14, 33, 1);
    ghost var slots := FatBuilder.RootEntries(g);
    assert slots == 224;
    var disk := FatBuilder.BuildImage(files, g);
    ghost var v := FatImage.Built(files, FatLayout.MaxClusters(g), slots);
    d := new FatDriver.Driver(disk);
    var ok := d.Mount(v);
    FatImage.BuiltInv(files, FatLayout.MaxClusters(g), slots);
    FatImage.BuiltFiles(files, FatLayout.MaxClusters(g), slots);
  }
}
