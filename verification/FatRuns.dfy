// Reading, and whole runs: every sequence of file operations behaves like a map from
// names to bytes with a budget of free clusters and free slots.

module FatRuns {
  import opened FatChains
  import opened FatVolume
  import opened FatInvariant
  import opened FatDelete
  import opened FatCreate
  import opened FatRefinement

  // ------------------------------------------------------------------
  // fat_read and fat_stat
  // ------------------------------------------------------------------

  // Copying along the chain yields a prefix of the clusters laid end to end.
  lemma {:induction false} ReadChainIsPrefix(v: Vol, c: nat, want: nat, n: nat)
    requires WellFormed(v) && want <= |Gather(v, c, n)|
    ensures ReadChain(v, c, want) == Gather(v, c, n)[..want]
    decreases n
  {
    if want > 0 {
      var rest := Gather(v, v.fat[c], n - 1);
      assert Gather(v, c, n) == v.data[c - 2] + rest;
      if want > v.cb {
        ReadChainIsPrefix(v, v.fat[c], want - v.cb, n - 1);
        assert (v.data[c - 2] + rest)[..want] == v.data[c - 2] + rest[..want - v.cb];
      }
    }
  }

  // The chain of a file holds at least as many bytes as its size says.
  lemma ChainHoldsSize(v: Vol, k: nat)
    requires Inv(v) && FileAt(v, k)
    ensures var all := Gather(v, SlotFirst(v.dir[k]), Need(SlotSize(v.dir[k]), v.cb));
            SlotSize(v.dir[k]) <= |all| && Contents(v, k) == all[..SlotSize(v.dir[k])]
  {
    assert SlotOk(v, k);
    GatherLength(v, SlotFirst(v.dir[k]), Need(SlotSize(v.dir[k]), v.cb));
    NeedCovers(SlotSize(v.dir[k]), v.cb);
  }

  lemma SlotRead(v: Vol, k: nat, max: nat)
    requires Inv(v) && FileAt(v, k)
    ensures ReadChain(v, SlotFirst(v.dir[k]), Min(SlotSize(v.dir[k]), max)) ==
            Contents(v, k)[..Min(|Contents(v, k)|, max)]
  {
    ChainHoldsSize(v, k);
    var (c, size) := (SlotFirst(v.dir[k]), SlotSize(v.dir[k]));
    ReadChainIsPrefix(v, c, Min(size, max), Need(size, v.cb));
  }

  // Reading returns the first bytes of exactly the named file.
  lemma ReadRefines(v: Vol, name: Bytes, max: nat)
    requires Inv(v) && |name| == NAME
    ensures Read(v, name, max) == if name in Files(v) then Found(Files(v)[name][..Min(|Files(v)[name]|, max)])
            else Missing
  {
    FindMissing(v, name);
    var k := Find(v.dir, name, 0);
    if k < |v.dir| {
      FindIs(v, k);
      SlotRead(v, k, max);
    }
  }

  // The reported size is the number of bytes a full read returns.
  lemma StatRefines(v: Vol, name: Bytes)
    requires Inv(v) && |name| == NAME
    ensures Stat(v, name).Stats? <==> name in Files(v)
    ensures name in Files(v) ==> Stat(v, name).size == |Files(v)[name]|
  {
    FindMissing(v, name);
    var k := Find(v.dir, name, 0);
    if k < |v.dir| {
      FindIs(v, k);
      ContentsSize(v, k);
    }
  }

  // ------------------------------------------------------------------
  // The specification machine
  // ------------------------------------------------------------------

  // A map, the clusters and the directory slots still free, and the bytes of a cluster.
  datatype Spec = Spec(files: map<Bytes, Bytes>, clusters: nat, slots: nat, cb: nat)

  datatype Op =
    | Put(name: Bytes, bytes: Bytes)
    | Remove(name: Bytes)
    | Fetch(name: Bytes, max: nat)
    | Size(name: Bytes)
    | Space

  datatype Answer = Done(ok: bool) | Fetched(lookup: Lookup) | Sized(size: nat) | NotThere | Free(bytes: nat)

  // Clusters a name holds in the map.
  function Held(s: Spec, name: Bytes): nat
    requires s.cb > 0
  {
    if name in s.files then Need(|s.files[name]|, s.cb) else 0
  }

  predicate PutFits(s: Spec, name: Bytes, bytes: Bytes)
    requires s.cb > 0
  {
    (name in s.files || s.slots > 0) && Need(|bytes|, s.cb) <= s.clusters + Held(s, name)
  }

  function SpecStep(s: Spec, op: Op): (Spec, Answer)
    requires s.cb > 0
  {
    match op
    case Put(name, bytes) =>
      if !PutFits(s, name, bytes) then (s, Done(false))
      else (s.(files := s.files[name := bytes],
               clusters := s.clusters + Held(s, name) - Need(|bytes|, s.cb),
               slots := if name in s.files then s.slots else s.slots - 1), Done(true))
    case Remove(name) =>
      if name !in s.files then (s, Done(false))
      else (s.(files := s.files - {name}, clusters := s.clusters + Held(s, name), slots := s.slots + 1), Done(true))
    case Fetch(name, max) =>
      (s, Fetched(if name in s.files then Found(s.files[name][..Min(|s.files[name]|, max)]) else Missing))
    case Size(name) => (s, if name in s.files then Sized(|s.files[name]|) else NotThere)
    case Space => (s, Free(s.clusters * s.cb))
  }

  // Storing a new file takes from the free space the clusters that hold it, and removing it
  // gives them back.
  lemma SpaceFollows(s: Spec, name: Bytes, bytes: Bytes, n: nat)
    requires s.cb > 0 && name !in s.files && s.slots > 0 && n <= s.clusters
    requires |bytes| <= n * s.cb && (n == 0 || (n - 1) * s.cb < |bytes|)
    ensures var (s1, a) := SpecStep(s, Put(name, bytes)); var (s2, b) := SpecStep(s1, Remove(name));
            && a == Done(true) && b == Done(true) && s2 == s
            && SpecStep(s, Space).1 == Free(s.clusters * s.cb)
            && SpecStep(s1, Space).1 == Free((s.clusters - n) * s.cb)
  {
    NeedIsLeast(|bytes|, s.cb, n);
    assert s.files[name := bytes] - {name} == s.files;
  }

  lemma NeedIsLeast(size: nat, cb: nat, n: nat)
    requires cb > 0 && size <= n * cb && (n == 0 || (n - 1) * cb < size)
    ensures Need(size, cb) == n
  {
    var x := size + cb - 1;
    assert n * cb <= x < n * cb + cb by { if n > 0 { assert n * cb == (n - 1) * cb + cb; } }
    DivUnique(x, cb, n, x - n * cb);
  }

  // The same operation on the volume.
  function VolStep(v: Vol, op: Op): (r: (Vol, Answer))
    requires WellFormed(v) && NameOk(op)
    ensures WellFormed(r.0)
  {
    match op
    case Put(name, bytes) => var (v', ok) := Write(v, name, bytes); (v', Done(ok))
    case Remove(name) => var (v', ok) := Delete(v, name); (v', Done(ok))
    case Fetch(name, max) => (v, Fetched(Read(v, name, max)))
    case Size(name) => (v, match Stat(v, name) case NoFile => NotThere case Stats(n, _, _) => Sized(n))
    case Space => (v, Free(FreeBytes(v)))
  }

  predicate NameOk(op: Op) {
    match op
    case Put(name, bytes) => Storable(name) && |bytes| < 0x1_0000_0000
    case Remove(name) => |name| == NAME
    case Fetch(name, _) => |name| == NAME
    case Size(name) => |name| == NAME
    case Space => true
  }

  // A replacement that does not fit would lose the old file; see FailedReplaceIff.
  predicate Safe(s: Spec, op: Op)
    requires s.cb > 0
  {
    op.Put? && op.name in s.files && |s.files[op.name]| > 0 ==> PutFits(s, op.name, op.bytes)
  }

  // ------------------------------------------------------------------
  // Free slots
  // ------------------------------------------------------------------

  predicate SlotFree(e: Bytes)
    requires |e| == SLOT
  {
    e[0] == 0 || e[0] == DELETED
  }

  function FreeSlots(dir: seq<Bytes>, n: nat): nat
    requires n <= |dir| && forall i :: 0 <= i < |dir| ==> |dir[i]| == SLOT
  {
    if n == 0 then 0 else FreeSlots(dir, n - 1) + if SlotFree(dir[n - 1]) then 1 else 0
  }

  lemma {:induction false} FreeSlotsUpdate(dir: seq<Bytes>, k: nat, e: Bytes, n: nat)
    requires k < |dir| && n <= |dir| && |e| == SLOT && forall i :: 0 <= i < |dir| ==> |dir[i]| == SLOT
    ensures FreeSlots(dir[k := e], n) + (if k < n && SlotFree(dir[k]) then 1 else 0)
            == FreeSlots(dir, n) + (if k < n && SlotFree(e) then 1 else 0)
    decreases n
  {
    if n > 0 { FreeSlotsUpdate(dir, k, e, n - 1); }
  }

  // A create finds a slot exactly when one is free.
  lemma {:induction false} FreeSlotIff(dir: seq<Bytes>, n: nat)
    requires n <= |dir| && forall i :: 0 <= i < |dir| ==> |dir[i]| == SLOT
    ensures FreeSlots(dir, n) > 0 <==> FreeSlot(dir, 0) < n
    decreases n
  {
    if n > 0 {
      FreeSlotIff(dir, n - 1);
    }
  }

  // ------------------------------------------------------------------
  // One step
  // ------------------------------------------------------------------

  ghost function Abs(v: Vol): Spec
    requires WellFormed(v)
  {
    Spec(Files(v), FreeCount(v.fat), FreeSlots(v.dir, |v.dir|), v.cb)
  }

  // What a file holds in the map is what its chain holds on the volume.
  lemma HeldIsChain(v: Vol, name: Bytes)
    requires Inv(v) && |name| == NAME
    ensures var k := Find(v.dir, name, 0); Held(Abs(v), name) == if k < |v.dir| then |Chain(v, k)| else 0
    ensures Room(v, name) == FreeCount(v.fat) + Held(Abs(v), name)
  {
    FindMissing(v, name);
    var k := Find(v.dir, name, 0);
    if k < |v.dir| {
      FindIs(v, k);
      ContentsSize(v, k);
    }
  }

  lemma PutSucceedsIff(v: Vol, name: Bytes, bytes: Bytes)
    requires Inv(v) && Storable(name) && |bytes| < 0x1_0000_0000
    ensures Write(v, name, bytes).1 <==> PutFits(Abs(v), name, bytes)
  {
    WriteRefines(v, name, bytes);
    HeldIsChain(v, name);
    FindMissing(v, name);
    FreeSlotIff(v.dir, |v.dir|);
  }

  // Only the slot written changes.
  lemma WriteSlots(v: Vol, name: Bytes, bytes: Bytes)
    requires WellFormed(v) && Storable(name) && Write(v, name, bytes).1
    ensures var v' := Write(v, name, bytes).0; var k := Find(v.dir, name, 0);
            FreeSlots(v'.dir, |v'.dir|) + (if k < |v.dir| then 0 else 1) == FreeSlots(v.dir, |v.dir|)
  {
    var k := Find(v.dir, name, 0);
    var slot := if k < |v.dir| then k else FreeSlot(v.dir, 0);
    var v' := Write(v, name, bytes).0;
    WriteDir(v, name, bytes);
    FreeSlotsUpdate(v.dir, slot, v'.dir[slot], |v.dir|);
  }

  lemma WriteDir(v: Vol, name: Bytes, bytes: Bytes)
    requires WellFormed(v) && Storable(name) && Write(v, name, bytes).1
    ensures var v' := Write(v, name, bytes).0; var k := Find(v.dir, name, 0);
            var slot := if k < |v.dir| then k else FreeSlot(v.dir, 0);
            slot < |v.dir| == |v'.dir| && v'.dir == v.dir[slot := v'.dir[slot]] && !SlotFree(v'.dir[slot])
            && v'.cb == v.cb && (k < |v.dir| ==> !SlotFree(v.dir[k]))
  {
    var k := Find(v.dir, name, 0);
    var v1 := if k < |v.dir| then v.(fat := FreeChain(v.fat, SlotFirst(v.dir[k]))) else v;
    var r := AllocChain(v1, 0, 0, Need(|bytes|, v.cb));
    assert MakeSlot(name, r.first, |bytes|)[0] == name[0];
  }

  // The slot a write leaves, byte by byte: name, archive attribute, blank dates, and the size
  // lowest byte first. Every other slot is as it was.
  lemma WrittenSlot(v: Vol, name: Bytes, bytes: Bytes) returns (k: nat)
    requires WellFormed(v) && Storable(name) && |bytes| < 0x1_0000_0000 && Write(v, name, bytes).1
    ensures var v' := Write(v, name, bytes).0;
            && k < |v.dir| == |v'.dir| && (forall j :: 0 <= j < |v.dir| && j != k ==> v'.dir[j] == v.dir[j])
            && var e := v'.dir[k];
               && |e| == 32 && e[..11] == name && e[11] == 0x20 && (forall j :: 12 <= j < 26 ==> e[j] == 0)
               && e[28] as int + 0x100 * e[29] as int + 0x1_0000 * e[30] as int + 0x100_0000 * e[31] as int == |bytes|
  {
    WriteDir(v, name, bytes);
    k := Find(v.dir, name, 0);
    var v1 := if k < |v.dir| then v.(fat := FreeChain(v.fat, SlotFirst(v.dir[k]))) else v;
    var r := AllocChain(v1, 0, 0, Need(|bytes|, v.cb));
    if k == |v.dir| { k := FreeSlot(v.dir, 0); }
    SlotBytesOf(name, r.first, |bytes|);
    assert Write(v, name, bytes).0.dir[k] == MakeSlot(name, r.first, |bytes|);
  }

  lemma SlotBytesOf(name: Bytes, first: nat, size: nat)
    requires |name| == NAME && size < 0x1_0000_0000
    ensures var e := MakeSlot(name, first, size);
            && e[..11] == name && e[11] == 0x20 && (forall j :: 12 <= j < 26 ==> e[j] == 0)
            && e[28] as int + 0x100 * e[29] as int + 0x1_0000 * e[30] as int + 0x100_0000 * e[31] as int == size
  {
    Digits(size);
    var e, rest := MakeSlot(name, first, size), SlotRest(first, size);
    forall j | 11 <= j < 32 ensures e[j] == rest[j - 11] { }
  }

  lemma PutRefines(v: Vol, name: Bytes, bytes: Bytes)
    requires Inv(v) && Storable(name) && |bytes| < 0x1_0000_0000 && Write(v, name, bytes).1
    ensures var v' := Write(v, name, bytes).0;
            Inv(v') && Abs(v') == SpecStep(Abs(v), Put(name, bytes)).0
  {
    PutSucceedsIff(v, name, bytes);
    WriteRefines(v, name, bytes);
    WriteSlots(v, name, bytes);
    WriteDir(v, name, bytes);
    HeldIsChain(v, name);
    FindMissing(v, name);
  }

  // A write that fails without losing a file changes nothing a caller can see.
  lemma FailedPutRefines(v: Vol, name: Bytes, bytes: Bytes)
    requires Inv(v) && Storable(name) && |bytes| < 0x1_0000_0000 && !Write(v, name, bytes).1
    requires name in Files(v) ==> |Files(v)[name]| == 0
    ensures var v' := Write(v, name, bytes).0; Inv(v') && Abs(v') == Abs(v)
  {
    if name !in Files(v) {
      FailedCreateRollsBack(v, name, bytes);
      FailedKeepsGeometry(v, name, bytes);
    } else {
      FailedReplaceOfEmpty(v, name, bytes);
    }
  }

  lemma FailedKeepsGeometry(v: Vol, name: Bytes, bytes: Bytes)
    requires WellFormed(v) && |name| == NAME && !Write(v, name, bytes).1
    ensures Write(v, name, bytes).0.cb == v.cb && Write(v, name, bytes).0.dir == v.dir
  {
  }

  lemma FailedReplaceOfEmpty(v: Vol, name: Bytes, bytes: Bytes)
    requires Inv(v) && Storable(name) && name in Files(v) && |Files(v)[name]| == 0 && !Write(v, name, bytes).1
    ensures var v' := Write(v, name, bytes).0; Inv(v') && Abs(v') == Abs(v)
  {
    FindMissing(v, name);
    var k := Find(v.dir, name, 0);
    FindIs(v, k);
    ContentsSize(v, k);
    NeedCovers(SlotSize(v.dir[k]), v.cb);
    DeleteRemoves(v, name);
    assert Delete(v, name).0.fat == v.fat;
    ReplaceIsDeleteThenStore(v, name, bytes);
    var ch := StoreEffect(Delete(v, name).0, k, name, bytes);
    SameFiles(v, Write(v, name, bytes).0);
  }

  // Deleting frees one slot.
  lemma RemoveSlots(v: Vol, name: Bytes)
    requires WellFormed(v) && |name| == NAME && Find(v.dir, name, 0) < |v.dir|
    ensures var v' := Delete(v, name).0;
            FreeSlots(v'.dir, |v'.dir|) == FreeSlots(v.dir, |v.dir|) + 1 && v'.cb == v.cb
  {
    var k := Find(v.dir, name, 0);
    FreeSlotsUpdate(v.dir, k, v.dir[k][0 := DELETED], |v.dir|);
  }

  lemma RemoveClusters(v: Vol, name: Bytes)
    requires Inv(v) && |name| == NAME && name in Files(v)
    ensures Find(v.dir, name, 0) < |v.dir|
    ensures FreeCount(Delete(v, name).0.fat) == FreeCount(v.fat) + Held(Abs(v), name)
  {
    FindMissing(v, name);
    HeldIsChain(v, name);
    DeleteRemoves(v, name);
  }

  lemma RemovedAbs(v: Vol, v': Vol, name: Bytes)
    requires WellFormed(v) && WellFormed(v') && v'.cb == v.cb && name in Files(v) && Files(v') == Files(v) - {name}
    requires FreeCount(v'.fat) == FreeCount(v.fat) + Held(Abs(v), name)
    requires FreeSlots(v'.dir, |v'.dir|) == FreeSlots(v.dir, |v.dir|) + 1
    ensures (Abs(v'), Done(true)) == SpecStep(Abs(v), Remove(name))
  {
  }

  lemma RemoveRefines(v: Vol, name: Bytes)
    requires Inv(v) && |name| == NAME
    ensures var (v', ok) := Delete(v, name);
            Inv(v') && (Abs(v'), Done(ok)) == SpecStep(Abs(v), Remove(name))
  {
    var (v', ok) := Delete(v, name);
    DeleteRefines(v, name);
    if name in Files(v) {
      RemoveClusters(v, name);
      RemoveSlots(v, name);
      RemovedAbs(v, v', name);
    }
  }

  // Every step of the volume is the step of the map machine, answer included.
  lemma StepRefines(v: Vol, op: Op)
    requires Inv(v) && NameOk(op) && Safe(Abs(v), op)
    ensures var (v', answer) := VolStep(v, op);
            Inv(v') && (Abs(v'), answer) == SpecStep(Abs(v), op)
  {
    match op
    case Put(name, bytes) =>
      PutSucceedsIff(v, name, bytes);
      if Write(v, name, bytes).1 { PutRefines(v, name, bytes); } else { FailedPutRefines(v, name, bytes); }
    case Remove(name) => RemoveRefines(v, name);
    case Fetch(name, max) => ReadRefines(v, name, max);
    case Size(name) => StatRefines(v, name);
    case Space =>
  }

  // ------------------------------------------------------------------
  // Runs
  // ------------------------------------------------------------------

  function SpecRun(s: Spec, ops: seq<Op>): (Spec, seq<Answer>)
    requires s.cb > 0
    decreases |ops|
  {
    if |ops| == 0 then (s, [])
    else
      var (s1, a) := SpecStep(s, ops[0]);
      var (s2, rest) := SpecRun(s1, ops[1..]);
      (s2, [a] + rest)
  }

  function VolRun(v: Vol, ops: seq<Op>): (Vol, seq<Answer>)
    requires WellFormed(v) && forall i :: 0 <= i < |ops| ==> NameOk(ops[i])
    decreases |ops|
  {
    if |ops| == 0 then (v, [])
    else
      var (v1, a) := VolStep(v, ops[0]);
      var (v2, rest) := VolRun(v1, ops[1..]);
      (v2, [a] + rest)
  }

  // No operation of the run replaces a non-empty file by one that does not fit.
  predicate AllSafe(s: Spec, ops: seq<Op>)
    requires s.cb > 0
    decreases |ops|
  {
    |ops| == 0 || (Safe(s, ops[0]) && AllSafe(SpecStep(s, ops[0]).0, ops[1..]))
  }

  // Over any run the volume gives the answers of the map machine and ends in its state.
  lemma {:induction false} RunRefinesMap(v: Vol, ops: seq<Op>)
    requires Inv(v) && (forall i :: 0 <= i < |ops| ==> NameOk(ops[i])) && AllSafe(Abs(v), ops)
    ensures var (v', answers) := VolRun(v, ops);
            Inv(v') && (Abs(v'), answers) == SpecRun(Abs(v), ops)
    decreases |ops|
  {
    if |ops| > 0 {
      StepRefines(v, ops[0]);
      RunRefinesMap(VolStep(v, ops[0]).0, ops[1..]);
    }
  }

  // ------------------------------------------------------------------
  // Names that look deleted
  // ------------------------------------------------------------------

  // A successful write is a map update exactly when the name does not begin with the
  // byte that marks a deleted slot; such a file would be gone as soon as it is written.
  lemma WriteIsUpdateIff(v: Vol, name: Bytes, bytes: Bytes)
    requires Inv(v) && |name| == NAME && name[0] != 0 && |bytes| < 0x1_0000_0000 && Write(v, name, bytes).1
    ensures Files(Write(v, name, bytes).0) == Files(v)[name := bytes] <==> name[0] != DELETED
  {
    if name[0] != DELETED {
      WriteRefines(v, name, bytes);
    } else {
      var v' := Write(v, name, bytes).0;
      if name in Files(v') { NamesAreStorable(v', name); }
      assert name in Files(v)[name := bytes];
    }
  }

  lemma NamesAreStorable(v: Vol, name: Bytes)
    requires WellFormed(v) && |name| == NAME && name in Names(v)
    ensures Storable(name)
  {
    var k :| 0 <= k < |v.dir| && InUse(v.dir[k]) && SlotName(v.dir[k]) == name;
    assert SlotName(v.dir[k])[0] == v.dir[k][0];
  }
}
