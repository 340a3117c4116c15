// The volume refines a map from names to bytes, over every sequence of operations.

module FatRefinement {
  import opened FatChains
  import opened FatVolume
  import opened FatInvariant
  import opened FatDelete
  import opened FatAlloc
  import opened FatCreate

  // ------------------------------------------------------------------
  // fat_write
  // ------------------------------------------------------------------

  // Is there a slot for the name: its own, or a free one?
  ghost predicate SlotFor(v: Vol, name: Bytes)
    requires WellFormed(v) && |name| == NAME
  {
    Find(v.dir, name, 0) < |v.dir| || FreeSlot(v.dir, 0) < |v.dir|
  }

  // Clusters a write may use: the free ones and those of the file it replaces.
  ghost function Room(v: Vol, name: Bytes): nat
    requires WellFormed(v) && |name| == NAME
  {
    var k := Find(v.dir, name, 0);
    FreeCount(v.fat) + if k < |v.dir| then |Chain(v, k)| else 0
  }

  // Deleting the old file frees its slot and its clusters.
  lemma OldFileGone(v: Vol, name: Bytes)
    requires Inv(v) && Storable(name) && Find(v.dir, name, 0) < |v.dir|
    ensures var k := Find(v.dir, name, 0); var v0 := Delete(v, name).0;
            && FreeAt(v0, k) && Inv(v0) && name !in Names(v0) && Files(v0) == Files(v) - {name}
            && FreeCount(v0.fat) == Room(v, name)
  {
    DeleteRemoves(v, name);
    DeleteRefines(v, name);
    var v0 := Delete(v, name).0;
    assert name !in Names(v0) by { assert name !in Files(v0); }
  }

  // A replacement is a deletion followed by a store in the same slot; when the store
  // fails, the directory still has the old entry.
  lemma ReplaceIsDeleteThenStore(v: Vol, name: Bytes, bytes: Bytes)
    requires WellFormed(v) && |name| == NAME && Find(v.dir, name, 0) < |v.dir|
    ensures var k := Find(v.dir, name, 0); var (s, stored) := Store(Delete(v, name).0, k, name, bytes);
            Write(v, name, bytes) == (if stored then s else s.(dir := v.dir), stored)
  {
    var k := Find(v.dir, name, 0);
    var v0 := Delete(v, name).0;
    var v1 := v.(fat := FreeChain(v.fat, SlotFirst(v.dir[k])));
    var need := Need(|bytes|, v.cb);
    AllocIgnoresDir(v1, v0, 0, 0, need);
    var r1 := AllocChain(v1, 0, 0, need);
    if r1.Chained? {
      StreamIgnoresDir(r1.v, AllocChain(v0, 0, 0, need).v, r1.first, bytes);
      SlotTwice(v.dir, k, v0.dir[k], MakeSlot(name, r1.first, |bytes|));
    }
  }

  lemma SlotTwice(dir: seq<Bytes>, k: nat, a: Bytes, b: Bytes)
    requires k < |dir|
    ensures dir[k := a][k := b] == dir[k := b]
  {
  }

  // Allocation and streaming never look at the directory.
  lemma {:induction false} AllocIgnoresDir(v: Vol, w: Vol, first: nat, prev: nat, need: nat)
    requires WellFormed(v) && WellFormed(w) && w == v.(dir := w.dir)
    requires prev < |v.fat| && (first != 0 ==> IsCluster(v.fat, first))
    ensures var r, s := AllocChain(v, first, prev, need), AllocChain(w, first, prev, need);
            && (r.Full? <==> s.Full?) && s.v == r.v.(dir := w.dir) && (r.Chained? ==> r.first == s.first)
    decreases need
  {
    if need > 0 {
      var (v1, c) := AllocCluster(v);
      if c != 0 {
        var v2 := if prev != 0 then v1.(fat := v1.fat[prev := c]) else v1;
        AllocIgnoresDir(v2, v2.(dir := w.dir), if first == 0 then c else first, c, need - 1);
      }
    }
  }

  lemma {:induction false} StreamIgnoresDir(v: Vol, w: Vol, c: nat, bytes: Bytes)
    requires WellFormed(v) && WellFormed(w) && w == v.(dir := w.dir)
    ensures Stream(w, c, bytes) == Stream(v, c, bytes).(dir := w.dir)
    decreases |bytes|
  {
    if IsCluster(v.fat, c) && |bytes| > 0 {
      var n := if |bytes| < v.cb then |bytes| else v.cb;
      var v1 := v.(data := v.data[c - 2 := Overlay(v.data[c - 2], bytes[..n])]);
      StreamIgnoresDir(v1, v1.(dir := w.dir), v.fat[c], bytes[n..]);
    }
  }

  lemma CreateIsStore(v: Vol, name: Bytes, bytes: Bytes)
    requires Inv(v) && Storable(name) && Find(v.dir, name, 0) == |v.dir| && FreeSlot(v.dir, 0) < |v.dir|
    ensures FreeAt(v, FreeSlot(v.dir, 0)) && name !in Names(v)
    ensures Write(v, name, bytes) == Store(v, FreeSlot(v.dir, 0), name, bytes)
  {
    FindMissing(v, name);
  }

  lemma RemoveThenPut(m: map<Bytes, Bytes>, name: Bytes, bytes: Bytes)
    ensures (m - {name})[name := bytes] == m[name := bytes]
  {
  }

  lemma ReplaceIsUpdate(v: Vol, v0: Vol, k: nat, name: Bytes, bytes: Bytes)
    requires WellFormed(v) && Inv(v0) && FreeAt(v0, k) && name !in Names(v0) && Files(v0) == Files(v) - {name}
    requires Storable(name) && |bytes| < 0x1_0000_0000
    ensures var (s, stored) := Store(v0, k, name, bytes);
            && (stored <==> Need(|bytes|, v0.cb) <= FreeCount(v0.fat))
            && (stored ==> Inv(s) && Files(s) == Files(v)[name := bytes])
            && (stored ==> FreeCount(s.fat) + Need(|bytes|, v0.cb) == FreeCount(v0.fat))
  {
    StoreRefines(v0, k, name, bytes);
    RemoveThenPut(Files(v), name, bytes);
  }

  lemma ReplaceRefines(v: Vol, name: Bytes, bytes: Bytes)
    requires Inv(v) && Storable(name) && |bytes| < 0x1_0000_0000 && Find(v.dir, name, 0) < |v.dir|
    ensures var (v', ok) := Write(v, name, bytes);
            && (ok <==> Need(|bytes|, v.cb) <= Room(v, name))
            && (ok ==> Inv(v') && Files(v') == Files(v)[name := bytes])
            && (ok ==> FreeCount(v'.fat) + Need(|bytes|, v.cb) == Room(v, name))
  {
    OldFileGone(v, name);
    ReplaceIsDeleteThenStore(v, name, bytes);
    ReplaceIsUpdate(v, Delete(v, name).0, Find(v.dir, name, 0), name, bytes);
  }

  lemma CreateRefines(v: Vol, name: Bytes, bytes: Bytes)
    requires Inv(v) && Storable(name) && |bytes| < 0x1_0000_0000 && Find(v.dir, name, 0) == |v.dir|
    ensures var (v', ok) := Write(v, name, bytes);
            && (ok <==> FreeSlot(v.dir, 0) < |v.dir| && Need(|bytes|, v.cb) <= FreeCount(v.fat))
            && (ok ==> Inv(v') && Files(v') == Files(v)[name := bytes])
            && (ok ==> FreeCount(v'.fat) + Need(|bytes|, v.cb) == FreeCount(v.fat))
  {
    if FreeSlot(v.dir, 0) < |v.dir| {
      CreateIsStore(v, name, bytes);
      StoreRefines(v, FreeSlot(v.dir, 0), name, bytes);
    }
  }

  // A write succeeds exactly when there is a slot and room; it is then a map update, keeps
  // the invariant and uses exactly the clusters the new contents need.
  lemma WriteRefines(v: Vol, name: Bytes, bytes: Bytes)
    requires Inv(v) && Storable(name) && |bytes| < 0x1_0000_0000
    ensures var (v', ok) := Write(v, name, bytes);
            && (ok <==> SlotFor(v, name) && Need(|bytes|, v.cb) <= Room(v, name))
            && (ok ==> Inv(v') && Files(v') == Files(v)[name := bytes])
            && (ok ==> FreeCount(v'.fat) + Need(|bytes|, v.cb) == Room(v, name))
  {
    if Find(v.dir, name, 0) < |v.dir| {
      ReplaceRefines(v, name, bytes);
    } else {
      CreateRefines(v, name, bytes);
    }
  }

  lemma StoreRefines(v: Vol, slot: nat, name: Bytes, bytes: Bytes)
    requires Inv(v) && FreeAt(v, slot) && Storable(name) && name !in Names(v) && |bytes| < 0x1_0000_0000
    ensures var (v', ok) := Store(v, slot, name, bytes);
            && (ok <==> Need(|bytes|, v.cb) <= FreeCount(v.fat))
            && (ok ==> Inv(v') && Files(v') == Files(v)[name := bytes])
            && (ok ==> FreeCount(v'.fat) + Need(|bytes|, v.cb) == FreeCount(v.fat))
  {
    var ch := StoreEffect(v, slot, name, bytes);
    var (v', ok) := Store(v, slot, name, bytes);
    if ok {
      PlacedKeepsInv(v, v', slot, name, bytes, ch);
      PlacedIsMapUpdate(v, v', slot, name, bytes, ch);
      if |ch| > 0 {
        LinkedFree(v.fat, v'.fat, ch);
      } else {
        assert v'.fat == v.fat;
      }
    }
  }

  // ------------------------------------------------------------------
  // Failed writes
  // ------------------------------------------------------------------

  // A create that fails leaves every FAT entry, the directory and every file as before.
  lemma FailedCreateRollsBack(v: Vol, name: Bytes, bytes: Bytes)
    requires Inv(v) && Storable(name) && |bytes| < 0x1_0000_0000
    requires name !in Files(v) && !Write(v, name, bytes).1
    ensures var v' := Write(v, name, bytes).0;
            v'.fat == v.fat && v'.dir == v.dir && Inv(v') && Files(v') == Files(v)
  {
    FindMissing(v, name);
    if FreeSlot(v.dir, 0) < |v.dir| {
      CreateIsStore(v, name, bytes);
      var ch := StoreEffect(v, FreeSlot(v.dir, 0), name, bytes);
      SameFiles(v, Write(v, name, bytes).0);
    }
  }

  lemma SameContents(v: Vol, v': Vol, l: nat)
    requires Inv(v) && WellFormed(v') && v'.fat == v.fat && v'.dir == v.dir && v'.cb == v.cb && FileAt(v, l)
    requires forall x: nat :: IsCluster(v.fat, x) && v.fat[x] != 0 ==> v'.data[x - 2] == v.data[x - 2]
    ensures Contents(v', l) == Contents(v, l)
  {
    forall x: nat | x in Chain(v, l) ensures v'.data[x - 2] == v.data[x - 2] {
      OldCluster(v, l, x);
    }
    GatherFrame(v, v', SlotFirst(v.dir[l]), Need(SlotSize(v.dir[l]), v.cb));
  }

  // Volumes that differ only in free clusters hold the same files.
  lemma SameFiles(v: Vol, v': Vol)
    requires Inv(v) && WellFormed(v') && v'.fat == v.fat && v'.dir == v.dir && v'.cb == v.cb
    requires forall x: nat :: IsCluster(v.fat, x) && v.fat[x] != 0 ==> v'.data[x - 2] == v.data[x - 2]
    ensures Inv(v') && Files(v') == Files(v)
  {
    SameInv(v, v');
    assert Names(v') == Names(v);
    forall n | n in Names(v) ensures ContentsOf(v', n) == ContentsOf(v, n) {
      FindMissing(v, n);
      SameContents(v, v', Find(v.dir, n, 0));
    }
  }

  lemma SameInv(v: Vol, v': Vol)
    requires Inv(v) && WellFormed(v') && v'.fat == v.fat && v'.dir == v.dir && v'.cb == v.cb
    ensures Inv(v')
  {
    forall k: nat ensures FileAt(v', k) <==> FileAt(v, k) {
    }
    forall k: nat | FileAt(v, k) ensures Chain(v', k) == Chain(v, k) && SlotOk(v', k) {
      assert SlotOk(v, k);
    }
    SameLost(v, v');
  }

  lemma SameLost(v: Vol, v': Vol)
    requires Inv(v) && WellFormed(v') && v'.fat == v.fat && v'.dir == v.dir && v'.cb == v.cb
    ensures NoLostClusters(v')
  {
    forall c: nat | IsCluster(v'.fat, c) && v'.fat[c] != 0 ensures exists k: nat :: FileAt(v', k) && c in Chain(v', k) {
      assert IsCluster(v.fat, c) && v.fat[c] != 0;
      var k: nat :| FileAt(v, k) && c in Chain(v, k);
      assert FileAt(v', k) && c in Chain(v', k);
    }
  }

  lemma FailedReplaceLeaves(v: Vol, name: Bytes, bytes: Bytes)
    requires Inv(v) && Storable(name) && Find(v.dir, name, 0) < |v.dir| && !Write(v, name, bytes).1
    ensures var v' := Write(v, name, bytes).0;
            v'.dir == v.dir && v'.cb == v.cb && v'.fat == Delete(v, name).0.fat
  {
    ReplaceIsDeleteThenStore(v, name, bytes);
    var ch := StoreEffect(Delete(v, name).0, Find(v.dir, name, 0), name, bytes);
  }

  // What a failed replacement leaves: the old directory over a table without the old chain.
  lemma FailedReplaceState(v: Vol, name: Bytes, bytes: Bytes) returns (k: nat)
    requires Inv(v) && Storable(name) && name in Files(v) && !Write(v, name, bytes).1
    ensures FileAt(v, k) && Files(v)[name] == Contents(v, k)
    ensures var v' := Write(v, name, bytes).0;
            && v'.dir == v.dir && |v'.fat| == |v.fat| && v'.cb == v.cb
            && forall c: nat :: c < |v.fat| ==> v'.fat[c] == if c in Chain(v, k) then 0 else v.fat[c]
  {
    FindMissing(v, name);
    k := Find(v.dir, name, 0);
    FindIs(v, k);
    FailedReplaceLeaves(v, name, bytes);
    DeleteRemoves(v, name);
  }

  // Releasing the chain of a file that keeps its slot spares the invariant exactly when
  // the chain was empty.
  lemma ChainLossIff(v: Vol, v': Vol, k: nat)
    requires Inv(v) && FileAt(v, k) && WellFormed(v') && v'.dir == v.dir && |v'.fat| == |v.fat| && v'.cb == v.cb
    requires forall c: nat :: c < |v.fat| ==> v'.fat[c] == if c in Chain(v, k) then 0 else v.fat[c]
    ensures Inv(v') <==> |Chain(v, k)| == 0
  {
    if |Chain(v, k)| == 0 {
      assert v'.fat == v.fat;
      SameInv(v, v');
    } else {
      assert forall x: nat :: x in Chain(v, k) ==> x < |v.fat|;
      FreedHead(v, v', k);
    }
  }

  // A replacement frees the old chain first. When it then runs out of room, the old
  // entry names freed clusters: the invariant survives exactly when the old file was empty.
  lemma FailedReplaceIff(v: Vol, name: Bytes, bytes: Bytes)
    requires Inv(v) && Storable(name) && |bytes| < 0x1_0000_0000
    requires name in Files(v) && !Write(v, name, bytes).1
    ensures Inv(Write(v, name, bytes).0) <==> |Files(v)[name]| == 0
  {
    var k := FailedReplaceState(v, name, bytes);
    ContentsSize(v, k);
    NeedCovers(SlotSize(v.dir[k]), v.cb);
    ChainLossIff(v, Write(v, name, bytes).0, k);
  }

  // A file holds exactly as many bytes as its slot says.
  lemma ContentsSize(v: Vol, k: nat)
    requires Inv(v) && FileAt(v, k)
    ensures |Contents(v, k)| == SlotSize(v.dir[k])
    ensures |Chain(v, k)| == Need(SlotSize(v.dir[k]), v.cb)
  {
    assert SlotOk(v, k);
    GatherLength(v, SlotFirst(v.dir[k]), Need(SlotSize(v.dir[k]), v.cb));
    NeedCovers(SlotSize(v.dir[k]), v.cb);
  }

  // A slot that still names a freed cluster breaks the invariant.
  lemma FreedHead(v: Vol, v': Vol, k: nat)
    requires Inv(v) && FileAt(v, k) && WellFormed(v') && v'.dir == v.dir && |v'.fat| == |v.fat| && v'.cb == v.cb
    requires |Chain(v, k)| > 0 && forall x: nat :: x in Chain(v, k) ==> x < |v'.fat| && v'.fat[x] == 0
    ensures !Inv(v')
  {
    assert SlotOk(v, k);
    var c, n := SlotFirst(v.dir[k]), Need(SlotSize(v.dir[k]), v.cb);
    FollowLinks(v.fat, c, n, 0);
    assert c in Chain(v, k) && v'.fat[c] == 0 && FileAt(v', k);
    if SlotOk(v', k) {
      FollowLinks(v'.fat, c, n, 0);
      ChainNonZero(v'.fat, c, n, 0);
    }
  }
}
