// fat_delete removes a file and gives back exactly its clusters.

module FatDelete {
  import opened FatChains
  import opened FatVolume
  import opened FatInvariant

  // v' is v with the file in slot k deleted and its clusters released.
  ghost predicate Removed(v: Vol, v': Vol, k: nat)
    requires WellFormed(v) && WellFormed(v')
  {
    && FileAt(v, k)
    && |v'.dir| == |v.dir| && |v'.fat| == |v.fat| && v'.cb == v.cb && v'.data == v.data
    && v'.dir[k][0] == DELETED
    && (forall l: nat :: l < |v.dir| && l != k ==> v'.dir[l] == v.dir[l])
    && (forall c: nat :: c < |v.fat| ==> v'.fat[c] == if c in Chain(v, k) then 0 else v.fat[c])
  }

  lemma DeleteRemoves(v: Vol, name: Bytes)
    requires Inv(v) && |name| == NAME && Find(v.dir, name, 0) < |v.dir|
    ensures Removed(v, Delete(v, name).0, Find(v.dir, name, 0))
    ensures FreeCount(Delete(v, name).0.fat) == FreeCount(v.fat) + |Chain(v, Find(v.dir, name, 0))|
  {
    var k := Find(v.dir, name, 0);
    FileFreed(v, k);
    var e: Bytes := v.dir[k][0 := DELETED];
    assert Delete(v, name).0 == v.(dir := v.dir[k := e], fat := FreeChain(v.fat, SlotFirst(v.dir[k])));
  }

  lemma FileFreed(v: Vol, k: nat)
    requires Inv(v) && FileAt(v, k)
    ensures var fat := FreeChain(v.fat, SlotFirst(v.dir[k]));
            && FreeCount(fat) == FreeCount(v.fat) + |Chain(v, k)|
            && forall x: nat :: x < |v.fat| ==> fat[x] == if x in Chain(v, k) then 0 else v.fat[x]
  {
    assert SlotOk(v, k);
    ChainFreed(v.fat, SlotFirst(v.dir[k]), Need(SlotSize(v.dir[k]), v.cb));
  }

  // Other files keep their chains.
  lemma OtherChain(v: Vol, v': Vol, k: nat, l: nat)
    requires Inv(v) && WellFormed(v') && Removed(v, v', k) && FileAt(v, l) && l != k
    ensures FileAt(v', l) && Chain(v', l) == Chain(v, l) && SlotOk(v', l)
    ensures forall x: nat :: x in Chain(v, l) ==> x < |v.fat| && v'.fat[x] == v.fat[x]
  {
    assert SlotOk(v, l);
    forall x: nat | x in Chain(v, l) ensures x < |v.fat| && v'.fat[x] == v.fat[x] {
      assert x !in Chain(v, k);
    }
    ChainFrame(v.fat, v'.fat, SlotFirst(v.dir[l]), Need(SlotSize(v.dir[l]), v.cb));
  }

  lemma OtherContents(v: Vol, v': Vol, k: nat, l: nat)
    requires Inv(v) && WellFormed(v') && Removed(v, v', k) && FileAt(v, l) && l != k
    ensures Contents(v', l) == Contents(v, l)
  {
    OtherChain(v, v', k, l);
    GatherFrame(v, v', SlotFirst(v.dir[l]), Need(SlotSize(v.dir[l]), v.cb));
  }

  lemma RemovedFiles(v: Vol, v': Vol, k: nat, l: nat)
    requires WellFormed(v) && WellFormed(v') && Removed(v, v', k)
    ensures FileAt(v', l) <==> FileAt(v, l) && l != k
  {
  }

  lemma RemovedKeepsInv(v: Vol, v': Vol, k: nat)
    requires Inv(v) && WellFormed(v') && Removed(v, v', k)
    ensures Inv(v')
  {
    forall l: nat ensures FileAt(v', l) <==> FileAt(v, l) && l != k { RemovedFiles(v, v', k, l); }
    forall l: nat | FileAt(v', l) ensures SlotOk(v', l) && Chain(v', l) == Chain(v, l) { OtherChain(v, v', k, l); }
    assert DirTail(v'.dir) by {
      assert forall i :: 0 <= i < |v.dir| ==> (v'.dir[i][0] == 0 <==> v.dir[i][0] == 0);
    }
    RemovedApart(v, v', k);
    RemovedNoLost(v, v', k);
  }

  lemma RemovedApart(v: Vol, v': Vol, k: nat)
    requires Inv(v) && WellFormed(v') && Removed(v, v', k)
    requires forall l: nat :: FileAt(v', l) ==> FileAt(v, l) && Chain(v', l) == Chain(v, l)
    ensures ChainsApart(v')
  {
  }

  lemma RemovedNoLost(v: Vol, v': Vol, k: nat)
    requires Inv(v) && WellFormed(v') && Removed(v, v', k)
    requires forall l: nat :: FileAt(v, l) && l != k ==> FileAt(v', l) && Chain(v', l) == Chain(v, l)
    ensures NoLostClusters(v')
  {
    forall c: nat | IsCluster(v'.fat, c) && v'.fat[c] != 0 ensures exists l: nat :: FileAt(v', l) && c in Chain(v', l) {
      assert IsCluster(v.fat, c) && v.fat[c] != 0 && c !in Chain(v, k);
      var l: nat :| FileAt(v, l) && c in Chain(v, l);
      assert l != k && FileAt(v', l) && c in Chain(v', l);
    }
  }

  lemma RemovedNames(v: Vol, v': Vol, k: nat, n: Bytes)
    requires Inv(v) && WellFormed(v') && Removed(v, v', k)
    ensures n in Names(v') <==> n in Names(v) && n != SlotName(v.dir[k])
  {
    if n in Names(v') {
      var l :| 0 <= l < |v'.dir| && InUse(v'.dir[l]) && SlotName(v'.dir[l]) == n;
      RemovedFiles(v, v', k, l);
      assert FileAt(v, l) && FileAt(v, k);
    }
    if n in Names(v) && n != SlotName(v.dir[k]) {
      var l :| 0 <= l < |v.dir| && InUse(v.dir[l]) && SlotName(v.dir[l]) == n;
      assert FileAt(v', l);
    }
  }

  lemma RemovedContents(v: Vol, v': Vol, k: nat, n: Bytes)
    requires Inv(v) && Inv(v') && Removed(v, v', k) && n in Names(v')
    ensures n in Names(v) && Files(v')[n] == Files(v)[n]
  {
    var l :| 0 <= l < |v'.dir| && InUse(v'.dir[l]) && SlotName(v'.dir[l]) == n;
    RemovedFiles(v, v', k, l);
    FindIs(v, l);
    FindIs(v', l);
    OtherContents(v, v', k, l);
  }

  lemma RemovedIsMapRemoval(v: Vol, v': Vol, k: nat)
    requires Inv(v) && Inv(v') && Removed(v, v', k)
    ensures Files(v') == Files(v) - {SlotName(v.dir[k])}
  {
    forall n ensures n in Names(v') <==> n in Names(v) && n != SlotName(v.dir[k]) { RemovedNames(v, v', k, n); }
    forall n | n in Names(v') ensures n in Names(v) && Files(v')[n] == Files(v)[n] { RemovedContents(v, v', k, n); }
    MapRemoval(Files(v), Files(v'), SlotName(v.dir[k]));
  }

  lemma MapRemoval(m: map<Bytes, Bytes>, m': map<Bytes, Bytes>, name: Bytes)
    requires forall n :: n in m' <==> n in m && n != name
    requires forall n :: n in m' ==> m'[n] == m[n]
    ensures m' == m - {name}
  {
  }

  // Deleting is map removal: it succeeds exactly when the name is there, keeps the
  // invariant, and every other file reads as before.
  lemma DeleteRefines(v: Vol, name: Bytes)
    requires Inv(v) && |name| == NAME
    ensures var (v', ok) := Delete(v, name);
            && (ok <==> name in Files(v))
            && Inv(v') && Files(v') == Files(v) - {name}
            && (!ok ==> v' == v)
  {
    FindMissing(v, name);
    var k := Find(v.dir, name, 0);
    if k < |v.dir| {
      DeleteRemoves(v, name);
      RemovedKeepsInv(v, Delete(v, name).0, k);
      RemovedIsMapRemoval(v, Delete(v, name).0, k);
      FindIs(v, k);
    } else {
      assert Files(v) - {name} == Files(v);
    }
  }
}
