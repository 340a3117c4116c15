// Storing a new file in a free slot: the heart of fat_write.

module FatCreate {
  import opened FatChains
  import opened FatVolume
  import opened FatInvariant
  import opened FatAlloc

  // A name a directory slot can carry: its first byte must not read as end or deleted.
  predicate Storable(name: Bytes) {
    |name| == NAME && name[0] != 0 && name[0] != DELETED
  }

  // A slot a create may take, with no end marker before it.
  ghost predicate FreeAt(v: Vol, slot: nat)
    requires WellFormed(v)
  {
    && slot < |v.dir| && (v.dir[slot][0] == 0 || v.dir[slot][0] == DELETED)
    && forall i :: 0 <= i < slot ==> v.dir[i][0] != 0
  }

  // v' is v with `bytes` stored under `name` in the slot, on the fresh clusters ch.
  ghost predicate Placed(v: Vol, v': Vol, slot: nat, name: Bytes, bytes: Bytes, ch: seq<nat>)
    requires WellFormed(v) && WellFormed(v')
  {
    && slot < |v.dir| && |v'.dir| == |v.dir| && v'.cb == v.cb && |name| == NAME
    && v'.dir[slot] == MakeSlot(name, HeadOf(ch), |bytes|)
    && (forall l: nat :: l < |v.dir| && l != slot ==> v'.dir[l] == v.dir[l])
    && |ch| == Need(|bytes|, v.cb) && Linked(v.fat, v'.fat, ch)
    && (forall x: nat :: IsCluster(v.fat, x) && v.fat[x] != 0 ==> v'.data[x - 2] == v.data[x - 2])
    && bytes <= Gather(v', HeadOf(ch), Need(|bytes|, v.cb))
  }

  // What fat_write does once the slot is chosen.
  function Store(v: Vol, slot: nat, name: Bytes, bytes: Bytes): (r: (Vol, bool))
    requires WellFormed(v) && |name| == NAME && slot < |v.dir|
    ensures WellFormed(r.0)
  {
    match AllocChain(v, 0, 0, Need(|bytes|, v.cb))
    case Full(v2) => (v2, false)
    case Chained(v2, first) =>
      var v3 := Stream(v2, first, bytes);
      (v3.(dir := v3.dir[slot := MakeSlot(name, first, |bytes|)]), true)
  }

  // fat_write is: drop the old chain if the name is there, then store in its slot or the
  // first free one.
  lemma WriteIsStore(v: Vol, name: Bytes, bytes: Bytes)
    requires WellFormed(v) && |name| == NAME
    ensures var k := Find(v.dir, name, 0); var slot := if k < |v.dir| then k else FreeSlot(v.dir, 0);
            var v1 := if k < |v.dir| then v.(fat := FreeChain(v.fat, SlotFirst(v.dir[k]))) else v;
            Write(v, name, bytes) == if slot == |v.dir| then (v, false) else Store(v1, slot, name, bytes)
  {
  }

  lemma LinkedChain(fat0: Fat, fat: Fat, ch: seq<nat>)
    requires Linked(fat0, fat, ch) && 2 <= |fat| <= CHAIN_END
    ensures Follow(fat, HeadOf(ch), |ch|) == ch && ChainOk(fat, HeadOf(ch), |ch|)
  {
    if |ch| > 0 { LinkedFollow(fat0, fat, ch); }
  }

  lemma BlankedChain(v0: Vol, v: Vol, ch: seq<nat>)
    requires WellFormed(v0) && WellFormed(v) && Linked(v0.fat, v.fat, ch) && Blanked(v0, v, ch)
    ensures Blank(v, ch)
  {
    forall i | 0 <= i < |ch| ensures 2 <= ch[i] < |v.fat| && v.data[ch[i] - 2] == Zeros(v.cb) {
      assert IsCluster(v0.fat, ch[i]) && ch[i] in ch;
    }
  }

  // Storing succeeds exactly when enough clusters are free; a failure leaves every FAT
  // entry, the directory and every cluster in use as they were.
  lemma StoreEffect(v: Vol, slot: nat, name: Bytes, bytes: Bytes) returns (ch: seq<nat>)
    requires WellFormed(v) && |name| == NAME && slot < |v.dir|
    ensures var (v', ok) := Store(v, slot, name, bytes);
            && (ok <==> Need(|bytes|, v.cb) <= FreeCount(v.fat))
            && (ok ==> Placed(v, v', slot, name, bytes, ch))
            && (!ok ==> v'.fat == v.fat && v'.dir == v.dir && v'.cb == v.cb
                        && forall x: nat :: IsCluster(v.fat, x) && v.fat[x] != 0 ==> v'.data[x - 2] == v.data[x - 2])
  {
    var r;
    ch, r := AllocChainEffect(v, Need(|bytes|, v.cb));
    if r.Chained? {
      StreamedChain(v, r.v, ch, bytes);
      var v3 := Stream(r.v, r.first, bytes);
      SameGather(v3, Store(v, slot, name, bytes).0, r.first, Need(|bytes|, v.cb));
    }
  }

  lemma StreamedChain(v: Vol, v2: Vol, ch: seq<nat>, bytes: Bytes)
    requires WellFormed(v) && WellFormed(v2) && Linked(v.fat, v2.fat, ch) && Blanked(v, v2, ch)
    requires |ch| == Need(|bytes|, v.cb)
    ensures var v3 := Stream(v2, HeadOf(ch), bytes);
            && bytes <= Gather(v3, HeadOf(ch), Need(|bytes|, v.cb))
            && forall x: nat :: IsCluster(v.fat, x) && v.fat[x] != 0 ==> v3.data[x - 2] == v.data[x - 2]
  {
    LinkedChain(v.fat, v2.fat, ch);
    BlankedChain(v, v2, ch);
    StreamStores(v2, HeadOf(ch), bytes);
    StoredElsewhere(v, v2, ch, bytes);
  }

  lemma {:induction false} SameGather(v: Vol, v': Vol, c: nat, n: nat)
    requires WellFormed(v) && WellFormed(v') && v'.fat == v.fat && v'.data == v.data && v'.cb == v.cb
    ensures Gather(v', c, n) == Gather(v, c, n)
  {
    GatherFrame(v, v', c, n);
  }

  lemma StoredElsewhere(v0: Vol, v: Vol, ch: seq<nat>, bytes: Bytes)
    requires WellFormed(v0) && WellFormed(v) && v.cb == v0.cb && |ch| == Need(|bytes|, v.cb)
    requires Linked(v0.fat, v.fat, ch) && Blanked(v0, v, ch) && Follow(v.fat, HeadOf(ch), |ch|) == ch
    ensures forall x: nat :: IsCluster(v0.fat, x) && v0.fat[x] != 0 ==>
            Stream(v, HeadOf(ch), bytes).data[x - 2] == v0.data[x - 2]
  {
    forall x: nat | IsCluster(v0.fat, x) && v0.fat[x] != 0
      ensures Stream(v, HeadOf(ch), bytes).data[x - 2] == v0.data[x - 2]
    {
      assert x !in ch;
      StreamKeeps(v, HeadOf(ch), bytes, x);
    }
  }

  // ------------------------------------------------------------------
  // The invariant and the map after a store
  // ------------------------------------------------------------------

  lemma PlacedFiles(v: Vol, v': Vol, slot: nat, name: Bytes, bytes: Bytes, ch: seq<nat>, l: nat)
    requires WellFormed(v) && WellFormed(v') && Placed(v, v', slot, name, bytes, ch) && FreeAt(v, slot)
    requires Storable(name)
    ensures FileAt(v', l) <==> FileAt(v, l) || l == slot
    ensures !FileAt(v, slot)
  {
    assert v'.dir[slot][0] == name[0] && v'.dir[slot][11] == ATTR_ARCHIVE;
  }

  lemma PlacedNew(v: Vol, v': Vol, slot: nat, name: Bytes, bytes: Bytes, ch: seq<nat>)
    requires WellFormed(v) && WellFormed(v') && Placed(v, v', slot, name, bytes, ch) && |bytes| < 0x1_0000_0000
    ensures SlotName(v'.dir[slot]) == name && SlotSize(v'.dir[slot]) == |bytes|
    ensures Chain(v', slot) == ch && SlotOk(v', slot) && Contents(v', slot) == bytes
  {
    LinkedChain(v.fat, v'.fat, ch);
    if |ch| > 0 { assert 2 <= ch[0] < |v.fat|; }
    MakeSlotReads(name, HeadOf(ch), |bytes|);
  }

  // Older files keep their clusters and their bytes.
  lemma PlacedOld(v: Vol, v': Vol, slot: nat, name: Bytes, bytes: Bytes, ch: seq<nat>, l: nat)
    requires Inv(v) && WellFormed(v') && Placed(v, v', slot, name, bytes, ch) && FileAt(v, l) && l != slot
    ensures Chain(v', l) == Chain(v, l) && SlotOk(v', l) && Contents(v', l) == Contents(v, l)
    ensures forall x :: x in Chain(v, l) ==> x !in ch
  {
    assert SlotOk(v, l);
    var c, n := SlotFirst(v.dir[l]), Need(SlotSize(v.dir[l]), v.cb);
    forall x | x in Chain(v, l) ensures x !in ch && v'.fat[x] == v.fat[x] && v'.data[x - 2] == v.data[x - 2] {
      OldCluster(v, l, x);
    }
    ChainFrame(v.fat, v'.fat, c, n);
    GatherFrame(v, v', c, n);
  }

  lemma OldCluster(v: Vol, l: nat, x: nat)
    requires Inv(v) && FileAt(v, l) && x in Chain(v, l)
    ensures IsCluster(v.fat, x) && v.fat[x] != 0
  {
    var i: nat :| i < |Chain(v, l)| && Chain(v, l)[i] == x;
    assert SlotOk(v, l);
    ChainNonZero(v.fat, SlotFirst(v.dir[l]), Need(SlotSize(v.dir[l]), v.cb), i);
  }

  lemma PlacedApart(v: Vol, v': Vol, slot: nat, name: Bytes, bytes: Bytes, ch: seq<nat>)
    requires Inv(v) && WellFormed(v') && Placed(v, v', slot, name, bytes, ch)
    requires forall l: nat :: FileAt(v', l) ==>
             if l == slot then Chain(v', l) == ch else FileAt(v, l) && Chain(v', l) == Chain(v, l)
    requires forall l: nat, x: nat :: FileAt(v, l) && l != slot && x in Chain(v, l) ==> x !in ch
    ensures ChainsApart(v')
  {
  }

  lemma PlacedNoLost(v: Vol, v': Vol, slot: nat, name: Bytes, bytes: Bytes, ch: seq<nat>)
    requires Inv(v) && WellFormed(v') && Placed(v, v', slot, name, bytes, ch)
    requires FileAt(v', slot) && Chain(v', slot) == ch && !FileAt(v, slot)
    requires forall l: nat :: FileAt(v, l) ==> FileAt(v', l) && Chain(v', l) == Chain(v, l)
    ensures NoLostClusters(v')
  {
    forall c: nat | IsCluster(v'.fat, c) && v'.fat[c] != 0 ensures exists l: nat :: FileAt(v', l) && c in Chain(v', l) {
      if c in ch {
        assert FileAt(v', slot) && c in Chain(v', slot);
      } else {
        assert IsCluster(v.fat, c) && v.fat[c] != 0;
        var l: nat :| FileAt(v, l) && c in Chain(v, l);
        assert FileAt(v', l) && c in Chain(v', l);
      }
    }
  }

  lemma PlacedDir(v: Vol, v': Vol, slot: nat, name: Bytes, bytes: Bytes, ch: seq<nat>)
    requires Inv(v) && WellFormed(v') && Placed(v, v', slot, name, bytes, ch) && FreeAt(v, slot) && Storable(name)
    requires name !in Names(v)
    ensures DirTail(v'.dir) && NamesUnique(v')
  {
    assert v'.dir[slot][0] == name[0] && SlotName(v'.dir[slot]) == name;
    forall i, j | 0 <= i < j < |v'.dir| && v'.dir[i][0] == 0 ensures v'.dir[j][0] == 0 {
      assert i != slot && v.dir[i][0] == 0;
    }
    forall k: nat, l: nat | FileAt(v', k) && FileAt(v', l) && SlotName(v'.dir[k]) == SlotName(v'.dir[l])
      ensures k == l
    {
      PlacedFiles(v, v', slot, name, bytes, ch, k);
      PlacedFiles(v, v', slot, name, bytes, ch, l);
      if k != slot { NamedIn(v, k); }
      if l != slot { NamedIn(v, l); }
    }
  }

  lemma NamedIn(v: Vol, k: nat)
    requires WellFormed(v) && FileAt(v, k)
    ensures SlotName(v.dir[k]) in Names(v)
  {
  }

  lemma PlacedKeepsInv(v: Vol, v': Vol, slot: nat, name: Bytes, bytes: Bytes, ch: seq<nat>)
    requires Inv(v) && WellFormed(v') && Placed(v, v', slot, name, bytes, ch)
    requires FreeAt(v, slot) && Storable(name) && name !in Names(v) && |bytes| < 0x1_0000_0000
    ensures Inv(v')
  {
    PlacedNew(v, v', slot, name, bytes, ch);
    forall l: nat ensures FileAt(v', l) <==> FileAt(v, l) || l == slot { PlacedFiles(v, v', slot, name, bytes, ch, l); }
    assert !FileAt(v, slot);
    forall l: nat | FileAt(v, l)
      ensures SlotOk(v', l) && Chain(v', l) == Chain(v, l) && forall x :: x in Chain(v, l) ==> x !in ch
    {
      PlacedOld(v, v', slot, name, bytes, ch, l);
    }
    PlacedDir(v, v', slot, name, bytes, ch);
    PlacedApart(v, v', slot, name, bytes, ch);
    PlacedNoLost(v, v', slot, name, bytes, ch);
  }

  lemma PlacedNames(v: Vol, v': Vol, slot: nat, name: Bytes, bytes: Bytes, ch: seq<nat>, n: Bytes)
    requires Inv(v) && WellFormed(v') && Placed(v, v', slot, name, bytes, ch) && FreeAt(v, slot) && Storable(name)
    ensures n in Names(v') <==> n in Names(v) || n == name
  {
    assert SlotName(v'.dir[slot]) == name;
    PlacedFiles(v, v', slot, name, bytes, ch, slot);
    if n in Names(v') {
      var l :| 0 <= l < |v'.dir| && InUse(v'.dir[l]) && SlotName(v'.dir[l]) == n;
      PlacedFiles(v, v', slot, name, bytes, ch, l);
      if l != slot { NamedIn(v, l); }
    }
    if n in Names(v) {
      var l :| 0 <= l < |v.dir| && InUse(v.dir[l]) && SlotName(v.dir[l]) == n;
      PlacedFiles(v, v', slot, name, bytes, ch, l);
      NamedIn(v', l);
    }
    if n == name { NamedIn(v', slot); }
  }

  lemma PlacedContents(v: Vol, v': Vol, slot: nat, name: Bytes, bytes: Bytes, ch: seq<nat>, n: Bytes)
    requires Inv(v) && Inv(v') && Placed(v, v', slot, name, bytes, ch) && FreeAt(v, slot) && Storable(name)
    requires |bytes| < 0x1_0000_0000
    requires n in Names(v')
    ensures Files(v')[n] == if n == name then bytes else if n in Names(v) then Files(v)[n] else []
  {
    PlacedNew(v, v', slot, name, bytes, ch);
    PlacedFiles(v, v', slot, name, bytes, ch, slot);
    FindIs(v', slot);
    if n != name {
      var l :| 0 <= l < |v'.dir| && InUse(v'.dir[l]) && SlotName(v'.dir[l]) == n;
      PlacedFiles(v, v', slot, name, bytes, ch, l);
      PlacedOld(v, v', slot, name, bytes, ch, l);
      FindIs(v, l);
      FindIs(v', l);
    }
  }

  lemma PlacedIsMapUpdate(v: Vol, v': Vol, slot: nat, name: Bytes, bytes: Bytes, ch: seq<nat>)
    requires Inv(v) && Inv(v') && Placed(v, v', slot, name, bytes, ch) && FreeAt(v, slot) && Storable(name)
    requires |bytes| < 0x1_0000_0000
    ensures Files(v') == Files(v)[name := bytes]
  {
    forall n ensures n in Names(v') <==> n in Names(v) || n == name { PlacedNames(v, v', slot, name, bytes, ch, n); }
    forall n | n in Names(v') ensures Files(v')[n] == if n == name then bytes else Files(v)[n] {
      PlacedContents(v, v', slot, name, bytes, ch, n);
    }
    MapUpdate(Files(v), Files(v'), name, bytes);
  }

  lemma MapUpdate(m: map<Bytes, Bytes>, m': map<Bytes, Bytes>, name: Bytes, bytes: Bytes)
    requires forall n :: n in m' <==> n in m || n == name
    requires forall n :: n in m' ==> m'[n] == if n == name then bytes else m[n]
    ensures m' == m[name := bytes]
  {
  }
}
