// The volume invariant, and the map from names to bytes that a volume stands for.

module FatInvariant {
  import opened FatChains
  import opened FatVolume

  ghost predicate FileAt(v: Vol, k: nat)
    requires WellFormed(v)
  {
    k < |v.dir| && InUse(v.dir[k])
  }

  // The clusters of the file in slot k, as many as its size calls for.
  ghost function Chain(v: Vol, k: nat): seq<nat>
    requires WellFormed(v) && k < |v.dir|
  {
    Follow(v.fat, SlotFirst(v.dir[k]), Need(SlotSize(v.dir[k]), v.cb))
  }

  // Chain c of n clusters is complete, end-marked and without repetition.
  ghost predicate ChainOk(fat: Fat, c: nat, n: nat) {
    && LinkOk(fat, c)
    && |Follow(fat, c, n)| == n
    && (n == 0 ==> !IsCluster(fat, c))
    && (n > 0 ==> CHAIN_END <= fat[Follow(fat, c, n)[n - 1]])
    && (forall i, j :: 0 <= i < j < n ==> Follow(fat, c, n)[i] != Follow(fat, c, n)[j])
  }

  ghost predicate SlotOk(v: Vol, k: nat)
    requires WellFormed(v) && k < |v.dir|
  {
    ChainOk(v.fat, SlotFirst(v.dir[k]), Need(SlotSize(v.dir[k]), v.cb))
  }

  // After the first never-used slot there are only never-used slots.
  ghost predicate DirTail(dir: seq<Bytes>)
    requires forall i :: 0 <= i < |dir| ==> |dir[i]| == SLOT
  {
    forall i, j :: 0 <= i < j < |dir| && dir[i][0] == 0 ==> dir[j][0] == 0
  }

  ghost predicate NamesUnique(v: Vol)
    requires WellFormed(v)
  {
    forall k: nat, l: nat :: FileAt(v, k) && FileAt(v, l) && SlotName(v.dir[k]) == SlotName(v.dir[l]) ==> k == l
  }

  // No cluster belongs to two files.
  ghost predicate ChainsApart(v: Vol)
    requires WellFormed(v)
  {
    forall k: nat, l: nat, c: nat :: FileAt(v, k) && FileAt(v, l) && c in Chain(v, k) && c in Chain(v, l) ==> k == l
  }

  // Every cluster in use belongs to a file.
  ghost predicate NoLostClusters(v: Vol)
    requires WellFormed(v)
  {
    forall c: nat :: IsCluster(v.fat, c) && v.fat[c] != 0 ==> exists k: nat :: FileAt(v, k) && c in Chain(v, k)
  }

  ghost predicate Inv(v: Vol) {
    && WellFormed(v)
    && DirTail(v.dir)
    && NamesUnique(v)
    && (forall k: nat :: FileAt(v, k) ==> SlotOk(v, k))
    && ChainsApart(v)
    && NoLostClusters(v)
  }

  // ------------------------------------------------------------------
  // The map a volume stands for
  // ------------------------------------------------------------------

  ghost function Contents(v: Vol, k: nat): Bytes
    requires WellFormed(v) && k < |v.dir|
  {
    var all := Gather(v, SlotFirst(v.dir[k]), Need(SlotSize(v.dir[k]), v.cb));
    if SlotSize(v.dir[k]) <= |all| then all[..SlotSize(v.dir[k])] else all
  }

  ghost function Names(v: Vol): set<Bytes>
    requires WellFormed(v)
  {
    set k | 0 <= k < |v.dir| && InUse(v.dir[k]) :: SlotName(v.dir[k])
  }

  ghost function Files(v: Vol): map<Bytes, Bytes>
    requires WellFormed(v)
  {
    map n | n in Names(v) :: ContentsOf(v, n)
  }

  ghost function ContentsOf(v: Vol, n: Bytes): Bytes
    requires WellFormed(v)
  {
    var k := Find(v.dir, n, 0);
    if k < |v.dir| then Contents(v, k) else []
  }

  // The scan finds exactly the names in use, at the slot that has them.
  lemma FindIs(v: Vol, k: nat)
    requires Inv(v) && FileAt(v, k)
    ensures Find(v.dir, SlotName(v.dir[k]), 0) == k
    ensures SlotName(v.dir[k]) in Names(v) && Files(v)[SlotName(v.dir[k])] == Contents(v, k)
  {
    var r := Find(v.dir, SlotName(v.dir[k]), 0);
    var e := DirEnd(v.dir, 0);
    assert k < e;
    assert r < |v.dir| && FileAt(v, r);
  }

  lemma FindMissing(v: Vol, name: Bytes)
    requires Inv(v)
    ensures Find(v.dir, name, 0) == |v.dir| <==> name !in Names(v)
  {
    var r := Find(v.dir, name, 0);
    if r == |v.dir| && name in Names(v) {
      var k :| 0 <= k < |v.dir| && InUse(v.dir[k]) && SlotName(v.dir[k]) == name;
      FindIs(v, k);
    }
  }

  // ------------------------------------------------------------------
  // Consequences
  // ------------------------------------------------------------------

  lemma ChainNonZero(fat: Fat, c: nat, n: nat, i: nat)
    requires ChainOk(fat, c, n) && i < n
    ensures fat[Follow(fat, c, n)[i]] != 0
  {
    FollowLinks(fat, c, n, i);
  }

  // A complete chain is released exactly.
  lemma ChainFreed(fat: Fat, c: nat, n: nat)
    requires ChainOk(fat, c, n) && |fat| <= CHAIN_END
    ensures forall x: nat :: x < |fat| ==> FreeChain(fat, c)[x] == if x in Follow(fat, c, n) then 0 else fat[x]
    ensures FreeCount(FreeChain(fat, c)) == FreeCount(fat) + n
  {
    forall i: nat | i < n ensures fat[Follow(fat, c, n)[i]] != 0 { ChainNonZero(fat, c, n, i); }
    FreeChainEffect(fat, c, n);
  }

  // A chain stays as it is in a table that agrees on its clusters.
  lemma ChainFrame(fat: Fat, fat': Fat, c: nat, n: nat)
    requires ChainOk(fat, c, n) && |fat'| == |fat|
    requires forall x :: x in Follow(fat, c, n) ==> fat'[x] == fat[x]
    ensures ChainOk(fat', c, n) && Follow(fat', c, n) == Follow(fat, c, n)
  {
    FollowFrame(fat, fat', c, n);
    if n > 0 { assert Follow(fat, c, n)[n - 1] in Follow(fat, c, n); }
  }

  lemma ChainLinkOk(fat: Fat, c: nat, n: nat, i: nat)
    requires ChainOk(fat, c, n) && i < n
    ensures LinkOk(fat, fat[Follow(fat, c, n)[i]])
  {
    FollowLinks(fat, c, n, i);
  }

  // In a volume that satisfies the invariant no link leads outside the table.
  lemma LinksInRange(v: Vol)
    requires Inv(v)
    ensures LinksOk(v.fat)
  {
    forall c: nat | 2 <= c < |v.fat| && v.fat[c] != 0 ensures LinkOk(v.fat, v.fat[c]) {
      var k: nat :| FileAt(v, k) && c in Chain(v, k);
      assert SlotOk(v, k);
      var i: nat :| i < |Chain(v, k)| && Chain(v, k)[i] == c;
      ChainLinkOk(v.fat, SlotFirst(v.dir[k]), Need(SlotSize(v.dir[k]), v.cb), i);
    }
  }

  // Exactly the clusters of files are in use.
  lemma InUseIff(v: Vol, c: nat)
    requires Inv(v) && IsCluster(v.fat, c)
    ensures v.fat[c] != 0 <==> exists k: nat :: FileAt(v, k) && c in Chain(v, k)
  {
    if k: nat :| FileAt(v, k) && c in Chain(v, k) {
      assert SlotOk(v, k);
      var i: nat :| i < |Chain(v, k)| && Chain(v, k)[i] == c;
      ChainNonZero(v.fat, SlotFirst(v.dir[k]), Need(SlotSize(v.dir[k]), v.cb), i);
    }
  }

  // Gather reads only the clusters of the chain.
  lemma {:induction false} GatherFrame(v: Vol, v': Vol, c: nat, n: nat)
    requires WellFormed(v) && WellFormed(v') && |v'.fat| == |v.fat| && v'.cb == v.cb
    requires forall x :: x in Follow(v.fat, c, n) ==> v'.fat[x] == v.fat[x] && v'.data[x - 2] == v.data[x - 2]
    ensures Gather(v', c, n) == Gather(v, c, n)
    decreases n
  {
    if n > 0 && IsCluster(v.fat, c) {
      var rest := Follow(v.fat, v.fat[c], n - 1);
      assert Follow(v.fat, c, n) == [c] + rest;
      assert c in Follow(v.fat, c, n);
      forall x | x in rest
        ensures v'.fat[x] == v.fat[x] && v'.data[x - 2] == v.data[x - 2]
      {
        assert x in Follow(v.fat, c, n);
      }
      GatherFrame(v, v', v.fat[c], n - 1);
    }
  }

  lemma {:induction false} GatherLength(v: Vol, c: nat, n: nat)
    requires WellFormed(v)
    ensures |Gather(v, c, n)| == |Follow(v.fat, c, n)| * v.cb
    decreases n
  {
    if n > 0 && IsCluster(v.fat, c) {
      GatherLength(v, v.fat[c], n - 1);
      var m := |Follow(v.fat, v.fat[c], n - 1)|;
      assert (m + 1) * v.cb == m * v.cb + v.cb;
    }
  }

  // The clusters a size calls for hold at least that many bytes, and one fewer would not.
  lemma NeedCovers(size: nat, cb: nat)
    requires cb > 0
    ensures Need(size, cb) * cb >= size
    ensures size > 0 ==> Need(size, cb) > 0 && (Need(size, cb) - 1) * cb < size
    ensures Need(0, cb) == 0
    ensures size > cb ==> Need(size - cb, cb) == Need(size, cb) - 1
    ensures 0 < size <= cb ==> Need(size, cb) == 1
  {
    var q := (size + cb - 1) / cb;
    var r := (size + cb - 1) % cb;
    assert size + cb - 1 == q * cb + r;
    if size > cb {
      assert (size - cb + cb - 1) == (q - 1) * cb + r;
      DivUnique(size - 1, cb, q - 1, r);
    }
    if 0 < size <= cb { DivUnique(size + cb - 1, cb, 1, size - 1); }
    DivUnique(cb - 1, cb, 0, cb - 1);
  }

  lemma {:induction false} AtLeastOnce(a: nat, d: nat)
    requires a >= 1
    ensures a * d >= d
  {
    assert a * d == (a - 1) * d + d;
  }

  lemma DivUnique(x: nat, d: nat, q: nat, r: nat)
    requires d > 0 && r < d && x == q * d + r
    ensures x / d == q && x % d == r
  {
    var p, s := x / d, x % d;
    assert x == p * d + s;
    if p < q {
      assert (q - p) * d == q * d - p * d;
      AtLeastOnce(q - p, d);
    } else if q < p {
      assert (p - q) * d == p * d - q * d;
      AtLeastOnce(p - q, d);
    }
  }
}
