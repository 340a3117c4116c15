// Allocating a chain takes exactly the clusters it needs, or nothing; streaming into
// it stores exactly the payload.

module FatAlloc {
  import opened FatChains
  import opened FatVolume
  import opened FatInvariant

  // `ch` was free in fat0 and is one end-marked chain in fat; all else is as in fat0.
  ghost predicate Linked(fat0: Fat, fat: Fat, ch: seq<nat>) {
    && |fat| == |fat0|
    && (forall i :: 0 <= i < |ch| ==> 2 <= ch[i] < |fat| && fat0[ch[i]] == 0)
    && (forall i, j :: 0 <= i < j < |ch| ==> ch[i] != ch[j])
    && (forall i, j :: 0 <= i < j < |ch| && j == i + 1 ==> fat[ch[i]] == ch[j])
    && (|ch| > 0 ==> fat[ch[|ch| - 1]] == END_MARK)
    && (forall x: nat :: x < |fat| && x !in ch ==> fat[x] == fat0[x])
  }

  function HeadOf(ch: seq<nat>): nat { if |ch| > 0 then ch[0] else 0 }

  // Clusters of ch are zeroed; the others hold what they held.
  ghost predicate Blanked(v0: Vol, v: Vol, ch: seq<nat>)
    requires WellFormed(v0) && WellFormed(v)
  {
    && |v.fat| == |v0.fat| && v.cb == v0.cb
    && (forall c: nat :: IsCluster(v0.fat, c) ==> v.data[c - 2] == if c in ch then Zeros(v.cb) else v0.data[c - 2])
  }

  lemma LinkedFollow(fat0: Fat, fat: Fat, ch: seq<nat>)
    requires Linked(fat0, fat, ch) && |ch| > 0
    ensures Follow(fat, ch[0], |ch|) == ch && ChainOk(fat, ch[0], |ch|)
  {
    FollowIs(fat, ch, |ch|);
  }

  // Releasing a chain just built restores the table.
  lemma LinkedFree(fat0: Fat, fat: Fat, ch: seq<nat>)
    requires Linked(fat0, fat, ch) && |ch| > 0 && |fat| <= CHAIN_END
    ensures FreeChain(fat, ch[0]) == fat0
    ensures FreeCount(fat0) == FreeCount(fat) + |ch|
  {
    LinkedFollow(fat0, fat, ch);
    ChainFreed(fat, ch[0], |ch|);
    forall x: nat | x < |fat| ensures FreeChain(fat, ch[0])[x] == fat0[x] {
      if x in ch {
        var i :| 0 <= i < |ch| && ch[i] == x;
      }
    }
  }

  // One more cluster at the end of a chain.
  lemma LinkedExtend(fat0: Fat, fat: Fat, ch: seq<nat>, c: nat)
    requires Linked(fat0, fat, ch) && 2 <= c < |fat| <= CHAIN_END && fat[c] == 0
    ensures var fat1: Fat := fat[c := END_MARK];
            var fat2: Fat := if |ch| > 0 then fat1[ch[|ch| - 1] := c] else fat1;
            Linked(fat0, fat2, ch + [c]) && c !in ch
  {
    forall i: nat | i < |ch| ensures ch[i] != c { LinkedNonZero(fat0, fat, ch, i); }
  }

  lemma LinkedNonZero(fat0: Fat, fat: Fat, ch: seq<nat>, i: nat)
    requires Linked(fat0, fat, ch) && i < |ch|
    ensures fat[ch[i]] != 0
  {
    if i + 1 < |ch| {
      var next := ch[i + 1];
      assert fat[ch[i]] == next;
    }
  }

  lemma {:induction false} FirstZeroNone(fat: Fat, n: nat)
    requires 2 <= n <= |fat| && forall i :: 2 <= i < n ==> fat[i] != 0
    ensures FreeBelow(fat, n) == 0
    decreases n
  {
    if n > 2 { FirstZeroNone(fat, n - 1); }
  }

  // What allocating n clusters from v0 achieves: the chain ch, exactly when enough clusters
  // are free, or the table of v0 again.
  ghost predicate Allocated(v0: Vol, r: Chained, n: nat, ch: seq<nat>)
    requires WellFormed(v0) && WellFormed(r.v)
  {
    && |r.v.fat| == |v0.fat|
    && (r.Chained? <==> n <= FreeCount(v0.fat))
    && (forall c :: c in ch ==> 2 <= c < |v0.fat| && v0.fat[c] == 0)
    && Blanked(v0, r.v, ch)
    && (r.Full? ==> r.v.fat == v0.fat)
    && (r.Chained? ==> |ch| == n && Linked(v0.fat, r.v.fat, ch) && r.first == if |ch| > 0 then ch[0] else 0)
  }

  function LastOf(ch: seq<nat>): nat { if |ch| > 0 then ch[|ch| - 1] else 0 }

  lemma LinkedCount(fat0: Fat, fat: Fat, ch: seq<nat>)
    requires Linked(fat0, fat, ch) && 2 <= |fat| <= CHAIN_END
    ensures FreeCount(fat0) == FreeCount(fat) + |ch|
    ensures |ch| > 0 ==> FreeChain(fat, ch[0]) == fat0
    ensures |ch| == 0 ==> fat == fat0
  {
    if |ch| > 0 { LinkedFree(fat0, fat, ch); } else { assert fat == fat0; }
  }

  // With no cluster free, whatever the loop allocated is released.
  lemma AllocFails(v0: Vol, v: Vol, ch: seq<nat>, need: nat)
    requires WellFormed(v0) && WellFormed(v) && Linked(v0.fat, v.fat, ch) && Blanked(v0, v, ch)
    requires need > 0 && FirstZero(v.fat, 2) == |v.fat|
    ensures Allocated(v0, AllocChain(v, HeadOf(ch), LastOf(ch), need), |ch| + need, ch)
  {
    FirstZeroNone(v.fat, |v.fat|);
    LinkedCount(v0.fat, v.fat, ch);
    assert AllocCluster(v) == (v, 0);
  }

  lemma AllocDone(v0: Vol, v: Vol, ch: seq<nat>)
    requires WellFormed(v0) && WellFormed(v) && Linked(v0.fat, v.fat, ch) && Blanked(v0, v, ch)
    ensures Allocated(v0, AllocChain(v, HeadOf(ch), LastOf(ch), 0), |ch|, ch)
  {
    LinkedCount(v0.fat, v.fat, ch);
  }

  // One round of the loop adds the lowest free cluster to the chain.
  lemma AllocAdds(v0: Vol, v: Vol, ch: seq<nat>, need: nat) returns (v2: Vol, ch2: seq<nat>)
    requires WellFormed(v0) && WellFormed(v) && Linked(v0.fat, v.fat, ch) && Blanked(v0, v, ch)
    requires need > 0 && FirstZero(v.fat, 2) < |v.fat|
    ensures |ch2| == |ch| + 1 && WellFormed(v2) && Linked(v0.fat, v2.fat, ch2) && Blanked(v0, v2, ch2)
    ensures AllocChain(v, HeadOf(ch), LastOf(ch), need) == AllocChain(v2, HeadOf(ch2), LastOf(ch2), need - 1)
  {
    var c := FirstZero(v.fat, 2);
    LinkedExtend(v0.fat, v.fat, ch, c);
    var v1 := AllocCluster(v).0;
    v2 := if |ch| > 0 then v1.(fat := v1.fat[ch[|ch| - 1] := c]) else v1;
    BlankedExtend(v0, v, v2, ch, c);
    ch2 := ch + [c];
  }

  // The allocation loop, from a state where `ch` of the n clusters have been allocated.
  lemma {:induction false} AllocLoopEffect(v0: Vol, v: Vol, ch: seq<nat>, need: nat, n: nat)
    returns (ch': seq<nat>, r: Chained)
    requires WellFormed(v0) && WellFormed(v) && Linked(v0.fat, v.fat, ch) && Blanked(v0, v, ch) && n == |ch| + need
    ensures r == AllocChain(v, HeadOf(ch), LastOf(ch), need) && Allocated(v0, r, n, ch')
    decreases need
  {
    ch', r := ch, AllocChain(v, HeadOf(ch), LastOf(ch), need);
    if need == 0 {
      AllocDone(v0, v, ch);
    } else if FirstZero(v.fat, 2) == |v.fat| {
      AllocFails(v0, v, ch, need);
    } else {
      var v2, ch2 := AllocAdds(v0, v, ch, need);
      ch', r := AllocLoopEffect(v0, v2, ch2, need - 1, n);
    }
  }

  // Allocating n clusters takes exactly n free ones, or fails and leaves the table alone.
  lemma AllocChainEffect(v: Vol, n: nat) returns (ch: seq<nat>, r: Chained)
    requires WellFormed(v)
    ensures r == AllocChain(v, 0, 0, n) && Allocated(v, r, n, ch)
  {
    var none: seq<nat> := [];
    assert HeadOf(none) == 0 && LastOf(none) == 0;
    ch, r := AllocLoopEffect(v, v, none, n, n);
  }

  // A chain just allocated has all its clusters.
  lemma ChainFollows(v: Vol, need: nat)
    requires WellFormed(v) && AllocChain(v, 0, 0, need).Chained?
    ensures var r := AllocChain(v, 0, 0, need); |Follow(r.v.fat, r.first, need)| == need
  {
    var ch, r := AllocChainEffect(v, need);
    if need > 0 { LinkedFollow(v.fat, r.v.fat, ch); }
  }

  lemma BlankedExtend(v0: Vol, v: Vol, v2: Vol, ch: seq<nat>, c: nat)
    requires WellFormed(v0) && WellFormed(v) && WellFormed(v2) && Blanked(v0, v, ch) && IsCluster(v.fat, c)
    requires |v2.fat| == |v.fat| && v2.cb == v.cb && v2.data == v.data[c - 2 := Zeros(v.cb)]
    ensures Blanked(v0, v2, ch + [c])
  {
  }

  // ------------------------------------------------------------------
  // Streaming
  // ------------------------------------------------------------------

  // A zeroed cluster overlaid with a chunk is the chunk followed by zeros.
  lemma OverlayZeros(cb: nat, chunk: Bytes)
    requires |chunk| <= cb && cb % SECTOR == 0
    ensures Overlay(Zeros(cb), chunk) == chunk + Zeros(cb - |chunk|)
  {
    PaddedFits(|chunk|, cb);
  }

  lemma TailChain(fat: Fat, c: nat, n: nat)
    requires ChainOk(fat, c, n) && n > 0
    ensures IsCluster(fat, c) && Follow(fat, c, n) == [c] + Follow(fat, fat[c], n - 1)
    ensures n > 1 ==> ChainOk(fat, fat[c], n - 1)
    ensures n == 1 ==> !IsCluster(fat, fat[c]) || |fat| > CHAIN_END
    ensures c !in Follow(fat, fat[c], n - 1)
  {
    var rest := Follow(fat, fat[c], n - 1);
    assert Follow(fat, c, n) == [c] + rest;
    forall i | 0 <= i < |rest|
      ensures rest[i] != c
    {
      assert Follow(fat, c, n)[i + 1] == rest[i] && Follow(fat, c, n)[0] == c;
    }
    forall i, j | 0 <= i < j < |rest| ensures rest[i] != rest[j] {
      assert Follow(fat, c, n)[i + 1] == rest[i] && Follow(fat, c, n)[j + 1] == rest[j];
    }
    if n > 1 { assert rest[n - 2] == Follow(fat, c, n)[n - 1]; }
  }

  // The cluster at the head of a chain after its chunk is written.
  function HeadWritten(v: Vol, c: nat, bytes: Bytes): (r: Vol)
    requires WellFormed(v) && IsCluster(v.fat, c)
    ensures WellFormed(r)
  {
    var m := if |bytes| < v.cb then |bytes| else v.cb;
    v.(data := v.data[c - 2 := Overlay(v.data[c - 2], bytes[..m])])
  }

  lemma StreamLast(v: Vol, c: nat, bytes: Bytes)
    requires WellFormed(v) && IsCluster(v.fat, c) && 0 < |bytes| <= v.cb && v.data[c - 2] == Zeros(v.cb)
    ensures var v' := Stream(v, c, bytes);
            && v' == HeadWritten(v, c, bytes)
            && bytes <= v'.data[c - 2]
  {
    OverlayZeros(v.cb, bytes);
    assert bytes[..|bytes|] == bytes;
    assert Stream(HeadWritten(v, c, bytes), v.fat[c], bytes[|bytes|..]) == HeadWritten(v, c, bytes);
  }

  lemma StreamFirst(v: Vol, c: nat, bytes: Bytes)
    requires WellFormed(v) && IsCluster(v.fat, c) && |bytes| > v.cb && v.data[c - 2] == Zeros(v.cb)
    ensures var v1 := HeadWritten(v, c, bytes);
            && Stream(v, c, bytes) == Stream(v1, v.fat[c], bytes[v.cb..])
            && v1.data[c - 2] == bytes[..v.cb]
            && bytes == bytes[..v.cb] + bytes[v.cb..]
  {
    OverlayZeros(v.cb, bytes[..v.cb]);
  }

  // Streaming touches no cluster off the chain.
  lemma {:induction false} StreamKeeps(v: Vol, c: nat, bytes: Bytes, x: nat)
    requires WellFormed(v) && IsCluster(v.fat, x) && x !in Follow(v.fat, c, Need(|bytes|, v.cb))
    ensures Stream(v, c, bytes).data[x - 2] == v.data[x - 2]
    decreases |bytes|
  {
    if IsCluster(v.fat, c) && |bytes| > 0 {
      var n := Need(|bytes|, v.cb);
      NeedCovers(|bytes|, v.cb);
      assert Follow(v.fat, c, n) == [c] + Follow(v.fat, v.fat[c], n - 1);
      if |bytes| > v.cb {
        assert Stream(v, c, bytes) == Stream(HeadWritten(v, c, bytes), v.fat[c], bytes[v.cb..]);
        StreamKeeps(HeadWritten(v, c, bytes), v.fat[c], bytes[v.cb..], x);
      } else {
        assert Stream(HeadWritten(v, c, bytes), v.fat[c], bytes[|bytes|..]) == HeadWritten(v, c, bytes);
      }
    }
  }

  lemma GatherHead(v: Vol, c: nat, n: nat, head: Bytes, tail: Bytes)
    requires WellFormed(v) && IsCluster(v.fat, c) && n > 0
    requires v.data[c - 2] == head && tail <= Gather(v, v.fat[c], n - 1)
    ensures head + tail <= Gather(v, c, n)
  {
    assert Gather(v, c, n) == head + Gather(v, v.fat[c], n - 1);
  }

  lemma GatherOne(v: Vol, c: nat, bytes: Bytes)
    requires WellFormed(v) && IsCluster(v.fat, c) && bytes <= v.data[c - 2]
    ensures bytes <= Gather(v, c, 1)
  {
    assert Gather(v, c, 1) == v.data[c - 2] + Gather(v, v.fat[c], 0);
  }

  // The clusters of ch hold only zeros.
  ghost predicate Blank(v: Vol, ch: seq<nat>)
    requires WellFormed(v)
  {
    forall i :: 0 <= i < |ch| ==> 2 <= ch[i] < |v.fat| && v.data[ch[i] - 2] == Zeros(v.cb)
  }

  lemma BlankTail(v: Vol, v1: Vol, c: nat, rest: seq<nat>)
    requires WellFormed(v) && WellFormed(v1) && |v1.fat| == |v.fat| && v1.cb == v.cb && Blank(v, [c] + rest)
    requires c !in rest
    requires forall x: nat :: IsCluster(v.fat, x) && x != c ==> v1.data[x - 2] == v.data[x - 2]
    ensures Blank(v1, rest)
  {
    forall i | 0 <= i < |rest| ensures 2 <= rest[i] < |v1.fat| && v1.data[rest[i] - 2] == Zeros(v1.cb) {
      assert ([c] + rest)[i + 1] == rest[i];
      assert IsCluster(v.fat, rest[i]) && rest[i] != c;
    }
  }

  // A payload of more than one cluster needs one more than its tail.
  lemma NeedTail(size: nat, cb: nat)
    requires size > cb > 0
    ensures Need(size, cb) == Need(size - cb, cb) + 1
  {
    NeedCovers(size, cb);
  }

  // After the head is written the rest of the chain is still blank.
  lemma RestBlank(v: Vol, c: nat, bytes: Bytes)
    requires WellFormed(v) && ChainOk(v.fat, c, Need(|bytes|, v.cb)) && |bytes| > v.cb
    requires Blank(v, Follow(v.fat, c, Need(|bytes|, v.cb)))
    ensures IsCluster(v.fat, c) && v.data[c - 2] == Zeros(v.cb)
    ensures var n := Need(|bytes[v.cb..]|, v.cb);
            && n + 1 == Need(|bytes|, v.cb)
            && ChainOk(v.fat, v.fat[c], n) && c !in Follow(v.fat, v.fat[c], n)
            && Blank(HeadWritten(v, c, bytes), Follow(v.fat, v.fat[c], n))
  {
    NeedTail(|bytes|, v.cb);
    TailBlank(v, c, bytes, Need(|bytes|, v.cb), Need(|bytes[v.cb..]|, v.cb));
  }

  lemma TailBlank(v: Vol, c: nat, bytes: Bytes, m: nat, n: nat)
    requires WellFormed(v) && ChainOk(v.fat, c, m) && m == n + 1 > 1 && Blank(v, Follow(v.fat, c, m))
    ensures IsCluster(v.fat, c) && v.data[c - 2] == Zeros(v.cb)
    ensures ChainOk(v.fat, v.fat[c], n) && c !in Follow(v.fat, v.fat[c], n)
    ensures Blank(HeadWritten(v, c, bytes), Follow(v.fat, v.fat[c], n))
  {
    TailChain(v.fat, c, m);
    assert Follow(v.fat, c, m)[0] == c;
    BlankTail(v, HeadWritten(v, c, bytes), c, Follow(v.fat, v.fat[c], n));
  }

  // Streaming into a fresh chain stores the payload.
  lemma {:induction false} StreamStores(v: Vol, c: nat, bytes: Bytes)
    requires WellFormed(v) && ChainOk(v.fat, c, Need(|bytes|, v.cb))
    requires Blank(v, Follow(v.fat, c, Need(|bytes|, v.cb)))
    ensures bytes <= Gather(Stream(v, c, bytes), c, Need(|bytes|, v.cb))
    decreases |bytes|
  {
    var n := Need(|bytes|, v.cb);
    NeedCovers(|bytes|, v.cb);
    if |bytes| > 0 {
      TailChain(v.fat, c, n);
      assert Follow(v.fat, c, n)[0] == c;
      if |bytes| <= v.cb {
        StreamLast(v, c, bytes);
        GatherOne(Stream(v, c, bytes), c, bytes);
      } else {
        RestBlank(v, c, bytes);
        StreamFirst(v, c, bytes);
        StreamStores(HeadWritten(v, c, bytes), v.fat[c], bytes[v.cb..]);
        StreamKeeps(HeadWritten(v, c, bytes), v.fat[c], bytes[v.cb..], c);
        GatherHead(Stream(v, c, bytes), c, n, bytes[..v.cb], bytes[v.cb..]);
      }
    }
  }
}
