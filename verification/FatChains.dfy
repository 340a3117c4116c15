// Cluster chains in the FAT: following, freeing and allocating them.

module FatChains {
  import opened FatEntries

  const END_MARK: entry := 0xFFF
  const CHAIN_END: nat := 0xFF0        // links at or above this end a chain

  type Fat = seq<entry>                // entry c describes cluster c; clusters start at 2

  predicate IsCluster(fat: Fat, c: nat) { 2 <= c < |fat| }

  // The first n clusters reached from c; fewer when the links run out.
  function Follow(fat: Fat, c: nat, n: nat): (r: seq<nat>)
    ensures |r| <= n
    ensures forall i :: 0 <= i < |r| ==> IsCluster(fat, r[i])
    decreases n
  {
    if n == 0 || !IsCluster(fat, c) then [] else [c] + Follow(fat, fat[c], n - 1)
  }

  // Following reads only the entries of the clusters it visits.
  lemma {:induction false} FollowFrame(fat: Fat, fat': Fat, c: nat, n: nat)
    requires |fat'| == |fat|
    requires forall x :: x in Follow(fat, c, n) ==> fat'[x] == fat[x]
    ensures Follow(fat', c, n) == Follow(fat, c, n)
    decreases n
  {
    if n > 0 && IsCluster(fat, c) {
      var rest := Follow(fat, fat[c], n - 1);
      assert Follow(fat, c, n) == [c] + rest;
      assert c in Follow(fat, c, n);
      forall x | x in rest ensures fat'[x] == fat[x] { assert x in Follow(fat, c, n); }
      FollowFrame(fat, fat', fat[c], n - 1);
    }
  }

  // Consecutive clusters of a followed chain are linked.
  lemma {:induction false} FollowLinks(fat: Fat, c: nat, n: nat, i: nat)
    requires i < |Follow(fat, c, n)|
    ensures i == 0 ==> Follow(fat, c, n)[i] == c
    ensures i + 1 < |Follow(fat, c, n)| ==> fat[Follow(fat, c, n)[i]] == Follow(fat, c, n)[i + 1]
    decreases n
  {
    var rest := Follow(fat, fat[c], n - 1);
    assert Follow(fat, c, n) == [c] + rest;
    if i > 0 {
      FollowLinks(fat, fat[c], n - 1, i - 1);
    } else if |rest| > 0 {
      FollowLinks(fat, fat[c], n - 1, 0);
    }
  }

  // Clusters linked one to the next are what following from the first visits.
  lemma {:induction false} FollowIs(fat: Fat, chain: seq<nat>, n: nat)
    requires |chain| == n > 0 && forall i :: 0 <= i < n ==> 2 <= chain[i] < |fat|
    requires forall i :: 0 <= i < n - 1 ==> fat[chain[i]] == chain[i + 1]
    ensures Follow(fat, chain[0], n) == chain
    decreases n
  {
    if n > 1 {
      FollowIs(fat, chain[1..], n - 1);
    }
    assert chain == [chain[0]] + chain[1..];
  }

  // ------------------------------------------------------------------
  // Counting
  // ------------------------------------------------------------------

  // Free clusters below n.
  function FreeBelow(fat: Fat, n: nat): (r: nat)
    requires n <= |fat|
    ensures r <= if n <= 2 then 0 else n - 2
  {
    if n <= 2 then 0 else FreeBelow(fat, n - 1) + if fat[n - 1] == 0 then 1 else 0
  }

  function FreeCount(fat: Fat): nat { FreeBelow(fat, |fat|) }

  function UsedCount(fat: Fat): nat {
    if |fat| <= 2 then 0 else |fat| - 2 - FreeCount(fat)
  }

  // Changing one entry changes the count by one when it becomes, or stops being, zero.
  lemma {:induction false} FreeBelowUpdate(fat: Fat, c: nat, v: entry, n: nat)
    requires IsCluster(fat, c) && n <= |fat|
    ensures FreeBelow(fat[c := v], n) + (if c < n && fat[c] == 0 then 1 else 0)
            == FreeBelow(fat, n) + (if c < n && v == 0 then 1 else 0)
    decreases n
  {
    if n > 2 { FreeBelowUpdate(fat, c, v, n - 1); }
  }

  lemma FreeCountUpdate(fat: Fat, c: nat, v: entry)
    requires IsCluster(fat, c)
    ensures FreeCount(fat[c := v]) + (if fat[c] == 0 then 1 else 0) == FreeCount(fat) + (if v == 0 then 1 else 0)
    ensures FreeCount(fat) <= |fat| - 2
  {
    FreeBelowUpdate(fat, c, v, |fat|);
  }

  // ------------------------------------------------------------------
  // fat_free_chain
  // ------------------------------------------------------------------

  // A cluster number that stays in the table, or ends a chain.
  predicate LinkOk(fat: Fat, c: nat) { c < |fat| || CHAIN_END <= c }

  predicate LinksOk(fat: Fat) { forall c :: 2 <= c < |fat| ==> LinkOk(fat, fat[c]) }

  // Release clusters from c on until the links end; each round zeroes a non-zero entry
  // or meets a zero one and stops, so no chain, even a cyclic one, runs forever.
  function FreeChain(fat: Fat, c: nat): (r: Fat)
    ensures |r| == |fat|
    decreases UsedCount(fat), 1
  {
    if !IsCluster(fat, c) then fat
    else if fat[c] == 0 then fat
    else FreeRest(fat, c)
  }

  function FreeRest(fat: Fat, c: nat): (r: Fat)
    requires IsCluster(fat, c) && fat[c] != 0
    ensures |r| == |fat|
    decreases UsedCount(fat), 0
  {
    FreeCountUpdate(fat, c, 0);
    FreeChain(fat[c := 0], fat[c])
  }

  // One round of the loop: the rest of the work is unchanged and, unless the chain has
  // ended, one cluster fewer is in use.
  lemma FreeStep(fat: Fat, c: nat)
    requires IsCluster(fat, c) && LinksOk(fat)
    ensures var fat': Fat := fat[c := 0];
            && FreeChain(fat', fat[c]) == FreeChain(fat, c)
            && LinksOk(fat') && LinkOk(fat', fat[c])
            && UsedCount(fat') == UsedCount(fat) - (if fat[c] == 0 then 0 else 1)
            && UsedCount(fat) <= |fat|
  {
    FreeCountUpdate(fat, c, 0);
    if fat[c] == 0 { assert fat[c := 0] == fat; }
  }

  lemma {:induction false} FreeChainKeepsLinks(fat: Fat, c: nat)
    requires LinksOk(fat) && LinkOk(fat, c)
    ensures LinksOk(FreeChain(fat, c))
    decreases UsedCount(fat), c
  {
    if IsCluster(fat, c) && fat[c] != 0 {
      FreeStep(fat, c);
      FreeChainKeepsLinks(fat[c := 0], fat[c]);
    }
  }

  // Freeing touches nothing outside the chain and zeroes all of it.
  lemma {:induction false} FreeChainEffect(fat: Fat, c: nat, n: nat)
    requires var ch := Follow(fat, c, n);
             && |ch| == n
             && (n == 0 ==> !IsCluster(fat, c))
             && (n > 0 ==> fat[ch[n - 1]] >= CHAIN_END && |fat| <= CHAIN_END)
             && (forall i, j :: 0 <= i < j < n ==> ch[i] != ch[j])
             && (forall i :: 0 <= i < n ==> fat[ch[i]] != 0)
    ensures forall x :: 0 <= x < |fat| ==> FreeChain(fat, c)[x] == if x in Follow(fat, c, n) then 0 else fat[x]
    ensures FreeCount(FreeChain(fat, c)) == FreeCount(fat) + n
    decreases n
  {
    var ch := Follow(fat, c, n);
    if n > 0 {
      var rest := Follow(fat, fat[c], n - 1);
      assert ch == [c] + rest;
      var fat1: Fat := fat[c := 0];
      forall x | x in rest ensures fat1[x] == fat[x] && x != c {
        var i :| 0 <= i < |rest| && rest[i] == x;
        assert ch[0] == c && ch[i + 1] == x && ch[0] != ch[i + 1];
      }
      FollowFrame(fat, fat1, fat[c], n - 1);
      forall i, j | 0 <= i < j < n - 1 ensures rest[i] != rest[j] { assert ch[i + 1] != ch[j + 1]; }
      forall i | 0 <= i < n - 1 ensures fat1[rest[i]] != 0 { assert ch[i + 1] == rest[i]; }
      if n > 1 { assert rest[n - 2] == ch[n - 1]; }
      FreeChainEffect(fat1, fat[c], n - 1);
      FreeCountUpdate(fat, c, 0);
    }
  }
}
