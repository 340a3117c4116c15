// Where files are lost: what a replacement and a name with the deleted mark do to the disks
// the image builder lays out.

module FatLimits {
  import opened FatChains
  import opened FatVolume
  import opened FatInvariant
  import opened FatCreate
  import opened FatRefinement
  import opened FatRuns
  import opened FatNames
  import opened FatImage
  import opened FatService
  import FatDriver

  // ------------------------------------------------------------------
  // Free clusters of a fresh image
  // ------------------------------------------------------------------

  lemma {:induction false} LinkNonZero(files: seq<File>, i: nat)
    requires i < Total(files) && Total(files) + 2 < CHAIN_END
    ensures 0 < LinkAt(files, i) < 4096
    decreases |files|
  {
    var rest := files[..|files| - 1];
    if i < Total(rest) { LinkNonZero(rest, i); }
  }

  lemma {:induction false} FreeUpTo(files: seq<File>, n: nat, m: nat)
    requires Sound(files, n) && m <= n + 2 < CHAIN_END
    ensures FreeBelow(FatList(files, n, n + 2), m) == if m <= 2 + Total(files) then 0 else m - 2 - Total(files)
    decreases m
  {
    if m > 2 {
      FreeUpTo(files, n, m - 1);
      FatListAt(files, n, n + 2, m - 1);
      if m - 1 < 2 + Total(files) { LinkNonZero(files, m - 3); }
    }
  }

  // ------------------------------------------------------------------
  // Replacement
  // ------------------------------------------------------------------

  // Replacing a file of a fresh image works exactly when the new bytes fit in the free
  // clusters and the old file's; otherwise it fails, and leaves the slot naming clusters
  // that are free.
  lemma ReplaceFitsIff(files: seq<File>, k: nat, bytes: Bytes)
    requires Fits(files, CLUSTERS, ROOT_SLOTS) && Sound(files, CLUSTERS) && k < |files| && |bytes| < 0x1_0000_0000
    ensures var v := Built(files, CLUSTERS, ROOT_SLOTS); var (v', ok) := Write(v, files[k].name, bytes);
            && Inv(v)
            && (ok <==> Need(|bytes|, SECTOR) <= CLUSTERS - Total(files) + Clusters(files[k]))
            && (Inv(v') <==> ok)
  {
    var v, name := Built(files, CLUSTERS, ROOT_SLOTS), files[k].name;
    BuiltInv(files, CLUSTERS, ROOT_SLOTS);
    BuiltFiles(files, CLUSTERS, ROOT_SLOTS);
    FreeUpTo(files, CLUSTERS, CLUSTERS + 2);
    assert name in Files(v) && Files(v)[name] == files[k].data;
    PutSucceedsIff(v, name, bytes);
    if Write(v, name, bytes).1 { WriteRefines(v, name, bytes); } else { FailedReplaceIff(v, name, bytes); }
  }

  // One file of one cluster, and a filler that leaves one cluster of the disk free.
  function NearlyFull(name: Bytes, filler: Bytes): seq<File> {
    [File(name, [1]), File(filler, Zeros(2845 * SECTOR))]
  }

  lemma NearlyFullFits(name: Bytes, filler: Bytes)
    requires Storable(name) && Storable(filler) && name != filler
    ensures var files := NearlyFull(name, filler);
            Fits(files, CLUSTERS, ROOT_SLOTS) && Sound(files, CLUSTERS) && Total(files) == 2846 &&
                Clusters(files[0]) == 1
  {
    var files := NearlyFull(name, filler);
    NeedCovers(1, SECTOR);
    assert Need(2845 * SECTOR, SECTOR) == 2845;
    assert files[..1][..0] == [] && files[..1][0] == files[0];
    assert Total(files[..1]) == 1;
  }

  // Replacing the small file by 2048 bytes, as closing a full descriptor does, loses it.
  lemma SmallFileLost(name: Bytes, filler: Bytes)
    requires Storable(name) && Storable(filler) && name != filler
    ensures var files := NearlyFull(name, filler);
            Fits(files, CLUSTERS, ROOT_SLOTS) && Sound(files, CLUSTERS)
            && var v := Built(files, CLUSTERS, ROOT_SLOTS); var (v', ok) := Write(v, name, Zeros(2048));
               Inv(v) && name in Files(v) && !ok && !Inv(v')
  {
    var files := NearlyFull(name, filler);
    NearlyFullFits(name, filler);
    assert Need(2048, SECTOR) == 4;
    assert files[0].name == name;
    ReplaceFitsIff(files, 0, Zeros(2048));
    BuiltFiles(files, CLUSTERS, ROOT_SLOTS);
  }

  // The same on the disk itself: boot from the image and write.
  method LoseFile(name: Bytes) returns (d: FatDriver.Driver, ok: bool)
    requires CharAt(name, 0) != DELETED
    ensures d.Ready() && !ok && !Inv(d.vol)
  {
    NormStorableIff(name);
    var filler := OtherName(name);
    SmallFileLost(Norm(name), filler);
    d := Boot(NearlyFull(Norm(name), filler));
    InvIsSane(d.vol);
    ok := d.FatWrite(name, Zeros(2048));
  }

  // A stored name other than this one's.
  method OtherName(name: Bytes) returns (other: Bytes)
    ensures |other| == NAME && other != Norm(name) && Storable(other)
  {
    var a: Bytes, b: Bytes := [65], [66];
    NormStorableIff(a);
    NormStorableIff(b);
    NormAt(a, 0);
    NormAt(b, 0);
    assert Norm(a)[0] != Norm(b)[0];
    other := Norm(if Norm(name) == Norm(a) then b else a);
  }

  // ------------------------------------------------------------------
  // The deleted mark
  // ------------------------------------------------------------------

  lemma EmptyDiskTakes(name: Bytes, bytes: Bytes)
    requires |name| == NAME && name[0] == DELETED && 0 < |bytes| <= SECTOR
    ensures Write(Built([], CLUSTERS, ROOT_SLOTS), name, bytes).1
  {
    var v := Built([], CLUSTERS, ROOT_SLOTS);
    DirListAt([], ROOT_SLOTS, 0);
    FreeUpTo([], CLUSTERS, CLUSTERS + 2);
    NeedCovers(|bytes|, SECTOR);
    WriteIsStore(v, name, bytes);
    var ch := StoreEffect(v, 0, name, bytes);
  }

  // On an empty disk, a file whose name begins with the deleted mark is written with
  // success and is gone.
  lemma DeletedNameVanishes(name: Bytes, bytes: Bytes)
    requires |name| == NAME && name[0] == DELETED && 0 < |bytes| <= SECTOR
    ensures var v := Built([], CLUSTERS, ROOT_SLOTS);
            Inv(v) && Write(v, name, bytes).1 && name !in Files(Write(v, name, bytes).0)
  {
    var v := Built([], CLUSTERS, ROOT_SLOTS);
    BuiltInv([], CLUSTERS, ROOT_SLOTS);
    EmptyDiskTakes(name, bytes);
    WriteIsUpdateIff(v, name, bytes);
    var v' := Write(v, name, bytes).0;
    if name in Files(v') { NamesAreStorable(v', name); }
  }
}
