// The initial volume tools/mkdata.py lays out: files packed one after the other from
// cluster 2, and when such a volume satisfies the invariant.

module FatImage {
  import opened FatEntries
  import opened FatChains
  import opened FatVolume
  import opened FatInvariant
  import opened FatCreate

  datatype File = File(name: Bytes, data: Bytes)

  // Clusters of one sector a file takes.
  function Clusters(f: File): nat { Need(|f.data|, SECTOR) }

  // Clusters the files take together.
  function Total(files: seq<File>): nat {
    if |files| == 0 then 0 else Total(files[..|files| - 1]) + Clusters(files[|files| - 1])
  }

  // The first cluster of file k.
  function Start(files: seq<File>, k: nat): nat
    requires k <= |files|
  {
    2 + Total(files[..k])
  }

  predicate NamesFit(files: seq<File>) { forall k :: 0 <= k < |files| ==> |files[k].name| == NAME }

  predicate Named(files: seq<File>) {
    && (forall k :: 0 <= k < |files| ==> Storable(files[k].name) && |files[k].data| < 0x1_0000_0000)
    && (forall j, k :: 0 <= j < k < |files| ==> files[j].name != files[k].name)
  }

  // mkdata.py can lay these files out on a disk of n clusters with `slots` root entries.
  predicate Fits(files: seq<File>, n: nat, slots: nat) {
    Named(files) && |files| <= slots && Total(files) <= n && n + 2 < CHAIN_END
  }

  // The i-th entry appended to fat_entries after the first two.
  function LinkAt(files: seq<File>, i: nat): nat
    requires i < Total(files)
    decreases |files|
  {
    var (rest, f) := (files[..|files| - 1], files[|files| - 1]);
    if i < Total(rest) then LinkAt(rest, i)
    else if i - Total(rest) + 1 < Clusters(f) then 2 + i + 1
    else 0xFFF
  }

  // What the data area holds in its i-th cluster.
  function DataAt(files: seq<File>, i: nat): (r: Bytes)
    requires i < Total(files)
    ensures |r| == SECTOR
    decreases |files|
  {
    var (rest, f) := (files[..|files| - 1], files[|files| - 1]);
    if i < Total(rest) then DataAt(rest, i) else Piece(f.data, (i - Total(rest)) * SECTOR)
  }

  // Entry c of fat_entries.
  function ListEntry(files: seq<File>, c: nat): entry {
    if c == 0 then 0xFF0 else if c == 1 then 0xFFF
    else if c - 2 < Total(files) then LinkAt(files, c - 2) % 4096
    else 0
  }

  // Entries fat12_bytes keeps of n + 2: it packs pairs, so an odd last one is lost.
  function Kept(n: nat): nat { n + 2 - n % 2 }

  // Entry c of the packed table, read back.
  function Entry(files: seq<File>, n: nat, c: nat): entry {
    if c < Kept(n) then ListEntry(files, c) else 0
  }

  function ClusterAt(files: seq<File>, i: nat): (r: Bytes)
    ensures |r| == SECTOR
  {
    if i < Total(files) then DataAt(files, i) else Zeros(SECTOR)
  }

  function SlotAt(files: seq<File>, k: nat): (r: Bytes)
    requires NamesFit(files)
    ensures |r| == SLOT
  {
    if k < |files| then MakeSlot(files[k].name, Start(files, k), |files[k].data|) else Zeros(SLOT)
  }

  function FatList(files: seq<File>, n: nat, m: nat): (r: Fat)
    ensures |r| == m
  {
    if m == 0 then [] else FatList(files, n, m - 1) + [Entry(files, n, m - 1)]
  }

  function DirList(files: seq<File>, m: nat): (r: seq<Bytes>)
    requires NamesFit(files)
    ensures |r| == m && forall k :: 0 <= k < m ==> |r[k]| == SLOT
  {
    if m == 0 then [] else DirList(files, m - 1) + [SlotAt(files, m - 1)]
  }

  function DataList(files: seq<File>, m: nat): (r: seq<Bytes>)
    ensures |r| == m && forall i :: 0 <= i < m ==> |r[i]| == SECTOR
  {
    if m == 0 then [] else DataList(files, m - 1) + [ClusterAt(files, m - 1)]
  }

  lemma {:induction false} FatListAt(files: seq<File>, n: nat, m: nat, c: nat)
    requires c < m
    ensures FatList(files, n, m)[c] == Entry(files, n, c)
    decreases m
  {
    if c < m - 1 { FatListAt(files, n, m - 1, c); }
  }

  lemma {:induction false} DirListAt(files: seq<File>, m: nat, k: nat)
    requires NamesFit(files) && k < m
    ensures DirList(files, m)[k] == SlotAt(files, k)
    decreases m
  {
    if k < m - 1 { DirListAt(files, m - 1, k); }
  }

  lemma {:induction false} DataListAt(files: seq<File>, m: nat, i: nat)
    requires i < m
    ensures DataList(files, m)[i] == ClusterAt(files, i)
    decreases m
  {
    if i < m - 1 { DataListAt(files, m - 1, i); }
  }

  // The volume on the disk mkdata.py writes.
  function Built(files: seq<File>, n: nat, slots: nat): (v: Vol)
    requires Fits(files, n, slots)
    ensures WellFormed(v)
  {
    Vol(FatList(files, n, n + 2), DirList(files, slots), DataList(files, n), SECTOR)
  }

  // ------------------------------------------------------------------
  // Where the clusters of a file are
  // ------------------------------------------------------------------

  lemma {:induction false} StartStep(files: seq<File>, k: nat, l: nat)
    requires k < l <= |files|
    ensures Start(files, k) + Clusters(files[k]) <= Start(files, l)
    decreases l
  {
    assert files[..l][..l - 1] == files[..l - 1];
    if k < l - 1 { StartStep(files, k, l - 1); }
  }

  lemma StartAll(files: seq<File>, k: nat)
    requires k < |files|
    ensures Start(files, k) + Clusters(files[k]) <= 2 + Total(files)
  {
    StartStep(files, k, |files|);
    assert files[..|files|] == files;
  }

  // Cell j of file k is cell i of the data area.
  lemma {:induction false} CellAt(files: seq<File>, k: nat, j: nat, i: nat)
    requires k < |files| && j < Clusters(files[k]) && i + 2 == Start(files, k) + j
    ensures i < Total(files)
    ensures LinkAt(files, i) == if j + 1 < Clusters(files[k]) then i + 3 else 0xFFF
    ensures DataAt(files, i) == Piece(files[k].data, j * SECTOR)
    decreases |files|
  {
    var rest := files[..|files| - 1];
    StartAll(files, k);
    if k < |files| - 1 {
      assert rest[..k] == files[..k];
      CellAt(rest, k, j, i);
    }
  }

  // Every cell is a cell of some file.
  lemma {:induction false} CellOwner(files: seq<File>, i: nat) returns (k: nat, j: nat)
    requires i < Total(files)
    ensures k < |files| && j < Clusters(files[k]) && i + 2 == Start(files, k) + j
    decreases |files|
  {
    var rest := files[..|files| - 1];
    if i < Total(rest) {
      k, j := CellOwner(rest, i);
      assert rest[..k] == files[..k];
    } else {
      k, j := |files| - 1, i - Total(rest);
    }
  }

  // The clusters of file k, in order.
  function Run(start: nat, n: nat): (r: seq<nat>)
    ensures |r| == n
  {
    if n == 0 then [] else Run(start, n - 1) + [start + n - 1]
  }

  lemma {:induction false} RunAt(start: nat, n: nat, i: nat)
    requires i < n
    ensures Run(start, n)[i] == start + i
    decreases n
  {
    if i < n - 1 { RunAt(start, n - 1, i); }
  }

  lemma {:induction false} RunHas(start: nat, n: nat, c: nat)
    ensures c in Run(start, n) <==> start <= c < start + n
    decreases n
  {
    if n > 0 { RunHas(start, n - 1, c); }
  }

  lemma SlotReads(files: seq<File>, n: nat, slots: nat, k: nat)
    requires Fits(files, n, slots) && k < |files|
    ensures var e := Built(files, n, slots).dir[k];
            && InUse(e) && SlotName(e) == files[k].name && SlotFirst(e) == Start(files, k) &&
               SlotSize(e) == |files[k].data|
  {
    StartAll(files, k);
    DirListAt(files, slots, k);
    MakeSlotReads(files[k].name, Start(files, k), |files[k].data|);
    var e := SlotAt(files, k);
    assert e[0] == SlotName(e)[0];
  }

  lemma SmallEntry(x: nat)
    requires x < 4096
    ensures x % 4096 == x
  {
  }

  // The entry and the data of cluster j of file k.
  lemma ListedEntry(files: seq<File>, k: nat, j: nat, c: nat)
    requires 2 + Total(files) < CHAIN_END && k < |files| && j < Clusters(files[k]) && c == Start(files, k) + j
    ensures 2 <= c < 2 + Total(files)
    ensures ClusterAt(files, c - 2) == Piece(files[k].data, j * SECTOR)
    ensures ListEntry(files, c) == if j + 1 < Clusters(files[k]) then c + 1 else 0xFFF
  {
    StartAll(files, k);
    CellAt(files, k, j, c - 2);
    SmallEntry(LinkAt(files, c - 2));
  }

  lemma EntryOfFile(files: seq<File>, n: nat, k: nat, j: nat, c: nat)
    requires Total(files) <= n && n + 2 < CHAIN_END && k < |files| && j < Clusters(files[k]) && c == Start(files, k) + j
    ensures 2 <= c < n + 2 && c - 2 < Total(files)
    ensures DataList(files, n)[c - 2] == Piece(files[k].data, j * SECTOR)
    ensures FatList(files, n, n + 2)[c] == if c >= Kept(n) then 0 else if j + 1 < Clusters(files[k]) then c + 1
            else 0xFFF
  {
    ListedEntry(files, k, j, c);
    DataListAt(files, n, c - 2);
    ListedOrDropped(files, n, c);
  }

  lemma ListedOrDropped(files: seq<File>, n: nat, c: nat)
    requires c < n + 2
    ensures FatList(files, n, n + 2)[c] == if c >= Kept(n) then 0 else ListEntry(files, c)
  {
    FatListAt(files, n, n + 2, c);
  }

  // With the dropped entry free, the chain of a non-empty file is its run of clusters.
  lemma ChainIsRun(files: seq<File>, n: nat, slots: nat, k: nat)
    requires Fits(files, n, slots) && 2 + Total(files) <= Kept(n) && k < |files| && |files[k].data| > 0
    ensures var v := Built(files, n, slots);
            && FileAt(v, k) && SlotOk(v, k) && Chain(v, k) == Run(Start(files, k), Clusters(files[k]))
  {
    SlotReads(files, n, slots, k);
    NeedCovers(|files[k].data|, SECTOR);
    RunFollows(files, n, slots, k);
  }

  // Clusters linked each to the next are followed as a run.
  lemma RunLinks(fat: Fat, start: nat, m: nat)
    requires m > 0 && forall i: nat :: i < m ==> 2 <= Run(start, m)[i] < |fat|
    requires forall i: nat :: i < m - 1 ==> fat[Run(start, m)[i]] == Run(start, m)[i] + 1
    ensures Follow(fat, start, m) == Run(start, m)
  {
    var run := Run(start, m);
    RunAt(start, m, 0);
    forall i | 0 <= i < m - 1 ensures fat[run[i]] == run[i + 1] {
      RunAt(start, m, i);
      RunAt(start, m, i + 1);
    }
    FollowIs(fat, run, m);
  }

  lemma RunFollows(files: seq<File>, n: nat, slots: nat, k: nat)
    requires Fits(files, n, slots) && 2 + Total(files) <= Kept(n) && k < |files| && Clusters(files[k]) > 0
    ensures var v, m := Built(files, n, slots), Clusters(files[k]);
            Follow(v.fat, Start(files, k), m) == Run(Start(files, k), m) && ChainOk(v.fat, Start(files, k), m)
  {
    var v, m := Built(files, n, slots), Clusters(files[k]);
    var run := Run(Start(files, k), m);
    StartAll(files, k);
    forall i: nat | i < m ensures 2 <= run[i] < |v.fat| && v.fat[run[i]] == if i + 1 < m then run[i] + 1 else 0xFFF {
      RunAt(Start(files, k), m, i);
      EntryOfFile(files, n, k, i, run[i]);
    }
    forall i, j | 0 <= i < j < m ensures run[i] < run[j] {
      RunAt(Start(files, k), m, i);
      RunAt(Start(files, k), m, j);
    }
    RunLinks(v.fat, Start(files, k), m);
  }

  // ------------------------------------------------------------------
  // The invariant
  // ------------------------------------------------------------------

  // No file is empty, and no file needs the entry that packing drops.
  predicate Sound(files: seq<File>, n: nat) {
    (forall k :: 0 <= k < |files| ==> |files[k].data| > 0) && 2 + Total(files) <= Kept(n)
  }

  lemma OnlyFiles(files: seq<File>, n: nat, slots: nat, k: nat)
    requires Fits(files, n, slots)
    ensures FileAt(Built(files, n, slots), k) <==> k < |files|
  {
    if k < |files| {
      SlotReads(files, n, slots, k);
    } else if k < slots {
      DirListAt(files, slots, k);
    }
  }

  lemma BuiltDir(files: seq<File>, n: nat, slots: nat)
    requires Fits(files, n, slots)
    ensures DirTail(Built(files, n, slots).dir) && NamesUnique(Built(files, n, slots))
  {
    var v := Built(files, n, slots);
    forall k: nat | k < |files| ensures InUse(v.dir[k]) && SlotName(v.dir[k]) == files[k].name {
      SlotReads(files, n, slots, k);
    }
    forall k: nat ensures FileAt(v, k) <==> k < |files| { OnlyFiles(files, n, slots, k); }
    forall i, j | 0 <= i < j < |v.dir| && v.dir[i][0] == 0 ensures v.dir[j][0] == 0 {
      assert i >= |files|;
      DirListAt(files, slots, j);
    }
  }

  lemma BuiltApart(files: seq<File>, n: nat, slots: nat)
    requires Fits(files, n, slots) && Sound(files, n)
    ensures ChainsApart(Built(files, n, slots))
  {
    var v := Built(files, n, slots);
    forall k: nat, l: nat, c: nat | FileAt(v, k) && FileAt(v, l) && c in Chain(v, k) && c in Chain(v, l)
      ensures k == l
    {
      OnlyFiles(files, n, slots, k);
      OnlyFiles(files, n, slots, l);
      ChainIsRun(files, n, slots, k);
      ChainIsRun(files, n, slots, l);
      RunHas(Start(files, k), Clusters(files[k]), c);
      RunHas(Start(files, l), Clusters(files[l]), c);
      if k < l { StartStep(files, k, l); }
      if l < k { StartStep(files, l, k); }
    }
  }

  lemma BuiltNoLost(files: seq<File>, n: nat, slots: nat)
    requires Fits(files, n, slots) && Sound(files, n)
    ensures NoLostClusters(Built(files, n, slots))
  {
    var v := Built(files, n, slots);
    forall c: nat | IsCluster(v.fat, c) && v.fat[c] != 0 ensures exists k: nat :: FileAt(v, k) && c in Chain(v, k) {
      FatListAt(files, n, n + 2, c);
      var k, j := CellOwner(files, c - 2);
      ChainIsRun(files, n, slots, k);
      RunHas(Start(files, k), Clusters(files[k]), c);
    }
  }

  lemma BuiltInv(files: seq<File>, n: nat, slots: nat)
    requires Fits(files, n, slots) && Sound(files, n)
    ensures Inv(Built(files, n, slots))
  {
    var v := Built(files, n, slots);
    BuiltDir(files, n, slots);
    forall k: nat | FileAt(v, k) ensures SlotOk(v, k) {
      OnlyFiles(files, n, slots, k);
      ChainIsRun(files, n, slots, k);
    }
    BuiltApart(files, n, slots);
    BuiltNoLost(files, n, slots);
  }

  // An empty file is given the cluster that comes next.
  lemma EmptyFileBreaks(files: seq<File>, n: nat, slots: nat, k: nat)
    requires Fits(files, n, slots) && k < |files| && |files[k].data| == 0
    ensures !Inv(Built(files, n, slots))
  {
    var v := Built(files, n, slots);
    SlotReads(files, n, slots, k);
    StartAll(files, k);
    NeedCovers(0, SECTOR);
    assert FileAt(v, k) && !SlotOk(v, k);
  }

  // The file whose last cluster has the dropped entry is cut off.
  lemma DroppedEntryBreaks(files: seq<File>, n: nat, slots: nat)
    requires Fits(files, n, slots) && 2 + Total(files) > Kept(n)
    ensures !Inv(Built(files, n, slots))
  {
    var v := Built(files, n, slots);
    var k, j := CellOwner(files, n - 1);
    EntryOfFile(files, n, k, j, n + 1);
    StartAll(files, k);
    SlotReads(files, n, slots, k);
    if Inv(v) {
      assert FileAt(v, k) && SlotOk(v, k);
      LostTail(files, n, slots, k);
    }
  }

  lemma LostTail(files: seq<File>, n: nat, slots: nat, k: nat)
    requires Fits(files, n, slots) && 2 + Total(files) > Kept(n) && k < |files| && Clusters(files[k]) > 0
    requires Start(files, k) + Clusters(files[k]) == n + 2
    ensures !SlotOk(Built(files, n, slots), k)
  {
    var v := Built(files, n, slots);
    var m := Clusters(files[k]);
    SlotReads(files, n, slots, k);
    var run := Run(Start(files, k), m);
    forall i: nat | i < m ensures 2 <= run[i] < |v.fat| && v.fat[run[i]] == if i < m - 1 then run[i] + 1 else 0 {
      RunAt(Start(files, k), m, i);
      EntryOfFile(files, n, k, i, run[i]);
    }
    RunLinks(v.fat, Start(files, k), m);
    assert v.fat[run[m - 1]] == 0;
  }

  // The image satisfies the volume invariant exactly when no file is empty and none
  // reaches the cluster whose entry packing drops.
  lemma BuiltInvIff(files: seq<File>, n: nat, slots: nat)
    requires Fits(files, n, slots)
    ensures Inv(Built(files, n, slots)) <==> Sound(files, n)
  {
    if Sound(files, n) {
      BuiltInv(files, n, slots);
    } else if 2 + Total(files) > Kept(n) {
      DroppedEntryBreaks(files, n, slots);
    } else {
      var k :| 0 <= k < |files| && |files[k].data| == 0;
      EmptyFileBreaks(files, n, slots, k);
    }
  }

  // ------------------------------------------------------------------
  // The files
  // ------------------------------------------------------------------

  // What cluster j of file k holds, and where its entry leads.
  ghost predicate CellIs(files: seq<File>, v: Vol, k: nat, j: nat, c: nat)
    requires k < |files|
  {
    && 2 <= c < |v.fat| && |v.data| == |v.fat| - 2 && v.data[c - 2] == Piece(files[k].data, j * SECTOR)
    && (j + 1 < Clusters(files[k]) ==> v.fat[c] == c + 1)
  }

  // Gathering from cluster j of a file on yields the pieces of its data from there.
  lemma {:induction false} GatherFile(files: seq<File>, v: Vol, k: nat, j: nat, at: nat, c: nat, m: nat)
    requires WellFormed(v) && k < |files| && j + m == Clusters(files[k]) && at == j * SECTOR
    requires forall i: nat, x: nat :: j <= i < Clusters(files[k]) && x - c == i - j ==> CellIs(files, v, k, i, x)
    ensures Gather(v, c, m) == Pieces(files[k].data, at, m)
    decreases m
  {
    if m > 0 {
      assert CellIs(files, v, k, j, c);
      GatherFile(files, v, k, j + 1, at + SECTOR, c + 1, m - 1);
      GatherStep(v, c, m, files[k].data, at);
    }
  }

  lemma GatherStep(v: Vol, c: nat, m: nat, data: Bytes, at: nat)
    requires WellFormed(v) && IsCluster(v.fat, c) && m > 0 && (m > 1 ==> v.fat[c] == c + 1)
    requires v.data[c - 2] == Piece(data, at) && Gather(v, c + 1, m - 1) == Pieces(data, at + SECTOR, m - 1)
    ensures Gather(v, c, m) == Pieces(data, at, m)
  {
    PiecesHead(data, at, m);
    GatherOnce(v, c, m);
  }

  lemma GatherOnce(v: Vol, c: nat, m: nat)
    requires WellFormed(v) && IsCluster(v.fat, c) && m > 0 && (m > 1 ==> v.fat[c] == c + 1)
    ensures Gather(v, c, m) == v.data[c - 2] + Gather(v, c + 1, m - 1)
  {
  }

  lemma {:induction false} PiecesHead(data: Bytes, at: nat, m: nat)
    requires m > 0
    ensures Pieces(data, at, m) == Piece(data, at) + Pieces(data, at + SECTOR, m - 1)
    decreases m
  {
    if m > 1 {
      PiecesHead(data, at, m - 1);
      assert Pieces(data, at, m) == Pieces(data, at, m - 1) + Piece(data, at + (m - 1) * SECTOR);
    } else {
      assert Pieces(data, at, 1) == Pieces(data, at, 0) + Piece(data, at);
    }
  }

  lemma PiecesCover(data: Bytes, m: nat)
    requires |data| <= m * SECTOR
    ensures Pieces(data, 0, m)[..|data|] == data
  {
    forall i: nat | i < |data| ensures Pieces(data, 0, m)[i] == data[i] { PiecesAt(data, 0, m, i); }
  }

  // Each file reads back as the bytes given for it.
  lemma BuiltContents(files: seq<File>, n: nat, slots: nat, k: nat)
    requires Fits(files, n, slots) && Sound(files, n) && k < |files|
    ensures FileAt(Built(files, n, slots), k) && Contents(Built(files, n, slots), k) == files[k].data
  {
    ChainIsRun(files, n, slots, k);
    SlotReads(files, n, slots, k);
    var v := Built(files, n, slots);
    forall i: nat, x: nat | i < Clusters(files[k]) && x - Start(files, k) == i ensures CellIs(files, v, k, i, x) {
      EntryOfFile(files, n, k, i, x);
    }
    GatherFile(files, v, k, 0, 0, Start(files, k), Clusters(files[k]));
    NeedCovers(|files[k].data|, SECTOR);
    PiecesCover(files[k].data, Clusters(files[k]));
  }

  // The files of the image are exactly the files given.
  lemma BuiltFiles(files: seq<File>, n: nat, slots: nat)
    requires Fits(files, n, slots) && Sound(files, n)
    ensures var m := Files(Built(files, n, slots));
            && (forall k :: 0 <= k < |files| ==> files[k].name in m && m[files[k].name] == files[k].data)
            && (forall name :: name in m ==> exists k :: 0 <= k < |files| && files[k].name == name)
  {
    var v := Built(files, n, slots);
    BuiltInv(files, n, slots);
    forall k: nat | k < |files| ensures files[k].name in Files(v) && Files(v)[files[k].name] == files[k].data {
      BuiltContents(files, n, slots, k);
      SlotReads(files, n, slots, k);
      FindIs(v, k);
    }
    forall name | name in Files(v) ensures exists k :: 0 <= k < |files| && files[k].name == name {
      var k :| 0 <= k < |v.dir| && InUse(v.dir[k]) && SlotName(v.dir[k]) == name;
      OnlyFiles(files, n, slots, k);
      SlotReads(files, n, slots, k);
    }
  }
}
