// tools/mkdata.py: the disk image, built list by list and sector by sector.

module FatBuilder {
  import opened FatEntries
  import opened FatChains
  import opened FatVolume
  import opened FatInvariant
  import opened FatLayout
  import FatImage

  type File = FatImage.File

  // The geometry of the image: a 1.44 MB floppy, one sector per cluster.
  predicate IsFloppy(g: Geo) {
    g.fatLba == 1 && g.fatSectors == 9 && g.rootLba == 19 && g.rootSectors == 14 && g.dataLba == 33 && g.spc == 1
  }

  lemma FloppyOk(g: Geo)
    requires IsFloppy(g)
    ensures GeoOk(g) && MaxClusters(g) == 2847
  {
  }

  function RootEntries(g: Geo): nat { g.rootSectors * PER_SECTOR }

  // ------------------------------------------------------------------
  // The FAT
  // ------------------------------------------------------------------

  predicate Listed(files: seq<File>, entries: seq<entry>) {
    forall c: nat :: c < |entries| ==> entries[c] == FatImage.ListEntry(files, c)
  }

  // The chain of file k.
  method ListChain(files: seq<File>, k: nat, listed: seq<entry>) returns (entries: seq<entry>)
    requires k < |files| && |listed| == FatImage.Start(files, k) && Listed(files, listed)
    requires 2 + FatImage.Total(files) < CHAIN_END
    ensures |entries| == |listed| + FatImage.Clusters(files[k]) && Listed(files, entries)
  {
    entries := listed;
    var cluster, need := |listed|, FatImage.Clusters(files[k]);
    for i := 0 to need
      invariant |entries| == cluster + i && Listed(files, entries)
    {
      FatImage.ListedEntry(files, k, i, cluster + i);
      entries := entries + [if i + 1 < need then cluster + i + 1 else 0xFFF];
    }
  }

  // fat_entries: the chain of each file, then zeros.
  method ListEntries(files: seq<File>, n: nat) returns (entries: seq<entry>)
    requires FatImage.Total(files) <= n && n + 2 < CHAIN_END
    ensures |entries| == n + 2
    ensures forall c: nat :: c < n + 2 ==> entries[c] == FatImage.ListEntry(files, c)
  {
    entries := [0xFF0, 0xFFF];
    var cluster: nat := 2;
    for k := 0 to |files|
      invariant cluster == |entries| == FatImage.Start(files, k) && Listed(files, entries)
    {
      FatImage.StartAll(files, k);
      assert files[..k + 1][..k] == files[..k];
      entries := ListChain(files, k, entries);
      cluster := cluster + FatImage.Clusters(files[k]);
    }
    assert files[..|files|] == files;
    while |entries| < n + 2
      invariant 2 + FatImage.Total(files) <= |entries| <= n + 2 && Listed(files, entries)
      decreases n + 2 - |entries|
    {
      entries := entries + [0];
    }
  }

  // fat12_bytes
  method Fat12Bytes(entries: seq<entry>) returns (out: Bytes)
    ensures out == Pack(entries, 0)
  {
    out := [];
    var i: nat := 0;
    while i + 1 < |entries|
      invariant i <= |entries| && out + Pack(entries, i) == Pack(entries, 0)
    {
      var a, b := entries[i], entries[i + 1];
      ghost var before := out;
      out := out + [a % 256];
      out := out + [a / 256 % 16 + b % 16 * 16];
      out := out + [b / 16 % 256];
      assert out == before + PackPair(a, b);
      assert before + (PackPair(a, b) + Pack(entries, i + 2)) == out + Pack(entries, i + 2);
      i := i + 2;
    }
    assert Pack(entries, i) == [];
  }

  lemma DroppedPlace(n: nat)
    requires n % 2 == 1
    ensures (n + 1) % 2 == 0 && Offset(n + 1) == (n + 2) / 2 * 3
  {
  }

  // Reading the packed table back: every entry but the one packing drops.
  lemma PackedEntry(files: seq<File>, n: nat, entries: seq<entry>, fat: Bytes, c: nat)
    requires |entries| == n + 2 && c < n + 2 && Holds(fat, n + 1)
    requires entries[c] == FatImage.ListEntry(files, c)
    requires Pack(entries, 0) <= fat && forall i: nat :: |Pack(entries, 0)| <= i < |fat| ==> fat[i] == 0
    ensures Holds(fat, c) && Get(fat, c) == FatImage.Entry(files, n, c)
  {
    PackLength(entries, 0);
    if c < FatImage.Kept(n) {
      PackedDecodes(entries, fat, c);
    } else {
      DroppedPlace(n);
      assert fat[Offset(c)] == 0 && fat[Offset(c) + 1] == 0;
    }
  }

  lemma {:induction false} PackedTable(files: seq<File>, n: nat, entries: seq<entry>, fat: Bytes, m: nat)
    requires |entries| == n + 2 && m <= n + 2 && Holds(fat, n + 1)
    requires forall c: nat :: c < n + 2 ==> entries[c] == FatImage.ListEntry(files, c)
    requires Pack(entries, 0) <= fat && forall i: nat :: |Pack(entries, 0)| <= i < |fat| ==> fat[i] == 0
    ensures m > 0 ==> Holds(fat, m - 1)
    ensures Table(fat, m) == FatImage.FatList(files, n, m)
    decreases m
  {
    if m > 0 {
      PackedTable(files, n, entries, fat, m - 1);
      PackedEntry(files, n, entries, fat, m - 1);
    }
  }

  // ------------------------------------------------------------------
  // Sectors
  // ------------------------------------------------------------------

  // Sectors of a run of bytes, the last one padded.
  function SectorsOf(data: Bytes): nat { Need(|data|, SECTOR) }

  lemma NeedIs(n: nat, k: nat)
    ensures k * SECTOR < n <==> k < Need(n, SECTOR)
  {
  }

  // The disk with the first k sectors of `data` laid out from lba on.
  function Laying(d: Image, lba: nat, data: Bytes, k: nat): (r: Image)
    requires DiskOk(d) && lba + k <= SECTORS
    ensures DiskOk(r)
  {
    if k == 0 then d else Laying(d, lba, data, k - 1)[lba + k - 1 := Piece(data, (k - 1) * SECTOR)]
  }

  lemma {:induction false} LayingAt(d: Image, lba: nat, data: Bytes, k: nat, s: nat)
    requires DiskOk(d) && lba + k <= SECTORS && s < SECTORS
    ensures Laying(d, lba, data, k)[s] == if lba <= s < lba + k then Piece(data, (s - lba) * SECTOR) else d[s]
    decreases k
  {
    if k > 0 && s != lba + k - 1 { LayingAt(d, lba, data, k - 1, s); }
  }

  // Bytes from `at` on, over a zeroed sector, are a padded piece.
  lemma ChunkIsPiece(data: Bytes, at: nat)
    requires at < |data|
    ensures var chunk := data[at..Min(at + SECTOR, |data|)]; chunk + Zeros(SECTOR)[|chunk|..] == Piece(data, at)
  {
  }

  // write_sector: lay bytes over the zeroed sectors from lba on.
  method WriteSector(disk: array<Bytes>, lba: nat, data: Bytes)
    requires DiskOk(disk[..]) && lba + SectorsOf(data) <= SECTORS
    requires forall s: nat :: lba <= s < lba + SectorsOf(data) ==> disk[..][s] == Zeros(SECTOR)
    modifies disk
    ensures DiskOk(disk[..]) && disk[..] == Laying(old(disk[..]), lba, data, SectorsOf(data))
  {
    ghost var d := disk[..];
    var k: nat := 0;
    NeedIs(|data|, 0);
    while k * SECTOR < |data|
      invariant k <= SectorsOf(data) && (k * SECTOR < |data| <==> k < SectorsOf(data))
      invariant disk[..] == Laying(d, lba, data, k)
      decreases SectorsOf(data) - k
    {
      NeedIs(|data|, k + 1);
      LayNext(disk, lba, data, k, d);
      k := k + 1;
    }
  }

  // Sector k of `data`.
  method LayNext(disk: array<Bytes>, lba: nat, data: Bytes, k: nat, ghost d: Image)
    requires DiskOk(d) && lba + k < SECTORS && k * SECTOR < |data| && d[lba + k] == Zeros(SECTOR)
    requires disk[..] == Laying(d, lba, data, k)
    modifies disk
    ensures disk[..] == Laying(d, lba, data, k + 1)
  {
    LayingAt(d, lba, data, k, lba + k);
    LayPiece(disk, lba + k, data, k * SECTOR);
  }

  // One sector's worth of bytes over a zeroed sector.
  method LayPiece(disk: array<Bytes>, lba: nat, data: Bytes, at: nat)
    requires lba < disk.Length && at < |data| && disk[..][lba] == Zeros(SECTOR)
    modifies disk
    ensures disk[..] == old(disk[..])[lba := Piece(data, at)]
  {
    ChunkIsPiece(data, at);
    var chunk := data[at..Min(at + SECTOR, |data|)];
    disk[lba] := chunk + disk[lba][|chunk|..];
  }

  // Sectors that hold the pieces of `data` hold `data`.
  lemma {:induction false} FlatPieces(d: Image, lba: nat, n: nat, data: Bytes)
    requires DiskOk(d) && lba + n <= SECTORS
    requires forall s: nat :: lba <= s < lba + n ==> d[s] == Piece(data, (s - lba) * SECTOR)
    ensures Flat(d, lba, n) == Pieces(data, 0, n)
    decreases n
  {
    if n > 0 { FlatPieces(d, lba, n - 1, data); }
  }

  lemma FlatIs(d: Image, lba: nat, n: nat, data: Bytes)
    requires DiskOk(d) && lba + n <= SECTORS && |data| == n * SECTOR
    requires forall s: nat :: lba <= s < lba + n ==> d[s] == Piece(data, (s - lba) * SECTOR)
    ensures Flat(d, lba, n) == data
  {
    FlatPieces(d, lba, n, data);
    FatImage.PiecesCover(data, n);
  }

  // ------------------------------------------------------------------
  // The root directory
  // ------------------------------------------------------------------

  function SlotBytes(root: Bytes, k: nat): Bytes
    requires (k + 1) * SLOT <= |root|
  {
    root[k * SLOT..k * SLOT + SLOT]
  }

  // One directory entry: name, attribute, first cluster and size over zeros.
  method DirEntry(name: Bytes, cluster: nat, size: nat) returns (e: Bytes)
    requires |name| == NAME
    ensures e == MakeSlot(name, cluster, size)
  {
    e := name + [ATTR_ARCHIVE] + Zeros(14);
    e := e + [cluster % 256, cluster / 256 % 256];
    e := e + [size % 256, size / 256 % 256, size / 0x1_0000 % 256, size / 0x100_0000 % 256];
    assert e == name + SlotRest(cluster, size);
  }

  // The first m slots end to end.
  function Joined(files: seq<File>, m: nat): (r: Bytes)
    requires FatImage.NamesFit(files)
    ensures |r| == m * SLOT
  {
    if m == 0 then [] else Joined(files, m - 1) + FatImage.SlotAt(files, m - 1)
  }

  lemma SlotOfSum(a: Bytes, b: Bytes, k: nat)
    requires (k + 1) * SLOT <= |a|
    ensures SlotBytes(a + b, k) == SlotBytes(a, k)
  {
  }

  lemma {:induction false} JoinedSlot(files: seq<File>, m: nat, k: nat)
    requires FatImage.NamesFit(files) && k < m
    ensures SlotBytes(Joined(files, m), k) == FatImage.SlotAt(files, k)
    decreases m
  {
    if k < m - 1 {
      JoinedSlot(files, m - 1, k);
      SlotOfSum(Joined(files, m - 1), FatImage.SlotAt(files, m - 1), k);
    }
  }

  lemma MoreZeros(a: Bytes, n: nat)
    ensures a + Zeros(n) + Zeros(SLOT) == a + Zeros(n + SLOT)
  {
  }

  // Slots past the last file are zeros.
  lemma {:induction false} JoinedRest(files: seq<File>, m: nat)
    requires FatImage.NamesFit(files) && |files| <= m
    ensures Joined(files, m) == Joined(files, |files|) + Zeros((m - |files|) * SLOT)
    decreases m
  {
    if m > |files| {
      JoinedRest(files, m - 1);
      MoreZeros(Joined(files, |files|), (m - 1 - |files|) * SLOT);
    }
  }

  // Overwriting the first of the zeroed slots.
  lemma NextSlot(head: Bytes, e: Bytes, left: nat)
    requires |e| == SLOT && left >= SLOT
    ensures var root := head + Zeros(left); root[..|head|] + e + root[|head| + SLOT..] == head + e + Zeros(left - SLOT)
  {
  }

  // The root directory: a slot per file, then zeros.
  method RootBytes(files: seq<File>, slots: nat) returns (root: Bytes)
    requires FatImage.NamesFit(files) && |files| <= slots
    ensures root == Joined(files, slots)
  {
    root := Zeros(slots * SLOT);
    var off: nat, cluster: nat := 0, 2;
    for i := 0 to |files|
      invariant off == i * SLOT && cluster == FatImage.Start(files, i)
      invariant root == Joined(files, i) + Zeros((slots - i) * SLOT)
    {
      var e := DirEntry(files[i].name, cluster, |files[i].data|);
      NextSlot(Joined(files, i), e, (slots - i) * SLOT);
      root := root[..off] + e + root[off + SLOT..];
      assert files[..i + 1][..i] == files[..i];
      off, cluster := off + SLOT, cluster + FatImage.Clusters(files[i]);
    }
    JoinedRest(files, slots);
  }

  // ------------------------------------------------------------------
  // The data area
  // ------------------------------------------------------------------

  // The disk with the first m clusters of the files laid out.
  function Filling(d: Image, files: seq<File>, dataLba: nat, m: nat): (r: Image)
    requires DiskOk(d) && dataLba + m <= SECTORS
    ensures DiskOk(r)
  {
    if m == 0 then d else Filling(d, files, dataLba, m - 1)[dataLba + m - 1 := FatImage.ClusterAt(files, m - 1)]
  }

  lemma {:induction false} FillingAt(d: Image, files: seq<File>, dataLba: nat, m: nat, s: nat)
    requires DiskOk(d) && dataLba + m <= SECTORS && s < SECTORS
    ensures Filling(d, files, dataLba, m)[s] == if dataLba <= s < dataLba + m
            then FatImage.ClusterAt(files, s - dataLba) else d[s]
    decreases m
  {
    if m > 0 { FillingAt(d, files, dataLba, m - 1, s); }
  }

  // One 512-byte chunk.
  method WriteChunk(disk: array<Bytes>, lba: nat, data: Bytes, at: nat)
    requires DiskOk(disk[..]) && lba < SECTORS && at < |data| && disk[..][lba] == Zeros(SECTOR)
    modifies disk
    ensures DiskOk(disk[..]) && disk[..] == old(disk[..])[lba := Piece(data, at)]
  {
    var chunk := data[at..Min(at + SECTOR, |data|)];
    assert Piece(chunk, 0) == Piece(data, at);
    NeedCovers(|chunk|, SECTOR);
    ghost var d := disk[..];
    WriteSector(disk, lba, chunk);
    assert Laying(d, lba, chunk, 1) == Laying(d, lba, chunk, 0)[lba := Piece(chunk, 0)];
  }

  // One file, in 512-byte chunks, after the clusters below `done` are laid out.
  method WriteFile(disk: array<Bytes>, files: seq<File>, k: nat, dataLba: nat, ghost d: Image)
    requires k < |files| && DiskOk(d) && dataLba + FatImage.Total(files) <= SECTORS
    requires FatImage.Start(files, k) - 2 <= FatImage.Total(files)
    requires disk[..] == Filling(d, files, dataLba, FatImage.Start(files, k) - 2)
    requires forall s: nat :: dataLba <= s < SECTORS ==> d[s] == Zeros(SECTOR)
    modifies disk
    ensures FatImage.Start(files, k) - 2 + FatImage.Clusters(files[k]) <= FatImage.Total(files)
    ensures disk[..] == Filling(d, files, dataLba, FatImage.Start(files, k) - 2 + FatImage.Clusters(files[k]))
  {
    FatImage.StartAll(files, k);
    var base := FatImage.Start(files, k) - 2;
    ghost var m := FatImage.Clusters(files[k]);
    var i: nat := 0;
    NeedIs(|files[k].data|, 0);
    while i * SECTOR < |files[k].data|
      invariant i <= m && (i * SECTOR < |files[k].data| <==> i < m) && disk[..] == Filling(d, files, dataLba, base + i)
      decreases m - i
    {
      NeedIs(|files[k].data|, i + 1);
      FillOne(disk, files, k, i, base + i, dataLba, d);
      i := i + 1;
    }
  }

  // Cluster m of the data area: chunk i of file k.
  method FillOne(disk: array<Bytes>, files: seq<File>, k: nat, i: nat, m: nat, dataLba: nat, ghost d: Image)
    requires k < |files| && i < FatImage.Clusters(files[k]) && i * SECTOR < |files[k].data|
    requires m + 2 == FatImage.Start(files, k) + i
    requires DiskOk(d) && dataLba + FatImage.Total(files) <= SECTORS && m < FatImage.Total(files)
    requires d[dataLba + m] == Zeros(SECTOR)
    requires disk[..] == Filling(d, files, dataLba, m)
    modifies disk
    ensures disk[..] == Filling(d, files, dataLba, m + 1)
  {
    NextCluster(d, files, k, dataLba, m, i);
    WriteChunk(disk, dataLba + m, files[k].data, i * SECTOR);
  }

  // The next cluster to fill, for cluster i of file k.
  lemma NextCluster(d: Image, files: seq<File>, k: nat, dataLba: nat, m: nat, i: nat)
    requires k < |files| && i < FatImage.Clusters(files[k]) && m + 2 == FatImage.Start(files, k) + i
    requires DiskOk(d) && dataLba + FatImage.Total(files) <= SECTORS && dataLba + m < SECTORS
    requires d[dataLba + m] == Zeros(SECTOR)
    ensures m < FatImage.Total(files)
    ensures Filling(d, files, dataLba, m)[dataLba + m] == Zeros(SECTOR)
    ensures Filling(d, files, dataLba, m + 1) ==
            Filling(d, files, dataLba, m)[dataLba + m := Piece(files[k].data, i * SECTOR)]
  {
    FatImage.CellAt(files, k, i, m);
    FillingAt(d, files, dataLba, m, dataLba + m);
  }

  // Every file, cluster after cluster.
  method WriteData(disk: array<Bytes>, files: seq<File>, dataLba: nat)
    requires DiskOk(disk[..]) && dataLba + FatImage.Total(files) <= SECTORS
    requires forall s: nat :: dataLba <= s < SECTORS ==> disk[..][s] == Zeros(SECTOR)
    modifies disk
    ensures disk[..] == Filling(old(disk[..]), files, dataLba, FatImage.Total(files))
  {
    ghost var d := disk[..];
    for k := 0 to |files|
      invariant FatImage.Start(files, k) <= 2 + FatImage.Total(files)
      invariant disk[..] == Filling(d, files, dataLba, FatImage.Start(files, k) - 2)
    {
      WriteFile(disk, files, k, dataLba, d);
      assert files[..k + 1][..k] == files[..k];
    }
    assert files[..|files|] == files;
  }

  // ------------------------------------------------------------------
  // The whole image
  // ------------------------------------------------------------------

  // What mkdata.py puts where.
  ghost predicate ImageIs(d: Image, g: Geo, files: seq<File>, fat: Bytes, root: Bytes) {
    && DiskOk(d) && IsFloppy(g) && |fat| == g.fatSectors * SECTOR && |root| == g.rootSectors * SECTOR
    && FatImage.NamesFit(files)
    && (forall s: nat :: g.fatLba <= s < g.fatLba + g.fatSectors ==> d[s] == Piece(fat, (s - g.fatLba) * SECTOR))
    && (forall s: nat :: g.fatLba + g.fatSectors <= s < g.rootLba ==>
        d[s] == Piece(fat, (s - g.fatLba - g.fatSectors) * SECTOR))
    && (forall s: nat :: g.rootLba <= s < g.dataLba ==> d[s] == Piece(root, (s - g.rootLba) * SECTOR))
    && (forall s: nat :: g.dataLba <= s < SECTORS ==> d[s] == FatImage.ClusterAt(files, s - g.dataLba))
    && root == Joined(files, RootEntries(g))
  }

  lemma ImageDir(d: Image, g: Geo, files: seq<File>, fat: Bytes, root: Bytes)
    requires ImageIs(d, g, files, fat, root)
    ensures DirOf(d, g) == FatImage.DirList(files, RootEntries(g))
  {
    var n := RootEntries(g);
    forall k: nat | k < n ensures DirOf(d, g)[k] == FatImage.DirList(files, n)[k] {
      var s, j := SlotIn(g, k + 1);
      ImageSlot(d, g, files, fat, root, s, j);
      DirAt(d, g, s, j);
      FatImage.DirListAt(files, n, k);
    }
  }

  // The sector and place of the last of m slots.
  lemma SlotIn(g: Geo, m: nat) returns (s: nat, j: nat)
    requires 0 < m <= RootEntries(g)
    ensures s == (m - 1) / PER_SECTOR && j == (m - 1) % PER_SECTOR && s * PER_SECTOR + j == m - 1
    ensures s < g.rootSectors && j < PER_SECTOR
  {
    s, j := (m - 1) / PER_SECTOR, (m - 1) % PER_SECTOR;
    SlotPlace(m - 1, s, j);
  }

  // A slot of a padded directory sector is a slot of the directory.
  lemma PieceSlot(root: Bytes, s: nat, j: nat)
    requires j < PER_SECTOR && (s + 1) * SECTOR <= |root|
    ensures (s * PER_SECTOR + j + 1) * SLOT <= |root|
    ensures FatLayout.SlotAt(Piece(root, s * SECTOR), j) == SlotBytes(root, s * PER_SECTOR + j)
  {
  }

  lemma ImageSlot(d: Image, g: Geo, files: seq<File>, fat: Bytes, root: Bytes, s: nat, j: nat)
    requires ImageIs(d, g, files, fat, root) && s < g.rootSectors && j < PER_SECTOR
    ensures FatLayout.SlotAt(d[g.rootLba + s], j) == FatImage.SlotAt(files, s * PER_SECTOR + j)
  {
    JoinedSlot(files, RootEntries(g), s * PER_SECTOR + j);
    PieceSlot(root, s, j);
    var x := g.rootLba + s;
    assert d[x] == Piece(root, (x - g.rootLba) * SECTOR);
  }

  lemma OneSector(d: Image, g: Geo, i: nat)
    requires DiskOk(d) && GeoOk(g) && g.spc == 1 && i < MaxClusters(g)
    ensures g.dataLba + i < SECTORS && ClusterOf(d, g, i) == d[g.dataLba + i]
  {
    ClusterFits(g, i);
    assert ClusterLba(g, i) == g.dataLba + i;
    assert Flat(d, g.dataLba + i, 1) == Flat(d, g.dataLba + i, 0) + d[g.dataLba + i];
  }

  lemma {:induction false} ImageData(d: Image, g: Geo, files: seq<File>, fat: Bytes, root: Bytes, m: nat)
    requires ImageIs(d, g, files, fat, root) && GeoOk(g) && m <= MaxClusters(g)
    ensures FatLayout.Clusters(d, g, m) == FatImage.DataList(files, m)
    decreases m
  {
    if m > 0 {
      ImageData(d, g, files, fat, root, m - 1);
      OneSector(d, g, m - 1);
    }
  }

  // The image is the volume FatImage describes, in both FAT copies.
  lemma ImageLaid(d: Image, g: Geo, files: seq<File>, fat: Bytes, root: Bytes, entries: seq<entry>)
    requires ImageIs(d, g, files, fat, root) && GeoOk(g)
    requires var n := MaxClusters(g);
             && FatImage.Fits(files, n, RootEntries(g)) && |entries| == n + 2 && Holds(fat, n + 1)
             && (forall c: nat :: c < n + 2 ==> entries[c] == FatImage.ListEntry(files, c))
    requires Pack(entries, 0) <= fat && forall i: nat :: |Pack(entries, 0)| <= i < |fat| ==> fat[i] == 0
    ensures Laid(d, g, FatImage.Built(files, MaxClusters(g), RootEntries(g)))
  {
    var n := MaxClusters(g);
    FlatIs(d, g.fatLba, g.fatSectors, fat);
    FlatIs(d, g.fatLba + g.fatSectors, g.fatSectors, fat);
    PackedTable(files, n, entries, fat, n + 2);
    ImageDir(d, g, files, fat, root);
    ImageData(d, g, files, fat, root, n);
    assert VolOf(d, g) == FatImage.Built(files, n, RootEntries(g));
  }

  // The boot sector's name and parameter block: 512-byte sectors, one per cluster, one reserved
  // sector, two FATs of nine sectors, 224 root entries, 2880 sectors in all.
  function BpbByte(i: nat): byte {
    match i
    case 0 => 0xEB case 1 => 0x3C case 2 => 0x90
    case 3 => 0x4E case 4 => 0x4F case 5 => 0x56 case 6 => 0x41
    case 7 => 0x4F case 8 => 0x53 case 9 => 0x20 case 10 => 0x20
    case 12 => 2 case 13 => 1 case 14 => 1 case 16 => 2 case 17 => 224
    case 19 => 0x40 case 20 => 0x0B case 21 => 0xF0 case 22 => 9 case 24 => 18 case 26 => 2
    case 510 => 0x55 case 511 => 0xAA
    case _ => 0
  }

  function BootSector(): (r: Bytes)
    ensures |r| == SECTOR && U16(r, 11) == 512 && r[13] == 1 && U16(r, 14) == 1 && r[16] == 2
    ensures U16(r, 17) == 224 && U16(r, 22) == 9
  {
    seq(SECTOR, i requires 0 <= i < SECTOR => BpbByte(i))
  }

  lemma GeometryIsFloppy(sec: Bytes)
    requires |sec| == SECTOR && U16(sec, 11) == 512 && sec[13] == 1 && U16(sec, 14) == 1 && sec[16] == 2
    requires U16(sec, 17) == 224 && U16(sec, 22) == 9
    ensures IsFloppy(Geometry(sec))
  {
  }

  // The packed table, zero-filled to its nine sectors.
  method FatTable(files: seq<File>, g: Geo, n: nat) returns (fat: Bytes, ghost entries: seq<entry>)
    requires IsFloppy(g) && FatImage.Total(files) <= n && n == 2847
    ensures |fat| == g.fatSectors * SECTOR && |entries| == n + 2 && Holds(fat, n + 1)
    ensures forall c: nat :: c < n + 2 ==> entries[c] == FatImage.ListEntry(files, c)
    ensures Pack(entries, 0) <= fat && forall i: nat :: |Pack(entries, 0)| <= i < |fat| ==> fat[i] == 0
  {
    var list := ListEntries(files, n);
    var packed := Fat12Bytes(list);
    PackLength(list, 0);
    fat := packed + Zeros(g.fatSectors * SECTOR - |packed|);
    entries := list;
  }

  lemma LaidSectors(d: Image, lba: nat, data: Bytes, n: nat)
    requires DiskOk(d) && lba + n <= SECTORS && |data| == n * SECTOR
    ensures SectorsOf(data) == n
    ensures forall s: nat :: s < SECTORS ==>
              Laying(d, lba, data, n)[s] == if lba <= s < lba + n then Piece(data, (s - lba) * SECTOR) else d[s]
  {
    NeedIs(|data|, n);
    if n > 0 { NeedIs(|data|, n - 1); }
    forall s: nat | s < SECTORS ensures
              Laying(d, lba, data, n)[s] == if lba <= s < lba + n then Piece(data, (s - lba) * SECTOR) else d[s] {
      LayingAt(d, lba, data, n, s);
    }
  }

  // write_sector for a whole number of sectors.
  method WriteRun(disk: array<Bytes>, lba: nat, data: Bytes, n: nat)
    requires DiskOk(disk[..]) && lba + n <= SECTORS && |data| == n * SECTOR
    requires forall s: nat :: lba <= s < lba + n ==> disk[..][s] == Zeros(SECTOR)
    modifies disk
    ensures DiskOk(disk[..])
    ensures forall s: nat :: s < SECTORS ==>
              disk[..][s] == if lba <= s < lba + n then Piece(data, (s - lba) * SECTOR) else old(disk[..])[s]
  {
    LaidSectors(disk[..], lba, data, n);
    WriteSector(disk, lba, data);
  }

  // The metadata sectors: boot sector, both FATs and the root directory.
  method WriteMeta(disk: array<Bytes>, bpb: Bytes, fat: Bytes, root: Bytes, g: Geo)
    requires DiskOk(disk[..]) && IsFloppy(g) && forall s: nat :: s < SECTORS ==> disk[..][s] == Zeros(SECTOR)
    requires |bpb| == SECTOR && |fat| == g.fatSectors * SECTOR && |root| == g.rootSectors * SECTOR
    modifies disk
    ensures DiskOk(disk[..]) && disk[..][0] == bpb
    ensures forall s: nat :: g.fatLba <= s < g.fatLba + g.fatSectors ==>
            disk[..][s] == Piece(fat, (s - g.fatLba) * SECTOR)
    ensures forall s: nat :: g.fatLba + g.fatSectors <= s < g.rootLba ==>
            disk[..][s] == Piece(fat, (s - g.fatLba - g.fatSectors) * SECTOR)
    ensures forall s: nat :: g.rootLba <= s < g.dataLba ==> disk[..][s] == Piece(root, (s - g.rootLba) * SECTOR)
    ensures forall s: nat :: g.dataLba <= s < SECTORS ==> disk[..][s] == Zeros(SECTOR)
  {
    WriteRun(disk, 0, bpb, 1);
    assert Piece(bpb, 0) == bpb;
    WriteRun(disk, g.fatLba, fat, g.fatSectors);
    WriteRun(disk, g.fatLba + g.fatSectors, fat, g.fatSectors);
    WriteRun(disk, g.rootLba, root, g.rootSectors);
  }

  // Metadata and data together.
  method WriteAll(disk: array<Bytes>, files: seq<File>, fat: Bytes, root: Bytes, g: Geo)
    requires DiskOk(disk[..]) && IsFloppy(g) && forall s: nat :: s < SECTORS ==> disk[..][s] == Zeros(SECTOR)
    requires |fat| == g.fatSectors * SECTOR && FatImage.NamesFit(files) && root == Joined(files, RootEntries(g))
    requires g.dataLba + FatImage.Total(files) <= SECTORS
    modifies disk
    ensures ImageIs(disk[..], g, files, fat, root) && disk[..][0] == BootSector()
  {
    WriteMeta(disk, BootSector(), fat, root, g);
    ghost var d := disk[..];
    WriteData(disk, files, g.dataLba);
    FillingDone(d, disk[..], files, g.dataLba);
  }

  // With all files written the data area holds their clusters, and nothing below it changed.
  lemma FillingDone(d: Image, d': Image, files: seq<File>, dataLba: nat)
    requires DiskOk(d) && dataLba + FatImage.Total(files) <= SECTORS
    requires forall s: nat :: dataLba <= s < SECTORS ==> d[s] == Zeros(SECTOR)
    requires d' == Filling(d, files, dataLba, FatImage.Total(files))
    ensures DiskOk(d') && forall s: nat :: s < dataLba ==> d'[s] == d[s]
    ensures forall s: nat :: dataLba <= s < SECTORS ==> d'[s] == FatImage.ClusterAt(files, s - dataLba)
  {
    forall s: nat | s < SECTORS ensures d'[s] == if s < dataLba then d[s] else FatImage.ClusterAt(files, s - dataLba) {
      FillingAt(d, files, dataLba, FatImage.Total(files), s);
    }
  }

  method BlankDisk() returns (disk: array<Bytes>)
    ensures fresh(disk) && DiskOk(disk[..]) && forall s: nat :: s < SECTORS ==> disk[..][s] == Zeros(SECTOR)
  {
    disk := new Bytes[SECTORS](_ => Zeros(SECTOR));
  }

  // The table, the root directory and the files, written to a blank disk.
  method WriteImage(disk: array<Bytes>, files: seq<File>, g: Geo)
    requires DiskOk(disk[..]) && forall s: nat :: s < SECTORS ==> disk[..][s] == Zeros(SECTOR)
    requires IsFloppy(g) && GeoOk(g) && MaxClusters(g) == 2847 && FatImage.Fits(files, 2847, RootEntries(g))
    modifies disk
    ensures Laid(disk[..], g, FatImage.Built(files, 2847, RootEntries(g)))
    ensures DiskOk(disk[..]) && disk[..][0] == BootSector()
  {
    var fat, entries := FatTable(files, g, 2847);
    var root := RootBytes(files, g.rootSectors * PER_SECTOR);
    WriteAll(disk, files, fat, root, g);
    ImageLaid(disk[..], g, files, fat, root, entries);
  }

  // The image mkdata.py writes holds the volume FatImage.Built describes.
  method BuildImage(files: seq<File>, ghost g: Geo) returns (disk: array<Bytes>)
    requires IsFloppy(g) && FatImage.Fits(files, 2847, RootEntries(g))
    ensures fresh(disk) && DiskOk(disk[..]) && Geometry(disk[..][0]) == g && U16(disk[..][0], 11) == 512
    ensures GeoOk(g) && MaxClusters(g) == 2847
    ensures Laid(disk[..], g, FatImage.Built(files, MaxClusters(g), RootEntries(g)))
  {
    var geo := Geo(1, 9, 19, 14, 33, 1);
    FloppyOk(geo);
    GeometryIsFloppy(BootSector());
    disk := BlankDisk();
    WriteImage(disk, files, geo);
  }
}
