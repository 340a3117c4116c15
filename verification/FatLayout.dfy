// How a volume lies on the sectors of a disk: two FAT copies, the root directory, and
// the data area with a fixed number of sectors per cluster (kernel/fat.c).

module FatLayout {
  import opened FatEntries
  import opened FatChains
  import opened FatVolume

  const SECTORS: nat := 2880            // data_clusters_max assumes a 1.44 MB floppy
  const PER_SECTOR: nat := 16           // directory slots in a sector

  // A snapshot of the disk.
  type Image = seq<Bytes>

  predicate DiskOk(d: Image) {
    |d| == SECTORS && forall i :: 0 <= i < SECTORS ==> |d[i]| == SECTOR
  }

  datatype Geo = Geo(fatLba: nat, fatSectors: nat, rootLba: nat, rootSectors: nat, dataLba: nat, spc: nat)

  function MaxClusters(g: Geo): nat
    requires g.dataLba <= SECTORS && g.spc > 0
  {
    (SECTORS - g.dataLba) / g.spc
  }

  // The geometry fat.c is written for: two FATs, and a table with an entry for every cluster.
  predicate GeoOk(g: Geo) {
    && g.rootLba == g.fatLba + 2 * g.fatSectors
    && g.dataLba == g.rootLba + g.rootSectors
    && g.dataLba <= SECTORS && g.spc > 0
    && MaxClusters(g) + 2 <= CHAIN_END
    && Offset(MaxClusters(g) + 1) + 1 < g.fatSectors * SECTOR
  }

  function U16(sec: Bytes, o: nat): nat
    requires o + 1 < |sec|
  {
    sec[o] as nat + 256 * (sec[o + 1] as nat)
  }

  // The geometry fat_mount reads from the boot sector.
  function Geometry(sec: Bytes): Geo
    requires |sec| == SECTOR
  {
    var (reserved, fatSectors, fats, entries) := (U16(sec, 14), U16(sec, 22), sec[16] as nat, U16(sec, 17));
    var rootLba := reserved + fats * fatSectors;
    var rootSectors := (entries * SLOT + SECTOR - 1) / SECTOR;
    Geo(reserved, fatSectors, rootLba, rootSectors, rootLba + rootSectors, if sec[13] != 0 then sec[13] as nat else 1)
  }

  function ClusterLba(g: Geo, i: nat): nat { g.dataLba + i * g.spc }

  // Every cluster lies inside the disk.
  lemma ClusterFits(g: Geo, i: nat)
    requires GeoOk(g) && i < MaxClusters(g)
    ensures g.dataLba <= ClusterLba(g, i) && ClusterLba(g, i) + g.spc <= SECTORS
  {
    var m := MaxClusters(g);
    WholeTimes(SECTORS - g.dataLba, g.spc);
    MulMono(i + 1, m, g.spc);
    OneMore(i, g.spc);
  }

  lemma WholeTimes(x: nat, d: nat)
    requires d > 0
    ensures x / d * d <= x
  {
    assert x == x / d * d + x % d;
  }

  lemma OneMore(i: nat, k: nat)
    ensures (i + 1) * k == i * k + k && i * k >= 0
  {
  }

  lemma {:induction false} MulMono(a: nat, b: nat, k: nat)
    requires a <= b
    ensures a * k <= b * k
  {
    assert b * k == a * k + (b - a) * k;
  }

  // Sectors of different clusters are different.
  lemma ClustersApart(g: Geo, i: nat, j: nat)
    requires i != j
    ensures ClusterLba(g, i) + g.spc <= ClusterLba(g, j) || ClusterLba(g, j) + g.spc <= ClusterLba(g, i)
  {
    if i < j {
      MulMono(i + 1, j, g.spc);
      assert (i + 1) * g.spc == i * g.spc + g.spc;
    } else {
      MulMono(j + 1, i, g.spc);
      assert (j + 1) * g.spc == j * g.spc + g.spc;
    }
  }

  // ------------------------------------------------------------------
  // Runs of sectors as bytes
  // ------------------------------------------------------------------

  // n sectors from lba, end to end.
  function Flat(d: Image, lba: nat, n: nat): (r: Bytes)
    requires DiskOk(d) && lba + n <= SECTORS
    ensures |r| == n * SECTOR
  {
    if n == 0 then [] else Flat(d, lba, n - 1) + d[lba + n - 1]
  }

  lemma {:induction false} FlatAt(d: Image, lba: nat, n: nat, i: nat)
    requires DiskOk(d) && lba + n <= SECTORS && i < n * SECTOR
    ensures lba + i / SECTOR < lba + n && Flat(d, lba, n)[i] == d[lba + i / SECTOR][i % SECTOR]
    decreases n
  {
    if i < (n - 1) * SECTOR {
      FlatAt(d, lba, n - 1, i);
    } else {
      BytePlace(i, n - 1, i - (n - 1) * SECTOR);
    }
  }

  predicate SameIn(d: Image, d': Image, lo: nat, hi: nat)
    requires |d| == |d'| && hi <= |d|
  {
    forall i :: lo <= i < hi ==> d'[i] == d[i]
  }

  lemma {:induction false} FlatSame(d: Image, d': Image, lba: nat, n: nat)
    requires DiskOk(d) && DiskOk(d') && lba + n <= SECTORS && SameIn(d, d', lba, lba + n)
    ensures Flat(d', lba, n) == Flat(d, lba, n)
    decreases n
  {
    if n > 0 { FlatSame(d, d', lba, n - 1); }
  }

  // A sector with one byte replaced.
  function Poke(sector: Bytes, o: nat, b: byte): (r: Bytes)
    requires o < |sector|
    ensures |r| == |sector|
  {
    sector[o := b]
  }

  // The disk with byte o of the run at lba replaced.
  function PokeAt(d: Image, lba: nat, o: nat, b: byte): (r: Image)
    requires DiskOk(d) && lba + o / SECTOR < SECTORS
    ensures DiskOk(r)
  {
    d[lba + o / SECTOR := Poke(d[lba + o / SECTOR], o % SECTOR, b)]
  }

  // A byte replaced in its sector is that byte of the run replaced.
  lemma PokeAtIs(d: Image, lba: nat, n: nat, o: nat, b: byte)
    requires DiskOk(d) && lba + n <= SECTORS && o < n * SECTOR
    ensures lba + o / SECTOR < lba + n && Flat(PokeAt(d, lba, o, b), lba, n) == Flat(d, lba, n)[o := b]
    ensures forall i :: 0 <= i < SECTORS && !(lba <= i < lba + n) ==> PokeAt(d, lba, o, b)[i] == d[i]
  {
    forall i: nat | i < n * SECTOR ensures Flat(PokeAt(d, lba, o, b), lba, n)[i] == Flat(d, lba, n)[o := b][i] {
      FlatAt(d, lba, n, i);
      FlatAt(PokeAt(d, lba, o, b), lba, n, i);
      BytePlace(i, o / SECTOR, o % SECTOR);
    }
  }

  lemma BytePlace(i: nat, s: nat, o: nat)
    requires o < SECTOR
    ensures i == s * SECTOR + o <==> i / SECTOR == s && i % SECTOR == o
  {
  }

  // One sector written replaces its 512 bytes of the run.
  lemma FlatWrite(d: Image, lba: nat, n: nat, s: nat, sec: Bytes)
    requires DiskOk(d) && lba + n <= SECTORS && s < n && |sec| == SECTOR
    ensures var d': Image := d[lba + s := sec]; var prior := Flat(d, lba, n);
            DiskOk(d') && (s + 1) * SECTOR <= |prior|
            && Flat(d', lba, n) == prior[..s * SECTOR] + sec + prior[(s + 1) * SECTOR..]
  {
    var d': Image := d[lba + s := sec];
    var prior := Flat(d, lba, n);
    var next := prior[..s * SECTOR] + sec + prior[(s + 1) * SECTOR..];
    forall i: nat | i < n * SECTOR ensures Flat(d', lba, n)[i] == next[i] {
      FlatAt(d, lba, n, i);
      FlatAt(d', lba, n, i);
      if s * SECTOR <= i < (s + 1) * SECTOR {
        BytePlace(i, s, i - s * SECTOR);
      }
    }
  }

  // ------------------------------------------------------------------
  // The volume on a disk
  // ------------------------------------------------------------------

  // The first sector of a FAT copy.
  function FatLba(g: Geo, copy: nat): nat { if copy == 0 then g.fatLba else g.fatLba + g.fatSectors }

  function FatBytes(d: Image, g: Geo, copy: nat): (r: Bytes)
    requires DiskOk(d) && GeoOk(g) && copy < 2
    ensures |r| == g.fatSectors * SECTOR
  {
    Flat(d, FatLba(g, copy), g.fatSectors)
  }

  lemma EntriesFit(g: Geo, c: nat)
    requires GeoOk(g) && c < MaxClusters(g) + 2
    ensures Offset(c) + 1 < g.fatSectors * SECTOR
  {
  }

  // The first n entries.
  function Table(bytes: Bytes, n: nat): (r: Fat)
    requires n > 0 ==> Holds(bytes, n - 1)
    ensures |r| == n
  {
    if n == 0 then [] else Table(bytes, n - 1) + [Get(bytes, n - 1)]
  }

  lemma {:induction false} TableAt(bytes: Bytes, n: nat, c: nat)
    requires c < n && Holds(bytes, n - 1)
    ensures Holds(bytes, c) && Table(bytes, n)[c] == Get(bytes, c)
    decreases n
  {
    if c < n - 1 { TableAt(bytes, n - 1, c); }
  }

  function FatOf(d: Image, g: Geo): (r: Fat)
    requires DiskOk(d) && GeoOk(g)
    ensures |r| == MaxClusters(g) + 2
  {
    Table(FatBytes(d, g, 0), MaxClusters(g) + 2)
  }

  // Storing an entry in the packed bytes stores it in the table.
  lemma TableSet(bytes: Bytes, n: nat, c: nat, value: u16)
    requires c < n && Holds(bytes, n - 1)
    ensures Table(Set(bytes, c, value), n) == Table(bytes, n)[c := value % 4096]
  {
    forall x: nat | x < n ensures Table(Set(bytes, c, value), n)[x] == Table(bytes, n)[c := value % 4096][x] {
      TableAt(bytes, n, x);
      TableAt(bytes, n, c);
      TableAt(Set(bytes, c, value), n, x);
      GetSet(bytes, c, value, x);
    }
  }

  function SlotAt(sector: Bytes, j: nat): (r: Bytes)
    requires |sector| == SECTOR && j < PER_SECTOR
    ensures |r| == SLOT
  {
    sector[j * SLOT..j * SLOT + SLOT]
  }

  // The first n directory slots.
  function Slots(d: Image, lba: nat, n: nat): (r: seq<Bytes>)
    requires DiskOk(d) && (n > 0 ==> lba + (n - 1) / PER_SECTOR < SECTORS)
    ensures |r| == n
    ensures forall k :: 0 <= k < n ==> |r[k]| == SLOT
  {
    if n == 0 then []
    else Slots(d, lba, n - 1) + [SlotAt(d[lba + (n - 1) / PER_SECTOR], (n - 1) % PER_SECTOR)]
  }

  lemma {:induction false} SlotsAt(d: Image, lba: nat, n: nat, k: nat)
    requires DiskOk(d) && k < n && lba + (n - 1) / PER_SECTOR < SECTORS
    ensures lba + k / PER_SECTOR < SECTORS && Slots(d, lba, n)[k] == SlotAt(d[lba + k / PER_SECTOR], k % PER_SECTOR)
    decreases n
  {
    if k < n - 1 { SlotsAt(d, lba, n - 1, k); }
  }

  function DirOf(d: Image, g: Geo): (r: seq<Bytes>)
    requires DiskOk(d) && GeoOk(g)
    ensures |r| == g.rootSectors * PER_SECTOR
    ensures forall k :: 0 <= k < |r| ==> |r[k]| == SLOT
  {
    Slots(d, g.rootLba, g.rootSectors * PER_SECTOR)
  }

  // Where a slot is.
  lemma DirAt(d: Image, g: Geo, s: nat, j: nat)
    requires DiskOk(d) && GeoOk(g) && s < g.rootSectors && j < PER_SECTOR
    ensures s * PER_SECTOR + j < g.rootSectors * PER_SECTOR
    ensures DirOf(d, g)[s * PER_SECTOR + j] == SlotAt(d[g.rootLba + s], j)
  {
    var k: nat, n: nat := s * PER_SECTOR + j, g.rootSectors * PER_SECTOR;
    SlotPlace(k, s, j);
    SlotPlace(n - 1, g.rootSectors - 1, PER_SECTOR - 1);
    SlotsAt(d, g.rootLba, n, k);
  }

  function ClusterOf(d: Image, g: Geo, i: nat): (r: Bytes)
    requires DiskOk(d) && GeoOk(g) && i < MaxClusters(g)
    ensures |r| == g.spc * SECTOR
  {
    ClusterFits(g, i);
    Flat(d, ClusterLba(g, i), g.spc)
  }

  // The first n clusters.
  function Clusters(d: Image, g: Geo, n: nat): (r: seq<Bytes>)
    requires DiskOk(d) && GeoOk(g) && n <= MaxClusters(g)
    ensures |r| == n
    ensures forall i :: 0 <= i < n ==> |r[i]| == g.spc * SECTOR
  {
    if n == 0 then [] else Clusters(d, g, n - 1) + [ClusterOf(d, g, n - 1)]
  }

  lemma {:induction false} ClustersAt(d: Image, g: Geo, n: nat, i: nat)
    requires DiskOk(d) && GeoOk(g) && i < n <= MaxClusters(g)
    ensures Clusters(d, g, n)[i] == ClusterOf(d, g, i)
    decreases n
  {
    if i < n - 1 { ClustersAt(d, g, n - 1, i); }
  }

  function DataOf(d: Image, g: Geo): (r: seq<Bytes>)
    requires DiskOk(d) && GeoOk(g)
    ensures |r| == MaxClusters(g)
    ensures forall i :: 0 <= i < |r| ==> |r[i]| == g.spc * SECTOR
  {
    Clusters(d, g, MaxClusters(g))
  }

  lemma ClusterSize(spc: nat)
    requires spc > 0
    ensures 0 < spc * SECTOR && spc * SECTOR % SECTOR == 0
  {
  }

  // The volume a disk holds.
  function VolOf(d: Image, g: Geo): (v: Vol)
    requires DiskOk(d) && GeoOk(g)
    ensures WellFormed(v)
  {
    ClusterSize(g.spc);
    Vol(FatOf(d, g), DirOf(d, g), DataOf(d, g), g.spc * SECTOR)
  }

  // Both FAT copies say the same.
  ghost predicate Mirrored(d: Image, g: Geo)
    requires DiskOk(d) && GeoOk(g)
  {
    FatBytes(d, g, 0) == FatBytes(d, g, 1)
  }

  // ------------------------------------------------------------------
  // What a sector write changes
  // ------------------------------------------------------------------

  lemma FatSame(d: Image, d': Image, g: Geo)
    requires DiskOk(d) && DiskOk(d') && GeoOk(g) && SameIn(d, d', g.fatLba, g.rootLba)
    ensures FatOf(d', g) == FatOf(d, g) && FatBytes(d', g, 0) == FatBytes(d, g, 0)
    ensures FatBytes(d', g, 1) == FatBytes(d, g, 1)
  {
    FlatSame(d, d', g.fatLba, g.fatSectors);
    FlatSame(d, d', g.fatLba + g.fatSectors, g.fatSectors);
  }

  lemma DirSame(d: Image, d': Image, g: Geo)
    requires DiskOk(d) && DiskOk(d') && GeoOk(g) && SameIn(d, d', g.rootLba, g.dataLba)
    ensures DirOf(d', g) == DirOf(d, g)
  {
    forall k: nat | k < g.rootSectors * PER_SECTOR ensures DirOf(d', g)[k] == DirOf(d, g)[k] {
      SlotsAt(d, g.rootLba, g.rootSectors * PER_SECTOR, k);
      SlotsAt(d', g.rootLba, g.rootSectors * PER_SECTOR, k);
    }
  }

  lemma DataSame(d: Image, d': Image, g: Geo)
    requires DiskOk(d) && DiskOk(d') && GeoOk(g) && SameIn(d, d', g.dataLba, SECTORS)
    ensures DataOf(d', g) == DataOf(d, g)
  {
    forall i: nat | i < MaxClusters(g) ensures DataOf(d', g)[i] == DataOf(d, g)[i] {
      ClusterFits(g, i);
      FlatSame(d, d', ClusterLba(g, i), g.spc);
      ClustersAt(d, g, MaxClusters(g), i);
      ClustersAt(d', g, MaxClusters(g), i);
    }
  }

  lemma DirWriteAt(d: Image, g: Geo, s: nat, j: nat, sec: Bytes, i: nat)
    requires DiskOk(d) && GeoOk(g) && s < g.rootSectors && j < PER_SECTOR && |sec| == SECTOR
    requires i < g.rootSectors * PER_SECTOR
    requires forall i: nat :: i < PER_SECTOR && i != j ==> SlotAt(sec, i) == SlotAt(d[g.rootLba + s], i)
    ensures var d': Image := d[g.rootLba + s := sec];
            DirOf(d', g)[i] == if i == s * PER_SECTOR + j then SlotAt(sec, j) else DirOf(d, g)[i]
  {
    SlotPlace(i, s, j);
    SlotsAt(d, g.rootLba, g.rootSectors * PER_SECTOR, i);
    SlotsAt(d[g.rootLba + s := sec], g.rootLba, g.rootSectors * PER_SECTOR, i);
  }

  // A directory sector with one slot replaced.
  lemma DirWrite(d: Image, g: Geo, s: nat, j: nat, sec: Bytes)
    requires DiskOk(d) && GeoOk(g) && s < g.rootSectors && j < PER_SECTOR && |sec| == SECTOR
    requires forall i: nat :: i < PER_SECTOR && i != j ==> SlotAt(sec, i) == SlotAt(d[g.rootLba + s], i)
    ensures var d': Image := d[g.rootLba + s := sec]; var k := s * PER_SECTOR + j;
            DiskOk(d') && k < g.rootSectors * PER_SECTOR
            && VolOf(d', g) == VolOf(d, g).(dir := DirOf(d, g)[k := SlotAt(sec, j)])
            && FatBytes(d', g, 0) == FatBytes(d, g, 0) && FatBytes(d', g, 1) == FatBytes(d, g, 1)
  {
    var d': Image := d[g.rootLba + s := sec];
    var k := s * PER_SECTOR + j;
    assert DiskOk(d');
    FatSame(d, d', g);
    DataSame(d, d', g);
    forall i: nat | i < g.rootSectors * PER_SECTOR
      ensures DirOf(d', g)[i] == if i == k then SlotAt(sec, j) else DirOf(d, g)[i]
    {
      DirWriteAt(d, g, s, j, sec, i);
    }
    assert DirOf(d', g) == DirOf(d, g)[k := SlotAt(sec, j)];
  }

  lemma SlotPlace(i: nat, s: nat, j: nat)
    requires j < PER_SECTOR
    ensures i == s * PER_SECTOR + j <==> i / PER_SECTOR == s && i % PER_SECTOR == j
  {
  }

  // A data sector replaces its 512 bytes of one cluster and nothing else.
  lemma DataWrite(d: Image, g: Geo, i: nat, s: nat, sec: Bytes)
    requires DiskOk(d) && GeoOk(g) && i < MaxClusters(g) && s < g.spc && |sec| == SECTOR
    ensures ClusterLba(g, i) + s < SECTORS && (s + 1) * SECTOR <= g.spc * SECTOR
    ensures var d': Image := d[ClusterLba(g, i) + s := sec]; var prior := ClusterOf(d, g, i);
            DiskOk(d')
            && VolOf(d', g) ==
               VolOf(d, g).(data := DataOf(d, g)[i := prior[..s * SECTOR] + sec + prior[(s + 1) * SECTOR..]])
            && FatBytes(d', g, 0) == FatBytes(d, g, 0) && FatBytes(d', g, 1) == FatBytes(d, g, 1)
  {
    ClusterFits(g, i);
    var d': Image := d[ClusterLba(g, i) + s := sec];
    var prior := ClusterOf(d, g, i);
    assert DiskOk(d');
    FatSame(d, d', g);
    DirSame(d, d', g);
    FlatWrite(d, ClusterLba(g, i), g.spc, s, sec);
    var next := prior[..s * SECTOR] + sec + prior[(s + 1) * SECTOR..];
    forall j: nat | j < MaxClusters(g) ensures DataOf(d', g)[j] == DataOf(d, g)[i := next][j] {
      ClusterFits(g, j);
      ClustersAt(d, g, MaxClusters(g), j);
      ClustersAt(d', g, MaxClusters(g), j);
      if j != i {
        ClustersApart(g, i, j);
        FlatSame(d, d', ClusterLba(g, j), g.spc);
      }
    }
    assert DataOf(d', g) == DataOf(d, g)[i := next];
  }

  // A cluster whose first bytes have been overwritten.
  function Patched(prior: Bytes, head: Bytes): (r: Bytes)
    requires |head| <= |prior|
    ensures |r| == |prior|
  {
    head + prior[|head|..]
  }

  lemma PatchedStep(prior: Bytes, head: Bytes, sec: Bytes)
    requires |head| + |sec| <= |prior|
    ensures var cur := Patched(prior, head);
            cur[..|head|] + sec + cur[|head| + |sec|..] == Patched(prior, head + sec)
  {
  }

  // The disk after sector s of cluster c is written.
  function WithSector(d: Image, g: Geo, c: nat, s: nat, sec: Bytes): (r: Image)
    requires DiskOk(d) && GeoOk(g) && 2 <= c < MaxClusters(g) + 2 && s < g.spc && |sec| == SECTOR
    ensures DiskOk(r)
  {
    ClusterFits(g, c - 2);
    d[ClusterLba(g, c - 2) + s := sec]
  }

  // Writing the next sector of a cluster extends what has been overwritten.
  lemma DataExtend(d: Image, g: Geo, c: nat, s: nat, was: Bytes, head: Bytes, sec: Bytes)
    requires DiskOk(d) && GeoOk(g) && Mirrored(d, g) && 2 <= c < MaxClusters(g) + 2 && s < g.spc && |sec| == SECTOR
    requires |was| == g.spc * SECTOR && |head| == s * SECTOR && |head| <= |was|
    requires VolOf(d, g).data[c - 2] == Patched(was, head)
    ensures var d' := WithSector(d, g, c, s, sec); var v := VolOf(d, g);
            && |head + sec| == (s + 1) * SECTOR <= |was|
            && Mirrored(d', g) && VolOf(d', g) == v.(data := v.data[c - 2 := Patched(was, head + sec)])
  {
    ClustersAt(d, g, MaxClusters(g), c - 2);
    DataWrite(d, g, c - 2, s, sec);
    PatchedStep(was, head, sec);
  }

  // ------------------------------------------------------------------
  // Storing a FAT entry
  // ------------------------------------------------------------------

  // The two bytes entry c becomes.
  function NewPair(bytes: Bytes, c: nat, value: u16): (byte, byte)
    requires Holds(bytes, c)
  {
    Encode(c % 2 == 1, bytes[Offset(c)], bytes[Offset(c) + 1], value)
  }

  // The disk with entry c of one FAT copy set, one byte at a time.
  function WithEntry(d: Image, g: Geo, copy: nat, c: nat, value: u16): (r: Image)
    requires DiskOk(d) && GeoOk(g) && copy < 2 && c < MaxClusters(g) + 2
    ensures DiskOk(r)
  {
    EntriesFit(g, c);
    var (lo, hi) := NewPair(FatBytes(d, g, copy), c, value);
    PokeAt(PokeAt(d, FatLba(g, copy), Offset(c), lo), FatLba(g, copy), Offset(c) + 1, hi)
  }

  lemma NextByte(o: nat)
    ensures (o + 1) / SECTOR == if o % SECTOR == SECTOR - 1 then o / SECTOR + 1 else o / SECTOR
    ensures (o + 1) % SECTOR == if o % SECTOR == SECTOR - 1 then 0 else o % SECTOR + 1
  {
  }

  // Where the two bytes of an entry are: in one sector, or at the end of one and the
  // beginning of the next.
  lemma EntryPlace(d: Image, g: Geo, copy: nat, c: nat)
    requires DiskOk(d) && GeoOk(g) && copy < 2 && c < MaxClusters(g) + 2
    ensures Holds(FatBytes(d, g, copy), c)
    ensures var (s, off) := (Offset(c) / SECTOR, Offset(c) % SECTOR); var l := FatLba(g, copy) + s;
            && s < g.fatSectors && (off == SECTOR - 1 ==> s + 1 < g.fatSectors)
            && FatBytes(d, g, copy)[Offset(c)] == d[l][off]
            && FatBytes(d, g, copy)[Offset(c) + 1] == if off == SECTOR - 1 then d[l + 1][0] else d[l][off + 1]
  {
    EntriesFit(g, c);
    NextByte(Offset(c));
    FlatAt(d, FatLba(g, copy), g.fatSectors, Offset(c));
    FlatAt(d, FatLba(g, copy), g.fatSectors, Offset(c) + 1);
  }

  // The value of an entry, read from its sectors.
  lemma EntryValue(d: Image, g: Geo, c: nat)
    requires DiskOk(d) && GeoOk(g) && c < MaxClusters(g) + 2
    ensures var (s, off) := (Offset(c) / SECTOR, Offset(c) % SECTOR); var l := g.fatLba + s;
            && l < SECTORS && (off == SECTOR - 1 ==> l + 1 < SECTORS)
            && FatOf(d, g)[c] == Decode(c % 2 == 1, d[l][off], if off == SECTOR - 1 then d[l + 1][0] else d[l][off + 1])
  {
    EntryPlace(d, g, 0, c);
    TableAt(FatBytes(d, g, 0), MaxClusters(g) + 2, c);
  }

  // Setting an entry patches one sector, or one byte in each of two.
  lemma EntryWrite(d: Image, g: Geo, copy: nat, c: nat, value: u16)
    requires DiskOk(d) && GeoOk(g) && copy < 2 && c < MaxClusters(g) + 2 && Holds(FatBytes(d, g, copy), c)
    ensures var (s, off) := (Offset(c) / SECTOR, Offset(c) % SECTOR); var l := FatLba(g, copy) + s;
            var (lo, hi) := NewPair(FatBytes(d, g, copy), c, value);
            && s < g.fatSectors && (off == SECTOR - 1 ==> s + 1 < g.fatSectors)
            && WithEntry(d, g, copy, c, value)
               == if off == SECTOR - 1 then d[l := Poke(d[l], off, lo)][l + 1 := Poke(d[l + 1], 0, hi)]
                  else d[l := Poke(Poke(d[l], off, lo), off + 1, hi)]
  {
    EntryPlace(d, g, copy, c);
    NextByte(Offset(c));
  }

  lemma WithEntryIs(d: Image, g: Geo, copy: nat, c: nat, value: u16)
    requires DiskOk(d) && GeoOk(g) && copy < 2 && c < MaxClusters(g) + 2
    ensures Holds(FatBytes(d, g, copy), c)
    ensures FatBytes(WithEntry(d, g, copy, c, value), g, copy) == Set(FatBytes(d, g, copy), c, value)
    ensures forall i :: 0 <= i < SECTORS && !(FatLba(g, copy) <= i < FatLba(g, copy) + g.fatSectors)
                        ==> WithEntry(d, g, copy, c, value)[i] == d[i]
  {
    EntriesFit(g, c);
    var (lo, hi) := NewPair(FatBytes(d, g, copy), c, value);
    PokeAtIs(d, FatLba(g, copy), g.fatSectors, Offset(c), lo);
    PokeAtIs(PokeAt(d, FatLba(g, copy), Offset(c), lo), FatLba(g, copy), g.fatSectors, Offset(c) + 1, hi);
  }

  // Setting an entry of one copy leaves the other copy, the directory and the data alone.
  lemma EntryFrame(d: Image, g: Geo, copy: nat, c: nat, value: u16)
    requires DiskOk(d) && GeoOk(g) && copy < 2 && c < MaxClusters(g) + 2
    ensures var d' := WithEntry(d, g, copy, c, value);
            && FatBytes(d', g, 1 - copy) == FatBytes(d, g, 1 - copy)
            && DirOf(d', g) == DirOf(d, g) && DataOf(d', g) == DataOf(d, g)
  {
    var d' := WithEntry(d, g, copy, c, value);
    WithEntryIs(d, g, copy, c, value);
    FlatSame(d, d', FatLba(g, 1 - copy), g.fatSectors);
    DirSame(d, d', g);
    DataSame(d, d', g);
  }

  // Setting the entry in both copies sets it in the table and keeps the copies equal.
  lemma SetBoth(d: Image, g: Geo, c: nat, value: u16)
    requires DiskOk(d) && GeoOk(g) && Mirrored(d, g) && c < MaxClusters(g) + 2
    ensures var d' := WithEntry(WithEntry(d, g, 0, c, value), g, 1, c, value);
            Mirrored(d', g) && VolOf(d', g) == VolOf(d, g).(fat := FatOf(d, g)[c := value % 4096])
  {
    var d1 := WithEntry(d, g, 0, c, value);
    WithEntryIs(d, g, 0, c, value);
    EntryFrame(d, g, 0, c, value);
    WithEntryIs(d1, g, 1, c, value);
    EntryFrame(d1, g, 1, c, value);
    TableSet(FatBytes(d, g, 0), MaxClusters(g) + 2, c, value);
  }

  // ------------------------------------------------------------------
  // The volume a disk holds
  // ------------------------------------------------------------------

  // Sectors d laid out by g hold v, both FAT copies alike. The definition sits behind
  // the trigger Look, so that only the lemmas below, which mention Look, unfold it.
  ghost predicate Laid(d: Image, g: Geo, v: Vol) {
    forall n: nat {:trigger Look(n)} :: Look(n) ==> DiskOk(d) && GeoOk(g) && Mirrored(d, g) && v == VolOf(d, g)
  }

  ghost predicate Look(n: nat) { true }

  lemma HeldSizes(d: Image, g: Geo, v: Vol)
    requires Laid(d, g, v)
    ensures DiskOk(d) && GeoOk(g) && WellFormed(v)
    ensures |v.fat| == MaxClusters(g) + 2 && v.cb == g.spc * SECTOR && |v.dir| == g.rootSectors * PER_SECTOR
  {
    assert Look(0);
  }

  lemma HeldCluster(d: Image, g: Geo, v: Vol)
    requires Laid(d, g, v)
    ensures DiskOk(d) && g.spc > 0 && v.cb == g.spc * SECTOR
  {
    HeldSizes(d, g, v);
  }

  lemma HeldEntryAt(d: Image, g: Geo, v: Vol, c: nat)
    requires Laid(d, g, v) && c < |v.fat|
    ensures var (s, off) := (Offset(c) / SECTOR, Offset(c) % SECTOR); var l := g.fatLba + s;
            && DiskOk(d) && l < SECTORS && (off == SECTOR - 1 ==> l + 1 < SECTORS)
            && v.fat[c] == Decode(c % 2 == 1, d[l][off], if off == SECTOR - 1 then d[l + 1][0] else d[l][off + 1])
  {
    assert Look(0);
    EntryValue(d, g, c);
  }

  // The disk with entry c set in the first n FAT copies.
  function WithCopies(d: Image, g: Geo, n: nat, c: nat, value: u16): (r: Image)
    requires DiskOk(d) && GeoOk(g) && n <= 2 && c < MaxClusters(g) + 2
    ensures DiskOk(r)
  {
    if n == 0 then d else WithEntry(WithCopies(d, g, n - 1, c, value), g, n - 1, c, value)
  }

  lemma HeldEntry(d: Image, g: Geo, v: Vol, c: nat, value: u16)
    requires Laid(d, g, v) && c < |v.fat|
    ensures DiskOk(d) && GeoOk(g) && c < MaxClusters(g) + 2
    ensures Laid(WithCopies(d, g, 2, c, value), g, v.(fat := v.fat[c := value % 4096]))
  {
    assert Look(0);
    assert WithCopies(d, g, 1, c, value) == WithEntry(WithCopies(d, g, 0, c, value), g, 0, c, value);
    SetBoth(d, g, c, value);
  }

  lemma HeldData(d: Image, g: Geo, v: Vol, c: nat, s: nat, was: Bytes, head: Bytes, sec: Bytes)
    requires WellFormed(v) && Laid(d, g, v) && 2 <= c < |v.fat| && s < g.spc && |sec| == SECTOR
    requires |was| == g.spc * SECTOR && |head| == s * SECTOR <= |was| && v.data[c - 2] == Patched(was, head)
    ensures DiskOk(d) && GeoOk(g) && c < MaxClusters(g) + 2 && |head + sec| == (s + 1) * SECTOR <= |was|
    ensures Laid(WithSector(d, g, c, s, sec), g, v.(data := v.data[c - 2 := Patched(was, head + sec)]))
  {
    assert Look(0);
    DataExtend(d, g, c, s, was, head, sec);
  }

  // The sectors of a cluster, one by one.
  lemma HeldSector(d: Image, g: Geo, v: Vol, c: nat, s: nat)
    requires WellFormed(v) && Laid(d, g, v) && 2 <= c < |v.fat| && s < g.spc
    ensures DiskOk(d) && ClusterLba(g, c - 2) + s < SECTORS && (s + 1) * SECTOR <= |v.data[c - 2]|
    ensures v.data[c - 2][s * SECTOR..(s + 1) * SECTOR] == d[ClusterLba(g, c - 2) + s]
  {
    assert Look(0);
    ClusterFits(g, c - 2);
    ClustersAt(d, g, MaxClusters(g), c - 2);
    FlatSector(d, ClusterLba(g, c - 2), g.spc, s);
  }

  lemma {:induction false} FlatSector(d: Image, lba: nat, n: nat, s: nat)
    requires DiskOk(d) && lba + n <= SECTORS && s < n
    ensures Flat(d, lba, n)[s * SECTOR..(s + 1) * SECTOR] == d[lba + s]
    decreases n
  {
    if s < n - 1 {
      FlatSector(d, lba, n - 1, s);
      assert (Flat(d, lba, n - 1) + d[lba + n - 1])[s * SECTOR..(s + 1) * SECTOR] ==
          Flat(d, lba, n - 1)[s * SECTOR..(s + 1) * SECTOR];
    }
  }

  // Slot j of directory sector s.
  lemma HeldSlot(d: Image, g: Geo, v: Vol, s: nat, j: nat)
    requires Laid(d, g, v) && s < g.rootSectors && j < PER_SECTOR
    ensures DiskOk(d) && g.rootLba + s < SECTORS && s * PER_SECTOR + j < |v.dir|
    ensures v.dir[s * PER_SECTOR + j] == SlotAt(d[g.rootLba + s], j)
  {
    assert Look(0);
    DirAt(d, g, s, j);
  }

  // Sector and offset of a slot.
  datatype Place = Place(lba: nat, off: nat)

  function PlaceOf(g: Geo, k: nat): Place { Place(g.rootLba + k / PER_SECTOR, k % PER_SECTOR * SLOT) }

  // Slot j of directory sector s, by its offset.
  lemma SlotHere(d: Image, g: Geo, v: Vol, s: nat, j: nat)
    requires Laid(d, g, v) && s < g.rootSectors && j < PER_SECTOR
    ensures DiskOk(d) && g.rootLba + s < SECTORS && s * PER_SECTOR + j < |v.dir|
    ensures v.dir[s * PER_SECTOR + j] == d[g.rootLba + s][j * SLOT..j * SLOT + SLOT]
    ensures PlaceOf(g, s * PER_SECTOR + j) == Place(g.rootLba + s, j * SLOT)
  {
    assert Look(0);
    HeldSlot(d, g, v, s, j);
    SlotPlace(s * PER_SECTOR + j, s, j);
  }

  // A sector with the slot at `off` replaced.
  function WithSlot(sec: Bytes, off: nat, e: Bytes): (r: Bytes)
    requires |sec| == SECTOR && |e| == SLOT && off + SLOT <= SECTOR
    ensures |r| == SECTOR
  {
    sec[..off] + e + sec[off + SLOT..]
  }

  lemma WithSlotAt(sec: Bytes, j: nat, e: Bytes, i: nat)
    requires |sec| == SECTOR && |e| == SLOT && j < PER_SECTOR && i < PER_SECTOR
    ensures SlotAt(WithSlot(sec, j * SLOT, e), i) == if i == j then e else SlotAt(sec, i)
  {
    var w := WithSlot(sec, j * SLOT, e);
    forall o: nat | o < SLOT ensures w[i * SLOT + o] == if i == j then e[o] else sec[i * SLOT + o] {
      WithSlotByte(sec, j * SLOT, e, i * SLOT + o);
    }
    SlotBytes(w, i, if i == j then e else SlotAt(sec, i));
  }

  lemma WithSlotByte(sec: Bytes, off: nat, e: Bytes, a: nat)
    requires |sec| == SECTOR && |e| == SLOT && off + SLOT <= SECTOR && a < SECTOR
    ensures WithSlot(sec, off, e)[a] == if off <= a < off + SLOT then e[a - off] else sec[a]
  {
  }

  lemma SlotBytes(sec: Bytes, i: nat, e: Bytes)
    requires |sec| == SECTOR && i < PER_SECTOR && |e| == SLOT
    requires forall o: nat :: o < SLOT ==> sec[i * SLOT + o] == e[o]
    ensures SlotAt(sec, i) == e
  {
    forall o: nat | o < SLOT ensures SlotAt(sec, i)[o] == e[o] {
      assert sec[i * SLOT + o] == e[o];
    }
  }

  lemma SlotInDisk(d: Image, g: Geo, v: Vol, k: nat)
    requires Laid(d, g, v) && k < |v.dir|
    ensures DiskOk(d) && PlaceOf(g, k).lba < SECTORS && PlaceOf(g, k).off + SLOT <= SECTOR
    ensures v.dir[k] == d[PlaceOf(g, k).lba][PlaceOf(g, k).off..PlaceOf(g, k).off + SLOT]
  {
    assert Look(0);
    SlotPlace(k, k / PER_SECTOR, k % PER_SECTOR);
    HeldSlot(d, g, v, k / PER_SECTOR, k % PER_SECTOR);
  }

  // Replacing a slot in its sector replaces it in the directory.
  lemma HeldSlotWrite(d: Image, g: Geo, v: Vol, k: nat, e: Bytes)
    requires WellFormed(v) && Laid(d, g, v) && k < |v.dir| && |e| == SLOT
    requires DiskOk(d) && PlaceOf(g, k).lba < SECTORS && PlaceOf(g, k).off + SLOT <= SECTOR
    ensures Laid(d[PlaceOf(g, k).lba := WithSlot(d[PlaceOf(g, k).lba], PlaceOf(g, k).off, e)], g,
            v.(dir := v.dir[k := e]))
  {
    assert Look(0);
    var s, j := k / PER_SECTOR, k % PER_SECTOR;
    var sec := WithSlot(d[g.rootLba + s], j * SLOT, e);
    forall i: nat | i < PER_SECTOR ensures SlotAt(sec, i) == if i == j then e else SlotAt(d[g.rootLba + s], i) {
      WithSlotAt(d[g.rootLba + s], j, e, i);
    }
    DirWrite(d, g, s, j, sec);
  }
}
