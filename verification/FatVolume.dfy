// A FAT volume seen as its entries, its root directory slots and its data clusters,
// and what each operation of kernel/fat.c does to them.

module FatVolume {
  import opened FatEntries
  import opened FatChains

  const SECTOR: nat := 512
  const SLOT: nat := 32
  const NAME: nat := 11
  const DELETED: byte := 0xE5
  const ATTR_LFN: byte := 0x0F
  const ATTR_ARCHIVE: byte := 0x20

  type Bytes = seq<byte>

  // data[c - 2] is cluster c, cb bytes long.
  datatype Vol = Vol(fat: Fat, dir: seq<Bytes>, data: seq<Bytes>, cb: nat)

  predicate WellFormed(v: Vol) {
    && 2 <= |v.fat| <= CHAIN_END
    && 0 < v.cb && v.cb % SECTOR == 0
    && |v.data| == |v.fat| - 2
    && (forall k :: 0 <= k < |v.dir| ==> |v.dir[k]| == SLOT)
    && (forall c :: 0 <= c < |v.data| ==> |v.data[c]| == v.cb)
  }

  // ------------------------------------------------------------------
  // Directory slots
  // ------------------------------------------------------------------

  function SlotName(e: Bytes): Bytes
    requires |e| == SLOT
  {
    e[..NAME]
  }

  function SlotFirst(e: Bytes): nat
    requires |e| == SLOT
  {
    e[26] as nat + 256 * (e[27] as nat)
  }

  function SlotSize(e: Bytes): nat
    requires |e| == SLOT
  {
    e[28] as nat + 256 * (e[29] as nat) + 0x1_0000 * (e[30] as nat) + 0x100_0000 * (e[31] as nat)
  }

  // Attribute, dates, first cluster and size of the slot fat_write stores.
  function SlotRest(first: nat, size: nat): (e: Bytes)
    ensures |e| == SLOT - NAME
  {
    [ATTR_ARCHIVE, 0, 0, 0, 0, 0, 0, 0, 0, 0, 0, 0, 0, 0, 0,
     first % 256, first / 256 % 256, size % 256, size / 256 % 256, size / 0x1_0000 % 256, size / 0x100_0000 % 256]
  }

  // The slot fat_write stores.
  function MakeSlot(name: Bytes, first: nat, size: nat): (e: Bytes)
    requires |name| == NAME
    ensures |e| == SLOT
  {
    name + SlotRest(first, size)
  }

  lemma Digits(size: nat)
    requires size < 0x1_0000_0000
    ensures size == size % 256 + 256 * (size / 256 % 256) + 0x1_0000 * (size / 0x1_0000 % 256)
                    + 0x100_0000 * (size / 0x100_0000 % 256)
  {
    var q := size / 256;
    var r := q / 256;
    assert size / 0x1_0000 == r && size / 0x100_0000 == r / 256;
    assert q == q % 256 + 256 * r && r == r % 256 + 256 * (r / 256);
  }

  lemma MakeSlotReads(name: Bytes, first: nat, size: nat)
    requires |name| == NAME && first < 0x1_0000 && size < 0x1_0000_0000
    ensures var e := MakeSlot(name, first, size);
            SlotName(e) == name && SlotFirst(e) == first && SlotSize(e) == size && e[11] == ATTR_ARCHIVE
  {
    Digits(size);
    Digits(first);
    var e := MakeSlot(name, first, size);
    assert e[28] == size % 256 && e[29] == size / 256 % 256;
    assert e[30] == size / 0x1_0000 % 256 && e[31] == size / 0x100_0000 % 256;
  }

  // The directory ends at the first slot whose name starts with 0.
  function DirEnd(dir: seq<Bytes>, k: nat): (r: nat)
    requires k <= |dir| && forall i :: 0 <= i < |dir| ==> |dir[i]| == SLOT
    ensures k <= r <= |dir| && (r < |dir| ==> dir[r][0] == 0)
    ensures forall i :: k <= i < r ==> dir[i][0] != 0
    decreases |dir| - k
  {
    if k == |dir| || dir[k][0] == 0 then k else DirEnd(dir, k + 1)
  }

  // A slot that names a file: not deleted, not a long-name entry.
  predicate InUse(e: Bytes)
    requires |e| == SLOT
  {
    e[0] != 0 && e[0] != DELETED && e[11] != ATTR_LFN
  }

  // The scan fat_read, fat_stat and dir_find_slot share: the first slot in use that
  // carries the name, |dir| when the end of the directory comes first.
  function Find(dir: seq<Bytes>, name: Bytes, k: nat): (r: nat)
    requires k <= |dir| && forall i :: 0 <= i < |dir| ==> |dir[i]| == SLOT
    ensures r <= |dir| && (r < |dir| ==> k <= r && InUse(dir[r]) && SlotName(dir[r]) == name)
    ensures r < |dir| ==> forall i :: k <= i <= r ==> dir[i][0] != 0
    ensures r < |dir| ==> forall i :: k <= i < r ==> !(InUse(dir[i]) && SlotName(dir[i]) == name)
    ensures r == |dir| ==> forall i :: k <= i < DirEnd(dir, k) ==> !(InUse(dir[i]) && SlotName(dir[i]) == name)
    decreases |dir| - k
  {
    if k == |dir| || dir[k][0] == 0 then |dir|
    else if InUse(dir[k]) && SlotName(dir[k]) == name then k
    else Find(dir, name, k + 1)
  }

  // The first slot a create may take: deleted or never used.
  function FreeSlot(dir: seq<Bytes>, k: nat): (r: nat)
    requires k <= |dir| && forall i :: 0 <= i < |dir| ==> |dir[i]| == SLOT
    ensures k <= r <= |dir| && (r < |dir| ==> dir[r][0] == 0 || dir[r][0] == DELETED)
    ensures forall i :: k <= i < r ==> dir[i][0] != 0 && dir[i][0] != DELETED
    decreases |dir| - k
  {
    if k == |dir| || dir[k][0] == 0 || dir[k][0] == DELETED then k else FreeSlot(dir, k + 1)
  }

  // ------------------------------------------------------------------
  // Allocation
  // ------------------------------------------------------------------

  // The lowest free cluster at or above c, |fat| when there is none.
  function FirstZero(fat: Fat, c: nat): (r: nat)
    requires 2 <= c <= |fat|
    ensures c <= r <= |fat| && (r < |fat| ==> fat[r] == 0)
    ensures forall i :: c <= i < r ==> fat[i] != 0
    decreases |fat| - c
  {
    if c == |fat| || fat[c] == 0 then c else FirstZero(fat, c + 1)
  }

  function Zeros(n: nat): (r: Bytes)
    ensures |r| == n
  {
    seq(n, i => 0)
  }

  // fat_alloc_cluster: mark the lowest free cluster as a chain end and zero it; 0 when full.
  function AllocCluster(v: Vol): (r: (Vol, nat))
    requires WellFormed(v)
    ensures WellFormed(r.0) && |r.0.fat| == |v.fat| && r.0.dir == v.dir && r.0.cb == v.cb
  {
    var c := FirstZero(v.fat, 2);
    if c == |v.fat| then (v, 0)
    else (v.(fat := v.fat[c := END_MARK], data := v.data[c - 2 := Zeros(v.cb)]), c)
  }

  datatype Chained = Chained(v: Vol, first: nat) | Full(v: Vol)

  // Allocate `need` more clusters, linking each to the one before; when the disk fills
  // up, everything allocated since `first` is released.
  function AllocChain(v: Vol, first: nat, prev: nat, need: nat): (r: Chained)
    requires WellFormed(v) && prev < |v.fat| && (first != 0 ==> IsCluster(v.fat, first))
    ensures WellFormed(r.v) && |r.v.fat| == |v.fat| && r.v.dir == v.dir && r.v.cb == v.cb
    decreases need
  {
    if need == 0 then Chained(v, first)
    else
      var (v1, c) := AllocCluster(v);
      if c == 0 then Full(if first != 0 then v1.(fat := FreeChain(v1.fat, first)) else v1)
      else
        var v2 := if prev != 0 then v1.(fat := v1.fat[prev := c]) else v1;
        AllocChain(v2, if first == 0 then c else first, c, need - 1)
  }

  // ------------------------------------------------------------------
  // Streaming the payload
  // ------------------------------------------------------------------

  // The sectors that hold `chunk`, the last one padded with zeros.
  function Padded(chunk: Bytes): (r: Bytes)
    ensures |chunk| <= |r| && |r| % SECTOR == 0 && |r| < |chunk| + SECTOR
  {
    PaddedSize(|chunk|);
    var n := (|chunk| + SECTOR - 1) / SECTOR * SECTOR;
    chunk + Zeros(n - |chunk|)
  }

  lemma PaddedSize(n: nat)
    ensures var p := (n + SECTOR - 1) / SECTOR * SECTOR; n <= p < n + SECTOR && p % SECTOR == 0
  {
    var q := (n + SECTOR - 1) / SECTOR;
    assert n + SECTOR - 1 == SECTOR * q + (n + SECTOR - 1) % SECTOR;
  }

  // A cluster after the sectors of `chunk` are written over its beginning.
  function Overlay(prior: Bytes, chunk: Bytes): (r: Bytes)
    requires |chunk| <= |prior| && |prior| % SECTOR == 0
    ensures |r| == |prior|
  {
    PaddedFits(|chunk|, |prior|);
    Padded(chunk) + prior[|Padded(chunk)|..]
  }

  lemma PaddedFits(n: nat, m: nat)
    requires n <= m && m % SECTOR == 0
    ensures (n + SECTOR - 1) / SECTOR * SECTOR <= m
  {
  }

  // 512 bytes of the payload from `at`, padded with zeros.
  function Piece(data: Bytes, at: nat): (r: Bytes)
    ensures |r| == SECTOR
  {
    if at + SECTOR <= |data| then data[at..at + SECTOR]
    else if at < |data| then data[at..] + Zeros(SECTOR - (|data| - at))
    else Zeros(SECTOR)
  }

  lemma PieceAt(data: Bytes, at: nat, i: nat)
    requires i < SECTOR
    ensures Piece(data, at)[i] == if at + i < |data| then data[at + i] else 0
  {
  }

  // The next s pieces, end to end.
  function Pieces(data: Bytes, at: nat, s: nat): (r: Bytes)
    ensures |r| == s * SECTOR
  {
    if s == 0 then [] else Pieces(data, at, s - 1) + Piece(data, at + (s - 1) * SECTOR)
  }

  lemma {:induction false} PiecesAt(data: Bytes, at: nat, s: nat, i: nat)
    requires i < s * SECTOR
    ensures Pieces(data, at, s)[i] == if at + i < |data| then data[at + i] else 0
    decreases s
  {
    var m, last := (s - 1) * SECTOR, Piece(data, at + (s - 1) * SECTOR);
    assert Pieces(data, at, s) == Pieces(data, at, s - 1) + last;
    if i < m {
      PiecesAt(data, at, s - 1, i);
    } else {
      PieceAt(data, at + m, i - m);
      assert Pieces(data, at, s)[i] == last[i - m];
    }
  }

  // Write `bytes` into the chain that starts at c.
  function Stream(v: Vol, c: nat, bytes: Bytes): (r: Vol)
    requires WellFormed(v)
    ensures WellFormed(r) && r.fat == v.fat && r.dir == v.dir && r.cb == v.cb
    decreases |bytes|
  {
    if !IsCluster(v.fat, c) || |bytes| == 0 then v
    else
      var n := if |bytes| < v.cb then |bytes| else v.cb;
      var v1 := v.(data := v.data[c - 2 := Overlay(v.data[c - 2], bytes[..n])]);
      Stream(v1, v.fat[c], bytes[n..])
  }

  // ------------------------------------------------------------------
  // The operations
  // ------------------------------------------------------------------

  // Clusters needed for n bytes.
  function Need(n: nat, cb: nat): nat
    requires cb > 0
  {
    (n + cb - 1) / cb
  }

  // fat_write: the volume afterwards and whether it succeeded.
  function Write(v: Vol, name: Bytes, bytes: Bytes): (r: (Vol, bool))
    requires WellFormed(v) && |name| == NAME
    ensures WellFormed(r.0)
  {
    var k := Find(v.dir, name, 0);
    var existed := k < |v.dir|;
    var slot := if existed then k else FreeSlot(v.dir, 0);
    if slot == |v.dir| then (v, false)
    else
      var v1 := if existed then v.(fat := FreeChain(v.fat, SlotFirst(v.dir[k]))) else v;
      match AllocChain(v1, 0, 0, Need(|bytes|, v.cb))
      case Full(v2) => (v2, false)
      case Chained(v2, first) =>
        var v3 := Stream(v2, first, bytes);
        (v3.(dir := v3.dir[slot := MakeSlot(name, first, |bytes|)]), true)
  }

  // fat_delete
  function Delete(v: Vol, name: Bytes): (r: (Vol, bool))
    requires WellFormed(v) && |name| == NAME
    ensures WellFormed(r.0)
  {
    var k := Find(v.dir, name, 0);
    if k == |v.dir| then (v, false)
    else
      var e: Bytes := v.dir[k][0 := DELETED];
      (v.(dir := v.dir[k := e], fat := FreeChain(v.fat, SlotFirst(v.dir[k]))), true)
  }

  // The bytes of the first n clusters from c, in chain order.
  function Gather(v: Vol, c: nat, n: nat): Bytes
    requires WellFormed(v)
    decreases n
  {
    if n == 0 || !IsCluster(v.fat, c) then [] else v.data[c - 2] + Gather(v, v.fat[c], n - 1)
  }

  // fat_read: follow the chain until `want` bytes are copied or the links end.
  function ReadChain(v: Vol, c: nat, want: nat): (r: Bytes)
    requires WellFormed(v)
    ensures |r| <= want
    decreases want
  {
    if !IsCluster(v.fat, c) || want == 0 then []
    else if want <= v.cb then v.data[c - 2][..want]
    else v.data[c - 2] + ReadChain(v, v.fat[c], want - v.cb)
  }

  function Min(a: nat, b: nat): nat { if a < b then a else b }

  datatype Lookup = Missing | Found(bytes: Bytes)

  // What a directory slot says about its file.
  datatype Stats = NoFile | Stats(size: nat, first: nat, attr: byte)

  function EntryOf(e: Bytes): Stats
    requires |e| == SLOT
  {
    Stats(SlotSize(e), SlotFirst(e), e[11])
  }

  // fat_stat
  function Stat(v: Vol, name: Bytes): Stats
    requires WellFormed(v) && |name| == NAME
  {
    var k := Find(v.dir, name, 0);
    if k == |v.dir| then NoFile else EntryOf(v.dir[k])
  }

  // fat_read: at most `max` bytes of the named file.
  function Read(v: Vol, name: Bytes, max: nat): Lookup
    requires WellFormed(v) && |name| == NAME
  {
    match Stat(v, name)
    case NoFile => Missing
    case Stats(size, first, _) => Found(ReadChain(v, first, Min(size, max)))
  }

  // fat_free_bytes
  function FreeBytes(v: Vol): nat {
    FreeCount(v.fat) * v.cb
  }
}
