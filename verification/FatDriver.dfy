// The FAT12 driver of kernel/fat.c, sector by sector: every call transfers sectors through
// one static buffer and leaves on the disk exactly the volume its specification names.

module FatDriver {
  import opened FatEntries
  import opened FatChains
  import opened FatVolume
  import opened FatLayout
  import opened FatNames
  import opened FatScan
  import opened FatInvariant
  import opened FatAlloc
  import FatCreate

  const GUARD: nat := 65536

  // Slots hold a first cluster that stays in the table or ends a chain.
  ghost predicate Sane(v: Vol)
    requires WellFormed(v)
  {
    LinksOk(v.fat) && forall k :: 0 <= k < |v.dir| && InUse(v.dir[k]) ==> LinkOk(v.fat, SlotFirst(v.dir[k]))
  }

  lemma AllocTaken(v: Vol, w: Vol, c: nat)
    requires WellFormed(v) && c == FirstZero(v.fat, 2) < |v.fat|
    requires w == v.(fat := v.fat[c := END_MARK]).(data := v.data[c - 2 := Zeros(v.cb)])
    ensures (w, c) == AllocCluster(v)
  {
  }

  // The state of fat_free_chain's loop: w is the volume, v the one it started from.
  ghost predicate Freeing(v: Vol, first: nat, w: Vol, cluster: nat, guard: nat) {
    && w == v.(fat := w.fat) && |w.fat| == |v.fat| <= CHAIN_END
    && LinksOk(w.fat) && LinkOk(w.fat, cluster)
    && FreeChain(w.fat, cluster) == FreeChain(v.fat, first)
    && guard + UsedCount(w.fat) <= UsedCount(v.fat) + if IsCluster(v.fat, cluster) then 0 else 1
  }

  // What is left to do for the loop.
  ghost function FreeingLeft(w: Vol, cluster: nat): nat {
    2 * UsedCount(w.fat) + if IsCluster(w.fat, cluster) then 1 else 0
  }

  lemma FreeingStep(v: Vol, first: nat, w: Vol, cluster: nat, guard: nat)
    requires Freeing(v, first, w, cluster, guard) && IsCluster(w.fat, cluster)
    ensures var w' := w.(fat := w.fat[cluster := 0]);
            && Freeing(v, first, w', w.fat[cluster], guard + 1)
            && FreeingLeft(w', w.fat[cluster]) < FreeingLeft(w, cluster)
    ensures guard + 1 <= GUARD
  {
    FreeStep(w.fat, cluster);
    FreeCountUpdate(v.fat, cluster, 0);
  }

  lemma BytesFree(n: nat, spc: nat, cb: nat)
    requires cb == spc * 512
    ensures n * spc * 512 == n * cb
  {
  }

  lemma SaneFirst(v: Vol, name: Bytes)
    requires WellFormed(v) && Sane(v) && |name| == NAME && Stat(v, name).Stats?
    ensures LinkOk(v.fat, Stat(v, name).first)
  {
    var k := Find(v.dir, name, 0);
    assert InUse(v.dir[k]);
  }

  // At most 65536 clusters of the named file are to be read.
  ghost predicate GuardSuffices(v: Vol, name: Bytes, max: nat)
    requires WellFormed(v) && |name| == NAME
  {
    var r := Stat(v, name);
    r.Stats? ==> Min(r.size, max) <= GUARD * v.cb
  }

  // What fat_read's loop comes to: `got` are the bytes copied before `cluster`, and the
  // guard has counted a full cluster for each round so far.
  datatype Copying = Copied(bytes: Bytes) | GoneAstray

  ghost function ReadRest(v: Vol, want: nat, cluster: nat, guard: nat, got: Bytes): Copying {
    if WellFormed(v) && LinksOk(v.fat) && |got| <= want && LinkOk(v.fat, cluster) &&
        (|got| == want || |got| == guard * v.cb)
    then Copied(got + ReadChain(v, cluster, want - |got|)) else GoneAstray
  }

  lemma ReadingStep(v: Vol, want: nat, cluster: nat, guard: nat, got: Bytes)
    requires WellFormed(v) && ReadRest(v, want, cluster, guard, got).Copied?
    requires IsCluster(v.fat, cluster) && |got| < want <= GUARD * v.cb
    ensures guard < GUARD
    ensures var m := Min(v.cb, want - |got|);
            ReadRest(v, want, v.fat[cluster], guard + 1, got + v.data[cluster - 2][..m]) ==
                ReadRest(v, want, cluster, guard, got)
  {
    if guard >= GUARD { MulMono(GUARD, guard, v.cb); }
    assert (guard + 1) * v.cb == guard * v.cb + v.cb;
    var chunk := v.data[cluster - 2][..Min(v.cb, want - |got|)];
    var rest := ReadChain(v, v.fat[cluster], want - |got| - |chunk|);
    assert ReadChain(v, cluster, want - |got|) == chunk + rest;
    assert got + (chunk + rest) == got + chunk + rest;
  }

  // The loop is at `cluster` with `got`; unfolded only where a proof mentions Round.
  ghost predicate Reading(v: Vol, first: nat, want: nat, cluster: nat, guard: nat, got: Bytes)
    requires WellFormed(v)
  {
    && LinkOk(v.fat, cluster) && |got| <= want
    && forall n: nat {:trigger Round(n)} :: Round(n) ==>
       ReadRest(v, want, cluster, guard, got) == Copied(ReadChain(v, first, want))
  }

  ghost predicate Round(n: nat) { true }

  lemma ReadingStarts(v: Vol, first: nat, want: nat)
    requires WellFormed(v) && LinksOk(v.fat) && LinkOk(v.fat, first)
    ensures Reading(v, first, want, first, 0, [])
  {
    assert [] + ReadChain(v, first, want) == ReadChain(v, first, want);
  }

  lemma ReadingOn(v: Vol, first: nat, want: nat, cluster: nat, guard: nat, got: Bytes, more: Bytes)
    requires WellFormed(v) && Reading(v, first, want, cluster, guard, got)
    requires IsCluster(v.fat, cluster) && |got| < want <= GUARD * v.cb
    requires more == got + v.data[cluster - 2][..Min(v.cb, want - |got|)]
    ensures guard < GUARD && Reading(v, first, want, v.fat[cluster], guard + 1, more)
  {
    assert Round(0);
    ReadingStep(v, want, cluster, guard, got);
  }

  lemma ReadingEnds(v: Vol, first: nat, want: nat, cluster: nat, guard: nat, got: Bytes)
    requires WellFormed(v) && Reading(v, first, want, cluster, guard, got)
    requires |got| == want || !IsCluster(v.fat, cluster)
    ensures got == ReadChain(v, first, want)
  {
    assert Round(0);
    assert got + [] == got;
  }

  // The first s sectors of a cluster and n bytes of the next.
  lemma NextPart(data: Bytes, s: nat, buf: Bytes, n: nat, before: Bytes)
    requires (s + 1) * SECTOR <= |data| && buf == data[s * SECTOR..(s + 1) * SECTOR] && n <= SECTOR
    ensures before + data[..s * SECTOR] + buf[..n] == before + data[..s * SECTOR + n]
  {
    assert data[..s * SECTOR] + buf[..n] == data[..s * SECTOR + n];
  }

  // Deleting is marking the slot and then releasing the chain it named.
  lemma DeletedThenFreed(v: Vol, name: Bytes, w: Vol)
    requires WellFormed(v) && |name| == NAME && Find(v.dir, name, 0) < |v.dir|
    requires var k := Find(v.dir, name, 0);
             w == v.(dir := v.dir[k := Poke(v.dir[k], 0, DELETED)]).(fat := FreeChain(v.fat, SlotFirst(v.dir[k])))
    ensures Delete(v, name) == (w, true)
  {
  }

  // What fat_write's allocation loop comes to from the state it is in.
  datatype Alloc = Ends(r: Chained) | Astray

  ghost function AllocRest(w: Vol, first: nat, prev: nat, left: nat): Alloc {
    if WellFormed(w) && LinksOk(w.fat) && prev < |w.fat| && (first != 0 ==> IsCluster(w.fat, first))
    then Ends(AllocChain(w, first, prev, left)) else Astray
  }

  lemma AllocatingStep(w: Vol, first: nat, prev: nat, left: nat)
    requires WellFormed(w) && AllocRest(w, first, prev, left).Ends? && left > 0
    ensures var (w1, c) := AllocCluster(w); var goal := AllocRest(w, first, prev, left);
            && c < |w.fat| && LinksOk(w1.fat) && LinkOk(w1.fat, first)
            && (c == 0 ==> goal == Ends(Full(if first != 0 then w1.(fat := FreeChain(w1.fat, first)) else w1)))
            && (c != 0 ==> goal == AllocRest(if prev != 0 then w1.(fat := w1.fat[prev := c % 4096]) else w1,
                                             if first == 0 then c else first, c, left - 1))
  {
  }

  // As many pieces as a chunk of n bytes calls for are the chunk padded with zeros.
  lemma PiecesPadded(data: Bytes, at: nat, n: nat, s: nat)
    requires at + n <= |data| && (at + n == |data| || n == s * SECTOR)
    requires n <= s * SECTOR && (s > 0 ==> (s - 1) * SECTOR < n)
    ensures Pieces(data, at, s) == Padded(data[at..at + n])
  {
    var pad := Padded(data[at..at + n]);
    assert |pad| == s * SECTOR;
    forall i: nat | i < s * SECTOR ensures Pieces(data, at, s)[i] == pad[i] { PiecesAt(data, at, s, i); }
  }

  // Cluster c overlaid with a chunk.
  function Overlaid(w: Vol, c: nat, chunk: Bytes): (r: Vol)
    requires WellFormed(w) && IsCluster(w.fat, c) && |chunk| <= w.cb
    ensures WellFormed(r)
  {
    w.(data := w.data[c - 2 := Overlay(w.data[c - 2], chunk)])
  }

  // What fat_write's streaming loop comes to from the state it is in.
  datatype Streamed = Volume(v: Vol) | ChainTooShort

  ghost function StreamRest(w: Vol, c: nat, rest: Bytes): Streamed {
    if WellFormed(w) && |Follow(w.fat, c, Need(|rest|, w.cb))| == Need(|rest|, w.cb) then Volume(Stream(w, c, rest))
        else ChainTooShort
  }

  // One cluster of the payload written, and the chain followed if there is more.
  lemma StreamingStep(w: Vol, c: nat, data: Bytes, at: nat)
    requires WellFormed(w) && at < |data| && StreamRest(w, c, data[at..]).Volume?
    ensures IsCluster(w.fat, c)
    ensures var n := Min(w.cb, |data| - at); var w' := Overlaid(w, c, data[at..at + n]);
            StreamRest(w', if at + n < |data| then w.fat[c] else c, data[at + n..]) == StreamRest(w, c, data[at..])
  {
    var rest, n := data[at..], Min(w.cb, |data| - at);
    NeedCovers(|rest|, w.cb);
    NeedCovers(0, w.cb);
    assert Follow(w.fat, c, Need(|rest|, w.cb)) == [c] + Follow(w.fat, w.fat[c], Need(|rest|, w.cb) - 1);
    assert rest[..n] == data[at..at + n] && rest[n..] == data[at + n..];
    var w' := Overlaid(w, c, rest[..n]);
    assert Stream(w, c, rest) == Stream(w', w.fat[c], rest[n..]);
    if n == |rest| { assert rest[n..] == [] && Stream(w', c, rest[n..]) == w' == Stream(w, c, rest); }
  }

  // Cluster c with its first bytes overwritten by `head`.
  function PartWritten(v: Vol, c: nat, head: Bytes): Vol
    requires WellFormed(v) && IsCluster(v.fat, c) && |head| <= v.cb
  {
    v.(data := v.data[c - 2 := Patched(v.data[c - 2], head)])
  }

  lemma PartStart(v: Vol, c: nat)
    requires WellFormed(v) && IsCluster(v.fat, c)
    ensures PartWritten(v, c, []) == v
  {
    assert Patched(v.data[c - 2], []) == v.data[c - 2];
    assert v.data[c - 2 := v.data[c - 2]] == v.data;
  }

  // Overwriting a cluster twice leaves what was written last.
  lemma PartNext(v: Vol, c: nat, head: Bytes, more: Bytes)
    requires WellFormed(v) && IsCluster(v.fat, c) && |head + more| <= v.cb
    ensures var w := PartWritten(v, c, head); var b := Patched(v.data[c - 2], head + more);
            |w.data| == |v.data| && w.data[c - 2] == Patched(v.data[c - 2], head)
            && w.(data := w.data[c - 2 := b]) == PartWritten(v, c, head + more)
  {
    var w, b := PartWritten(v, c, head), Patched(v.data[c - 2], head + more);
    assert w.data[c - 2 := b] == v.data[c - 2 := b];
  }

  // The write loop is before sector s of a cluster of spc; unfolded only where a proof mentions Round.
  ghost predicate Writing(v: Vol, c: nat, data: Bytes, from: nat, spc: nat, s: nat, written: nat, w: Vol)
    requires WellFormed(v) && IsCluster(v.fat, c) && from < |data| && v.cb == spc * SECTOR
  {
    && s <= spc
    && forall n: nat {:trigger Round(n)} :: Round(n) ==>
       && written == from + Min(s * SECTOR, |data| - from) && (s > 0 ==> (s - 1) * SECTOR < |data| - from)
       && w == PartWritten(v, c, Pieces(data, from, s))
  }

  lemma WritingStarts(v: Vol, c: nat, data: Bytes, from: nat, spc: nat)
    requires WellFormed(v) && IsCluster(v.fat, c) && from < |data| && v.cb == spc * SECTOR
    ensures Writing(v, c, data, from, spc, 0, from, v)
  {
    PartStart(v, c);
  }

  lemma WritingOn(v: Vol, c: nat, data: Bytes, from: nat, spc: nat, s: nat, written: nat, w: Vol)
    requires WellFormed(v) && IsCluster(v.fat, c) && from < |data| && v.cb == spc * SECTOR
    requires Writing(v, c, data, from, spc, s, written, w) && s < spc && written < |data|
    ensures written == from + s * SECTOR && |Pieces(data, from, s) + Piece(data, written)| <= v.cb
    ensures w == PartWritten(v, c, Pieces(data, from, s)) && |w.fat| == |v.fat|
    ensures var head := Pieces(data, from, s) + Piece(data, written);
            Writing(v, c, data, from, spc, s + 1, Min(written + SECTOR, |data|), PartWritten(v, c, head))
  {
    assert Round(0);
  }

  lemma WritingEnds(v: Vol, c: nat, data: Bytes, from: nat, spc: nat, s: nat, written: nat, w: Vol)
    requires WellFormed(v) && IsCluster(v.fat, c) && from < |data| && v.cb == spc * SECTOR
    requires Writing(v, c, data, from, spc, s, written, w) && (s == spc || written >= |data|)
    ensures written == from + Min(v.cb, |data| - from) && w == Overlaid(v, c, data[from..written])
  {
    assert Round(0);
    PartDone(v, c, data, from, s);
  }

  lemma PartDone(v: Vol, c: nat, data: Bytes, at: nat, s: nat)
    requires WellFormed(v) && IsCluster(v.fat, c) && at < |data| && s * SECTOR <= v.cb
    requires (s > 0 ==> (s - 1) * SECTOR < |data| - at) && (s * SECTOR == v.cb || |data| - at <= s * SECTOR)
    ensures PartWritten(v, c, Pieces(data, at, s)) == Overlaid(v, c, data[at..at + Min(v.cb, |data| - at)])
  {
    PiecesPadded(data, at, Min(v.cb, |data| - at), s);
  }

  function SlotTail(first: nat, len: nat): Bytes {
    [first % 256, first / 256 % 256, len % 256, len / 256 % 256, len / 0x1_0000 % 256, len / 0x100_0000 % 256]
  }

  lemma RestIs(s0: Bytes, s1: Bytes, s2: Bytes, off: nat, first: nat, len: nat)
    requires |s0| == |s1| == |s2| == SECTOR && off + SLOT <= SECTOR
    requires s1[off + NAME..off + 26] == [ATTR_ARCHIVE] + Zeros(14) && s2[off + 26..off + SLOT] == SlotTail(first, len)
    requires s1[..off + NAME] == s0[..off + NAME] && s1[off + 26..] == s0[off + 26..]
    requires s2[..off + 26] == s1[..off + 26] && s2[off + SLOT..] == s1[off + SLOT..]
    ensures s2[off + NAME..off + SLOT] == SlotRest(first, len)
    ensures s2[..off + NAME] == s0[..off + NAME] && s2[off + SLOT..] == s0[off + SLOT..]
  {
    assert s2[..off + NAME] == s2[..off + 26][..off + NAME] && s1[..off + NAME] == s1[..off + 26][..off + NAME];
    assert s1[off + SLOT..] == s1[off + 26..][SLOT - 26..] && s0[off + SLOT..] == s0[off + 26..][SLOT - 26..];
    assert s2[off + NAME..off + 26] == s2[..off + 26][off + NAME..];
    assert s1[off + NAME..off + 26] == s1[..off + 26][off + NAME..];
    assert s2[off + NAME..off + SLOT] == s2[off + NAME..off + 26] + s2[off + 26..off + SLOT];
    assert [ATTR_ARCHIVE] + Zeros(14) + SlotTail(first, len) == SlotRest(first, len);
  }

  class Driver {
    const sectors: array<Bytes>
    const secbuf: array<byte>
    var mounted: bool
    var geo: Geo
    ghost var vol: Vol                 // the volume the sectors hold, once mounted

    ghost predicate Valid()
      reads sectors
    {
      DiskOk(sectors[..]) && secbuf.Length == SECTOR
    }

    // Mounted, and the sectors hold the volume.
    ghost predicate Ready()
      reads this, sectors
    {
      secbuf.Length == SECTOR && mounted && WellFormed(vol) && Laid(sectors[..], geo, vol)
    }

    constructor (disk: array<Bytes>)
      requires DiskOk(disk[..])
      ensures Valid() && !mounted && sectors == disk && fresh(secbuf)
    {
      sectors := disk;
      secbuf := new byte[SECTOR];
      mounted := false;
      geo := Geo(0, 0, 0, 0, 0, 1);
      vol := Vol([], [], [], 0);
    }

    // fat_mount: the geometry comes from the boot sector; the driver then serves whatever
    // volume v the disk holds under that geometry.
    method Mount(ghost v: Vol) returns (ok: bool)
      requires Valid()
      modifies this, secbuf
      ensures Valid() && sectors[..] == old(sectors[..])
      ensures ok == mounted == (U16(sectors[..][0], 11) == 512)
      ensures ok ==> geo == Geometry(sectors[..][0])
      ensures ok && WellFormed(v) && Laid(sectors[..], geo, v) ==> Ready() && vol == v
    {
      mounted := false;
      ReadSector(0);
      if secbuf[11] as nat + 256 * (secbuf[12] as nat) != 512 { return false; }
      var reserved: nat := secbuf[14] as nat + 256 * (secbuf[15] as nat);
      var fatSectors: nat := secbuf[22] as nat + 256 * (secbuf[23] as nat);
      var rootLba := reserved + secbuf[16] as nat * fatSectors;
      var rootSectors := ((secbuf[17] as nat + 256 * (secbuf[18] as nat)) * 32 + 511) / 512;
      geo := Geo(reserved, fatSectors, rootLba, rootSectors, rootLba + rootSectors,
                 if secbuf[13] != 0 then secbuf[13] as nat else 1);
      mounted := true;
      vol := v;
      return true;
    }

    // ----------------------------------------------------------------
    // Sector transfers
    // ----------------------------------------------------------------

    method ReadSector(lba: nat)
      requires Valid() && lba < SECTORS
      modifies secbuf
      ensures secbuf[..] == sectors[..][lba]
    {
      assert |sectors[..][lba]| == SECTOR;
      forall i | 0 <= i < SECTOR { secbuf[i] := sectors[lba][i]; }
    }

    method WriteSector(lba: nat)
      requires Valid() && lba < SECTORS
      modifies sectors
      ensures Valid() && sectors[..] == old(sectors[..])[lba := secbuf[..]]
    {
      sectors[lba] := secbuf[..];
    }

    // Patch the first byte of an entry in its sector.
    method PatchLow(lba: nat, o: nat, odd: bool, value: u16)
      requires Valid() && lba < SECTORS && o < SECTOR
      modifies sectors, secbuf
      ensures Valid()
      ensures var d := old(sectors[..]); sectors[..] == d[lba := Poke(d[lba], o, LowByte(odd, d[lba][o], value))]
    {
      ReadSector(lba);
      secbuf[o] := LowByte(odd, secbuf[o], value);
      WriteSector(lba);
    }

    // Patch the second byte of an entry in its sector.
    method PatchHigh(lba: nat, o: nat, odd: bool, value: u16)
      requires Valid() && lba < SECTORS && o < SECTOR
      modifies sectors, secbuf
      ensures Valid()
      ensures var d := old(sectors[..]); sectors[..] == d[lba := Poke(d[lba], o, HighByte(odd, d[lba][o], value))]
    {
      ReadSector(lba);
      secbuf[o] := HighByte(odd, secbuf[o], value);
      WriteSector(lba);
    }

    // Patch both bytes of an entry that lies in one sector.
    method PatchPair(lba: nat, o: nat, odd: bool, value: u16)
      requires Valid() && lba < SECTORS && o + 1 < SECTOR
      modifies sectors, secbuf
      ensures Valid()
      ensures var d := old(sectors[..]); var (lo, hi) := Encode(odd, d[lba][o], d[lba][o + 1], value);
              sectors[..] == d[lba := Poke(Poke(d[lba], o, lo), o + 1, hi)]
    {
      ReadSector(lba);
      secbuf[o] := LowByte(odd, secbuf[o], value);
      secbuf[o + 1] := HighByte(odd, secbuf[o + 1], value);
      WriteSector(lba);
    }

    // Two neighbouring bytes, the second perhaps in the next sector.
    method ReadPair(lba: nat, off: nat) returns (lo: byte, hi: byte)
      requires Valid() && lba < SECTORS && off < SECTOR && (off == 511 ==> lba + 1 < SECTORS)
      modifies secbuf
      ensures lo == sectors[..][lba][off]
      ensures hi == if off == 511 then sectors[..][lba + 1][0] else sectors[..][lba][off + 1]
    {
      ReadSector(lba);
      lo := secbuf[off];
      if off == 511 {
        ReadSector(lba + 1);
        hi := secbuf[0];
      } else {
        hi := secbuf[off + 1];
      }
    }

    // ----------------------------------------------------------------
    // FAT entries
    // ----------------------------------------------------------------

    // fat_next_cluster
    method NextCluster(c: nat) returns (v: entry)
      requires Ready() && c < |vol.fat|
      modifies secbuf
      ensures Ready() && v == vol.fat[c]
    {
      HeldEntryAt(sectors[..], geo, vol, c);
      var offset := c + c / 2;
      var lo, hi := ReadPair(geo.fatLba + offset / SECTOR, offset % SECTOR);
      v := Decode(c % 2 == 1, lo, hi);
    }

    // One round of fat_set: the entry in one FAT copy.
    method SetCopy(copy: nat, c: nat, value: u16)
      requires Valid() && GeoOk(geo) && copy < 2 && c < MaxClusters(geo) + 2
      modifies sectors, secbuf
      ensures Valid() && sectors[..] == WithEntry(old(sectors[..]), geo, copy, c, value)
    {
      EntryPlace(sectors[..], geo, copy, c);
      EntryWrite(sectors[..], geo, copy, c, value);
      var offset := c + c / 2;
      var sec, off := offset / SECTOR, offset % SECTOR;
      var lba := geo.fatLba + copy * geo.fatSectors + sec;
      assert lba == FatLba(geo, copy) + sec;
      if off == 511 {
        PatchLow(lba, 511, c % 2 == 1, value);
        PatchHigh(lba + 1, 0, c % 2 == 1, value);
      } else {
        PatchPair(lba, off, c % 2 == 1, value);
      }
    }

    // fat_set: every FAT copy gets the value.
    method SetEntry(c: nat, value: u16)
      requires Ready() && c < |vol.fat|
      modifies sectors, secbuf, this`vol
      ensures Ready() && vol == old(vol).(fat := old(vol).fat[c := value % 4096])
    {
      ghost var d := sectors[..];
      HeldEntry(d, geo, vol, c, value);
      for f := 0 to 2
        invariant Valid() && vol == old(vol)
        invariant sectors[..] == WithCopies(d, geo, f, c, value)
      {
        SetCopy(f, c, value);
      }
      vol := vol.(fat := vol.fat[c := value % 4096]);
    }

    // ----------------------------------------------------------------
    // Clusters
    // ----------------------------------------------------------------

    // Write the buffer to sector s of cluster c, whose first s sectors already hold `head`.
    method WriteData(c: nat, s: nat, ghost was: Bytes, ghost head: Bytes)
      requires Ready() && 2 <= c < |vol.fat| && s < geo.spc
      requires |was| == geo.spc * SECTOR && |head| == s * SECTOR <= |was|
      requires vol.data[c - 2] == Patched(was, head)
      modifies sectors, this`vol
      ensures |head + secbuf[..]| == (s + 1) * SECTOR <= |was|
      ensures Ready() && vol == old(vol).(data := old(vol).data[c - 2 := Patched(was, head + secbuf[..])])
    {
      HeldData(sectors[..], geo, vol, c, s, was, head, secbuf[..]);
      ClusterFits(geo, c - 2);
      WriteSector(geo.dataLba + (c - 2) * geo.spc + s);
      vol := vol.(data := vol.data[c - 2 := Patched(was, head + secbuf[..])]);
    }

    method ZeroBuffer()
      requires secbuf.Length == SECTOR
      modifies secbuf
      ensures secbuf[..] == Zeros(SECTOR)
    {
      for i := 0 to 512
        invariant forall j :: 0 <= j < i ==> secbuf[j] == 0
      {
        secbuf[i] := 0;
      }
    }

    method ZeroCluster(c: nat)
      requires Ready() && 2 <= c < |vol.fat|
      modifies sectors, secbuf, this`vol
      ensures Ready() && vol == old(vol).(data := old(vol).data[c - 2 := Zeros(vol.cb)])
    {
      ghost var v, was := vol, vol.data[c - 2];
      HeldSizes(sectors[..], geo, vol);
      assert Patched(was, Zeros(0)) == was;
      assert v.data[c - 2 := was] == v.data;
      for s := 0 to geo.spc
        invariant Ready() && s * SECTOR <= |was|
        invariant vol == v.(data := v.data[c - 2 := Patched(was, Zeros(s * SECTOR))])
      {
        ZeroBuffer();
        WriteData(c, s, was, Zeros(s * SECTOR));
        assert Zeros(s * SECTOR) + Zeros(SECTOR) == Zeros((s + 1) * SECTOR);
      }
      assert Patched(was, Zeros(geo.spc * SECTOR)) == Zeros(geo.spc * SECTOR);
    }

    // The scan of fat_alloc_cluster.
    method FindFree() returns (c: nat)
      requires Ready()
      modifies secbuf
      ensures Ready() && c == FirstZero(vol.fat, 2)
    {
      HeldSizes(sectors[..], geo, vol);
      var maxc := MaxClusters(geo);
      c := 2;
      while c < maxc + 2
        invariant 2 <= c <= maxc + 2
        invariant FirstZero(vol.fat, c) == FirstZero(vol.fat, 2)
      {
        var e := NextCluster(c);
        if e == 0 { return; }
        c := c + 1;
      }
    }

    // fat_alloc_cluster: the lowest free cluster, zeroed and marked as a chain end.
    method AllocCluster() returns (r: nat)
      requires Ready()
      modifies sectors, secbuf, this`vol
      ensures Ready() && (vol, r) == FatVolume.AllocCluster(old(vol))
    {
      HeldSizes(sectors[..], geo, vol);
      ghost var v := vol;
      var c := FindFree();
      if c == MaxClusters(geo) + 2 { return 0; }
      SetEntry(c, 0x0FFF);
      ZeroCluster(c);
      AllocTaken(v, vol, c);
      return c;
    }

    // fat_free_chain: the guard against endless chains never fires.
    method FreeChain(first: nat)
      requires Ready() && LinksOk(vol.fat) && LinkOk(vol.fat, first)
      modifies sectors, secbuf, this`vol
      ensures Ready() && vol == old(vol).(fat := FatChains.FreeChain(old(vol).fat, first))
    {
      var guard: nat, cluster: nat := 0, first;
      ghost var v := vol;
      while cluster >= 2 && cluster < 0xFF0
        invariant Ready() && Freeing(v, first, vol, cluster, guard)
        decreases FreeingLeft(vol, cluster)
      {
        FreeingStep(v, first, vol, cluster, guard);
        guard := guard + 1;
        if guard > GUARD { assert false; break; }
        var next := NextCluster(cluster);
        SetEntry(cluster, 0);
        cluster := next;
      }
    }

    // The loop of fat_free_bytes.
    method CountFree() returns (freec: nat)
      requires Ready()
      modifies secbuf
      ensures Ready() && freec == FreeCount(vol.fat)
    {
      HeldSizes(sectors[..], geo, vol);
      var maxc := MaxClusters(geo);
      freec := 0;
      var c := 2;
      while c < maxc + 2
        invariant 2 <= c <= maxc + 2
        invariant freec == FreeBelow(vol.fat, c)
      {
        var e := NextCluster(c);
        if e == 0 { freec := freec + 1; }
        c := c + 1;
      }
    }

    // fat_free_bytes
    method FreeBytes() returns (n: nat)
      requires mounted ==> Ready()
      modifies secbuf
      ensures mounted ==> Ready()
      ensures n == if mounted then FatVolume.FreeBytes(vol) else 0
    {
      if !mounted { return 0; }
      HeldSizes(sectors[..], geo, vol);
      var freec := CountFree();
      BytesFree(freec, geo.spc, vol.cb);
      return freec * geo.spc * 512;
    }

    // ----------------------------------------------------------------
    // Directory scans
    // ----------------------------------------------------------------

    // dir_match
    method DirMatch(off: nat, norm: array<byte>) returns (b: bool)
      requires secbuf.Length == SECTOR && off + NAME <= SECTOR && norm.Length >= NAME
      ensures b <==> secbuf[off..off + NAME] == norm[..NAME]
    {
      for i := 0 to 11
        invariant secbuf[off..off + i] == norm[..i]
      {
        if secbuf[off + i] != norm[i] {
          assert secbuf[off..off + NAME][i] != norm[..NAME][i];
          return false;
        }
      }
      return true;
    }

    // The tests every scan makes on the slot at `off` of the buffer.
    method Classify(off: nat, norm: array<byte>) returns (kind: Kind)
      requires secbuf.Length == SECTOR && off + SLOT <= SECTOR && norm.Length >= NAME
      ensures kind == KindOf(secbuf[off..off + SLOT], norm[..NAME])
    {
      ghost var e := secbuf[off..off + SLOT];
      assert SlotName(e) == secbuf[off..off + NAME];
      if secbuf[off] == 0x00 { return End; }
      if secbuf[off] == 0xE5 { return Deleted; }
      if secbuf[off + 11] == 0x0F { return Other; }
      var same := DirMatch(off, norm);
      return if same then Match else Other;
    }

    // dir_find_slot: the slot that has the name, or else the first free one.
    method FindSlot(norm: array<byte>) returns (ok: bool, at: Place, existed: bool)
      requires Ready() && norm.Length >= NAME && norm != secbuf
      modifies secbuf
      ensures Ready()
      ensures Scan(geo, vol.dir, norm[..NAME], 0, Seen(false, Place(0, 0))) ==
              if !ok then NoRoom else if existed then Hit(at) else Vacant(at)
    {
      HeldSizes(sectors[..], geo, vol);
      ghost var goal := Scan(geo, vol.dir, norm[..NAME], 0, Seen(false, Place(0, 0)));
      var seen := Seen(false, Place(0, 0));
      var s: nat := 0;
      while s < geo.rootSectors
        invariant s <= geo.rootSectors
        invariant Scan(geo, vol.dir, norm[..NAME], s * PER_SECTOR, seen) == goal
      {
        var kind;
        kind, at, seen := ScanSector(s, norm, seen);
        if kind == Match { return true, at, true; }
        if kind == End { return true, seen.first, false; }
        s := s + 1;
      }
      return seen.have, seen.first, false;
    }

    // One slot of the scan.
    method ScanSlot(norm: array<byte>, at: Place, seen0: Seen, ghost e: Bytes) returns (kind: Kind, seen: Seen)
      requires secbuf.Length == SECTOR && norm.Length >= NAME && at.off + SLOT <= SECTOR
      requires e == secbuf[at.off..at.off + SLOT]
      ensures kind == KindOf(e, norm[..NAME]) && seen == SawKind(kind, seen0, at)
    {
      kind := Classify(at.off, norm);
      seen := seen0;
      if (kind == End || kind == Deleted) && !seen.have { seen := Seen(true, at); }
    }

    // One directory sector of dir_find_slot: stops at the end of the directory or at a match.
    method ScanSector(s: nat, norm: array<byte>, seen0: Seen) returns (kind: Kind, at: Place, seen: Seen)
      requires Ready() && s < geo.rootSectors && (s + 1) * PER_SECTOR <= |vol.dir|
      requires norm.Length >= NAME && norm != secbuf
      modifies secbuf
      ensures Ready()
      ensures Scan(geo, vol.dir, norm[..NAME], s * PER_SECTOR, seen0) ==
              if kind == Match then Hit(at) else if kind == End then Vacant(seen.first)
              else Scan(geo, vol.dir, norm[..NAME], (s + 1) * PER_SECTOR, seen)
    {
      SlotHere(sectors[..], geo, vol, s, 0);
      ReadSector(geo.rootLba + s);
      ghost var sec, dir, name := secbuf[..], vol.dir, norm[..NAME];
      at, seen, kind := Place(geo.rootLba + s, 0), seen0, Other;
      ghost var j: nat := 0;
      while at.off < 512
        invariant at == Place(geo.rootLba + s, j * SLOT) && j <= PER_SECTOR && kind != Match && kind != End
        invariant Scan(geo, dir, name, s * PER_SECTOR + j, seen) == Scan(geo, dir, name, s * PER_SECTOR, seen0)
        modifies {}
      {
        SlotHere(sectors[..], geo, vol, s, j);
        kind, seen := ScanSlot(norm, at, seen, sec[at.off..at.off + SLOT]);
        if kind == Match || kind == End { return; }
        at, j := Place(at.lba, at.off + 32), j + 1;
      }
    }

    // The fields of the slot at `off` of the buffer.
    method ReadEntry(off: nat) returns (r: Stats)
      requires secbuf.Length == SECTOR && off + SLOT <= SECTOR
      ensures r == EntryOf(secbuf[off..off + SLOT])
    {
      var cluster: nat := secbuf[off + 26] as nat + 256 * (secbuf[off + 27] as nat);
      var fsize: nat := secbuf[off + 28] as nat + 256 * (secbuf[off + 29] as nat)
                        + 0x1_0000 * (secbuf[off + 30] as nat) + 0x100_0000 * (secbuf[off + 31] as nat);
      return Stats(fsize, cluster, secbuf[off + 11]);
    }

    // The scan fat_read and fat_stat begin with.
    method Lookup(norm: array<byte>) returns (r: Stats)
      requires Ready() && norm.Length >= NAME && norm != secbuf
      modifies secbuf
      ensures Ready() && r == StatFrom(vol.dir, norm[..NAME], 0)
    {
      HeldSizes(sectors[..], geo, vol);
      var s: nat := 0;
      while s < geo.rootSectors
        invariant s <= geo.rootSectors
        invariant StatFrom(vol.dir, norm[..NAME], s * PER_SECTOR) == StatFrom(vol.dir, norm[..NAME], 0)
      {
        var kind;
        kind, r := LookSector(s, norm);
        if kind == Match || kind == End { return; }
        s := s + 1;
      }
      return NoFile;
    }

    // One slot of that scan.
    method LookSlot(norm: array<byte>, off: nat, ghost e: Bytes) returns (kind: Kind, r: Stats)
      requires secbuf.Length == SECTOR && norm.Length >= NAME && off + SLOT <= SECTOR
      requires e == secbuf[off..off + SLOT]
      ensures kind == KindOf(e, norm[..NAME]) && r == if kind == Match then EntryOf(e) else NoFile
    {
      r := NoFile;
      kind := Classify(off, norm);
      if kind == Match { r := ReadEntry(off); }
    }

    // One directory sector of that scan.
    method LookSector(s: nat, norm: array<byte>) returns (kind: Kind, r: Stats)
      requires Ready() && s < geo.rootSectors && (s + 1) * PER_SECTOR <= |vol.dir|
      requires norm.Length >= NAME && norm != secbuf
      modifies secbuf
      ensures Ready()
      ensures StatFrom(vol.dir, norm[..NAME], s * PER_SECTOR) ==
              if kind == Match || kind == End then r else StatFrom(vol.dir, norm[..NAME], (s + 1) * PER_SECTOR)
    {
      SlotHere(sectors[..], geo, vol, s, 0);
      ReadSector(geo.rootLba + s);
      ghost var sec, dir, name := secbuf[..], vol.dir, norm[..NAME];
      var off: nat := 0;
      ghost var j: nat := 0;
      kind, r := Other, NoFile;
      while off < 512
        invariant off == j * SLOT && j <= PER_SECTOR && kind != Match && kind != End
        invariant StatFrom(dir, name, s * PER_SECTOR + j) == StatFrom(dir, name, s * PER_SECTOR)
        modifies {}
      {
        SlotHere(sectors[..], geo, vol, s, j);
        kind, r := LookSlot(norm, off, sec[off..off + SLOT]);
        if kind == Match || kind == End { return; }
        off, j := off + 32, j + 1;
      }
    }

    // fat_stat
    method FatStat(name: Bytes) returns (r: Stats)
      requires mounted ==> Ready()
      modifies secbuf
      ensures mounted ==> Ready()
      ensures r == if mounted then Stat(vol, Norm(name)) else NoFile
    {
      if !mounted { return NoFile; }
      var norm := NormName(name);
      StatFromIs(vol.dir, norm[..NAME], 0);
      r := Lookup(norm);
    }

    // ----------------------------------------------------------------
    // fat_read
    // ----------------------------------------------------------------

    // Copy what is still missing from cluster c: the inner loop of fat_read.
    method CopyCluster(c: nat, out: array<byte>, base: nat, fsize: nat, max: nat) returns (read: nat)
      requires Ready() && 2 <= c < |vol.fat| && base < Min(fsize, max) && max <= out.Length && out != secbuf
      modifies out
      ensures Ready()
      ensures read == base + Min(vol.cb, Min(fsize, max) - base)
      ensures out[..read] == old(out[..base]) + vol.data[c - 2][..read - base]
    {
      HeldCluster(sectors[..], geo, vol);
      ghost var data, before := vol.data[c - 2], out[..base];
      var first := geo.dataLba + (c - 2) * geo.spc;
      read := base;
      var s: nat := 0;
      while s < geo.spc && read < fsize && read < max
        invariant s <= geo.spc && read == base + Min(s * SECTOR, Min(fsize, max) - base)
        invariant read - base <= |data| && out[..read] == before + data[..read - base]
      {
        HeldSector(sectors[..], geo, vol, c, s);
        var buf := sectors[first + s];
        var n := fsize - read;
        if n > 512 { n := 512; }
        if n > max - read { n := max - read; }
        NextPart(data, s, buf, n, before);
        CopyBytes(out, read, buf, n);
        read, s := read + n, s + 1;
      }
    }

    // memcpy(out + at, buf, n)
    static method CopyBytes(out: array<byte>, at: nat, buf: Bytes, n: nat)
      requires n <= |buf| && at + n <= out.Length
      modifies out
      ensures out[..at + n] == old(out[..at]) + buf[..n]
    {
      forall i | 0 <= i < n { out[at + i] := buf[i]; }
    }

    // The chain loop of fat_read, with its guard, which never fires.
    method ReadClusters(first: nat, out: array<byte>, fsize: nat, max: nat) returns (read: nat)
      requires Ready() && LinksOk(vol.fat) && LinkOk(vol.fat, first)
      requires max <= out.Length && Min(fsize, max) <= GUARD * vol.cb && out != secbuf
      modifies secbuf, out
      ensures Ready() && read <= max
      ensures out[..read] == ReadChain(vol, first, Min(fsize, max))
    {
      ghost var want, v := Min(fsize, max), vol;
      var cluster: nat, guard: nat := first, 0;
      read := 0;
      ReadingStarts(v, first, want);
      assert out[..0] == [];
      while cluster >= 2 && cluster < 0xFF0 && read < fsize && read < max
        invariant Ready() && v == vol && read <= want <= out.Length
        invariant Reading(v, first, want, cluster, guard, out[..read])
        decreases want - read
      {
        ghost var got := out[..read];
        guard := guard + 1;
        read := CopyCluster(cluster, out, read, fsize, max);
        ReadingOn(v, first, want, cluster, guard - 1, got, out[..read]);
        if guard > GUARD { assert false; break; }
        cluster := NextCluster(cluster);
      }
      ReadingEnds(v, first, want, cluster, guard, out[..read]);
    }

    // fat_read: its guard never fires when the file is no longer than 65536 clusters.
    method FatRead(name: Bytes, out: array<byte>, max: nat) returns (ok: bool, size: nat)
      requires mounted ==> Ready() && Sane(vol) && GuardSuffices(vol, Norm(name), max)
      requires max <= out.Length && out != secbuf
      modifies secbuf, out
      ensures mounted ==> Ready()
      ensures size <= out.Length
      ensures ok ==> mounted && Read(vol, Norm(name), max) == Found(out[..size])
      ensures !ok && mounted ==> Read(vol, Norm(name), max) == Missing
    {
      if !mounted { return false, 0; }
      var norm := NormName(name);
      StatFromIs(vol.dir, norm[..NAME], 0);
      var r := Lookup(norm);
      if r == NoFile { return false, 0; }
      SaneFirst(vol, Norm(name));
      size := ReadClusters(r.first, out, r.size, max);
      size := if size < r.size then size else r.size;
      return true, size;
    }

    // ----------------------------------------------------------------
    // fat_delete
    // ----------------------------------------------------------------

    // Write back the buffer, which holds the sector of slot k with that slot replaced by e.
    method WriteSlot(at: Place, ghost k: nat, ghost e: Bytes)
      requires Ready() && k < |vol.dir| && |e| == SLOT && at == PlaceOf(geo, k)
      requires at.lba < |sectors[..]| && |sectors[..][at.lba]| == SECTOR && at.off + SLOT <= SECTOR
      requires secbuf[..] == WithSlot(sectors[..][at.lba], at.off, e)
      modifies sectors, this`vol
      ensures Ready() && vol == old(vol).(dir := old(vol).dir[k := e])
    {
      SlotInDisk(sectors[..], geo, vol, k);
      HeldSlotWrite(sectors[..], geo, vol, k, e);
      WriteSector(at.lba);
      vol := vol.(dir := vol.dir[k := e]);
    }

    // Mark the slot deleted; returns the first cluster it named.
    method MarkDeleted(at: Place, ghost k: nat) returns (cluster: nat)
      requires Ready() && k < |vol.dir| && at == PlaceOf(geo, k)
      modifies sectors, secbuf, this`vol
      ensures Ready() && cluster == SlotFirst(old(vol).dir[k])
      ensures vol == old(vol).(dir := old(vol).dir[k := Poke(old(vol).dir[k], 0, DELETED)])
    {
      SlotInDisk(sectors[..], geo, vol, k);
      ghost var e := vol.dir[k];
      ReadSector(at.lba);
      cluster := secbuf[at.off + 26] as nat + 256 * (secbuf[at.off + 27] as nat);
      secbuf[at.off] := 0xE5;
      assert secbuf[..] == WithSlot(sectors[..][at.lba], at.off, Poke(e, 0, DELETED));
      WriteSlot(at, k, Poke(e, 0, DELETED));
    }

    // fat_delete
    method FatDelete(name: Bytes) returns (ok: bool)
      requires mounted ==> Ready() && Sane(vol)
      modifies sectors, secbuf, this`vol
      ensures mounted ==> Ready() && (vol, ok) == Delete(old(vol), Norm(name))
      ensures !mounted ==> !ok && vol == old(vol) && sectors[..] == old(sectors[..])
    {
      if !mounted { return false; }
      var norm := NormName(name);
      ghost var v, k := vol, Find(vol.dir, Norm(name), 0);
      ScanIs(geo, v.dir, Norm(name), 0, Seen(false, Place(0, 0)));
      var found, at, existed := FindSlot(norm);
      if !found || !existed { return false; }
      var cluster := MarkDeleted(at, k);
      FreeChain(cluster);
      DeletedThenFreed(v, Norm(name), vol);
      return true;
    }

    // ----------------------------------------------------------------
    // fat_write
    // ----------------------------------------------------------------

    // The allocation loop of fat_write.
    method AllocClusters(need: nat) returns (ok: bool, first: nat)
      requires Ready() && LinksOk(vol.fat)
      modifies sectors, secbuf, this`vol
      ensures Ready() && AllocChain(old(vol), 0, 0, need) == if ok then Chained(vol, first) else Full(vol)
    {
      ghost var goal := AllocRest(vol, 0, 0, need);
      var prev: nat, left: nat := 0, need;
      first := 0;
      while left > 0
        invariant Ready() && goal.Ends? && AllocRest(vol, first, prev, left) == goal
      {
        AllocatingStep(vol, first, prev, left);
        var c := AllocCluster();
        if c == 0 {
          if first != 0 { FreeChain(first); }
          return false, 0;
        }
        if first == 0 { first := c; }
        if prev != 0 { SetEntry(prev, c); }
        prev, left := c, left - 1;
      }
      return true, first;
    }

    // The next 512 bytes of the payload, padded with zeros.
    method FillSector(data: Bytes, written0: nat) returns (written: nat)
      requires secbuf.Length == SECTOR && written0 <= |data|
      modifies secbuf
      ensures written == Min(written0 + SECTOR, |data|)
      ensures secbuf[..] == Piece(data, written0)
    {
      written := written0;
      for i := 0 to 512
        invariant written == Min(written0 + i, |data|)
        invariant forall j: nat :: j < i ==> secbuf[j] == if written0 + j < |data| then data[written0 + j] else 0
      {
        if written < |data| {
          secbuf[i] := data[written];
          written := written + 1;
        } else {
          secbuf[i] := 0;
        }
      }
      forall i: nat | i < SECTOR ensures secbuf[i] == Piece(data, written0)[i] { PieceAt(data, written0, i); }
    }

    // One sector of cluster c: the next 512 bytes of the payload.
    method WritePart(c: nat, s: nat, data: Bytes, at: nat, ghost v: Vol, ghost head: Bytes) returns (written: nat)
      requires Ready() && WellFormed(v) && IsCluster(v.fat, c) && s < geo.spc && at <= |data|
      requires |v.fat| == |vol.fat| && v.cb == geo.spc * SECTOR && |head| == s * SECTOR <= v.cb
      requires vol == PartWritten(v, c, head)
      modifies sectors, secbuf, this`vol
      ensures Ready() && written == Min(at + SECTOR, |data|)
      ensures |head + Piece(data, at)| <= v.cb && vol == PartWritten(v, c, head + Piece(data, at))
    {
      PartNext(v, c, head, Piece(data, at));
      written := FillSector(data, at);
      WriteData(c, s, v.data[c - 2], head);
    }

    method WriteNext(c: nat, s: nat, data: Bytes, ghost from: nat, at: nat, ghost v: Vol) returns (written: nat)
      requires Ready() && WellFormed(v) && IsCluster(v.fat, c) && s < geo.spc && from < |data| && at < |data|
      requires v.cb == geo.spc * SECTOR && Writing(v, c, data, from, geo.spc, s, at, vol)
      modifies sectors, secbuf, this`vol
      ensures Ready() && Writing(v, c, data, from, geo.spc, s + 1, written, vol)
    {
      WritingOn(v, c, data, from, geo.spc, s, at, vol);
      written := WritePart(c, s, data, at, v, Pieces(data, from, s));
    }

    // The sectors of one cluster, as far as the payload goes.
    method WriteCluster(c: nat, data: Bytes, from: nat) returns (written: nat)
      requires Ready() && 2 <= c < |vol.fat| && from < |data|
      modifies sectors, secbuf, this`vol
      ensures Ready() && written == from + Min(old(vol).cb, |data| - from)
      ensures vol == Overlaid(old(vol), c, data[from..written])
    {
      HeldCluster(sectors[..], geo, vol);
      ghost var v := vol;
      WritingStarts(v, c, data, from, geo.spc);
      written := from;
      var s: nat := 0;
      while s < geo.spc && written < |data|
        invariant Ready() && v.cb == geo.spc * SECTOR && Writing(v, c, data, from, geo.spc, s, written, vol)
        decreases geo.spc - s
      {
        written := WriteNext(c, s, data, from, written, v);
        s := s + 1;
      }
      WritingEnds(v, c, data, from, geo.spc, s, written, vol);
    }

    // The streaming loop of fat_write, into a chain long enough for the payload.
    method StreamData(first: nat, data: Bytes)
      requires Ready() && StreamRest(vol, first, data).Volume?
      modifies sectors, secbuf, this`vol
      ensures Ready() && Volume(vol) == StreamRest(old(vol), first, data)
    {
      ghost var goal := StreamRest(vol, first, data);
      var c: nat, written: nat := first, 0;
      assert data[0..] == data;
      while c >= 2 && written < |data|
        invariant Ready() && written <= |data| && StreamRest(vol, c, data[written..]) == goal
        decreases |data| - written
      {
        StreamingStep(vol, c, data, written);
        written := WriteCluster(c, data, written);
        if written < |data| { c := NextCluster(c); }
      }
    }

    // The name, padded, at the beginning of a slot.
    method FillName(off: nat, norm: array<byte>)
      requires secbuf.Length == SECTOR && norm.Length >= NAME && norm != secbuf && off + SLOT <= SECTOR
      modifies secbuf
      ensures secbuf[off..off + NAME] == norm[..NAME]
      ensures secbuf[..off] == old(secbuf[..off]) && secbuf[off + NAME..] == old(secbuf[off + NAME..])
    {
      for i := 0 to 11
        invariant secbuf[off..off + i] == norm[..i]
        invariant secbuf[..off] == old(secbuf[..off]) && secbuf[off + i..] == old(secbuf[off + i..])
      {
        secbuf[off + i] := norm[i];
      }
    }

    // Attribute and dates.
    method FillDates(off: nat)
      requires secbuf.Length == SECTOR && off + SLOT <= SECTOR
      modifies secbuf
      ensures secbuf[off + NAME..off + 26] == [ATTR_ARCHIVE] + Zeros(14)
      ensures secbuf[..off + NAME] == old(secbuf[..off + NAME]) && secbuf[off + 26..] == old(secbuf[off + 26..])
    {
      secbuf[off + 11] := 0x20;
      for i := 12 to 26
        invariant secbuf[off + 11] == 0x20 && forall j :: off + 12 <= j < off + i ==> secbuf[j] == 0
        invariant secbuf[..off + NAME] == old(secbuf[..off + NAME]) && secbuf[off + 26..] == old(secbuf[off + 26..])
      {
        secbuf[off + i] := 0;
      }
    }

    // First cluster and size.
    method FillSize(off: nat, first: nat, len: nat)
      requires secbuf.Length == SECTOR && off + SLOT <= SECTOR
      modifies secbuf
      ensures secbuf[off + 26..off + SLOT] == SlotTail(first, len)
      ensures secbuf[..off + 26] == old(secbuf[..off + 26]) && secbuf[off + SLOT..] == old(secbuf[off + SLOT..])
    {
      secbuf[off + 26] := first % 256;
      secbuf[off + 27] := first / 256 % 256;
      secbuf[off + 28] := len % 256;
      secbuf[off + 29] := len / 256 % 256;
      secbuf[off + 30] := len / 0x1_0000 % 256;
      secbuf[off + 31] := len / 0x100_0000 % 256;
    }

    // The rest of a slot after its name.
    method FillRest(off: nat, first: nat, len: nat)
      requires secbuf.Length == SECTOR && off + SLOT <= SECTOR
      modifies secbuf
      ensures secbuf[off + NAME..off + SLOT] == SlotRest(first, len)
      ensures secbuf[..off + NAME] == old(secbuf[..off + NAME]) && secbuf[off + SLOT..] == old(secbuf[off + SLOT..])
    {
      ghost var s0 := secbuf[..];
      FillDates(off);
      ghost var s1 := secbuf[..];
      FillSize(off, first, len);
      RestIs(s0, s1, secbuf[..], off, first, len);
    }

    // Fill the slot at `off` of the buffer.
    method FillSlot(off: nat, norm: array<byte>, first: nat, len: nat)
      requires secbuf.Length == SECTOR && norm.Length >= NAME && norm != secbuf && off + SLOT <= SECTOR
      modifies secbuf
      ensures secbuf[..] == WithSlot(old(secbuf[..]), off, MakeSlot(norm[..NAME], first, len))
    {
      FillName(off, norm);
      FillRest(off, first, len);
      assert secbuf[..off] == secbuf[..off + NAME][..off];
      assert secbuf[off..off + NAME] == secbuf[..off + NAME][off..];
      assert secbuf[..]
          == secbuf[..off] + secbuf[off..off + NAME] + secbuf[off + NAME..off + SLOT] + secbuf[off + SLOT..];
    }

    // fat_write
    method FatWrite(name: Bytes, data: Bytes) returns (ok: bool)
      requires mounted ==> Ready() && Sane(vol) && |data| + vol.cb <= 0x1_0000_0000
      modifies sectors, secbuf, this`vol
      ensures mounted ==> Ready() && (vol, ok) == Write(old(vol), Norm(name), data)
      ensures !mounted ==> !ok && vol == old(vol) && sectors[..] == old(sectors[..])
    {
      if !mounted { return false; }
      var norm := NormName(name);
      ghost var v, k := vol, Find(vol.dir, Norm(name), 0);
      ScanIs(geo, v.dir, Norm(name), 0, Seen(false, Place(0, 0)));
      FatCreate.WriteIsStore(v, Norm(name), data);
      var found, at, existed := FindSlot(norm);
      if !found { return false; }
      if existed { ReleaseOld(at, k); }
      ok := StoreData(norm, at, if existed then k else FreeSlot(v.dir, 0), data);
    }

    // Drop the chain of the file about to be replaced.
    method ReleaseOld(at: Place, ghost k: nat)
      requires Ready() && Sane(vol) && k < |vol.dir| && InUse(vol.dir[k]) && at == PlaceOf(geo, k)
      modifies sectors, secbuf, this`vol
      ensures Ready() && vol == old(vol).(fat := FatChains.FreeChain(old(vol).fat, SlotFirst(old(vol).dir[k])))
      ensures LinksOk(vol.fat)
    {
      FreeChainKeepsLinks(vol.fat, SlotFirst(vol.dir[k]));
      SlotInDisk(sectors[..], geo, vol, k);
      ReadSector(at.lba);
      var oldc: nat := secbuf[at.off + 26] as nat + 256 * (secbuf[at.off + 27] as nat);
      FreeChain(oldc);
    }

    // Allocate, stream, and write the slot.
    method StoreData(norm: array<byte>, at: Place, ghost slot: nat, data: Bytes) returns (ok: bool)
      requires Ready() && LinksOk(vol.fat) && slot < |vol.dir| && at == PlaceOf(geo, slot)
      requires norm.Length >= NAME && norm != secbuf
      modifies sectors, secbuf, this`vol
      ensures Ready() && (vol, ok) == FatCreate.Store(old(vol), slot, norm[..NAME], data)
    {
      HeldSizes(sectors[..], geo, vol);
      ghost var v := vol;
      var perCluster := geo.spc * 512;
      var got, first := AllocClusters(Need(|data|, perCluster));
      if !got { return false; }
      ChainFollows(v, Need(|data|, perCluster));
      assert StreamRest(vol, first, data) == Volume(Stream(vol, first, data));
      StreamData(first, data);
      FillEntry(norm, at, slot, first, |data|);
      return true;
    }

    // Write (or create) the directory entry.
    method FillEntry(norm: array<byte>, at: Place, ghost slot: nat, first: nat, len: nat)
      requires Ready() && slot < |vol.dir| && at == PlaceOf(geo, slot) && norm.Length >= NAME && norm != secbuf
      modifies sectors, secbuf, this`vol
      ensures Ready() && vol == old(vol).(dir := old(vol).dir[slot := MakeSlot(norm[..NAME], first, len)])
    {
      SlotInDisk(sectors[..], geo, vol, slot);
      ReadSector(at.lba);
      FillSlot(at.off, norm, first, len);
      WriteSlot(at, slot, MakeSlot(norm[..NAME], first, len));
    }
  }
}
