// Scanning the root directory: what one slot means to a search, and how a search ends.

module FatScan {
  import opened FatVolume
  import opened FatLayout

  datatype Kind = End | Deleted | Other | Match

  function KindOf(e: Bytes, name: Bytes): Kind
    requires |e| == SLOT
  {
    if e[0] == 0 then End
    else if e[0] == DELETED then Deleted
    else if e[11] == ATTR_LFN then Other
    else if SlotName(e) == name then Match
    else Other
  }

  predicate DirOk(dir: seq<Bytes>) { forall i :: 0 <= i < |dir| ==> |dir[i]| == SLOT }

  // Whether a free slot has been seen, and where the first was.
  datatype Seen = Seen(have: bool, first: Place)

  function Saw(seen: Seen, at: Place): Seen { if seen.have then seen else Seen(true, at) }

  function SawKind(kind: Kind, seen: Seen, at: Place): Seen {
    if kind == End || kind == Deleted then Saw(seen, at) else seen
  }

  datatype Verdict = Hit(at: Place) | Vacant(at: Place) | NoRoom

  function VerdictOf(seen: Seen): Verdict { if seen.have then Vacant(seen.first) else NoRoom }

  // dir_find_slot from slot k on.
  function Scan(g: Geo, dir: seq<Bytes>, name: Bytes, k: nat, seen: Seen): Verdict
    requires DirOk(dir) && k <= |dir|
    decreases |dir| - k
  {
    if k == |dir| then VerdictOf(seen)
    else
      var kind := KindOf(dir[k], name);
      var seen1 := SawKind(kind, seen, PlaceOf(g, k));
      if kind == Match then Hit(PlaceOf(g, k))
      else if kind == End then VerdictOf(seen1)
      else Scan(g, dir, name, k + 1, seen1)
  }

  // A scan ends at the slot that has the name, or else at the first free slot.
  lemma {:induction false} ScanIs(g: Geo, dir: seq<Bytes>, name: Bytes, k: nat, seen: Seen)
    requires DirOk(dir) && k <= |dir|
    ensures var (m, f) := (Find(dir, name, k), FreeSlot(dir, k));
            Scan(g, dir, name, k, seen) ==
            if m < |dir| then Hit(PlaceOf(g, m))
            else if seen.have then Vacant(seen.first)
            else if f < |dir| then Vacant(PlaceOf(g, f)) else NoRoom
    decreases |dir| - k
  {
    if k < |dir| {
      ScanIs(g, dir, name, k + 1, SawKind(KindOf(dir[k], name), seen, PlaceOf(g, k)));
    }
  }

  // The scan of fat_read and fat_stat from slot k on.
  function StatFrom(dir: seq<Bytes>, name: Bytes, k: nat): Stats
    requires DirOk(dir) && k <= |dir|
    decreases |dir| - k
  {
    if k == |dir| then NoFile
    else
      var kind := KindOf(dir[k], name);
      if kind == End then NoFile
      else if kind == Match then EntryOf(dir[k])
      else StatFrom(dir, name, k + 1)
  }

  lemma {:induction false} StatFromIs(dir: seq<Bytes>, name: Bytes, k: nat)
    requires DirOk(dir) && k <= |dir|
    ensures var m := Find(dir, name, k); StatFrom(dir, name, k) == if m == |dir| then NoFile else EntryOf(dir[m])
    decreases |dir| - k
  {
    if k < |dir| { StatFromIs(dir, name, k + 1); }
  }
}
