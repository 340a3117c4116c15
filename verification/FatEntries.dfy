// FAT12 entries: 12 bits each, packed two to three bytes (kernel/fat.c,
// tools/mkdata.py). Shifts and masks are written as arithmetic on bytes.

module FatEntries {

  type byte = b: int | 0 <= b < 256
  type entry = v: int | 0 <= v < 4096
  type u16 = v: int | 0 <= v < 0x1_0000

  // Offset of the first byte an entry uses.
  function Offset(c: nat): nat { c + c / 2 }

  // An odd entry is the upper 12 bits of its two bytes, an even one the lower 12.
  function Decode(odd: bool, lo: byte, hi: byte): entry {
    if odd then (lo + 256 * hi) / 16 else (lo + 256 * hi) % 4096
  }

  // The first byte of an entry after `value` is stored: an odd entry keeps the low nibble.
  function LowByte(odd: bool, lo: byte, value: u16): byte {
    if odd then lo % 16 + value % 16 * 16 else value % 256
  }

  // The second byte: an even entry keeps the high nibble.
  function HighByte(odd: bool, hi: byte, value: u16): byte {
    if odd then value / 16 % 256 else hi / 16 * 16 + value / 256 % 16
  }

  function Encode(odd: bool, lo: byte, hi: byte, value: u16): (byte, byte) {
    (LowByte(odd, lo, value), HighByte(odd, hi, value))
  }

  // A nibble or a byte below a multiple of its range.
  lemma LowPart(low: nat, high: nat)
    ensures low < 16 ==> (low + 16 * high) / 16 == high && (low + 16 * high) % 16 == low
    ensures low < 4096 ==> (low + 4096 * high) % 4096 == low
  {
  }

  lemma TwelveBits(value: u16)
    ensures value % 4096 == value % 16 + 16 * (value / 16 % 256)
    ensures value % 4096 == value % 256 + 256 * (value / 256 % 16)
  {
    var a, b, c: nat := value % 16, value / 16 % 256, value / 16 / 256;
    var l, m, d: nat := value % 256, value / 256 % 16, value / 256 / 16;
    assert value == (a + 16 * b) + 4096 * c;
    assert value == (l + 256 * m) + 4096 * d;
    LowPart(a + 16 * b, c);
    LowPart(l + 256 * m, d);
  }

  lemma OddStored(lo: byte, value: u16)
    ensures var (lo', hi') := Encode(true, lo, 0, value); Decode(true, lo', hi') == value % 4096 && lo' % 16 == lo % 16
  {
    var n: nat, b: nat, x: nat := value % 16, value / 16 % 256, lo % 16;
    TwelveBits(value);
    LowPart(x, n + 16 * b);
    LowPart(x, n);
    assert x + n * 16 + 256 * b == x + 16 * (n + 16 * b);
  }

  lemma EvenStored(hi: byte, value: u16)
    ensures var (lo', hi') := Encode(false, 0, hi, value);
            Decode(false, lo', hi') == value % 4096 && hi' / 16 == hi / 16
  {
    var l: nat, n: nat, x: nat := value % 256, value / 256 % 16, hi / 16;
    TwelveBits(value);
    LowPart(l + 256 * n, x);
    LowPart(n, x);
    assert l + 256 * (x * 16 + n) == (l + 256 * n) + 4096 * x;
  }

  // What is stored is what is read back, and the nibble of the neighbour survives.
  lemma DecodeEncode(odd: bool, lo: byte, hi: byte, value: u16)
    ensures var (lo', hi') := Encode(odd, lo, hi, value);
            && Decode(odd, lo', hi') == value % 4096
            && (odd ==> lo' % 16 == lo % 16)
            && (!odd ==> hi' / 16 == hi / 16)
  {
    OddStored(lo, value);
    EvenStored(hi, value);
  }

  // Does the table hold both bytes of entry c?
  predicate Holds(fat: seq<byte>, c: nat) {
    Offset(c) + 1 < |fat|
  }

  function Get(fat: seq<byte>, c: nat): entry
    requires Holds(fat, c)
  {
    Decode(c % 2 == 1, fat[Offset(c)], fat[Offset(c) + 1])
  }

  function Set(fat: seq<byte>, c: nat, value: u16): (r: seq<byte>)
    requires Holds(fat, c)
    ensures |r| == |fat|
  {
    var (lo, hi) := Encode(c % 2 == 1, fat[Offset(c)], fat[Offset(c) + 1], value);
    fat[Offset(c) := lo][Offset(c) + 1 := hi]
  }

  // FAT12 entries form an array: storing one returns it masked to 12 bits and changes no other.
  lemma GetSet(fat: seq<byte>, c: nat, value: u16, d: nat)
    requires Holds(fat, c) && Holds(fat, d)
    ensures Get(Set(fat, c, value), d) == if d == c then value % 4096 else Get(fat, d)
  {
    var o := Offset(c);
    DecodeEncode(c % 2 == 1, fat[o], fat[o + 1], value);
    if d == c {
    } else if d / 2 == c / 2 {
      SharedByte(fat, c, value, d);
    } else {
      assert Offset(d) + 1 < o || o + 1 < Offset(d);
    }
  }

  // The two entries of a pair share a byte, one nibble each.
  lemma SharedByte(fat: seq<byte>, c: nat, value: u16, d: nat)
    requires Holds(fat, c) && Holds(fat, d) && d != c && d / 2 == c / 2
    ensures Get(Set(fat, c, value), d) == Get(fat, d)
  {
    var o := Offset(c);
    DecodeEncode(c % 2 == 1, fat[o], fat[o + 1], value);
    if c % 2 == 0 {
      assert d == c + 1 && Offset(d) == o + 1;
      var x, y := Set(fat, c, value)[o + 1], fat[o + 1];
      assert x / 16 == y / 16;
      OddDependsOnHighNibble(x, y, fat[o + 2]);
    } else {
      assert c == d + 1 && o == Offset(d) + 1;
      var x, y := Set(fat, c, value)[o], fat[o];
      assert x % 16 == y % 16;
      EvenDependsOnLowNibble(x, y, fat[o - 1]);
    }
  }

  lemma OddDependsOnHighNibble(x: byte, y: byte, hi: byte)
    requires x / 16 == y / 16
    ensures Decode(true, x, hi) == Decode(true, y, hi)
  {
  }

  lemma EvenDependsOnLowNibble(x: byte, y: byte, lo: byte)
    requires x % 16 == y % 16
    ensures Decode(false, lo, x) == Decode(false, lo, y)
  {
    var n := x % 16;
    assert lo + 256 * x == lo + 256 * n + 4096 * (x / 16);
    assert lo + 256 * y == lo + 256 * n + 4096 * (y / 16);
  }

  // ------------------------------------------------------------------
  // The packing of tools/mkdata.py
  // ------------------------------------------------------------------

  // Three bytes for two entries.
  function PackPair(a: entry, b: entry): seq<byte> {
    [a % 256, a / 256 % 16 + b % 16 * 16, b / 16 % 256]
  }

  // fat12_bytes: entries are taken in pairs; an unpaired last entry is dropped.
  function Pack(entries: seq<entry>, i: nat): (r: seq<byte>)
    requires i <= |entries|
    decreases |entries| - i
  {
    if i + 1 < |entries| then PackPair(entries[i], entries[i + 1]) + Pack(entries, i + 2) else []
  }

  lemma PairDecodes(a: entry, b: entry)
    ensures Decode(false, PackPair(a, b)[0], PackPair(a, b)[1]) == a
    ensures Decode(true, PackPair(a, b)[1], PackPair(a, b)[2]) == b
  {
    FirstOfPair(a, b % 16);
    SecondOfPair(a / 256 % 16, b);
  }

  lemma LowBits(a: entry, n: nat)
    ensures (a + 4096 * n) % 4096 == a
  {
  }

  lemma FirstOfPair(a: entry, n: nat)
    requires n < 16
    ensures (a % 256 + 256 * (a / 256 % 16 + n * 16)) % 4096 == a
  {
    var (q, r) := (a / 256, a % 256);
    assert q % 16 == q;
    LowBits(a, n);
    assert r + 256 * (q + n * 16) == a + 4096 * n;
  }

  lemma SecondOfPair(n: nat, b: entry)
    requires n < 16
    ensures (n + b % 16 * 16 + 256 * (b / 16 % 256)) / 16 == b
  {
    assert n + b % 16 * 16 + 256 * (b / 16 % 256) == n + 16 * b;
  }

  lemma {:induction false} PackLength(entries: seq<entry>, i: nat)
    requires i <= |entries|
    ensures |Pack(entries, i)| == (|entries| - i) / 2 * 3
    decreases |entries| - i
  {
    if i + 1 < |entries| { PackLength(entries, i + 2); }
  }

  // Kernel decoding inverts the Python packing for every packed entry, in any table that
  // begins with the packed bytes.
  lemma {:induction false} PackDecodes(entries: seq<entry>, fat: seq<byte>, i: nat, c: nat)
    requires i % 2 == 0 && i <= c < |entries| / 2 * 2
    requires Offset(i) <= |fat| && Pack(entries, i) <= fat[Offset(i)..]
    ensures Holds(fat, c) && Get(fat, c) == entries[c]
    decreases |entries| - i
  {
    var o := Offset(i);
    PackLength(entries, i);
    var p := PackPair(entries[i], entries[i + 1]);
    var rest := Pack(entries, i + 2);
    assert Pack(entries, i) == p + rest;
    var tail := fat[o..];
    assert tail[0] == p[0] && tail[1] == p[1] && tail[2] == p[2];
    assert fat[o] == p[0] && fat[o + 1] == p[1] && fat[o + 2] == p[2];
    if c == i || c == i + 1 {
      PairDecodes(entries[i], entries[i + 1]);
    } else {
      assert Offset(i + 2) == o + 3;
      assert rest <= fat[o + 3..] by {
        assert fat[o + 3..] == tail[3..];
        assert (p + rest)[3..] == rest;
      }
      PackDecodes(entries, fat, i + 2, c);
    }
  }

  // The same for a table that begins with the whole packed list.
  lemma PackedDecodes(entries: seq<entry>, fat: seq<byte>, c: nat)
    requires c < |entries| / 2 * 2 && Pack(entries, 0) <= fat
    ensures Holds(fat, c) && Get(fat, c) == entries[c]
  {
    assert Offset(0) == 0 && fat[0..] == fat;
    PackDecodes(entries, fat, 0, c);
  }
}
