// 8.3 names: the padded upper-case form a directory slot stores (norm_name), and the
// form a listing shows (fat_list), in kernel/fat.c.

module FatNames {
  import opened FatEntries
  import opened FatVolume
  import opened FatCreate

  const DOT: byte := 0x2E
  const SPACE: byte := 0x20
  const BASE: nat := 8
  const EXT: nat := 3

  // A C string: reading at or past the end gives the terminator.
  function CharAt(s: Bytes, i: nat): byte { if i < |s| then s[i] else 0 }

  function Upper(b: byte): byte { if 97 <= b <= 122 then b - 32 else b }

  // Characters of the base name from k on: up to a dot, the end, or eight.
  function BaseLen(s: Bytes, k: nat): (n: nat)
    requires k <= BASE
    ensures k <= n <= BASE
    ensures forall j: nat :: k <= j < n ==> CharAt(s, j) != 0 && CharAt(s, j) != DOT
    ensures n < BASE ==> CharAt(s, n) == 0 || CharAt(s, n) == DOT
    decreases BASE - k
  {
    if k < BASE && CharAt(s, k) != 0 && CharAt(s, k) != DOT then BaseLen(s, k + 1) else k
  }

  // Characters of the extension that starts at i: up to the end, or three.
  function ExtLen(s: Bytes, i: nat, k: nat): (n: nat)
    requires k <= EXT
    ensures k <= n <= EXT
    ensures forall j: nat :: i + k <= j < i + n ==> CharAt(s, j) != 0
    ensures n < EXT ==> CharAt(s, i + n) == 0
    decreases EXT - k
  {
    if k < EXT && CharAt(s, i + k) != 0 then ExtLen(s, i, k + 1) else k
  }

  function FieldAt(s: Bytes, i: nat, n: nat, k: nat): byte {
    if k < n then Upper(CharAt(s, i + k)) else SPACE
  }

  // n characters of s from i, upper-cased and padded with spaces to w.
  function Field(s: Bytes, i: nat, n: nat, w: nat): (r: Bytes)
    ensures |r| == w && forall k: nat {:trigger r[k]} :: k < w ==> r[k] == FieldAt(s, i, n, k)
  {
    seq(w, k requires 0 <= k < w => FieldAt(s, i, n, k))
  }

  function Norm(s: Bytes): (r: Bytes)
    ensures |r| == NAME
  {
    var b := BaseLen(s, 0);
    Field(s, 0, b, BASE) + Field(s, b + 1, ExtOf(s), EXT)
  }

  // A normalised name can be stored exactly when the name given does not start with the
  // deleted mark.
  lemma NormStorableIff(s: Bytes)
    ensures Storable(Norm(s)) <==> CharAt(s, 0) != DELETED
  {
    var b := BaseLen(s, 0);
    assert Norm(s)[0] == Field(s, 0, b, BASE)[0];
  }

  // ------------------------------------------------------------------
  // What a listing shows
  // ------------------------------------------------------------------

  // Characters of n[i..i + w] before the first space.
  function ShownLen(n: Bytes, i: nat, w: nat, k: nat): (r: nat)
    requires k <= w && i + w <= |n|
    ensures k <= r <= w
    ensures forall j: nat :: i + k <= j < i + r ==> n[j] != SPACE
    ensures r < w ==> n[i + r] == SPACE
    decreases w - k
  {
    if k < w && n[i + k] != SPACE then ShownLen(n, i, w, k + 1) else k
  }

  function Shown(n: Bytes): Bytes
    requires |n| == NAME
  {
    var base := n[..ShownLen(n, 0, BASE, 0)];
    if n[BASE] == SPACE then base else base + [DOT] + n[BASE..BASE + ShownLen(n, BASE, EXT, 0)]
  }

  // A name that stands for itself: no blank inside a field, no dot or end in it, and no
  // small letter.
  predicate Plain(n: Bytes) {
    && |n| == NAME
    && (forall j, k :: 0 <= j < k < BASE && n[j] == SPACE ==> n[k] == SPACE)
    && (forall j, k :: BASE <= j < k < NAME && n[j] == SPACE ==> n[k] == SPACE)
    && (forall j :: 0 <= j < NAME ==> n[j] != 0 && !(97 <= n[j] <= 122))
    && (forall j :: 0 <= j < BASE ==> n[j] != DOT)
  }

  // Characters the extension has.
  function ExtOf(s: Bytes): nat {
    var b := BaseLen(s, 0);
    if CharAt(s, b) == DOT then ExtLen(s, b + 1, 0) else 0
  }

  lemma NormAt(s: Bytes, j: nat)
    requires j < NAME
    ensures Norm(s)[j] == if j < BASE then FieldAt(s, 0, BaseLen(s, 0), j)
            else FieldAt(s, BaseLen(s, 0) + 1, ExtOf(s), j - BASE)
  {
  }

  // The characters of the listed form.
  lemma ShownAt(n: Bytes, j: nat)
    requires |n| == NAME
    ensures var b, e := ShownLen(n, 0, BASE, 0), ShownLen(n, BASE, EXT, 0);
            CharAt(Shown(n), j) == if j < b then n[j] else if n[BASE] == SPACE then 0
                                   else if j == b then DOT else if j < b + 1 + e then n[BASE + (j - b - 1)] else 0
  {
    var b, e := ShownLen(n, 0, BASE, 0), ShownLen(n, BASE, EXT, 0);
    if n[BASE] != SPACE {
      var ext := n[BASE..BASE + e];
      assert Shown(n) == n[..b] + [DOT] + ext;
      if b + 1 <= j < b + 1 + e { assert Shown(n)[j] == ext[j - b - 1]; }
    }
  }

  lemma ShownBase(n: Bytes)
    requires Plain(n)
    ensures BaseLen(Shown(n), 0) == ShownLen(n, 0, BASE, 0)
  {
    var b, l := ShownLen(n, 0, BASE, 0), BaseLen(Shown(n), 0);
    ShownAt(n, l);
    ShownAt(n, b);
  }

  lemma ShownExt(n: Bytes)
    requires Plain(n)
    ensures ExtOf(Shown(n)) == ShownLen(n, BASE, EXT, 0)
  {
    var b, e := ShownLen(n, 0, BASE, 0), ShownLen(n, BASE, EXT, 0);
    ShownBase(n);
    ShownAt(n, b);
    if n[BASE] != SPACE {
      var l := ExtLen(Shown(n), b + 1, 0);
      ShownAt(n, b + 1 + l);
      ShownAt(n, b + 1 + e);
    }
  }

  // Looking up the name a listing shows finds the slot it was listed from.
  lemma ShownNormalises(n: Bytes)
    requires Plain(n)
    ensures Norm(Shown(n)) == n
  {
    forall j: nat | j < NAME ensures Norm(Shown(n))[j] == n[j] { ShownNormalisesAt(n, j); }
  }

  lemma ShownNormalisesAt(n: Bytes, j: nat)
    requires Plain(n) && j < NAME
    ensures Norm(Shown(n))[j] == n[j]
  {
    NormAt(Shown(n), j);
    ShownBase(n);
    ShownExt(n);
    ShownAt(n, if j < BASE then j else ShownLen(n, 0, BASE, 0) + 1 + (j - BASE));
  }

  // ------------------------------------------------------------------
  // Letter case, and what is cut
  // ------------------------------------------------------------------

  // u is c, made a capital when it is a small letter.
  predicate Capital(c: byte, u: byte) {
    if 97 <= c <= 122 then u == c - 32 else u == c
  }

  // Equal characters, or the two cases of one letter.
  predicate SameLetter(c: byte, d: byte) {
    c == d || (65 <= c <= 90 && d == c + 32) || (65 <= d <= 90 && c == d + 32)
  }

  predicate SameLetters(s: Bytes, t: Bytes) { |s| == |t| && forall i :: 0 <= i < |s| ==> SameLetter(s[i], t[i]) }

  // No small letter is ever looked up or stored.
  lemma NormHasCapitals(s: Bytes)
    ensures forall j :: 0 <= j < NAME ==> !(97 <= Norm(s)[j] <= 122)
  {
    forall j: nat | j < NAME ensures !(97 <= Norm(s)[j] <= 122) { NormAt(s, j); }
  }

  lemma {:induction false} BaseLenCase(s: Bytes, t: Bytes, k: nat)
    requires k <= BASE && SameLetters(s, t)
    ensures BaseLen(s, k) == BaseLen(t, k)
    decreases BASE - k
  {
    assert SameLetter(CharAt(s, k), CharAt(t, k));
    if k < BASE && CharAt(s, k) != 0 && CharAt(s, k) != DOT { BaseLenCase(s, t, k + 1); }
  }

  lemma {:induction false} ExtLenCase(s: Bytes, t: Bytes, i: nat, k: nat)
    requires k <= EXT && SameLetters(s, t)
    ensures ExtLen(s, i, k) == ExtLen(t, i, k)
    decreases EXT - k
  {
    assert SameLetter(CharAt(s, i + k), CharAt(t, i + k));
    if k < EXT && CharAt(s, i + k) != 0 { ExtLenCase(s, t, i, k + 1); }
  }

  // Names that differ only in letter case name the same file.
  lemma CaseIgnored(s: Bytes, t: Bytes)
    requires SameLetters(s, t)
    ensures Norm(s) == Norm(t)
  {
    forall j: nat | j < NAME ensures Norm(s)[j] == Norm(t)[j] { CaseIgnoredAt(s, t, j); }
  }

  lemma CaseIgnoredAt(s: Bytes, t: Bytes, j: nat)
    requires SameLetters(s, t) && j < NAME
    ensures Norm(s)[j] == Norm(t)[j]
  {
    var b := BaseLen(s, 0);
    BaseLenCase(s, t, 0);
    ExtLenCase(s, t, b + 1, 0);
    NormAt(s, j);
    NormAt(t, j);
    LetterAt(s, t, b);
    LetterAt(s, t, if j < BASE then j else b + 1 + (j - BASE));
  }

  lemma LetterAt(s: Bytes, t: Bytes, i: nat)
    requires SameLetters(s, t)
    ensures Upper(CharAt(s, i)) == Upper(CharAt(t, i)) && (CharAt(s, i) == DOT <==> CharAt(t, i) == DOT)
  {
  }

  // So the name a listing shows, typed in any case, finds the slot it was listed from.
  lemma ShownFinds(n: Bytes, s: Bytes)
    requires Plain(n) && SameLetters(s, Shown(n))
    ensures Norm(s) == n
  {
    CaseIgnored(s, Shown(n));
    ShownNormalises(n);
  }

  // With b characters before a dot, the end or the ninth place, and e characters after a dot
  // there up to the end or three: the capitals of both, each padded with spaces.
  lemma NormSpelled(s: Bytes, b: nat, e: nat)
    requires b <= 8 && forall j: nat :: j < b ==> CharAt(s, j) != 0 && CharAt(s, j) != 0x2E
    requires b == 8 || CharAt(s, b) == 0 || CharAt(s, b) == 0x2E
    requires CharAt(s, b) != 0x2E ==> e == 0
    requires CharAt(s, b) == 0x2E ==> e <= 3 && (e == 3 || CharAt(s, b + 1 + e) == 0)
                                      && forall j: nat :: b < j <= b + e ==> CharAt(s, j) != 0
    ensures forall j: nat :: j < 8 ==> if j < b then Capital(CharAt(s, j), Norm(s)[j]) else Norm(s)[j] == 0x20
    ensures forall j: nat :: 8 <= j < 11 ==>
              if j - 8 < e then Capital(CharAt(s, b + 1 + (j - 8)), Norm(s)[j]) else Norm(s)[j] == 0x20
  {
    NormFields(s, b, e);
  }

  lemma NormFields(s: Bytes, b: nat, e: nat)
    requires b <= BASE && forall j: nat :: j < b ==> CharAt(s, j) != 0 && CharAt(s, j) != DOT
    requires b == BASE || CharAt(s, b) == 0 || CharAt(s, b) == DOT
    requires if CharAt(s, b) != DOT then e == 0
             else e <= EXT && (e == EXT || CharAt(s, b + 1 + e) == 0)
                  && forall j: nat :: b < j <= b + e ==> CharAt(s, j) != 0
    ensures forall j: nat :: j < NAME ==>
              Norm(s)[j] == if j < BASE then FieldAt(s, 0, b, j) else FieldAt(s, b + 1, e, j - BASE)
  {
    BaseLenIs(s, b, 0);
    if CharAt(s, b) == DOT { ExtLenIs(s, b + 1, e, 0); }
    forall j: nat | j < NAME
      ensures Norm(s)[j] == if j < BASE then FieldAt(s, 0, b, j) else FieldAt(s, b + 1, e, j - BASE)
    {
      NormAt(s, j);
    }
  }

  lemma {:induction false} ExtLenIs(s: Bytes, i: nat, e: nat, k: nat)
    requires k <= e <= EXT && (e == EXT || CharAt(s, i + e) == 0)
    requires forall j: nat :: i <= j < i + e ==> CharAt(s, j) != 0
    ensures ExtLen(s, i, k) == e
    decreases e - k
  {
    if k < e { ExtLenIs(s, i, e, k + 1); }
  }

  lemma {:induction false} BaseLenIs(s: Bytes, b: nat, k: nat)
    requires k <= b <= BASE && forall j: nat :: j < b ==> CharAt(s, j) != 0 && CharAt(s, j) != DOT
    requires b == BASE || CharAt(s, b) == 0 || CharAt(s, b) == DOT
    ensures BaseLen(s, k) == b
    decreases b - k
  {
    if k < b { BaseLenIs(s, b, k + 1); }
  }

  // A name of more than eight characters before its dot loses the rest, extension included:
  // names that agree so far are one file.
  lemma LongNamesMeet(s: Bytes, x: Bytes, y: Bytes)
    requires |s| == 8 && forall j :: 0 <= j < 8 ==> s[j] != 0 && s[j] != 0x2E
    requires CharAt(x, 0) != 0x2E && CharAt(y, 0) != 0x2E
    ensures Norm(s + x) == Norm(s + y)
  {
    assert CharAt(s + x, 8) == CharAt(x, 0) && CharAt(s + y, 8) == CharAt(y, 0);
    forall j: nat | j < 8 ensures CharAt(s + x, j) == CharAt(s + y, j) == s[j] { }
    NormSpelled(s + x, 8, 0);
    NormSpelled(s + y, 8, 0);
  }

  // A name of 8.3 form: up to eight characters, and after a dot one to three more; no blanks,
  // and no dot before that one.
  predicate Fits83(s: Bytes, b: nat) {
    && b <= 8 && b <= |s| && (forall j :: 0 <= j < b ==> s[j] != 0 && s[j] != 0x20 && s[j] != 0x2E)
    && (b < |s| ==> s[b] == 0x2E && b + 1 < |s| <= b + 4 && forall j :: b < j < |s| ==> s[j] != 0 && s[j] != 0x20)
  }

  // Characters of a field up to its first blank.
  lemma {:induction false} ShownLenIs(n: Bytes, i: nat, w: nat, k: nat, r: nat)
    requires k <= r <= w && i + w <= |n| && (forall j: nat :: i + k <= j < i + r ==> n[j] != SPACE)
    requires r < w ==> n[i + r] == SPACE
    ensures ShownLen(n, i, w, k) == r
    decreases r - k
  {
    if k < r { ShownLenIs(n, i, w, k + 1, r); }
  }

  // A name of 8.3 form is shown as it was given, up to letter case.
  lemma FittingKept(s: Bytes, b: nat)
    requires Fits83(s, b)
    ensures SameLetters(s, Shown(Norm(s)))
  {
    var n, e: nat := Norm(s), if b < |s| then |s| - b - 1 else 0;
    NormSpelled(s, b, e);
    forall j: nat | j < b ensures n[j] != SPACE && SameLetter(s[j], n[j]) { assert CharAt(s, j) == s[j]; }
    ShownLenIs(n, 0, BASE, 0, b);
    forall j: nat | b < j < |s| ensures n[8 + (j - b - 1)] != SPACE && SameLetter(s[j], n[8 + (j - b - 1)]) {
      var i: nat := 8 + (j - b - 1);
      assert 8 <= i < 11 && i - 8 < e && b + 1 + (i - 8) == j && CharAt(s, j) == s[j];
    }
    forall i: nat | 8 <= i < 8 + e ensures n[i] != SPACE {
      var j: nat := b + 1 + (i - 8);
      assert 8 + (j - b - 1) == i;
    }
    ShownLenIs(n, BASE, EXT, 0, e);
    ShownKept(s, n, b, e);
  }

  lemma ShownKept(s: Bytes, n: Bytes, b: nat, e: nat)
    requires |n| == NAME && b <= 8 && e <= 3 && ShownLen(n, 0, BASE, 0) == b && ShownLen(n, BASE, EXT, 0) == e
    requires |s| == (if e > 0 then b + 1 + e else b) && (e > 0 ==> s[b] == DOT)
    requires forall j: nat :: j < b ==> SameLetter(s[j], n[j])
    requires forall j: nat :: b < j < |s| ==> SameLetter(s[j], n[8 + (j - b - 1)])
    ensures SameLetters(s, Shown(n))
  {
    ShownSize(n, b, e);
    forall j: nat | j < |s| ensures SameLetter(s[j], Shown(n)[j]) {
      ShownAt(n, j);
    }
  }

  lemma ShownSize(n: Bytes, b: nat, e: nat)
    requires |n| == NAME && ShownLen(n, 0, BASE, 0) == b && ShownLen(n, BASE, EXT, 0) == e
    ensures |Shown(n)| == if e > 0 then b + 1 + e else b
    ensures n[BASE] == SPACE <==> e == 0
  {
  }

  // A name comes back from the directory, up to letter case, exactly when it has 8.3 form.
  lemma NameKeptIff(s: Bytes)
    ensures SameLetters(s, Shown(Norm(s))) <==> exists b: nat :: Fits83(s, b)
  {
    if b: nat :| Fits83(s, b) { FittingKept(s, b); }
    if SameLetters(s, Shown(Norm(s))) { KeptFits(s); }
  }

  lemma KeptFits(s: Bytes)
    requires SameLetters(s, Shown(Norm(s)))
    ensures Fits83(s, ShownLen(Norm(s), 0, BASE, 0))
  {
    var n := Norm(s);
    var b, e := ShownLen(n, 0, BASE, 0), ShownLen(n, BASE, EXT, 0);
    ShownSize(n, b, e);
    forall j | 0 <= j < b ensures s[j] != 0 && s[j] != 0x20 && s[j] != 0x2E { KeptBase(s, n, b, j); }
    if e > 0 {
      ShownAt(n, b);
      assert SameLetter(s[b], Shown(n)[b]);
      forall j | b < j < |s| ensures s[j] != 0 && s[j] != 0x20 { KeptExt(s, n, b, e, j); }
    }
  }

  lemma KeptBase(s: Bytes, n: Bytes, b: nat, j: nat)
    requires n == Norm(s) && SameLetters(s, Shown(n)) && ShownLen(n, 0, BASE, 0) == b && j < b <= |s|
    ensures s[j] != 0 && s[j] != 0x20 && s[j] != 0x2E
  {
    NormAt(s, j);
    ShownAt(n, j);
    assert SameLetter(s[j], Shown(n)[j]) && CharAt(s, j) == s[j];
  }

  lemma KeptExt(s: Bytes, n: Bytes, b: nat, e: nat, j: nat)
    requires n == Norm(s) && SameLetters(s, Shown(n)) && ShownLen(n, 0, BASE, 0) == b && b < j < |s| == b + 1 + e
    requires ShownLen(n, BASE, EXT, 0) == e > 0
    ensures s[j] != 0 && s[j] != 0x20
  {
    ShownAt(n, j);
    assert n[BASE + (j - b - 1)] != SPACE && SameLetter(s[j], Shown(n)[j]);
    NormAt(s, BASE + (j - b - 1));
  }

  // Names of 8.3 form name the same file exactly when they differ in letter case at most.
  lemma FittingNamesDiffer(s: Bytes, t: Bytes, b: nat, c: nat)
    requires Fits83(s, b) && Fits83(t, c)
    ensures Norm(s) == Norm(t) <==> SameLetters(s, t)
  {
    if SameLetters(s, t) { CaseIgnored(s, t); }
    if Norm(s) == Norm(t) {
      FittingKept(s, b);
      FittingKept(t, c);
      var shown := Shown(Norm(s));
      forall j | 0 <= j < |s| ensures SameLetter(s[j], t[j]) {
        assert SameLetter(s[j], shown[j]) && SameLetter(t[j], shown[j]);
      }
    }
  }

  // "hello.elf" finds HELLO.ELF.
  lemma HelloFound()
    ensures Norm([0x68, 0x65, 0x6C, 0x6C, 0x6F, 0x2E, 0x65, 0x6C, 0x66])
            == [0x48, 0x45, 0x4C, 0x4C, 0x4F, 0x20, 0x20, 0x20, 0x45, 0x4C, 0x46]
  {
    var s: Bytes := [0x68, 0x65, 0x6C, 0x6C, 0x6F, 0x2E, 0x65, 0x6C, 0x66];
    NormSpelled(s, 5, 3);
  }

  // The two fields side by side, with a terminator.
  method JoinFields(base: array<byte>, ext: array<byte>) returns (out: array<byte>)
    requires base.Length == BASE && ext.Length == EXT
    ensures fresh(out) && out.Length == NAME + 1 && out[..NAME] == base[..] + ext[..] && out[NAME] == 0
  {
    out := new byte[NAME + 1](_ => 0);
    for j := 0 to BASE
      invariant out[NAME] == 0 && out[..j] == base[..j]
    {
      out[j] := base[j];
    }
    for j := 0 to EXT
      invariant out[NAME] == 0 && out[..BASE] == base[..] && out[BASE..BASE + j] == ext[..j]
    {
      out[BASE + j] := ext[j];
    }
    assert out[..NAME] == out[..BASE] + out[BASE..NAME];
  }

  // The base name, and where it stops.
  method BaseField(s: Bytes) returns (base: array<byte>, i: nat)
    ensures fresh(base) && base.Length == BASE
    ensures i == BaseLen(s, 0) && base[..] == Field(s, 0, i, BASE)
  {
    base := new byte[BASE](_ => SPACE);
    var k := 0;
    i := 0;
    while CharAt(s, i) != 0 && CharAt(s, i) != DOT && k < BASE
      invariant i == k <= BASE && BaseLen(s, k) == BaseLen(s, 0)
      invariant forall l: nat :: l < BASE ==> base[l] == FieldAt(s, 0, k, l)
      decreases BASE - k
    {
      base[k] := Upper(CharAt(s, i));
      k, i := k + 1, i + 1;
    }
  }

  // The extension that starts after the dot at i, blank when there is no dot.
  method ExtField(s: Bytes, start: nat) returns (ext: array<byte>)
    ensures fresh(ext) && ext.Length == EXT
    ensures ext[..] == Field(s, start + 1, if CharAt(s, start) == DOT then ExtLen(s, start + 1, 0) else 0, EXT)
  {
    ext := new byte[EXT](_ => SPACE);
    if CharAt(s, start) == DOT {
      var i, k := start + 1, 0;
      while CharAt(s, i) != 0 && k < EXT
        invariant i == start + 1 + k && k <= EXT && ExtLen(s, start + 1, k) == ExtLen(s, start + 1, 0)
        invariant forall l: nat :: l < EXT ==> ext[l] == FieldAt(s, start + 1, k, l)
        decreases EXT - k
      {
        ext[k] := Upper(CharAt(s, i));
        k, i := k + 1, i + 1;
      }
      assert k == ExtLen(s, start + 1, 0);
    }
  }

  // norm_name
  method NormName(s: Bytes) returns (out: array<byte>)
    ensures fresh(out) && out.Length == NAME + 1
    ensures out[..NAME] == Norm(s) && out[NAME] == 0
  {
    var base, i := BaseField(s);
    var ext := ExtField(s, i);
    out := JoinFields(base, ext);
  }
}
