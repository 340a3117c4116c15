// Numbers as digits (u32_to_str in libc/printf.c).

module Numerals {
  const NUM: nat := 32                   // the digits' temporary
  const U32: nat := 0x1_0000_0000

  // ------------------------------------------------------------------
  // Digits, in the two bases the engine uses
  // ------------------------------------------------------------------

  function Base(hex: bool): nat { if hex then 16 else 10 }
  function Quot(v: nat, hex: bool): nat { if hex then v / 16 else v / 10 }
  function Rem(v: nat, hex: bool): nat { if hex then v % 16 else v % 10 }
  function Scale(v: nat, hex: bool): nat { if hex then 16 * v else 10 * v }

  function DigitChar(d: nat, upper: bool): char
    requires d < 16
  {
    if upper then "0123456789ABCDEF"[d] else "0123456789abcdef"[d]
  }

  function DigitValue(c: char): nat {
    if '0' <= c <= '9' then c as nat - '0' as nat
    else if 'a' <= c <= 'f' then c as nat - 'a' as nat + 10
    else if 'A' <= c <= 'F' then c as nat - 'A' as nat + 10
    else 0
  }

  // Most significant digit first, at least one digit.
  function Digits(v: nat, hex: bool, upper: bool): (s: string)
    ensures |s| > 0
    decreases v
  {
    if v < Base(hex) then [DigitChar(v, upper)] else Digits(Quot(v, hex), hex, upper) + [DigitChar(Rem(v, hex), upper)]
  }

  // Positional evaluation.
  function Value(s: string, hex: bool): nat {
    if |s| == 0 then 0 else Scale(Value(s[..|s| - 1], hex), hex) + DigitValue(s[|s| - 1])
  }

  lemma DigitRound(d: nat, upper: bool)
    requires d < 16
    ensures DigitValue(DigitChar(d, upper)) == d
  {
  }

  lemma ValueOfMore(s: string, c: char, hex: bool)
    ensures Value(s + [c], hex) == Scale(Value(s, hex), hex) + DigitValue(c)
  {
    assert (s + [c])[..|s|] == s;
  }

  // Evaluating the digits of a number gives the number back.
  lemma {:induction false} ValueOfDigits(v: nat, hex: bool, upper: bool)
    ensures Value(Digits(v, hex, upper), hex) == v
    decreases v
  {
    if v < Base(hex) {
      DigitRound(v, upper);
      ValueOfMore("", DigitChar(v, upper), hex);
    } else {
      ValueOfDigits(Quot(v, hex), hex, upper);
      DigitRound(Rem(v, hex), upper);
      ValueOfMore(Digits(Quot(v, hex), hex, upper), DigitChar(Rem(v, hex), upper), hex);
    }
  }

  // Digits of the base, in one case of letters.
  predicate AreDigits(s: string, hex: bool, upper: bool) {
    forall i :: 0 <= i < |s| ==> DigitValue(s[i]) < Base(hex) && s[i] == DigitChar(DigitValue(s[i]), upper)
  }

  // Without a superfluous leading zero.
  predicate Shortest(s: string) { |s| > 0 && (|s| == 1 || s[0] != '0') }

  lemma {:induction false} ZeroLeads(s: string, hex: bool, upper: bool)
    requires AreDigits(s, hex, upper) && |s| > 0 && s[0] != '0'
    ensures Value(s, hex) > 0
    decreases |s|
  {
    if |s| > 1 {
      ZeroLeads(s[..|s| - 1], hex, upper);
    } else {
      assert s[0] == DigitChar(DigitValue(s[0]), upper);
    }
  }

  // The digits of the value of a numeral are that numeral exactly when it has no
  // superfluous leading zero.
  lemma {:induction false} DigitsOfValueIff(s: string, hex: bool, upper: bool)
    requires AreDigits(s, hex, upper) && |s| > 0
    ensures Digits(Value(s, hex), hex, upper) == s <==> Shortest(s)
    decreases |s|
  {
    var rest, c := s[..|s| - 1], s[|s| - 1];
    assert s == rest + [c];
    if rest == "" {
      OneDigit(s, c, hex, upper);
    } else {
      DigitsOfValueIff(rest, hex, upper);
      if rest[0] != '0' { ZeroLeads(rest, hex, upper); }
      if rest == "0" { OneDigit(rest, '0', hex, upper); }
      OneDigitMore(s, rest, c, Value(rest, hex), hex, upper);
    }
  }

  lemma OneDigit(s: string, c: char, hex: bool, upper: bool)
    requires s == [c] && AreDigits(s, hex, upper)
    ensures Value(s, hex) == DigitValue(c) && Digits(Value(s, hex), hex, upper) == s
  {
    ValueOfMore("", c, hex);
    assert "" + [c] == s;
    assert s[0] == DigitChar(DigitValue(c), upper);
  }

  lemma OneDigitMore(s: string, rest: string, c: char, q: nat, hex: bool, upper: bool)
    requires AreDigits(s, hex, upper) && rest != "" && s == rest + [c] && q == Value(rest, hex)
    requires (Digits(q, hex, upper) == rest <==> Shortest(rest)) && (rest[0] != '0' ==> q > 0)
    requires rest == "0" ==> q == 0
    ensures Digits(Value(s, hex), hex, upper) == s <==> Shortest(s)
  {
    var d := DigitValue(c);
    assert c == s[|s| - 1] && s[0] == rest[0];
    ValueOfMore(rest, c, hex);
    LastDigit(q, d, hex, upper);
    ShortestIff(s, rest, c, q, Digits(q, hex, upper), Digits(Value(s, hex), hex, upper));
  }

  lemma ShortestIff(s: string, rest: string, c: char, q: nat, u: string, t: string)
    requires s == rest + [c] && rest != "" && s[0] == rest[0] && t == if q == 0 then [c] else u + [c]
    requires (u == rest <==> Shortest(rest)) && (rest[0] != '0' ==> q > 0) && (rest == "0" ==> q == 0)
    ensures t == s <==> Shortest(s)
  {
    SameTail(u, rest, c);
    if |rest| == 1 && rest[0] == '0' { assert rest == "0"; }
  }

  lemma SameTail(a: string, b: string, c: char)
    ensures a + [c] == b + [c] <==> a == b
  {
    assert (a + [c])[..|a|] == a && (b + [c])[..|b|] == b;
    assert |a + [c]| == |a| + 1 && |b + [c]| == |b| + 1;
  }

  // The digits of a number and one digit more, unless the number is 0.
  lemma LastDigit(q: nat, d: nat, hex: bool, upper: bool)
    requires d < Base(hex)
    ensures Digits(Scale(q, hex) + d, hex, upper) == if q == 0 then [DigitChar(d, upper)]
            else Digits(q, hex, upper) + [DigitChar(d, upper)]
  {
    assert Quot(Scale(q, hex) + d, hex) == q && Rem(Scale(q, hex) + d, hex) == d;
  }

  // A number below 10^n has at most n digits in either base.
  lemma {:induction false} DigitsFit(v: nat, hex: bool, upper: bool, n: nat)
    requires v < Power10(n) && n >= 1
    ensures |Digits(v, hex, upper)| <= n
    decreases n
  {
    if v >= Base(hex) { DigitsFit(Quot(v, hex), hex, upper, n - 1); }
  }

  function Power10(n: nat): nat { if n == 0 then 1 else 10 * Power10(n - 1) }

  lemma TenDigits(v: nat, hex: bool, upper: bool)
    requires v < U32
    ensures |Digits(v, hex, upper)| <= 10
  {
    assert Power10(5) == 100_000;
    assert Power10(10) == 10_000_000_000;
    DigitsFit(v, hex, upper, 10);
  }

  function Rev(s: string): (r: string)
    ensures |r| == |s|
  {
    if |s| == 0 then "" else [s[|s| - 1]] + Rev(s[..|s| - 1])
  }

  lemma {:induction false} RevAt(s: string, k: nat)
    requires k < |s|
    ensures Rev(s)[k] == s[|s| - 1 - k]
    decreases |s|
  {
    if k > 0 { RevAt(s[..|s| - 1], k - 1); }
  }

  lemma RevMore(s: string, c: char)
    ensures Rev(s + [c]) == [c] + Rev(s)
  {
    assert (s + [c])[..|s|] == s;
  }

  // The digits of v, none for 0.
  function Head(v: nat, hex: bool, upper: bool): string { if v > 0 then Digits(v, hex, upper) else "" }

  lemma HeadStep(v: nat, hex: bool, upper: bool)
    requires v > 0
    ensures Head(v, hex, upper) == Head(Quot(v, hex), hex, upper) + [DigitChar(Rem(v, hex), upper)]
  {
    if v < Base(hex) { assert Quot(v, hex) == 0 && Rem(v, hex) == v; }
  }

  lemma Assoc(a: string, b: string, c: string)
    ensures a + b + c == a + (b + c)
  {
  }

  lemma MoveOver(all: string, head: string, c: char, tmp: string, rev: string)
    requires rev == Rev(tmp) && all == head + [c] + rev
    ensures all == head + Rev(tmp + [c]) && |all| >= |tmp| + 1
  {
    Assoc(head, [c], rev);
    RevMore(tmp, c);
  }

  // The division loop of u32_to_str.
  method TakeDigits(v0: nat, hex: bool, upper: bool, tmp: array<char>) returns (i: nat)
    requires v0 < U32 && tmp.Length == NUM
    modifies tmp
    ensures i == |Digits(v0, hex, upper)| <= 10 && Rev(tmp[..i]) == Digits(v0, hex, upper)
  {
    TenDigits(v0, hex, upper);
    i := 0;
    var v := v0;
    assert tmp[..0] == "";
    if v == 0 {
      tmp[0] := '0';
      i := 1;
      assert tmp[..1] == "" + ['0'];
      RevMore("", '0');
    }
    while v > 0
      invariant i <= 10 && Digits(v0, hex, upper) == Head(v, hex, upper) + Rev(tmp[..i])
      decreases v
    {
      HeadStep(v, hex, upper);
      MoveOver(Digits(v0, hex, upper), Head(Quot(v, hex), hex, upper), DigitChar(Rem(v, hex), upper), tmp[..i],
          Rev(tmp[..i]));
      ghost var before := tmp[..i];
      tmp[i] := DigitChar(Rem(v, hex), upper);
      assert tmp[..i + 1] == before + [DigitChar(Rem(v, hex), upper)];
      v := Quot(v, hex);
      i := i + 1;
    }
  }

  // u32_to_str: the digits of v and a terminator.
  method U32ToStr(v: nat, hex: bool, upper: bool, out: array<char>) returns (n: nat)
    requires v < U32 && out.Length == NUM
    modifies out
    ensures n == |Digits(v, hex, upper)| <= 10 && out[..n] == Digits(v, hex, upper) && out[n] == '\0'
  {
    var tmp := new char[NUM];
    TenDigits(v, hex, upper);
    n := TakeDigits(v, hex, upper, tmp);
    ghost var back := tmp[..n];
    ghost var digits := Rev(back);
    for k := 0 to n
      invariant tmp[..n] == back && forall j :: 0 <= j < k ==> out[j] == back[n - 1 - j]
    {
      out[k] := tmp[n - 1 - k];
    }
    out[n] := '\0';
    forall k: nat | k < n ensures out[k] == digits[k] { RevAt(back, k); }
    assert |out[..n]| == |digits|;
    assert out[..n] == digits;
  }
}
