// What a format says, written without the engine's own functions: a format is read back from
// the pieces it was put together from, and each piece prints its own argument.

module FormatMeanings {
  import opened Numerals
  import opened Formats

  // ------------------------------------------------------------------
  // Numerals
  // ------------------------------------------------------------------

  // Digits of base ten, or of base sixteen with one case of letters.
  predicate IsDigit(c: char, hex: bool, upper: bool) {
    '0' <= c <= '9' || (hex && !upper && 'a' <= c <= 'f') || (hex && upper && 'A' <= c <= 'F')
  }

  // t is v in digits, at least `prec` of them and no more than it takes.
  predicate Numeral(t: string, hex: bool, upper: bool, prec: int, v: nat) {
    && |t| >= 1 && |t| >= prec && (|t| > 1 && |t| > prec ==> t[0] != '0')
    && (forall i :: 0 <= i < |t| ==> IsDigit(t[i], hex, upper)) && Value(t, hex) == v
  }

  // Evaluation is positional, in the usual digits.
  lemma ValueByDigits(s: string, c: char)
    ensures Value("", false) == Value("", true) == 0
    ensures '0' <= c <= '9' ==> Value(s + [c], false) == 10 * Value(s, false) + (c as int - '0' as int)
    ensures '0' <= c <= '9' ==> Value(s + [c], true) == 16 * Value(s, true) + (c as int - '0' as int)
    ensures 'a' <= c <= 'f' ==> Value(s + [c], true) == 16 * Value(s, true) + 10 + (c as int - 'a' as int)
    ensures 'A' <= c <= 'F' ==> Value(s + [c], true) == 16 * Value(s, true) + 10 + (c as int - 'A' as int)
  {
    ValueOfMore(s, c, false);
    ValueOfMore(s, c, true);
  }

  lemma {:induction false} DigitsShape(v: nat, hex: bool, upper: bool)
    ensures forall i :: 0 <= i < |Digits(v, hex, upper)| ==> IsDigit(Digits(v, hex, upper)[i], hex, upper)
    ensures |Digits(v, hex, upper)| > 1 ==> Digits(v, hex, upper)[0] != '0'
    decreases v
  {
    if v >= Base(hex) {
      DigitsShape(Quot(v, hex), hex, upper);
      LeadingDigit(Quot(v, hex), hex, upper);
    }
  }

  lemma {:induction false} LeadingDigit(v: nat, hex: bool, upper: bool)
    requires v > 0
    ensures Digits(v, hex, upper)[0] != '0'
    decreases v
  {
    if v >= Base(hex) { LeadingDigit(Quot(v, hex), hex, upper); }
  }

  lemma FilledNumeral(v: nat, hex: bool, upper: bool, prec: int)
    ensures Numeral(Filled(Digits(v, hex, upper), prec), hex, upper, prec, v)
  {
    var digits := Digits(v, hex, upper);
    DigitsShape(v, hex, upper);
    ValueOfDigits(v, hex, upper);
    if prec > |digits| { ZerosAddNothing(prec - |digits|, digits, hex); }
  }

  // ------------------------------------------------------------------
  // Conversions
  // ------------------------------------------------------------------

  // What conversion c makes of argument a: a sign and text.
  predicate Converts(c: char, prec: int, a: Arg, neg: bool, text: string) {
    match c
    case 'd' => Decimal(prec, a, neg, text)
    case 'i' => Decimal(prec, a, neg, text)
    case 'u' => a.Word? && !neg && Numeral(text, false, false, prec, a.w)
    case 'x' => a.Word? && !neg && Numeral(text, true, false, prec, a.w)
    case 'X' => a.Word? && !neg && Numeral(text, true, true, prec, a.w)
    case 'p' => a.Word? && !neg && |text| > 2 && text[..2] == "0x" && Numeral(text[2..], true, false, 0, a.w)
    case 'c' => a.Word? && !neg && |text| == 1 && text[0] as int == a.w % 256
    case 's' => !a.Word? && !neg && text == CutTo(if a.Text? then a.s else "(null)", prec)
    case _ => false
  }

  // A 32-bit word as a signed number.
  predicate Decimal(prec: int, a: Arg, neg: bool, text: string) {
    && a.Word? && (neg <==> a.w >= 0x8000_0000)
    && Numeral(text, false, false, prec, if a.w >= 0x8000_0000 && a.w < 0x1_0000_0000 then 0x1_0000_0000 - a.w else a.w)
  }

  // The first `prec` characters, all of them when there is no precision.
  function CutTo(s: string, prec: int): string { if 0 <= prec < |s| then s[..prec] else s }

  lemma ConvertMeans(c: char, prec: int, a: Arg)
    requires TakesArg(c) && Convert(c, prec, a).Body?
    ensures var b := Convert(c, prec, a); Converts(c, prec, a, b.negative, b.text)
  {
    if a.Word? {
      if c == 'd' || c == 'i' { FilledNumeral(Magnitude(a.w), false, false, prec); }
      if c == 'u' { FilledNumeral(a.w, false, false, prec); }
      if c == 'x' || c == 'X' { FilledNumeral(a.w, true, c == 'X', prec); }
      if c == 'p' { PointerMeans(a.w); }
    }
  }

  lemma PointerMeans(w: nat)
    ensures var text := "0x" + Digits(w, true, false);
            |text| > 2 && text[..2] == "0x" && Numeral(text[2..], true, false, 0, w)
  {
    var digits := Digits(w, true, false);
    FilledNumeral(w, true, false, 0);
    assert ("0x" + digits)[2..] == digits;
  }

  // ------------------------------------------------------------------
  // Fields
  // ------------------------------------------------------------------

  // x is sign and text in a field: to the left with blanks after, to the right with blanks
  // before, or with zeros between sign and text. With a precision the zeros are left out.
  predicate LaidOut(left: bool, zero: bool, width: nat, prec: int, neg: bool, text: string, x: string) {
    var sign := if neg then "-" else "";
    var n := |sign| + |text|;
    var pad := if width > n then width - n else 0;
    if left then |x| == n + pad && x[..n] == sign + text && forall j :: n <= j < |x| ==> x[j] == ' '
    else if !zero then |x| == pad + n && x[pad..] == sign + text && forall j :: 0 <= j < pad ==> x[j] == ' '
    else if prec < 0 then
      && |x| == n + pad && x[..|sign|] == sign && x[|sign| + pad..] == text
      && forall j :: |sign| <= j < |sign| + pad ==> x[j] == '0'
    else x == sign + text
  }

  lemma FieldMeans(sp: Spec, b: Body)
    requires b.Body?
    ensures LaidOut(sp.left, sp.zero, sp.width, sp.prec, b.negative, b.text, Field(sp, b))
  {
    var sign, x := Sign(b.negative), Field(sp, b);
    var n := |sign| + |b.text|;
    if sp.left {
      assert x == sign + b.text + Trailing(sp, b);
    } else if !sp.zero {
      assert x == Spaces(sp, b) + (sign + b.text);
    } else {
      assert x == sign + Zeros(sp, b) + b.text;
      if sp.prec >= 0 { assert x == sign + b.text; }
    }
  }

  // ------------------------------------------------------------------
  // Pieces of a format
  // ------------------------------------------------------------------

  // Literal text, or a directive: flags, width and precision as they are spelled, and the
  // conversion character.
  datatype Piece =
    | Lit(s: string)
    | Dir(flags: string, width: string, dotted: bool, prec: string, c: char)

  predicate Number10(s: string) { forall i :: 0 <= i < |s| ==> '0' <= s[i] <= '9' }

  // Spelled as a format can spell it: a width does not begin with 0, which would be a flag.
  predicate Spelled(p: Piece) {
    match p
    case Lit(s) => forall i :: 0 <= i < |s| ==> s[i] != '%' && s[i] != '\0'
    case Dir(flags, width, dotted, prec, c) =>
      && (forall i :: 0 <= i < |flags| ==> flags[i] == '-' || flags[i] == '0')
      && Number10(width) && (|width| > 0 ==> width[0] != '0') && Number10(prec) && (!dotted ==> prec == "")
      && c != '\0' && c != '-' && c != '.' && !('0' <= c <= '9')
  }

  function Spelling(p: Piece): string {
    match p
    case Lit(s) => s
    case Dir(flags, width, dotted, prec, c) => "%" + flags + width + (if dotted then "." + prec else "") + [c]
  }

  function FormatOf(ps: seq<Piece>): string {
    if |ps| == 0 then "" else Spelling(ps[0]) + FormatOf(ps[1..])
  }

  // A directive that uses up an argument.
  predicate Consumes(p: Piece) { p.Dir? && p.c in ['d', 'i', 'u', 'x', 'X', 'p', 'c', 's'] }

  // What one piece prints, given its argument if it takes one.
  ghost predicate Prints(p: Piece, args: seq<Arg>, q: nat, x: string) {
    match p
    case Lit(s) => x == s
    case Dir(flags, width, dotted, prec, c) =>
      exists neg: bool, text: string ::
        && (if Consumes(p) then q < |args| && Converts(c, PrecOf(p), args[q], neg, text)
            else !neg && text == if c == '%' then "%" else "%" + [c])
        && LaidOut('-' in flags, '0' in flags, Value(width, false), PrecOf(p), neg, text, x)
  }

  // The precision, negative when there is none.
  function PrecOf(p: Piece): int
    requires p.Dir?
  {
    if p.dotted then Value(p.prec, false) else -1
  }

  // The pieces print out one after the other, each directive that takes an argument the next
  // one from args[q] on.
  ghost predicate Says(ps: seq<Piece>, args: seq<Arg>, q: nat, out: string)
    decreases |ps|
  {
    if |ps| == 0 then out == ""
    else exists n: nat :: n <= |out| && Prints(ps[0], args, q, out[..n])
                          && Says(ps[1..], args, if Consumes(ps[0]) then q + 1 else q, out[n..])
  }

  // ------------------------------------------------------------------
  // Reading a spelled directive
  // ------------------------------------------------------------------

  // s stands in f at p.
  predicate StandsAt(f: string, p: nat, s: string) { p + |s| <= |f| && f[p..p + |s|] == s }

  lemma StandsTwice(f: string, p: nat, s: string, t: string)
    requires StandsAt(f, p, s + t)
    ensures StandsAt(f, p, s) && StandsAt(f, p + |s|, t)
  {
    assert f[p..p + |s + t|][..|s|] == s && f[p..p + |s + t|][|s|..] == t;
  }

  lemma {:induction false} FlagsRead(f: CString, p: nat, s: string, left: bool, zero: bool)
    requires StandsAt(f, p, s) && forall i :: 0 <= i < |s| ==> s[i] == '-' || s[i] == '0'
    requires CharAt(f, p + |s|) != '-' && CharAt(f, p + |s|) != '0'
    ensures Flags(f, p, left, zero) == (left || '-' in s, zero || '0' in s, p + |s|)
    decreases |s|
  {
    if |s| > 0 {
      assert f[p] == f[p..p + |s|][0] == s[0];
      StandsTwice(f, p, [s[0]], s[1..]);
      assert s == [s[0]] + s[1..];
      FlagsRead(f, p + 1, s[1..], left || s[0] == '-', zero || s[0] == '0');
    }
  }

  // Reading digits from the left.
  function ReadOn(acc: nat, s: string): nat
    requires Number10(s)
    decreases |s|
  {
    if |s| == 0 then acc else ReadOn(10 * acc + DigitValue(s[0]), s[1..])
  }

  lemma {:induction false} ReadOnMore(acc: nat, s: string, c: char)
    requires Number10(s + [c])
    ensures Number10(s) && ReadOn(acc, s + [c]) == 10 * ReadOn(acc, s) + DigitValue(c)
    decreases |s|
  {
    assert forall i :: 0 <= i < |s| ==> s[i] == (s + [c])[i];
    if |s| > 0 {
      assert (s + [c])[1..] == s[1..] + [c];
      ReadOnMore(10 * acc + DigitValue(s[0]), s[1..], c);
    }
  }

  lemma {:induction false} ReadOnIsValue(s: string)
    requires Number10(s)
    ensures ReadOn(0, s) == Value(s, false)
    decreases |s|
  {
    if |s| > 0 {
      var rest, c := s[..|s| - 1], s[|s| - 1];
      assert s == rest + [c];
      ReadOnMore(0, rest, c);
      ReadOnIsValue(rest);
      ValueOfMore(rest, c, false);
    }
  }

  lemma {:induction false} NumberRead(f: CString, p: nat, s: string, acc: nat)
    requires StandsAt(f, p, s) && Number10(s) && !('0' <= CharAt(f, p + |s|) <= '9')
    ensures Number(f, p, acc) == (ReadOn(acc, s), p + |s|)
    decreases |s|
  {
    if |s| > 0 {
      assert f[p] == f[p..p + |s|][0] == s[0];
      StandsTwice(f, p, [s[0]], s[1..]);
      assert s == [s[0]] + s[1..];
      NumberRead(f, p + 1, s[1..], 10 * acc + DigitValue(s[0]));
    }
  }

  // A width between what stands before and after it.
  lemma WidthRead(f: CString, p: nat, s: string)
    requires StandsAt(f, p, s) && Number10(s) && !('0' <= CharAt(f, p + |s|) <= '9')
    ensures Number(f, p, 0) == (Value(s, false), p + |s|)
  {
    NumberRead(f, p, s, 0);
    ReadOnIsValue(s);
  }

  lemma CharStands(f: CString, p: nat, s: string)
    requires StandsAt(f, p, s) && |s| > 0
    ensures p < |f| && CharAt(f, p) == f[p] == s[0]
  {
    assert f[p..p + |s|][0] == s[0];
  }

  // The tail of a directive after its width.
  function Tail(d: Piece): string
    requires d.Dir?
  {
    (if d.dotted then "." + d.prec else "") + [d.c]
  }

  lemma TailRead(f: CString, p: nat, d: Piece)
    requires d.Dir? && Spelled(d) && StandsAt(f, p, Tail(d))
    ensures CharAt(f, p) == if d.dotted then '.' else d.c
    ensures d.dotted ==> Number(f, p + 1, 0) == (Value(d.prec, false), p + 1 + |d.prec|)
    ensures var at := if d.dotted then p + 1 + |d.prec| else p;
            at + 1 == p + |Tail(d)| <= |f| && f[at] == d.c
  {
    CharStands(f, p, Tail(d));
    if d.dotted {
      assert Tail(d) == "." + (d.prec + [d.c]);
      StandsTwice(f, p, ".", d.prec + [d.c]);
      StandsTwice(f, p + 1, d.prec, [d.c]);
      CharStands(f, p + 1 + |d.prec|, [d.c]);
      WidthRead(f, p + 1, d.prec);
    }
  }

  // Where the parts of a spelled directive stand.
  lemma DirectiveStands(f: CString, p: nat, d: Piece)
    requires d.Dir? && StandsAt(f, p, Spelling(d))
    ensures var p1 := p + 1; var p2 := p1 + |d.flags|; var p3 := p2 + |d.width|;
            && f[p] == '%' && p + |Spelling(d)| == p3 + |Tail(d)|
            && StandsAt(f, p1, d.flags) && StandsAt(f, p2, d.width) && StandsAt(f, p3, Tail(d))
            && CharAt(f, p2) == (d.width + Tail(d))[0]
  {
    var p1, p2 := p + 1, p + 1 + |d.flags|;
    assert Spelling(d) == "%" + (d.flags + (d.width + Tail(d)));
    StandsTwice(f, p, "%", d.flags + (d.width + Tail(d)));
    CharStands(f, p, "%");
    StandsTwice(f, p1, d.flags, d.width + Tail(d));
    StandsTwice(f, p2, d.width, Tail(d));
    CharStands(f, p2, d.width + Tail(d));
  }

  lemma DirectiveFrom(f: CString, p1: nat, p2: nat, p3: nat, left: bool, zero: bool, width: nat, d: Piece, at: nat)
    requires d.Dir? && p1 <= p2 <= p3 <= |f| && Flags(f, p1, false, false) == (left, zero, p2)
    requires Number(f, p2, 0) == (width, p3) && CharAt(f, p3) == (if d.dotted then '.' else d.c) && d.c != '.'
    requires d.dotted ==> p3 < |f| && Number(f, p3 + 1, 0) == (Value(d.prec, false), at)
    requires !d.dotted ==> at == p3
    ensures Directive(f, p1) == (Spec(left, zero, width, PrecOf(d)), at)
  {
  }

  // The engine reads a directive as it is spelled.
  lemma DirectiveRead(f: CString, p: nat, d: Piece)
    requires d.Dir? && Spelled(d) && StandsAt(f, p, Spelling(d))
    ensures f[p] == '%'
    ensures var at := p + |Spelling(d)| - 1;
            && at < |f| && f[at] == d.c
            && Directive(f, p + 1) == (Spec('-' in d.flags, '0' in d.flags, Value(d.width, false), PrecOf(d)), at)
  {
    var p1 := p + 1;
    var p2 := p1 + |d.flags|;
    DirectiveStands(f, p, d);
    PartsRead(f, p1, p2, p2 + |d.width|, d, p + |Spelling(d)| - 1);
  }

  lemma PartsRead(f: CString, p1: nat, p2: nat, p3: nat, d: Piece, at: nat)
    requires d.Dir? && Spelled(d) && StandsAt(f, p1, d.flags) && StandsAt(f, p2, d.width) && StandsAt(f, p3, Tail(d))
    requires p2 == p1 + |d.flags| && p3 == p2 + |d.width| && at + 1 == p3 + |Tail(d)|
    requires CharAt(f, p2) == (d.width + Tail(d))[0]
    ensures at < |f| && f[at] == d.c
    ensures Directive(f, p1) == (Spec('-' in d.flags, '0' in d.flags, Value(d.width, false), PrecOf(d)), at)
  {
    TailRead(f, p3, d);
    FlagsRead(f, p1, d.flags, false, false);
    WidthRead(f, p2, d.width);
    DirectiveFrom(f, p1, p2, p3, '-' in d.flags, '0' in d.flags, Value(d.width, false), d, at);
  }

  // ------------------------------------------------------------------
  // Whole formats
  // ------------------------------------------------------------------

  lemma {:induction false} LiteralRead(f: CString, p: nat, s: string, args: seq<Arg>, q: nat)
    requires StandsAt(f, p, s) && forall i :: 0 <= i < |s| ==> s[i] != '%'
    ensures Format(f, p, args, q) == Before(s, Format(f, p + |s|, args, q))
    decreases |s|
  {
    if |s| == 0 {
      var r := Format(f, p, args, q);
      if r.Output? { assert "" + r.s == r.s; }
    } else {
      CharStands(f, p, s);
      assert s == [s[0]] + s[1..];
      StandsTwice(f, p, [s[0]], s[1..]);
      LiteralRead(f, p + 1, s[1..], args, q);
      BeforeTwice([s[0]], s[1..], Format(f, p + |s|, args, q));
    }
  }

  // The output from p on is x and then the output from p1 on; unfolded where a proof
  // mentions Spell.
  ghost predicate Goes(f: CString, p: nat, args: seq<Arg>, q: nat, x: string, p1: nat, q1: nat) {
    forall n: nat {:trigger Spell(n)} :: Spell(n) ==>
      p <= |f| && p1 <= |f| && Format(f, p, args, q) == Before(x, Format(f, p1, args, q1))
  }

  // A piece of the format prints what it means, and the rest goes on with the next argument.
  lemma PieceRead(f: CString, p: nat, d: Piece, args: seq<Arg>, q: nat, p1: nat, q1: nat) returns (x: string)
    requires Spelled(d) && StandsAt(f, p, Spelling(d)) && Format(f, p, args, q).Output?
    requires p1 == p + |Spelling(d)| && q1 == if Consumes(d) then q + 1 else q
    ensures Prints(d, args, q, x) && Goes(f, p, args, q, x, p1, q1)
  {
    if d.Lit? {
      LiteralRead(f, p, d.s, args, q);
      x := d.s;
    } else {
      DirectiveRead(f, p, d);
      var sp := Spec('-' in d.flags, '0' in d.flags, Value(d.width, false), PrecOf(d));
      x := DirectivePrints(f, p, d, args, q, sp, p1 - 1, q1);
    }
  }

  lemma DirectivePrints(f: CString, p: nat, d: Piece, args: seq<Arg>, q: nat, sp: Spec, at: nat, q1: nat)
    returns (x: string)
    requires d.Dir? && p < |f| && f[p] == '%' && (sp, at) == Directive(f, p + 1) && at < |f| && f[at] == d.c
    requires sp == Spec('-' in d.flags, '0' in d.flags, Value(d.width, false), PrecOf(d))
    requires Format(f, p, args, q).Output? && q1 == if Consumes(d) then q + 1 else q
    ensures Prints(d, args, q, x) && Goes(f, p, args, q, x, at + 1, q1)
  {
    var (b, n) := BodyOf(d.c, sp.prec, args, q);
    DirectiveIs(f, args, p, q, sp, at, b, n);
    x := Field(sp, b);
    FieldMeans(sp, b);
    if TakesArg(d.c) {
      ConvertMeans(d.c, sp.prec, args[q]);
    }
  }

  // The predicates of the induction below are unfolded only where a proof mentions Spell.
  ghost predicate Spell(n: nat) { true }

  // From p on f spells the pieces ps.
  ghost predicate Spells(f: CString, p: nat, ps: seq<Piece>) {
    forall n: nat {:trigger Spell(n)} :: Spell(n) ==>
      p <= |f| && f[p..] == FormatOf(ps) && forall i :: 0 <= i < |ps| ==> Spelled(ps[i])
  }

  // From p on f, with the arguments from q on, prints out.
  ghost predicate Yields(f: CString, p: nat, args: seq<Arg>, q: nat, out: string) {
    forall n: nat {:trigger Yield(n)} :: Yield(n) ==> p <= |f| && Format(f, p, args, q) == Output(out)
  }

  ghost predicate Yield(n: nat) { true }

  ghost predicate Said(ps: seq<Piece>, args: seq<Arg>, q: nat, out: string) {
    forall n: nat {:trigger Spell(n)} :: Spell(n) ==> Says(ps, args, q, out)
  }

  ghost predicate Printed(ps: seq<Piece>, args: seq<Arg>, q: nat, x: string, q1: nat) {
    forall n: nat {:trigger Spell(n)} :: Spell(n) ==>
      |ps| > 0 && Prints(ps[0], args, q, x) && q1 == if Consumes(ps[0]) then q + 1 else q
  }

  lemma SaysMore(ps: seq<Piece>, args: seq<Arg>, q: nat, x: string, q1: nat, more: string)
    requires |ps| > 0 && Printed(ps, args, q, x, q1) && Said(ps[1..], args, q1, more)
    ensures Said(ps, args, q, x + more)
  {
    assert Spell(0);
    var out := x + more;
    assert out[..|x|] == x && out[|x|..] == more;
  }

  lemma FirstPiece(f: CString, p: nat, ps: seq<Piece>)
    requires p <= |f| && |ps| > 0 && f[p..] == FormatOf(ps)
    ensures StandsAt(f, p, Spelling(ps[0]))
    ensures var p1 := p + |Spelling(ps[0])|; p1 <= |f| && f[p1..] == FormatOf(ps[1..])
  {
    var s, rest := Spelling(ps[0]), FormatOf(ps[1..]);
    assert f[p..] == s + rest;
    assert f[p..][..|s|] == s && f[p..][|s|..] == rest;
  }

  lemma PieceStep(f: CString, p: nat, ps: seq<Piece>, args: seq<Arg>, q: nat, out: string)
    returns (x: string, p1: nat, q1: nat, more: string)
    requires |ps| > 0 && Spells(f, p, ps) && Yields(f, p, args, q, out)
    ensures Printed(ps, args, q, x, q1) && Spells(f, p1, ps[1..]) && Yields(f, p1, args, q1, more) && out == x + more
  {
    StartOf(f, p, ps);
    x, p1, q1, more := PieceTaken(f, p, ps[0], args, q, out);
    PrintedIs(ps, ps[0], args, q, x, q1);
  }

  lemma StartOf(f: CString, p: nat, ps: seq<Piece>)
    requires |ps| > 0 && Spells(f, p, ps)
    ensures Spelled(ps[0]) && StandsAt(f, p, Spelling(ps[0])) && Spells(f, p + |Spelling(ps[0])|, ps[1..])
  {
    assert Spell(0);
    FirstPiece(f, p, ps);
  }

  lemma PieceTaken(f: CString, p: nat, d: Piece, args: seq<Arg>, q: nat, out: string)
    returns (x: string, p1: nat, q1: nat, more: string)
    requires Spelled(d) && StandsAt(f, p, Spelling(d)) && Yields(f, p, args, q, out)
    ensures Prints(d, args, q, x) && out == x + more && p1 == p + |Spelling(d)|
    ensures q1 == (if Consumes(d) then q + 1 else q) && Yields(f, p1, args, q1, more)
  {
    p1, q1 := p + |Spelling(d)|, if Consumes(d) then q + 1 else q;
    x := YieldingPiece(f, p, d, args, q, p1, q1, out);
    more := AfterPiece(f, p, args, q, x, p1, q1, out);
  }

  lemma YieldingPiece(f: CString, p: nat, d: Piece, args: seq<Arg>, q: nat, p1: nat, q1: nat, out: string)
    returns (x: string)
    requires Spelled(d) && StandsAt(f, p, Spelling(d)) && Yields(f, p, args, q, out)
    requires p1 == p + |Spelling(d)| && q1 == if Consumes(d) then q + 1 else q
    ensures Prints(d, args, q, x) && Goes(f, p, args, q, x, p1, q1)
  {
    assert Yield(0);
    x := PieceRead(f, p, d, args, q, p1, q1);
  }

  lemma AfterPiece(f: CString, p: nat, args: seq<Arg>, q: nat, x: string, p1: nat, q1: nat, out: string)
    returns (more: string)
    requires p <= |f| && p1 <= |f| && Yields(f, p, args, q, out) && Goes(f, p, args, q, x, p1, q1)
    ensures Yields(f, p1, args, q1, more) && out == x + more
  {
    assert Spell(0);
    assert Yield(0);
    more := Format(f, p1, args, q1).s;
  }

  lemma PrintedIs(ps: seq<Piece>, d: Piece, args: seq<Arg>, q: nat, x: string, q1: nat)
    requires |ps| > 0 && d == ps[0] && Prints(d, args, q, x) && q1 == if Consumes(d) then q + 1 else q
    ensures Printed(ps, args, q, x, q1)
  {
  }

  lemma NoPiece(f: CString, p: nat, args: seq<Arg>, q: nat, out: string)
    requires Spells(f, p, []) && Yields(f, p, args, q, out)
    ensures Said([], args, q, out)
  {
    assert Spell(0);
    assert Yield(0);
  }

  lemma {:induction false} PiecesSay(f: CString, p: nat, ps: seq<Piece>, args: seq<Arg>, q: nat, out: string)
    requires Spells(f, p, ps) && Yields(f, p, args, q, out)
    ensures Said(ps, args, q, out)
    decreases |ps|
  {
    if |ps| == 0 {
      NoPiece(f, p, args, q, out);
    } else {
      var x, p1, q1, more := PieceStep(f, p, ps, args, q, out);
      PiecesSay(f, p1, ps[1..], args, q1, more);
      SaysMore(ps, args, q, x, q1, more);
    }
  }

  // A format put together from pieces says what its pieces say.
  lemma FormatSays(f: CString, ps: seq<Piece>, args: seq<Arg>)
    requires f == FormatOf(ps) && (forall i :: 0 <= i < |ps| ==> Spelled(ps[i])) && Format(f, 0, args, 0).Output?
    ensures Says(ps, args, 0, Format(f, 0, args, 0).s)
  {
    var out := Format(f, 0, args, 0).s;
    assert f[0..] == f;
    PiecesSay(f, 0, ps, args, 0, out);
    assert Spell(0);
  }

  // ------------------------------------------------------------------
  // When there is an output
  // ------------------------------------------------------------------

  // Argument a is of the kind conversion c takes, and what it makes of it has at most 80
  // characters, the sign apart.
  predicate Suits(c: char, prec: int, a: Arg) {
    match a
    case Word(w) =>
      && c in ['d', 'i', 'u', 'x', 'X', 'p', 'c']
      && w < 0x1_0000_0000
      && (c == 'p' || c == 'c' || prec <= 80)
    case Text(s) => c == 's' && (|s| <= 80 || 0 <= prec <= 80)
    case Null => c == 's'
  }

  // Every directive that takes an argument has one that suits it.
  predicate Suited(ps: seq<Piece>, args: seq<Arg>, q: nat)
    decreases |ps|
  {
    |ps| == 0
    || ((Consumes(ps[0]) ==> q < |args| && Suits(ps[0].c, PrecOf(ps[0]), args[q]))
        && Suited(ps[1..], args, if Consumes(ps[0]) then q + 1 else q))
  }

  lemma BodyIff(d: Piece, args: seq<Arg>, q: nat)
    requires d.Dir?
    ensures BodyOf(d.c, PrecOf(d), args, q).0.Body? <==>
            (Consumes(d) ==> q < |args| && Suits(d.c, PrecOf(d), args[q]))
  {
    if Consumes(d) && q < |args| {
      var b := Convert(d.c, PrecOf(d), args[q]);
      if b.Body? { ConversionFitsIff(d.c, PrecOf(d), args[q]); }
    }
  }

  // What from p on has an output, or not, as d and the rest say.
  ghost predicate Defined(f: CString, p: nat, args: seq<Arg>, q: nat, ok: bool) {
    forall n: nat {:trigger Yield(n)} :: Yield(n) ==> p <= |f| && (Format(f, p, args, q).Output? <==> ok)
  }

  lemma PieceDefined(f: CString, p: nat, d: Piece, args: seq<Arg>, q: nat, p1: nat, q1: nat, ok: bool)
    requires Spelled(d) && StandsAt(f, p, Spelling(d)) && p1 == p + |Spelling(d)|
    requires q1 == (if Consumes(d) then q + 1 else q) && Defined(f, p1, args, q1, ok)
    ensures Defined(f, p, args, q, ok && (Consumes(d) ==> q < |args| && Suits(d.c, PrecOf(d), args[q])))
  {
    if d.Lit? {
      LiteralDefined(f, p, d.s, args, q, p1, ok);
    } else {
      DirectiveRead(f, p, d);
      var sp := Spec('-' in d.flags, '0' in d.flags, Value(d.width, false), PrecOf(d));
      DirectiveDefined(f, p, d, args, q, sp, p1 - 1, q1, ok);
    }
  }

  lemma LiteralDefined(f: CString, p: nat, s: string, args: seq<Arg>, q: nat, p1: nat, ok: bool)
    requires StandsAt(f, p, s) && (forall i :: 0 <= i < |s| ==> s[i] != '%') && p1 == p + |s|
    requires Defined(f, p1, args, q, ok)
    ensures Defined(f, p, args, q, ok)
  {
    assert Yield(0);
    LiteralRead(f, p, s, args, q);
  }

  lemma DirectiveDefined(f: CString, p: nat, d: Piece, args: seq<Arg>, q: nat, sp: Spec, at: nat, q1: nat, ok: bool)
    requires d.Dir? && p < |f| && f[p] == '%' && (sp, at) == Directive(f, p + 1) && at < |f| && f[at] == d.c
    requires sp.prec == PrecOf(d) && q1 == (if Consumes(d) then q + 1 else q) && Defined(f, at + 1, args, q1, ok)
    ensures Defined(f, p, args, q, ok && (Consumes(d) ==> q < |args| && Suits(d.c, PrecOf(d), args[q])))
  {
    assert Yield(0);
    var (b, n) := BodyOf(d.c, sp.prec, args, q);
    DirectiveIs(f, args, p, q, sp, at, b, n);
    BodyIff(d, args, q);
  }

  lemma {:induction false} PiecesDefined(f: CString, p: nat, ps: seq<Piece>, args: seq<Arg>, q: nat)
    requires Spells(f, p, ps)
    ensures Defined(f, p, args, q, Suited(ps, args, q))
    decreases |ps|
  {
    if |ps| == 0 {
      NoneDefined(f, p, args, q);
    } else {
      var p1, q1 := p + |Spelling(ps[0])|, if Consumes(ps[0]) then q + 1 else q;
      StartOf(f, p, ps);
      PiecesDefined(f, p1, ps[1..], args, q1);
      PieceDefined(f, p, ps[0], args, q, p1, q1, Suited(ps[1..], args, q1));
    }
  }

  lemma NoneDefined(f: CString, p: nat, args: seq<Arg>, q: nat)
    requires Spells(f, p, [])
    ensures Defined(f, p, args, q, true)
  {
    assert Spell(0);
  }

  // A format put together from pieces has an output exactly when its arguments suit it.
  lemma FormatDefinedIff(f: CString, ps: seq<Piece>, args: seq<Arg>)
    requires f == FormatOf(ps) && forall i :: 0 <= i < |ps| ==> Spelled(ps[i])
    ensures Format(f, 0, args, 0).Output? <==> Suited(ps, args, 0)
  {
    assert f[0..] == f;
    PiecesDefined(f, 0, ps, args, 0);
    assert Yield(0);
  }

  // The buffer kvsnprintf fills then says it too, cut to its size.
  method PrintPieces(buf: array<char>, size: nat, f: CString, ps: seq<Piece>, args: seq<Arg>)
    returns (n: nat, ghost out: string)
    requires 0 < size <= buf.Length && Suited(ps, args, 0)
    requires f == FormatOf(ps) && forall i :: 0 <= i < |ps| ==> Spelled(ps[i])
    modifies buf
    ensures Says(ps, args, 0, out) && n == |out| && buf[size..] == old(buf[size..])
    ensures forall j :: 0 <= j < |out| && j + 1 < size ==> buf[j] == out[j]
    ensures buf[if |out| < size then |out| else size - 1] == '\0'
  {
    FormatDefinedIff(f, ps, args);
    FormatSays(f, ps, args);
    out := Format(f, 0, args, 0).s;
    n := Kvsnprintf(buf, size, f, args);
  }
}
