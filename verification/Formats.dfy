// The formatting engine (libc/printf.c): what a format and its arguments stand for, as an
// unbounded string, and the bounded buffer the kernel fills.

module Formats {
  import opened Numerals

  const TMP: nat := 80                   // the conversion's temporary

  // Characters before a terminator.
  type CString = s: string | forall i :: 0 <= i < |s| ==> s[i] != '\0'

  // A 32-bit argument, a string, or the null string pointer.
  datatype Arg = Word(w: nat) | Text(s: CString) | Null

  // Flags, width and precision of a directive; no precision is -1.
  datatype Spec = Spec(left: bool, zero: bool, width: nat, prec: int)

  // A sign and characters, or a conversion the engine has no defined result for: an argument
  // of the wrong kind or missing, or more than the temporary holds.
  datatype Body = Body(negative: bool, text: string) | Bad

  function CharAt(f: CString, p: nat): char { if p < |f| then f[p] else '\0' }

  function Repeat(c: char, n: nat): (s: string)
    ensures |s| == n && forall i :: 0 <= i < n ==> s[i] == c
  {
    if n == 0 then "" else Repeat(c, n - 1) + [c]
  }

  function Cat(a: string, b: string): string { a + b }

  // ------------------------------------------------------------------
  // Reading a directive
  // ------------------------------------------------------------------

  // Flags from p on, and where they end.
  function Flags(f: CString, p: nat, left: bool, zero: bool): (r: (bool, bool, nat))
    requires p <= |f|
    ensures p <= r.2 <= |f|
    decreases |f| - p
  {
    if CharAt(f, p) == '-' then Flags(f, p + 1, true, zero)
    else if CharAt(f, p) == '0' then Flags(f, p + 1, left, true)
    else (left, zero, p)
  }

  predicate IsDecimal(c: char) { '0' <= c <= '9' }

  // A number from p on, and where it ends.
  function Number(f: CString, p: nat, acc: nat): (r: (nat, nat))
    requires p <= |f|
    ensures p <= r.1 <= |f|
    decreases |f| - p
  {
    if IsDecimal(CharAt(f, p)) then Number(f, p + 1, acc * 10 + DigitValue(CharAt(f, p))) else (acc, p)
  }

  // The directive whose flags start at p, and where its conversion character is.
  function Directive(f: CString, p: nat): (r: (Spec, nat))
    requires p <= |f|
    ensures p <= r.1 <= |f|
  {
    var (left, zero, p1) := Flags(f, p, false, false);
    var (width, p2) := Number(f, p1, 0);
    if CharAt(f, p2) == '.' then
      var (prec, p3) := Number(f, p2 + 1, 0);
      (Spec(left, zero, width, prec), p3)
    else (Spec(left, zero, width, -1), p2)
  }

  // ------------------------------------------------------------------
  // Conversions
  // ------------------------------------------------------------------

  predicate TakesArg(c: char) { c in "csdiuxXp" }

  // At least `prec` digits.
  function Filled(digits: string, prec: int): string {
    if prec > |digits| then Repeat('0', prec - |digits|) + digits else digits
  }

  function Signed(w: nat): int { if w >= 0x8000_0000 then w - U32 else w }

  function Magnitude(w: nat): nat { if Signed(w) < 0 then -Signed(w) else Signed(w) }

  function Convert(c: char, prec: int, a: Arg): Body {
    match a
    case Text(s) => if c == 's' then Body(false, if 0 <= prec < |s| then s[..prec] else s) else Bad
    case Null => if c == 's' then Body(false, if 0 <= prec < 6 then "(null)"[..prec] else "(null)") else Bad
    case Word(w) =>
      if w >= U32 then Bad
      else if c == 'c' then Body(false, [(w % 256) as char])
      else if c == 'd' || c == 'i' then Body(Signed(w) < 0, Filled(Digits(Magnitude(w), false, false), prec))
      else if c == 'u' then Body(false, Filled(Digits(w, false, false), prec))
      else if c == 'x' || c == 'X' then Body(false, Filled(Digits(w, true, c == 'X'), prec))
      else if c == 'p' then Body(false, "0x" + Digits(w, true, false))
      else Bad
  }

  // The body of conversion c, and how many arguments it takes.
  function BodyOf(c: char, prec: int, args: seq<Arg>, q: nat): (Body, nat) {
    if TakesArg(c) then
      if q >= |args| then (Bad, 1)
      else
        var b := Convert(c, prec, args[q]);
        (if b.Body? && |b.text| <= TMP then b else Bad, 1)
    else if c == '%' then (Body(false, "%"), 0)
    else (Body(false, ['%', c]), 0)
  }

  // A conversion fits the temporary exactly when its precision, or for text the shorter of
  // text and precision, does.
  lemma ConversionFitsIff(c: char, prec: int, a: Arg)
    requires Convert(c, prec, a).Body?
    ensures |Convert(c, prec, a).text| <= TMP <==>
            match a
            case Text(s) => |s| <= TMP || 0 <= prec <= TMP
            case Null => true
            case Word(w) => c == 'c' || c == 'p' || prec <= TMP
  {
    if a.Word? {
      TenDigits(a.w, c == 'x' || c == 'X' || c == 'p', c == 'X');
      TenDigits(Magnitude(a.w), false, false);
    }
  }

  // ------------------------------------------------------------------
  // Fields
  // ------------------------------------------------------------------

  function Sign(negative: bool): string { if negative then "-" else "" }

  function Padding(sp: Spec, b: Body): nat
    requires b.Body?
  {
    var n := |b.text| + |Sign(b.negative)|;
    if sp.width > n then sp.width - n else 0
  }

  function Spaces(sp: Spec, b: Body): string
    requires b.Body?
  {
    if !sp.left && !sp.zero then Repeat(' ', Padding(sp, b)) else ""
  }

  function Zeros(sp: Spec, b: Body): string
    requires b.Body?
  {
    if !sp.left && sp.zero && sp.prec < 0 then Repeat('0', Padding(sp, b)) else ""
  }

  function Trailing(sp: Spec, b: Body): string
    requires b.Body?
  {
    if sp.left then Repeat(' ', Padding(sp, b)) else ""
  }

  function Field(sp: Spec, b: Body): string
    requires b.Body?
  {
    Spaces(sp, b) + Sign(b.negative) + Zeros(sp, b) + b.text + Trailing(sp, b)
  }

  // A field is as wide as asked, or as its body if that is wider, except that a precision
  // together with zero padding loses the padding.
  lemma FieldWidthIff(sp: Spec, b: Body)
    requires b.Body?
    ensures var n := |b.text| + |Sign(b.negative)|;
            && |Field(sp, b)| >= n
            && (|Field(sp, b)| == (if sp.width > n then sp.width else n) <==>
                sp.left || !sp.zero || sp.prec < 0 || sp.width <= n)
  {
  }

  // ------------------------------------------------------------------
  // Whole formats
  // ------------------------------------------------------------------

  datatype Output = Output(s: string) | Undefined

  function Before(s: string, r: Output): Output {
    match r
    case Output(t) => Output(Cat(s, t))
    case Undefined => Undefined
  }

  // The output of format f from p on, with arguments from q on.
  function Format(f: CString, p: nat, args: seq<Arg>, q: nat): Output
    requires p <= |f|
    decreases |f| - p
  {
    if p == |f| then Output("")
    else if f[p] != '%' then Before([f[p]], Format(f, p + 1, args, q))
    else
      var (sp, at) := Directive(f, p + 1);
      if at == |f| then Output("%")
      else
        var (b, n) := BodyOf(f[at], sp.prec, args, q);
        if b == Bad then Undefined
        else Before(Field(sp, b), Format(f, at + 1, args, q + n))
  }

  // ------------------------------------------------------------------
  // The conversion's temporary
  // ------------------------------------------------------------------

  method CopyText(s: string, tmp: array<char>, at: nat)
    requires at + |s| <= tmp.Length
    modifies tmp
    ensures tmp[at..at + |s|] == s && tmp[..at] == old(tmp[..at])
  {
    for i := 0 to |s|
      invariant tmp[at..at + i] == s[..i] && tmp[..at] == old(tmp[..at])
    {
      tmp[at + i] := s[i];
      assert tmp[at..at + (i + 1)] == tmp[at..at + i] + [s[i]];
      assert s[..i + 1] == s[..i] + [s[i]];
    }
    assert s[..|s|] == s;
  }

  method ZeroFill(tmp: array<char>, z: nat)
    requires z <= tmp.Length
    modifies tmp
    ensures tmp[..z] == Repeat('0', z)
  {
    for i := 0 to z
      invariant tmp[..i] == Repeat('0', i)
    {
      tmp[i] := '0';
      assert tmp[..i + 1] == tmp[..i] + ['0'];
    }
  }

  // The digits of v, zero-filled to prec.
  method NumberInto(v: nat, hex: bool, upper: bool, prec: int, tmp: array<char>) returns (len: nat)
    requires v < U32 && |Filled(Digits(v, hex, upper), prec)| <= TMP == tmp.Length
    modifies tmp
    ensures len <= TMP && tmp[..len] == Filled(Digits(v, hex, upper), prec)
  {
    var num := new char[NUM];
    len := U32ToStr(v, hex, upper, num);
    var digits := num[..len];
    var z: nat := if prec > len then prec - len else 0;
    ZeroFill(tmp, z);
    CopyText(digits, tmp, z);
    len := len + z;
    FilledIs(digits, prec, z, tmp[..z], tmp[..len]);
  }

  lemma FilledIs(digits: string, prec: int, z: nat, zeros: string, all: string)
    requires z == (if prec > |digits| then prec - |digits| else 0) && zeros == Repeat('0', z)
    requires |all| == z + |digits| && all[..z] == zeros && all[z..] == digits
    ensures all == Filled(digits, prec)
  {
    assert all == all[..z] + all[z..];
  }

  method TextInto(s: string, prec: int, tmp: array<char>) returns (len: nat)
    requires |if 0 <= prec < |s| then s[..prec] else s| <= TMP == tmp.Length
    modifies tmp
    ensures len <= TMP && tmp[..len] == if 0 <= prec < |s| then s[..prec] else s
  {
    len := 0;
    while len < |s| && (prec < 0 || len < prec)
      invariant len <= |s| && (0 <= prec ==> len <= prec)
    {
      len := len + 1;
    }
    if len == |s| { assert s[..len] == s; }
    CopyText(s[..len], tmp, 0);
    assert tmp[..len] == tmp[0..0 + len];
  }

  method PointerInto(w: nat, tmp: array<char>) returns (len: nat)
    requires w < U32 && TMP == tmp.Length
    modifies tmp
    ensures len <= TMP && tmp[..len] == "0x" + Digits(w, true, false)
  {
    var num := new char[NUM];
    var n := U32ToStr(w, true, false, num);
    tmp[0], tmp[1] := '0', 'x';
    ghost var digits := num[..n];
    assert tmp[..2] == "0x";
    CopyText(num[..n], tmp, 2);
    len := n + 2;
    assert tmp[..len] == tmp[..2] + tmp[2..2 + n];
    assert tmp[..len] == "0x" + digits;
  }

  // The switch of kvsnprintf, for a conversion that takes an argument.
  method ConvertInto(c: char, prec: int, a: Arg, tmp: array<char>) returns (negative: bool, len: nat)
    requires Convert(c, prec, a).Body? && |Convert(c, prec, a).text| <= TMP == tmp.Length
    modifies tmp
    ensures len <= TMP && Body(negative, tmp[..len]) == Convert(c, prec, a)
  {
    negative := false;
    if a.Text? || a.Null? {
      len := TextInto(if a.Text? then a.s else "(null)", prec, tmp);
    } else if c == 'c' {
      tmp[0], len := (a.w % 256) as char, 1;
    } else if c == 'd' || c == 'i' {
      negative := Signed(a.w) < 0;
      len := NumberInto(Magnitude(a.w), false, false, prec, tmp);
    } else if c == 'p' {
      len := PointerInto(a.w, tmp);
    } else {
      len := NumberInto(a.w, c != 'u', c == 'X', prec, tmp);
    }
  }

  // ------------------------------------------------------------------
  // Reading a directive, as the loops do it
  // ------------------------------------------------------------------

  method ReadFlags(f: CString, p0: nat) returns (left: bool, zero: bool, p: nat)
    requires p0 <= |f|
    ensures (left, zero, p) == Flags(f, p0, false, false)
  {
    left, zero, p := false, false, p0;
    while true
      invariant p <= |f| && Flags(f, p, left, zero) == Flags(f, p0, false, false)
      decreases |f| - p
    {
      if CharAt(f, p) == '-' { left, p := true, p + 1; }
      else if CharAt(f, p) == '0' { zero, p := true, p + 1; }
      else { break; }
    }
  }

  method ReadNumber(f: CString, p0: nat) returns (n: nat, p: nat)
    requires p0 <= |f|
    ensures (n, p) == Number(f, p0, 0)
  {
    n, p := 0, p0;
    while IsDecimal(CharAt(f, p))
      invariant p <= |f| && Number(f, p, n) == Number(f, p0, 0)
      decreases |f| - p
    {
      n, p := n * 10 + DigitValue(CharAt(f, p)), p + 1;
    }
  }

  method ReadDirective(f: CString, p0: nat) returns (sp: Spec, p: nat)
    requires p0 <= |f|
    ensures (sp, p) == Directive(f, p0)
  {
    var left, zero, p1 := ReadFlags(f, p0);
    var width, p2 := ReadNumber(f, p1);
    sp, p := Spec(left, zero, width, -1), p2;
    if CharAt(f, p) == '.' {
      var prec, p3 := ReadNumber(f, p + 1);
      sp, p := sp.(prec := prec), p3;
    }
  }

  // ------------------------------------------------------------------
  // The bounded buffer
  // ------------------------------------------------------------------

  // idx characters have been produced; those that fit are in the buffer.
  ghost predicate Held(buf: array<char>, size: nat, idx: nat, out: string)
    reads buf
  {
    0 < size <= buf.Length && idx == |out| && forall j :: 0 <= j < idx && j + 1 < size ==> buf[j] == out[j]
  }

  // putc_into
  method PutChar(buf: array<char>, size: nat, idx0: nat, c: char, ghost out: string) returns (idx: nat)
    requires Held(buf, size, idx0, out)
    modifies buf
    ensures Held(buf, size, idx, out + [c]) && buf[size..] == old(buf[size..])
  {
    if idx0 + 1 < size { buf[idx0] := c; }
    idx := idx0 + 1;
  }

  method PutText(buf: array<char>, size: nat, idx0: nat, s: string, ghost out: string) returns (idx: nat)
    requires Held(buf, size, idx0, out)
    modifies buf
    ensures Held(buf, size, idx, out + s) && buf[size..] == old(buf[size..])
  {
    idx := idx0;
    assert out + s[..0] == out;
    for i := 0 to |s|
      invariant Held(buf, size, idx, out + s[..i]) && buf[size..] == old(buf[size..])
    {
      assert out + s[..i + 1] == out + s[..i] + [s[i]];
      idx := PutChar(buf, size, idx, s[i], out + s[..i]);
    }
    assert s[..|s|] == s;
  }

  // putpad
  method PutPad(buf: array<char>, size: nat, idx0: nat, c: char, count: nat, ghost out: string) returns (idx: nat)
    requires Held(buf, size, idx0, out)
    modifies buf
    ensures Held(buf, size, idx, out + Repeat(c, count)) && buf[size..] == old(buf[size..])
  {
    idx := idx0;
    assert out + Repeat(c, 0) == out;
    for i := 0 to count
      invariant Held(buf, size, idx, out + Repeat(c, i)) && buf[size..] == old(buf[size..])
    {
      assert out + Repeat(c, i + 1) == out + Repeat(c, i) + [c];
      idx := PutChar(buf, size, idx, c, out + Repeat(c, i));
    }
  }

  method PutField(buf: array<char>, size: nat, idx0: nat, sp: Spec, b: Body, ghost out: string) returns (idx: nat)
    requires Held(buf, size, idx0, out) && b.Body?
    modifies buf
    ensures Held(buf, size, idx, out + Field(sp, b)) && buf[size..] == old(buf[size..])
  {
    var body := |b.text| + if b.negative then 1 else 0;
    var padding := if sp.width > body then sp.width - body else 0;
    ghost var parts := Parts(sp, b, out);
    idx := PutPad(buf, size, idx0, ' ', if !sp.left && !sp.zero then padding else 0, out);
    idx := PutText(buf, size, idx, if b.negative then "-" else "", parts.0);
    idx := PutPad(buf, size, idx, '0', if !sp.left && sp.zero && sp.prec < 0 then padding else 0, parts.1);
    idx := PutText(buf, size, idx, b.text, parts.2);
    idx := PutPad(buf, size, idx, ' ', if sp.left then padding else 0, parts.3);
    PartsMake(sp, b, out);
  }

  // The output after each part of a field but the last.
  ghost function Parts(sp: Spec, b: Body, out: string): (r: (string, string, string, string))
    requires b.Body?
    ensures r.0 == out + Spaces(sp, b) && r.1 == r.0 + Sign(b.negative) && r.2 == r.1 + Zeros(sp, b)
    ensures r.3 == r.2 + b.text
  {
    var o1 := out + Spaces(sp, b);
    var o2 := o1 + Sign(b.negative);
    var o3 := o2 + Zeros(sp, b);
    (o1, o2, o3, o3 + b.text)
  }

  lemma PartsMake(sp: Spec, b: Body, out: string)
    requires b.Body?
    ensures Parts(sp, b, out).3 + Trailing(sp, b) == out + Field(sp, b)
  {
    Five(out, Spaces(sp, b), Sign(b.negative), Zeros(sp, b), b.text, Trailing(sp, b));
  }

  lemma Five(out: string, a: string, b: string, c: string, d: string, e: string)
    ensures out + a + b + c + d + e == out + (a + b + c + d + e)
  {
  }

  // ------------------------------------------------------------------
  // kvsnprintf
  // ------------------------------------------------------------------

  lemma BeforeTwice(a: string, b: string, r: Output)
    ensures Before(a, Before(b, r)) == Before(a + b, r)
  {
    if r.Output? { assert a + (b + r.s) == a + b + r.s; }
  }

  // The whole output is what has been produced and what position p still stands for.
  ghost predicate Along(f: CString, args: seq<Arg>, out: string, p: nat, q: nat) {
    p <= |f| && Before(out, Format(f, p, args, q)) == Format(f, 0, args, 0)
  }

  lemma Starts(f: CString, args: seq<Arg>)
    ensures Along(f, args, "", 0, 0)
  {
    var r := Format(f, 0, args, 0);
    if r.Output? { assert "" + r.s == r.s; }
  }

  lemma LiteralStep(f: CString, args: seq<Arg>, out: string, p: nat, q: nat)
    requires Along(f, args, out, p, q) && p < |f| && f[p] != '%'
    ensures Along(f, args, out + [f[p]], p + 1, q)
  {
    BeforeTwice(out, [f[p]], Format(f, p + 1, args, q));
  }

  lemma DirectiveIs(f: CString, args: seq<Arg>, p: nat, q: nat, sp: Spec, at: nat, b: Body, n: nat)
    requires p < |f| && f[p] == '%' && (sp, at) == Directive(f, p + 1) && at < |f|
    requires (b, n) == BodyOf(f[at], sp.prec, args, q)
    ensures Format(f, p, args, q) == if b == Bad then Undefined
            else Before(Field(sp, b), Format(f, at + 1, args, q + n))
  {
  }

  lemma DirectiveStep(f: CString, args: seq<Arg>, out: string, p: nat, q: nat, sp: Spec, at: nat)
    returns (b: Body, n: nat)
    requires Along(f, args, out, p, q) && p < |f| && f[p] == '%' && Format(f, 0, args, 0).Output?
    requires (sp, at) == Directive(f, p + 1) && at < |f|
    ensures (b, n) == BodyOf(f[at], sp.prec, args, q) && b.Body? && Along(f, args, out + Field(sp, b), at + 1, q + n)
  {
    var r := BodyOf(f[at], sp.prec, args, q);
    b, n := r.0, r.1;
    DirectiveIs(f, args, p, q, sp, at, b, n);
    if b.Body? { BeforeTwice(out, Field(sp, b), Format(f, at + 1, args, q + n)); }
  }

  lemma LastPercent(f: CString, args: seq<Arg>, out: string, p: nat, q: nat)
    requires Along(f, args, out, p, q) && p < |f| && f[p] == '%' && Directive(f, p + 1).1 == |f|
    ensures Format(f, 0, args, 0) == Output(out + "%")
  {
  }

  lemma Finished(f: CString, args: seq<Arg>, out: string, q: nat)
    requires Along(f, args, out, |f|, q)
    ensures Format(f, 0, args, 0) == Output(out)
  {
    assert out + "" == out;
  }

  // The switch: the body, copied out of the temporary.
  method TakeBody(c: char, prec: int, args: seq<Arg>, q: nat) returns (b: Body, n: nat)
    requires BodyOf(c, prec, args, q).0.Body?
    ensures (b, n) == BodyOf(c, prec, args, q)
  {
    if TakesArg(c) {
      var tmp := new char[TMP];
      var negative, len := ConvertInto(c, prec, args[q], tmp);
      b, n := Body(negative, tmp[..len]), 1;
    } else {
      b, n := Body(false, if c == '%' then "%" else ['%', c]), 0;
    }
  }

  // Terminate what has been produced, cutting it to the buffer.
  method Terminate(buf: array<char>, size: nat, idx: nat, ghost out: string)
    requires Held(buf, size, idx, out)
    modifies buf
    ensures Cut(buf, size, out) && buf[size..] == old(buf[size..])
  {
    buf[if idx < size then idx else size - 1] := '\0';
  }

  // The buffer holds the first size - 1 characters of out and a terminator.
  ghost predicate Cut(buf: array<char>, size: nat, out: string)
    reads buf
  {
    && 0 < size <= buf.Length
    && var m := if |out| < size then |out| else size - 1;
       (forall j :: 0 <= j < m ==> buf[j] == out[j]) && buf[m] == '\0'
  }

  // kvsnprintf: whatever the size, the buffer gets a prefix of the one output the format
  // stands for, terminated, and the result is that output's length.
  method Kvsnprintf(buf: array<char>, size: nat, f: CString, args: seq<Arg>) returns (n: nat)
    requires size <= buf.Length && Format(f, 0, args, 0).Output?
    modifies buf
    ensures size == 0 ==> n == 0 && buf[..] == old(buf[..])
    ensures size > 0 ==> n == |Format(f, 0, args, 0).s| && Cut(buf, size, Format(f, 0, args, 0).s)
    ensures buf[size..] == old(buf[size..])
  {
    if size == 0 { return 0; }
    var p: nat, q: nat, last := 0, 0, false;
    n := 0;
    ghost var out := "";
    Starts(f, args);
    while p < |f| && !last
      invariant Held(buf, size, n, out) && buf[size..] == old(buf[size..])
      invariant if last then Format(f, 0, args, 0) == Output(out) else Along(f, args, out, p, q)
      decreases |f| - p, !last
    {
      if f[p] != '%' {
        LiteralStep(f, args, out, p, q);
        n := PutChar(buf, size, n, f[p], out);
        out, p := out + [f[p]], p + 1;
      } else {
        n, p, q, last, out := PutDirective(buf, size, n, f, args, p, q, out);
      }
    }
    if !last { Finished(f, args, out, q); }
    Terminate(buf, size, n, out);
  }

  // The directive at p, or the lone percent sign that ends a format.
  method PutDirective(buf: array<char>, size: nat, n0: nat, f: CString, args: seq<Arg>, p0: nat, q0: nat,
                      ghost out0: string)
    returns (n: nat, p: nat, q: nat, last: bool, ghost out: string)
    requires Held(buf, size, n0, out0) && Along(f, args, out0, p0, q0)
    requires p0 < |f| && f[p0] == '%' && Format(f, 0, args, 0).Output?
    modifies buf
    ensures Held(buf, size, n, out) && buf[size..] == old(buf[size..]) && p0 < p <= |f|
    ensures if last then Format(f, 0, args, 0) == Output(out) else Along(f, args, out, p, q)
  {
    var sp, at := ReadDirective(f, p0 + 1);
    if at == |f| {
      LastPercent(f, args, out0, p0, q0);
      n := PutChar(buf, size, n0, '%', out0);
      p, q, last, out := |f|, q0, true, out0 + "%";
    } else {
      p, last := at + 1, false;
      n, q, out := PutConversion(buf, size, n0, f, args, p0, q0, sp, at, out0);
    }
  }

  method PutConversion(buf: array<char>, size: nat, n0: nat, f: CString, args: seq<Arg>, ghost p0: nat, q0: nat,
                       sp: Spec, at: nat, ghost out0: string)
    returns (n: nat, q: nat, ghost out: string)
    requires Held(buf, size, n0, out0) && Along(f, args, out0, p0, q0)
    requires p0 < |f| && f[p0] == '%' && Format(f, 0, args, 0).Output?
    requires (sp, at) == Directive(f, p0 + 1) && at < |f|
    modifies buf
    ensures Held(buf, size, n, out) && buf[size..] == old(buf[size..]) && Along(f, args, out, at + 1, q)
  {
    ghost var b0, k0 := DirectiveStep(f, args, out0, p0, q0, sp, at);
    var b, k := TakeBody(f[at], sp.prec, args, q0);
    n := PutField(buf, size, n0, sp, b, out0);
    q, out := q0 + k, out0 + Field(sp, b);
  }

  // ------------------------------------------------------------------
  // What a number's field says
  // ------------------------------------------------------------------

  lemma {:induction false} ZerosAreNothing(n: nat, hex: bool)
    ensures Value(Repeat('0', n), hex) == 0
  {
    if n > 0 {
      ZerosAreNothing(n - 1, hex);
      ValueOfMore(Repeat('0', n - 1), '0', hex);
    }
  }

  lemma {:induction false} ZerosAddNothing(n: nat, s: string, hex: bool)
    ensures Value(Repeat('0', n) + s, hex) == Value(s, hex)
    decreases |s|
  {
    var zeros := Repeat('0', n);
    if s == "" {
      ZerosAreNothing(n, hex);
      assert zeros + s == zeros;
    } else {
      var rest, c := s[..|s| - 1], s[|s| - 1];
      ZerosAddNothing(n, rest, hex);
      ValueOfMore(zeros + rest, c, hex);
      ValueOfMore(rest, c, hex);
      assert s == rest + [c];
      Assoc(zeros, rest, [c]);
    }
  }

  // Between the blanks of a %d field stand the sign of the argument and digits, zero-filled
  // or not, whose value is its magnitude.
  lemma DecimalReads(w: nat, sp: Spec)
    requires w < U32
    ensures var b := Convert('d', sp.prec, Word(w));
            && b.Body? && b.negative == (Signed(w) < 0)
            && Value(Zeros(sp, b) + b.text, false) == Magnitude(w)
            && Field(sp, b) == Spaces(sp, b) + Sign(b.negative) + (Zeros(sp, b) + b.text) + Trailing(sp, b)
  {
    var b := Convert('d', sp.prec, Word(w));
    DecimalText(w, sp.prec);
    if Zeros(sp, b) == "" { assert "" + b.text == b.text; } else { ZerosAddNothing(Padding(sp, b), b.text, false); }
    Assoc(Spaces(sp, b) + Sign(b.negative), Zeros(sp, b), b.text);
  }

  lemma DecimalText(w: nat, prec: int)
    requires w < U32
    ensures var b := Convert('d', prec, Word(w)); b.Body? && Value(b.text, false) == Magnitude(w)
  {
    var digits := Digits(Magnitude(w), false, false);
    ValueOfDigits(Magnitude(w), false, false);
    if prec > |digits| { ZerosAddNothing(prec - |digits|, digits, false); }
  }
}
