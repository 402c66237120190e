/** `BcMath\Number`: an immutable value whose text is canonical at its scale, whatever made it. */
module Numbers {
  import opened Numerals
  import opened Words
  import opened Digits
  import opened Decimals
  import opened Buffers
  import opened Operands
  import opened Wrappers
  import opened Rounding
  import opened Functions
  import Addition
  import Dividing
  import Parsing
  import Powers

  /** Extra fraction digits of an inexact default-scale result. */
  const EXPAND_SCALE: nat := 10

  /** The string value and its number of fraction digits. */
  datatype Number = Number(value: seq<byte>, scale: nat)

  function Make(v: int, scale: nat): Number { Number(Text(v, scale), scale) }

  /** The text is that of some value at exactly `scale` digits. */
  ghost predicate Canonical(n: Number) {
    exists v: int :: n.value == Text(v, n.scale)
  }

  // ----- reading a number back

  lemma AssembledPieces(minus: bool, whole: seq<Digit>, frac: seq<Digit>)
    ensures var t, scale := Assemble(minus, whole, frac), |frac|;
      && |t| > 0 && (t[0] == 45 <==> minus)
      && var rest := if minus then t[1..] else t;
      && |rest| == |WholeText(whole)| + (if scale > 0 then scale + 1 else 0)
      && (scale > 0 ==> rest[..|rest| - scale - 1] == WholeText(whole) && rest[|rest| - scale..] == frac)
      && (scale == 0 ==> rest == WholeText(whole))
  {
    var w, f := WholeText(whole), FracText(frac);
    assert |w| > 0 && w[0] != 45;
    assert |frac| > 0 ==> f == POINT + frac;
    assert Assemble(minus, whole, frac) == SignText(minus) + w + f;
    assert SignText(minus) == if minus then [45] else [];
    hide *;
    BehindSign(minus, w, f);
    if |frac| > 0 {
      BehindPoint(w, frac);
    } else {
      assert f == [] by { NoFraction(frac); }
      assert w + [] == w;
    }
  }

  lemma NoFraction(frac: seq<Digit>)
    ensures |frac| == 0 ==> FracText(frac) == []
  {}

  lemma BehindSign(minus: bool, w: seq<byte>, f: seq<byte>)
    requires |w| > 0 && w[0] != 45
    ensures var t := (if minus then [45] else []) + w + f;
      |t| > 0 && (t[0] == 45 <==> minus) && (if minus then t[1..] else t) == w + f
  {
    assert minus ==> [45] + w + f == [45] + (w + f);
    assert [] + w + f == w + f;
  }

  lemma BehindPoint(w: seq<byte>, frac: seq<byte>)
    ensures (w + (POINT + frac))[..|w|] == w && (w + (POINT + frac))[|w| + 1..] == frac
    ensures |POINT| == 1
  {
    assert w + (POINT + frac) == (w + POINT) + frac;
  }

  /** Where the pieces of canonical text lie. */
  lemma TextPieces(v: int, scale: nat)
    ensures var t, n := Text(v, scale), Parsing.NumOf(v, scale);
      && |t| > 0 && (t[0] == 45 <==> v < 0) && |n.frac| == scale
      && var rest := if v < 0 then t[1..] else t;
      && |rest| == |WholeText(n.whole)| + (if scale > 0 then scale + 1 else 0)
      && (scale > 0 ==> rest[..|rest| - scale - 1] == WholeText(n.whole) && rest[|rest| - scale..] == n.frac)
      && (scale == 0 ==> rest == WholeText(n.whole))
  {
    Parsing.TextIs(v, scale);
    Parsing.NumOfValue(v, scale);
    NumOfSign(v, scale);
    hide *;
    var n := Parsing.NumOf(v, scale);
    AssembledPieces(n.neg, n.whole, n.frac);
  }

  lemma NumOfSign(v: int, scale: nat)
    ensures Parsing.NumOf(v, scale).neg == (v < 0)
  {}

  lemma CanonicalPieces(n: Number) returns (v: int)
    requires Canonical(n)
    ensures n == Make(v, n.scale)
  {
    v :| n.value == Text(v, n.scale);
  }

  lemma ReadablePieces(n: Number)
    requires Canonical(n)
    ensures |n.value| > 0
    ensures var rest := if n.value[0] == 45 then n.value[1..] else n.value;
      && |rest| > (if n.scale > 0 then n.scale + 1 else 0)
      && InRange(rest[..if n.scale > 0 then |rest| - n.scale - 1 else |rest|], 48, 58)
      && InRange(rest[|rest| - n.scale..], 48, 58)
  {
    hide Text, Parsing.NumOf;
    var v := CanonicalPieces(n);
    TextPieces(v, n.scale);
  }

  /** The operand a number's text denotes, cut out of it without validation. */
  function AsNum(n: Number): Num
    requires Canonical(n)
  {
    ReadablePieces(n);
    var neg := n.value[0] == 45;
    var rest := if neg then n.value[1..] else n.value;
    var whole: seq<Digit> := rest[..if n.scale > 0 then |rest| - n.scale - 1 else |rest|];
    var frac: seq<Digit> := if n.scale > 0 then rest[|rest| - n.scale..] else [];
    Num(neg, if whole == [48] then [] else whole, frac)
  }

  lemma MakeCanonical(v: int, scale: nat)
    ensures Canonical(Make(v, scale))
  {}

  /** Cutting the text apart gives what parsing it gives: the value it was made with, at its scale. */
  lemma ReadsAsParsed(v: int, scale: nat)
    ensures Canonical(Make(v, scale))
    ensures var n := AsNum(Make(v, scale));
      && n == Parsing.NumOf(v, scale) && Parsing.Parsed(Make(v, scale).value) == Some(n)
      && n.WellFormed() && n.Unscaled() == v && |n.frac| == scale
  {
    Parsing.TextReads(v, scale);
    Parsing.NumOfValue(v, scale);
    MakeCanonical(v, scale);
    NumOfSign(v, scale);
    hide Text, Parsing.NumOf, Parsing.Parsed;
    TextPieces(v, scale);
    var n := Parsing.NumOf(v, scale);
    assert WholeText(n.whole) == [48] <==> n.whole == [];
    assert scale == 0 ==> n.frac == [];
  }

  /** A canonical number is determined by the operand it reads as, which is what parsing its text gives. */
  lemma Reads(n: Number)
    requires Canonical(n)
    ensures var m := AsNum(n);
      && m.WellFormed() && |m.frac| == n.scale
      && n == Make(m.Unscaled(), n.scale) && Parsing.Parsed(n.value) == Some(m)
  {
    hide Text, Make, Parsing.NumOf, Parsing.Parsed, AsNum;
    var v := CanonicalPieces(n);
    ReadsAsParsed(v, n.scale);
  }

  /** No number shows "-0": its text starts with a minus sign only for negative values. */
  lemma NoNegativeZero(n: Number)
    requires Canonical(n)
    ensures |n.value| > 0 && (n.value[0] == 45 <==> AsNum(n).Unscaled() < 0)
  {
    hide Text, Parsing.NumOf, Parsing.Parsed;
    var v := CanonicalPieces(n);
    TextPieces(v, n.scale);
    ReadsAsParsed(v, n.scale);
  }

  // ----- making numbers

  /** The number as written, at the scale of its fraction. */
  method FromOperand(n: Num) returns (r: Number)
    requires n.WellFormed()
    ensures r == Make(n.Unscaled(), |n.frac|)
  {
    hide Text, AtScale, Be;
    var buf := new ByteVec();
    WriteNum(buf, n, |n.frac|);
    Dividing.SameScale(n.Unscaled(), |n.frac|);
    assert buf.bytes == Text(n.Unscaled(), |n.frac|);
    r := Number(buf.bytes, |n.frac|);
  }

  /** `new BcMath\Number(string)`. */
  method FromString(s: seq<byte>) returns (r: Option<Number>)
    ensures r == match Parsing.Parsed(s)
      case None => None
      case Some(n) => Some(Make(n.Unscaled(), |n.frac|))
  {
    hide Parsing.Parsed, Text;
    var n := Parsing.Parse(s);
    if n.None? {
      return None;
    }
    ParsedWellFormed(s);
    var number := FromOperand(n.value);
    r := Some(number);
  }

  function FormattedLen(whole: nat, scale: nat): nat {
    1 + (if whole > 1 then whole else 1) + (if scale > 0 then scale + 1 else 0)
  }

  /** The number `v / 10^s` shown at `scale`, refused when the scale or the length is too large. */
  function Formatted(v: int, s: nat, scale: nat, limit: nat): Result<Number, BcError> {
    PowPos(10, s);
    Dividing.QuotientNonneg(Abs(v), Pow(10, s));
    var len := FormattedLen(|DigitsOf(Abs(v) / Pow(10, s))|, scale);
    if scale > MAX_SCALE then Err(OutOfMemory(scale))
    else if len > limit then Err(OutOfMemory(len))
    else Ok(Make(AtScale(v, s, scale), scale))
  }

  lemma WholeIs(n: Num)
    requires n.WellFormed()
    ensures 0 < Pow(10, |n.frac|) && 0 <= Abs(n.Unscaled()) / Pow(10, |n.frac|)
    ensures n.whole == DigitsOf(Abs(n.Unscaled()) / Pow(10, |n.frac|))
  {
    hide Be, Pow;
    BeConcat(n.whole, n.frac, 10, 48);
    BeBound(n.frac, 10, 48);
    BeBound(n.whole + n.frac, 10, 48);
    DivModUnique(Dec(n.whole + n.frac), Pow(10, |n.frac|), Dec(n.whole), Dec(n.frac));
    CanonicalDigits(n.whole);
  }

  method FromNum(n: Num, scale: nat, limit: nat) returns (r: Result<Number, BcError>)
    requires n.WellFormed()
    ensures r == Formatted(n.Unscaled(), |n.frac|, scale, limit)
  {
    WholeIs(n);
    hide Text, AtScale, Be, DigitsOf, Pow;
    if scale > MAX_SCALE {
      return Err(OutOfMemory(scale));
    }
    var len := FormattedLen(|n.whole|, scale);
    if len > limit {
      return Err(OutOfMemory(len));
    }
    var buf := new ByteVec();
    WriteNum(buf, n, scale);
    assert buf.bytes == Text(AtScale(n.Unscaled(), |n.frac|, scale), scale);
    r := Ok(Number(buf.bytes, scale));
  }

  method FromExact(d: Exact, scale: nat, limit: nat) returns (r: Result<Number, BcError>)
    requires d.WellFormed()
    ensures r == Formatted(d.Unscaled(), d.scale, scale, limit)
  {
    ViewValue(d);
    hide Formatted;
    r := FromNum(d.View(), scale, limit);
  }

  // ----- dropping trailing zeros

  /** Drops zeros behind the value while its scale exceeds `min`. */
  function TrimDown(v: int, s: nat, min: nat): (int, nat)
    decreases s
  {
    if s > min && v % 10 == 0 then TrimDown(v / 10, s - 1, min) else (v, s)
  }

  /** The same number at the smallest scale from `min` on that holds it. */
  lemma {:induction false} TrimDownValue(v: int, s: nat, min: nat)
    requires min <= s
    ensures var (w, t) := TrimDown(v, s, min);
      min <= t <= s && v == w * Pow(10, s - t) && (t > min ==> w % 10 != 0)
    decreases s
  {
    if s > min && v % 10 == 0 {
      TrimDownValue(v / 10, s - 1, min);
      var (w, t) := TrimDown(v, s, min);
      PowStep(10, s - 1 - t);
      assert 10 * (w * Pow(10, s - 1 - t)) == w * (10 * Pow(10, s - 1 - t));
    } else {
      PowStep(10, 0);
    }
  }

  /** `trim_to`: pops zero digits of an owned result. */
  method TrimTo(d: Exact, min: nat) returns (r: Exact)
    requires d.WellFormed()
    ensures r.WellFormed() && (r.Unscaled(), r.scale) == TrimDown(d.Unscaled(), d.scale, min)
  {
    r := d;
    while r.scale > min && r.digits[|r.digits| - 1] == 48
      invariant r.WellFormed() && TrimDown(r.Unscaled(), r.scale, min) == TrimDown(d.Unscaled(), d.scale, min)
      decreases r.scale
    {
      LastDigit(r.neg, r.digits);
      r := Exact(r.neg, r.digits[..|r.digits| - 1], r.scale - 1);
    }
    if r.scale > min {
      LastDigit(r.neg, r.digits);
    }
  }

  lemma LastDigit(neg: bool, digits: seq<Digit>)
    requires |digits| > 0
    ensures Signed(neg, Dec(digits)) % 10 == 0 <==> digits[|digits| - 1] == 48
    ensures digits[|digits| - 1] == 48 ==> Signed(neg, Dec(digits)) / 10 == Signed(neg, Dec(digits[..|digits| - 1]))
  {
    var n := |digits| - 1;
    var h, l := Dec(digits[..n]), digits[n] as int - 48;
    BeLast(digits, 10, 48);
    TenTimes(neg, h, l);
  }

  lemma TenTimes(neg: bool, h: int, l: int)
    requires 0 <= l <= 9
    ensures Signed(neg, h * 10 + l) % 10 == 0 <==> l == 0
    ensures Signed(neg, h * 10) / 10 == Signed(neg, h)
  {}

  /** Canonical text without its last digit, point included when no fraction is left. */
  lemma PopDigit(v: int, s: nat)
    requires s > 0
    ensures var t := Text(v, s);
      && |t| > 0 && (t[|t| - 1] == 48 <==> v % 10 == 0)
      && (v % 10 == 0 ==> t[..|t| - 1] == if s == 1 then Text(v / 10, 0) + POINT else Text(v / 10, s - 1))
  {
    var n := Parsing.NumOf(v, s);
    LastPadded(v, s);
    Parsing.TextIs(v, s);
    if v % 10 == 0 {
      PoppedText(v, s);
    }
  }

  lemma PoppedText(v: int, s: nat)
    requires s > 0 && v % 10 == 0
    ensures var t := Text(v, s);
      |t| > 0 && t[..|t| - 1] == if s == 1 then Text(v / 10, 0) + POINT else Text(v / 10, s - 1)
  {
    hide *;
    var n := Parsing.NumOf(v, s);
    LastPadded(v, s);
    Parsing.TextIs(v, s);
    Parsing.TextIs(v / 10, s - 1);
    PoppedOperand(v, s);
    PopAssembled(n.neg, n.whole, n.frac);
  }

  lemma LastPadded(v: int, s: nat)
    requires s > 0
    ensures var n, t := Parsing.NumOf(v, s), Text(v, s);
      && |n.frac| == s && |t| > 0 && t[|t| - 1] == n.frac[s - 1]
      && (n.frac[s - 1] == 48 <==> v % 10 == 0)
  {
    Parsing.TextIs(v, s);
    Parsing.NumOfValue(v, s);
    var n := Parsing.NumOf(v, s);
    hide Parsing.NumOf, Text;
    var frac := FracText(n.frac);
    assert frac[|frac| - 1] == n.frac[s - 1];
    var digits := n.whole + n.frac;
    LastDigit(n.neg, digits);
    assert digits[|digits| - 1] == n.frac[s - 1];
  }

  /** Dividing by ten drops the last fraction digit. */
  lemma PoppedOperand(v: int, s: nat)
    requires s > 0 && v % 10 == 0
    ensures var n := Parsing.NumOf(v, s); Parsing.NumOf(v / 10, s - 1) == Num(n.neg, n.whole, n.frac[..s - 1])
  {
    PowPos(10, s);
    PowPos(10, s - 1);
    var m, p := Abs(v), Pow(10, s - 1);
    var k := m / 10;
    assert Abs(v / 10) == k && m == 10 * k;
    PowStep(10, s - 1);
    TenthQuotient(k, p);
    Dividing.QuotientNonneg(k, p);
    assert Padded(m % Pow(10, s), s)[..s - 1] == Padded(k % p, s - 1);
  }

  lemma TenthQuotient(k: int, p: int)
    requires 0 < p
    ensures 10 * k / (10 * p) == k / p && 10 * k % (10 * p) == 10 * (k % p)
  {
    DivModFact(k, p);
    var q, r := k / p, k % p;
    assert 10 * (q * p + r) == q * (10 * p) + 10 * r;
    DivModUnique(10 * k, 10 * p, q, 10 * r);
  }

  lemma PopAssembled(minus: bool, whole: seq<Digit>, frac: seq<Digit>)
    requires |frac| > 0
    ensures var t := Assemble(minus, whole, frac);
      t[..|t| - 1] == if |frac| == 1 then Assemble(minus, whole, []) + POINT
        else Assemble(minus, whole, frac[..|frac| - 1])
  {
    var t, head, n := Assemble(minus, whole, frac), SignText(minus) + WholeText(whole), |frac|;
    assert t == head + (POINT + frac);
    assert (POINT + frac)[..n] == POINT + frac[..n - 1];
    assert t[..|t| - 1] == head + (POINT + frac)[..n];
    assert head + [] == head;
  }

  /** `trimmed_from`: pops trailing zeros off formatted text, and the point with the last of them. */
  method TrimmedFrom(buf: ByteVec, scale: nat, min: nat, ghost v: int) returns (r: Number)
    requires buf.bytes == Text(v, scale)
    modifies buf
    ensures var (w, t) := TrimDown(v, scale, min); r == Make(w, t)
  {
    hide Text;
    var s: nat := scale;
    ghost var w := v;
    while s > min && |buf.bytes| > 0 && buf.bytes[|buf.bytes| - 1] == 48
      invariant buf.bytes == if s == 0 && scale > 0 then Text(w, 0) + POINT else Text(w, s)
      invariant s <= scale && TrimDown(w, s, min) == TrimDown(v, scale, min)
      decreases s
    {
      PopDigit(w, s);
      buf.Pop();
      s := s - 1;
      w := w / 10;
    }
    if s > min {
      PopDigit(w, s);
    }
    if s == 0 {
      DropPoint(buf, scale, w);
    }
    r := Number(buf.bytes, s);
  }

  method DropPoint(buf: ByteVec, scale: nat, ghost w: int)
    requires buf.bytes == if scale > 0 then Text(w, 0) + POINT else Text(w, 0)
    modifies buf
    ensures buf.bytes == Text(w, 0)
  {
    TextPieces(w, 0);
    LastIsDigit(w);
    hide Text;
    if |buf.bytes| > 0 && buf.bytes[|buf.bytes| - 1] == 46 {
      buf.Pop();
    }
  }

  lemma LastIsDigit(w: int)
    ensures var t := Text(w, 0); |t| > 0 && 48 <= t[|t| - 1] <= 57
  {
    TextPieces(w, 0);
    var n, t := Parsing.NumOf(w, 0), Text(w, 0);
    hide Text, Parsing.NumOf;
    var rest := if w < 0 then t[1..] else t;
    assert rest[|rest| - 1] == t[|t| - 1];
    assert rest[|rest| - 1] == WholeText(n.whole)[|rest| - 1];
  }
}
