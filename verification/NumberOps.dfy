/** The operations of `BcMath\Number`: scales, checks and results. */
module NumberOps {
  import opened Numerals
  import opened Words
  import opened Digits
  import opened Decimals
  import opened Buffers
  import opened Operands
  import opened Wrappers
  import opened Rounding
  import opened Functions
  import opened Numbers
  import Addition
  import Dividing
  import Parsing
  import Powers

  datatype NumberOp = Arith(op: BinOp) | Modulo

  function DefaultScale(op: BinOp, a: Num, b: Num): nat {
    if op == Mul then |a.frac| + |b.frac| else Addition.MaxLen(a.frac, b.frac)
  }

  // ----- remainders

  function RemainderScale(a: Num, b: Num): nat {
    Addition.MaxLen(a.Trimmed().frac, b.Trimmed().frac)
  }

  /** The remainder of truncated division, in units of `10^-RemainderScale`. */
  function Remainder(a: Num, b: Num): int
    requires b.Unscaled() != 0
  {
    RemainderDefined(a, b);
    Powers.TruncRem(Addition.At(a.Trimmed(), RemainderScale(a, b)), Addition.At(b.Trimmed(), RemainderScale(a, b)))
  }

  lemma RemainderDefined(a: Num, b: Num)
    requires b.Unscaled() != 0
    ensures |a.Trimmed().frac| <= RemainderScale(a, b) && |b.Trimmed().frac| <= RemainderScale(a, b)
    ensures Addition.At(b.Trimmed(), RemainderScale(a, b)) != 0
  {
    Dividing.TrimmedNonZero(b);
    var t, s := b.Trimmed(), RemainderScale(a, b);
    hide Pow, TrimZeros, Be;
    PowPos(10, s - |t.frac|);
    Dividing.NonZeroProduct(t.Unscaled(), Pow(10, s - |t.frac|));
  }

  /** The division law with its sign rule has one solution. */
  lemma QuotientUnique(x: int, y: int, q: int, r: int)
    requires y != 0 && x == q * y + r && Abs(r) < Abs(y) && (x >= 0 ==> r >= 0) && (x <= 0 ==> r <= 0)
    ensures q == Dividing.TruncQuot(x, y) && r == Powers.TruncRem(x, y)
  {
    Dividing.TruncQuotIff(x, y, q);
  }

  lemma SignKept(n: Num, s: nat)
    requires |n.Trimmed().frac| <= s
    ensures var x := Addition.At(n.Trimmed(), s);
      (n.Unscaled() >= 0 <==> x >= 0) && (n.Unscaled() <= 0 <==> x <= 0)
  {
    Dividing.TrimmedNonZero(n);
    var t := n.Trimmed();
    hide Pow, TrimZeros, Be, Signed;
    PowPos(10, s - |t.frac|);
    var u, p := t.Unscaled(), Pow(10, s - |t.frac|);
    if u > 0 {
      MulStrict(0, u, p);
    } else if u < 0 {
      MulStrict(u, 0, p);
    }
  }

  /** The common scale does not change the integer quotient. */
  lemma WholeQuotient(a: Num, b: Num)
    requires b.Unscaled() != 0
    ensures Addition.At(b.Trimmed(), RemainderScale(a, b)) != 0
    ensures var s := RemainderScale(a, b);
      Dividing.TruncQuot(Addition.At(a.Trimmed(), s), Addition.At(b.Trimmed(), s)) == Dividing.Quotient(a, b, 0)
  {
    RemainderDefined(a, b);
    Dividing.TrimmedNonZero(b);
    Dividing.TrimmedQuotient(a, b, 0);
    var x, y, s := a.Trimmed(), b.Trimmed(), RemainderScale(a, b);
    hide Pow, Num.Unscaled, Num.Trimmed, Dividing.TruncQuot, Addition.At;
    var c := |x.frac| + |y.frac| - s;
    PowPos(10, c);
    AtFiner(x, s, c);
    AtFiner(y, s, c);
    Dividing.TruncQuotScaled(Addition.At(x, s), Addition.At(y, s), Pow(10, c));
  }

  lemma AtFiner(n: Num, s: nat, c: nat)
    requires |n.frac| <= s
    ensures Addition.At(n, s) * Pow(10, c) == n.Unscaled() * Pow(10, s + c - |n.frac|)
  {
    hide Pow, Num.Unscaled;
    PowAdd(10, s - |n.frac|, c);
    var u, p, q := n.Unscaled(), Pow(10, s - |n.frac|), Pow(10, c);
    assert u * p * q == u * (p * q);
  }

  method QuotientRemainder(a: Num, b: Num) returns (q: Exact, r: Exact)
    requires a.WellFormed() && b.WellFormed() && b.Unscaled() != 0
    ensures q.WellFormed() && q.scale == 0 && q.Unscaled() == Dividing.Quotient(a, b, 0)
    ensures r.WellFormed() && r.scale == RemainderScale(a, b) && r.Unscaled() == Remainder(a, b)
  {
    hide Addition.At, Powers.TruncRem, Be, TrimZeros, Addition.MaxLen, Dividing.Quotient, Dividing.TruncQuot;
    q, r := Dividing.DivMod(a, b);
    RemainderDefined(a, b);
    WholeQuotient(a, b);
    var s := RemainderScale(a, b);
    SignKept(a, s);
    QuotientUnique(Addition.At(a.Trimmed(), s), Addition.At(b.Trimmed(), s), q.Unscaled(), r.Unscaled());
  }

  // ----- two-operand calculations

  /** The result of `a op b` with `BcMath\Number` scale rules. */
  function CalcSpec(op: NumberOp, a: Num, b: Num, scale: Option<nat>, limit: nat): Result<Number, BcError> {
    var zero := b.Unscaled() == 0;
    match op
    case Modulo =>
      if zero then Err(DivisionByZero)
      else
        var s := if scale.Some? then scale.value else Addition.MaxLen(a.frac, b.frac);
        Formatted(Remainder(a, b), RemainderScale(a, b), s, limit)
    case Arith(op) =>
      if op == Div && zero then Err(DivisionByZero)
      else if op == Div && scale.None? then
        var s := |a.frac| + EXPAND_SCALE;
        var refused := CheckLen(ResultBound(a, b, s), limit);
        if refused.Some? then Err(refused.value)
        else var (w, t) := TrimDown(ShownResult(Div, a, b, s), s, |a.frac|); Ok(Make(w, t))
      else
        var s := if scale.Some? then scale.value else DefaultScale(op, a, b);
        var refused := CheckLen(ResultBound(a, b, s), limit);
        if s > MAX_SCALE then Err(OutOfMemory(s))
        else if refused.Some? then Err(refused.value)
        else Ok(Make(ShownResult(op, a, b, s), s))
  }

  method CalcAt(op: BinOp, a: Num, b: Num, s: nat, limit: nat, estimate: u64) returns (r: Result<Number, BcError>)
    requires a.WellFormed() && b.WellFormed() && (op == Div ==> b.Unscaled() != 0)
    ensures r == if s > MAX_SCALE then Err(OutOfMemory(s))
      else if CheckLen(ResultBound(a, b, s), limit).Some? then Err(CheckLen(ResultBound(a, b, s), limit).value)
      else Ok(Make(ShownResult(op, a, b, s), s))
  {
    hide Text, ShownResult;
    if s > MAX_SCALE {
      return Err(OutOfMemory(s));
    }
    var buf := new ByteVec();
    var err := RunInto(buf, op, a, b, s, limit, estimate);
    if err.Some? {
      return Err(err.value);
    }
    assert buf.bytes == Text(ShownResult(op, a, b, s), s);
    r := Ok(Number(buf.bytes, s));
  }

  /** A default-scale quotient: ten more digits than the dividend, trailing zeros dropped again. */
  method ExpandedQuotient(a: Num, b: Num, limit: nat, estimate: u64) returns (r: Result<Number, BcError>)
    requires a.WellFormed() && b.WellFormed() && b.Unscaled() != 0
    ensures r == CalcSpec(Arith(Div), a, b, None, limit)
  {
    hide Text, ShownResult, TrimDown;
    var buf := new ByteVec();
    var s := |a.frac| + EXPAND_SCALE;
    var err := RunInto(buf, Div, a, b, s, limit, estimate);
    if err.Some? {
      return Err(err.value);
    }
    assert buf.bytes == Text(ShownResult(Div, a, b, s), s);
    var number := TrimmedFrom(buf, s, |a.frac|, ShownResult(Div, a, b, s));
    r := Ok(number);
  }

  method Calc(op: NumberOp, a: Num, b: Num, scale: Option<nat>, limit: nat, estimate: u64)
    returns (r: Result<Number, BcError>)
    requires a.WellFormed() && b.WellFormed()
    ensures r == CalcSpec(op, a, b, scale, limit)
  {
    hide Text, ShownResult, TrimDown, Formatted, Remainder, RemainderScale;
    ZeroNum(b);
    match op
    case Modulo =>
      if b.IsZero() {
        return Err(DivisionByZero);
      }
      var _, rem := QuotientRemainder(a, b);
      r := FromExact(rem, if scale.Some? then scale.value else Addition.MaxLen(a.frac, b.frac), limit);
    case Arith(op) =>
      if op == Div && b.IsZero() {
        return Err(DivisionByZero);
      }
      if op == Div && scale.None? {
        r := ExpandedQuotient(a, b, limit, estimate);
      } else {
        r := CalcAt(op, a, b, if scale.Some? then scale.value else DefaultScale(op, a, b), limit, estimate);
      }
  }

  /** Quotient and remainder as two numbers. */
  function DivModSpec(a: Num, b: Num, scale: Option<nat>, limit: nat): Result<(Number, Number), BcError> {
    if b.Unscaled() == 0 then Err(DivisionByZero)
    else
      var rs := if scale.Some? then scale.value else Addition.MaxLen(a.frac, b.frac);
      var q := Formatted(Dividing.Quotient(a, b, 0), 0, 0, limit);
      var r := Formatted(Remainder(a, b), RemainderScale(a, b), rs, limit);
      if q.Err? then Err(q.error) else if r.Err? then Err(r.error) else Ok((q.value, r.value))
  }

  method DivModNumbers(a: Num, b: Num, scale: Option<nat>, limit: nat) returns (r: Result<(Number, Number), BcError>)
    requires a.WellFormed() && b.WellFormed()
    ensures r == DivModSpec(a, b, scale, limit)
  {
    hide Formatted, Remainder, RemainderScale, Dividing.Quotient;
    ZeroNum(b);
    if b.IsZero() {
      return Err(DivisionByZero);
    }
    var q, m := QuotientRemainder(a, b);
    var rs := if scale.Some? then scale.value else Addition.MaxLen(a.frac, b.frac);
    var shownQ := FromExact(q, 0, limit);
    if shownQ.Err? {
      return Err(shownQ.error);
    }
    var shownR := FromExact(m, rs, limit);
    if shownR.Err? {
      return Err(shownR.error);
    }
    r := Ok((shownQ.value, shownR.value));
  }

  // ----- comparison

  /** `compare`: both numbers cut to the scale first when one is given. */
  function Comparison(a: Num, b: Num, scale: Option<nat>): Addition.Ordering {
    match scale
    case None => Addition.Cmp(a, b)
    case Some(s) => Addition.Cmp(a.Truncated(s), b.Truncated(s))
  }

  /** With a scale, it orders the values cut toward zero at that scale. */
  lemma ComparisonIsOrder(a: Num, b: Num, s: nat)
    requires a.WellFormed() && b.WellFormed()
    ensures Comparison(a, b, Some(s))
      == Addition.Compare(AtScale(a.Unscaled(), |a.frac|, s), AtScale(b.Unscaled(), |b.frac|, s))
  {
    var x, y := a.Truncated(s), b.Truncated(s);
    hide Pow, Be, AtScale, Addition.Cmp, Addition.At;
    var fl := Addition.MaxLen(x.frac, y.frac);
    Addition.CmpIsOrder(x, y);
    CutAt(a, s);
    CutAt(b, s);
    CommonScale(x, y, fl, s);
  }

  lemma CutAt(n: Num, s: nat)
    ensures |n.Truncated(s).frac| <= s && Addition.At(n.Truncated(s), s) == AtScale(n.Unscaled(), |n.frac|, s)
  {
    hide Pow, Be, AtScale, Addition.At;
    AtScaleDigits(n.neg, n.whole, n.frac, s);
    Addition.AtIsSigned(n.Truncated(s), s);
    assert Shown(n.Truncated(s).frac, s) == Shown(n.frac, s);
  }

  lemma CommonScale(x: Num, y: Num, fl: nat, s: nat)
    requires |x.frac| <= fl <= s && |y.frac| <= fl
    ensures Addition.Compare(Addition.At(x, fl), Addition.At(y, fl)) ==
      Addition.Compare(Addition.At(x, s), Addition.At(y, s))
  {
    hide Pow, Num.Unscaled;
    var c := Pow(10, s - fl);
    PowPos(10, s - fl);
    AtFiner(x, fl, s - fl);
    AtFiner(y, fl, s - fl);
    if Addition.At(x, fl) < Addition.At(y, fl) {
      MulStrict(Addition.At(x, fl), Addition.At(y, fl), c);
    } else if Addition.At(x, fl) > Addition.At(y, fl) {
      MulStrict(Addition.At(y, fl), Addition.At(x, fl), c);
    }
  }

  // ----- sign

  /** Unary minus. */
  method Negate(n: Number) returns (r: Number)
    requires Canonical(n)
    ensures r == Make(-AsNum(n).Unscaled(), n.scale)
  {
    hide *;
    Reads(n);
    var operand := AsNum(n);
    NegatedValue(operand);
    r := FromOperand(operand.Negated());
  }

  lemma NegatedValue(n: Num)
    ensures n.Negated().Unscaled() == -n.Unscaled() && (n.WellFormed() ==> n.Negated().WellFormed())
      && n.Negated().frac == n.frac
  {}

  // ----- integers as operands

  /** At least one digit, from the right. */
  method IntDigits(m: nat) returns (d: seq<Digit>)
    ensures d == WholeText(DigitsOf(m))
  {
    hide *;
    d := [48 + m % 10];
    var v: nat := m / 10;
    FirstDigit(m);
    while v > 0
      invariant |d| > 0 && v * Pow(10, |d|) + Dec(d) == m
      invariant v == 0 ==> d[0] != 48 || d == [48]
    {
      NextDigit(v, d, m);
      d := [48 + v % 10] + d;
      v := v / 10;
    }
    WholeDigits(d);
    assert v * Pow(10, |d|) == 0;
  }

  lemma FirstDigit(m: nat)
    ensures m / 10 * Pow(10, 1) + Dec([48 + m % 10]) == m
  {
    OneDigit(48 + m % 10);
    PowStep(10, 0);
  }

  /** An int operand: its digits with the sign in front, twenty bytes at most. */
  method IntText(i: int) returns (t: seq<byte>)
    requires -0x8000_0000_0000_0000 <= i < 0x8000_0000_0000_0000
    ensures t == Text(i, 0) && |t| <= 20
  {
    hide DigitsOf, Text, Pow, Be;
    var d := IntDigits(Abs(i));
    t := d;
    if i < 0 {
      t := MINUS + t;
    }
    TenPowers();
    DigitsLength(Abs(i), 19);
    IntTextIs(i, d, t);
  }

  lemma NextDigit(v: nat, d: seq<Digit>, m: int)
    requires v * Pow(10, |d|) + Dec(d) == m
    ensures v / 10 * Pow(10, |d| + 1) + Dec([48 + v % 10] + d) == m
  {
    hide Be, Pow;
    BeConcat([48 + v % 10], d, 10, 48);
    OneDigit(48 + v % 10);
    PowStep(10, |d|);
    Dividing.StepValue(v / 10, Pow(10, |d|), v % 10, v);
  }

  lemma WholeDigits(d: seq<Digit>)
    requires |d| > 0 && (d[0] != 48 || d == [48])
    ensures 0 <= Dec(d) && d == WholeText(DigitsOf(Dec(d)))
  {
    if d == [48] {
      OneDigit(48);
    } else {
      CanonicalDigits(d);
    }
  }

  lemma IntTextIs(i: int, d: seq<Digit>, t: seq<byte>)
    requires d == WholeText(DigitsOf(Abs(i))) && t == SignText(i < 0) + d
    ensures t == Text(i, 0)
  {
    PowStep(10, 0);
    DivModUnique(Abs(i), 1, Abs(i), 0);
    assert Padded(0, 0) == [];
    assert t + [] == t;
  }

  // ----- roots and rounding

  /** The square root cut to `scale` digits. */
  function Root(a: Num, scale: nat): int
    requires a.Unscaled() >= 0
  {
    PowPos(10, |a.frac|);
    PowPos(10, 2 * scale);
    MulNonneg(a.Unscaled(), Pow(10, 2 * scale));
    Dividing.QuotientNonneg(a.Unscaled() * Pow(10, 2 * scale), Pow(10, |a.frac|));
    Powers.Isqrt(a.Unscaled() * Pow(10, 2 * scale) / Pow(10, |a.frac|))
  }

  lemma RootIs(a: Num, scale: nat)
    requires a.Unscaled() >= 0
    ensures Powers.IsRoot(a.Unscaled(), |a.frac|, scale, Root(a, scale))
  {
    hide Pow, Be, Signed;
    PowPos(10, |a.frac|);
    PowPos(10, 2 * scale);
    var v, p := a.Unscaled() * Pow(10, 2 * scale), Pow(10, |a.frac|);
    MulNonneg(a.Unscaled(), Pow(10, 2 * scale));
    Dividing.QuotientNonneg(v, p);
    DivModFact(v, p);
    var w := v / p;
    assert (w + 1) * p == w * p + p;
    Powers.CutRoot(v, p, w, Powers.Isqrt(w));
  }

  function SqrtSpec(a: Num, scale: Option<nat>, limit: nat): Result<Number, BcError> {
    if a.Unscaled() < 0 then Err(NegativeRadicand)
    else match scale
      case Some(s) => Formatted(Root(a, s), s, s, limit)
      case None =>
        var s := |a.frac|;
        var (w, t) := TrimDown(Root(a, s + EXPAND_SCALE), s + EXPAND_SCALE, s);
        Formatted(w, t, t, limit)
  }

  method SqrtNumber(a: Num, scale: Option<nat>, limit: nat) returns (r: Result<Number, BcError>)
    requires a.WellFormed()
    ensures r == SqrtSpec(a, scale, limit)
  {
    hide Text, Formatted, Root, TrimDown, Be, Pow, Powers.IsRoot;
    ZeroNum(a);
    MagnitudeSign(a);
    if a.neg && !a.IsZero() {
      return Err(NegativeRadicand);
    }
    match scale
    case Some(s) =>
      var d := Powers.Sqrt(a, s);
      RootIs(a, s);
      Powers.RootUnique(a.Unscaled(), |a.frac|, s, d.Unscaled(), Root(a, s));
      r := FromExact(d, s, limit);
    case None =>
      var s := |a.frac|;
      var d := Powers.Sqrt(a, s + EXPAND_SCALE);
      RootIs(a, s + EXPAND_SCALE);
      Powers.RootUnique(a.Unscaled(), |a.frac|, s + EXPAND_SCALE, d.Unscaled(), Root(a, s + EXPAND_SCALE));
      d := TrimTo(d, s);
      r := FromExact(d, d.scale, limit);
  }

  /** The integer the mode selects. */
  ghost function RoundTo(mode: RoundingMode, n: int, d: int): (q: int)
    requires d > 0
    ensures IsRounded(mode, n, d, q)
  {
    RoundExists(mode, n, d);
    var q :| IsRounded(mode, n, d, q);
    q
  }

  lemma RoundExists(mode: RoundingMode, n: int, d: int)
    requires d > 0
    ensures exists q :: IsRounded(mode, n, d, q)
  {
    var k, rest := Abs(n) / d, Abs(n) % d;
    DivModFact(Abs(n), d);
    Dividing.QuotientNonneg(Abs(n), d);
    Decision(mode, n < 0, k, rest, d);
    assert n == Signed(n < 0, k * d + rest);
  }

  /** `n` rounded at `precision`, refused when the digits or the text would be too long. */
  ghost function RoundSpec(n: Num, precision: int, mode: RoundingMode, limit: nat): Result<Number, BcError> {
    PowPos(10, |n.frac| + Max0(-precision));
    var q := RoundTo(mode, Numerator(n, precision), Denominator(n, precision));
    if TooLong(n, precision, q, limit) then Err(OutOfMemory(Abs(precision)))
    else Formatted(q * Pow(10, Max0(-precision)), Max0(precision), Max0(precision), limit)
  }

  method RoundNumber(n: Num, precision: int, mode: RoundingMode, limit: nat) returns (r: Result<Number, BcError>)
    requires n.WellFormed()
    ensures r == RoundSpec(n, precision, mode, limit)
  {
    hide Formatted, IsRounded, Numerator, Denominator, Pow, Be, TooLong;
    var d := Round(n, precision, mode, limit);
    DenominatorPositive(n, precision);
    ghost var q :|
      IsRounded(mode, Numerator(n, precision), Denominator(n, precision), q) && Delivers(n, precision, q, limit, d);
    RoundedUnique(mode, Numerator(n, precision), Denominator(n, precision), q,
      RoundTo(mode, Numerator(n, precision), Denominator(n, precision)));
    if d.None? {
      return Err(OutOfMemory(Abs(precision)));
    }
    r := FromExact(d.value, Max0(precision), limit);
  }

  lemma DenominatorPositive(n: Num, precision: int)
    ensures 0 < Denominator(n, precision)
  {
    PowPos(10, |n.frac| + Max0(-precision));
  }
}
