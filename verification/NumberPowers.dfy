/** `pow` on operands: integral exponents, exact powers, truncated inverses, and the scale of the result. */
module NumberPowers {
  import opened Numerals
  import opened Words
  import opened Digits
  import opened Decimals
  import opened Operands
  import opened Wrappers
  import opened Rounding
  import opened Functions
  import opened Numbers
  import opened Shortcut
  import Addition
  import Dividing
  import Multiplying
  import Parsing
  import Powers

  const I64_MAX: int := 0x7FFF_FFFF_FFFF_FFFF
  const U64: int := 0x1_0000_0000_0000_0000

  // ----- exponents

  /** The integer part, when it fits 64 bits: checked multiplication and addition digit by digit. */
  method WholeU64(whole: seq<Digit>) returns (v: Option<int>)
    requires |whole| > 0 ==> whole[0] != 48
    ensures v == if Dec(whole) < U64 then Some(Dec(whole)) else None
  {
    hide Be, Pow;
    if |whole| > 20 {
      BeLower(whole, 10, 48);
      TenPowers();
      PowMono(10, 20, |whole| - 1);
      PowStep(10, 19);
      return None;
    }
    var n: int := 0;
    assert whole[..0] == [];
    DecNil();
    for i := 0 to |whole|
      invariant 0 <= n == Dec(whole[..i]) < U64
    {
      assert whole[..i + 1] == whole[..i] + [whole[i]];
      BeSnoc(whole[..i], whole[i], 10, 48);
      PrefixBelow(whole, i + 1);
      var t := n * 10 + (whole[i] as int - 48);
      if n * 10 >= U64 || t >= U64 {
        return None;
      }
      n := t;
    }
    assert whole[..|whole|] == whole;
    v := Some(n);
  }

  lemma PrefixBelow(s: seq<Digit>, i: nat)
    requires i <= |s|
    ensures 0 <= Dec(s[..i]) <= Dec(s)
  {
    hide Be, Pow;
    BeSplit(s, i, 10, 48);
    BeBound(s[..i], 10, 48);
    BeBound(s[i..], 10, 48);
    PowPos(10, |s| - i);
    MulMono(1, Pow(10, |s| - i), Dec(s[..i]));
  }

  /** The number without its fraction digits. */
  function WholePart(n: Num): int { Signed(n.neg, Dec(n.whole)) }

  lemma WholePartValue(n: Num)
    requires !n.HasFraction()
    ensures n.Unscaled() == WholePart(n) * Pow(10, |n.frac|) && 0 <= Dec(n.whole)
    ensures n.Unscaled() == 0 <==> WholePart(n) == 0
    ensures n.Unscaled() < 0 <==> WholePart(n) < 0
  {
    hide Be, Pow;
    BeBound(n.whole, 10, 48);
    BeConcat(n.whole, n.frac, 10, 48);
    ZeroDigits(n.frac);
    SignedTimes(n.neg, Dec(n.whole), Pow(10, |n.frac|));
    PowPos(10, |n.frac|);
    MulSign(WholePart(n), Pow(10, |n.frac|));
  }

  lemma MulSign(x: int, p: int)
    requires 0 < p
    ensures (x * p == 0 <==> x == 0) && (x * p < 0 <==> x < 0)
  {
    if x < 0 {
      MulStrict(x, 0, p);
    } else if x > 0 {
      MulStrict(0, x, p);
    }
  }

  function ExponentOf(e: Num): Result<int, BcError> {
    if e.HasFraction() then Err(FractionalExponent)
    else if Dec(e.whole) > I64_MAX then Err(ExponentTooLarge)
    else Ok(WholePart(e))
  }

  method Exponent(e: Num) returns (r: Result<int, BcError>)
    requires e.WellFormed()
    ensures r == ExponentOf(e)
  {
    hide Be;
    if e.HasFraction() {
      return Err(FractionalExponent);
    }
    var v := WholeU64(e.whole);
    r := if v.Some? && v.value <= I64_MAX then Ok(Signed(e.neg, v.value)) else Err(ExponentTooLarge);
  }

  /** An accepted exponent is the number the operand denotes. */
  lemma ExponentValue(e: Num)
    requires ExponentOf(e).Ok?
    ensures e.Unscaled() == ExponentOf(e).value * Pow(10, |e.frac|) && -I64_MAX <= ExponentOf(e).value <= I64_MAX
  {
    hide Be, Pow;
    WholePartValue(e);
  }

  // ----- powers and inverse powers

  /** `d` is `base^e`: exact for `e >= 0`, truncated at `negScale` otherwise; or zero after the shortcut. */
  ghost predicate IsPower(base: Num, e: int, negScale: nat, shortcut: bool, d: Exact)
    requires e < 0 ==> base.Unscaled() != 0
  {
    && d.WellFormed()
    && (shortcut ==> d.Unscaled() == 0 && d.scale == 0)
    && (!shortcut && e >= 0 ==> (
      MulNonneg(|base.frac|, e);
      d.scale <= |base.frac| * e && Pow(base.Unscaled(), e) == d.Unscaled() * Pow(10, |base.frac| * e - d.scale)))
    && (!shortcut && e < 0 ==> AtScale(d.Unscaled(), d.scale, negScale) == Inverse(base, -e, negScale))
    && (!shortcut && e < 0 ==> d.scale == if IsUnit(base.Trimmed()) then 0 else negScale)
  }

  lemma UnitPower(base: Num, m: nat)
    requires IsUnit(base.Trimmed())
    ensures base.Unscaled() == Signed(base.neg, Pow(10, |base.frac|))
    ensures 0 <= |base.frac| * m && Pow(base.Unscaled(), m) == Signed(base.neg && m % 2 == 1, Pow(10, |base.frac| * m))
  {
    var t := base.Trimmed();
    assert t.whole + t.frac == [49];
    OneDigit(49);
    hide Be, Pow, TrimZeros;
    TrimmedSame(base);
    SignedTimes(base.neg, 1, Pow(10, |base.frac|));
    Powers.PowSigned(base.neg, Pow(10, |base.frac|), m);
    PowMul(10, |base.frac|, m);
  }

  lemma UnitInverse(base: Num, m: nat, scale: nat)
    requires IsUnit(base.Trimmed()) && base.Unscaled() != 0
    ensures Inverse(base, m, scale) == Signed(base.neg && m % 2 == 1, Pow(10, scale))
  {
    hide Pow, TrimZeros, Be;
    UnitPower(base, m);
    PowAdd(10, |base.frac| * m, scale);
    PowPos(10, |base.frac| * m);
    PowPos(10, scale);
    UnitQuotient(Pow(10, |base.frac| * m), Pow(10, scale), base.neg && m % 2 == 1);
  }

  lemma UnitQuotient(p: int, q: int, neg: bool)
    requires 0 < p && 0 < q
    ensures Signed(neg, p) != 0 && Dividing.TruncQuot(p * q, Signed(neg, p)) == Signed(neg, q)
  {
    MulStrict(0, p, q);
    DivModUnique(p * q, p, q, 0);
  }

  /** A whole number shown at a scale. */
  lemma WholeShown(v: int, scale: nat)
    ensures AtScale(v, 0, scale) == v * Pow(10, scale)
  {
    PowStep(10, 0);
  }

  lemma UnitIsPower(base: Num, e: int, negScale: nat, d: Exact)
    requires IsUnit(base.Trimmed()) && base.Unscaled() != 0
    requires d.WellFormed() && d.scale == 0 && d.Unscaled() == Signed(base.neg && Abs(e) % 2 == 1, 1)
    ensures IsPower(base, e, negScale, false, d)
  {
    hide Pow, TrimZeros, Be, AtScale, Inverse;
    UnitPower(base, Abs(e));
    UnitInverse(base, Abs(e), negScale);
    WholeShown(d.Unscaled(), negScale);
    SignedTimes(base.neg && Abs(e) % 2 == 1, 1, Pow(10, negScale));
    SignedTimes(base.neg && Abs(e) % 2 == 1, 1, Pow(10, |base.frac| * Abs(e)));
  }

  lemma ExactIsPower(base: Num, e: nat, negScale: nat, d: Exact)
    requires var t := base.Trimmed();
      0 <= |t.frac| * e && d.WellFormed() && d.scale == |t.frac| * e && d.Unscaled() == Pow(t.Unscaled(), e)
    ensures IsPower(base, e, negScale, false, d)
  {
    hide Pow, TrimZeros, Be;
    Powers.TrimmedPower(base, e);
    MulNonneg(|base.frac|, e);
    var i, j := |base.frac|, |base.Trimmed().frac|;
    assert i * e - j * e == (i - j) * e;
  }

  const ONE: Num := Num(false, [49], [])

  lemma OneIs()
    ensures ONE.WellFormed() && ONE.Unscaled() == 1 && |ONE.frac| == 0
  {
    OneDigit(49);
    assert ONE.whole + ONE.frac == [49];
  }

  /** One over the trimmed operand's power is one over the operand's power. */
  lemma InverseOfTrimmed(base: Num, m: nat, scale: nat)
    requires base.Unscaled() != 0
    ensures base.Trimmed().Unscaled() != 0 && Inverse(base.Trimmed(), m, scale) == Inverse(base, m, scale)
  {
    var t, k := base.Trimmed(), |base.frac| - |base.Trimmed().frac|;
    Dividing.TrimmedNonZero(base);
    hide Pow, TrimZeros, Be, Dividing.TruncQuot, Signed;
    TrimmedSame(base);
    Powers.TrimmedPower(base, m);
    MulNonneg(|t.frac|, m);
    MulNonneg(|base.frac|, m);
    PowNonZero(t.Unscaled(), m);
    assert |base.frac| * m == |t.frac| * m + k * m;
    PowAdd(10, |t.frac| * m + scale, k * m);
    PowPos(10, k * m);
    Dividing.TruncQuotScaled(Pow(10, |t.frac| * m + scale), Pow(t.Unscaled(), m), Pow(10, k * m));
  }

  lemma QuotientIsInverse(t: Num, m: nat, p: Num, scale: nat)
    requires t.Unscaled() != 0 && 0 <= |t.frac| * m && |p.frac| == |t.frac| * m && p.Unscaled() == Pow(t.Unscaled(), m)
    ensures p.Unscaled() != 0 && Dividing.Quotient(ONE, p, scale) == Inverse(t, m, scale)
  {
    hide Pow, Be, Dividing.TruncQuot, Signed;
    OneIs();
    PowStep(10, 0);
    PowNonZero(t.Unscaled(), m);
    assert 1 * Pow(10, |p.frac| + scale) == Pow(10, |p.frac| + scale);
  }

  /** The inverse of an exact power. */
  method InversePower(base: Num, m: nat, negScale: nat) returns (d: Exact)
    requires base.WellFormed() && base.Unscaled() != 0 && m >= 1
    ensures d.WellFormed() && d.scale == negScale && d.Unscaled() == Inverse(base, m, negScale)
  {
    hide *;
    var p := Powers.PowExact(base, m);
    ViewValue(p);
    OneIs();
    InverseOfTrimmed(base, m, negScale);
    QuotientIsInverse(base.Trimmed(), m, p.View(), negScale);
    d := Dividing.Div(ONE, p.View(), negScale);
  }

  /** The length check, which only a power that has to be computed reaches. */
  function PowRefused(base: Num, e: int, negScale: nat, truncScale: Option<nat>, logs: LogBounds, limit: nat)
    : Option<BcError>
  {
    if
      || base.Unscaled() == 0 || e == 0 || IsUnit(base.Trimmed())
      || ShortcutFires(base, e, negScale, truncScale, logs)
    then None
    else CheckLen(Powers.PowLenEstimate(base, Abs(e)), limit)
  }

  /** `base^e`; `logs` stands for the floating-point logarithm bounds. */
  method Power(base: Num, e: int, negScale: nat, truncScale: Option<nat>, logs: LogBounds, limit: nat)
    returns (r: Result<Option<Exact>, BcError>)
    requires base.WellFormed()
    ensures var refused := PowRefused(base, e, negScale, truncScale, logs, limit);
      if refused.Some? then r == Err(refused.value) else r.Ok?
    ensures r.Ok? ==> (r.value.None? <==> base.Unscaled() == 0 && e < 0)
    ensures r.Ok? && r.value.Some? ==>
      IsPower(base, e, negScale, ShortcutFires(base, e, negScale, truncScale, logs), r.value.value)
  {
    hide *;
    var b := base.Trimmed();
    Multiplying.TrimmedWellFormed(base);
    ZeroNum(b);
    Dividing.TrimmedNonZero(base);
    RefusedWhen(base, e, negScale, truncScale, logs, limit);
    if b.IsZero() {
      var z := ZeroPower(base, e, negScale);
      return Ok(z);
    }
    var mag := Abs(e);
    if e == 0 {
      var one := PowerZero(base, negScale);
      return Ok(Some(one));
    }
    if IsUnit(b) {
      var unit := UnitResult(base, e, negScale);
      return Ok(Some(unit));
    }
    if Fires(e, negScale, truncScale, logs) {
      var z := FromDigits(false, [], 0);
      ZeroShown(base, e, negScale, z);
      return Ok(Some(z));
    }
    var refused := CheckLen(Powers.PowLenEstimate(base, mag), limit);
    if refused.Some? {
      return Err(refused.value);
    }
    var d := GeneralPower(base, e, mag, negScale);
    r := Ok(Some(d));
  }

  lemma RefusedWhen(base: Num, e: int, negScale: nat, truncScale: Option<nat>, logs: LogBounds, limit: nat)
    ensures var fires := ShortcutFires(base, e, negScale, truncScale, logs);
      && (fires <==> base.Unscaled() != 0 && !IsUnit(base.Trimmed()) && Fires(e, negScale, truncScale, logs))
      && (fires ==> e != 0)
      && PowRefused(base, e, negScale, truncScale, logs, limit)
        == (if base.Unscaled() == 0 || e == 0 || IsUnit(base.Trimmed()) || fires then None
            else CheckLen(Powers.PowLenEstimate(base, Abs(e)), limit))
  {
    hide Num.Unscaled, Num.Trimmed, IsUnit;
  }

  lemma ZeroShown(base: Num, e: int, negScale: nat, z: Exact)
    requires z == FromDigits(false, [], 0) && base.Unscaled() != 0
    ensures IsPower(base, e, negScale, true, z)
  {
    DecNil();
  }

  method ZeroPower(base: Num, e: int, negScale: nat) returns (z: Option<Exact>)
    requires base.Unscaled() == 0
    ensures z.None? <==> e < 0
    ensures z.Some? ==> IsPower(base, e, negScale, false, z.value)
  {
    hide Be, Pow;
    DecNil();
    OneDigit(49);
    PowStep(10, 0);
    if e < 0 {
      z := None;
    } else if e == 0 {
      PowStep(base.Unscaled(), 0);
      z := Some(FromDigits(false, [49], 0));
    } else {
      PowStep(base.Unscaled(), e - 1);
      MulNonneg(|base.frac|, e);
      z := Some(FromDigits(false, [], 0));
    }
  }

  method PowerZero(base: Num, negScale: nat) returns (d: Exact)
    ensures IsPower(base, 0, negScale, false, d)
  {
    hide Be, Pow;
    OneDigit(49);
    PowStep(10, 0);
    PowStep(base.Unscaled(), 0);
    d := FromDigits(false, [49], 0);
  }

  method UnitResult(base: Num, e: int, negScale: nat) returns (d: Exact)
    requires IsUnit(base.Trimmed()) && base.Unscaled() != 0
    ensures IsPower(base, e, negScale, false, d)
  {
    var b := base.Trimmed();
    hide Be, Pow, TrimZeros, IsPower, IsUnit;
    OneDigit(49);
    d := FromDigits(b.neg && Abs(e) % 2 == 1, [49], 0);
    UnitIsPower(base, e, negScale, d);
  }

  method GeneralPower(base: Num, e: int, mag: nat, negScale: nat) returns (d: Exact)
    requires base.WellFormed() && base.Unscaled() != 0 && !IsUnit(base.Trimmed()) && e != 0 && mag == Abs(e)
    ensures IsPower(base, e, negScale, false, d)
  {
    hide Be, Pow, TrimZeros, Inverse, IsUnit, AtScale, Signed;
    if e > 0 {
      d := Powers.PowExact(base, mag);
      ExactIsPower(base, mag, negScale, d);
    } else {
      d := InversePower(base, mag, negScale);
      Dividing.SameScale(d.Unscaled(), negScale);
    }
  }

  // ----- Number::pow

  function NegScale(a: Num, scale: Option<nat>): nat {
    if scale.Some? then scale.value else |a.frac| + EXPAND_SCALE
  }

  /** The result of `a^e` with `BcMath\Number` scale rules. */
  function PowSpec(a: Num, e: int, scale: Option<nat>, logs: LogBounds, limit: nat): Result<Number, BcError> {
    var n := NegScale(a, scale);
    var refused, fires := PowRefused(a, e, n, scale, logs, limit), ShortcutFires(a, e, n, scale, logs);
    if e < 0 && a.Unscaled() == 0 then Err(DivisionByZero)
    else if refused.Some? then Err(refused.value)
    else if scale.Some? then
      if fires then Formatted(0, 0, n, limit)
      else if e >= 0 then MulNonneg(|a.frac|, e); Formatted(Pow(a.Unscaled(), e), |a.frac| * e, n, limit)
      else Formatted(Inverse(a, -e, n), n, n, limit)
    else if e >= 0 then
      MulNonneg(|a.frac|, e);
      var s := |a.frac| * e;
      if s > MAX_SCALE then Err(OutOfMemory(USIZE_MAX)) else Formatted(Pow(a.Unscaled(), e), s, s, limit)
    else if fires then Formatted(0, 0, 0, limit)
    else if IsUnit(a.Trimmed()) then Formatted(Signed(a.neg && e % 2 != 0, 1), 0, 0, limit)
    else var (w, t) := TrimDown(Inverse(a, -e, n), n, |a.frac|); Formatted(w, t, t, limit)
  }

  /** `pow` with `BcMath\Number` scale rules. */
  method PowImpl(a: Num, e: int, scale: Option<nat>, logs: LogBounds, limit: nat) returns (r: Result<Number, BcError>)
    requires a.WellFormed()
    ensures r == PowSpec(a, e, scale, logs, limit)
  {
    hide *;
    var negScale := if scale.Some? then scale.value else |a.frac| + EXPAND_SCALE;
    NegScaleIs(a, scale);
    ghost var fires := ShortcutFires(a, e, negScale, scale, logs);
    var p := Power(a, e, negScale, scale, logs, limit);
    SpecErrors(a, e, scale, logs, limit);
    match p
    case Err(error) => r := Err(error);
    case Ok(None) => r := Err(DivisionByZero);
    case Ok(Some(d)) => r := ShowPower(a, e, scale, negScale, logs, d, limit);
  }

  lemma NegScaleIs(a: Num, scale: Option<nat>)
    ensures NegScale(a, scale) == if scale.Some? then scale.value else |a.frac| + EXPAND_SCALE
  {}

  lemma SpecErrors(a: Num, e: int, scale: Option<nat>, logs: LogBounds, limit: nat)
    ensures var refused := PowRefused(a, e, NegScale(a, scale), scale, logs, limit);
      && (e < 0 && a.Unscaled() == 0 ==> refused.None? && PowSpec(a, e, scale, logs, limit) == Err(DivisionByZero))
      && (refused.Some? ==> PowSpec(a, e, scale, logs, limit) == Err(refused.value))
  {
    hide Num.Unscaled, Num.Trimmed, IsUnit, Formatted, Inverse, TrimDown, Pow, Text;
  }

  method ShowPower(a: Num, e: int, scale: Option<nat>, negScale: nat, ghost logs: LogBounds, d0: Exact, limit: nat)
    returns (r: Result<Number, BcError>)
    requires e < 0 ==> a.Unscaled() != 0
    requires negScale == NegScale(a, scale) && PowRefused(a, e, negScale, scale, logs, limit).None?
    requires IsPower(a, e, negScale, ShortcutFires(a, e, negScale, scale, logs), d0)
    ensures r == PowSpec(a, e, scale, logs, limit)
  {
    hide Be, Pow, Text, TrimZeros, Inverse, AtScale, DigitsOf, TrimDown, Signed, Formatted, Fires, PowRefused, IsUnit;
    var d := d0;
    ghost var fires := ShortcutFires(a, e, negScale, scale, logs);
    if scale.Some? {
      r := FromExact(d, scale.value, limit);
      PowerFormatted(a, e, negScale, fires, d, scale.value, limit);
    } else if e >= 0 {
      MulNonneg(|a.frac|, e);
      var s := |a.frac| * e;
      if s > MAX_SCALE {
        NoShortcut(a, e, negScale, logs);
        return Err(OutOfMemory(USIZE_MAX));
      }
      r := FromExact(d, s, limit);
      NoShortcut(a, e, negScale, logs);
      PowerFormatted(a, e, negScale, fires, d, s, limit);
    } else {
      d := TrimTo(d, |a.frac|);
      r := FromExact(d, d.scale, limit);
      NegativeShown(a, e, negScale, fires, d0);
    }
  }

  /** Without a scale the test is not made for positive exponents. */
  lemma NoShortcut(a: Num, e: int, negScale: nat, logs: LogBounds)
    requires e >= 0
    ensures !ShortcutFires(a, e, negScale, None, logs)
  {}

  /** The same value, held with more fraction digits, is shown in the same way. */
  lemma FormattedFiner(v: int, s: nat, k: nat, scale: nat, limit: nat)
    ensures Formatted(v * Pow(10, k), s + k, scale, limit) == Formatted(v, s, scale, limit)
  {
    hide Pow, AtScale, DigitsOf, Text;
    AtScaleFiner(v, s, k, scale);
    PowPos(10, s);
    PowPos(10, k);
    PowAdd(10, s, k);
    Dividing.QuotientScaled(Abs(v), Pow(10, s), Pow(10, k));
    AbsTimes(v, Pow(10, k));
  }

  lemma AbsTimes(v: int, c: int)
    requires 0 < c
    ensures Abs(v * c) == Abs(v) * c
  {
    assert (-v) * c == -(v * c);
    MulMono(0, Abs(v), c);
  }

  lemma PowerFormatted(a: Num, e: int, negScale: nat, fires: bool, d: Exact, scale: nat, limit: nat)
    requires e < 0 ==> a.Unscaled() != 0
    requires IsPower(a, e, negScale, fires, d)
    ensures var shown := Formatted(d.Unscaled(), d.scale, scale, limit);
      && (fires ==> shown == Formatted(0, 0, scale, limit))
      && (!fires && e >= 0 ==>
        0 <= |a.frac| * e && shown == Formatted(Pow(a.Unscaled(), e), |a.frac| * e, scale, limit))
      && (!fires && e < 0 ==> shown == Formatted(Inverse(a, -e, negScale), negScale, scale, limit))
  {
    hide Pow, AtScale, TrimZeros, Be, Signed, Formatted, Inverse, IsUnit;
    if !fires && e >= 0 {
      MulNonneg(|a.frac|, e);
      FormattedFiner(d.Unscaled(), d.scale, |a.frac| * e - d.scale, scale, limit);
    } else if !fires && IsUnit(a.Trimmed()) {
      WholeShown(d.Unscaled(), negScale);
      FormattedFiner(d.Unscaled(), 0, negScale, scale, limit);
    } else if !fires {
      Dividing.SameScale(d.Unscaled(), negScale);
    }
  }

  lemma NegativeShown(a: Num, e: int, negScale: nat, zeroed: bool, d: Exact)
    requires e < 0 && a.Unscaled() != 0 && IsPower(a, e, negScale, zeroed, d)
    ensures !zeroed && !IsUnit(a.Trimmed()) ==> d.Unscaled() == Inverse(a, -e, negScale)
    ensures !zeroed && IsUnit(a.Trimmed()) ==> d.Unscaled() == Signed(a.neg && e % 2 != 0, 1)
    ensures d.scale <= |a.frac| ==> TrimDown(d.Unscaled(), d.scale, |a.frac|) == (d.Unscaled(), d.scale)
  {
    hide Pow, AtScale, TrimZeros, Be, Inverse;
    Dividing.SameScale(d.Unscaled(), d.scale);
    if !zeroed && IsUnit(a.Trimmed()) {
      UnitInverse(a, -e, negScale);
      WholeShown(d.Unscaled(), negScale);
      PowPos(10, negScale);
      UnitCancels(d.Unscaled(), a.neg && (-e) % 2 == 1, Pow(10, negScale));
    }
  }

  lemma UnitCancels(v: int, neg: bool, p: int)
    requires 0 < p && v * p == Signed(neg, p)
    ensures v == Signed(neg, 1)
  {
    var u := Signed(neg, 1);
    assert u * p == Signed(neg, p);
    if v < u {
      MulStrict(v, u, p);
    } else if v > u {
      MulStrict(u, v, p);
    }
  }

  // ----- what is shown

  /** An explicit scale: whatever is not refused is the power cut to it, when the logarithm is accurate enough. */
  lemma ExplicitPower(a: Num, e: int, s: nat, logs: LogBounds, eps: real, limit: nat)
    requires e < 0 ==> a.Unscaled() != 0
    requires Within(a, logs, eps) && Abs(e) as real * eps <= 2.0
    ensures var r := PowSpec(a, e, Some(s), logs, limit);
      r.Ok? ==>
        && (e >= 0 ==> (
          MulNonneg(|a.frac|, e);
          r.value == Make(AtScale(Pow(a.Unscaled(), e), |a.frac| * e, s), s)))
        && (e < 0 ==> r.value == Make(Inverse(a, -e, s), s))
  {
    hide Pow, AtScale, TrimZeros, Be, Inverse, IsUnit, Text, DigitsOf, Num.Unscaled, Num.Trimmed, PowRefused, Within,
      ShortcutFires;
    if ShortcutFires(a, e, s, Some(s), logs) {
      ShortcutSound(a, e, s, Some(s), logs, eps);
    }
    ZeroStays(s);
    if e < 0 {
      Dividing.SameScale(Inverse(a, -e, s), s);
    }
  }

  lemma ZeroStays(scale: nat)
    ensures AtScale(0, 0, scale) == 0
  {
    PowStep(10, 0);
  }

  /**
   * Without a scale, the result of a negative power keeps at least the base's scale and adds at most ten digits,
   * unless the base is a unit with fraction digits or the shortcut fires for a base with fraction digits.
   */
  lemma PowScale(a: Num, e: int, logs: LogBounds, limit: nat)
    requires e < 0 && PowSpec(a, e, None, logs, limit).Ok?
    ensures var n := PowSpec(a, e, None, logs, limit).value;
      |a.frac| <= n.scale <= |a.frac| + EXPAND_SCALE
      <==> |a.frac| == 0 || (!IsUnit(a.Trimmed()) && !ShortcutFires(a, e, |a.frac| + EXPAND_SCALE, None, logs))
  {
    hide Pow, AtScale, TrimZeros, Be, Inverse, IsUnit, Text, DigitsOf, Num.Unscaled, Num.Trimmed, PowRefused,
      ShortcutFires, TrimDown;
    if a.Unscaled() != 0 {
      TrimDownValue(Inverse(a, -e, |a.frac| + EXPAND_SCALE), |a.frac| + EXPAND_SCALE, |a.frac|);
    }
  }

  lemma OneDigitShown(v: int, limit: nat)
    requires 0 <= v <= 9 && limit >= 2
    ensures Formatted(v, 0, 0, limit) == Ok(Make(v, 0))
  {
    hide Text, AtScale, DigitsOf;
    PowStep(10, 0);
    DivModUnique(v, 1, v, 0);
    DigitsLength(v, 1);
    assert Pow(10, 1) == 10 by { PowStep(10, 0); }
    Dividing.SameScale(v, 0);
  }

  /** What a wrong shortcut shows: "0" for a power that is not zero at the expanded scale. */
  lemma PowWrong(e: int, limit: nat)
    requires e == -7_600_000_000_000_000 && limit >= 2
    ensures var logs := LogBounds(4.0 * HALF_ULP, 4.0 * HALF_ULP);
      && NEARLY.WellFormed() && Within(NEARLY, logs, HALF_ULP)
      && NEARLY.Unscaled() != 0 && Inverse(NEARLY, -e, |NEARLY.frac| + EXPAND_SCALE) != 0
      && PowSpec(NEARLY, e, None, logs, limit) == Ok(Make(0, 0))
  {
    var logs := LogBounds(4.0 * HALF_ULP, 4.0 * HALF_ULP);
    ShortcutWrong(e);
    OneDigitShown(0, limit);
    RefusedWhen(NEARLY, e, |NEARLY.frac| + EXPAND_SCALE, None, logs, limit);
    hide Text, Formatted, Num.Unscaled, Num.Trimmed, Inverse, ShortcutFires, Within, PowRefused, IsUnit;
  }

  lemma TwoZeros(d: Digit)
    requires d != 48
    ensures var a := Num(false, [d], [48, 48]);
      a.WellFormed() && a.Unscaled() == 100 * (d - 48) && a.Trimmed() == Num(false, [d], [])
  {
    var a := Num(false, [d], [48, 48]);
    assert a.frac[..1] == [48] && a.frac[..1][..0] == [];
    assert TrimZeros(a.frac) == [];
    assert a.whole + a.frac == ([d] + [48]) + [48];
    BeSnoc([d] + [48], 48, 10, 48);
    BeSnoc([d], 48, 10, 48);
    OneDigit(d);
  }

  /** "1.00" to the power -1 is shown as "1", although its base has scale 2. */
  lemma UnitLosesScale(logs: LogBounds, limit: nat)
    requires limit >= 2
    ensures var a := Num(false, [49], [48, 48]);
      a.WellFormed() && a.Unscaled() == 100 && PowSpec(a, -1, None, logs, limit) == Ok(Make(1, 0))
  {
    var a := Num(false, [49], [48, 48]);
    TwoZeros(49);
    OneDigitShown(1, limit);
    hide Text, Formatted, Num.Unscaled, Num.Trimmed, Inverse;
  }

  /** "2.00" to the power -100 is shown as "0", although its base has scale 2. */
  lemma ShortcutLosesScale(logs: LogBounds, limit: nat)
    requires limit >= 2 && logs.lo >= 0.3
    ensures var a := Num(false, [50], [48, 48]);
      a.WellFormed() && a.Unscaled() == 200 && PowSpec(a, -100, None, logs, limit) == Ok(Make(0, 0))
  {
    var a := Num(false, [50], [48, 48]);
    TwoZeros(50);
    OneDigitShown(0, limit);
    hide Text, Formatted, Num.Unscaled, Num.Trimmed, Inverse;
  }

  // ----- modular powers

  /** `base^exp` modulo `modulus`: the checks in their order, then the truncated remainder. */
  function PowModSpec(base: Num, exp: Num, modulus: Num, scale: Option<nat>, limit: nat): Result<Number, BcError> {
    if base.HasFraction() then Err(FractionalBase)
    else if exp.HasFraction() then Err(FractionalExponent)
    else if exp.Unscaled() < 0 then Err(NegativeExponent)
    else if modulus.HasFraction() then Err(FractionalModulus)
    else if modulus.Unscaled() == 0 then Err(DivisionByZero)
    else
      WholePartValue(exp);
      WholePartValue(modulus);
      var r := Powers.TruncRem(Pow(WholePart(base), WholePart(exp)), WholePart(modulus));
      Formatted(r, 0, if scale.Some? then scale.value else 0, limit)
  }

  /** A truncated remainder does not depend on the divisor's sign. */
  lemma RemSign(n: int, d: int)
    requires d != 0
    ensures Powers.TruncRem(n, -d) == Powers.TruncRem(n, d)
  {
    hide Dividing.TruncQuot, Dividing.IsTruncated;
    var q := Dividing.TruncQuot(n, d);
    BothNegated(n, d, q);
    Dividing.TruncQuotIff(n, d, q);
    Dividing.TruncQuotIff(n, -d, -q);
  }

  lemma BothNegated(n: int, d: int, q: int)
    ensures (-q) * -d == q * d
    ensures Dividing.IsTruncated(n, d, q) ==> Dividing.IsTruncated(n, -d, -q)
  {
    assert (-q) * -d == q * d;
  }

  method PowModNumber(base: Num, exp: Num, modulus: Num, scale: Option<nat>, limit: nat)
    returns (r: Result<Number, BcError>)
    requires base.WellFormed() && exp.WellFormed() && modulus.WellFormed()
    ensures r == PowModSpec(base, exp, modulus, scale, limit)
  {
    hide Be, Pow, Formatted, Powers.TruncRem, AllZeros, Num.WellFormed;
    if base.HasFraction() {
      return Err(FractionalBase);
    }
    if exp.HasFraction() {
      return Err(FractionalExponent);
    }
    ZeroNum(exp);
    MagnitudeSign(exp);
    if exp.neg && !exp.IsZero() {
      return Err(NegativeExponent);
    }
    if modulus.HasFraction() {
      return Err(FractionalModulus);
    }
    ZeroNum(modulus);
    if modulus.IsZero() {
      return Err(DivisionByZero);
    }
    WholePartValue(exp);
    WholePartValue(modulus);
    var d := Powers.PowModExact(base, exp, modulus);
    RemSign(Pow(WholePart(base), WholePart(exp)), Dec(modulus.whole));
    r := FromExact(d, if scale.Some? then scale.value else 0, limit);
  }
}
