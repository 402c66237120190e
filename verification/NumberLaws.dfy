/** What the results of `BcMath\Number` operations mean, as decimal values read back from their text. */
module NumberLaws {
  import opened Numerals
  import opened Words
  import opened Digits
  import opened Decimals
  import opened Wrappers
  import opened Rounding
  import opened Functions
  import opened Numbers
  import opened NumberOps
  import opened NumberPowers
  import opened Shortcut
  import Addition
  import Dividing
  import Operands
  import Powers

  /** The value `v / 10^s`. */
  datatype Decimal = Decimal(v: int, s: nat)

  function ValueOf(n: Num): Decimal { Decimal(n.Unscaled(), |n.frac|) }

  /** The value a number shows. */
  ghost function ReadBack(n: Number): Decimal
    requires Canonical(n)
  {
    ValueOf(AsNum(n))
  }

  // ----- laws of the operations

  /** `x` counted in units of `10^-s`. */
  function InUnits(x: Decimal, s: nat): int
    requires x.s <= s
  {
    x.v * Pow(10, s - x.s)
  }

  function Wider(x: Decimal, y: Decimal): nat { if x.s >= y.s then x.s else y.s }

  /** `r` is the exact value `v / 10^s`; with an explicit scale, that value cut toward zero there. */
  ghost predicate ShownAt(v: int, s: nat, scale: Option<int>, r: Decimal) {
    match scale
    case None => r == Decimal(v, s)
    case Some(k) => r.s == k && Dividing.IsTruncated(v * Pow(10, r.s), Pow(10, s), r.v)
  }

  /** A result computed at `n` digits and then freed of trailing zeros down to scale `min`. */
  ghost predicate IsTrimmed(n: nat, min: nat, r: Decimal) {
    min <= r.s <= n && (r.s > min ==> r.v % 10 != 0)
  }

  ghost predicate IsSum(x: Decimal, y: Decimal, scale: Option<int>, r: Decimal) {
    var w := Wider(x, y);
    ShownAt(InUnits(x, w) + InUnits(y, w), w, scale, r)
  }

  ghost predicate IsDifference(x: Decimal, y: Decimal, scale: Option<int>, r: Decimal) {
    var w := Wider(x, y);
    ShownAt(InUnits(x, w) - InUnits(y, w), w, scale, r)
  }

  ghost predicate IsProduct(x: Decimal, y: Decimal, scale: Option<int>, r: Decimal) {
    ShownAt(x.v * y.v, x.s + y.s, scale, r)
  }

  /** `x / y` cut toward zero at `k` digits is `q / 10^k`. */
  ghost predicate QuotientAt(x: Decimal, y: Decimal, k: nat, q: int) {
    Dividing.IsTruncated(x.v * Pow(10, y.s + k), y.v * Pow(10, x.s), q)
  }

  ghost predicate IsQuotient(x: Decimal, y: Decimal, scale: Option<int>, r: Decimal) {
    match scale
    case None => IsTrimmed(x.s + 10, x.s, r) && QuotientAt(x, y, x.s + 10, InUnits(r, x.s + 10))
    case Some(k) => r.s == k && QuotientAt(x, y, r.s, r.v)
  }

  /** The division law: a remainder smaller than the divisor, of the dividend's sign. */
  ghost predicate Divided(n: int, d: int, q: int, m: int) {
    n == q * d + m && Abs(m) < Abs(d) && (m > 0 ==> n > 0) && (m < 0 ==> n < 0)
  }

  /** Quotient `q` and the remainder `r`, which has the wider scale by default. */
  ghost predicate IsDivMod(x: Decimal, y: Decimal, scale: Option<int>, q: Decimal, r: Decimal) {
    var w := Wider(x, y);
    q.s == 0 && exists m :: Divided(InUnits(x, w), InUnits(y, w), q.v, m) && ShownAt(m, w, scale, r)
  }

  ghost predicate IsRemainder(x: Decimal, y: Decimal, scale: Option<int>, r: Decimal) {
    exists q :: IsDivMod(x, y, scale, Decimal(q, 0), r)
  }

  ghost predicate Calculated(op: NumberOp, x: Decimal, y: Decimal, scale: Option<int>, r: Decimal) {
    match op
    case Modulo => IsRemainder(x, y, scale, r)
    case Arith(Add) => IsSum(x, y, scale, r)
    case Arith(Sub) => IsDifference(x, y, scale, r)
    case Arith(Mul) => IsProduct(x, y, scale, r)
    case Arith(Div) => IsQuotient(x, y, scale, r)
  }

  /** `1 / x^m` cut toward zero at `k` digits is `q / 10^k`. */
  ghost predicate InverseAt(x: Decimal, m: nat, k: nat, q: int) {
    MulNonneg(x.s, m);
    Dividing.IsTruncated(Pow(10, x.s * m + k), Pow(x.v, m), q)
  }

  ghost predicate IsPowerOf(x: Decimal, e: int, scale: Option<int>, r: Decimal) {
    if e >= 0 then
      MulNonneg(x.s, e);
      ShownAt(Pow(x.v, e), x.s * e, scale, r)
    else match scale
      case None => r.s <= x.s + 10 && InverseAt(x, -e, x.s + 10, InUnits(r, x.s + 10))
      case Some(k) => r.s == k && InverseAt(x, -e, r.s, r.v)
  }

  /** The remainder of `b^k` for the integers `b`, `k` and `d` that the operands are. */
  ghost predicate IsModularPower(x: Decimal, e: Decimal, m: Decimal, scale: Option<int>, r: Decimal) {
    exists b: int, k: nat, d: int, q: int, rest: int ::
      && x.v == b * Pow(10, x.s) && e.v == k * Pow(10, e.s) && m.v == d * Pow(10, m.s)
      && Divided(Pow(b, k), d, q, rest) && ShownAt(rest, 0, if scale.None? then Some(0) else scale, r)
  }

  ghost predicate IsRootOf(x: Decimal, scale: Option<int>, r: Decimal) {
    match scale
    case None => IsTrimmed(x.s + 10, x.s, r) && Powers.IsRoot(x.v, x.s, x.s + 10, InUnits(r, x.s + 10))
    case Some(k) => r.s == k && Powers.IsRoot(x.v, x.s, r.s, r.v)
  }

  /** `q` counts the units of `10^-precision` that the mode selects. */
  ghost predicate RoundsTo(x: Decimal, precision: int, mode: RoundingMode, q: int) {
    if precision >= 0 then IsRounded(mode, x.v * Pow(10, precision), Pow(10, x.s), q)
    else IsRounded(mode, x.v, Pow(10, x.s - precision), q)
  }

  /** That many units, shown without a fraction for negative precisions. */
  ghost predicate IsRoundedTo(x: Decimal, precision: int, mode: RoundingMode, r: Decimal) {
    if precision >= 0 then r.s == precision && RoundsTo(x, precision, mode, r.v)
    else r.s == 0 && exists q :: RoundsTo(x, precision, mode, q) && r.v == q * Pow(10, -precision)
  }

  // ----- results read back

  lemma ShownMake(v: int, s: nat)
    ensures Canonical(Make(v, s)) && ReadBack(Make(v, s)) == Decimal(v, s)
  {
    hide Text, Canonical, AsNum, Parsing.Parsed, Parsing.NumOf, Num.Unscaled;
    ReadsAsParsed(v, s);
  }

  lemma FormattedShows(v: int, s: nat, scale: nat, limit: nat)
    requires Formatted(v, s, scale, limit).Ok?
    ensures var n := Formatted(v, s, scale, limit).value;
      Canonical(n) && ReadBack(n) == Decimal(AtScale(v, s, scale), scale)
  {
    hide Text, Canonical, ReadBack, AtScale, DigitsOf, Make;
    ShownMake(AtScale(v, s, scale), scale);
  }

  /** A value cut at an explicit scale, or kept at its own. */
  lemma CutShown(v: int, s: nat, scale: Option<nat>)
    ensures var k := if scale.Some? then scale.value else s; ShownAt(v, s, scale, Decimal(AtScale(v, s, k), k))
  {
    hide Pow, Dividing.IsTruncated;
    PowPos(10, s);
    match scale
    case None =>
      hide AtScale;
      Dividing.SameScale(v, s);
    case Some(k) =>
      Dividing.TruncQuotIff(v * Pow(10, k), Pow(10, s), AtScale(v, s, k));
  }

  /** The results of the four operations at an explicit scale, which the functions on strings show too. */
  lemma ShownLaw(op: BinOp, a: Num, b: Num, scale: nat)
    requires op == Div ==> b.Unscaled() != 0
    ensures Calculated(Arith(op), ValueOf(a), ValueOf(b), Some(scale), Decimal(ShownResult(op, a, b, scale), scale))
  {
    hide Pow, Num.Unscaled, AtScale, ShownAt, Dividing.IsTruncated, Dividing.TruncQuot;
    var fl := Addition.MaxLen(a.frac, b.frac);
    match op
    case Add => CutShown(Addition.At(a, fl) + Addition.At(b, fl), fl, Some(scale));
    case Sub => CutShown(Addition.At(a, fl) - Addition.At(b, fl), fl, Some(scale));
    case Mul => CutShown(a.Unscaled() * b.Unscaled(), |a.frac| + |b.frac|, Some(scale));
    case Div => QuotientLaw(a, b, scale);
  }

  lemma QuotientLaw(a: Num, b: Num, scale: nat)
    requires b.Unscaled() != 0
    ensures QuotientAt(ValueOf(a), ValueOf(b), scale, Dividing.Quotient(a, b, scale))
  {
    hide Pow, Num.Unscaled, Dividing.IsTruncated, Dividing.TruncQuot;
    PowPos(10, |a.frac|);
    Dividing.NonZeroProduct(b.Unscaled(), Pow(10, |a.frac|));
    Dividing.TruncQuotIff(a.Unscaled() * Pow(10, |b.frac| + scale), b.Unscaled() * Pow(10, |a.frac|),
      Dividing.Quotient(a, b, scale));
  }

  /** Default-scale sums, differences and products are exact. */
  lemma DefaultLaw(op: BinOp, a: Num, b: Num)
    requires op != Div
    ensures var s := DefaultScale(op, a, b);
      Calculated(Arith(op), ValueOf(a), ValueOf(b), None, Decimal(ShownResult(op, a, b, s), s))
  {
    hide Pow, Num.Unscaled, AtScale, ShownAt;
    var fl := Addition.MaxLen(a.frac, b.frac);
    match op
    case Add => CutShown(Addition.At(a, fl) + Addition.At(b, fl), fl, None);
    case Sub => CutShown(Addition.At(a, fl) - Addition.At(b, fl), fl, None);
    case Mul => CutShown(a.Unscaled() * b.Unscaled(), |a.frac| + |b.frac|, None);
  }

  lemma TrimLaw(v: int, n: nat, min: nat)
    requires min <= n
    ensures var (w, t) := TrimDown(v, n, min); IsTrimmed(n, min, Decimal(w, t)) && InUnits(Decimal(w, t), n) == v
  {
    hide Pow, TrimDown;
    TrimDownValue(v, n, min);
  }

  /** The integer quotient and the remainder at the wider of both scales. */
  lemma DivModLaw(a: Num, b: Num) returns (m: int)
    requires b.Unscaled() != 0
    ensures var x, y := ValueOf(a), ValueOf(b);
      var w := Wider(x, y);
      && RemainderScale(a, b) <= w && m == Remainder(a, b) * Pow(10, w - RemainderScale(a, b))
      && Divided(InUnits(x, w), InUnits(y, w), Dividing.Quotient(a, b, 0), m)
  {
    var s, w := RemainderScale(a, b), Wider(ValueOf(a), ValueOf(b));
    assert s <= w;
    RemainderDefined(a, b);
    WholeQuotient(a, b);
    TrimmedUnits(a, s, w);
    TrimmedUnits(b, s, w);
    hide Pow, Num.Unscaled, Num.Trimmed, Addition.At, RemainderScale, Dividing.Quotient, Dividing.TruncQuot;
    var n, d := Addition.At(a.Trimmed(), s), Addition.At(b.Trimmed(), s);
    var q := Dividing.TruncQuot(n, d);
    Dividing.TruncQuotIff(n, d, q);
    m := Remainder(a, b) * Pow(10, w - s);
    PowPos(10, w - s);
    DividedScaled(n, d, q, Remainder(a, b), Pow(10, w - s));
  }

  lemma TrimmedUnits(n: Num, s: nat, w: nat)
    requires |n.Trimmed().frac| <= s <= w && |n.frac| <= w
    ensures InUnits(ValueOf(n), w) == Addition.At(n.Trimmed(), s) * Pow(10, w - s)
  {
    Operands.TrimmedSame(n);
    hide Pow, Num.Unscaled, Num.Trimmed, Addition.At;
    var t := n.Trimmed();
    AtFiner(t, s, w - s);
    PowAdd(10, |n.frac| - |t.frac|, w - |n.frac|);
    var u, p, q := t.Unscaled(), Pow(10, |n.frac| - |t.frac|), Pow(10, w - |n.frac|);
    assert u * p * q == u * (p * q);
  }

  lemma DividedScaled(n: int, d: int, q: int, m: int, c: int)
    requires 0 < c && Divided(n, d, q, m)
    ensures Divided(n * c, d * c, q, m * c)
  {
    Spread(q, d, m, c);
    ScaledSign(m, c);
    ScaledSign(d, c);
    ScaledSign(n, c);
    MulStrict(Abs(m), Abs(d), c);
    hide Abs;
  }

  lemma Spread(q: int, d: int, m: int, c: int)
    ensures (q * d + m) * c == q * (d * c) + m * c
  {
    assert q * d * c == q * (d * c);
  }

  lemma ScaledSign(v: int, c: int)
    requires 0 < c
    ensures Abs(v * c) == Abs(v) * c && (v * c > 0 <==> v > 0) && (v * c < 0 <==> v < 0)
  {
    assert (-v) * c == -(v * c);
    if v > 0 {
      MulStrict(0, v, c);
    } else if v < 0 {
      MulStrict(v, 0, c);
    }
  }

  /** A remainder shown at the wider scale, or cut at an explicit one. */
  lemma RemainderShown(a: Num, b: Num, m: int, scale: Option<nat>)
    requires b.Unscaled() != 0
    requires var w := Wider(ValueOf(a), ValueOf(b));
      RemainderScale(a, b) <= w && m == Remainder(a, b) * Pow(10, w - RemainderScale(a, b))
    ensures var w := Wider(ValueOf(a), ValueOf(b));
      var k := if scale.Some? then scale.value else w;
      ShownAt(m, w, scale, Decimal(AtScale(Remainder(a, b), RemainderScale(a, b), k), k))
  {
    hide Pow, Num.Unscaled, AtScale, ShownAt, Remainder, RemainderScale;
    var w := Wider(ValueOf(a), ValueOf(b));
    CutShown(m, w, scale);
    Operands.AtScaleFiner(Remainder(a, b), RemainderScale(a, b), w - RemainderScale(a, b),
      if scale.Some? then scale.value else w);
  }

  /** Every result of a calculation obeys the law of its operation. */
  lemma CalcLaw(op: NumberOp, a: Num, b: Num, scale: Option<nat>, limit: nat)
    requires CalcSpec(op, a, b, scale, limit).Ok?
    ensures var n := CalcSpec(op, a, b, scale, limit).value;
      Canonical(n) && Calculated(op, ValueOf(a), ValueOf(b), scale, ReadBack(n))
  {
    hide Formatted, ShownResult, TrimDown, Make, Remainder, RemainderScale, Canonical, ReadBack, ValueOf, Num.Unscaled,
      IsSum, IsDifference, IsProduct, IsDivMod, QuotientAt, AtScale, IsTrimmed, InUnits, Wider;
    match op
    case Modulo =>
      var k := if scale.Some? then scale.value else Addition.MaxLen(a.frac, b.frac);
      FormattedShows(Remainder(a, b), RemainderScale(a, b), k, limit);
      ModuloLaw(a, b, scale, k);
    case Arith(op) =>
      if op == Div && scale.None? {
        var s := |a.frac| + EXPAND_SCALE;
        var (w, t) := TrimDown(ShownResult(Div, a, b, s), s, |a.frac|);
        ShownMake(w, t);
        ExpandedLaw(a, b);
      } else {
        var s := if scale.Some? then scale.value else DefaultScale(op, a, b);
        ShownMake(ShownResult(op, a, b, s), s);
        if scale.Some? {
          ShownLaw(op, a, b, s);
        } else {
          DefaultLaw(op, a, b);
        }
      }
  }

  lemma ModuloLaw(a: Num, b: Num, scale: Option<nat>, k: nat)
    requires b.Unscaled() != 0
    requires k == if scale.Some? then scale.value else Addition.MaxLen(a.frac, b.frac)
    ensures IsRemainder(ValueOf(a), ValueOf(b), scale, Decimal(AtScale(Remainder(a, b), RemainderScale(a, b), k), k))
    ensures IsDivMod(ValueOf(a), ValueOf(b), scale, Decimal(Dividing.Quotient(a, b, 0), 0),
      Decimal(AtScale(Remainder(a, b), RemainderScale(a, b), k), k))
  {
    hide Remainder, RemainderScale, Num.Unscaled, AtScale, ShownAt, Divided, Dividing.Quotient, InUnits, Pow;
    var m := DivModLaw(a, b);
    RemainderShown(a, b, m, scale);
    assert k == if scale.Some? then scale.value else Wider(ValueOf(a), ValueOf(b));
    assert IsDivMod(ValueOf(a), ValueOf(b), scale, Decimal(Dividing.Quotient(a, b, 0), 0),
      Decimal(AtScale(Remainder(a, b), RemainderScale(a, b), k), k));
  }

  lemma ExpandedLaw(a: Num, b: Num)
    requires b.Unscaled() != 0
    ensures var s := |a.frac| + EXPAND_SCALE;
      var (w, t) := TrimDown(ShownResult(Div, a, b, s), s, |a.frac|);
      IsQuotient(ValueOf(a), ValueOf(b), None, Decimal(w, t))
  {
    hide TrimDown, Num.Unscaled, QuotientAt, Dividing.Quotient, InUnits, IsTrimmed;
    var s := |a.frac| + EXPAND_SCALE;
    QuotientLaw(a, b, s);
    TrimLaw(Dividing.Quotient(a, b, s), s, |a.frac|);
  }

  /** Which calculations fail: division by zero exactly for a zero divisor, anything else for its size. */
  lemma CalcFails(op: NumberOp, a: Num, b: Num, scale: Option<nat>, limit: nat)
    ensures var r := CalcSpec(op, a, b, scale, limit);
      && (r == Err(DivisionByZero) <==> (op == Modulo || op == Arith(Div)) && b.Unscaled() == 0)
      && (r.Err? ==> r.error.DivisionByZero? || r.error.OutOfMemory?)
  {
    hide ShownResult, TrimDown, Make, Remainder, RemainderScale, Num.Unscaled, AtScale, ResultBound, DigitsOf;
  }

  /** Quotient and remainder as two numbers: the quotient first, without a fraction. */
  lemma DivModMeans(a: Num, b: Num, scale: Option<nat>, limit: nat)
    requires DivModSpec(a, b, scale, limit).Ok?
    ensures var (q, r) := DivModSpec(a, b, scale, limit).value;
      Canonical(q) && Canonical(r) && IsDivMod(ValueOf(a), ValueOf(b), scale, ReadBack(q), ReadBack(r))
  {
    hide Formatted, Remainder, RemainderScale, Canonical, ReadBack, ValueOf, Num.Unscaled, Dividing.Quotient, IsDivMod,
      IsRemainder, AtScale;
    var k := if scale.Some? then scale.value else Addition.MaxLen(a.frac, b.frac);
    FormattedShows(Dividing.Quotient(a, b, 0), 0, 0, limit);
    FormattedShows(Remainder(a, b), RemainderScale(a, b), k, limit);
    ModuloLaw(a, b, scale, k);
    Dividing.SameScale(Dividing.Quotient(a, b, 0), 0);
  }

  // ----- comparison

  /** The order of the values; with a scale, of the values cut toward zero there. */
  lemma ComparisonMeans(a: Num, b: Num, scale: Option<nat>)
    requires a.WellFormed() && b.WellFormed()
    ensures var x, y, c := ValueOf(a), ValueOf(b), Comparison(a, b, scale);
      var w := Wider(x, y);
      && (scale.None? ==>
        && (c == Addition.Less <==> InUnits(x, w) < InUnits(y, w))
        && (c == Addition.Greater <==> InUnits(x, w) > InUnits(y, w)))
      && (scale.Some? ==>
        && (c == Addition.Less <==> AtScale(x.v, x.s, scale.value) < AtScale(y.v, y.s, scale.value))
        && (c == Addition.Greater <==> AtScale(x.v, x.s, scale.value) > AtScale(y.v, y.s, scale.value)))
  {
    hide Pow, Num.Unscaled, AtScale, Addition.Cmp, Num.Truncated, Num.WellFormed;
    match scale
    case None => Addition.CmpIsOrder(a, b);
    case Some(s) => ComparisonIsOrder(a, b, s);
  }

  // ----- powers

  lemma InverseLaw(a: Num, m: nat, k: nat)
    requires a.Unscaled() != 0
    ensures forall q :: InverseAt(ValueOf(a), m, k, q) <==> q == Inverse(a, m, k)
  {
    hide Pow, Num.Unscaled, Dividing.IsTruncated, Dividing.TruncQuot;
    PowNonZero(a.Unscaled(), m);
    MulNonneg(|a.frac|, m);
    forall q ensures InverseAt(ValueOf(a), m, k, q) <==> q == Inverse(a, m, k) {
      Dividing.TruncQuotIff(Pow(10, |a.frac| * m + k), Pow(a.Unscaled(), m), q);
    }
  }

  lemma CutIff(v: int, s: nat, k: nat, r: int)
    ensures ShownAt(v, s, Some(k), Decimal(r, k)) <==> r == AtScale(v, s, k)
  {
    hide Pow, Dividing.IsTruncated;
    PowPos(10, s);
    Dividing.TruncQuotIff(v * Pow(10, k), Pow(10, s), r);
  }

  /** Every power that is not refused obeys its law, exactly unless the shortcut takes a power for zero wrongly. */
  lemma PowerLaw(a: Num, e: int, scale: Option<nat>, logs: LogBounds, limit: nat)
    requires PowSpec(a, e, scale, logs, limit).Ok?
    ensures var n := PowSpec(a, e, scale, logs, limit).value;
      var fires := ShortcutFires(a, e, NegScale(a, scale), scale, logs);
      && Canonical(n)
      && (IsPowerOf(ValueOf(a), e, scale, ReadBack(n))
        <==> !fires || TruncatesToZero(a, e, NegScale(a, scale), scale))
      && (fires ==> ReadBack(n) == Decimal(0, if scale.Some? then scale.value else 0))
  {
    hide Formatted, Canonical, ReadBack, ValueOf, IsPowerOf, TruncatesToZero, ShortcutFires, PowRefused, Inverse,
      TrimDown,
      Num.Unscaled, Num.Trimmed, IsUnit, Pow, Signed;
    var k := NegScale(a, scale);
    if ShortcutFires(a, e, k, scale, logs) {
      FiresApart(a, e, k, scale, logs);
      var shownAt := if scale.Some? then scale.value else 0;
      FormattedShows(0, 0, shownAt, limit);
      ZeroStays(shownAt);
      ZeroLaw(a, e, scale);
    } else if e >= 0 {
      MulNonneg(|a.frac|, e);
      var s := |a.frac| * e;
      FormattedShows(Pow(a.Unscaled(), e), s, if scale.Some? then scale.value else s, limit);
      PlainLaw(a, e, scale);
    } else if scale.Some? {
      FormattedShows(Inverse(a, -e, k), k, k, limit);
      Dividing.SameScale(Inverse(a, -e, k), k);
      PowStep(10, 0);
      InverseShown(a, e, scale, Decimal(Inverse(a, -e, k), k));
    } else if IsUnit(a.Trimmed()) {
      var v := Signed(a.neg && e % 2 != 0, 1);
      FormattedShows(v, 0, 0, limit);
      Dividing.SameScale(v, 0);
      UnitShown(a, e, v);
      InverseShown(a, e, scale, Decimal(v, 0));
    } else {
      var (w, t) := TrimDown(Inverse(a, -e, k), k, |a.frac|);
      FormattedShows(w, t, t, limit);
      Dividing.SameScale(w, t);
      TrimLaw(Inverse(a, -e, k), k, |a.frac|);
      InverseShown(a, e, scale, Decimal(w, t));
    }
  }

  lemma FiresApart(a: Num, e: int, k: nat, scale: Option<nat>, logs: LogBounds)
    requires ShortcutFires(a, e, k, scale, logs)
    ensures e != 0 && a.Unscaled() != 0 && (e > 0 ==> scale.Some?)
  {}

  lemma PlainLaw(a: Num, e: int, scale: Option<nat>)
    requires e >= 0
    ensures 0 <= |a.frac| * e
    ensures var k := if scale.Some? then scale.value else |a.frac| * e;
      IsPowerOf(ValueOf(a), e, scale, Decimal(AtScale(Pow(a.Unscaled(), e), |a.frac| * e, k), k))
  {
    hide Pow, Num.Unscaled, ShownAt, AtScale;
    MulNonneg(|a.frac|, e);
    CutShown(Pow(a.Unscaled(), e), |a.frac| * e, scale);
  }

  lemma InverseShown(a: Num, e: int, scale: Option<nat>, r: Decimal)
    requires e < 0 && a.Unscaled() != 0
    requires var n := NegScale(a, scale); r.s <= n && InUnits(r, n) == Inverse(a, -e, n) && (scale.Some? ==> r.s == n)
    ensures IsPowerOf(ValueOf(a), e, scale, r)
  {
    hide Pow, Num.Unscaled, InverseAt, Inverse;
    PowStep(10, 0);
    InverseLaw(a, -e, NegScale(a, scale));
  }

  lemma UnitShown(a: Num, e: int, v: int)
    requires e < 0 && a.Unscaled() != 0 && IsUnit(a.Trimmed()) && v == Signed(a.neg && e % 2 != 0, 1)
    ensures var n := NegScale(a, None); InUnits(Decimal(v, 0), n) == Inverse(a, -e, n)
  {
    hide Pow, Num.Unscaled, Num.Trimmed, Inverse, IsUnit;
    var n := NegScale(a, None);
    UnitInverse(a, -e, n);
    SignedTimes(a.neg && e % 2 != 0, 1, Pow(10, n));
    assert (-e) % 2 == 1 <==> e % 2 != 0;
  }

  /** Zero obeys the law exactly when no digit of the power is shown. */
  lemma ZeroLaw(a: Num, e: int, scale: Option<nat>)
    requires a.Unscaled() != 0 && e != 0 && (e > 0 ==> scale.Some?)
    ensures IsPowerOf(ValueOf(a), e, scale, Decimal(0, if scale.Some? then scale.value else 0))
      <==> TruncatesToZero(a, e, NegScale(a, scale), scale)
  {
    hide Pow, Num.Unscaled, ShownAt, AtScale, InverseAt, Inverse;
    if e > 0 {
      MulNonneg(|a.frac|, e);
      CutIff(Pow(a.Unscaled(), e), |a.frac| * e, scale.value, 0);
    } else {
      InverseLaw(a, -e, NegScale(a, scale));
    }
  }

  /** With logarithm bounds accurate enough for the exponent, every power that is not refused obeys its law. */
  lemma AccuratePower(a: Num, e: int, scale: Option<nat>, logs: LogBounds, eps: real, limit: nat)
    requires PowSpec(a, e, scale, logs, limit).Ok?
    requires Within(a, logs, eps) && Abs(e) as real * eps <= 2.0
    ensures var n := PowSpec(a, e, scale, logs, limit).value;
      Canonical(n) && IsPowerOf(ValueOf(a), e, scale, ReadBack(n))
  {
    hide *;
    PowerLaw(a, e, scale, logs, limit);
    if ShortcutFires(a, e, NegScale(a, scale), scale, logs) {
      ShortcutSound(a, e, NegScale(a, scale), scale, logs, eps);
    }
  }

  /** Which powers fail: a negative power of zero, anything else for its size. */
  lemma PowerFails(a: Num, e: int, scale: Option<nat>, logs: LogBounds, limit: nat)
    ensures var r := PowSpec(a, e, scale, logs, limit);
      && (r == Err(DivisionByZero) <==> a.Unscaled() == 0 && e < 0)
      && (r.Err? ==> r.error.DivisionByZero? || r.error.OutOfMemory?)
  {
    hide Num.Unscaled, Num.Trimmed, IsUnit, Inverse, TrimDown, Pow, Make, AtScale, DigitsOf, ShortcutFires,
      Powers.PowLenEstimate;
  }

  /** A power that is computed has no more digits than the limit, for bases without zeros directly behind the point. */
  lemma PowerWithinLimit(a: Num, e: int, scale: Option<nat>, logs: LogBounds, limit: nat)
    requires a.WellFormed() && PowSpec(a, e, scale, logs, limit).Ok?
    requires a.Unscaled() != 0 && e != 0 && !IsUnit(a.Trimmed())
    requires !ShortcutFires(a, e, NegScale(a, scale), scale, logs)
    requires var t := a.Trimmed(); |t.whole| > 0 || |t.frac| == 0 || t.frac[0] != 48
    ensures Powers.PowDigitCount(a, Abs(e)) <= limit
  {
    Powers.EstimateBounds(a, Abs(e));
    hide Num.Unscaled, Num.Trimmed, Num.WellFormed, IsUnit, Inverse, TrimDown, Pow, ShortcutFires, Formatted,
      Powers.PowLenEstimate, Powers.PowDigitCount;
  }

  /** An exponent is accepted exactly when the operand is an integer of magnitude at most `i64::MAX`. */
  lemma ExponentAccepted(e: Num, k: int)
    ensures ExponentOf(e) == Ok(k) <==> e.Unscaled() == k * Pow(10, |e.frac|) && -I64_MAX <= k <= I64_MAX
  {
    hide Pow, Num.Unscaled;
    var p := Pow(10, |e.frac|);
    PowPos(10, |e.frac|);
    if ExponentOf(e).Ok? {
      ExponentValue(e);
    }
    if e.Unscaled() == k * p && -I64_MAX <= k <= I64_MAX {
      IntegerHasNoFraction(e, k);
      WholePartValue(e);
      SameMultiple(k, WholePart(e), p);
    }
  }

  lemma SameMultiple(x: int, y: int, p: int)
    requires 0 < p && x * p == y * p
    ensures x == y
  {
    MulCancelLe(x, y, p);
    MulCancelLe(y, x, p);
  }

  lemma IntegerHasNoFraction(e: Num, k: int)
    requires e.Unscaled() == k * Pow(10, |e.frac|)
    ensures !e.HasFraction()
  {
    hide Pow, Be;
    var p := Pow(10, |e.frac|);
    BeConcat(e.whole, e.frac, 10, 48);
    BeBound(e.frac, 10, 48);
    ZeroDigits(e.frac);
    var m := Signed(e.neg, k);
    assert Dec(e.whole + e.frac) == m * p by {
      assert (-k) * p == -(k * p);
    }
    DivModUnique(Dec(e.whole + e.frac), p, Dec(e.whole), Dec(e.frac));
    DivModUnique(Dec(e.whole + e.frac), p, m, 0);
  }

  /** The remainder of the integers' power, at scale 0 unless another is given. */
  lemma PowModMeans(a: Num, e: Num, m: Num, scale: Option<nat>, limit: nat)
    requires PowModSpec(a, e, m, scale, limit).Ok?
    ensures var n := PowModSpec(a, e, m, scale, limit).value;
      Canonical(n) && IsModularPower(ValueOf(a), ValueOf(e), ValueOf(m), scale, ReadBack(n))
  {
    hide Pow, Num.Unscaled, Formatted, Canonical, ReadBack, AllZeros, Powers.TruncRem, ShownAt, Divided, WholePart,
      AtScale;
    WholePartValue(a);
    WholePartValue(e);
    WholePartValue(m);
    var b, k, d := WholePart(a), WholePart(e), WholePart(m);
    var r, at := Powers.TruncRem(Pow(b, k), d), if scale.Some? then scale.value else 0;
    FormattedShows(r, 0, at, limit);
    CutShown(r, 0, Some(at));
    RemainderDivides(Pow(b, k), d);
    assert Divided(Pow(b, k), d, Dividing.TruncQuot(Pow(b, k), d), r);
  }

  lemma RemainderDivides(n: int, d: int)
    requires d != 0
    ensures Divided(n, d, Dividing.TruncQuot(n, d), Powers.TruncRem(n, d))
  {
    hide Dividing.TruncQuot;
    Dividing.TruncQuotIff(n, d, Dividing.TruncQuot(n, d));
  }

  // ----- roots and rounding

  lemma RootLaw(a: Num, scale: Option<nat>, limit: nat)
    requires SqrtSpec(a, scale, limit).Ok?
    ensures var n := SqrtSpec(a, scale, limit).value; Canonical(n) && IsRootOf(ValueOf(a), scale, ReadBack(n))
  {
    hide Pow, Num.Unscaled, Formatted, Canonical, ReadBack, Root, TrimDown, Powers.IsRoot, AtScale, IsTrimmed, InUnits;
    match scale
    case Some(s) =>
      FormattedShows(Root(a, s), s, s, limit);
      Dividing.SameScale(Root(a, s), s);
      RootIs(a, s);
    case None =>
      var s := |a.frac| + EXPAND_SCALE;
      var (w, t) := TrimDown(Root(a, s), s, |a.frac|);
      FormattedShows(w, t, t, limit);
      Dividing.SameScale(w, t);
      TrimLaw(Root(a, s), s, |a.frac|);
      RootIs(a, s);
  }

  /** Which roots fail: those of negative numbers, anything else for its size. */
  lemma RootFails(a: Num, scale: Option<nat>, limit: nat)
    ensures var r := SqrtSpec(a, scale, limit);
      && (r == Err(NegativeRadicand) <==> a.Unscaled() < 0)
      && (r.Err? ==> r.error.NegativeRadicand? || r.error.OutOfMemory?)
  {
    hide Num.Unscaled, Root, TrimDown, Make, AtScale, DigitsOf;
  }

  /** Which modular powers fail, in this order: a fraction, a negative exponent, a zero modulus; or for size. */
  lemma PowModFails(a: Num, e: Num, m: Num, scale: Option<nat>, limit: nat)
    ensures var r := PowModSpec(a, e, m, scale, limit);
      var whole := !a.HasFraction() && !e.HasFraction();
      && (r == Err(FractionalBase) <==> a.HasFraction())
      && (r == Err(FractionalExponent) <==> !a.HasFraction() && e.HasFraction())
      && (r == Err(NegativeExponent) <==> whole && e.Unscaled() < 0)
      && (r == Err(FractionalModulus) <==> whole && e.Unscaled() >= 0 && m.HasFraction())
      && (r == Err(DivisionByZero) <==> whole && e.Unscaled() >= 0 && !m.HasFraction() && m.Unscaled() == 0)
  {
    hide Num.Unscaled, AllZeros, Make, AtScale, DigitsOf, Pow, Powers.TruncRem, WholePart;
  }

  lemma RoundLaw(n: Num, precision: int, mode: RoundingMode, limit: nat)
    requires RoundSpec(n, precision, mode, limit).Ok?
    ensures var r := RoundSpec(n, precision, mode, limit).value;
      Canonical(r) && IsRoundedTo(ValueOf(n), precision, mode, ReadBack(r))
  {
    hide Pow, Num.Unscaled, Formatted, Canonical, ReadBack, IsRounded, TooLong, AtScale;
    DenominatorPositive(n, precision);
    PowStep(10, 0);
    var q := RoundTo(mode, Numerator(n, precision), Denominator(n, precision));
    var v, s := q * Pow(10, Max0(-precision)), Max0(precision);
    FormattedShows(v, s, s, limit);
    Dividing.SameScale(v, s);
    assert RoundsTo(ValueOf(n), precision, mode, q);
  }

  // ----- the length of a result

  /** Cutting keeps the integer part. */
  lemma WholeKept(m: nat, p: int, q: int)
    requires 0 < p && 0 < q
    ensures m * p / q / p == m / q
  {
    DivModFact(m, q);
    var w, r := m / q, m % q;
    MulStrict(r, q, p);
    MulNonneg(r, p);
    DivModFact(r * p, q);
    var u := r * p / q;
    Dividing.QuotientNonneg(r * p, q);
    MulCancelLt(u, p, q);
    Parts(w, q, r, p, u);
    DivModUnique(m * p, q, w * p + u, r * p % q);
    DivModUnique(w * p + u, p, w, u);
  }

  lemma Parts(w: int, q: int, r: int, p: int, u: int)
    ensures (w * q + r) * p == w * p * q + r * p && (w * p + u) * q == w * p * q + u * q
  {
    assert w * q * p == w * (q * p) && w * p * q == w * (p * q) && q * p == p * q;
  }

  lemma AssembledLength(minus: bool, whole: seq<Digit>, frac: seq<Digit>)
    ensures |Assemble(minus, whole, frac)| + (if minus then 0 else 1) == FormattedLen(|whole|, |frac|)
  {}

  /** The length a result is refused by is that of its text, a sign always counted. */
  lemma LengthCounted(v: int, s: nat, scale: nat)
    ensures 0 < Pow(10, s) && 0 <= Abs(v) / Pow(10, s)
    ensures var w := AtScale(v, s, scale);
      |Text(w, scale)| + (if w < 0 then 0 else 1) == FormattedLen(|DigitsOf(Abs(v) / Pow(10, s))|, scale)
  {
    hide Pow, DigitsOf, Assemble, FormattedLen, Padded;
    PowPos(10, s);
    PowPos(10, scale);
    Dividing.QuotientNonneg(Abs(v), Pow(10, s));
    var w := AtScale(v, s, scale);
    CutMagnitude(v, Pow(10, scale), Pow(10, s));
    WholeKept(Abs(v), Pow(10, scale), Pow(10, s));
    DivModFact(Abs(w), Pow(10, scale));
    Dividing.QuotientNonneg(Abs(w), Pow(10, scale));
    AssembledLength(w < 0, DigitsOf(Abs(w) / Pow(10, scale)), Padded(Abs(w) % Pow(10, scale), scale));
  }

  lemma CutMagnitude(v: int, p: int, q: int)
    requires 0 < p && 0 < q
    ensures Abs(TruncDiv(v * p, q)) == Abs(v) * p / q
  {
    assert (-v) * p == -(v * p);
    MulMono(0, Abs(v), p);
    Dividing.QuotientNonneg(Abs(v) * p, q);
  }

  /** A result is refused exactly for a scale beyond the maximum, or a text that would exceed the limit with a sign. */
  lemma FormattedFits(v: int, s: nat, scale: nat, limit: nat)
    ensures var r, w := Formatted(v, s, scale, limit), AtScale(v, s, scale);
      && (r.Ok? <==> scale <= MAX_SCALE && |Text(w, scale)| + (if w < 0 then 0 else 1) <= limit)
      && (r.Err? ==> r.error.OutOfMemory? && r.error.bytes > if scale > MAX_SCALE then MAX_SCALE else limit)
  {
    LengthCounted(v, s, scale);
    hide Pow, DigitsOf, Text, AtScale, FormattedLen;
  }
}
