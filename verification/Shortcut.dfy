/** The logarithm shortcut of `power`: powers taken to be zero because a floating-point logarithm says so. */
module Shortcut {
  import opened Numerals
  import opened Words
  import opened Decimals
  import opened Operands
  import opened Wrappers
  import Dividing
  import Powers

  // ----- inverse powers

  /** `1 / a^m` truncated at `scale` digits. */
  function Inverse(a: Num, m: nat, scale: nat): int
    requires a.Unscaled() != 0
  {
    PowNonZero(a.Unscaled(), m);
    MulNonneg(|a.frac|, m);
    Dividing.TruncQuot(Pow(10, |a.frac| * m + scale), Pow(a.Unscaled(), m))
  }

  lemma {:induction false} PowNonZero(x: int, m: nat)
    requires x != 0
    ensures Pow(x, m) != 0
  {
    if m > 0 {
      PowNonZero(x, m - 1);
      Dividing.NonZeroProduct(Pow(x, m - 1), if x > 0 then x else -x);
      assert (-x) * Pow(x, m - 1) == -(x * Pow(x, m - 1));
      assert Pow(x, m - 1) * (-x) == -(x * Pow(x, m - 1)) && Pow(x, m - 1) * x == x * Pow(x, m - 1);
    }
  }

  predicate IsUnit(b: Num) { b.whole == [49] && b.frac == [] }

  // ----- the test

  /**
   * What the floating-point code makes of the base and the exponent's magnitude: the computed products of
   * the magnitude with the lower and the upper bound of `log10(|base|)`, divided by that magnitude.
   */
  datatype LogBounds = LogBounds(lo: real, hi: real)

  /** The two comparisons, on opposite sides of an exponent of zero. */
  predicate Fires(e: int, negScale: nat, truncScale: Option<nat>, logs: LogBounds) {
    && Abs(e) > 64
    && if e > 0 then
         truncScale.Some? && logs.hi < 0.0 && Abs(e) as real * logs.hi < -(truncScale.value as real) - 2.0
       else
         logs.lo > 0.0 && Abs(e) as real * logs.lo > negScale as real + 2.0
  }

  /** Exactly when `power` answers zero without computing anything. */
  predicate ShortcutFires(base: Num, e: int, negScale: nat, truncScale: Option<nat>, logs: LogBounds) {
    base.Unscaled() != 0 && !IsUnit(base.Trimmed()) && Fires(e, negScale, truncScale, logs)
  }

  /** What the shortcut claims: no digit of the power is shown. */
  ghost predicate TruncatesToZero(base: Num, e: int, negScale: nat, truncScale: Option<nat>) {
    && base.Unscaled() != 0
    && (e >= 0 ==> (
      MulNonneg(|base.frac|, e);
      truncScale.Some? && AtScale(Pow(base.Unscaled(), e), |base.frac| * e, truncScale.value) == 0))
    && (e < 0 ==> Inverse(base, -e, negScale) == 0)
  }

  // ----- accuracy, stated without logarithms

  /** `10^n < |base|^k`. */
  predicate PowerAbove(base: Num, k: nat, n: int) {
    MulNonneg(|base.frac|, k);
    var p, q := Pow(Abs(base.Unscaled()), k), Pow(10, |base.frac| * k);
    if n >= 0 then q * Pow(10, n) < p else q < p * Pow(10, -n)
  }

  /** `|base|^k < 10^n`. */
  predicate PowerBelow(base: Num, k: nat, n: int) {
    MulNonneg(|base.frac|, k);
    var p, q := Pow(Abs(base.Unscaled()), k), Pow(10, |base.frac| * k);
    if n >= 0 then p < q * Pow(10, n) else p * Pow(10, -n) < q
  }

  /** `x <= log10(|base|)`: every fraction `n / k` below `x` is below the logarithm. */
  ghost predicate AtMostLog(base: Num, x: real) {
    forall k: nat, n: int :: k > 0 && n as real < k as real * x ==> PowerAbove(base, k, n)
  }

  /** `log10(|base|) <= x`. */
  ghost predicate AtLeastLog(base: Num, x: real) {
    forall k: nat, n: int :: k > 0 && k as real * x < n as real ==> PowerBelow(base, k, n)
  }

  /** Both bounds hold up to an absolute error of `eps`. */
  ghost predicate Within(base: Num, logs: LogBounds, eps: real) {
    AtMostLog(base, logs.lo - eps) && AtLeastLog(base, logs.hi + eps)
  }

  /** With bounds of that accuracy, the shortcut is right for every base and every scale. */
  ghost predicate NeverWrong(e: int, eps: real) {
    forall base: Num, negScale: nat, truncScale: Option<nat>, logs: LogBounds ::
      base.WellFormed() && Within(base, logs, eps) && ShortcutFires(base, e, negScale, truncScale, logs) ==>
        TruncatesToZero(base, e, negScale, truncScale)
  }

  // ----- when it is right

  lemma {:induction false} AbsPow(x: int, m: nat)
    ensures Abs(Pow(x, m)) == Pow(Abs(x), m)
  {
    Powers.PowSigned(x < 0, Abs(x), m);
    Powers.PowNonneg(Abs(x), m);
  }

  lemma SmallQuotient(n: int, d: int)
    requires 0 <= n < Abs(d)
    ensures Dividing.TruncQuot(n, d) == 0
  {
    Dividing.TruncQuotIff(n, d, 0);
  }

  lemma SmallCut(v: int, s: nat, scale: nat)
    requires Abs(v) * Pow(10, scale) < Pow(10, s)
    ensures AtScale(v, s, scale) == 0
  {
    hide Pow, AtScale;
    AtScaleIsTruncation(v, s, scale);
    PowPos(10, scale);
    var r, p := AtScale(v, s, scale), Pow(10, s);
    assert (-v) * Pow(10, scale) == -(v * Pow(10, scale));
    if v >= 0 && r > 0 {
      MulMono(1, r, p);
    } else if v <= 0 && r < 0 {
      MulMono(r, -1, p);
    }
  }

  /** A lower bound of the logarithm that is `eps` too large moves the product by `|e| * eps` only. */
  lemma MarginBelow(mag: real, x: real, eps: real, c: real)
    requires mag * x > c + 2.0 && mag * eps <= 2.0
    ensures mag * (x - eps) > c
  {}

  lemma MarginAbove(mag: real, x: real, eps: real, c: real)
    requires mag * x < -c - 2.0 && mag * eps <= 2.0
    ensures mag * (x + eps) < -c
  {}

  /** The margin of two absorbs an error of up to `2 / |e|` in the logarithm. */
  lemma ShortcutSound(base: Num, e: int, negScale: nat, truncScale: Option<nat>, logs: LogBounds, eps: real)
    requires Within(base, logs, eps) && ShortcutFires(base, e, negScale, truncScale, logs)
    requires Abs(e) as real * eps <= 2.0
    ensures TruncatesToZero(base, e, negScale, truncScale)
  {
    hide Pow, AtScale, Dividing.TruncQuot, TrimZeros;
    var mag := Abs(e);
    MulNonneg(|base.frac|, mag);
    AbsPow(base.Unscaled(), mag);
    if e > 0 {
      var s := truncScale.value;
      MarginAbove(mag as real, logs.hi, eps, s as real);
      assert PowerBelow(base, mag, -(s as int));
      PowStep(10, 0);
      SmallCut(Pow(base.Unscaled(), mag), |base.frac| * mag, s);
    } else {
      MarginBelow(mag as real, logs.lo, eps, negScale as real);
      assert PowerAbove(base, mag, negScale);
      PowAdd(10, |base.frac| * mag, negScale);
      PowPos(10, |base.frac| * mag + negScale);
      SmallQuotient(Pow(10, |base.frac| * mag + negScale), Pow(base.Unscaled(), mag));
    }
  }

  // ----- when it is wrong

  const TEN: Num := Num(false, [49, 48], [])
  const TENTH: Num := Num(false, [], [49])

  lemma TenIs()
    ensures TEN.WellFormed() && TEN.Unscaled() == 10 && TEN.frac == [] && !IsUnit(TEN.Trimmed())
    ensures TENTH.WellFormed() && TENTH.Unscaled() == 1 && |TENTH.frac| == 1 && !IsUnit(TENTH.Trimmed())
  {
    assert TEN.whole + TEN.frac == [49] + [48] && TENTH.whole + TENTH.frac == [49];
    BeSnoc([49], 48, 10, 48);
    OneDigit(49);
  }

  lemma {:induction false} PowOfOne(m: nat)
    ensures Pow(1, m) == 1
  {
    if m > 0 {
      PowOfOne(m - 1);
    }
  }

  lemma PowStrict(m: nat, n: nat)
    requires m < n
    ensures Pow(10, m) < Pow(10, n)
  {
    hide Pow;
    PowMono(10, m + 1, n);
    PowStep(10, m);
    PowPos(10, m);
  }

  lemma TenCompared(ten: Num, k: nat, n: int)
    requires ten.Unscaled() == 10 && |ten.frac| == 0
    ensures n < k ==> PowerAbove(ten, k, n)
    ensures k < n ==> PowerBelow(ten, k, n)
  {
    hide Pow, Num.Unscaled;
    PowStep(10, 0);
    assert |ten.frac| * k == 0;
    if 0 <= n < k {
      PowStrict(n, k);
    } else if n < 0 {
      PowAdd(10, k, -n);
      PowStrict(0, k - n);
    } else if k < n {
      PowStrict(k, n);
    }
  }

  lemma TenthCompared(tenth: Num, k: nat, n: int)
    requires tenth.Unscaled() == 1 && |tenth.frac| == 1
    ensures k + n < 0 ==> PowerAbove(tenth, k, n)
    ensures 0 < k + n ==> PowerBelow(tenth, k, n)
  {
    hide Pow, Num.Unscaled;
    PowOfOne(k);
    PowStep(10, 0);
    assert |tenth.frac| * k == k;
    if n >= 0 {
      PowAdd(10, k, n);
      if 0 < k + n {
        PowStrict(0, k + n);
      }
    } else if 0 < k + n {
      PowStrict(-n, k);
    } else if k + n < 0 {
      PowStrict(k, -n);
    }
  }

  lemma TenLog()
    ensures AtMostLog(TEN, 1.0) && AtLeastLog(TEN, 1.0)
    ensures AtMostLog(TENTH, -1.0) && AtLeastLog(TENTH, -1.0)
  {
    TenIs();
    hide PowerAbove, PowerBelow, Num.Unscaled;
    forall k: nat, n: int ensures
      && (n < k ==> PowerAbove(TEN, k, n)) && (k < n ==> PowerBelow(TEN, k, n))
      && (k + n < 0 ==> PowerAbove(TENTH, k, n)) && (0 < k + n ==> PowerBelow(TENTH, k, n))
    {
      TenCompared(TEN, k, n);
      TenthCompared(TENTH, k, n);
    }
  }

  /** Weaker bounds hold as well. */
  lemma LooserLog(base: Num, x: real, y: real)
    requires x <= y
    ensures AtMostLog(base, y) ==> AtMostLog(base, x)
    ensures AtLeastLog(base, x) ==> AtLeastLog(base, y)
  {
    hide PowerAbove, PowerBelow;
    forall k: nat, n: int | AtMostLog(base, y) && k > 0 && n as real < k as real * x ensures PowerAbove(base, k, n) {
      RealMono(k as real, x, y);
    }
    forall k: nat, n: int | AtLeastLog(base, x) && k > 0 && k as real * y < n as real ensures PowerBelow(base, k, n) {
      RealMono(k as real, x, y);
    }
  }

  lemma RealMono(k: real, x: real, y: real)
    requires 0.0 <= k && x <= y
    ensures k * x <= k * y
  {}

  lemma Overshoot(m: real, eps: real, x: real)
    requires m > 0.0 && m * eps > 2.0 && x == 1.0 + eps
    ensures eps > 0.0 && m * x > m + 2.0 && m * -x < -m - 2.0
  {
    var t := m * eps;
    assert m * x == m + t;
    assert m * -x == -(m * x);
    if eps <= 0.0 {
      RealMono(m, eps, 0.0);
    }
  }

  lemma WrongBelow(ten: Num, m: nat, logs: LogBounds)
    requires ten.Unscaled() == 10 && ten.frac == [] && !IsUnit(ten.Trimmed())
    requires m > 64 && logs.lo > 0.0 && m as real * logs.lo > m as real + 2.0
    ensures ShortcutFires(ten, -(m as int), m, None, logs) && !TruncatesToZero(ten, -(m as int), m, None)
  {
    hide Pow, TrimZeros, IsUnit, Num.Unscaled, Dividing.TruncQuot;
    assert |ten.frac| * m + m == m;
    PowPos(10, m);
    Dividing.TruncQuotIff(Pow(10, m), Pow(10, m), 0);
  }

  lemma WrongAbove(tenth: Num, m: nat, logs: LogBounds)
    requires tenth.Unscaled() == 1 && |tenth.frac| == 1 && !IsUnit(tenth.Trimmed())
    requires m > 64 && logs.hi < 0.0 && m as real * logs.hi < -(m as real) - 2.0
    ensures ShortcutFires(tenth, m, 0, Some(m), logs) && !TruncatesToZero(tenth, m, 0, Some(m))
  {
    hide Pow, TrimZeros, IsUnit, Num.Unscaled, AtScale;
    PowOfOne(m);
    assert |tenth.frac| * m == m;
    Dividing.SameScale(1, m);
  }

  /** Base 10: a logarithm of `1 + eps` says zero for `10^-m` shown at `m` digits. */
  lemma TenWrong(m: nat, eps: real)
    requires m > 64 && m as real * eps > 2.0
    ensures var logs := LogBounds(1.0 + eps, 1.0);
      && TEN.WellFormed() && Within(TEN, logs, eps)
      && ShortcutFires(TEN, -(m as int), m, None, logs) && !TruncatesToZero(TEN, -(m as int), m, None)
  {
    TenIs();
    TenLog();
    hide AtMostLog, AtLeastLog, ShortcutFires, TruncatesToZero, Num.Unscaled, Num.WellFormed, IsUnit, TrimZeros;
    var x := 1.0 + eps;
    Overshoot(m as real, eps, x);
    LooserLog(TEN, 1.0, x);
    WrongBelow(TEN, m, LogBounds(x, 1.0));
  }

  /** Base 0.1: a logarithm of `-1 - eps` says zero for `0.1^m` shown at `m` digits. */
  lemma TenthWrong(m: nat, eps: real)
    requires m > 64 && m as real * eps > 2.0
    ensures var logs := LogBounds(-1.0, -1.0 - eps);
      && TENTH.WellFormed() && Within(TENTH, logs, eps)
      && ShortcutFires(TENTH, m, 0, Some(m), logs) && !TruncatesToZero(TENTH, m, 0, Some(m))
  {
    TenIs();
    TenLog();
    hide AtMostLog, AtLeastLog, ShortcutFires, TruncatesToZero, Num.Unscaled, Num.WellFormed, IsUnit, TrimZeros;
    var x := 1.0 + eps;
    Overshoot(m as real, eps, x);
    LooserLog(TENTH, -x, -1.0);
    WrongAbove(TENTH, m, LogBounds(-1.0, -x));
  }

  /** The shortcut is right for all bounds of an accuracy exactly when that error stays within the margin. */
  lemma ShortcutExact(e: int, eps: real)
    requires eps >= 0.0
    ensures NeverWrong(e, eps) <==> Abs(e) <= 64 || Abs(e) as real * eps <= 2.0
  {
    hide Num.WellFormed, Within, ShortcutFires, TruncatesToZero;
    var mag := Abs(e);
    if mag <= 64 || mag as real * eps <= 2.0 {
      forall base: Num, negScale: nat, truncScale: Option<nat>, logs: LogBounds
        | Within(base, logs, eps) && ShortcutFires(base, e, negScale, truncScale, logs)
        ensures TruncatesToZero(base, e, negScale, truncScale)
      {
        FiresFar(base, e, negScale, truncScale, logs);
        ShortcutSound(base, e, negScale, truncScale, logs, eps);
      }
    } else if e > 0 {
      TenthWrong(mag, eps);
    } else {
      TenWrong(mag, eps);
    }
  }

  lemma FiresFar(base: Num, e: int, negScale: nat, truncScale: Option<nat>, logs: LogBounds)
    requires ShortcutFires(base, e, negScale, truncScale, logs)
    ensures Abs(e) > 64
  {}

  // ----- an input on which it is wrong

  /** Growth by less than `1 / (1 - n * d / b)`. */
  lemma {:induction false} PowUpper(b: int, d: int, n: nat)
    requires 0 < b && 0 <= d && n * d <= b
    ensures Pow(b + d, n) * (b - n * d) <= Pow(b, n) * b
  {
    if n > 0 {
      assert (n - 1) * d == n * d - d;
      PowUpper(b, d, n - 1);
      PowPos(b + d, n - 1);
      UpperStep(b, d, n * d, Pow(b + d, n - 1), Pow(b, n - 1));
    }
  }

  lemma UpperStep(b: int, d: int, t: int, p: int, q: int)
    requires 0 < b && 0 <= d && 0 <= t && 0 < p && p * (b - t + d) <= q * b
    ensures (b + d) * p * (b - t) <= b * q * b
  {
    var x, y := (b + d) * (b - t), b * (b - t + d);
    assert y - x == t * d;
    MulNonneg(t, d);
    MulMono(x, y, p);
    MulMono(p * (b - t + d), q * b, b);
    Turn(b + d, p, b - t);
    Turn(b, p, b - t + d);
  }

  lemma Turn(x: int, y: int, z: int)
    ensures x * y * z == x * z * y && x * (y * z) == x * z * y && y * z * x == x * z * y
  {
    assert x * y * z == x * (y * z) && y * z == z * y && x * (z * y) == x * z * y;
  }

  /** Growth by at least `1 + n * d / b`. */
  lemma {:induction false} PowLower(b: int, d: int, n: nat)
    requires 0 < b && 0 <= d
    ensures Pow(b, n) * (b + n * d) <= Pow(b + d, n) * b
  {
    if n > 0 {
      assert (n - 1) * d == n * d - d;
      MulNonneg(n - 1, d);
      PowLower(b, d, n - 1);
      PowPos(b, n - 1);
      LowerStep(b, d, n * d, Pow(b + d, n - 1), Pow(b, n - 1));
    }
  }

  lemma LowerStep(b: int, d: int, t: int, p: int, q: int)
    requires 0 < b && 0 <= d <= t && 0 < q && q * (b + t - d) <= p * b
    ensures b * q * (b + t) <= (b + d) * p * b
  {
    var x, y := b * (b + t), (b + d) * (b + t - d);
    assert y - x == d * (t - d);
    MulNonneg(d, t - d);
    MulMono(x, y, q);
    MulMono(q * (b + t - d), p * b, b + d);
    Turn(b, q, b + t);
    Turn(b + d, q, b + t - d);
    Turn(b + d, p, b);
  }

  lemma Pow16(x: int)
    ensures var y := x * x; var z := y * y; var w := z * z; Pow(x, 16) == w * w
  {
    hide Pow;
    var y := x * x;
    var z := y * y;
    Powers.PowHalved(x, 16);
    Powers.PowHalved(y, 8);
    Powers.PowHalved(z, 4);
    Powers.PowHalved(z * z, 2);
    PowStep(z * z * (z * z), 0);
  }

  /** Sixteen times a growth of at most `s / r`. */
  lemma SixteenTimes(p: int, q: int, r: int, s: int)
    requires 0 < p && 0 < q && 0 < r && 0 < s
    ensures p * r <= q * s ==> Pow(p, 16) * Pow(r, 16) <= Pow(q, 16) * Pow(s, 16)
  {
    hide Pow;
    Powers.PowProduct(p, r, 16);
    Powers.PowProduct(q, s, 16);
    MulStrict(0, p, r);
    if p * r <= q * s {
      Powers.PowMonoBase(p * r, q * s, 16);
    }
  }

  /** The `n`-th power of a growth, on both sides. */
  lemma GrowthPower(b: int, u: int, q: nat, n: nat, m: nat)
    requires 0 < b && 0 < u && m == q * n
    ensures 10 * Pow(b, q) <= Pow(u, q) ==> Pow(10, n) * Pow(b, m) <= Pow(u, m)
    ensures Pow(u, q) <= 10 * Pow(b, q) ==> Pow(u, m) <= Pow(10, n) * Pow(b, m)
  {
    hide Pow;
    Powers.PowProduct(10, Pow(b, q), n);
    PowMul(b, q, n);
    PowMul(u, q, n);
    PowPos(b, q);
    PowPos(u, q);
    if 10 * Pow(b, q) <= Pow(u, q) {
      Powers.PowMonoBase(10 * Pow(b, q), Pow(u, q), n);
    }
    if Pow(u, q) <= 10 * Pow(b, q) {
      Powers.PowMonoBase(Pow(u, q), 10 * Pow(b, q), n);
    }
  }

  /** Growth by at least ten in `q` steps: a power beyond `q * n` has grown by more than `10^n`. */
  lemma GrownAbove(b: int, u: int, q: nat, n: nat, k: nat)
    requires 0 < b < u && 10 * Pow(b, q) <= Pow(u, q) && q * n < k
    ensures Pow(b, k) * Pow(10, n) < Pow(u, k)
  {
    hide Pow;
    MulNonneg(q, n);
    var m: nat := q * n;
    GrowthPower(b, u, q, n, m);
    Beyond(b, u, Pow(10, n), m, k);
  }

  lemma Beyond(b: int, u: int, t: int, m: nat, k: nat)
    requires 0 < b < u && t * Pow(b, m) <= Pow(u, m) && m < k
    ensures Pow(b, k) * t < Pow(u, k)
  {
    hide Pow;
    var r := k - m;
    PowAdd(b, m, r);
    PowAdd(u, m, r);
    Powers.PowStrictBase(b, u, r);
    PowPos(u, m);
    MoreAbove(t, Pow(b, m), Pow(b, r), Pow(u, m), Pow(u, r));
  }

  lemma MoreAbove(t: int, bm: int, br: int, um: int, ur: int)
    requires t * bm <= um && 0 < br < ur && 0 < um
    ensures bm * br * t < um * ur
  {
    MulMono(t * bm, um, br);
    MulStrict(br, ur, um);
    Turn(t, bm, br);
    Turn(bm, br, t);
  }

  /** Growth by at most ten in `q` steps: a power before `q * n` has grown by less than `10^n`. */
  lemma GrownBelow(b: int, u: int, q: nat, n: nat, k: nat)
    requires 0 < b < u && Pow(u, q) <= 10 * Pow(b, q) && k < q * n
    ensures Pow(u, k) < Pow(b, k) * Pow(10, n)
  {
    hide Pow;
    var m: nat := q * n;
    var r := m - k;
    GrowthPower(b, u, q, n, m);
    PowAdd(b, k, r);
    PowAdd(u, k, r);
    Powers.PowStrictBase(b, u, r);
    PowPos(u, k);
    LessBelow(Pow(10, n), Pow(b, k), Pow(b, r), Pow(u, k), Pow(u, r));
  }

  lemma LessBelow(t: int, bk: int, br: int, uk: int, ur: int)
    requires uk * ur <= t * (bk * br) && 0 < br < ur && 0 < uk
    ensures uk < bk * t
  {
    MulStrict(br, ur, uk);
    assert t * (bk * br) == bk * t * br;
    MulCancelLt(uk, bk * t, br);
  }

  lemma StepsBelow(q: nat, n: int, k: nat, x: real)
    requires q > 0 && q as real * x <= 1.0 && n as real < k as real * x
    ensures q * n < k
  {
    RealStrict(q as real, n as real, k as real * x);
    RealMono(k as real, q as real * x, 1.0);
    assert q as real * (k as real * x) == k as real * (q as real * x);
  }

  lemma StepsAbove(q: nat, n: int, k: nat, x: real)
    requires q > 0 && 1.0 <= q as real * x && k as real * x < n as real
    ensures k < q * n
  {
    RealStrict(q as real, k as real * x, n as real);
    RealMono(k as real, 1.0, q as real * x);
    assert q as real * (k as real * x) == k as real * (q as real * x);
  }

  lemma RealStrict(q: real, x: real, y: real)
    requires 0.0 < q && x < y
    ensures q * x < q * y
  {}

  /** A growth rate bounds the logarithm. */
  lemma LogFromGrowth(base: Num, q: nat, x: real)
    requires q > 0 && Pow(10, |base.frac|) < base.Unscaled()
    requires 10 * Pow(Pow(10, |base.frac|), q) <= Pow(base.Unscaled(), q)
    requires 0.0 <= x && q as real * x <= 1.0
    ensures AtMostLog(base, x)
  {
    hide Pow, Num.Unscaled;
    var b, u := Pow(10, |base.frac|), base.Unscaled();
    PowPos(10, |base.frac|);
    forall k: nat, n: int | k > 0 && n as real < k as real * x ensures PowerAbove(base, k, n) {
      PowMul(10, |base.frac|, k);
      if n >= 0 {
        StepsBelow(q, n, k, x);
        GrownAbove(b, u, q, n, k);
      } else {
        Powers.PowStrictBase(b, u, k);
        PowPos(10, -n);
        MulMono(1, Pow(10, -n), Pow(u, k));
      }
    }
  }

  lemma LogFromSlowGrowth(base: Num, q: nat, x: real)
    requires q > 0 && Pow(10, |base.frac|) < base.Unscaled()
    requires Pow(base.Unscaled(), q) <= 10 * Pow(Pow(10, |base.frac|), q)
    requires 0.0 <= x && 1.0 <= q as real * x
    ensures AtLeastLog(base, x)
  {
    hide Pow, Num.Unscaled;
    var b, u := Pow(10, |base.frac|), base.Unscaled();
    PowPos(10, |base.frac|);
    forall k: nat, n: int | k > 0 && k as real * x < n as real ensures PowerBelow(base, k, n) {
      PowMul(10, |base.frac|, k);
      RealMono(k as real, 0.0, x);
      StepsAbove(q, n, k, x);
      GrownBelow(b, u, q, n, k);
    }
  }

  /** 1.000000000000007 */
  const NEARLY: Num := Num(false, [49], Zeros(14) + [55])

  lemma NearlyIs()
    ensures NEARLY.WellFormed() && |NEARLY.frac| == 15 && !IsUnit(NEARLY.Trimmed())
    ensures Pow(10, 15) == 1_000_000_000_000_000 && NEARLY.Unscaled() == Pow(10, 15) + 7
  {
    assert NEARLY.Trimmed().frac == NEARLY.frac;
    hide Be, Pow, TrimZeros;
    TenPowers();
    PowStep(10, 0);
    assert Pow(10, 7) * 10 == Pow(10, 8) by { PowStep(10, 7); }
    PowAdd(10, 7, 8);
    var z := Zeros(14) + [55];
    assert NEARLY.whole + NEARLY.frac == [49] + z;
    BeConcat([49], z, 10, 48);
    BeConcat(Zeros(14), [55], 10, 48);
    BeZeros(Zeros(14), 10, 48);
    OneDigit(49);
    OneDigit(55);
  }

  /** `1.000000000000007^(16 n) <= 10`. */
  lemma NearlyUpper(b: int, n: nat, q: nat)
    requires b == 1_000_000_000_000_000 && n == 19_000_000_000_000 && q == 16 * n
    ensures Pow(b + 7, q) <= 10 * Pow(b, q)
  {
    hide Pow;
    PowUpper(b, 7, n);
    PowPos(b, n);
    PowPos(b + 7, n);
    SixteenTimes(Pow(b + 7, n), Pow(b, n), 867, 1000);
    Pow16(867);
    Pow16(1000);
    PowMul(b + 7, n, 16);
    PowMul(b, n, 16);
    PowPos(b, q);
    UpperTen(Pow(b + 7, q), Pow(b, q), Pow(867, 16), Pow(1000, 16));
  }

  lemma UpperTen(p: int, q: int, r: int, s: int)
    requires 0 < r && 0 <= q && s <= 10 * r && p * r <= q * s
    ensures p <= 10 * q
  {
    MulMono(s, 10 * r, q);
    assert q * (10 * r) == 10 * q * r;
    MulCancelLe(p, 10 * q, r);
  }

  /** `1.000000000000007^(16 n) >= 10`. */
  lemma NearlyLower(b: int, n: nat, q: nat)
    requires b == 1_000_000_000_000_000 && n == 23_400_000_000_000 && q == 16 * n
    ensures 10 * Pow(b, q) <= Pow(b + 7, q)
  {
    hide Pow;
    PowLower(b, 7, n);
    PowPos(b, n);
    PowPos(b + 7, n);
    SixteenTimes(Pow(b, n), Pow(b + 7, n), 1163, 1000);
    Pow16(1163);
    Pow16(1000);
    PowMul(b + 7, n, 16);
    PowMul(b, n, 16);
    PowPos(b, q);
    LowerTen(Pow(b + 7, q), Pow(b, q), Pow(1163, 16), Pow(1000, 16));
  }

  lemma LowerTen(p: int, q: int, r: int, s: int)
    requires 0 < s && 0 <= q && 10 * s <= r && q * r <= p * s
    ensures 10 * q <= p
  {
    MulMono(10 * s, r, q);
    assert q * (10 * s) == 10 * q * s;
    MulCancelLe(10 * q, p, s);
  }

  /**
   * Half a unit in the last place of numbers from 8 to 16, which a correctly rounded logarithm of 16 digits
   * keeps to.
   */
  const HALF_ULP: real := 1.0 / 1_125_899_906_842_624.0

  lemma NearlyLog(q: nat, r: nat)
    requires q == 304_000_000_000_000 && r == 374_400_000_000_000
    ensures AtMostLog(NEARLY, 3.0 * HALF_ULP) && AtLeastLog(NEARLY, 5.0 * HALF_ULP)
    ensures Pow(NEARLY.Unscaled(), q) <= 10 * Pow(Pow(10, 15), q)
  {
    NearlyIs();
    hide Pow, Num.Unscaled, AtMostLog, AtLeastLog;
    NearlyUpper(Pow(10, 15), 19_000_000_000_000, q);
    NearlyLower(Pow(10, 15), 23_400_000_000_000, r);
    LogFromGrowth(NEARLY, r, 3.0 * HALF_ULP);
    LogFromSlowGrowth(NEARLY, q, 5.0 * HALF_ULP);
  }

  /** The power that is shown is not zero: `1.000000000000007^(25 q) <= 10^25`. */
  lemma NearlyShows(q: nat, m: nat)
    requires NEARLY.Unscaled() != 0 && Pow(NEARLY.Unscaled(), q) <= 10 * Pow(Pow(10, 15), q)
    requires |NEARLY.frac| == 15 && 0 < NEARLY.Unscaled() && m == 25 * q
    ensures Inverse(NEARLY, m, 25) != 0
  {
    hide Pow, Num.Unscaled, Dividing.TruncQuot;
    var b, u := Pow(10, 15), NEARLY.Unscaled();
    PowPos(10, 15);
    GrowthPower(b, u, q, 25, m);
    PowMul(10, 15, m);
    PowAdd(10, 15 * m, 25);
    PowPos(u, m);
    Dividing.TruncQuotIff(Pow(10, 15 * m + 25), Pow(u, m), 0);
  }

  /**
   * A correctly rounded logarithm is not accurate enough: 1.000000000000007 to the power -7600000000000000
   * shows a digit within 25 places, and the shortcut takes it to be zero.
   */
  lemma ShortcutWrong(e: int)
    requires e == -7_600_000_000_000_000
    ensures var logs := LogBounds(4.0 * HALF_ULP, 4.0 * HALF_ULP);
      && NEARLY.WellFormed() && Within(NEARLY, logs, HALF_ULP)
      && ShortcutFires(NEARLY, e, |NEARLY.frac| + 10, None, logs)
      && !TruncatesToZero(NEARLY, e, |NEARLY.frac| + 10, None)
  {
    NearlyIs();
    NearlyLog(304_000_000_000_000, 374_400_000_000_000);
    NearlyFires(e);
    hide Pow, Num.Unscaled, Num.WellFormed, AtMostLog, AtLeastLog, Inverse, IsUnit, TrimZeros, Fires;
    PowPos(10, 15);
    NearlyShows(304_000_000_000_000, -e);
  }

  lemma NearlyFires(e: int)
    requires e == -7_600_000_000_000_000
    ensures Fires(e, 25, None, LogBounds(4.0 * HALF_ULP, 4.0 * HALF_ULP))
  {}
}
