/** Rounding to a decimal place in eight modes. */
module Rounding {
  import opened Numerals
  import opened Words
  import opened Digits
  import opened Decimals
  import opened Wrappers

  datatype RoundingMode =
    | HalfAwayFromZero | HalfTowardsZero | HalfEven | HalfOdd
    | TowardsZero | AwayFromZero | NegativeInfinity | PositiveInfinity

  // ----- owned results

  /** An owned exact result: unscaled digits, at least `scale` of them. */
  datatype Exact = Exact(neg: bool, digits: seq<Digit>, scale: nat) {
    ghost predicate WellFormed() { scale <= |digits| }

    function Unscaled(): int { Signed(neg, Dec(digits)) }

    function View(): Num
      requires WellFormed()
    {
      var split := |digits| - scale;
      Num(neg, digits[..split][LeadingZeros(digits[..split])..], digits[split..])
    }
  }

  function FromDigits(neg: bool, digits: seq<Digit>, scale: nat): (r: Exact)
    ensures r.WellFormed() && r.neg == neg && r.scale == scale
    ensures r.Unscaled() == Signed(neg, Dec(digits))
    ensures |r.digits| == if |digits| < scale then scale else |digits|
  {
    if |digits| < scale then
      BeConcat(Zeros(scale - |digits|), digits, 10, 48);
      ZerosDec(scale - |digits|);
      Exact(neg, Zeros(scale - |digits|) + digits, scale)
    else Exact(neg, digits, scale)
  }

  /** A result viewed as an operand is the same number at the same scale. */
  lemma ViewValue(x: Exact)
    requires x.WellFormed()
    ensures var n := x.View(); n.WellFormed() && |n.frac| == x.scale && n.Unscaled() == x.Unscaled()
  {
    var split := |x.digits| - x.scale;
    var whole, frac := x.digits[..split], x.digits[split..];
    var stripped := whole[LeadingZeros(whole)..];
    assert x.digits == whole + frac;
    StrippedIs(whole);
    StripValue(whole);
    hide StripZeros, LeadingZeros, Be;
    BeConcat(whole, frac, 10, 48);
    BeConcat(stripped, frac, 10, 48);
  }

  // ----- what rounding means

  ghost predicate BreaksTie(mode: RoundingMode, n: int, d: int, q: int) {
    match mode
    case HalfAwayFromZero => Abs(n) < Abs(q) * d
    case HalfTowardsZero => Abs(q) * d < Abs(n)
    case HalfEven => q % 2 == 0
    case _ => q % 2 == 1
  }

  /** `q` is `n / d` rounded to an integer by `mode`. */
  ghost predicate IsRounded(mode: RoundingMode, n: int, d: int, q: int) {
    var e := q * d - n;
    && -d < e < d
    && match mode
       case TowardsZero => Abs(q) * d <= Abs(n)
       case AwayFromZero => Abs(n) <= Abs(q) * d
       case NegativeInfinity => e <= 0
       case PositiveInfinity => e >= 0
       case _ => 2 * Abs(e) <= d && (2 * Abs(e) == d ==> BreaksTie(mode, n, d, q))
  }

  lemma AbsTimes(q: int, d: int)
    requires d > 0
    ensures Abs(q) * d == Abs(q * d)
    ensures q >= 0 ==> q * d >= 0
    ensures q < 0 ==> q * d < 0
  {
    if q < 0 {
      MulStrict(q, 0, d);
      assert (-q) * d == -(q * d);
    } else {
      MulNonneg(q, d);
    }
  }

  /** What the mode asks of a multiple `at` of the divisor, where `size` is its magnitude. */
  ghost predicate Meets(mode: RoundingMode, n: int, d: int, q: int, at: int, size: int) {
    var e := at - n;
    && -d < e < d
    && match mode
       case TowardsZero => size <= Abs(n)
       case AwayFromZero => Abs(n) <= size
       case NegativeInfinity => e <= 0
       case PositiveInfinity => e >= 0
       case HalfAwayFromZero => 2 * Abs(e) <= d && (2 * Abs(e) == d ==> Abs(n) < size)
       case HalfTowardsZero => 2 * Abs(e) <= d && (2 * Abs(e) == d ==> size < Abs(n))
       case HalfEven => 2 * Abs(e) <= d && (2 * Abs(e) == d ==> q % 2 == 0)
       case HalfOdd => 2 * Abs(e) <= d && (2 * Abs(e) == d ==> q % 2 == 1)
  }

  lemma MeetsRounds(mode: RoundingMode, n: int, d: int, q: int)
    ensures Meets(mode, n, d, q, q * d, Abs(q) * d) <==> IsRounded(mode, n, d, q)
  {}

  /** The mode leaves no choice. */
  lemma RoundedUnique(mode: RoundingMode, n: int, d: int, q: int, q': int)
    requires d > 0 && IsRounded(mode, n, d, q) && IsRounded(mode, n, d, q')
    ensures q == q'
  {
    if q < q' {
      Excludes(mode, n, d, q, q');
    } else if q' < q {
      Excludes(mode, n, d, q', q);
    }
  }

  lemma Excludes(mode: RoundingMode, n: int, d: int, q: int, q': int)
    requires d > 0 && q < q' && IsRounded(mode, n, d, q)
    ensures !IsRounded(mode, n, d, q')
  {
    hide *;
    MeetsRounds(mode, n, d, q);
    MeetsRounds(mode, n, d, q');
    AbsTimes(q, d);
    AbsTimes(q', d);
    MulMono(q + 1, q', d);
    assert (q + 1) * d == q * d + d && (q + 2) * d == q * d + 2 * d;
    if q + 1 < q' {
      MulMono(q + 2, q', d);
    }
    if q < 0 {
      MulMono(q, -1, d);
    }
    NextFails(mode, n, d, q, q', q * d, q' * d);
  }

  lemma NextFails(mode: RoundingMode, n: int, d: int, q: int, q': int, at: int, at': int)
    requires Meets(mode, n, d, q, at, Abs(at)) && d > 0
    requires q < q' && if q' == q + 1 then at' == at + d else at' >= at + 2 * d
    requires (q >= 0 ==> at >= 0) && (q < 0 ==> at <= -d)
    ensures !Meets(mode, n, d, q', at', Abs(at'))
  {}

  /** Whether the mode selects the integer above the floor `k`, from which `n / d` is `rest / d` away. */
  predicate AboveFloor(mode: RoundingMode, n: int, d: int, k: int, rest: int) {
    match mode
    case NegativeInfinity => false
    case PositiveInfinity => rest > 0
    case TowardsZero => n < 0 && rest > 0
    case AwayFromZero => n > 0 && rest > 0
    case HalfAwayFromZero => if n > 0 then 2 * rest >= d else 2 * rest > d
    case HalfTowardsZero => if n > 0 then 2 * rest > d else 2 * rest >= d
    case HalfEven => 2 * rest > d || (2 * rest == d && k % 2 == 1)
    case HalfOdd => 2 * rest > d || (2 * rest == d && k % 2 == 0)
  }

  /** Every mode selects the floor or the integer above it, by that rule. */
  lemma RoundedIff(mode: RoundingMode, n: int, d: int, q: int)
    requires d > 0
    ensures IsRounded(mode, n, d, q) <==> q == n / d + if AboveFloor(mode, n, d, n / d, n % d) then 1 else 0
  {
    DivModFact(n, d);
    FloorRounds(mode, n, d, n / d, n % d);
    hide IsRounded, AboveFloor;
    if IsRounded(mode, n, d, q) {
      RoundedUnique(mode, n, d, q, n / d + if AboveFloor(mode, n, d, n / d, n % d) then 1 else 0);
    }
  }

  lemma FloorRounds(mode: RoundingMode, n: int, d: int, k: int, rest: int)
    requires n == k * d + rest && 0 <= rest < d
    ensures IsRounded(mode, n, d, k + if AboveFloor(mode, n, d, k, rest) then 1 else 0)
  {
    hide AboveFloor, IsRounded, Meets;
    var q := if AboveFloor(mode, n, d, k, rest) then k + 1 else k;
    assert (k + 1) * d == k * d + d;
    AbsTimes(q, d);
    if k < 0 {
      MulMono(k, -1, d);
    } else {
      MulNonneg(k, d);
    }
    FloorMeets(mode, n, d, k, rest, q, k * d, q * d);
    MeetsRounds(mode, n, d, q);
  }

  lemma FloorMeets(mode: RoundingMode, n: int, d: int, k: int, rest: int, q: int, low: int, at: int)
    requires n == low + rest && 0 <= rest < d && (k >= 0 ==> low >= 0) && (k < 0 ==> low <= -d)
    requires if AboveFloor(mode, n, d, k, rest) then q == k + 1 && at == low + d else q == k && at == low
    ensures Meets(mode, n, d, q, at, Abs(at))
  {}

  lemma ScaledTerms(n: int, d: int, q: int, c: int)
    requires c > 0 && d > 0
    ensures var e := q * d - n;
      && q * (d * c) - n * c == e * c && Abs(q * (d * c) - n * c) == Abs(e) * c
      && Abs(q) * (d * c) == Abs(q) * d * c && Abs(n * c) == Abs(n) * c
      && (-d < e < d <==> -(d * c) < e * c < d * c)
      && (e <= 0 <==> e * c <= 0) && (e >= 0 <==> e * c >= 0)
      && (2 * Abs(e) <= d <==> 2 * (Abs(e) * c) <= d * c) && (2 * Abs(e) == d <==> 2 * (Abs(e) * c) == d * c)
      && (Abs(q) * d <= Abs(n) <==> Abs(q) * d * c <= Abs(n) * c)
      && (Abs(n) <= Abs(q) * d <==> Abs(n) * c <= Abs(q) * d * c)
  {
    var e := q * d - n;
    hide Abs;
    AbsTimes(n, c);
    AbsTimes(e, c);
    Regroup(n, d, q, c);
    Regroup(0, d, Abs(q), c);
    Monotone(-d, e, c);
    Monotone(e, d, c);
    Monotone(e, 0, c);
    Monotone(0, e, c);
    Monotone(2 * Abs(e), d, c);
    Monotone(Abs(q) * d, Abs(n), c);
    Monotone(Abs(n), Abs(q) * d, c);
    Regroup(0, -1, d, c);
    Regroup(0, 2, Abs(e), c);
  }

  lemma Regroup(n: int, d: int, q: int, c: int)
    ensures q * (d * c) - n * c == (q * d - n) * c && q * (d * c) == q * d * c
    ensures d * q * c == d * (q * c)
  {}

  /** The same place, with numerator and denominator multiplied alike. */
  lemma RoundedScaled(mode: RoundingMode, n: int, d: int, q: int, c: int)
    requires c > 0 && d > 0 && IsRounded(mode, n, d, q)
    ensures IsRounded(mode, n * c, d * c, q)
  {
    ScaledTerms(n, d, q, c);
    hide Abs;
  }

  lemma Monotone(x: int, y: int, c: int)
    requires c > 0
    ensures x < y <==> x * c < y * c
    ensures x <= y <==> x * c <= y * c
    ensures x == y <==> x * c == y * c
  {
    if x < y {
      MulStrict(x, y, c);
    } else if y < x {
      MulStrict(y, x, c);
    }
  }

  // ----- the decision

  datatype Half = Below | Exactly | Above

  predicate RoundsUp(mode: RoundingMode, neg: bool, half: Half, nonzero: bool, last: int) {
    match mode
    case HalfAwayFromZero => half != Below
    case HalfTowardsZero => half == Above
    case HalfEven => half == Above || (half == Exactly && last % 2 == 1)
    case HalfOdd => half == Above || (half == Exactly && last % 2 == 0)
    case TowardsZero => false
    case AwayFromZero => nonzero
    case NegativeInfinity => nonzero && neg
    case PositiveInfinity => nonzero && !neg
  }

  function HalfOf(rest: int, unit: int): Half {
    if 2 * rest < unit then Below else if 2 * rest == unit then Exactly else Above
  }

  lemma DecisionTerms(neg: bool, up: bool, k: nat, rest: int, unit: int)
    requires 0 <= rest < unit
    ensures 0 <= k * unit
    ensures var q, n := Signed(neg, if up then k + 1 else k), Signed(neg, k * unit + rest);
      && q * unit - n == Signed(neg, if up then unit - rest else -rest)
      && Abs(q) * unit == (if up then k * unit + unit else k * unit)
      && Abs(n) == k * unit + rest
  {
    var q := if up then k + 1 else k;
    AbsTimes(q, unit);
    AbsTimes(k, unit);
    assert (k + 1) * unit == k * unit + unit;
    assert (-(q as int)) * unit == -(q * unit);
  }

  lemma Parity(neg: bool, up: bool, k: nat)
    ensures Signed(neg, if up then k + 1 else k) % 2 == if up then 1 - k % 2 else k % 2
  {}

  /** The decision on kept digits `k` and discarded rest is rounding by the mode. */
  lemma Decision(mode: RoundingMode, neg: bool, k: nat, rest: int, unit: int)
    requires 0 <= rest < unit
    ensures var up := RoundsUp(mode, neg, HalfOf(rest, unit), rest != 0, k % 2);
      IsRounded(mode, Signed(neg, k * unit + rest), unit, Signed(neg, if up then k + 1 else k))
  {
    var up := RoundsUp(mode, neg, HalfOf(rest, unit), rest != 0, k % 2);
    DecisionTerms(neg, up, k, rest, unit);
    Parity(neg, up, k);
    var q, n := Signed(neg, if up then k + 1 else k), Signed(neg, k * unit + rest);
    assert Abs(q * unit - n) == if up then unit - rest else rest;
    assert (q * unit - n <= 0 <==> neg == up || (!up && rest == 0))
      && (q * unit - n >= 0 <==> neg != up || (!up && rest == 0));
    hide Signed, Abs;
  }

  // ----- the discarded digits

  function Flat(parts: seq<seq<Digit>>): seq<Digit> {
    if |parts| == 0 then [] else Flat(parts[..|parts| - 1]) + parts[|parts| - 1]
  }

  /** First digit, and whether any later one is not zero. */
  ghost predicate Classified(d: seq<Digit>, first: Option<int>, rest: bool) {
    && first == (if |d| == 0 then None else Some(d[0] as int - 48))
    && (rest <==> |d| > 0 && !AllZeros(d[1..]))
  }

  lemma ClassifyMore(d: seq<Digit>, c: Digit, first: Option<int>, rest: bool)
    requires Classified(d, first, rest)
    ensures Classified(d + [c], if first.None? then Some(c as int - 48) else first, rest || (first.Some? && c != 48))
  {
    var t := d + [c];
    if |d| > 0 {
      assert t[1..] == d[1..] + [c];
      assert t[1..][|d| - 1] == c;
      assert forall i :: 0 <= i < |d| - 1 ==> t[1..][i] == d[1..][i];
    } else {
      assert t[1..] == [];
    }
  }

  lemma ClassifyRest(d: seq<Digit>, more: seq<Digit>, first: Option<int>)
    requires Classified(d, first, true)
    ensures Classified(d + more, first, true)
  {
    assert (d + more)[1..] == d[1..] + more;
    var i :| 0 <= i < |d[1..]| && d[1..][i] != 48;
    assert (d + more)[1..][i] == d[1..][i];
  }

  /** Scans the discarded parts until the answer is known. */
  method Classify(parts: seq<seq<Digit>>) returns (first: Option<int>, rest: bool)
    ensures Classified(Flat(parts), first, rest)
  {
    hide Classified;
    first, rest := None, false;
    assert Classified([], None, false) by { ClassifiedNil(); }
    for i := 0 to |parts|
      invariant Classified(Flat(parts[..i]), first, rest)
      invariant !rest
    {
      FlatNext(parts, i);
      first, rest := ClassifyPart(Flat(parts[..i]), parts[i], first);
      if rest {
        FlatSplit(parts, i + 1);
        ClassifyRest(Flat(parts[..i + 1]), Flat(parts[i + 1..]), first);
        return;
      }
    }
    assert parts[..|parts|] == parts;
  }

  lemma ClassifiedNil()
    ensures Classified([], None, false)
  {}

  lemma FlatNext(parts: seq<seq<Digit>>, i: nat)
    requires i < |parts|
    ensures Flat(parts[..i + 1]) == Flat(parts[..i]) + parts[i]
  {
    assert parts[..i + 1][..i] == parts[..i];
  }

  lemma {:induction false} FlatSplit(parts: seq<seq<Digit>>, i: nat)
    requires i <= |parts|
    ensures Flat(parts) == Flat(parts[..i]) + Flat(parts[i..])
    decreases |parts| - i
  {
    if i == |parts| {
      assert parts[..i] == parts;
    } else {
      FlatSplit(parts, i + 1);
      FlatNext(parts, i);
      FlatFirst(parts[i..]);
      assert parts[i..][1..] == parts[i + 1..];
    }
  }

  lemma {:induction false} FlatFirst(parts: seq<seq<Digit>>)
    requires |parts| > 0
    ensures Flat(parts) == parts[0] + Flat(parts[1..])
  {
    var n := |parts| - 1;
    if n > 0 {
      FlatFirst(parts[..n]);
      assert parts[..n][1..] == parts[1..][..n - 1];
    }
  }

  method ClassifyPart(ghost before: seq<Digit>, part: seq<Digit>, first0: Option<int>)
    returns (first: Option<int>, rest: bool)
    requires Classified(before, first0, false)
    ensures Classified(before + part, first, rest)
  {
    hide Classified;
    first, rest := first0, false;
    assert before + part[..0] == before;
    for j := 0 to |part|
      invariant Classified(before + part[..j], first, rest)
      invariant !rest
    {
      ghost var d := before + part[..j];
      assert before + part[..j + 1] == d + [part[j]];
      ClassifyMore(d, part[j], first, rest);
      if first.None? {
        first := Some(part[j] as int - 48);
      } else if part[j] != 48 {
        rest := true;
        ClassifyRest(d + [part[j]], part[j + 1..], first);
        assert before + part == (d + [part[j]]) + part[j + 1..];
        return;
      }
    }
    assert part[..|part|] == part;
  }

  function HalfBy(first: int, rest: bool): Half {
    if first < 5 then Below else if first > 5 then Above else if rest then Above else Exactly
  }

  /** First digit and later digits decide the comparison with one half. */
  lemma ClassifiedHalf(d: seq<Digit>, first: Option<int>, rest: bool)
    requires Classified(d, first, rest) && |d| > 0
    ensures 0 <= first.value <= 9
    ensures HalfOf(Dec(d), Pow(10, |d|)) == HalfBy(first.value, rest)
    ensures Dec(d) != 0 <==> first.value != 0 || rest
  {
    hide Be, Pow;
    var n := |d| - 1;
    BeSplit(d, 1, 10, 48);
    assert d[..1] == [d[0]];
    OneDigit(d[0]);
    BeBound(d[1..], 10, 48);
    ZeroDigits(d[1..]);
    PowPos(10, n);
    PowStep(10, n);
    HalfArithmetic(first.value, Dec(d[1..]), Pow(10, n));
  }

  lemma HalfArithmetic(f: int, r: int, p: int)
    requires 0 <= f <= 9 && 0 <= r < p
    ensures HalfOf(f * p + r, 10 * p) == HalfBy(f, r != 0)
    ensures f * p + r != 0 <==> f != 0 || r != 0
  {
    if f < 5 {
      MulMono(f, 4, p);
    } else if f > 5 {
      MulMono(6, f, p);
    }
    MulNonneg(f, p);
    if f > 0 {
      MulMono(1, f, p);
    }
  }

  // ----- carrying into the kept digits

  /** Adds one in the last place; the leading zero absorbs the carry. */
  method Increment(digits: seq<Digit>) returns (r: seq<Digit>)
    requires |digits| > 0 && digits[0] == 48
    ensures |r| == |digits| && Dec(r) == Dec(digits) + 1
  {
    hide Be;
    r := digits;
    var i := |digits| - 1;
    assert digits[..i + 1] == digits;
    BeConcat(digits, [], 10, 48);
    ghost var low: seq<Digit> := [];
    BeNil(10, 48);
    PowStep(10, 0);
    while r[i] == 57
      invariant 0 <= i < |r| == |digits|
      invariant r == digits[..i + 1] + low && |low| == |digits| - i - 1
      invariant Dec(digits) + 1 == (Dec(digits[..i + 1]) + 1) * Pow(10, |low|) + Dec(low)
      decreases i
    {
      assert i > 0;
      CarryOn(digits, i, low);
      r := r[i := 48];
      low := [48] + low;
      i := i - 1;
      assert r == digits[..i + 1] + low;
    }
    LastUp(digits, i, low);
    r := r[i := r[i] as int + 1];
    assert r == (digits[..i] + [digits[i] as int + 1]) + low;
  }

  lemma CarryOn(digits: seq<Digit>, i: nat, low: seq<Digit>)
    requires 0 < i < |digits| && digits[i] == 57
    ensures (Dec(digits[..i + 1]) + 1) * Pow(10, |low|) + Dec(low) ==
      (Dec(digits[..i]) + 1) * Pow(10, |low| + 1) + Dec([48] + low)
  {
    hide Be, Pow;
    assert digits[..i + 1] == digits[..i] + [digits[i]];
    BeSnoc(digits[..i], digits[i], 10, 48);
    BeConcat([48], low, 10, 48);
    OneDigit(48);
    PowStep(10, |low|);
    CarryArithmetic(Dec(digits[..i]), Pow(10, |low|));
  }

  lemma CarryArithmetic(x: int, p: int)
    ensures (x * 10 + 9 + 1) * p == (x + 1) * (10 * p)
  {}

  lemma LastUp(digits: seq<Digit>, i: nat, low: seq<Digit>)
    requires i < |digits| && digits[i] < 57
    ensures Dec((digits[..i] + [digits[i] as int + 1]) + low) == (Dec(digits[..i + 1]) + 1) * Pow(10, |low|) + Dec(low)
  {
    hide Be, Pow;
    assert digits[..i + 1] == digits[..i] + [digits[i]];
    BeSnoc(digits[..i], digits[i], 10, 48);
    BeSnoc(digits[..i], digits[i] as int + 1, 10, 48);
    BeConcat(digits[..i] + [digits[i] as int + 1], low, 10, 48);
  }

  // ----- rounding

  function Max0(x: int): nat { if x > 0 then x else 0 }

  /** `n` counted in units of `10^-precision`, as a fraction. */
  function Numerator(n: Num, precision: int): int { n.Unscaled() * Pow(10, Max0(precision)) }

  function Denominator(n: Num, precision: int): int { Pow(10, |n.frac| + Max0(-precision)) }

  /** The kept digits, and the discarded ones behind them. */
  function Kept(n: Num, precision: int): seq<Digit>
    requires precision >= 0 ==> |n.frac| > precision
  {
    if precision >= 0 then n.whole + n.frac[..precision]
    else if -precision >= |n.whole| then []
    else n.whole[..|n.whole| + precision]
  }

  function Discarded(n: Num, precision: int): seq<seq<Digit>>
    requires precision >= 0 ==> |n.frac| > precision
  {
    if precision >= 0 then [n.frac[precision..]]
    else if -precision >= |n.whole| then [n.whole, n.frac]
    else [n.whole[|n.whole| + precision..], n.frac]
  }

  /** How many digits one unit of the last kept place spans. */
  function UnitDigits(n: Num, precision: int): int { |n.frac| - precision }

  lemma KeptAndDiscarded(n: Num, precision: int)
    requires precision >= 0 ==> |n.frac| > precision
    ensures Kept(n, precision) + Flat(Discarded(n, precision)) == n.whole + n.frac
    ensures |Flat(Discarded(n, precision))| <= UnitDigits(n, precision)
    ensures |Flat(Discarded(n, precision))| < UnitDigits(n, precision) <==> precision < 0 && -precision > |n.whole|
    ensures precision < 0 && -precision > |n.whole| ==> Kept(n, precision) == []
    ensures !(precision < 0 && -precision > |n.whole|) ==> |Flat(Discarded(n, precision))| > 0
  {
    FlatParts(n.frac, []);
    if precision >= 0 {
      FlatParts(n.frac[precision..], []);
      Rejoin(n.whole, n.frac, precision);
    } else if -precision >= |n.whole| {
      FlatParts(n.whole, n.frac);
      assert [] + (n.whole + n.frac) == n.whole + n.frac;
    } else {
      var k := |n.whole| + precision;
      FlatParts(n.whole[k..], n.frac);
      assert n.whole[..k] + (n.whole[k..] + n.frac) == n.whole + n.frac;
    }
  }

  lemma Rejoin(whole: seq<Digit>, frac: seq<Digit>, k: nat)
    requires k <= |frac|
    ensures whole + frac[..k] + frac[k..] == whole + frac
  {}

  lemma FlatParts(a: seq<Digit>, b: seq<Digit>)
    ensures Flat([a]) == a && Flat([a, b]) == a + b
  {
    var one, two := [a], [a, b];
    assert one[..0] == [] && two[..1] == one;
    assert [] + a == a;
  }

  /**
   * The number is the kept digits times the unit plus the discarded rest, and rest and unit compare as the
   * first digits say.
   */
  lemma SplitValue(n: Num, precision: int, first: Option<int>, rest: bool)
    requires precision >= 0 ==> |n.frac| > precision
    requires Classified(Flat(Discarded(n, precision)), first, rest)
    ensures var d, unit := Dec(Flat(Discarded(n, precision))), Pow(10, UnitDigits(n, precision));
      var implicit := precision < 0 && -precision > |n.whole|;
      && 0 <= d < unit && Dec(n.whole + n.frac) == Dec(Kept(n, precision)) * unit + d
      && (d != 0 <==> (first.Some? && first.value != 0) || rest)
      && (implicit ==> HalfOf(d, unit) == Below)
      && (!implicit ==> first.Some? && HalfOf(d, unit) == HalfBy(first.value, rest))
  {
    var kept, flat := Kept(n, precision), Flat(Discarded(n, precision));
    KeptAndDiscarded(n, precision);
    hide *;
    BeConcat(kept, flat, 10, 48);
    BeBound(flat, 10, 48);
    if |flat| > 0 {
      ClassifiedHalf(flat, first, rest);
    } else {
      NothingThere(flat, first, rest);
    }
    if precision < 0 && -precision > |n.whole| {
      BelowHalf(flat, UnitDigits(n, precision));
      NoKept(kept);
    }
  }

  /** With a place to spare in front, the discarded digits are below one half. */
  lemma BelowHalf(flat: seq<Digit>, u: nat)
    requires |flat| < u
    ensures 0 <= Dec(flat) < Pow(10, u) && HalfOf(Dec(flat), Pow(10, u)) == Below
  {
    hide Be, Pow;
    BeBound(flat, 10, 48);
    PowMono(10, |flat|, u - 1);
    PowStep(10, u - 1);
  }

  lemma NoKept(kept: seq<Digit>)
    requires kept == []
    ensures forall unit: int :: Dec(kept) * unit == 0
  {}

  lemma NothingThere(d: seq<Digit>, first: Option<int>, rest: bool)
    requires Classified(d, first, rest) && |d| == 0
    ensures first == None && !rest && Dec(d) == 0
  {}

  lemma LastParity(kept: seq<Digit>)
    ensures 0 <= Dec(kept) && Dec(kept) % 2 == (if |kept| == 0 then 0 else (kept[|kept| - 1] as int - 48) % 2)
  {
    BeBound(kept, 10, 48);
  }

  /** Rounding the split number is rounding the number at the requested place. */
  lemma RoundsAt(n: Num, precision: int, mode: RoundingMode, up: bool, d: int)
    requires precision >= 0 ==> |n.frac| > precision
    requires var unit := Pow(10, UnitDigits(n, precision));
      && 0 <= d < unit && Dec(n.whole + n.frac) == Dec(Kept(n, precision)) * unit + d
      && up == RoundsUp(mode, n.neg, HalfOf(d, unit), d != 0, Dec(Kept(n, precision)) % 2)
    ensures var k := Dec(Kept(n, precision));
      IsRounded(mode, Numerator(n, precision), Denominator(n, precision), Signed(n.neg, if up then k + 1 else k))
  {
    var k, unit := Dec(Kept(n, precision)), Pow(10, UnitDigits(n, precision));
    LastParity(Kept(n, precision));
    hide Kept, Be, IsRounded, RoundsUp, HalfOf, Pow;
    Decision(mode, n.neg, k, d, unit);
    var q := Signed(n.neg, if up then k + 1 else k);
    var p := Pow(10, Max0(precision));
    PowPos(10, Max0(precision));
    PowPos(10, UnitDigits(n, precision));
    RoundedScaled(mode, n.Unscaled(), unit, q, p);
    if precision >= 0 {
      PowAdd(10, UnitDigits(n, precision), precision);
    } else {
      PowStep(10, 0);
      assert unit * p == unit;
    }
  }

  /** The exact value at a wider scale needs no rounding. */
  lemma NothingDiscarded(n: Num, precision: int, mode: RoundingMode, digits: seq<Digit>)
    requires precision >= |n.frac| && digits == n.whole + n.frac + Zeros(precision - |n.frac|)
    ensures IsRounded(mode, Numerator(n, precision), Denominator(n, precision), Signed(n.neg, Dec(digits)))
  {
    hide Be, Pow;
    var z := Zeros(precision - |n.frac|);
    BeConcat(n.whole + n.frac, z, 10, 48);
    ZerosDec(|z|);
    PowAdd(10, |z|, |n.frac|);
    PowPos(10, |n.frac|);
    var m := Dec(n.whole + n.frac);
    Exactly3(n.neg, m, Pow(10, |z|), Pow(10, |n.frac|));
    ExactRounds(mode, Signed(n.neg, Dec(digits)), Pow(10, |n.frac|));
  }

  lemma Exactly3(neg: bool, m: int, p: int, q: int)
    ensures Signed(neg, m * p) * q == Signed(neg, m) * (p * q)
  {}

  lemma ExactRounds(mode: RoundingMode, q: int, d: int)
    requires d > 0
    ensures IsRounded(mode, q * d, d, q)
  {
    AbsTimes(q, d);
  }

  /** Whether the digits of a result that is not zero would exceed the limit. */
  ghost predicate TooLong(n: Num, precision: int, q: int, maxLen: nat) {
    if precision >= |n.frac| then |n.whole| + precision > maxLen
    else q != 0 && |Kept(n, precision)| + 1 + Max0(-precision) > maxLen
  }

  /** `r` is the integer `q` of units `10^-precision`, at scale `max(precision, 0)`; the limit alone withholds it. */
  ghost predicate Delivers(n: Num, precision: int, q: int, maxLen: nat, r: Option<Exact>) {
    && (r.None? <==> TooLong(n, precision, q, maxLen))
    && (r.Some? ==>
      && r.value.WellFormed() && r.value.scale == Max0(precision)
      && r.value.Unscaled() == q * Pow(10, Max0(-precision))
      && (q != 0 ==> |r.value.digits| <= maxLen))
  }

  /** Whether the kept digits go up, from what was discarded and the last kept digit. */
  method Decide(n: Num, precision: int, mode: RoundingMode, kept: seq<Digit>) returns (up: bool)
    requires precision >= 0 ==> |n.frac| > precision
    requires kept == Kept(n, precision)
    ensures var k := Dec(kept);
      IsRounded(mode, Numerator(n, precision), Denominator(n, precision), Signed(n.neg, if up then k + 1 else k))
  {
    var discarded := Discarded(n, precision);
    var first, rest := Classify(discarded);
    var implicitZero := precision < 0 && -precision > |n.whole|;
    var f := if implicitZero || first.None? then 0 else first.value;
    var nz := if implicitZero then (first.Some? && first.value != 0) || rest else rest;
    var last := if |kept| > 0 then kept[|kept| - 1] as int - 48 else 0;
    up := RoundsUp(mode, n.neg, HalfBy(f, nz), f != 0 || nz, last);
    ghost var d := Dec(Flat(discarded));
    hide Be, Flat, Kept, Discarded, Classified, IsRounded, Numerator, Denominator, Pow;
    SplitValue(n, precision, first, rest);
    LastParity(kept);
    RoundsAt(n, precision, mode, up, d);
  }

  /** The digits of the rounded magnitude: a leading zero for the carry, the kept digits, and the dropped places. */
  method RoundedDigits(kept: seq<Digit>, up: bool, zeros: nat) returns (digits: seq<Digit>)
    ensures |digits| == 1 + |kept| + zeros
    ensures var k := Dec(kept); Dec(digits) == (if up then k + 1 else k) * Pow(10, zeros)
  {
    hide Be, Pow;
    digits := [48] + kept;
    BeConcat([48], kept, 10, 48);
    OneDigit(48);
    if up {
      digits := Increment(digits);
    }
    BeConcat(digits, Zeros(zeros), 10, 48);
    ZerosDec(zeros);
    digits := digits + Zeros(zeros);
  }

  lemma KeptZero(n: Num, precision: int)
    requires n.WellFormed() && (precision >= 0 ==> |n.frac| > precision)
    ensures var kept := Kept(n, precision);
      && 0 <= Dec(kept) && (Dec(kept) == 0 <==> AllZeros(kept))
      && (AllZeros(kept) <==>
        (if precision >= 0 then |n.whole| == 0 && AllZeros(n.frac[..precision]) else |kept| == 0))
  {
    var kept := Kept(n, precision);
    hide Be;
    ZeroDigits(kept);
    if |kept| > 0 {
      if |n.whole| > 0 {
        assert kept[0] == n.whole[0];
      } else if precision >= 0 {
        assert kept == n.frac[..precision];
      }
    }
  }

  lemma KeptLength(n: Num, precision: int)
    requires precision >= 0 ==> |n.frac| > precision
    ensures precision >= 0 ==> |Kept(n, precision)| == |n.whole| + precision
  {}

  method RoundDiscarding(n: Num, precision: int, mode: RoundingMode, maxLen: nat)
    returns (r: Option<Exact>, ghost q: int)
    requires n.WellFormed() && (precision >= 0 ==> |n.frac| > precision)
    ensures IsRounded(mode, Numerator(n, precision), Denominator(n, precision), q)
    ensures Delivers(n, precision, q, maxLen, r)
  {
    hide Be, Pow, IsRounded, Numerator, Denominator, Kept;
    var kept := Kept(n, precision);
    KeptLength(n, precision);
    var zeros := Max0(-precision);
    var up := Decide(n, precision, mode, kept);
    ghost var k := Dec(kept);
    q := Signed(n.neg, if up then k + 1 else k);
    KeptZero(n, precision);
    var outScale := Max0(precision);
    var noneKept := if precision >= 0 then |n.whole| == 0 && AllZeros(n.frac[..precision]) else |kept| == 0;
    if !up && noneKept {
      ZerosDec(outScale);
      return Some(FromDigits(false, Zeros(outScale), outScale)), q;
    }
    if |kept| + 1 + zeros > maxLen {
      return None, q;
    }
    var digits := RoundedDigits(kept, up, zeros);
    SignedTimes(n.neg, if up then k + 1 else k, Pow(10, zeros));
    r := Some(FromDigits(n.neg, digits, outScale));
  }

  lemma SignedTimes(neg: bool, m: int, p: int)
    ensures Signed(neg, m * p) == Signed(neg, m) * p
  {}

  /**
   * Rounds `n` to `precision` decimal places (negative: to a power of ten): the result is the
   * integer `q` that the mode selects, in those units, unless its digits would exceed `maxLen`.
   */
  method Round(n: Num, precision: int, mode: RoundingMode, maxLen: nat) returns (r: Option<Exact>)
    requires n.WellFormed()
    ensures exists q ::
      IsRounded(mode, Numerator(n, precision), Denominator(n, precision), q) && Delivers(n, precision, q, maxLen, r)
  {
    hide Be, Pow, IsRounded, Numerator, Denominator;
    ghost var q;
    if precision >= 0 && |n.frac| <= precision {
      var digits := n.whole + n.frac + Zeros(precision - |n.frac|);
      NothingDiscarded(n, precision, mode, digits);
      q := Signed(n.neg, Dec(digits));
      if |n.whole| + precision > maxLen {
        return None;
      }
      PowStep(10, 0);
      r := Some(FromDigits(n.neg, digits, precision));
      assert q * Pow(10, Max0(-precision)) == q;
    } else {
      r, q := RoundDiscarding(n, precision, mode, maxLen);
    }
  }
}
