/** Powers by repeated squaring, modular powers, and square roots. */
module Powers {
  import opened Numerals
  import opened Words
  import opened Digits
  import opened Decimals
  import opened Operands
  import opened Rounding
  import Dividing
  import DivRem
  import Karatsuba
  import Limbs
  import Multiplying
  import Packing
  import Unpacking

  // ----- laws of powers

  lemma {:induction false} PowProduct(x: int, y: int, e: nat)
    ensures Pow(x * y, e) == Pow(x, e) * Pow(y, e)
  {
    if e > 0 {
      PowProduct(x, y, e - 1);
      Multiplying.Regroup(x, y, Pow(x, e - 1), Pow(y, e - 1));
      Multiplying.Regroup(x, Pow(x, e - 1), y, Pow(y, e - 1));
    }
  }

  /** The step of square-and-multiply. */
  lemma PowHalved(b: int, k: nat)
    ensures Pow(b, k) == Pow(b * b, k / 2) * (if k % 2 == 1 then b else 1)
  {
    hide Pow;
    PowProduct(b, b, k / 2);
    PowAdd(b, k / 2, k / 2);
    if k % 2 == 1 {
      PowStep(b, k - 1);
    }
  }

  lemma {:induction false} PowSigned(neg: bool, m: int, e: nat)
    ensures Pow(Signed(neg, m), e) == Signed(neg && e % 2 == 1, Pow(m, e))
  {
    if neg && e > 0 {
      PowSigned(neg, m, e - 1);
      var p := Pow(m, e - 1);
      assert (-m) * p == -(m * p) && (-m) * (-p) == m * p;
    }
  }

  lemma {:induction false} PowNonneg(m: int, e: nat)
    requires 0 <= m
    ensures 0 <= Pow(m, e) && (Pow(m, e) == 0 <==> m == 0 && e > 0)
  {
    if e > 0 {
      PowNonneg(m, e - 1);
      if m > 0 {
        MulStrict(0, Pow(m, e - 1), m);
      }
    }
  }

  // ----- exact powers

  /** The native loop: `e` multiplications. */
  method PowU128(b: u128, e: nat, ghost len: nat) returns (r: u128)
    requires b < Pow(10, len) && len * e <= 38
    ensures r == Pow(b, e)
  {
    hide Pow;
    PowStep(b, 0);
    r := 1;
    for i := 0 to e
      invariant r == Pow(b, i)
    {
      PowStep(b, i);
      PowBelow(b, len, i + 1, e);
      assert b * Pow(b, i) == Pow(b, i) * b;
      r := r as int * b;
    }
  }

  lemma PowBelow(b: nat, len: nat, i: nat, e: nat)
    requires b < Pow(10, len) && len * e <= 38 && i <= e
    ensures 0 <= Pow(b, i) < 0x1_0000_0000_0000_0000_0000_0000_0000_0000
  {
    hide Pow;
    PowNonneg(b, i);
    PowMonoBase(b, Pow(10, len), i);
    PowMul(10, len, i);
    MulMono(i, e, len);
    PowMono(10, len * i, 38);
    TenPowers();
  }

  lemma {:induction false} PowMonoBase(x: int, y: int, e: nat)
    requires 0 <= x <= y
    ensures Pow(x, e) <= Pow(y, e)
  {
    if e > 0 {
      PowMonoBase(x, y, e - 1);
      PowNonneg(x, e - 1);
      MulMono(x, y, Pow(x, e - 1));
      MulMono(Pow(x, e - 1), Pow(y, e - 1), y);
    }
  }

  lemma {:induction false} PowStrictBase(b: int, u: int, k: nat)
    requires 0 < b < u && k > 0
    ensures 0 < Pow(b, k) < Pow(u, k)
  {
    PowPos(b, k);
    PowPos(b, k - 1);
    if k > 1 {
      PowStrictBase(b, u, k - 1);
    }
    MulStrict(b, u, Pow(b, k - 1));
    MulMono(Pow(b, k - 1), Pow(u, k - 1), u);
  }

  /** Square-and-multiply on limbs: the result so far is absent until the first set bit. */
  method PowLimbs(base0: seq<Limbs.Limb>, e: nat) returns (r: seq<Limbs.Limb>)
    requires e >= 1
    ensures Limbs.Val(r) == Pow(Limbs.Val(base0), e)
  {
    hide Le, Pow;
    var base, k := base0, e;
    var started := false;
    r := [];
    ghost var total := Pow(Limbs.Val(base0), e);
    while true
      invariant k >= 1
      invariant total == (if started then Limbs.Val(r) else 1) * Pow(Limbs.Val(base), k)
      decreases k
    {
      ghost var bv, rv := Limbs.Val(base), if started then Limbs.Val(r) else 1;
      PowHalved(bv, k);
      SquareStep(rv, bv, Pow(bv * bv, k / 2));
      if k % 2 == 1 {
        if started {
          var p := Karatsuba.Mul(r, base);
          r := Limbs.Trim(p[..]);
        } else {
          r := base;
          started := true;
        }
      }
      k := k / 2;
      if k == 0 {
        PowStep(bv * bv, 0);
        break;
      }
      var sq := Karatsuba.Mul(base, base);
      base := Limbs.Trim(sq[..]);
    }
  }

  lemma SquareStep(r: int, b: int, p: int)
    ensures r * (p * b) == r * b * p && r * (p * 1) == r * p && 1 * b == b
  {
    assert p * b == b * p;
  }

  /** What the length check before a power takes as the number of its digits. */
  function PowLenEstimate(b: Num, m: nat): nat {
    MulNonneg(UnscaledLen(b.Trimmed()), m);
    UnscaledLen(b.Trimmed()) * m
  }

  /** How many digits the power is held in: at least as many as its fraction has places. */
  function PowDigitCount(b: Num, m: nat): nat {
    var t := b.Trimmed();
    MulNonneg(|t.frac|, m);
    MagnitudeSign(t);
    PowNonneg(Magnitude(t), m);
    var digits := |DigitsOf(Pow(Magnitude(t), m))|;
    if digits < |t.frac| * m then |t.frac| * m else digits
  }

  lemma PowDigitCountIs(b: Num, m: nat)
    ensures var t := b.Trimmed();
      && 0 <= |t.frac| * m && 0 <= Pow(Magnitude(t), m)
      && var digits := |DigitsOf(Pow(Magnitude(t), m))|;
      PowDigitCount(b, m) == if digits < |t.frac| * m then |t.frac| * m else digits
  {
    hide Pow, DigitsOf, Num.Trimmed, Magnitude;
    var t := b.Trimmed();
    MulNonneg(|t.frac|, m);
    MagnitudeSign(t);
    PowNonneg(Magnitude(t), m);
  }

  /** The estimate bounds these digits exactly for bases without zeros directly behind the point. */
  lemma EstimateBounds(b: Num, m: nat)
    requires b.WellFormed() && m >= 1
    ensures PowDigitCount(b, m) <= PowLenEstimate(b, m)
      <==> var t := b.Trimmed(); |t.whole| > 0 || |t.frac| == 0 || t.frac[0] != 48
  {
    var t := b.Trimmed();
    Multiplying.TrimmedWellFormed(b);
    var f, l := |t.frac|, UnscaledLen(t);
    assert f <= l <==> |t.whole| > 0 || f == 0 || t.frac[0] != 48;
    hide Be, Pow, DigitsOf, TrimZeros, Num.Trimmed, UnscaledLen;
    PartsValue(t);
    var (p, q) := Parts(t);
    BeBound(p + q, 10, 48);
    PowNonneg(Magnitude(t), m);
    PowMul(10, l, m);
    PowPos(10, l);
    PowPos(10, l * m);
    if Magnitude(t) > 0 {
      PowStrictBase(Magnitude(t), Pow(10, l), m);
    }
    DigitsLength(Pow(Magnitude(t), m), l * m);
    if f <= l {
      MulMono(f, l, m);
    } else {
      MulStrict(l, f, m);
    }
  }

  /** The operand's exact `e`-th power at scale `e` times that of the trimmed operand. */
  method PowExact(a: Num, e: nat) returns (r: Exact)
    requires a.WellFormed() && e >= 1
    ensures var t := a.Trimmed();
      && 0 <= |t.frac| * e
      && r.WellFormed() && r.scale == |t.frac| * e && r.Unscaled() == Pow(t.Unscaled(), e)
    ensures |r.digits| == PowDigitCount(a, e)
  {
    hide *;
    var t := a.Trimmed();
    Multiplying.TrimmedWellFormed(a);
    MulNonneg(|t.frac|, e);
    PartsValue(t);
    MagnitudeSign(t);
    PowSigned(t.neg, Magnitude(t), e);
    PowNonneg(Magnitude(t), e);
    PowDigitCountIs(a, e);
    var scale := |t.frac| * e;
    var neg := t.neg && e % 2 == 1;
    if UnscaledLen(t) == 0 {
      DecNil();
      Dividing.DigitsNil();
      SignedZero(neg);
      r := FromDigits(neg, [], scale);
      return;
    }
    var (a1, a2) := Parts(t);
    var digits := PowDigits(a1, a2, e);
    r := FromDigits(neg, digits, scale);
  }

  lemma SignedZero(neg: bool)
    ensures Signed(neg, 0) == 0
  {}

  method PowDigits(a1: seq<Digit>, a2: seq<Digit>, e: nat) returns (digits: seq<Digit>)
    requires e >= 1
    ensures 0 <= Pow(Dec(a1 + a2), e) && digits == DigitsOf(Pow(Dec(a1 + a2), e))
    ensures Dec(digits) == Pow(Dec(a1 + a2), e)
  {
    hide Be, Pow, Le, DigitsOf;
    var la := |a1| + |a2|;
    MulNonneg(la, e);
    if la * e <= 38 {
      MulMono(1, e, la);
      var b := ValU128(a1, a2);
      var p := PowU128(b, e, la);
      digits := Multiplying.U128Digits(p);
    } else {
      assert Packing.Virtual(a1, a2, 0) == a1 + a2;
      var base := Packing.FromDigits(a1, a2, 0);
      var p := PowLimbs(base, e);
      digits := Unpacking.ToDigits(p);
    }
  }

  /** The power of the trimmed operand is the power of the operand. */
  lemma TrimmedPower(a: Num, e: nat)
    ensures var t, k := a.Trimmed(), |a.frac| - |a.Trimmed().frac|;
      0 <= k && 0 <= k * e && Pow(a.Unscaled(), e) == Pow(t.Unscaled(), e) * Pow(10, k * e)
  {
    var t, k := a.Trimmed(), |a.frac| - |a.Trimmed().frac|;
    hide *;
    TrimmedSame(a);
    PowProduct(t.Unscaled(), Pow(10, k), e);
    PowMul(10, k, e);
  }

  // ----- modular powers

  /** The remainder of truncated division: the dividend's sign. */
  function TruncRem(n: int, d: int): int
    requires d != 0
  {
    n - Dividing.TruncQuot(n, d) * d
  }

  lemma TruncRemSigned(neg: bool, n: nat, d: int)
    requires d != 0
    ensures TruncRem(Signed(neg, n), d) == Signed(neg, n % Abs(d))
  {
    var m := Abs(d);
    DivModFact(n, m);
    Dividing.QuotientNonneg(n, m);
    var q := n / m;
    var t := Signed(neg != (d < 0), q);
    Multiplying.SignedProduct(neg != (d < 0), q, d < 0, m);
    assert Dividing.IsTruncated(Signed(neg, n), d, t) by {
      if n == 0 {
        DivModUnique(0, m, 0, 0);
      }
    }
    Dividing.TruncQuotIff(Signed(neg, n), d, t);
  }

  lemma Expand(q: int, m: int, r: int, y: int)
    ensures (q * m + r) * y == r * y + (q * y) * m
  {
    assert (q * m + r) * y == q * m * y + r * y;
    assert q * m * y == q * (m * y) && m * y == y * m && q * (y * m) == (q * y) * m;
  }

  lemma ModLeft(x: int, y: int, m: int)
    requires 0 < m
    ensures (x % m) * y % m == x * y % m
  {
    DivModFact(x, m);
    Expand(x / m, m, x % m, y);
    AddMultiple((x % m) * y, x / m * y, m);
  }

  lemma ModProduct(x: int, y: int, m: int)
    requires 0 < m
    ensures (x % m) * y % m == x * y % m && x * (y % m) % m == x * y % m
  {
    ModLeft(x, y, m);
    ModLeft(y, x, m);
    assert x * y == y * x && x * (y % m) == (y % m) * x;
  }

  lemma AddMultiple(r: int, k: int, m: int)
    requires 0 < m
    ensures (r + k * m) % m == r % m
  {
    DivModFact(r, m);
    assert r + k * m == (r / m + k) * m + r % m;
    DivModUnique(r + k * m, m, r / m + k, r % m);
  }

  lemma {:induction false} PowMod(x: int, e: nat, m: int)
    requires 0 < m
    ensures Pow(x % m, e) % m == Pow(x, e) % m
  {
    if e > 0 {
      PowMod(x, e - 1, m);
      var p, p' := Pow(x, e - 1), Pow(x % m, e - 1);
      ModProduct(x, p', m);
      ModProduct(x, p', m);
      ModProduct(x, p, m);
    }
  }

  /** One round of modular square-and-multiply keeps `r * s^e` modulo `m`. */
  lemma ModStep(r: int, s: int, e: nat, m: int)
    requires 0 < m
    ensures r * Pow(s, e) % m == (if e % 2 == 1 then r * s % m else r) * Pow(s * s % m, e / 2) % m
  {
    hide Pow;
    PowHalved(s, e);
    var p := Pow(s * s, e / 2);
    var p' := Pow(s * s % m, e / 2);
    PowMod(s * s, e / 2, m);
    SquareStep(r, s, p);
    var f := if e % 2 == 1 then r * s else r;
    assert r * Pow(s, e) == f * p;
    ModProduct(f, p, m);
    ModProduct(f, p', m);
    ModProduct(f % m, p, m);
    ModProduct(f % m, p', m);
    ModProduct(f, p, m);
    assert f * (p % m) % m == f * (p' % m) % m;
  }

  lemma ProductBelow(x: int, y: int, m: int)
    requires 0 <= x < m && 0 <= y < m && m < TEN19
    ensures 0 <= x * y < 0x1_0000_0000_0000_0000_0000_0000_0000_0000
  {
    MulNonneg(x, y);
    MulMono(x, TEN19, y);
    MulMono(y, TEN19, TEN19);
  }

  /** What the loop still has to compute: `r * s^e` modulo `m`. */
  ghost function Residue(r: int, s: int, e: nat, m: int): int
    requires 0 < m
  {
    r * Pow(s, e) % m
  }

  lemma ResidueStep(r: int, s: int, e: nat, m: int)
    requires 0 < m
    ensures Residue(r, s, e, m) == Residue(if e % 2 == 1 then r * s % m else r, s * s % m, e / 2, m)
  {
    ModStep(r, s, e, m);
  }

  lemma ResidueStart(b: int, e: nat, m: int)
    requires 0 < m
    ensures 0 <= 1 % m < m && Residue(1 % m, b, e, m) == Pow(b, e) % m
  {
    hide Pow;
    ModProduct(1, Pow(b, e), m);
    DivModFact(1, m);
  }

  lemma ResidueEnd(r: int, s: int, m: int)
    requires 0 <= r < m
    ensures Residue(r, s, 0, m) == r
  {
    assert r * Pow(s, 0) == r;
    DivModUnique(r, m, 0, r);
  }

  method MulMod(x: u128, y: u128, m: u128) returns (r: u128)
    requires 0 < m < TEN19 && x < m && y < m
    ensures r == x as int * y % m && r < m
  {
    ProductBelow(x, y, m);
    var p: u128 := x as int * y;
    DivModFact(p, m);
    r := p % m;
  }

  /** One round: multiply for a set bit, then square while bits remain. */
  method PowModRound(r0: u128, s0: u128, e0: u128, m: u128) returns (r: u128, s: u128, e: u128)
    requires 0 < e0 && 0 < m < TEN19 && r0 < m && s0 < m
    ensures r < m && s < m && e == e0 / 2 && Residue(r, s, e, m) == Residue(r0, s0, e0, m)
  {
    hide *;
    r, s, e := r0, s0, e0 / 2;
    ResidueStep(r0, s0, e0, m);
    if e0 % 2 == 1 {
      r := MulMod(r0, s0, m);
    }
    if e > 0 {
      s := MulMod(s0, s0, m);
    } else {
      ResidueEnd(r, s, m);
      ResidueEnd(r, s0 as int * s0 % m, m);
    }
  }

  /** `b^e mod m` in 128-bit words. */
  method PowModU128(b: u128, e0: u128, m: u128) returns (r: u128)
    requires 0 < m < TEN19 && b < m
    ensures r == Pow(b, e0) % m
  {
    hide *;
    var e: u128, sq: u128 := e0, b;
    ResidueStart(b, e, m);
    r := 1 % m;
    while e > 0
      invariant 0 <= e && r < m && sq < m
      invariant Residue(r, sq, e, m) == Pow(b, e0) % m
      decreases e
    {
      r, sq, e := PowModRound(r, sq, e, m);
    }
    ResidueEnd(r, sq, m);
  }

  /** The base reduced below a modulus of at most nineteen digits. */
  method ReducedBase(base: seq<Digit>, modulus: seq<Digit>, m: u128) returns (b: u128)
    requires |modulus| <= 19 && m == Dec(modulus) && 0 < m
    ensures b == Dec(base) % m
  {
    hide Be, Pow, Le, DigitsOf;
    if |base| <= 38 {
      var v := ValU128(base, []);
      assert base + [] == base;
      Dividing.QuotientSmall(v, m);
      b := v % m;
    } else {
      assert Packing.Virtual(base, [], 0) == base && Packing.Virtual(modulus, [], 0) == modulus;
      var l := Packing.FromDigits(base, [], 0);
      var ml := Packing.FromDigits(modulus, [], 0);
      var q, r := DivRem.DivRem(l, Limbs.Trim(ml));
      var digits := Unpacking.ToDigits(r);
      FitsU128(modulus);
      RemainderDigits(Dec(base), m, |modulus|);
      assert digits + [] == digits;
      b := ValU128(digits, []);
    }
  }

  lemma RemainderDigits(n: int, m: int, k: nat)
    requires 0 < m < Pow(10, k)
    ensures 0 <= n % m && |DigitsOf(n % m)| <= k
  {
    hide Pow, DigitsOf;
    DivModFact(n, m);
    DigitsLength(n % m, k);
  }

  /** `base^exp` modulo the magnitude of the modulus, carrying the base's sign when the exponent is odd. */
  method PowModExact(base: Num, exp: Num, modulus: Num) returns (r: Exact)
    requires Dec(modulus.whole) != 0
    ensures 0 <= Dec(exp.whole)
    ensures r.WellFormed() && r.scale == 0
    ensures r.Unscaled() == TruncRem(Pow(Signed(base.neg, Dec(base.whole)), Dec(exp.whole)), Dec(modulus.whole))
    ensures r.neg <==> base.neg && Dec(exp.whole) % 2 == 1 && r.Unscaled() != 0
  {
    LastParity(exp.whole);
    var odd := |exp.whole| > 0 && (exp.whole[|exp.whole| - 1] as int - 48) % 2 == 1;
    hide *;
    BeBound(base.whole, 10, 48);
    BeBound(modulus.whole, 10, 48);
    var digits := PowModDigits(base.whole, exp.whole, modulus.whole);
    PowSigned(base.neg, Dec(base.whole), Dec(exp.whole));
    PowNonneg(Dec(base.whole), Dec(exp.whole));
    TruncRemSigned(base.neg && odd, Pow(Dec(base.whole), Dec(exp.whole)), Dec(modulus.whole));
    var neg := base.neg && odd && |digits| > 0;
    ModulusAbs(Dec(modulus.whole));
    SignedDigits(base.neg && odd, digits);
    r := FromDigits(neg, digits, 0);
  }

  lemma ModulusAbs(m: int)
    requires 0 <= m
    ensures Abs(m) == m
  {}

  lemma SignedDigits(neg: bool, digits: seq<Digit>)
    requires 0 <= Dec(digits) && (|digits| == 0 <==> Dec(digits) == 0)
    ensures Signed(neg && |digits| > 0, Dec(digits)) == Signed(neg, Dec(digits))
    ensures Signed(neg, Dec(digits)) != 0 <==> |digits| > 0
  {}

  /** The big-integer library's modular power is exact. */
  function ModPow(b: nat, e: nat, m: nat): (r: nat)
    requires m > 0
    ensures r == Pow(b, e) % m
  {
    DivModFact(Pow(b, e), m);
    Pow(b, e) % m
  }

  method PowModDigits(base: seq<Digit>, exp: seq<Digit>, modulus: seq<Digit>) returns (digits: seq<Digit>)
    requires Dec(modulus) != 0
    ensures 0 < Dec(modulus) && 0 <= Dec(exp)
    ensures Dec(digits) == Pow(Dec(base), Dec(exp)) % Dec(modulus)
    ensures |digits| == 0 <==> Dec(digits) == 0
  {
    hide Be, Pow, Le, DigitsOf;
    BeBound(modulus, 10, 48);
    BeBound(base, 10, 48);
    BeBound(exp, 10, 48);
    if |modulus| <= 19 && |exp| <= 38 {
      var m := ValU128(modulus, []);
      assert modulus + [] == modulus && exp + [] == exp;
      if m == 1 {
        BeNil(10, 48);
        DivModUnique(Pow(Dec(base), Dec(exp)), 1, Pow(Dec(base), Dec(exp)), 0);
        return [];
      }
      TenPowers();
      PowMono(10, |modulus|, 19);
      var b := ReducedBase(base, modulus, m);
      DivModFact(Dec(base), m);
      PowMod(Dec(base), Dec(exp), m);
      var e := ValU128(exp, []);
      var r := PowModU128(b, e, m);
      digits := Multiplying.U128Digits(r);
    } else {
      digits := Dividing.NatDigits(ModPow(Dec(base), Dec(exp), Dec(modulus)));
    }
  }

  // ----- square roots

  /** The integer square root, which the big-integer library computes exactly. */
  function Isqrt(n: nat): (r: nat)
    ensures r * r <= n < (r + 1) * (r + 1)
  {
    if n == 0 then 0 else
      var r := Isqrt(n - 1);
      if (r + 1) * (r + 1) <= n then SquareNext(r + 1); r + 1 else r
  }

  lemma SquareNext(r: nat)
    ensures r * r + 1 <= (r + 1) * (r + 1)
  {
    assert (r + 1) * (r + 1) == r * r + 2 * r + 1;
  }

  lemma SquareMono(x: int, y: int)
    requires 0 <= x <= y
    ensures x * x <= y * y
  {
    MulMono(x, y, x);
    MulMono(x, y, y);
  }

  /** `r` is the square root of `v / 10^s` cut to `scale` digits, in units of `10^-scale`. */
  ghost predicate IsRoot(v: int, s: nat, scale: nat, r: int) {
    && 0 <= r
    && r * r * Pow(10, s) <= v * Pow(10, 2 * scale) < (r + 1) * (r + 1) * Pow(10, s)
  }

  lemma RootUnique(v: int, s: nat, scale: nat, r: int, r': int)
    requires IsRoot(v, s, scale, r) && IsRoot(v, s, scale, r')
    ensures r == r'
  {
    hide Pow;
    PowPos(10, s);
    var p := Pow(10, s);
    MulCancelLt(r * r, (r' + 1) * (r' + 1), p);
    MulCancelLt(r' * r', (r + 1) * (r + 1), p);
    if r < r' {
      SquareMono(r + 1, r');
    } else if r' < r {
      SquareMono(r' + 1, r);
    }
  }

  /** Cutting the radicand to an integer first does not change the root. */
  lemma CutRoot(v: int, p: int, w: int, r: int)
    requires 0 < p && w * p <= v < (w + 1) * p && r * r <= w < (r + 1) * (r + 1)
    ensures r * r * p <= v < (r + 1) * (r + 1) * p
  {
    MulMono(r * r, w, p);
    MulMono(w + 1, (r + 1) * (r + 1), p);
  }

  /** The radicand: the operand's digits, zeros appended or low digits dropped. */
  function Radicand(a: Num, scale: nat): Dividing.Shifted {
    var (a1, a2) := Parts(a);
    var shift := 2 * scale - |a.frac|;
    if shift >= 0 then Dividing.Shifted(a1, a2, shift)
    else
      var drop, total := -shift, |a1| + |a2|;
      if drop >= total then Dividing.Shifted([], [], 0)
      else if total - drop <= |a1| then Dividing.Shifted(a1[..total - drop], [], 0)
      else Dividing.Shifted(a1, a2[..total - drop - |a1|], 0)
  }

  /** The radicand is the operand times `10^(2 scale)`, cut to an integer. */
  lemma RadicandValue(a: Num, scale: nat)
    requires a.WellFormed()
    ensures var w, p := Radicand(a, scale).Value(), Pow(10, |a.frac|);
      && 0 <= w && 0 < p && w * p <= Magnitude(a) * Pow(10, 2 * scale) < (w + 1) * p
  {
    hide Be, Pow, Parts, Magnitude;
    PartsValue(a);
    var (a1, a2) := Parts(a);
    var shift := 2 * scale - |a.frac|;
    var x := Radicand(a, scale);
    PowPos(10, |a.frac|);
    Dividing.ShiftedValue(x);
    if shift >= 0 {
      PowAdd(10, shift, |a.frac|);
      ExactRadicand(Dec(a1 + a2), Pow(10, shift), Pow(10, |a.frac|));
    } else {
      RadicandDropped(a1, a2, x, -shift);
      PowAdd(10, -shift, 2 * scale);
      PowPos(10, 2 * scale);
      ScaledCut(x.Value(), Pow(10, -shift), Dec(a1 + a2), Pow(10, 2 * scale));
    }
  }

  lemma ExactRadicand(m: int, z: int, p: int)
    requires 0 < p
    ensures m * z * p == m * (z * p) < (m * z + 1) * p
  {
    assert (m * z + 1) * p == m * z * p + p;
  }

  lemma ScaledCut(w: int, d: int, m: int, p: int)
    requires 0 < p && w * d <= m < (w + 1) * d
    ensures w * (d * p) <= m * p < (w + 1) * (d * p)
  {
    MulMono(w * d, m, p);
    MulStrict(m, (w + 1) * d, p);
    assert w * d * p == w * (d * p) && (w + 1) * d * p == (w + 1) * (d * p);
  }

  lemma RadicandDropped(a1: seq<Digit>, a2: seq<Digit>, x: Dividing.Shifted, drop: nat)
    requires drop > 0
    requires var total := |a1| + |a2|;
      x == if drop >= total then Dividing.Shifted([], [], 0)
      else if total - drop <= |a1| then Dividing.Shifted(a1[..total - drop], [], 0)
      else Dividing.Shifted(a1, a2[..total - drop - |a1|], 0)
    ensures 0 < Pow(10, drop) && x.Value() * Pow(10, drop) <= Dec(a1 + a2) < (x.Value() + 1) * Pow(10, drop)
  {
    hide Be, Pow;
    var s, total := a1 + a2, |a1| + |a2|;
    BeBound(s, 10, 48);
    PowPos(10, drop);
    if drop >= total {
      assert x.Text() == [];
      BeNil(10, 48);
      PowMono(10, total, drop);
    } else {
      var keep := total - drop;
      assert x.Text() == s[..keep];
      BeSplit(s, keep, 10, 48);
      BeBound(s[keep..], 10, 48);
      assert (x.Value() + 1) * Pow(10, drop) == x.Value() * Pow(10, drop) + Pow(10, drop);
    }
  }

  /** `sqrt(a)` truncated at `scale` digits, for `a >= 0`. */
  method Sqrt(a: Num, scale: nat) returns (r: Exact)
    requires a.WellFormed() && a.Unscaled() >= 0
    ensures r.WellFormed() && r.scale == scale && IsRoot(a.Unscaled(), |a.frac|, scale, r.Unscaled())
  {
    hide *;
    var t := a.Trimmed();
    Multiplying.TrimmedWellFormed(a);
    RadicandValue(t, scale);
    ghost var w := Radicand(t, scale).Value();
    PartsValue(t);
    MagnitudeSign(t);
    Dividing.TrimmedNonZero(a);
    var digits: seq<Digit>;
    if UnscaledLen(t) == 0 {
      DecNil();
      digits := [];
      ZeroRoot(|t.frac|, scale);
    } else {
      digits := RootDigits(Radicand(t, scale));
      CutRoot(Magnitude(t) * Pow(10, 2 * scale), Pow(10, |t.frac|), w, Dec(digits));
    }
    RootOfTrimmed(a, t, scale, Dec(digits));
    PlainSign(Dec(digits));
    r := FromDigits(false, digits, scale);
  }

  lemma PlainSign(m: int)
    ensures Signed(false, m) == m
  {}

  lemma ZeroRoot(s: nat, scale: nat)
    ensures 0 * 0 * Pow(10, s) <= 0 * Pow(10, 2 * scale) < (0 + 1) * (0 + 1) * Pow(10, s)
  {
    PowPos(10, s);
  }

  lemma RootOfTrimmed(a: Num, t: Num, scale: nat, r: int)
    requires t == a.Trimmed() && a.Unscaled() >= 0 && 0 <= r
    requires r * r * Pow(10, |t.frac|) <= Magnitude(t) * Pow(10, 2 * scale) < (r + 1) * (r + 1) * Pow(10, |t.frac|)
    ensures IsRoot(a.Unscaled(), |a.frac|, scale, r)
  {
    hide Be, Pow, TrimZeros;
    TrimmedSame(a);
    MagnitudeSign(a);
    var k, p, m, z := |a.frac| - |t.frac|, Pow(10, |t.frac|), Magnitude(t), Pow(10, 2 * scale);
    var c := Pow(10, k);
    PowPos(10, k);
    PowAdd(10, |t.frac|, k);
    MagnitudeIsValue(a);
    ScaleRoot(r * r, m * z, (r + 1) * (r + 1), p, c);
    assert m * c * z == m * z * c;
  }

  lemma MagnitudeIsValue(a: Num)
    requires a.Unscaled() >= 0
    ensures a.Unscaled() == Magnitude(a)
  {
    MagnitudeSign(a);
  }

  lemma ScaleRoot(x: int, v: int, y: int, p: int, c: int)
    requires 0 < c && x * p <= v < y * p
    ensures x * (p * c) <= v * c < y * (p * c)
  {
    MulMono(x * p, v, c);
    MulStrict(v, y * p, c);
    assert x * p * c == x * (p * c) && y * p * c == y * (p * c);
  }

  /** The root's digits: native when the radicand is short. */
  method RootDigits(x: Dividing.Shifted) returns (digits: seq<Digit>)
    ensures var r := Dec(digits); 0 <= r && r * r <= x.Value() < (r + 1) * (r + 1)
  {
    hide Be, Pow, DigitsOf;
    if x.Len() <= 38 {
      var v := Dividing.WholeU128(x);
      var r := Isqrt(v);
      RootSmaller(r, v);
      digits := Multiplying.U128Digits(r);
    } else {
      digits := Dividing.NatDigits(Isqrt(Dividing.ToNat(x)));
    }
  }

  lemma RootSmaller(r: nat, v: int)
    requires r * r <= v
    ensures r <= v
  {
    if r > 0 {
      MulMono(1, r, r);
    }
  }
}
