/** Multiplication of operands: every size tier appends the same truncated product. */
module Multiplying {
  import opened Numerals
  import opened Words
  import opened Digits
  import opened Decimals
  import opened Buffers
  import opened Operands
  import Limbs
  import Karatsuba
  import Packing
  import Unpacking

  const SMALL_LIMBS: nat := 16

  // ----- what the product is

  lemma SignedProduct(m: bool, x: int, n: bool, y: int)
    ensures Signed(m, x) * Signed(n, y) == Signed(m != n, x * y)
  {
    assert (-x) * y == -(x * y) && x * (-y) == -(x * y) && (-x) * (-y) == x * y;
  }

  lemma Regroup(x: int, p: int, y: int, q: int)
    ensures (x * p) * (y * q) == (x * y) * (p * q)
  {
    assert p * (y * q) == y * (p * q);
    assert (x * p) * (y * q) == x * (p * (y * q));
    assert x * (y * (p * q)) == (x * y) * (p * q);
  }

  /** The product of the trimmed operands, shown at `scale`, is the product of the operands shown there. */
  lemma TrimmedProduct(a: Num, b: Num, scale: nat)
    ensures var at, bt := a.Trimmed(), b.Trimmed();
      AtScale(Signed(a.neg != b.neg, Magnitude(at) * Magnitude(bt)), |at.frac| + |bt.frac|, scale)
        == AtScale(a.Unscaled() * b.Unscaled(), |a.frac| + |b.frac|, scale)
  {
    var at, bt := a.Trimmed(), b.Trimmed();
    hide *;
    TrimmedSame(a);
    TrimmedSame(b);
    MagnitudeSign(at);
    MagnitudeSign(bt);
    var i, j := |a.frac| - |at.frac|, |b.frac| - |bt.frac|;
    SignedProduct(a.neg, Magnitude(at), b.neg, Magnitude(bt));
    Regroup(at.Unscaled(), Pow(10, i), bt.Unscaled(), Pow(10, j));
    PowAdd(10, i, j);
    AtScaleFiner(at.Unscaled() * bt.Unscaled(), |at.frac| + |bt.frac|, i + j, scale);
  }

  // ----- the tiers

  /** The operand's limbs on the stack, high ones zero. */
  method PackSmall(p: seq<Digit>, q: seq<Digit>, size: nat) returns (x: array<Limbs.Limb>, n: nat)
    requires Packing.LimbCount(|p| + |q|) <= size
    ensures fresh(x) && x.Length == size && n == Packing.LimbCount(|p| + |q|)
    ensures Limbs.Val(x[..n]) == Dec(p + q) && Limbs.Val(x[..]) == Dec(p + q)
  {
    hide Le, Pow, Be;
    x := new Limbs.Limb[size](_ => 0);
    n := Packing.FromDigitsSlice(p, q, 0, x);
    assert Packing.Virtual(p, q, 0) == p + q;
    assert x[..] == x[..n] + x[n..];
    LeConcat(x[..n], x[n..], Limbs.BASE);
    LeZeros(x[n..], Limbs.BASE);
  }

  /** Four limbs by four. */
  method MulFour(a1: seq<Digit>, a2: seq<Digit>, b1: seq<Digit>, b2: seq<Digit>) returns (d: seq<Digit>)
    requires |a1| + |a2| <= 32 && |b1| + |b2| <= 32
    ensures Dec(d) == Dec(a1 + a2) * Dec(b1 + b2)
  {
    hide Le, Pow, Be, DigitsOf;
    var x, nx := PackSmall(a1, a2, 4);
    var y, ny := PackSmall(b1, b2, 4);
    var p := new Limbs.Limb[8](_ => 0);
    Limbs.Mul4(x[..], y[..], p);
    var buf := new byte[64](_ => 0);
    var k := Unpacking.ToDigitsSlice(p[..], buf);
    d := buf[..k];
  }

  /** Schoolbook rows on the stack. */
  method MulSmall(a1: seq<Digit>, a2: seq<Digit>, b1: seq<Digit>, b2: seq<Digit>) returns (d: seq<Digit>)
    requires Packing.LimbCount(|a1| + |a2|) <= SMALL_LIMBS && Packing.LimbCount(|b1| + |b2|) <= SMALL_LIMBS
    ensures Dec(d) == Dec(a1 + a2) * Dec(b1 + b2)
  {
    hide Le, Pow, Be, DigitsOf;
    var x, nx := PackSmall(a1, a2, SMALL_LIMBS);
    var y, ny := PackSmall(b1, b2, SMALL_LIMBS);
    var p := new Limbs.Limb[2 * SMALL_LIMBS](_ => 0);
    Limbs.MulSchool(x[..nx], y[..ny], p);
    var buf := new byte[16 * SMALL_LIMBS](_ => 0);
    var k := Unpacking.ToDigitsSlice(p[..nx + ny], buf);
    d := buf[..k];
  }

  lemma ProductFitsU128(x: int, y: int, i: nat, j: nat)
    requires 0 <= x < Pow(10, i) && 0 <= y < Pow(10, j) && i <= 19 && j <= 19
    ensures 0 <= x * y < 0x1_0000_0000_0000_0000_0000_0000_0000_0000
  {
    hide Pow;
    TenPowers();
    PowMono(10, i, 19);
    PowMono(10, j, 19);
    MulNonneg(x, y);
    MulMono(x, TEN19, y);
    MulMono(y, TEN19, TEN19);
  }

  method U128Digits(v: u128) returns (d: seq<Digit>)
    ensures d == DigitsOf(v)
  {
    hide DigitsOf;
    var out := new ByteVec();
    PushU128(out, v);
    assert out.bytes == DigitsOf(v);
    d := DigitBytes(out.bytes, DigitsOf(v));
  }

  /** Bytes that are known to be digits. */
  function DigitBytes(s: seq<byte>, ghost d: seq<Digit>): (r: seq<Digit>)
    requires s == d
    ensures r == d
  {
    s
  }

  /** Unscaled digits of `a * b`: native words, or limbs of any length. */
  method MulDigits(a: Num, b: Num) returns (d: seq<Digit>)
    requires a.WellFormed() && b.WellFormed()
    ensures Dec(d) == Magnitude(a) * Magnitude(b)
  {
    PartsValue(a);
    PartsValue(b);
    hide *;
    var (a1, a2) := Parts(a);
    var (b1, b2) := Parts(b);
    if UnscaledLen(a) == 0 || UnscaledLen(b) == 0 {
      BeNil(10, 48);
      ZeroProduct(Magnitude(a), Magnitude(b));
      return [];
    }
    d := MulParts(a1, a2, b1, b2);
  }

  lemma ZeroProduct(x: int, y: int)
    requires x == 0 || y == 0
    ensures x * y == 0
  {}

  method MulParts(a1: seq<Digit>, a2: seq<Digit>, b1: seq<Digit>, b2: seq<Digit>) returns (d: seq<Digit>)
    ensures Dec(d) == Dec(a1 + a2) * Dec(b1 + b2)
  {
    hide Le, Pow, Be, DigitsOf;
    if |a1| + |a2| <= 19 && |b1| + |b2| <= 19 {
      var x := ValU128(a1, a2);
      var y := ValU128(b1, b2);
      FitsU128(a1 + a2);
      FitsU128(b1 + b2);
      ProductFitsU128(x, y, |a1| + |a2|, |b1| + |b2|);
      d := U128Digits(x as int * y);
      return;
    }
    assert Packing.Virtual(a1, a2, 0) == a1 + a2 && Packing.Virtual(b1, b2, 0) == b1 + b2;
    var x := Packing.FromDigits(a1, a2, 0);
    if a1 == b1 && a2 == b2 {
      var p := Karatsuba.Mul(x, x);
      d := Unpacking.ToDigits(p[..]);
      return;
    }
    var y := Packing.FromDigits(b1, b2, 0);
    var p := Karatsuba.Mul(x, y);
    d := Unpacking.ToDigits(p[..]);
  }

  /** The product's digits by the tier its operands' lengths select. */
  method TierDigits(a: Num, b: Num) returns (d: seq<Digit>)
    requires a.WellFormed() && b.WellFormed()
    ensures Dec(d) == Magnitude(a) * Magnitude(b)
  {
    PartsValue(a);
    PartsValue(b);
    hide Be, Pow, Le, Parts, UnscaledLen, Magnitude;
    var la, lb := UnscaledLen(a), UnscaledLen(b);
    var (a1, a2) := Parts(a);
    var (b1, b2) := Parts(b);
    if la > 19 && lb > 0 && la <= 32 && lb <= 32 {
      d := MulFour(a1, a2, b1, b2);
    } else if la > 19 && lb > 0 && Packing.LimbCount(la) <= SMALL_LIMBS && Packing.LimbCount(lb) <= SMALL_LIMBS {
      d := MulSmall(a1, a2, b1, b2);
    } else {
      d := MulDigits(a, b);
    }
  }

  lemma TrimmedWellFormed(n: Num)
    requires n.WellFormed()
    ensures n.Trimmed().WellFormed() && n.Trimmed().neg == n.neg
  {}

  /** Appends `a * b`, exact and then cut to `scale` digits. */
  method MulInto(out: ByteVec, a: Num, b: Num, scale: nat)
    requires a.WellFormed() && b.WellFormed()
    modifies out
    ensures out.bytes == old(out.bytes)
      + Text(AtScale(a.Unscaled() * b.Unscaled(), |a.frac| + |b.frac|, scale), scale)
  {
    hide *;
    var at, bt := a.Trimmed(), b.Trimmed();
    TrimmedWellFormed(a);
    TrimmedWellFormed(b);
    var s := |at.frac| + |bt.frac|;
    var neg := at.neg != bt.neg;
    var d := TierDigits(at, bt);
    TrimmedProduct(a, b, scale);
    WriteUnscaled(out, neg, d, s, scale);
  }
}
