/** Division of operands: native, 192-bit, stack-limb, heap-limb and big-integer tiers, all truncating alike. */
module Dividing {
  import opened Numerals
  import opened Words
  import opened Digits
  import opened Decimals
  import opened Buffers
  import opened Operands
  import opened Wrappers
  import opened Rounding
  import Addition
  import Limbs
  import DivRem
  import Multiplying
  import Packing
  import Unpacking
  import Wide

  /** Above this many limb products, division goes to the big-integer library. */
  const KNUTH_MAX_WORK: nat := 200

  /** The integer `digits(a ++ b) * 10^zeros`, not yet built. */
  datatype Shifted = Shifted(a: seq<Digit>, b: seq<Digit>, zeros: nat) {
    function Text(): seq<Digit> { Packing.Virtual(a, b, zeros) }

    function Value(): int { Dec(Text()) }

    function Len(): nat { |a| + |b| + zeros }

    /** Neither empty nor starting with a zero. */
    ghost predicate Canonical() { |a + b| > 0 ==> (a + b)[0] != 48 }
  }

  lemma ShiftedValue(n: Shifted)
    ensures |n.Text()| == n.Len() && n.Value() == Dec(n.a + n.b) * Pow(10, n.zeros)
    ensures 0 <= n.Value() < Pow(10, n.Len())
    ensures n.Canonical() && |n.a + n.b| > 0 ==> Pow(10, n.Len() - 1) <= n.Value()
  {
    hide Be, Pow;
    BeConcat(n.a + n.b, Zeros(n.zeros), 10, 48);
    ZerosDec(n.zeros);
    BeBound(n.Text(), 10, 48);
    if n.Canonical() && |n.a + n.b| > 0 {
      assert n.Text()[0] == (n.a + n.b)[0];
      BeLower(n.Text(), 10, 48);
    }
  }

  /** A canonical divisor that is not zero is positive and has digits. */
  lemma DivisorPositive(d: Shifted)
    requires d.Canonical() && |d.a + d.b| > 0
    ensures 0 < d.Value() && 0 < d.Len()
  {
    hide Be, Pow;
    ShiftedValue(d);
    PowPos(10, d.Len() - 1);
  }

  // ----- short quotients

  lemma TenPower(k: nat)
    requires k <= 38
    ensures 0 < Pow(10, k) <= Pow(10, 38) < 0x1_0000_0000_0000_0000_0000_0000_0000_0000
  {
    hide Pow;
    PowPos(10, k);
    PowMono(10, k, 38);
    TenPowers();
  }

  /** The power table entry. */
  function Pow10(k: nat): (p: u128)
    requires k <= 38
    ensures p == Pow(10, k)
  {
    TenPower(k);
    Pow(10, k)
  }

  /** The value of the digits `start..end` of the unbuilt integer, at most 38 of them. */
  method VirtualU128(n: Shifted, start: nat, end: nat) returns (v: u128)
    requires start <= end <= n.Len() && end - start <= 38
    ensures v == Dec(n.Text()[start..end])
  {
    hide Be, Pow;
    var la, digits := |n.a|, |n.a| + |n.b|;
    var dEnd := if end < digits then end else digits;
    var from := if dEnd >= start then dEnd else start;
    ghost var head := Cut(n, start, dEnd);
    CutIs(n, start, dEnd);
    BeNil(10, 48);
    if dEnd <= la {
      v := 0;
      if start < dEnd {
        v := ValU128(n.a[start..dEnd], []);
      }
    } else if start >= la {
      v := 0;
      if start < dEnd {
        v := ValU128(n.b[start - la..dEnd - la], []);
      }
    } else {
      v := ValU128(n.a[start..], n.b[..dEnd - la]);
    }
    CutPadded(n, start, end, dEnd, from);
    BeConcat(head, Zeros(end - from), 10, 48);
    ZerosDec(end - from);
    FitsU128(n.Text()[start..end]);
    PowStep(10, 0);
    if end > dEnd {
      v := v as int * Pow10(end - from);
    }
  }

  /** The stored digits from `start` on. */
  function Cut(n: Shifted, start: nat, dEnd: nat): seq<Digit>
    requires dEnd <= |n.a| + |n.b|
  {
    if start < dEnd then (n.a + n.b)[start..dEnd] else []
  }

  lemma CutIs(n: Shifted, start: nat, dEnd: nat)
    requires dEnd <= |n.a| + |n.b|
    ensures start < dEnd <= |n.a| ==> n.a[start..dEnd] + [] == Cut(n, start, dEnd)
    ensures |n.a| <= start < dEnd ==> n.b[start - |n.a|..dEnd - |n.a|] + [] == Cut(n, start, dEnd)
    ensures start < |n.a| < dEnd ==> n.a[start..] + n.b[..dEnd - |n.a|] == Cut(n, start, dEnd)
  {}

  lemma CutPadded(n: Shifted, start: nat, end: nat, dEnd: nat, from: nat)
    requires start <= end <= n.Len() && dEnd == (if end < |n.a| + |n.b| then end else |n.a| + |n.b|)
    requires from == if dEnd >= start then dEnd else start
    ensures n.Text()[start..end] == Cut(n, start, dEnd) + Zeros(end - from)
    ensures end == dEnd ==> end == from
  {}

  /** The whole unbuilt integer, when it has at most 38 digits. */
  method WholeU128(n: Shifted) returns (v: u128)
    requires n.Len() <= 38
    ensures v == n.Value()
  {
    hide Be, Pow;
    v := ValU128(n.a, n.b);
    ShiftedValue(n);
    FitsU128(n.Text());
    v := v as int * Pow10(n.zeros);
  }

  lemma ShortQuotient(n: Shifted, d: Shifted)
    requires d.Canonical() && |d.a + d.b| > 0 && n.Len() + 1 - d.Len() <= 15 && d.Len() <= n.Len()
    ensures 0 < d.Value() && 0 <= n.Value() / d.Value() < Wide.W64
  {
    hide Be, Pow;
    DivisorPositive(d);
    ShiftedValue(n);
    ShiftedValue(d);
    var k := n.Len() + 1 - d.Len();
    PowAdd(10, k, d.Len() - 1);
    PowMono(10, k, 19);
    TenPowers();
    PowPos(10, k);
    MulMono(Pow(10, d.Len() - 1), d.Value(), Pow(10, k));
    QuotientBelow(n.Value(), d.Value(), Pow(10, k));
  }

  lemma QuotientBelow(n: int, d: int, k: int)
    requires 0 <= n < k * d && 0 < d
    ensures 0 <= n / d < k
  {
    DivModFact(n, d);
    MulCancelLt(n / d, k, d);
    if n / d < 0 {
      MulMono(n / d, -1, d);
    }
  }

  /**
   * `N / D` for `N` of 39 to 57 digits and a quotient below 10^15: a floating-point `estimate`,
   * corrected with exact 192-bit arithmetic.
   */
  method DivShortQuotient(n: Shifted, d: Shifted, estimate: u64) returns (q: Option<u64>)
    requires d.Canonical() && |d.a + d.b| > 0
    ensures q.Some? <==> 39 <= n.Len() <= 57 && d.Len() <= 38 && n.Len() + 1 - d.Len() <= 15
    ensures q.Some? ==> 0 < d.Value() && q.value == n.Value() / d.Value()
  {
    hide Be, Pow;
    var ln, ld := n.Len(), d.Len();
    DivisorPositive(d);
    if !(39 <= ln <= 57) || ld > 38 || ld == 0 || ln + 1 - ld > 15 {
      return None;
    }
    var dv := WholeU128(d);
    var hi := VirtualU128(n, 0, ln - 19);
    var lo := VirtualU128(n, ln - 19, ln);
    ShiftedValue(n);
    BeSplit(n.Text(), ln - 19, 10, 48);
    assert n.Text()[0..ln - 19] == n.Text()[..ln - 19] && n.Text()[ln - 19..ln] == n.Text()[ln - 19..];
    FitsU128(n.Text()[0..ln - 19]);
    BeBound(n.Text()[ln - 19..], 10, 48);
    TenPowers();
    var nv := Joined(hi, lo);
    ShortQuotient(n, d);
    var result := Wide.CorrectQuotient(nv, dv, estimate);
    q := Some(result);
  }

  lemma JoinFits(hi: u128, lo: int)
    requires hi < TEN19 * TEN19 && 0 <= lo < TEN19
    ensures hi * TEN19 + lo < Wide.W64 * Wide.W128
  {}

  method Joined(hi: u128, lo: u128) returns (r: Wide.U192)
    requires hi < TEN19 * TEN19 && lo < TEN19
    ensures r.Value() == hi * TEN19 + lo
  {
    JoinFits(hi, lo);
    r := Wide.Mul(hi, TEN19).Add(lo);
  }

  // ----- stack limbs

  /** No high zero limb: the digits start with one that is not zero. */
  lemma TopLimb(d: Shifted, l: seq<Limbs.Limb>)
    requires d.Canonical() && |d.a + d.b| > 0
    requires |l| == Packing.LimbCount(d.Len()) && Limbs.Val(l) == d.Value()
    ensures |l| > 0 && l[|l| - 1] != 0
  {
    hide Be, Pow, Le;
    ShiftedValue(d);
    DivisorPositive(d);
    var k := |l| - 1;
    assert l == l[..k] + [l[k]];
    LeSnoc(l[..k], l[k], Limbs.BASE);
    Limbs.ValBound(l[..k]);
    Packing.BaseIsPower();
    PowMul(10, 8, k);
    PowMono(10, 8 * k, d.Len() - 1);
    Multiplying.ZeroProduct(Pow(Limbs.BASE, k), 0);
  }

  lemma ShorterIsZero(n: Shifted, d: Shifted)
    requires d.Canonical() && |d.a + d.b| > 0 && n.Len() < d.Len()
    ensures 0 < d.Value() && n.Value() / d.Value() == 0 && n.Value() % d.Value() == n.Value()
  {
    hide Be, Pow;
    ShiftedValue(n);
    ShiftedValue(d);
    DivisorPositive(d);
    PowMono(10, n.Len(), d.Len() - 1);
    DivModUnique(n.Value(), d.Value(), 0, n.Value());
  }

  /** Packs into a stack buffer of `SMALL_LIMBS`. */
  method Pack(n: Shifted, size: nat) returns (x: seq<Limbs.Limb>)
    requires Packing.LimbCount(n.Len()) <= size
    ensures |x| == Packing.LimbCount(n.Len()) && Limbs.Val(x) == n.Value()
  {
    hide Be, Pow, Le;
    var buf := new Limbs.Limb[size](_ => 0);
    var k := Packing.FromDigitsSlice(n.a, n.b, n.zeros, buf);
    x := buf[..k];
  }

  /** Quotients whose operands fit the stack limbs: the digits, or nothing when they do not fit. */
  method DivSmall(n: Shifted, d: Shifted) returns (q: Option<seq<Digit>>)
    requires d.Canonical() && |d.a + d.b| > 0
    ensures q.Some? <==>
      && n.Len() != 0 && Packing.LimbCount(n.Len()) <= Multiplying.SMALL_LIMBS
      && Packing.LimbCount(d.Len()) <= Multiplying.SMALL_LIMBS
    ensures q.Some? ==> 0 < d.Value() && 0 <= n.Value() / d.Value() && q.value == DigitsOf(n.Value() / d.Value())
  {
    hide Be, Pow, Le, DigitsOf;
    var ln, ld := n.Len(), d.Len();
    DivisorPositive(d);
    DigitsNil();
    if
      || ln == 0 || ld == 0
      || Packing.LimbCount(ln) > Multiplying.SMALL_LIMBS || Packing.LimbCount(ld) > Multiplying.SMALL_LIMBS
    {
      return None;
    }
    if ln < ld {
      ShorterIsZero(n, d);
      return Some([]);
    }
    var nl := Pack(n, Multiplying.SMALL_LIMBS);
    var dl := Pack(d, Multiplying.SMALL_LIMBS);
    var nn, nd := |nl|, |dl|;
    TopLimb(d, dl);
    if nn < nd {
      ShorterIsZero(n, d);
      return Some([]);
    }
    var u := new Limbs.Limb[nn + 1](_ => 0);
    var v := new Limbs.Limb[nd](_ => 0);
    var ql := new Limbs.Limb[nn - nd + 1](_ => 0);
    var none := new Limbs.Limb[0];
    DivRem.DivRemSlices(nl, dl, u, v, ql, none);
    var buf := new byte[8 * (Multiplying.SMALL_LIMBS + 1)](_ => 0);
    var k := Unpacking.ToDigitsSlice(ql[..], buf);
    var digits: seq<Digit> := buf[..k];
    q := Some(digits);
  }

  lemma DigitsNil()
    ensures DigitsOf(0) == []
  {}

  // ----- all sizes

  /** Common trailing zeros cancel out of the quotient. */
  lemma CommonZeros(n: Shifted, d: Shifted, c: nat)
    requires c <= n.zeros && c <= d.zeros && 0 < d.Value()
    ensures var n', d' := n.(zeros := n.zeros - c), d.(zeros := d.zeros - c);
      0 < d'.Value() && n.Value() / d.Value() == n'.Value() / d'.Value()
  {
    var n', d' := n.(zeros := n.zeros - c), d.(zeros := d.zeros - c);
    hide *;
    Cancelled(n, c);
    Cancelled(d, c);
    PowPos(10, c);
    if d'.Value() <= 0 {
      MulMono(d'.Value(), 0, Pow(10, c));
    }
    QuotientScaled(n'.Value(), d'.Value(), Pow(10, c));
  }

  lemma Cancelled(n: Shifted, c: nat)
    requires c <= n.zeros
    ensures n.Value() == n.(zeros := n.zeros - c).Value() * Pow(10, c)
  {
    hide Be, Pow;
    ShiftedValue(n);
    ShiftedValue(n.(zeros := n.zeros - c));
    PowAdd(10, n.zeros - c, c);
    var m, p, q := Dec(n.a + n.b), Pow(10, n.zeros - c), Pow(10, c);
    assert m * (p * q) == m * p * q;
  }

  lemma QuotientScaled(n: int, d: int, c: int)
    requires 0 < d && 0 < c
    ensures 0 < d * c && n * c / (d * c) == n / d
  {
    MulStrict(0, d, c);
    DivModFact(n, d);
    var q, r := n / d, n % d;
    assert n * c == q * (d * c) + r * c;
    MulStrict(r, d, c);
    MulNonneg(r, c);
    DivModUnique(n * c, d * c, q, r * c);
  }

  /** The big-integer library's naturals are mathematical naturals. */
  function ToNat(n: Shifted): (v: nat)
    ensures v == n.Value()
  {
    ShiftedValue(n);
    if |n.a| == 0 && |n.b| == 0 then ZerosDec(n.zeros); assert n.Text() == Zeros(n.zeros); 0 else Dec(n.Text())
  }

  function NatDigits(v: nat): (s: seq<Digit>)
    ensures s == DigitsOf(v)
  {
    if v == 0 then DigitsNil(); [] else DigitsOf(v)
  }

  /** What `DivRemDigits` promises. */
  ghost predicate Divided(n: Shifted, d: Shifted, wantRem: bool, q: seq<Digit>, r: seq<Digit>)
    requires 0 < d.Value()
  {
    && 0 <= n.Value() / d.Value() && q == DigitsOf(n.Value() / d.Value())
    && (wantRem ==> Dec(r) == n.Value() % d.Value())
  }

  /** Quotient and remainder digits of `N / D`, by native words, limbs or the big-integer library. */
  method DivRemDigits(n: Shifted, d: Shifted, wantRem: bool) returns (q: seq<Digit>, r: seq<Digit>)
    requires n.Canonical() && d.Canonical() && |d.a + d.b| > 0
    ensures 0 < d.Value() && Divided(n, d, wantRem, q, r)
  {
    hide Be, Pow, Le, DigitsOf;
    var ln, ld := |n.a| + |n.b|, |d.a| + |d.b|;
    DivisorPositive(d);
    ShiftedValue(n);
    QuotientNonneg(n.Value(), d.Value());
    DigitsNil();
    if ln == 0 {
      BeNil(10, 48);
      ZeroNumerator(n, d);
      return [], [];
    }
    if n.Len() < d.Len() {
      ShorterIsZero(n, d);
      r := if wantRem then n.Text() else [];
      return [], r;
    }
    if n.Len() <= 38 {
      var nv := WholeU128(n);
      var dv := WholeU128(d);
      QuotientSmall(nv, dv);
      q := Multiplying.U128Digits(nv / dv);
      r := Multiplying.U128Digits(nv % dv);
      return;
    }
    var common := if wantRem then 0 else if n.zeros <= d.zeros then n.zeros else d.zeros;
    var n', d' := n.(zeros := n.zeros - common), d.(zeros := d.zeros - common);
    CommonZeros(n, d, common);
    q, r := DivRemLarge(n', d', wantRem);
    assert wantRem ==> n' == n && d' == d;
  }

  lemma QuotientNonneg(n: int, d: int)
    requires 0 <= n && 0 < d
    ensures 0 <= n / d && 0 <= n % d < d
  {
    DivModFact(n, d);
    if n / d < 0 {
      MulMono(n / d, -1, d);
    }
  }

  lemma QuotientSmall(n: u128, d: u128)
    requires 0 < d
    ensures 0 <= n / d <= n && 0 <= n % d <= n
  {
    QuotientNonneg(n, d);
    DivModFact(n, d);
    MulMono(1, d, n / d);
    MulNonneg(n / d, d);
  }

  lemma ZeroNumerator(n: Shifted, d: Shifted)
    requires |n.a| + |n.b| == 0 && 0 < d.Value()
    ensures n.Value() == 0 && n.Value() / d.Value() == 0 && n.Value() % d.Value() == 0
  {
    hide Be, Pow;
    assert n.Text() == Zeros(n.zeros);
    ZerosDec(n.zeros);
    DivModUnique(0, d.Value(), 0, 0);
  }

  method DivRemLarge(n: Shifted, d: Shifted, wantRem: bool) returns (q: seq<Digit>, r: seq<Digit>)
    requires d.Len() <= n.Len() && 0 < d.Value()
    ensures Divided(n, d, wantRem, q, r)
  {
    hide Be, Pow, Le, DigitsOf;
    var lenN, lenD := n.Len(), d.Len();
    var qLimbs, dLimbs := (lenN - lenD) / 8 + 1, (lenD + 7) / 8;
    ShiftedValue(n);
    QuotientNonneg(n.Value(), d.Value());
    if qLimbs * dLimbs <= KNUTH_MAX_WORK || dLimbs == 1 {
      var nl := Packing.FromDigits(n.a, n.b, n.zeros);
      var dl := Packing.FromDigits(d.a, d.b, d.zeros);
      var ql, rl := DivRem.DivRem(nl, Limbs.Trim(dl));
      q := Unpacking.ToDigits(ql);
      r := [];
      if wantRem {
        r := Unpacking.ToDigits(rl);
      }
      return;
    }
    var nv, dv := ToNat(n), ToNat(d);
    q := NatDigits(nv / dv);
    r := if wantRem then NatDigits(nv % dv) else [];
  }

  // ----- quotients of operands

  /** `n / d` truncated toward zero, for any non-zero `d`. */
  function TruncQuot(n: int, d: int): int
    requires d != 0
  {
    if d < 0 then TruncDiv(-n, -d) else TruncDiv(n, d)
  }

  /** `a / b` truncated toward zero at `scale` digits, in units of `10^-scale`. */
  function Quotient(a: Num, b: Num, scale: nat): int
    requires b.Unscaled() != 0
  {
    PowPos(10, |a.frac|);
    NonZeroProduct(b.Unscaled(), Pow(10, |a.frac|));
    TruncQuot(a.Unscaled() * Pow(10, |b.frac| + scale), b.Unscaled() * Pow(10, |a.frac|))
  }

  lemma NonZeroProduct(x: int, p: int)
    requires x != 0 && 0 < p
    ensures x * p != 0
  {
    if x < 0 {
      MulStrict(x, 0, p);
    } else {
      MulStrict(0, x, p);
    }
  }

  /** Truncation: the remainder is smaller than the divisor and has the dividend's sign. */
  ghost predicate IsTruncated(n: int, d: int, q: int) {
    var r := n - q * d;
    Abs(r) < Abs(d) && (r > 0 ==> n > 0) && (r < 0 ==> n < 0)
  }

  /** `TruncQuot` is that quotient and the only one. */
  lemma TruncQuotIff(n: int, d: int, q: int)
    requires d != 0
    ensures q == TruncQuot(n, d) <==> IsTruncated(n, d, q)
  {
    var t := TruncQuot(n, d);
    assert IsTruncated(n, d, t) by {
      var q', r' := Abs(n) / Abs(d), Abs(n) % Abs(d);
      DivModFact(Abs(n), Abs(d));
      QuotientNonneg(Abs(n), Abs(d));
      TruncNegations(n, d);
      hide TruncQuot;
      SignedDivision(n, d, q', r');
      assert n - t * d == Signed(n < 0, r');
    }
    hide *;
    if q != t {
      OnlyOne(n, d, q, t);
    }
  }

  lemma TruncNegations(n: int, d: int)
    requires d != 0
    ensures TruncQuot(n, d) == Signed((n < 0) != (d < 0), Abs(n) / Abs(d))
  {
    if n == 0 {
      DivModUnique(0, Abs(d), 0, 0);
    }
  }

  lemma SignedDivision(n: int, d: int, q: int, r: int)
    requires d != 0 && Abs(n) == q * Abs(d) + r && 0 <= r < Abs(d)
    ensures n - Signed((n < 0) != (d < 0), q) * d == Signed(n < 0, r) && (n == 0 && q >= 0 ==> r == 0)
  {
    MulNonneg(Abs(q), Abs(d));
    assert (-q) * d == -(q * d) && q * (-d) == -(q * d);
  }

  lemma OnlyOne(n: int, d: int, q: int, t: int)
    requires d != 0 && q != t && IsTruncated(n, d, t)
    ensures !IsTruncated(n, d, q)
  {
    var e, k := Abs(d), q - t;
    assert q * d == t * d + k * d;
    assert Abs(k * d) >= e by {
      Multiples(k, d);
    }
  }

  lemma Multiples(k: int, d: int)
    requires k != 0
    ensures Abs(k * d) >= Abs(d)
  {
    MulMono(1, Abs(k), Abs(d));
    assert (-k) * d == -(k * d) && k * (-d) == -(k * d) && (-k) * (-d) == k * d;
  }

  lemma TruncQuotScaled(n: int, d: int, c: int)
    requires d != 0 && c > 0
    ensures d * c != 0 && TruncQuot(n * c, d * c) == TruncQuot(n, d)
  {
    NonZeroProduct(d, c);
    assert (-n) * c == -(n * c) && (-d) * c == -(d * c);
    if d < 0 {
      TruncScaled(-n, -d, c);
    } else {
      TruncScaled(n, d, c);
    }
  }

  /** How far the dividend and the divisor are shifted before an integer division. */
  function Shifts(a: Num, b: Num, scale: nat): (nat, nat) {
    var e := |b.frac| + scale - |a.frac|;
    if e >= 0 then (e, 0) else (0, -e)
  }

  function ShiftedParts(n: Num, zeros: nat): Shifted {
    var (p, q) := Parts(n);
    Shifted(p, q, zeros)
  }

  lemma ShiftedPartsValue(n: Num, zeros: nat)
    requires n.WellFormed()
    ensures var s := ShiftedParts(n, zeros);
      && s.Canonical() && s.Value() == Magnitude(n) * Pow(10, zeros)
      && (|s.a + s.b| == 0 <==> n.Unscaled() == 0)
  {
    hide Be, Pow, Parts;
    PartsValue(n);
    ShiftedValue(ShiftedParts(n, zeros));
    MagnitudeSign(n);
  }

  /** Shifting by the difference of the scales is the same division. */
  lemma ShiftedQuotient(a: Num, b: Num, scale: nat)
    requires b.Unscaled() != 0
    ensures var (nz, dz) := Shifts(a, b, scale);
      b.Unscaled() * Pow(10, dz) != 0 && Quotient(a, b, scale) ==
        TruncQuot(a.Unscaled() * Pow(10, nz), b.Unscaled() * Pow(10, dz))
  {
    var (nz, dz) := Shifts(a, b, scale);
    hide Pow, TruncQuot, Be;
    var common := |b.frac| + scale - nz;
    PowAdd(10, nz, common);
    PowAdd(10, dz, common);
    PowPos(10, common);
    PowPos(10, dz);
    NonZeroProduct(b.Unscaled(), Pow(10, dz));
    TruncQuotScaled(a.Unscaled() * Pow(10, nz), b.Unscaled() * Pow(10, dz), Pow(10, common));
    Assoc3(a.Unscaled(), Pow(10, nz), Pow(10, common));
    Assoc3(b.Unscaled(), Pow(10, dz), Pow(10, common));
  }

  lemma Assoc3(x: int, p: int, q: int)
    ensures x * p * q == x * (p * q)
  {}

  /** The quotient does not depend on trailing zeros of the operands. */
  lemma TrimmedQuotient(a: Num, b: Num, scale: nat)
    requires b.Unscaled() != 0
    ensures b.Trimmed().Unscaled() != 0 && Quotient(a.Trimmed(), b.Trimmed(), scale) == Quotient(a, b, scale)
  {
    var at, bt := a.Trimmed(), b.Trimmed();
    TrimmedNonZero(b);
    var i, j := |a.frac| - |at.frac|, |b.frac| - |bt.frac|;
    hide Pow, TruncQuot, Be, TrimZeros, Signed;
    TrimmedSame(a);
    TrimmedSame(b);
    PowPos(10, i);
    PowPos(10, j);
    PowPos(10, |at.frac|);
    PowAdd(10, |bt.frac| + scale, j);
    PowAdd(10, |at.frac|, i);
    CrossScaled(at.Unscaled(), bt.Unscaled(), Pow(10, i), Pow(10, j), Pow(10, |bt.frac| + scale), Pow(10, |at.frac|));
  }

  lemma CrossScaled(u: int, w: int, p: int, q: int, f: int, g: int)
    requires w != 0 && 0 < p && 0 < q && 0 < g
    ensures w * g != 0 && (w * q) * (g * p) != 0
    ensures TruncQuot((u * p) * (f * q), (w * q) * (g * p)) == TruncQuot(u * f, w * g)
  {
    hide TruncQuot;
    MulStrict(0, p, q);
    NonZeroProduct(w, g);
    Multiplying.Regroup(u, p, f, q);
    Multiplying.Regroup(w, q, g, p);
    assert q * p == p * q;
    TruncQuotScaled(u * f, w * g, p * q);
  }

  /** The signed quotient from the magnitudes' quotient. */
  lemma SignedQuotient(a: Num, b: Num, scale: nat, n: Shifted, d: Shifted)
    requires a.WellFormed() && b.WellFormed() && b.Unscaled() != 0
    requires var (nz, dz) := Shifts(a, b, scale); n == ShiftedParts(a, nz) && d == ShiftedParts(b, dz)
    ensures n.Canonical() && d.Canonical() && |d.a + d.b| > 0 && 0 < d.Value()
    ensures 0 <= n.Value() / d.Value() && Signed(a.neg != b.neg, n.Value() / d.Value()) == Quotient(a, b, scale)
  {
    var (nz, dz) := Shifts(a, b, scale);
    hide Be, Pow, TruncQuot, Quotient, ShiftedParts;
    ShiftedPartsValue(a, nz);
    ShiftedPartsValue(b, dz);
    DivisorPositive(d);
    ShiftedValue(n);
    QuotientNonneg(n.Value(), d.Value());
    ShiftedQuotient(a, b, scale);
    MagnitudeSign(a);
    MagnitudeSign(b);
    SignedTimes(a.neg, Magnitude(a), Pow(10, nz));
    SignedTimes(b.neg, Magnitude(b), Pow(10, dz));
    SignedQuot(a.neg, n.Value(), b.neg, d.Value());
  }

  lemma SignedQuot(m: bool, x: nat, k: bool, y: nat)
    requires y > 0
    ensures Signed(k, y) != 0 && TruncQuot(Signed(m, x), Signed(k, y)) == Signed(m != k, x / y)
  {
    if x == 0 {
      DivModUnique(0, y, 0, 0);
    }
  }

  /** The quotient digits of `a / b` at `scale` digits. */
  method DivDigits(a: Num, b: Num, scale: nat) returns (q: seq<Digit>)
    requires a.WellFormed() && b.WellFormed() && b.Unscaled() != 0
    ensures Signed(a.neg != b.neg, Dec(q)) == Quotient(a, b, scale)
  {
    hide *;
    var (nz, dz) := Shifts(a, b, scale);
    var n, d := ShiftedParts(a, nz), ShiftedParts(b, dz);
    SignedQuotient(a, b, scale, n, d);
    var r;
    q, r := DivRemDigits(n, d, false);
    DividedDigits(n, d, q, r);
  }

  lemma DividedDigits(n: Shifted, d: Shifted, q: seq<Digit>, r: seq<Digit>)
    requires 0 < d.Value() && Divided(n, d, false, q, r)
    ensures Dec(q) == n.Value() / d.Value()
  {}

  /** The digits of a 64-bit quotient, from the right. */
  method QuotientDigits(q: u64) returns (d: seq<Digit>)
    ensures d == DigitsOf(q)
  {
    hide Be, Pow;
    var v: int := q;
    d := [];
    BeNil(10, 48);
    PowStep(10, 0);
    while v > 0
      invariant 0 <= v && v * Pow(10, |d|) + Dec(d) == q
      invariant v == 0 && |d| > 0 ==> d[0] != 48
    {
      BeConcat([48 + v % 10], d, 10, 48);
      OneDigit(48 + v % 10);
      PowStep(10, |d|);
      StepValue(v / 10, Pow(10, |d|), v % 10, v);
      d := [48 + v % 10] + d;
      v := v / 10;
    }
    CanonicalDigits(d);
  }

  lemma StepValue(h: int, p: int, l: int, v: int)
    requires v == 10 * h + l
    ensures v * p == h * (10 * p) + l * p
  {}

  /**
   * Appends `a / b` truncated at `scale` digits; `estimate` is whatever the floating-point
   * division of the short-quotient tier returns.
   */
  method DivInto(out: ByteVec, a: Num, b: Num, scale: nat, estimate: u64)
    requires a.WellFormed() && b.WellFormed() && b.Unscaled() != 0
    modifies out
    ensures out.bytes == old(out.bytes) + Text(Quotient(a, b, scale), scale)
  {
    hide *;
    var at, bt := a.Trimmed(), b.Trimmed();
    Multiplying.TrimmedWellFormed(a);
    Multiplying.TrimmedWellFormed(b);
    TrimmedQuotient(a, b, scale);
    var d := TierDigits(at, bt, scale, estimate);
    SameScale(Quotient(a, b, scale), scale);
    WriteUnscaled(out, at.neg != bt.neg, d, scale, scale);
  }

  lemma SameScale(v: int, scale: nat)
    ensures AtScale(v, scale, scale) == v
  {
    hide Pow;
    PowPos(10, scale);
    TruncScaled(v, 1, Pow(10, scale));
  }

  method TierDigits(a: Num, b: Num, scale: nat, estimate: u64) returns (q: seq<Digit>)
    requires a.WellFormed() && b.WellFormed() && b.Unscaled() != 0
    ensures Signed(a.neg != b.neg, Dec(q)) == Quotient(a, b, scale)
  {
    hide *;
    var (nz, dz) := Shifts(a, b, scale);
    var n, d := ShiftedParts(a, nz), ShiftedParts(b, dz);
    SignedQuotient(a, b, scale, n, d);
    if n.Len() > 38 {
      var short := DivShortQuotient(n, d, estimate);
      if short.Some? {
        q := QuotientDigits(short.value);
        return;
      }
      var small := DivSmall(n, d);
      if small.Some? {
        q := small.value;
        return;
      }
    }
    q := DivDigits(a, b, scale);
  }

  /** `a / b` truncated at `scale` digits, as an owned result. */
  method Div(a: Num, b: Num, scale: nat) returns (r: Exact)
    requires a.WellFormed() && b.WellFormed() && b.Unscaled() != 0
    ensures r.WellFormed() && r.scale == scale && r.Unscaled() == Quotient(a, b, scale)
  {
    var at, bt := a.Trimmed(), b.Trimmed();
    hide Quotient, Be;
    Multiplying.TrimmedWellFormed(a);
    Multiplying.TrimmedWellFormed(b);
    TrimmedQuotient(a, b, scale);
    var q := DivDigits(at, bt, scale);
    r := FromDigits(at.neg != bt.neg, q, scale);
  }

  // ----- quotient and remainder

  /** Magnitudes in, signed division law out. */
  lemma SignedLaw(m: bool, x: int, k: bool, y: int, q: int, r: int)
    requires x == q * y + r && 0 <= r < y
    ensures Signed(m, x) == Signed(m != k, q) * Signed(k, y) + Signed(m, r)
    ensures Abs(Signed(m, r)) < Abs(Signed(k, y))
  {
    assert (-q) * y == -(q * y) && q * (-y) == -(q * y) && (-q) * (-y) == q * y;
  }

  /**
   * Truncated division: `a == q * b + r` exactly, at the larger scale `s` of the trimmed operands,
   * with `|r| < |b|` and the sign of `a`.
   */
  method DivMod(a: Num, b: Num) returns (q: Exact, r: Exact)
    requires a.WellFormed() && b.WellFormed() && b.Unscaled() != 0
    ensures q.WellFormed() && q.scale == 0
    ensures var at, bt := a.Trimmed(), b.Trimmed();
      var s := Addition.MaxLen(at.frac, bt.frac);
      && r.WellFormed() && r.scale == s
      && Addition.At(at, s) == q.Unscaled() * Addition.At(bt, s) + r.Unscaled()
      && Abs(r.Unscaled()) < Abs(Addition.At(bt, s))
      && (a.Unscaled() >= 0 ==> r.Unscaled() >= 0) && (a.Unscaled() <= 0 ==> r.Unscaled() <= 0)
  {
    hide *;
    var at, bt := a.Trimmed(), b.Trimmed();
    Multiplying.TrimmedWellFormed(a);
    Multiplying.TrimmedWellFormed(b);
    TrimmedNonZero(b);
    Longest(at.frac, bt.frac);
    var s := Addition.MaxLen(at.frac, bt.frac);
    var n, d := ShiftedParts(at, s - |at.frac|), ShiftedParts(bt, s - |bt.frac|);
    ShiftedPartsValue(at, s - |at.frac|);
    ShiftedPartsValue(bt, s - |bt.frac|);
    var qd, rd := DivRemDigits(n, d, true);
    Remainders(a, at, bt, s, n, d, qd, rd);
    q := FromDigits(at.neg != bt.neg, qd, 0);
    r := FromDigits(at.neg, rd, s);
  }

  lemma Longest(x: seq<Digit>, y: seq<Digit>)
    ensures |x| <= Addition.MaxLen(x, y) && |y| <= Addition.MaxLen(x, y)
  {}

  lemma TrimmedNonZero(b: Num)
    ensures b.Trimmed().Unscaled() == 0 <==> b.Unscaled() == 0
    ensures b.Unscaled() > 0 ==> b.Trimmed().Unscaled() > 0
    ensures b.Unscaled() < 0 ==> b.Trimmed().Unscaled() < 0
  {
    hide Be, Pow, TrimZeros;
    TrimmedSame(b);
    var t, p := b.Trimmed().Unscaled(), Pow(10, |b.frac| - |b.Trimmed().frac|);
    PowPos(10, |b.frac| - |b.Trimmed().frac|);
    if t > 0 {
      MulStrict(0, t, p);
    } else if t < 0 {
      MulStrict(t, 0, p);
    }
  }

  lemma Remainders(a: Num, at: Num, bt: Num, s: nat, n: Shifted, d: Shifted, qd: seq<Digit>, rd: seq<Digit>)
    requires at == a.Trimmed() && |at.frac| <= s && |bt.frac| <= s
    requires n.Value() == Magnitude(at) * Pow(10, s - |at.frac|) && d.Value() == Magnitude(bt) * Pow(10, s - |bt.frac|)
    requires 0 < d.Value() && Divided(n, d, true, qd, rd)
    ensures var q, r := Signed(at.neg != bt.neg, Dec(qd)), Signed(at.neg, Dec(rd));
      && Addition.At(at, s) == q * Addition.At(bt, s) + r && Abs(r) < Abs(Addition.At(bt, s))
      && (a.Unscaled() >= 0 ==> r >= 0) && (a.Unscaled() <= 0 ==> r <= 0)
  {
    hide Be, Pow, DigitsOf, TrimZeros;
    ShiftedValue(n);
    QuotientNonneg(n.Value(), d.Value());
    DivModFact(n.Value(), d.Value());
    MagnitudeSign(at);
    MagnitudeSign(bt);
    SignedTimes(at.neg, Magnitude(at), Pow(10, s - |at.frac|));
    SignedTimes(bt.neg, Magnitude(bt), Pow(10, s - |bt.frac|));
    SignedLaw(at.neg, n.Value(), bt.neg, d.Value(), Dec(qd), Dec(rd));
    TrimmedNonZero(a);
    if Magnitude(at) == 0 {
      assert n.Value() == 0 * Pow(10, s - |at.frac|) == 0;
      DivModUnique(0, d.Value(), 0, 0);
    }
  }
}
