/** Operands as unscaled integers, and their conversion to and from 128-bit words. */
module Operands {
  import opened Numerals
  import opened Words
  import opened Digits
  import opened Decimals
  import opened Buffers
  import Packing

  type u128 = x: int | 0 <= x < 0x1_0000_0000_0000_0000_0000_0000_0000_0000

  const TEN19: int := 10_000_000_000_000_000_000

  /** The magnitude of the unscaled integer. */
  function Magnitude(n: Num): int { Dec(n.whole + n.frac) }

  lemma MagnitudeSign(n: Num)
    ensures 0 <= Magnitude(n) && n.Unscaled() == Signed(n.neg, Magnitude(n))
  {
    BeBound(n.whole + n.frac, 10, 48);
  }

  // ----- trailing zeros carry no value

  /** An operand without trailing fraction zeros denotes the same number. */
  lemma TrimmedSame(n: Num)
    ensures var t, k := n.Trimmed(), |n.frac| - |n.Trimmed().frac|;
      && 0 <= k && t.neg == n.neg && t.whole == n.whole && |t.frac| + k == |n.frac|
      && n.Unscaled() == t.Unscaled() * Pow(10, k) && Magnitude(n) == Magnitude(t) * Pow(10, k)
  {
    hide Be, Pow;
    var t := n.Trimmed();
    var z := Zeros(|n.frac| - |t.frac|);
    assert n.whole + n.frac == (t.whole + t.frac) + z;
    BeConcat(t.whole + t.frac, z, 10, 48);
    ZerosDec(|z|);
    assert (-Magnitude(t)) * Pow(10, |z|) == -(Magnitude(t) * Pow(10, |z|));
  }

  lemma TruncScaled(n: int, d: int, c: int)
    requires d > 0 && c > 0
    ensures d * c > 0 && TruncDiv(n * c, d * c) == TruncDiv(n, d)
  {
    MulStrict(0, d, c);
    var m := Abs(n);
    DivModFact(m, d);
    var q, r := m / d, m % d;
    assert m * c == q * (d * c) + r * c;
    MulStrict(r, d, c);
    MulNonneg(r, c);
    DivModUnique(m * c, d * c, q, r * c);
    assert (-n) * c == -(n * c);
    if n < 0 {
      MulStrict(n, 0, c);
    } else {
      MulNonneg(n, c);
    }
  }

  /** Counting the same value in finer units does not change what is shown. */
  lemma AtScaleFiner(v: int, s: nat, k: nat, scale: nat)
    ensures AtScale(v * Pow(10, k), s + k, scale) == AtScale(v, s, scale)
  {
    hide Pow;
    PowPos(10, s);
    PowPos(10, k);
    PowPos(10, s + k);
    PowAdd(10, s, k);
    TruncScaled(v * Pow(10, scale), Pow(10, s), Pow(10, k));
    Swap(v, Pow(10, k), Pow(10, scale));
  }

  lemma Swap(x: int, y: int, z: int)
    ensures x * y * z == x * z * y
  {}

  // ----- significant digits

  /** The digits of the unscaled integer, leading zeros skipped, as two slices. */
  function Parts(n: Num): (seq<Digit>, seq<Digit>) {
    if |n.whole| > 0 then (n.whole, n.frac) else ([], n.frac[LeadingZeros(n.frac)..])
  }

  function UnscaledLen(n: Num): nat {
    if |n.whole| > 0 then |n.whole| + |n.frac| else |n.frac| - LeadingZeros(n.frac)
  }

  lemma PartsValue(n: Num)
    requires n.WellFormed()
    ensures var (p, q) := Parts(n);
      && Dec(p + q) == Magnitude(n) && |p| + |q| == UnscaledLen(n)
      && (|p + q| > 0 ==> (p + q)[0] != 48)
      && (UnscaledLen(n) == 0 <==> Magnitude(n) == 0)
  {
    hide Be;
    var (p, q) := Parts(n);
    if |n.whole| == 0 {
      StrippedIs(n.frac);
      StripValue(n.frac);
      assert n.whole + n.frac == n.frac && p + q == q;
    }
    NoLeadingZero(p + q);
  }

  lemma NoLeadingZero(s: seq<Digit>)
    requires |s| > 0 ==> s[0] != 48
    ensures 0 <= Dec(s) && (|s| == 0 <==> Dec(s) == 0)
    ensures |s| > 0 ==> Pow(10, |s| - 1) <= Dec(s)
  {
    BeBound(s, 10, 48);
    if |s| > 0 {
      BeLower(s, 10, 48);
      PowPos(10, |s| - 1);
    }
  }

  // ----- digits to a machine word

  lemma TenPowers()
    ensures Pow(10, 8) == 100_000_000 && Pow(10, 19) == TEN19 && Pow(10, 38) == TEN19 * TEN19
    ensures Pow(10, 38) < 0x1_0000_0000_0000_0000_0000_0000_0000_0000 <= Pow(10, 39)
  {
    Packing.PowersOfTen(3);
    Packing.PowersOfTen(8);
    PowAdd(10, 8, 8);
    PowAdd(10, 16, 3);
    PowAdd(10, 19, 19);
    PowStep(10, 38);
  }

  lemma FitsU128(s: seq<Digit>)
    requires |s| <= 38
    ensures 0 <= Dec(s) < Pow(10, |s|) <= Pow(10, 38) < 0x1_0000_0000_0000_0000_0000_0000_0000_0000
  {
    hide Be, Pow;
    BeBound(s, 10, 48);
    PowMono(10, |s|, 38);
    TenPowers();
  }

  /** Eight digits at a time, then the rest one by one, behind digits already read. */
  method ReadChunks(ghost before: seq<Digit>, v0: u128, s: seq<Digit>) returns (v: u128)
    requires v0 == Dec(before) && |before| + |s| <= 38
    ensures v == Dec(before + s)
  {
    hide Be, Pow;
    v := v0;
    var i := 0;
    assert before + s[..0] == before;
    while i + 8 <= |s|
      invariant 0 <= i <= |s| && v == Dec(before + s[..i])
    {
      ghost var t := before + s[..i];
      assert before + s[..i + 8] == t + s[i..i + 8];
      BeConcat(t, s[i..i + 8], 10, 48);
      TenPowers();
      FitsU128(t + s[i..i + 8]);
      v := v as int * 100_000_000 + Packing.Parse8(s[i..i + 8]);
      i := i + 8;
    }
    while i < |s|
      invariant 0 <= i <= |s| && v == Dec(before + s[..i])
    {
      ghost var t := before + s[..i];
      assert before + s[..i + 1] == t + [s[i]];
      BeSnoc(t, s[i], 10, 48);
      FitsU128(t + [s[i]]);
      v := v as int * 10 + (s[i] as int - 48);
      i := i + 1;
    }
    assert s[..|s|] == s;
  }

  /** The value of at most 38 digits `a ++ b`. */
  method ValU128(a: seq<Digit>, b: seq<Digit>) returns (v: u128)
    requires |a| + |b| <= 38
    ensures v == Dec(a + b) < Pow(10, |a| + |b|)
  {
    BeNil(10, 48);
    hide Be, Pow;
    v := ReadChunks([], 0, a);
    assert [] + a == a;
    v := ReadChunks(a, v, b);
    FitsU128(a + b);
  }

  // ----- a machine word to digits

  /** Written low digits: `v` still to come above them. */
  ghost predicate Written(buf: array<byte>, i: nat, v: int, total: int)
    requires buf.Length == 40 && i <= 40
    reads buf
  {
    && InRange(buf[i..], 48, 58)
    && v * Pow(10, 40 - i) + Dec(buf[i..]) == total
  }

  lemma WrittenStart(buf: array<byte>, v: int)
    requires buf.Length == 40
    ensures Written(buf, 40, v, v)
  {
    assert buf[40..] == [];
    PowStep(10, 0);
    BeNil(10, 48);
  }

  /** How far the digits of a 128-bit number can reach. */
  lemma Room(buf: array<byte>, i: nat, v: int, total: u128, k: nat)
    requires buf.Length == 40 && i <= 40 && k <= 39 && Written(buf, i, v, total) && v >= Pow(10, k)
    ensures i > k + 1
  {
    hide Be, Pow;
    BeBound(buf[i..], 10, 48);
    TenPowers();
    PowPos(10, 40 - i);
    MulMono(Pow(10, k), v, Pow(10, 40 - i));
    PowAdd(10, k, 40 - i);
    if i <= k + 1 {
      PowMono(10, 39, k + (40 - i));
    }
  }

  lemma PutDigit(buf: array<byte>, i: nat, v: int, d: int, total: int, rest: seq<byte>)
    requires buf.Length == 40 && 0 < i <= 40 && 0 <= d < 10 && buf[i - 1] == 48 + d && buf[i..] == rest
    requires InRange(rest, 48, 58) && (10 * v + d) * Pow(10, 40 - i) + Dec(rest) == total
    ensures Written(buf, i - 1, v, total)
  {
    hide Be, Pow;
    assert buf[i - 1..] == [buf[i - 1]] + rest;
    BeConcat([buf[i - 1]], rest, 10, 48);
    OneDigit(buf[i - 1]);
    PowStep(10, 40 - i);
    Shift(v, d, Pow(10, 40 - i));
  }

  lemma Shift(v: int, d: int, p: int)
    ensures (10 * v + d) * p == v * (10 * p) + d * p
  {}

  /** Nineteen digits of one 64-bit piece. */
  method PutNineteen(buf: array<byte>, i0: nat, low0: u64, ghost v: nat, ghost total: int) returns (i: nat)
    requires buf.Length == 40 && 19 <= i0 <= 40 && low0 < TEN19
    requires Written(buf, i0, v * TEN19 + low0, total)
    modifies buf
    ensures i == i0 - 19 && Written(buf, i, v, total)
  {
    hide Be, Pow, Written;
    i := i0;
    var low := low0;
    PowStep(10, 0);
    TenPowers();
    for k := 0 to 19
      invariant i == i0 - k && 0 <= low < Pow(10, 19 - k)
      invariant Written(buf, i, v * Pow(10, 19 - k) + low, total)
    {
      PowStep(10, 18 - k);
      StepValue(v, Pow(10, 18 - k), low);
      i := PutOne(buf, i, v * Pow(10, 18 - k) + low / 10, low % 10, total);
      low := low / 10;
    }
    assert v * Pow(10, 0) + low == v;
  }

  lemma StepValue(v: int, p: int, low: int)
    requires 0 <= low < 10 * p
    ensures v * (10 * p) + low == 10 * (v * p + low / 10) + low % 10 && 0 <= low / 10 < p
  {}

  method PutOne(buf: array<byte>, i0: nat, ghost v: int, d: int, ghost total: int) returns (i: nat)
    requires buf.Length == 40 && 0 < i0 <= 40 && 0 <= d < 10 && Written(buf, i0, 10 * v + d, total)
    modifies buf
    ensures i == i0 - 1 && buf[i] == 48 + d && Written(buf, i, v, total)
  {
    hide Be, Pow;
    ghost var rest := buf[i0..];
    i := i0 - 1;
    buf[i] := 48 + d;
    assert buf[i0..] == rest;
    PutDigit(buf, i0, v, d, total, rest);
  }

  /** Appends the decimal digits of `v`, without leading zeros; nothing for zero. */
  method PushU128(out: ByteVec, v0: u128)
    modifies out
    ensures out.bytes == old(out.bytes) + DigitsOf(v0)
  {
    hide Be, Pow, Written, DigitsOf;
    var buf := new byte[40](_ => 48);
    var i: nat, v: u128 := 40, v0;
    WrittenStart(buf, v);
    TenPowers();
    while v >= TEN19
      invariant 0 <= i <= 40 && Written(buf, i, v, v0)
      invariant i < 40 ==> v > 0
      invariant out.bytes == old(out.bytes)
    {
      Room(buf, i, v, v0, 19);
      var low: u64 := v % TEN19;
      v := v / TEN19;
      i := PutNineteen(buf, i, low, v, v0);
    }
    PowStep(10, 0);
    while v > 0
      invariant 0 <= i <= 40 && Written(buf, i, v, v0)
      invariant v == 0 && i < 40 ==> buf[i] != 48
      invariant out.bytes == old(out.bytes)
    {
      Room(buf, i, v, v0, 0);
      i := PutOne(buf, i, v / 10, v % 10, v0);
      v := v / 10;
    }
    AllWritten(buf, i, v0);
    out.Extend(buf[i..]);
  }

  lemma AllWritten(buf: array<byte>, i: nat, total: nat)
    requires buf.Length == 40 && i <= 40 && Written(buf, i, 0, total) && (i < 40 ==> buf[i] != 48)
    ensures buf[i..] == DigitsOf(total)
  {
    hide Be, Pow, DigitsOf;
    CanonicalDigits(buf[i..]);
  }
}
