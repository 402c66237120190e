/** Positional numerals: the values that limb vectors, digit strings and machine words denote. */
module Numerals {

  function Pow(b: int, n: nat): int {
    if n == 0 then 1 else b * Pow(b, n - 1)
  }

  /** The value of `s` in base `b`, least significant symbol first. */
  function Le(s: seq<int>, b: int): int {
    if |s| == 0 then 0 else s[0] + b * Le(s[1..], b)
  }

  /** The value of `s` in base `b`, most significant symbol first, where `zero` is the symbol of 0. */
  function Be(s: seq<int>, b: int, zero: int): int {
    if |s| == 0 then 0 else Be(s[..|s| - 1], b, zero) * b + (s[|s| - 1] - zero)
  }

  ghost predicate InRange(s: seq<int>, lo: int, hi: int) {
    forall i :: 0 <= i < |s| ==> lo <= s[i] < hi
  }

  // ----- integer arithmetic

  lemma MulMono(x: int, y: int, z: int)
    requires x <= y && 0 <= z
    ensures x * z <= y * z && z * x <= z * y
  {}

  lemma MulStrict(x: int, y: int, z: int)
    requires x < y && 0 < z
    ensures x * z < y * z && z * x < z * y
  {}

  lemma MulNonneg(x: int, y: int)
    requires 0 <= x && 0 <= y
    ensures 0 <= x * y
  {}

  lemma MulCancelLt(x: int, y: int, z: int)
    requires x * z < y * z && 0 < z
    ensures x < y
  {
    if y <= x { MulMono(y, x, z); }
  }

  lemma MulCancelLe(x: int, y: int, z: int)
    requires x * z <= y * z && 0 < z
    ensures x <= y
  {
    if y < x { MulStrict(y, x, z); }
  }

  lemma Distribute(v: int, p: int, x: int, w: int)
    ensures (v + p * x) * w == v * w + p * (x * w)
  {}

  /** Quotient and remainder are the only pair with the division property. */
  lemma DivModUnique(n: int, d: int, q: int, r: int)
    requires 0 <= r < d && n == q * d + r
    ensures n / d == q && n % d == r
  {
    var q', r' := n / d, n % d;
    assert n == d * q' + r';
    assert (q' + 1) * d == q' * d + d && (q + 1) * d == q * d + d;
    if q' < q {
      MulMono(q' + 1, q, d);
    } else if q < q' {
      MulMono(q + 1, q', d);
    }
  }

  lemma DivModFact(n: int, d: int)
    requires 0 < d
    ensures n == n / d * d + n % d && 0 <= n % d < d
  {}

  lemma QuotientPositive(n: int, d: int)
    requires 0 < d <= n
    ensures n / d >= 1
  {
    DivModFact(n, d);
    if n / d < 1 {
      MulMono(n / d, 0, d);
    }
  }

  // ----- powers

  lemma PowPos(b: int, n: nat)
    requires 0 < b
    ensures 0 < Pow(b, n)
  {
    if n > 0 {
      PowPos(b, n - 1);
      MulStrict(0, Pow(b, n - 1), b);
    }
  }

  lemma {:induction false} PowAdd(b: int, m: nat, n: nat)
    ensures Pow(b, m + n) == Pow(b, m) * Pow(b, n)
  {
    if m > 0 {
      PowAdd(b, m - 1, n);
      assert b * (Pow(b, m - 1) * Pow(b, n)) == (b * Pow(b, m - 1)) * Pow(b, n);
    }
  }

  lemma {:induction false} PowMono(b: int, m: nat, n: nat)
    requires 1 <= b && m <= n
    ensures Pow(b, m) <= Pow(b, n)
  {
    if m < n {
      PowMono(b, m, n - 1);
      PowPos(b, n - 1);
      MulMono(1, b, Pow(b, n - 1));
    }
  }

  lemma {:induction false} PowMul(b: int, m: nat, n: nat)
    ensures 0 <= m * n && Pow(Pow(b, m), n) == Pow(b, m * n)
  {
    MulNonneg(m, n);
    if n == 0 {
      assert m * n == 0;
    } else {
      PowMul(b, m, n - 1);
      assert m * n == m + m * (n - 1);
      PowAdd(b, m, m * (n - 1));
    }
  }

  lemma PowStep(b: int, n: nat)
    ensures Pow(b, 0) == 1 && Pow(b, n + 1) == b * Pow(b, n)
  {}

  // ----- little-endian values

  lemma LeNil(b: int)
    ensures Le([], b) == 0 && Pow(b, 0) == 1
  {}

  lemma LeCons(x: int, s: seq<int>, b: int)
    ensures Le([x] + s, b) == x + b * Le(s, b)
  {
    assert ([x] + s)[1..] == s;
  }

  lemma LeOne(x: int, b: int)
    ensures Le([x], b) == x && Pow(b, 1) == b
  {
    assert b * Le([x][1..], b) == 0;
  }

  lemma {:induction false} LeConcat(s: seq<int>, t: seq<int>, b: int)
    ensures Le(s + t, b) == Le(s, b) + Pow(b, |s|) * Le(t, b)
  {
    if |s| == 0 {
      assert s + t == t;
    } else {
      assert (s + t)[1..] == s[1..] + t;
      LeConcat(s[1..], t, b);
      assert b * (Pow(b, |s| - 1) * Le(t, b)) == Pow(b, |s|) * Le(t, b);
    }
  }

  lemma LeSnoc(s: seq<int>, x: int, b: int)
    ensures Le(s + [x], b) == Le(s, b) + Pow(b, |s|) * x
  {
    LeConcat(s, [x], b);
    assert Le([x], b) == x;
  }

  /** A vector cut at `i`: low part plus shifted high part. */
  lemma LeSplit(s: seq<int>, i: nat, b: int)
    requires i <= |s|
    ensures Le(s, b) == Le(s[..i], b) + Pow(b, i) * Le(s[i..], b)
  {
    assert s == s[..i] + s[i..];
    LeConcat(s[..i], s[i..], b);
  }

  lemma {:induction false} LeBound(s: seq<int>, b: int)
    requires 0 < b && InRange(s, 0, b)
    ensures 0 <= Le(s, b) < Pow(b, |s|)
  {
    if |s| > 0 {
      LeBound(s[1..], b);
      MulMono(Le(s[1..], b) + 1, Pow(b, |s| - 1), b);
      MulNonneg(b, Le(s[1..], b));
      assert b * (Le(s[1..], b) + 1) == b * Le(s[1..], b) + b;
    }
  }

  lemma {:induction false} LeZeros(s: seq<int>, b: int)
    requires forall i :: 0 <= i < |s| ==> s[i] == 0
    ensures Le(s, b) == 0
  {
    if |s| > 0 {
      LeZeros(s[1..], b);
    }
  }

  // ----- big-endian values

  lemma BeNil(b: int, zero: int)
    ensures Be([], b, zero) == 0
  {}

  lemma BeLast(s: seq<int>, b: int, zero: int)
    requires |s| > 0
    ensures Be(s, b, zero) == Be(s[..|s| - 1], b, zero) * b + (s[|s| - 1] - zero)
  {}

  lemma BeSnoc(s: seq<int>, x: int, b: int, zero: int)
    ensures Be(s + [x], b, zero) == Be(s, b, zero) * b + (x - zero)
  {
    assert (s + [x])[..|s|] == s;
  }

  lemma {:induction false} BeConcat(s: seq<int>, t: seq<int>, b: int, zero: int)
    ensures Be(s + t, b, zero) == Be(s, b, zero) * Pow(b, |t|) + Be(t, b, zero)
  {
    if |t| == 0 {
      assert s + t == s;
    } else {
      var n := |t| - 1;
      assert s + t == (s + t[..n]) + [t[n]];
      BeSnoc(s + t[..n], t[n], b, zero);
      BeConcat(s, t[..n], b, zero);
      var x, p, y := Be(s, b, zero), Pow(b, n), Be(t[..n], b, zero);
      assert (x * p + y) * b == x * (b * p) + y * b;
    }
  }

  lemma BeSplit(s: seq<int>, i: nat, b: int, zero: int)
    requires i <= |s|
    ensures Be(s, b, zero) == Be(s[..i], b, zero) * Pow(b, |s| - i) + Be(s[i..], b, zero)
  {
    assert s == s[..i] + s[i..];
    BeConcat(s[..i], s[i..], b, zero);
  }

  lemma {:induction false} BeBound(s: seq<int>, b: int, zero: int)
    requires 0 < b && InRange(s, zero, zero + b)
    ensures 0 <= Be(s, b, zero) < Pow(b, |s|)
  {
    if |s| > 0 {
      var t := s[..|s| - 1];
      BeBound(t, b, zero);
      MulMono(Be(t, b, zero) + 1, Pow(b, |t|), b);
      MulNonneg(b, Be(t, b, zero));
      assert (Be(t, b, zero) + 1) * b == Be(t, b, zero) * b + b;
    }
  }

  /** A numeral whose first symbol is not zero is at least the power of its other places. */
  lemma BeLower(s: seq<int>, b: int, zero: int)
    requires 0 < b && InRange(s, zero, zero + b) && |s| > 0 && s[0] != zero
    ensures Pow(b, |s| - 1) <= Be(s, b, zero)
  {
    BeSplit(s, 1, b, zero);
    assert Be(s[..1], b, zero) == s[0] - zero;
    BeBound(s[1..], b, zero);
    PowPos(b, |s| - 1);
    MulMono(1, s[0] - zero, Pow(b, |s| - 1));
  }

  lemma {:induction false} BeZeros(s: seq<int>, b: int, zero: int)
    requires forall i :: 0 <= i < |s| ==> s[i] == zero
    ensures Be(s, b, zero) == 0
  {
    if |s| > 0 {
      BeZeros(s[..|s| - 1], b, zero);
    }
  }
}
