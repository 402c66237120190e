/**
 * The double-precision operations behind quotient estimates: every conversion and division is
 * any real within one unit roundoff, relative to the exact result; integers up to 2^53 are exact.
 */
module Floats {
  const ROUNDOFF: real := 1.0 / 9007199254740992.0
  const EXACT_INTEGERS: int := 0x20_0000_0000_0000

  predicate Rounds(x: real, r: real) {
    x - x * ROUNDOFF <= r <= x + x * ROUNDOFF
  }

  method ToF64(n: nat) returns (x: real)
    ensures Rounds(n as real, x)
    ensures n <= EXACT_INTEGERS ==> x == n as real
  {
    assert Rounds(n as real, n as real);
    x :| Rounds(n as real, x) && (n <= EXACT_INTEGERS ==> x == n as real);
  }

  method DivF64(x: real, y: real) returns (r: real)
    requires x >= 0.0 && y > 0.0
    ensures Rounds(x / y, r)
  {
    assert Rounds(x / y, x / y);
    r :| Rounds(x / y, r);
  }

  /** `(num as f64 / den as f64) as u64`, for a quotient of at most 2^30: within one of the exact quotient. */
  method EstimateQuotient(num: nat, den: nat) returns (q: nat)
    requires 0 < den <= EXACT_INTEGERS && num < 0x4000_0000 * den
    ensures num / den - 1 <= q <= num / den + 1
  {
    var n := ToF64(num);
    var d := ToF64(den);
    var r := DivF64(n, d);
    WithinOne(num, den, n, r);
    q := r.Floor;
  }

  lemma WithinOne(num: nat, den: nat, n: real, r: real)
    requires 0 < den && num < 0x4000_0000 * den
    requires Rounds(num as real, n) && Rounds(n / (den as real), r)
    ensures r >= 0.0 && num / den - 1 <= r.Floor <= num / den + 1
  {
    var x := num as real / den as real;
    var y := n / (den as real);
    QuotientBounds(num, den, x);
    assert x * (den as real) == num as real;
    assert y * (den as real) == n;
    Scaled(x, y, n, num as real, den as real);
    assert 0.0 <= x * ROUNDOFF <= 0.25 && 0.0 <= y * ROUNDOFF <= 0.5;
  }

  lemma Scaled(x: real, y: real, n: real, num: real, den: real)
    requires den > 0.0 && x * den == num && y * den == n && Rounds(num, n)
    ensures x - x * ROUNDOFF <= y <= x + x * ROUNDOFF
  {
    assert (x - x * ROUNDOFF) * den == num - num * ROUNDOFF;
    assert (x + x * ROUNDOFF) * den == num + num * ROUNDOFF;
    Cancel(x - x * ROUNDOFF, y, den);
    Cancel(y, x + x * ROUNDOFF, den);
  }

  lemma Cancel(x: real, y: real, d: real)
    requires 0.0 < d
    ensures x * d <= y * d ==> x <= y
    ensures x * d < y * d ==> x < y
  {}

  lemma QuotientBounds(num: nat, den: nat, x: real)
    requires 0 < den && num < 0x4000_0000 * den && x == num as real / den as real
    ensures (num / den) as real <= x < (num / den) as real + 1.0
    ensures 0.0 <= x < 1073741824.0
  {
    var q, d := num / den, den as real;
    assert q * den <= num < q * den + den;
    ProductOfCasts(q, den);
    assert x * d == num as real && d > 0.0;
    AboveAndBelow(q as real, x, d, num as real);
  }

  lemma ProductOfCasts(q: nat, den: nat)
    ensures (q * den) as real == q as real * den as real
  {}

  lemma AboveAndBelow(q: real, x: real, d: real, n: real)
    requires 0.0 < d && 0.0 <= q && x * d == n && q * d <= n < q * d + d && n < 1073741824.0 * d
    ensures q <= x < q + 1.0 && x < 1073741824.0
  {
    assert (q + 1.0) * d == q * d + d;
    Cancel(q, x, d);
    Cancel(x, q + 1.0, d);
    Cancel(x, 1073741824.0, d);
  }
}
