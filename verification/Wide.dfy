/** Unsigned 192-bit integers as a 64-bit and a 128-bit word. */
module Wide {
  import opened Numerals
  import opened Words
  import opened Operands

  const W64: int := 0x1_0000_0000_0000_0000
  const W128: int := 0x1_0000_0000_0000_0000_0000_0000_0000_0000

  datatype U192 = U192(hi: u64, lo: u128) {
    function Value(): int { hi * W128 + lo }

    /** The derived order: high word first. */
    predicate Less(that: U192) { hi < that.hi || (hi == that.hi && lo < that.lo) }

    function Add(v: u128): (r: U192)
      requires Value() + v < W64 * W128
      ensures r.Value() == Value() + v
    {
      var sum := lo as int + v;
      U192(if sum >= W128 then hi as int + 1 else hi, if sum >= W128 then sum - W128 else sum)
    }

    function AddHigh(h: u64): (r: U192)
      requires Value() + h * W128 < W64 * W128
      ensures r.Value() == Value() + h * W128
    {
      U192(hi as int + h, lo)
    }

    function Sub(v: U192): (r: U192)
      requires v.Value() <= Value()
      ensures r.Value() == Value() - v.Value()
    {
      var diff := lo as int - v.lo;
      U192(if diff < 0 then hi as int - v.hi - 1 else hi as int - v.hi, if diff < 0 then diff + W128 else diff)
    }
  }

  lemma OrderIsValue(x: U192, y: U192)
    ensures x.Less(y) <==> x.Value() < y.Value()
    ensures x == y <==> x.Value() == y.Value()
  {}

  /** What the two 64-bit halves of the first factor contribute. */
  lemma HalfProducts(a: u128, b: u64)
    ensures var (h, l) := (a / W64, a % W64);
      && 0 <= l * b < W128 && 0 <= h * b < W128 && 0 <= l < W64 && 0 <= h < W64
      && a * b == l * b + W64 * (h * b) && 0 <= a * b < W64 * W128
  {
    var h, l := a / W64, a % W64;
    MulNonneg(l, b);
    MulNonneg(h, b);
    MulMono(l, W64, b);
    MulMono(h, W64, b);
    MulNonneg(a, b);
    MulMono(a + 1, W128, b);
    assert a == W64 * h + l;
    assert (W64 * h + l) * b == l * b + W64 * (h * b);
  }

  lemma SplitHigh(p0: int, p1: int)
    requires 0 <= p0 < W128 && 0 <= p1 < W128 && p0 + W64 * p1 < W64 * W128
    ensures var l, h := p1 * W64 % W128, p1 / W64;
      && 0 <= l < W128 && 0 <= h < W64 && W64 * p1 == l + h * W128
      && (p0 + l >= W128 ==> h + 1 < W64)
  {
    var h, r := p1 / W64, p1 % W64;
    DivModUnique(p1 * W64, W128, h, r * W64);
  }

  /** `p0 + p1 * 2^64`, with the carry out of the low word. */
  function Combine(p0: u128, p1: u128): (r: U192)
    requires p0 + W64 * p1 < W64 * W128
    ensures r.Value() == p0 + W64 * p1
  {
    SplitHigh(p0, p1);
    var sum := p0 as int + p1 * W64 % W128;
    var c := if sum >= W128 then 1 else 0;
    U192(p1 / W64 + c, if sum >= W128 then sum - W128 else sum)
  }

  /** The same, by additions to the low and the high word. */
  function Accumulate(p0: u128, p1: u128): (r: U192)
    requires p0 + W64 * p1 < W64 * W128
    ensures r.Value() == p0 + W64 * p1
  {
    SplitHigh(p0, p1);
    U192(0, p0).Add(p1 * W64 % W128).AddHigh(p1 / W64)
  }

  /** `a * b`, by 64-bit halves. */
  function Mul(a: u128, b: u64): (r: U192)
    ensures r.Value() == a * b
  {
    HalfProducts(a, b);
    Combine(a % W64 * b, a / W64 * b)
  }

  /** `d * q`, built up from the halves of `d`. */
  function Scaled(d: u128, q: u64): (r: U192)
    ensures r.Value() == d * q
  {
    HalfProducts(d, q);
    Accumulate(d % W64 * q, d / W64 * q)
  }

  /**
   * The quotient of `n / d` from any starting estimate: it is lowered while its product exceeds
   * `n`, then raised while the remainder still holds a divisor.
   */
  method CorrectQuotient(n: U192, d: u128, estimate: u64) returns (q: u64)
    requires d > 0 && n.Value() / d < W64
    ensures q == n.Value() / d
  {
    hide *;
    q := estimate;
    var prod := Scaled(d, q);
    Bounds(n);
    Bounds(U192(0, d));
    OrderIsValue(n, prod);
    while n.Less(prod)
      invariant prod.Value() == d * q
      invariant n.Less(prod) <==> n.Value() < prod.Value()
      decreases q
    {
      Lower(n.Value(), d, q);
      q := q as int - 1;
      prod := prod.Sub(U192(0, d));
      OrderIsValue(n, prod);
    }
    q := RaiseQuotient(n, d, q, prod);
  }

  method RaiseQuotient(n: U192, d: u128, q0: u64, prod0: U192) returns (q: u64)
    requires d > 0 && n.Value() / d < W64 && prod0.Value() == d * q0 <= n.Value()
    ensures q == n.Value() / d
  {
    hide *;
    q := q0;
    var prod := prod0;
    ghost var nv := n.Value();
    Bounds(n);
    Bounds(U192(0, d));
    OrderIsValue(n.Sub(prod), U192(0, d));
    while !n.Sub(prod).Less(U192(0, d))
      invariant prod.Value() == d * q <= nv
      invariant n.Sub(prod).Less(U192(0, d)) <==> nv - d * q < d
      decreases nv - d * q
    {
      Raise(nv, d, q);
      q := q as int + 1;
      prod := prod.Add(d);
      OrderIsValue(n.Sub(prod), U192(0, d));
    }
    Reached(nv, d, q);
  }

  lemma Bounds(x: U192)
    ensures 0 <= x.Value() < W64 * W128 && (x.hi == 0 ==> x.Value() == x.lo)
  {}

  lemma Lower(n: int, d: int, q: int)
    requires 0 <= n < d * q && 0 <= q && 0 < d
    ensures q > 0 && d * (q - 1) == d * q - d && d <= d * q
  {
    if q > 0 {
      MulMono(1, q, d);
    }
  }

  lemma Raise(n: int, d: int, q: int)
    requires 0 < d && n / d < W64 && n - d * q >= d && 0 <= q
    ensures q + 1 < 0x1_0000_0000_0000_0000 && d * (q + 1) == d * q + d
  {
    DivModFact(n, d);
    assert (q + 1) * d == d * q + d && (n / d + 1) * d == n / d * d + d;
    MulCancelLt(q + 1, n / d + 1, d);
  }

  lemma Reached(n: int, d: int, q: int)
    requires 0 < d && d * q <= n < d * q + d
    ensures q == n / d
  {
    assert n == q * d + (n - d * q);
    DivModUnique(n, d, q, n - d * q);
  }
}
