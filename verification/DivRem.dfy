/** Quotient and remainder of limb vectors: normalization around algorithm D. */
module DivRem {
  import opened Numerals
  import opened Limbs
  import opened Words
  import opened Knuth
  import Floats

  /** `floor(BASE / top1)`, from a floating-point estimate repaired by at most one. */
  method NormalizationFactor(top1: u64) returns (f: Limb)
    requires 2 <= top1 <= BASE
    ensures f == BASE / top1 && f >= 1
  {
    var g := Floats.EstimateQuotient(BASE, top1);
    DivModFact(BASE, top1);
    var q := BASE / top1;
    assert (q - 1) * top1 == q * top1 - top1 && (q + 1) * top1 == q * top1 + top1;
    assert (q + 2) * top1 == q * top1 + 2 * top1;
    if g * top1 > BASE {
      g := g - 1;
    } else if (g + 1) * top1 <= BASE {
      g := g + 1;
    }
    QuotientPositive(BASE, top1);
    MulMono(2, top1, q);
    f := g;
  }

  /** Scaling by `floor(BASE / (top + 1))` cannot overflow and makes the top limb at least `BASE / 2`. */
  lemma ScaledDivisor(d: seq<Limb>, f: int)
    requires |d| > 0 && d[|d| - 1] > 0 && f == BASE / (d[|d| - 1] as int + 1)
    ensures Val(d) * f < Pow(BASE, |d|)
    ensures Pow(BASE, |d| - 1) * (BASE / 2) <= Val(d) * f
  {
    var k := |d| - 1;
    var top: int := d[k];
    assert d[k..] == [top] && Le([top], BASE) == top;
    TopBounds(d, k, top);
    PowPos(BASE, k);
    DivModFact(BASE, top + 1);
    HalfBase(top, f);
    Scaled(Val(d), Pow(BASE, k), top, f);
  }

  lemma HalfBase(top: int, f: int)
    requires 1 <= top < BASE && f == BASE / (top + 1)
    ensures f * (top + 1) <= BASE && top * f >= BASE / 2
  {
    var r := BASE % (top + 1);
    DivModFact(BASE, top + 1);
    assert f * (top + 1) == f * top + f;
    if f >= 2 && top >= 2 {
      MulMono(2, f, top - 1);
      assert f * (top - 1) == f * top - f;
    } else if top == 1 {
      assert f * 2 + r == BASE && f * top == f;
    } else {
      QuotientPositive(BASE, top + 1);
      assert f == 1;
    }
  }

  lemma Scaled(v: int, p: int, top: int, f: int)
    requires 0 < p && p * top <= v < p * (top + 1) && 0 < f && f * (top + 1) <= BASE && top * f >= BASE / 2
    ensures v * f < BASE * p && p * (BASE / 2) <= v * f
  {
    MulStrict(v, p * (top + 1), f);
    Regrouped(p, top + 1, f);
    MulMono(f * (top + 1), BASE, p);
    MulMono(p * top, v, f);
    Regrouped(p, top, f);
    MulMono(BASE / 2, top * f, p);
  }

  lemma Regrouped(p: int, x: int, f: int)
    ensures p * x * f == p * (f * x) && f * x == x * f
  {
    assert p * x * f == p * (x * f);
  }

  lemma TopFromValue(v: seq<Limb>, half: int)
    requires |v| > 0 && Pow(BASE, |v| - 1) * half <= Val(v)
    ensures v[|v| - 1] >= half
  {
    var k := |v| - 1;
    assert v[k..] == [v[k]] && Le([v[k]], BASE) == v[k];
    TopBounds(v, k, v[k]);
    PowPos(BASE, k);
    TopAtLeast(Pow(BASE, k), half, v[k], Val(v));
  }

  lemma TopAtLeast(p: int, half: int, x: int, v: int)
    requires 0 < p && p * half <= v < p * (x + 1)
    ensures half <= x
  {
    MulCancelLt(half, x + 1, p);
  }

  /** The top limbs of the scaled dividend stay below the scaled divisor. */
  lemma ScaledDividend(n: seq<Limb>, d: seq<Limb>, u: seq<Limb>, f: int, m: nat)
    requires |n| == m - 1 + |d| && |u| == |n| + 1 && |d| > 0 && d[|d| - 1] > 0 && 0 < f && m > 0
    requires Val(u) == Val(n) * f
    ensures Val(u[m..]) < Val(d) * f
  {
    var k := |d| - 1;
    ValBound(n);
    PowAdd(BASE, m, k);
    TopBounds(u, m, Val(u[m..]));
    assert d[k..] == [d[k]] && Le([d[k]], BASE) == d[k];
    TopBounds(d, k, d[k]);
    PowPos(BASE, k);
    PowPos(BASE, m);
    Chain(Val(u[m..]), Val(n), f, Pow(BASE, m), Pow(BASE, k), d[k], Val(d));
  }

  lemma Chain(x: int, n: int, f: int, pm: int, pk: int, top: int, d: int)
    requires pm * x <= n * f && 0 <= n < pm * pk && 0 < f && 0 < pm && 0 < pk && 1 <= top && pk * top <= d
    ensures x < d * f
  {
    MulStrict(n, pm * pk, f);
    assert pm * pk * f == (pk * f) * pm;
    MulCancelLt(x, pk * f, pm);
    MulMono(1, top, pk);
    MulMono(pk, d, f);
  }

  method CopyInto(dst: array<Limb>, src: seq<Limb>)
    requires |src| <= dst.Length
    modifies dst
    ensures dst[..|src|] == src && dst[|src|..] == old(dst[|src|..])
  {
    for k := 0 to |src|
      invariant dst[..k] == src[..k] && dst[|src|..] == old(dst[|src|..])
    {
      dst[k] := src[k];
    }
  }

  /**
   * `n / d` with caller storage: `q` receives the quotient and `r` the remainder, unless `r` is
   * empty; `u` and `v` are scratch.
   */
  method DivRemSlices(n: seq<Limb>, d: seq<Limb>, u: array<Limb>, v: array<Limb>, q: array<Limb>, r: array<Limb>)
    requires 0 < |d| <= |n| && d[|d| - 1] != 0
    requires u.Length == |n| + 1 && v.Length == |d| && q.Length == |n| - |d| + 1
    requires r.Length == |d| || r.Length == 0
    requires u != v && u != q && u != r && v != q && v != r && q != r
    modifies u, v, q, r
    ensures 0 < Val(d) && Val(q[..]) == Val(n) / Val(d)
    ensures r.Length == |d| ==> Val(r[..]) == Val(n) % Val(d)
  {
    if |d| == 1 {
      CopyInto(q, n);
      assert q[..|n|] == n;
      var rem := DivSmallInPlace(q, |n|, d[0]);
      assert q[..|n|] == q[..];
      assert Val(d) == d[0] by { assert d == [d[0]] && Le([d[0]], BASE) == d[0]; }
      DivModUnique(Val(n), d[0], Val(q[..]), rem);
      if r.Length > 0 {
        r[0] := rem;
        assert r[..] == [rem] && Le([rem], BASE) == rem;
      }
      return;
    }
    var f := NormalizationFactor(d[|d| - 1] as int + 1);
    ScaledDivisor(d, f);
    Prepare(n, d, u, v, f);
    TopFromValue(v[..], BASE / 2);
    ScaledDividend(n, d, u[..], f, q.Length);
    Divide(u, v[..], q);
    Unscale(Val(n), Val(d), f, Val(q[..]), Val(u[..|d|]));
    if r.Length != 0 {
      CopyInto(r, u[..|d|]);
      assert r[..|d|] == r[..];
      if f > 1 {
        var rem := DivSmallInPlace(r, |d|, f);
        assert r[..|d|] == r[..];
        DivModUnique(Val(u[..|d|]), f, Val(n) % Val(d), 0);
        DivModUnique(Val(u[..|d|]), f, Val(r[..]), rem);
      }
    }
  }

  /** Both operands scaled by `f` into the scratch vectors; the carry out of `v` is zero. */
  method Prepare(n: seq<Limb>, d: seq<Limb>, u: array<Limb>, v: array<Limb>, f: Limb)
    requires u.Length == |n| + 1 && v.Length == |d| && u != v && f >= 1
    requires Val(d) * f < Pow(BASE, |d|)
    modifies u, v
    ensures Val(v[..]) == Val(d) * f && Val(u[..]) == Val(n) * f
  {
    CopyInto(v, d);
    CopyInto(u, n);
    u[|n|] := 0;
    assert v[..|d|] == v[..] == d && u[..|n|] == n;
    if f > 1 {
      var c := MulSmallSlice(v, |d|, f);
      ValBound(v[..]);
      assert v[..|d|] == v[..];
      if c > 0 {
        MulMono(1, c, Pow(BASE, |d|));
      }
      assert u[..|n|] == n;
      c := MulSmallSlice(u, |n|, f);
      u[|n|] := c;
    }
    assert u[..] == u[..|n|] + [u[|n|]];
    WindowValue(u[..|n|], u[|n|]);
  }

  /** Scaling both operands leaves the quotient alone and scales the remainder. */
  lemma Unscale(n: int, d: int, f: int, q: int, r: int)
    requires n * f == q * (d * f) + r && 0 <= r < d * f && 0 < f
    ensures 0 < d && n / d == q && n % d * f == r
  {
    MulCancelLt(0, d, f);
    var s := n - q * d;
    assert (n - q * d) * f == n * f - q * (d * f);
    MulCancelLt(s, d, f);
    MulCancelLe(0, s, f);
    DivModUnique(n, d, q, s);
  }

  /** Quotient and remainder of `n / d` for a non-zero `d`, either operand with high zeros or not. */
  method DivRem(n: seq<Limb>, d: seq<Limb>) returns (q: seq<Limb>, r: seq<Limb>)
    requires Val(d) != 0
    ensures Val(d) > 0 && Val(q) == Val(n) / Val(d) && Val(r) == Val(n) % Val(d)
  {
    hide Le, Pow;
    var d', n' := Trim(d), Trim(n);
    ValBound(d);
    ValBound(n);
    if |n'| < |d'| {
      ShorterIsLess(n', d');
      DivModUnique(Val(n'), Val(d'), 0, Val(n'));
      LeNil(BASE);
      return [], n';
    }
    if |d'| == 0 {
      LeNil(BASE);
    }
    var u := new Limb[|n'| + 1](_ => 0);
    var v := new Limb[|d'|](_ => 0);
    var qa := new Limb[|n'| - |d'| + 1](_ => 0);
    var ra := new Limb[|d'|](_ => 0);
    DivRemSlices(n', d', u, v, qa, ra);
    q, r := qa[..], ra[..];
  }

  lemma ShorterIsLess(n: seq<Limb>, d: seq<Limb>)
    requires |n| < |d| && d[|d| - 1] != 0
    ensures 0 <= Val(n) < Val(d)
  {
    ValBound(n);
    ValBound(d);
    PowMono(BASE, |n|, |d| - 1);
    if Val(d) < Pow(BASE, |d| - 1) {
      TrimmedLength(d, |d| - 1);
    }
  }
}
