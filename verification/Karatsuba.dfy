/** The product of limb vectors of any lengths: schoolbook, unbalanced and Karatsuba branches. */
module Karatsuba {
  import opened Numerals
  import opened Limbs

  const KARATSUBA_LIMBS: int := 48

  /** `out[..n] += src * B^at`, when the total fits. */
  method AddShifted(out: array<Limb>, n: nat, at: nat, src: seq<Limb>)
    requires at + |src| <= n <= out.Length
    requires Val(out[..n]) + Pow(BASE, at) * Val(src) < Pow(BASE, n)
    modifies out
    ensures Val(out[..n]) == old(Val(out[..n])) + Pow(BASE, at) * Val(src)
    ensures forall k :: n <= k < out.Length ==> out[k] == old(out[k])
  {
    hide Le, Pow;
    ghost var o0 := out[..n];
    LeSplit(o0, at, BASE);
    assert o0[at..] == out[at..n];
    ShiftedFits(o0, at, Val(src));
    AddInto(out, at, n, src);
    LeSplit(out[..n], at, BASE);
    assert out[..n][at..] == out[at..n] && out[..n][..at] == o0[..at];
    assert Pow(BASE, at) * (Val(o0[at..]) + Val(src)) == Pow(BASE, at) * Val(o0[at..]) + Pow(BASE, at) * Val(src);
  }

  lemma ShiftedFits(o: seq<Limb>, at: nat, v: int)
    requires at <= |o| && Val(o) + Pow(BASE, at) * v < Pow(BASE, |o|)
    ensures Val(o[at..]) + v < Pow(BASE, |o| - at)
  {
    hide Le, Pow;
    LeSplit(o, at, BASE);
    ValBound(o[..at]);
    PowAdd(BASE, at, |o| - at);
    PowPos(BASE, at);
    var p := Pow(BASE, at);
    assert p * (Val(o[at..]) + v) == p * Val(o[at..]) + p * v;
    MulCancelLt(Val(o[at..]) + v, Pow(BASE, |o| - at), p);
  }

  lemma ClearedIsZero(out: array<Limb>, n: nat)
    requires n <= out.Length && forall k :: 0 <= k < n ==> out[k] == 0
    ensures Val(out[..n]) == 0
  {
    LeZeros(out[..n], BASE);
  }

  /** The product `a * b` in `|a| + |b|` limbs, possibly with high zeros. */
  method Mul(a: seq<Limb>, b: seq<Limb>) returns (out: array<Limb>)
    ensures fresh(out) && out.Length == |a| + |b|
    ensures Val(out[..]) == Val(a) * Val(b)
    decreases |a| + |b|, 3
  {
    out := new Limb[|a| + |b|](_ => 0);
    if |a| == 0 || |b| == 0 {
      LeZeros(out[..], BASE);
      return;
    }
    MulTo(a, b, out);
    assert out[..|a| + |b|] == out[..];
  }

  /** Writes `a * b` over `out[..|a| + |b|]`. */
  method MulTo(a: seq<Limb>, b: seq<Limb>, out: array<Limb>)
    requires |a| + |b| <= out.Length
    modifies out
    ensures Val(out[..|a| + |b|]) == Val(a) * Val(b)
    ensures forall k :: |a| + |b| <= k < out.Length ==> out[k] == old(out[k])
    decreases |a| + |b|, 2
  {
    var a', b' := a, b;
    if !(|a| >= |b|) {
      a', b' := b, a;
    }
    if |b'| < KARATSUBA_LIMBS {
      MulSchool(a', b', out);
    } else if |a'| >= 2 * |b'| {
      MulUnbalanced(a', b', out);
    } else {
      MulKaratsuba(a', b', out);
    }
  }

  method Clear(out: array<Limb>, n: nat)
    requires n <= out.Length
    modifies out
    ensures Val(out[..n]) == 0 && forall k :: n <= k < out.Length ==> out[k] == old(out[k])
  {
    for k := 0 to n
      invariant forall l :: 0 <= l < k ==> out[l] == 0
      invariant forall k :: n <= k < out.Length ==> out[k] == old(out[k])
    {
      out[k] := 0;
    }
    ClearedIsZero(out, n);
  }

  /** Multiplies `b` by slices of `a` of `b`'s length. */
  method MulUnbalanced(a: seq<Limb>, b: seq<Limb>, out: array<Limb>)
    requires |a| >= 2 * |b| && |b| >= KARATSUBA_LIMBS && |a| + |b| <= out.Length
    modifies out
    ensures Val(out[..|a| + |b|]) == Val(a) * Val(b)
    ensures forall k :: |a| + |b| <= k < out.Length ==> out[k] == old(out[k])
    decreases |a| + |b|, 0
  {
    var n := |a| + |b|;
    Clear(out, n);
    var tmp := new Limb[2 * |b|](_ => 0);
    var i := 0;
    while i < |a|
      invariant i <= |a|
      invariant Val(out[..n]) == Val(a[..i]) * Val(b)
      invariant forall k :: n <= k < out.Length ==> out[k] == old(out[k])
    {
      var end := if i + |b| <= |a| then i + |b| else |a|;
      var part := a[i..end];
      MulTo(part, b, tmp);
      SlicePart(a, i, end, b);
      ProductFits(a[..end], b, n);
      AddShifted(out, n, i, tmp[..|part| + |b|]);
      i := end;
    }
    assert a[..i] == a;
  }

  lemma SlicePart(a: seq<Limb>, i: nat, end: nat, b: seq<Limb>)
    requires i <= end <= |a|
    ensures Val(a[..end]) * Val(b) == Val(a[..i]) * Val(b) + Pow(BASE, i) * (Val(a[i..end]) * Val(b))
  {
    hide Le, Pow;
    LeSplit(a[..end], i, BASE);
    assert a[..end][..i] == a[..i] && a[..end][i..] == a[i..end];
    Distribute(Val(a[..i]), Pow(BASE, i), Val(a[i..end]), Val(b));
  }

  /** With a = a1*B^m + a0 and b = b1*B^m + b0: three half-size products. */
  method MulKaratsuba(a: seq<Limb>, b: seq<Limb>, out: array<Limb>)
    requires |b| <= |a| < 2 * |b| && |b| >= KARATSUBA_LIMBS && |a| + |b| <= out.Length
    modifies out
    ensures Val(out[..|a| + |b|]) == Val(a) * Val(b)
    ensures forall k :: |a| + |b| <= k < out.Length ==> out[k] == old(out[k])
    decreases |a| + |b|, 1
  {
    hide Le, Pow;
    var n, m := |a| + |b|, |a| / 2;
    var a0, a1 := a[..m], a[m..];
    var b0, b1 := b[..m], b[m..];
    Clear(out, n);
    var z0 := Mul(a0, b0);
    var z2 := Mul(a1, b1);
    var z1 := MiddleProduct(a, b, m, z0[..], z2[..]);
    PiecesFit(a, b, m, z0[..], z1[..], z2[..], n);
    AddShifted(out, n, 0, Trim(z0[..]));
    AddShifted(out, n, m, Trim(z1[..]));
    AddShifted(out, n, 2 * m, Trim(z2[..]));
  }

  /** `(a0 + a1) * (b0 + b1)` less the two outer products. */
  method MiddleProduct(a: seq<Limb>, b: seq<Limb>, m: nat, z0: seq<Limb>, z2: seq<Limb>) returns (z1: array<Limb>)
    requires 2 <= m && |a| / 2 == m < |b| <= |a|
    requires |z0| == 2 * m && |z2| == |a| + |b| - 2 * m
    requires Val(z0) == Val(a[..m]) * Val(b[..m]) && Val(z2) == Val(a[m..]) * Val(b[m..])
    ensures fresh(z1)
    ensures Val(z1[..]) == Val(a[..m]) * Val(b[m..]) + Val(a[m..]) * Val(b[..m])
    decreases |a| + |b|, 0
  {
    hide Le, Pow;
    var sa := Add(a[..m], a[m..]);
    var sb := Add(b[..m], b[m..]);
    z1 := Mul(sa[..], sb[..]);
    Middle(a, b, m);
    SubInto(z1, z0);
    SubInto(z1, z2);
  }

  /** The middle product dominates the two outer ones, and what is left is the cross terms. */
  lemma Middle(a: seq<Limb>, b: seq<Limb>, m: nat)
    requires m <= |a| && m <= |b|
    ensures var (x0, x1, y0, y1) := (Val(a[..m]), Val(a[m..]), Val(b[..m]), Val(b[m..]));
      && 0 <= x0 * y0 && 0 <= x1 * y1
      && (x0 + x1) * (y0 + y1) - x0 * y0 - x1 * y1 == x0 * y1 + x1 * y0 >= 0
  {
    hide Le, Pow;
    ValBound(a[..m]);
    ValBound(a[m..]);
    ValBound(b[..m]);
    ValBound(b[m..]);
    var (x0, x1, y0, y1) := (Val(a[..m]), Val(a[m..]), Val(b[..m]), Val(b[m..]));
    MulNonneg(x0, y0);
    MulNonneg(x1, y1);
    MulNonneg(x0, y1);
    MulNonneg(x1, y0);
    assert (x0 + x1) * (y0 + y1) == x0 * y0 + x0 * y1 + x1 * y0 + x1 * y1;
  }

  lemma PiecesFit(a: seq<Limb>, b: seq<Limb>, m: nat, z0: seq<Limb>, z1: seq<Limb>, z2: seq<Limb>, n: nat)
    requires m <= |a| && m <= |b| && n == |a| + |b|
    requires Val(z0) == Val(a[..m]) * Val(b[..m])
    requires Val(z2) == Val(a[m..]) * Val(b[m..])
    requires Val(z1) == Val(a[..m]) * Val(b[m..]) + Val(a[m..]) * Val(b[..m])
    ensures Val(z0) + Pow(BASE, m) * Val(z1) + Pow(BASE, 2 * m) * Val(z2) == Val(a) * Val(b) < Pow(BASE, n)
    ensures 0 <= Pow(BASE, 0) * Val(z0) && 0 <= Pow(BASE, m) * Val(z1) && 0 <= Pow(BASE, 2 * m) * Val(z2)
      && Pow(BASE, 0) == 1
    ensures |Trim(z0)| <= n && m + |Trim(z1)| <= n && 2 * m + |Trim(z2)| <= n
  {
    hide Le, Pow;
    PowStep(BASE, 0);
    LeSplit(a, m, BASE);
    LeSplit(b, m, BASE);
    PowAdd(BASE, m, m);
    var p := Pow(BASE, m);
    Cross(Val(a[..m]), Val(a[m..]), Val(b[..m]), Val(b[m..]), p);
    ProductFits(a, b, n);
    assert p * p == Pow(BASE, 2 * m);
    PieceBound(z0, 0);
    PieceBound(z1, m);
    PieceBound(z2, 2 * m);
    PieceLength(z0, 0, n);
    PieceLength(z1, m, n);
    PieceLength(z2, 2 * m, n);
  }

  lemma Cross(x0: int, x1: int, y0: int, y1: int, p: int)
    ensures (x0 + p * x1) * (y0 + p * y1) == x0 * y0 + p * (x0 * y1 + x1 * y0) + p * p * (x1 * y1)
  {
    assert (x0 + p * x1) * (y0 + p * y1) == x0 * y0 + x0 * (p * y1) + (p * x1) * y0 + (p * x1) * (p * y1);
    assert x0 * (p * y1) == p * (x0 * y1);
    assert (p * x1) * y0 == p * (x1 * y0);
    assert (p * x1) * (p * y1) == p * p * (x1 * y1);
    assert p * (x0 * y1 + x1 * y0) == p * (x0 * y1) + p * (x1 * y0);
  }

  lemma PieceBound(z: seq<Limb>, at: nat)
    ensures 0 <= Pow(BASE, at) * Val(z)
  {
    ValBound(z);
    PowPos(BASE, at);
    MulNonneg(Pow(BASE, at), Val(z));
  }

  lemma Unshift(p: int, x: int, q: int)
    requires 0 < p && p * x < p * q
    ensures x < q
  {
    MulCancelLt(x, q, p);
  }

  lemma PieceLength(z: seq<Limb>, at: nat, n: nat)
    requires at <= n && Pow(BASE, at) * Val(z) < Pow(BASE, n)
    ensures at + |Trim(z)| <= n
  {
    hide Le, Pow;
    PowAdd(BASE, at, n - at);
    PowPos(BASE, at);
    Unshift(Pow(BASE, at), Val(z), Pow(BASE, n - at));
    TrimmedLength(Trim(z), n - at);
  }
}
