/**
 * Natural numbers as little-endian base-10^8 limbs: the linear-time kernel and the
 * schoolbook product with deferred carries.  A mutable slice is an array with bounds
 * `from..to`; a read-only slice is a `seq`.
 */
module Limbs {
  import opened Numerals
  import opened Words

  const BASE: int := 100_000_000

  type Limb = x: int | 0 <= x < BASE
  type u32 = x: int | 0 <= x < 0x1_0000_0000

  function Val(s: seq<int>): int { Le(s, BASE) }

  lemma ValBound(s: seq<Limb>)
    ensures 0 <= Val(s) < Pow(BASE, |s|)
  {
    LeBound(s, BASE);
  }

  lemma LeUpdate(s: seq<int>, k: nat, d: int, b: int)
    requires k < |s|
    ensures Le(s[k := s[k] + d], b) == Le(s, b) + Pow(b, k) * d
  {
    hide Le, Pow;
    var t := s[k := s[k] + d];
    LeSplit(s, k, b);
    LeSplit(t, k, b);
    assert t[..k] == s[..k];
    assert t[k..] == [s[k] + d] + s[k + 1..] && s[k..] == [s[k]] + s[k + 1..];
    LeCons(s[k] + d, s[k + 1..], b);
    LeCons(s[k], s[k + 1..], b);
    assert Pow(b, k) * (Le(s[k..], b) + d) == Pow(b, k) * Le(s[k..], b) + Pow(b, k) * d;
  }

  // ----- products with deferred carries

  const ROWS_PER_CARRY: int := 1800

  /** The largest entry after `rows` rows have been added to a carried one. */
  function RowLimit(rows: int): int {
    rows * ((BASE - 1) * (BASE - 1)) + (BASE - 1)
  }

  /** Propagates carries; nothing is left over and every entry becomes a limb. */
  method CarryU64(acc: array<u64>)
    requires forall k :: 0 <= k < acc.Length ==> acc[k] <= RowLimit(ROWS_PER_CARRY)
    requires Val(acc[..]) < Pow(BASE, acc.Length)
    modifies acc
    ensures Val(acc[..]) == old(Val(acc[..]))
    ensures InRange(acc[..], 0, BASE)
  {
    hide Le, Pow;
    LeNil(BASE);
    ghost var a0: seq<int> := acc[..];
    var carry: u64 := 0;
    assert acc[..0] == [];
    for i := 0 to acc.Length
      invariant forall k :: i <= k < acc.Length ==> acc[k] == a0[k]
      invariant InRange(acc[..i], 0, BASE)
      invariant carry <= 1_000_000_000_000
      invariant Val(acc[..i]) + Pow(BASE, i) * carry == Val(a0[..i])
    {
      var t: u64 := acc[i] + carry;
      acc[i] := t % BASE;
      LeSnoc(a0[..i], a0[i], BASE);
      LeSnoc(acc[..i], t % BASE, BASE);
      assert a0[..i + 1] == a0[..i] + [a0[i]] && acc[..i + 1] == acc[..i] + [acc[i]];
      PowStep(BASE, i);
      CarryStep(Pow(BASE, i), a0[i], carry);
      carry := t / BASE;
    }
    assert acc[..acc.Length] == acc[..] && a0[..acc.Length] == a0;
    LeBound(acc[..], BASE);
    if carry > 0 {
      MulMono(1, carry, Pow(BASE, acc.Length));
    }
  }

  lemma CarryStep(p: int, x: int, carry: int)
    ensures p * ((x + carry) % BASE) + BASE * p * ((x + carry) / BASE) == p * x + p * carry
  {
    var t := x + carry;
    assert t == BASE * (t / BASE) + t % BASE;
    assert p * t == p * (BASE * (t / BASE)) + p * (t % BASE);
    assert p * (BASE * (t / BASE)) == BASE * p * (t / BASE);
    assert p * t == p * x + p * carry;
  }

  /** Adds the row `x * b` to `acc` at `i`, without propagating carries. */
  method AddRow(acc: array<u64>, i: nat, x: Limb, b: seq<Limb>, ghost rows: nat)
    requires i + |b| <= acc.Length && rows < ROWS_PER_CARRY
    requires forall k :: 0 <= k < acc.Length ==> acc[k] <= RowLimit(rows)
    modifies acc
    ensures forall k :: 0 <= k < acc.Length ==> acc[k] <= RowLimit(rows + 1)
    ensures Val(acc[..]) == old(Val(acc[..])) + Pow(BASE, i) * (x * Val(b))
  {
    hide Le, Pow;
    LeNil(BASE);
    ghost var v0 := Val(acc[..]);
    assert b[..0] == [];
    for k := 0 to |b|
      invariant forall l :: i + k <= l < acc.Length ==> acc[l] <= RowLimit(rows)
      invariant forall l :: 0 <= l < i + k ==> acc[l] <= RowLimit(rows + 1)
      invariant Val(acc[..]) == v0 + Pow(BASE, i) * (x * Val(b[..k]))
    {
      MulMono(x, BASE - 1, b[k]);
      MulMono(b[k], BASE - 1, BASE - 1);
      MulNonneg(x, b[k]);
      RowEntry(acc[..], i, x, b, k, v0);
      ghost var a1 := acc[..];
      acc[i + k] := acc[i + k] + x * b[k];
      assert acc[..] == a1[i + k := a1[i + k] + x * b[k]];
    }
    assert b[..|b|] == b;
  }

  lemma RowEntry(a: seq<int>, i: nat, x: int, b: seq<Limb>, k: nat, v0: int)
    requires i + k < |a| && k < |b| && Val(a) == v0 + Pow(BASE, i) * (x * Val(b[..k]))
    ensures Val(a[i + k := a[i + k] + x * b[k]]) == v0 + Pow(BASE, i) * (x * Val(b[..k + 1]))
  {
    hide Le, Pow;
    LeUpdate(a, i + k, x * b[k], BASE);
    LeSnoc(b[..k], b[k], BASE);
    assert b[..k + 1] == b[..k] + [b[k]];
    PowAdd(BASE, i, k);
    RowStep(Pow(BASE, i), Pow(BASE, k), x, Val(b[..k]), b[k]);
  }

  lemma RowStep(pi: int, pk: int, x: int, v: int, y: int)
    ensures pi * (x * v) + pi * pk * (x * y) == pi * (x * (v + pk * y))
  {
    assert x * (v + pk * y) == x * v + pk * (x * y);
    assert pi * (x * v + pk * (x * y)) == pi * (x * v) + pi * (pk * (x * y));
    assert pi * (pk * (x * y)) == pi * pk * (x * y);
  }

  lemma RowAdded(a: seq<Limb>, i: nat, b: seq<Limb>)
    requires i < |a|
    ensures Val(a[..i + 1]) * Val(b) == Val(a[..i]) * Val(b) + Pow(BASE, i) * (a[i] * Val(b))
  {
    LeSnoc(a[..i], a[i], BASE);
    assert a[..i + 1] == a[..i] + [a[i]];
    Distribute(Val(a[..i]), Pow(BASE, i), a[i], Val(b));
  }

  /** Schoolbook product: `a` supplies the rows; `acc` starts zeroed. */
  method MulSchoolAcc(a: seq<Limb>, b: seq<Limb>, acc: array<u64>, out: array<Limb>)
    requires acc.Length == |a| + |b| <= out.Length
    requires forall k :: 0 <= k < acc.Length ==> acc[k] == 0
    modifies acc, out
    ensures Val(out[..|a| + |b|]) == Val(a) * Val(b)
    ensures forall k :: |a| + |b| <= k < out.Length ==> out[k] == old(out[k])
  {
    hide Le, Pow;
    LeNil(BASE);
    var n := |a| + |b|;
    var rows := 0;
    LeZeros(acc[..], BASE);
    assert a[..0] == [];
    for i := 0 to |a|
      invariant 0 <= rows < ROWS_PER_CARRY
      invariant forall k :: 0 <= k < n ==> acc[k] <= RowLimit(rows)
      invariant Val(acc[..]) == Val(a[..i]) * Val(b)
      invariant out[..] == old(out[..])
    {
      var x := a[i];
      AddRow(acc, i, x, b, rows);
      RowAdded(a, i, b);
      rows := rows + 1;
      if rows == ROWS_PER_CARRY {
        ProductFits(a[..i + 1], b, n);
        CarryU64(acc);
        rows := 0;
      }
    }
    assert a[..|a|] == a;
    ProductFits(a, b, n);
    CarryU64(acc);
    for k := 0 to n
      invariant out[..k] == acc[..k]
      invariant forall l :: n <= l < out.Length ==> out[l] == old(out[l])
      invariant InRange(acc[..], 0, BASE) && Val(acc[..]) == Val(a) * Val(b)
    {
      assert acc[k] == acc[..][k];
      out[k] := acc[k];
    }
    assert out[..n] == acc[..n] == acc[..];
  }

  lemma ProductFits(a: seq<Limb>, b: seq<Limb>, n: nat)
    requires |a| + |b| <= n
    ensures 0 <= Val(a) * Val(b) < Pow(BASE, n)
  {
    ValBound(a);
    ValBound(b);
    MulNonneg(Val(a), Val(b));
    MulMono(Val(a), Pow(BASE, |a|), Val(b));
    MulStrict(Val(b), Pow(BASE, |b|), Pow(BASE, |a|));
    PowAdd(BASE, |a|, |b|);
    PowMono(BASE, |a| + |b|, n);
  }

  /** The shorter operand supplies the rows; the accumulator sizes 8, 32 and n differ only in where they live. */
  method MulSchool(a: seq<Limb>, b: seq<Limb>, out: array<Limb>)
    requires |a| + |b| <= out.Length
    modifies out
    ensures Val(out[..|a| + |b|]) == Val(a) * Val(b)
    ensures forall k :: |a| + |b| <= k < out.Length ==> out[k] == old(out[k])
  {
    var a', b' := a, b;
    if !(|a| < |b|) {
      a', b' := b, a;
    }
    var acc := new u64[|a| + |b|](_ => 0);
    MulSchoolAcc(a', b', acc, out);
  }

  /** The unrolled product of two four-limb numbers. */
  method Mul4(x: seq<Limb>, y: seq<Limb>, out: array<Limb>)
    requires |x| == |y| == 4 && out.Length == 8
    modifies out
    ensures Val(out[..]) == Val(x) * Val(y)
  {
    hide Le, Pow;
    LeNil(BASE);
    var acc := new u64[8](_ => 0);
    LeZeros(acc[..], BASE);
    assert x[..0] == [] && out[..0] == [] && acc[..0] == [];
    for i := 0 to 4
      invariant forall k :: 0 <= k < 8 ==> acc[k] <= RowLimit(i)
      invariant Val(acc[..]) == Val(x[..i]) * Val(y)
    {
      AddRow(acc, i, x[i], y, i);
      RowAdded(x, i, y);
    }
    assert x[..4] == x;
    var carry: u64 := 0;
    for k := 0 to 8
      invariant carry <= 1_000_000_000_000
      invariant forall l :: 0 <= l < 8 ==> acc[l] <= RowLimit(4)
      invariant Val(acc[..]) == Val(x) * Val(y)
      invariant Val(out[..k]) + Pow(BASE, k) * carry == Val(acc[..k])
    {
      var t: u64 := acc[k] + carry;
      LeSnoc(acc[..k], acc[k], BASE);
      PowStep(BASE, k);
      CarryStep(Pow(BASE, k), acc[k], carry);
      assert acc[..k + 1] == acc[..k] + [acc[k]];
      carry := t / BASE;
      LeSnoc(out[..k], t - carry * BASE, BASE);
      out[k] := t - carry * BASE;
      assert out[..k + 1] == out[..k] + [out[k]];
    }
    assert out[..8] == out[..] && acc[..8] == acc[..];
    ProductFits(x, y, 8);
    LeBound(out[..], BASE);
    if carry > 0 {
      MulMono(1, carry, Pow(BASE, 8));
    }
  }

  // ----- addition, subtraction and single-limb steps in place

  /** One column of an addition `zs = xs + sum`, carries included; read backwards, of a subtraction. */
  lemma ColumnStep(xs: seq<int>, x: int, zs: seq<int>, z: int, sum: int, y: int, c: int, c': int)
    requires |xs| == |zs| && Val(zs) + Pow(BASE, |xs|) * c == Val(xs) + sum
    requires x + y + c == z + BASE * c'
    ensures Val(zs + [z]) + Pow(BASE, |xs| + 1) * c' == Val(xs + [x]) + (sum + Pow(BASE, |xs|) * y)
  {
    hide Le, Pow;
    LeSnoc(xs, x, BASE);
    LeSnoc(zs, z, BASE);
    PowStep(BASE, |xs|);
    var p := Pow(BASE, |xs|);
    assert p * (x + y + c) == p * x + p * y + p * c;
    assert p * (z + BASE * c') == p * z + BASE * p * c';
  }

  /** `dst[from..to] += src`; the slice absorbs the carry. */
  method AddInto(dst: array<Limb>, from: nat, to: nat, src: seq<Limb>)
    requires from + |src| <= to <= dst.Length
    requires Val(dst[from..to]) + Val(src) < Pow(BASE, to - from)
    modifies dst
    ensures Val(dst[from..to]) == old(Val(dst[from..to])) + Val(src)
    ensures forall k :: 0 <= k < dst.Length && !(from <= k < to) ==> dst[k] == old(dst[k])
  {
    hide Le, Pow;
    ghost var d0 := dst[..];
    var carry := AddColumns(dst, from, src);
    ghost var mid, c := dst[..], carry;
    carry := PropagateCarry(dst, from + |src|, to, carry);
    assert d0[from..to] == old(dst[from..to]);
    AbsorbCarry(d0, mid, dst[..], from, from + |src|, to, c, carry, Val(src));
    assert dst[..][from..to] == dst[from..to];
  }

  /** The loop over `src`: the low columns, with the carry out of them. */
  method AddColumns(dst: array<Limb>, from: nat, src: seq<Limb>) returns (carry: int)
    requires from + |src| <= dst.Length
    modifies dst
    ensures 0 <= carry <= 1
    ensures Val(dst[from..from + |src|]) + Pow(BASE, |src|) * carry == old(Val(dst[from..from + |src|])) + Val(src)
    ensures forall k :: 0 <= k < dst.Length && !(from <= k < from + |src|) ==> dst[k] == old(dst[k])
  {
    hide Le, Pow;
    LeNil(BASE);
    ghost var d0 := dst[..];
    carry := 0;
    assert dst[from..from] == [] && src[..0] == [];
    for i := 0 to |src|
      invariant 0 <= carry <= 1
      invariant forall k :: 0 <= k < dst.Length && !(from <= k < from + i) ==> dst[k] == d0[k]
      invariant Val(dst[from..from + i]) + Pow(BASE, i) * carry == Val(d0[from..from + i]) + Val(src[..i])
    {
      var t: u32 := dst[from + i] + src[i] + carry;
      ghost var low, c0 := dst[from..from + i], carry;
      if t >= BASE {
        dst[from + i] := t - BASE;
        carry := 1;
      } else {
        dst[from + i] := t;
        carry := 0;
      }
      ColumnStep(d0[from..from + i], d0[from + i], low, dst[from + i], Val(src[..i]), src[i], c0, carry);
      LeSnoc(src[..i], src[i], BASE);
      assert dst[from..from + i + 1] == low + [dst[from + i]];
      assert d0[from..from + i + 1] == d0[from..from + i] + [d0[from + i]];
      assert src[..i + 1] == src[..i] + [src[i]];
    }
    assert src[..|src|] == src;
    assert d0[from..from + |src|] == old(dst[from..from + |src|]);
  }

  /** The loop above `src`: a carry runs up until a limb absorbs it. */
  method PropagateCarry(dst: array<Limb>, from: nat, to: nat, carry: int) returns (c: int)
    requires from <= to <= dst.Length && 0 <= carry <= 1
    modifies dst
    ensures 0 <= c <= 1
    ensures Val(dst[from..to]) + Pow(BASE, to - from) * c == old(Val(dst[from..to])) + carry
    ensures forall k :: 0 <= k < dst.Length && !(from <= k < to) ==> dst[k] == old(dst[k])
  {
    hide Le, Pow;
    LeNil(BASE);
    ghost var d0 := dst[..];
    c := carry;
    var i := from;
    assert dst[from..i] == [];
    while c != 0 && i < to
      invariant 0 <= c <= 1 && from <= i <= to
      invariant forall k :: 0 <= k < dst.Length && !(from <= k < i) ==> dst[k] == d0[k]
      invariant Val(dst[from..i]) + Pow(BASE, i - from) * c == Val(d0[from..i]) + carry
    {
      assert c == 1;
      var t: u32 := dst[i] as int + 1;
      ghost var low := dst[from..i];
      if t >= BASE {
        dst[i] := 0;
      } else {
        dst[i] := t;
        c := 0;
      }
      ColumnStep(d0[from..i], d0[i], low, dst[i], carry, 0, 1, c);
      assert dst[from..i + 1] == low + [dst[i]];
      assert d0[from..i + 1] == d0[from..i] + [d0[i]];
      i := i + 1;
    }
    assert d0[from..to][..i - from] == d0[from..i] && dst[from..to][..i - from] == dst[from..i];
    assert d0[from..to][i - from..] == dst[from..to][i - from..];
    TailUnchanged(d0[from..to], dst[from..to], i - from, c, carry);
    assert d0[from..to] == old(dst[from..to]);
  }

  lemma TailUnchanged(xs: seq<Limb>, zs: seq<Limb>, i: nat, c: int, sum: int)
    requires i <= |xs| == |zs| && xs[i..] == zs[i..] && (c == 0 || i == |xs|)
    requires Val(zs[..i]) + Pow(BASE, i) * c == Val(xs[..i]) + sum
    ensures Val(zs) + Pow(BASE, |xs|) * c == Val(xs) + sum
  {
    hide Le, Pow;
    if i == |xs| {
      assert xs[..i] == xs && zs[..i] == zs;
    } else {
      SameTail(xs, zs, i);
      assert Pow(BASE, i) * c == 0 == Pow(BASE, |xs|) * c;
    }
  }

  lemma SameTail(xs: seq<Limb>, zs: seq<Limb>, i: nat)
    requires i <= |xs| == |zs| && xs[i..] == zs[i..]
    ensures Val(zs) - Val(zs[..i]) == Val(xs) - Val(xs[..i])
  {
    hide Le, Pow;
    LeSplit(xs, i, BASE);
    LeSplit(zs, i, BASE);
  }

  /** Low columns and the limbs above them add up; a carry out of the top would not have fitted. */
  lemma AbsorbCarry(d0: seq<Limb>, mid: seq<Limb>, d1: seq<Limb>, from: nat, cut: nat, to: nat, c: int, carry: int,
    sum: int)
    requires from <= cut <= to <= |d0| == |mid| == |d1| && 0 <= carry <= 1
    requires mid[cut..to] == d0[cut..to] && d1[from..cut] == mid[from..cut]
    requires Val(mid[from..cut]) + Pow(BASE, cut - from) * c == Val(d0[from..cut]) + sum
    requires Val(d1[cut..to]) + Pow(BASE, to - cut) * carry == Val(mid[cut..to]) + c
    requires Val(d0[from..to]) + sum < Pow(BASE, to - from)
    ensures Val(d1[from..to]) == Val(d0[from..to]) + sum
  {
    hide Le, Pow;
    var i := cut - from;
    var xs, zs := d0[from..to], d1[from..to];
    LeSplit(xs, i, BASE);
    LeSplit(zs, i, BASE);
    assert xs[..i] == d0[from..cut] && xs[i..] == d0[cut..to];
    assert zs[..i] == d1[from..cut] && zs[i..] == d1[cut..to];
    PowAdd(BASE, i, to - cut);
    ValBound(zs);
    Cascade(Pow(BASE, i), Pow(BASE, to - cut), Val(xs[i..]), Val(zs[i..]), c, carry);
  }

  lemma Cascade(p: int, q: int, x: int, z: int, c: int, carry: int)
    requires z + q * carry == x + c
    ensures p * z + p * q * carry == p * x + p * c
  {
    assert p * (z + q * carry) == p * z + p * q * carry;
    assert p * (x + c) == p * x + p * c;
  }

  /** `dst -= src` for `dst >= src`. */
  method SubInto(dst: array<Limb>, src: seq<Limb>)
    requires |src| <= dst.Length && Val(dst[..]) >= Val(src)
    modifies dst
    ensures Val(dst[..]) == old(Val(dst[..])) - Val(src)
  {
    hide Le, Pow;
    LeNil(BASE);
    ghost var d0 := dst[..];
    var borrow: int := 0;
    var i := 0;
    while i < |src|
      invariant 0 <= borrow <= 1 && i <= |src|
      invariant forall k :: i <= k < dst.Length ==> dst[k] == d0[k]
      invariant Val(d0[..i]) + Pow(BASE, i) * borrow == Val(dst[..i]) + Val(src[..i])
    {
      var s: u32 := src[i] + borrow;
      ghost var low, b0 := dst[..i], borrow;
      if dst[i] >= s {
        dst[i] := dst[i] - s;
        borrow := 0;
      } else {
        dst[i] := dst[i] + BASE - s;
        borrow := 1;
      }
      ColumnStep(low, dst[i], d0[..i], d0[i], Val(src[..i]), src[i], b0, borrow);
      LeSnoc(src[..i], src[i], BASE);
      assert dst[..i + 1] == low + [dst[i]];
      assert d0[..i + 1] == d0[..i] + [d0[i]] && src[..i + 1] == src[..i] + [src[i]];
      i := i + 1;
    }
    assert src[..i] == src;
    while borrow != 0 && i < dst.Length
      invariant 0 <= borrow <= 1 && |src| <= i <= dst.Length
      invariant forall k :: i <= k < dst.Length ==> dst[k] == d0[k]
      invariant Val(d0[..i]) + Pow(BASE, i) * borrow == Val(dst[..i]) + Val(src)
    {
      ghost var low := dst[..i];
      if dst[i] > 0 {
        dst[i] := dst[i] - 1;
        borrow := 0;
      } else {
        dst[i] := BASE - 1;
      }
      ColumnStep(low, dst[i], d0[..i], d0[i], Val(src), 0, 1, borrow);
      assert dst[..i + 1] == low + [dst[i]] && d0[..i + 1] == d0[..i] + [d0[i]];
      i := i + 1;
    }
    assert dst[..][i..] == d0[i..];
    TailUnchanged(dst[..], d0, i, borrow, Val(src));
    ValBound(dst[..]);
  }

  /** `a + b` with one limb for the carry. */
  method Add(a: seq<Limb>, b: seq<Limb>) returns (r: array<Limb>)
    ensures fresh(r) && r.Length == (if |a| >= |b| then |a| else |b|) + 1
    ensures Val(r[..]) == Val(a) + Val(b)
  {
    hide Le, Pow;
    var a', b' := a, b;
    if !(|a| >= |b|) {
      a', b' := b, a;
    }
    r := new Limb[|a'| + 1];
    for i := 0 to |a'|
      invariant r[..i] == a'[..i]
    {
      r[i] := a'[i];
    }
    r[|a'|] := 0;
    assert r[0..r.Length] == r[..] == a' + [0];
    LeSnoc(a', 0, BASE);
    ValBound(a');
    ValBound(b');
    PowMono(BASE, |b'|, |a'|);
    PowPos(BASE, |a'|);
    PowStep(BASE, |a'|);
    AddInto(r, 0, r.Length, b');
    assert r[0..r.Length] == r[..];
  }

  /** `a[..n] *= m`; returns the carry out. */
  method MulSmallSlice(a: array<Limb>, n: nat, m: Limb) returns (carry: Limb)
    requires n <= a.Length
    modifies a
    ensures Val(a[..n]) + Pow(BASE, n) * carry == old(Val(a[..n])) * m
    ensures a[n..] == old(a[n..])
  {
    hide Le, Pow;
    LeNil(BASE);
    ghost var a0: seq<int> := a[..];
    carry := 0;
    assert a[..0] == [];
    for i := 0 to n
      invariant forall k :: i <= k < a.Length ==> a[k] == a0[k]
      invariant Val(a[..i]) + Pow(BASE, i) * carry == Val(a0[..i]) * m
    {
      ScaleStep(a0, a[..i], i, m, carry);
      var t: u64 := a[i] * m + carry;
      a[i] := t % BASE;
      assert a[..i + 1] == a[..i] + [a[i]];
      carry := t / BASE;
    }
    assert a0[..n] == old(a[..n]);
  }

  lemma ScaleStep(a0: seq<int>, low: seq<int>, i: nat, m: Limb, carry: Limb)
    requires i < |a0| && |low| == i && 0 <= a0[i] < BASE
    requires Val(low) + Pow(BASE, i) * carry == Val(a0[..i]) * m
    ensures var t := a0[i] * m + carry;
      && 0 <= t < BASE * BASE
      && Val(low + [t % BASE]) + Pow(BASE, i + 1) * (t / BASE) == Val(a0[..i + 1]) * m
  {
    MulMono(a0[i], BASE - 1, m);
    MulMono(m, BASE - 1, BASE - 1);
    MulNonneg(a0[i], m);
    var t := a0[i] * m + carry;
    LeSnoc(a0[..i], a0[i], BASE);
    LeSnoc(low, t % BASE, BASE);
    assert a0[..i + 1] == a0[..i] + [a0[i]];
    CarryStep(Pow(BASE, i), a0[i] * m, carry);
    Distribute(Val(a0[..i]), Pow(BASE, i), a0[i], m);
  }

  /** Divides `a[..n]` by one limb in place, high to low; returns the remainder. */
  method DivSmallInPlace(a: array<Limb>, n: nat, d: Limb) returns (rem: Limb)
    requires n <= a.Length && d > 0
    modifies a
    ensures old(Val(a[..n])) == Val(a[..n]) * d + rem && rem < d
    ensures a[n..] == old(a[n..])
  {
    ghost var a0: seq<int> := a[..];
    rem := 0;
    for i := n downto 0
      invariant rem < d
      invariant forall k :: 0 <= k < a.Length && !(i <= k < n) ==> a[k] == a0[k]
      invariant Val(a0[i..n]) == Val(a[i..n]) * d + rem
    {
      ghost var high := a[i + 1..n];
      assert a0[i..n][1..] == a0[i + 1..n];
      UnscaleStep(a0[i], high, Val(a0[i + 1..n]), d, rem);
      var cur: u64 := rem * BASE + a[i];
      a[i] := cur / d;
      assert a[i..n] == [a[i]] + high;
      rem := cur % d;
    }
    assert a0[0..n] == old(a[..n]) && a[0..n] == a[..n];
  }

  lemma UnscaleStep(x: Limb, high: seq<int>, v: int, d: Limb, rem: Limb)
    requires rem < d && v == Val(high) * d + rem
    ensures var cur := rem * BASE + x;
      && 0 <= cur / d < BASE
      && x + BASE * v == Val([cur / d] + high) * d + cur % d
  {
    hide Le, Pow;
    LeCons((rem * BASE + x) / d, high, BASE);
    DigitOfQuotient(x, Val(high), d, rem);
  }

  lemma DigitOfQuotient(x: int, h: int, d: int, rem: int)
    requires 0 <= x < BASE && 0 <= rem < d
    ensures var cur := rem * BASE + x;
      && 0 <= cur / d < BASE
      && x + BASE * (h * d + rem) == (cur / d + BASE * h) * d + cur % d
  {
    var cur := rem * BASE + x;
    DivModFact(cur, d);
    MulMono(rem + 1, d, BASE);
    MulCancelLt(cur / d, BASE, d);
    Distribute(cur / d, BASE, h, d);
  }

  /** Without its high zero limbs. */
  function Trim(v: seq<Limb>): (t: seq<Limb>)
    ensures |t| <= |v| && Val(t) == Val(v)
    ensures |t| > 0 ==> t[|t| - 1] != 0
  {
    if |v| > 0 && v[|v| - 1] == 0 then
      assert v == v[..|v| - 1] + [0];
      LeSnoc(v[..|v| - 1], 0, BASE);
      Trim(v[..|v| - 1])
    else v
  }

  /** A trimmed vector is no longer than any power bounding its value. */
  lemma TrimmedLength(t: seq<Limb>, n: nat)
    requires |t| > 0 ==> t[|t| - 1] != 0
    requires Val(t) < Pow(BASE, n)
    ensures |t| <= n
  {
    if n < |t| {
      var k := |t| - 1;
      assert t == t[..k] + [t[k]];
      LeSnoc(t[..k], t[k], BASE);
      ValBound(t[..k]);
      PowPos(BASE, k);
      MulMono(1, t[k], Pow(BASE, k));
      PowMono(BASE, n, k);
    }
  }
}
