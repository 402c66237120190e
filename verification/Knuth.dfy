/** Division of limb vectors: Knuth's algorithm D (TAOCP vol. 2, section 4.3.1) with floating-point digit estimates. */
module Knuth {
  import opened Numerals
  import opened Limbs
  import opened Words
  import Floats

  /** The divisor of the prepared operands: two limbs or more, the top one at least `BASE / 2`. */
  ghost predicate Normalized(v: seq<Limb>) {
    |v| >= 2 && v[|v| - 1] >= BASE / 2
  }

  function Two(hi: int, lo: int): int { hi * BASE + lo }

  // ----- one quotient digit

  /** `num / vt` and its remainder, from a floating-point estimate repaired by at most one. */
  method EstimateDigit(num: u64, vt: Limb) returns (qhat: u64, rhat: u64)
    requires BASE / 2 <= vt && num < vt * BASE + BASE
    ensures qhat == num / vt && rhat == num % vt
  {
    var q := Floats.EstimateQuotient(num, vt);
    DivModFact(num, vt);
    assert (num / vt - 1) * vt == num / vt * vt - vt && (num / vt + 1) * vt == num / vt * vt + vt;
    MulMono(num / vt - 1, q, vt);
    MulMono(q, num / vt + 1, vt);
    var product: u64 := q * vt;
    var r: i64 := num as int - product;
    if r < 0 {
      q := q - 1;
      r := r + vt;
    } else if r >= vt {
      q := q + 1;
      r := r - vt;
    }
    assert q * vt + r == num;
    DivModUnique(num, vt, q, r);
    MulMono(1, vt, q);
    qhat, rhat := q, r;
  }

  /**
   * The trial digit from the top three limbs of the window and the top two of the divisor:
   * the largest digit whose multiple of the two limbs does not exceed the three.
   */
  method TrialDigit(u2: Limb, u1: Limb, u0: Limb, vt: Limb, vs: Limb) returns (qhat: u64)
    requires BASE / 2 <= vt && u2 <= vt
    ensures qhat < BASE
    ensures qhat * Two(vt, vs) <= Two(Two(u2, u1), u0)
    ensures qhat == BASE - 1 || (qhat + 1) * Two(vt, vs) > Two(Two(u2, u1), u0)
  {
    var num: u64 := u2 * BASE + u1;
    var q, rhat := EstimateDigit(num, vt);
    DivModFact(num, vt);
    MulCancelLt(q, BASE + 2, vt);
    assert (q + 1) * vt + (rhat - vt) == num;
    NextFails(q + 1, rhat - vt, vt, vs, num, u0);
    GuardFits(q, vs, rhat, u0);
    while q >= BASE || q * vs > rhat * BASE + u0
      invariant q * vt + rhat == num && 0 <= rhat < BASE && 0 <= q <= BASE + 1
      invariant GuardInWord(q, vs, rhat, u0)
      invariant q + 1 >= BASE || (q + 1) * Two(vt, vs) > Two(num, u0)
      decreases q
    {
      TwoLimbs(q, rhat, vt, vs, num, u0);
      assert (q - 1) * vt == q * vt - vt;
      q := q - 1;
      rhat := rhat + vt;
      if rhat >= BASE {
        BelowBase(q, rhat, vt, vs, num);
        break;
      }
      GuardFits(q, vs, rhat, u0);
    }
    TwoLimbs(q, rhat, vt, vs, num, u0);
    qhat := q;
  }

  /** Both sides of the two-limb test fit the word. */
  ghost predicate GuardInWord(q: int, vs: int, rhat: int, u0: int) {
    0 <= q * vs < WORD && 0 <= rhat * BASE + u0 < WORD
  }

  lemma GuardFits(q: int, vs: Limb, rhat: int, u0: Limb)
    requires 0 <= q <= BASE + 1 && 0 <= rhat < BASE
    ensures GuardInWord(q, vs, rhat, u0)
  {
    MulNonneg(q, vs);
    MulMono(q, BASE + 1, vs);
    MulMono(vs, BASE, BASE + 1);
  }

  lemma NextFails(q: int, r: int, vt: int, vs: int, num: int, u0: int)
    requires q * vt + r == num && r < 0 <= q && 0 <= vs && u0 < BASE
    ensures q * Two(vt, vs) > Two(num, u0)
  {
    TwoLimbs(q, r, vt, vs, num, u0);
    MulNonneg(q, vs);
  }

  /** With `q * vt + r == num`, comparing against three limbs is comparing the remainder part. */
  lemma TwoLimbs(q: int, r: int, vt: int, vs: int, num: int, u0: int)
    requires q * vt + r == num
    ensures q * Two(vt, vs) - Two(num, u0) == q * vs - (r * BASE + u0)
  {
    assert q * (vt * BASE + vs) == (q * vt) * BASE + q * vs;
  }

  lemma BelowBase(q: int, rhat: int, vt: int, vs: int, num: int)
    requires 0 <= q && q * vt + rhat == num < vt * BASE + BASE && rhat >= BASE && 0 < vt && 0 <= vs < BASE
    ensures q < BASE && q * vs <= rhat * BASE
  {
    MulCancelLt(q, BASE, vt);
    MulMono(q, BASE, vs);
    MulMono(vs, BASE, BASE);
  }

  // ----- the trial digit against the true one

  lemma PairValue(x: int, y: int)
    ensures Val([x, y]) == Two(y, x)
  {
    LeSnoc([x], y, BASE);
    assert [x] + [y] == [x, y] && Le([x], BASE) == x && Pow(BASE, 1) == BASE;
  }

  lemma TripleValue(x: int, y: int, z: int)
    ensures Val([x, y, z]) == Two(Two(z, y), x)
  {
    assert [x, y, z][1..] == [y, z];
    PairValue(y, z);
  }

  lemma Succ(p: int, t: int)
    ensures p * (t + 1) == p * t + p
  {}

  /** A value lies between the power times its top limbs and that power times one more. */
  lemma TopBounds(w: seq<Limb>, k: nat, top: int)
    requires k <= |w| && top == Val(w[k..])
    ensures Pow(BASE, k) * top <= Val(w) < Pow(BASE, k) * (top + 1)
  {
    LeSplit(w, k, BASE);
    ValBound(w[..k]);
    Succ(Pow(BASE, k), top);
  }

  /** The trial digit is the true quotient digit or one more (Knuth's theorem B with the two-limb test). */
  lemma DigitBounds(w: seq<Limb>, v: seq<Limb>, qhat: int)
    requires Normalized(v) && |w| == |v| + 1 && Val(w) < BASE * Val(v)
    requires var u3, v2 := Two(Two(w[|v|], w[|v| - 1]), w[|v| - 2]), Two(v[|v| - 1], v[|v| - 2]);
      && 0 <= qhat < BASE && qhat * v2 <= u3
      && (qhat == BASE - 1 || (qhat + 1) * v2 > u3)
    ensures 0 < Val(v) && (qhat - 1) * Val(v) <= Val(w) < (qhat + 1) * Val(v)
  {
    var k := |v| - 2;
    var u3, v2 := Two(Two(w[k + 2], w[k + 1]), w[k]), Two(v[k + 1], v[k]);
    assert w[k..] == [w[k], w[k + 1], w[k + 2]] && v[k..] == [v[k], v[k + 1]];
    TripleValue(w[k], w[k + 1], w[k + 2]);
    PairValue(v[k], v[k + 1]);
    TopBounds(w, k, u3);
    TopBounds(v, k, v2);
    PowPos(BASE, k);
    TrialBounds(Val(w), Val(v), qhat, u3, v2, Pow(BASE, k));
  }

  lemma TrialBounds(w: int, v: int, q: int, u3: int, v2: int, p: int)
    requires 0 < p && BASE * (BASE / 2) <= v2 && 0 <= q < BASE && q * v2 <= u3
    requires p * u3 <= w < p * (u3 + 1) && p * v2 <= v < p * (v2 + 1)
    requires w < BASE * v
    requires q == BASE - 1 || (q + 1) * v2 > u3
    ensures 0 < v && (q - 1) * v <= w < (q + 1) * v
  {
    MulStrict(0, v2, p);
    MulNonneg(q, v2);
    if q < BASE - 1 {
      UpperSide(w, v, q, u3, v2, p);
    }
    if q > 0 {
      LowerSide(w, v, q, u3, v2, p);
    } else {
      MulNonneg(p, u3);
    }
  }

  /** (q + 1) v >= (q + 1) p v2 >= p (u3 + 1) > w. */
  lemma UpperSide(w: int, v: int, q: int, u3: int, v2: int, p: int)
    requires 0 < p && 0 <= q && w < p * (u3 + 1) && p * v2 <= v && u3 < (q + 1) * v2
    ensures w < (q + 1) * v
  {
    MulMono(p * v2, v, q + 1);
    MulMono(u3 + 1, (q + 1) * v2, p);
    assert (q + 1) * (p * v2) == p * ((q + 1) * v2);
  }

  /** (q - 1) v <= p (q - 1) (v2 + 1) <= p u3 <= w, since q - 1 <= v2. */
  lemma LowerSide(w: int, v: int, q: int, u3: int, v2: int, p: int)
    requires 0 < p && 0 < q <= v2 && p * u3 <= w && v < p * (v2 + 1) && q * v2 <= u3
    ensures (q - 1) * v <= w
  {
    MulMono(v, p * (v2 + 1), q - 1);
    assert (q - 1) * (p * (v2 + 1)) == p * ((q - 1) * (v2 + 1));
    assert (q - 1) * (v2 + 1) == q * v2 + (q - 1) - v2;
    MulMono((q - 1) * (v2 + 1), u3, p);
  }

  // ----- multiply and subtract, add back

  /** One limb of the subtraction: `t` stays in range, and the borrow is 0, 1 or 2. */
  lemma BorrowStep(qhat: int, vi: Limb, ui: Limb, prevHi: int, borrow: int)
    requires 0 <= qhat < BASE && 0 <= prevHi <= BASE - 2 && 0 <= borrow <= 2
    ensures var p := qhat * vi;
      0 <= p < BASE * BASE && 0 <= p / BASE <= BASE - 2
  {
    MulNonneg(qhat, vi);
    MulMono(qhat, BASE - 1, vi);
    MulMono(vi, BASE - 1, BASE - 1);
  }

  /** `u[j..j + |v|] -= qhat * v`; returns what remains to be taken from the limb above. */
  method MulSub(u: array<Limb>, j: nat, v: seq<Limb>, qhat: u64) returns (sub: u64)
    requires j + |v| < u.Length && qhat < BASE
    modifies u
    ensures sub <= BASE
    ensures Val(u[j..j + |v|]) + qhat * Val(v) == old(Val(u[j..j + |v|])) + Pow(BASE, |v|) * sub
    ensures forall k :: 0 <= k < u.Length && !(j <= k < j + |v|) ==> u[k] == old(u[k])
  {
    hide Le, Pow;
    LeNil(BASE);
    ghost var u0 := u[..];
    assert v[..0] == [] && u[j..j] == [];
    var borrow: u64, prevHi: u64 := 0, 0;
    for i := 0 to |v|
      invariant prevHi <= BASE - 2 && borrow <= 2
      invariant forall k :: 0 <= k < u.Length && !(j <= k < j + i) ==> u[k] == u0[k]
      invariant Val(u0[j..j + i]) + Pow(BASE, i) * (prevHi + borrow) == Val(u[j..j + i]) + qhat * Val(v[..i])
    {
      BorrowStep(qhat, v[i], u[j + i], prevHi, borrow);
      var p: u64 := qhat * v[i];
      var hi: u64 := p / BASE;
      var lo: u64 := p - hi * BASE;
      var t: u64 := u[j + i] + 2 * BASE - lo - prevHi - borrow;
      assert 1 <= t < 3 * BASE;
      var b1 := if t < 2 * BASE then 1 else 0;
      var b2 := if t < BASE then 1 else 0;
      ghost var low, c := u[j..j + i], prevHi + borrow;
      borrow := b1 + b2;
      u[j + i] := t + borrow * BASE - 2 * BASE;
      prevHi := hi;
      ColumnStep(low, u[j + i], u0[j..j + i], u0[j + i], qhat * Val(v[..i]), p, c, prevHi + borrow);
      ScaleColumn(qhat, v, i);
      assert u[j..j + i + 1] == low + [u[j + i]];
      assert u0[j..j + i + 1] == u0[j..j + i] + [u0[j + i]];
    }
    assert v[..|v|] == v && u0[j..j + |v|] == old(u[j..j + |v|]);
    sub := prevHi + borrow;
  }

  lemma ScaleColumn(q: int, v: seq<Limb>, i: nat)
    requires i < |v|
    ensures q * Val(v[..i + 1]) == q * Val(v[..i]) + Pow(BASE, i) * (q * v[i])
  {
    hide Le, Pow;
    LeSnoc(v[..i], v[i], BASE);
    assert v[..i + 1] == v[..i] + [v[i]];
    Distribute(Val(v[..i]), Pow(BASE, i), v[i], q);
  }

  /** Adds `v` back once; the carry out of the top limb is dropped. */
  method AddBack(u: array<Limb>, j: nat, v: seq<Limb>) returns (ghost dropped: int)
    requires j + |v| < u.Length
    modifies u
    ensures 0 <= dropped <= 1
    ensures Val(u[j..j + |v| + 1]) + Pow(BASE, |v| + 1) * dropped == old(Val(u[j..j + |v| + 1])) + Val(v)
    ensures forall k :: 0 <= k < u.Length && !(j <= k <= j + |v|) ==> u[k] == old(u[k])
  {
    hide Le, Pow;
    ghost var u0 := u[..];
    var c := AddColumns(u, j, v);
    ghost var low, c0 := u[j..j + |v|], c;
    ghost var top := u[j + |v|] + c;
    u[j + |v|] := (u[j + |v|] + c) % BASE;
    dropped := if top >= BASE then 1 else 0;
    ColumnStep(u0[j..j + |v|], u0[j + |v|], low, u[j + |v|], Val(v), 0, c0, dropped);
    assert u[j..j + |v| + 1] == low + [u[j + |v|]];
    assert u0[j..j + |v| + 1] == u0[j..j + |v|] + [u0[j + |v|]] == old(u[j..j + |v| + 1]);
    assert u0[j..j + |v|] == old(u[j..j + |v|]);
  }

  // ----- one step of the division

  lemma TopAtMost(w: seq<Limb>, v: seq<Limb>)
    requires |w| == |v| + 1 && |v| > 0 && Val(w[1..]) < Val(v)
    ensures w[|v|] <= v[|v| - 1]
    ensures Val(w) < BASE * Val(v)
  {
    var k := |v| - 1;
    var x := w[1..];
    assert x[k..] == [w[|v|]] && v[k..] == [v[k]];
    assert Le([x[k]], BASE) == x[k] && Le([v[k]], BASE) == v[k];
    TopBounds(x, k, x[k]);
    TopBounds(v, k, v[k]);
    PowPos(BASE, k);
    MulCancelLt(x[k], v[k] as int + 1, Pow(BASE, k));
  }

  lemma TopZero(win: seq<Limb>, k: nat, bound: int)
    requires |win| == k + 1 && Val(win) < bound <= Pow(BASE, k)
    ensures win[k] == 0 && Val(win[..k]) == Val(win)
  {
    assert win == win[..k] + [win[k]];
    LeSnoc(win[..k], win[k], BASE);
    ValBound(win[..k]);
    if win[k] >= 1 {
      MulMono(1, win[k], Pow(BASE, k));
    }
  }

  lemma WindowValue(low: seq<Limb>, top: Limb)
    ensures Val(low + [top]) == Val(low) + Pow(BASE, |low|) * top
  {
    LeSnoc(low, top, BASE);
  }

  /** Takes `qhat * v` from the window, or one multiple less if that went negative. */
  method Reduce(u: array<Limb>, j: nat, v: seq<Limb>, qhat: u64) returns (digit: u64)
    requires j + |v| < u.Length && 0 < qhat < BASE
    requires (qhat - 1) * Val(v) <= Val(u[j..j + |v| + 1]) < (qhat + 1) * Val(v)
    modifies u
    ensures digit == qhat || digit == qhat - 1
    ensures Val(u[j..j + |v| + 1]) == old(Val(u[j..j + |v| + 1])) - digit * Val(v) < Val(v)
    ensures forall k :: 0 <= k < u.Length && !(j <= k <= j + |v|) ==> u[k] == old(u[k])
  {
    hide Le, Pow;
    PowStep(BASE, |v|);
    var nl := |v|;
    ghost var w, vv := Val(u[j..j + nl + 1]), Val(v);
    assert u[j..j + nl + 1] == u[j..j + nl] + [u[j + nl]];
    WindowValue(u[j..j + nl], u[j + nl]);
    var sub := MulSub(u, j, v, qhat);
    var cur: int := u[j + nl];
    ghost var low := u[j..j + nl];
    ValBound(low);
    if cur >= sub {
      u[j + nl] := cur - sub;
      assert u[j..j + nl + 1] == low + [u[j + nl]];
      WindowValue(low, u[j + nl]);
      Settle(Pow(BASE, nl), w, vv, qhat, Val(low), sub, cur);
      digit := qhat;
    } else {
      u[j + nl] := cur + BASE - sub;
      assert u[j..j + nl + 1] == low + [u[j + nl]];
      WindowValue(low, u[j + nl]);
      Overdrawn(Pow(BASE, nl), w, vv, qhat, Val(low), sub, cur);
      digit := qhat - 1;
      ghost var dropped := AddBack(u, j, v);
      ValBound(u[j..j + nl + 1]);
    }
  }

  /** Divides the window `u[j..j + |v| + 1]` by `v` in place: one quotient digit, the remainder left behind. */
  method QuotientDigit(u: array<Limb>, j: nat, v: seq<Limb>) returns (digit: Limb)
    requires Normalized(v) && j + |v| < u.Length
    requires Val(u[j + 1..j + |v| + 1]) < Val(v)
    modifies u
    ensures old(Val(u[j..j + |v| + 1])) == digit * Val(v) + Val(u[j..j + |v|])
    ensures Val(u[j..j + |v|]) < Val(v) && u[j + |v|] == 0
    ensures forall k :: 0 <= k < u.Length && !(j <= k <= j + |v|) ==> u[k] == old(u[k])
  {
    hide Le, Pow;
    var nl := |v|;
    ghost var w := u[j..j + nl + 1];
    assert w[1..] == u[j + 1..j + nl + 1];
    TopAtMost(w, v);
    var qhat := TrialDigit(u[j + nl], u[j + nl - 1], u[j + nl - 2], v[nl - 1], v[nl - 2]);
    DigitBounds(w, v, qhat);
    if qhat == 0 {
      digit := 0;
    } else {
      var d := Reduce(u, j, v, qhat);
      digit := d;
    }
    ValBound(v);
    TopZero(u[j..j + nl + 1], nl, Val(v));
    assert u[j..j + nl + 1][..nl] == u[j..j + nl];
  }

  /** Nothing went negative: the window holds the remainder of the trial digit. */
  lemma Settle(p: int, w: int, v: int, q: int, low: int, sub: int, cur: int)
    requires low + q * v == w - p * cur + p * sub
    ensures low + p * (cur - sub) == w - q * v
    ensures w < (q + 1) * v ==> low + p * (cur - sub) < v
  {
    assert p * (cur - sub) == p * cur - p * sub;
    assert (q + 1) * v == q * v + v;
  }

  /** The top limb went negative: the trial digit was one too large. */
  lemma Overdrawn(p: int, w: int, v: int, q: int, low: int, sub: int, cur: int)
    requires low + q * v == w - p * cur + p * sub && 0 <= low < p && cur < sub
    requires (q - 1) * v <= w
    ensures low + p * (cur + BASE - sub) == w - q * v + BASE * p
    ensures 0 <= w - (q - 1) * v < v && w - q * v + v == w - (q - 1) * v
  {
    assert p * (cur + BASE - sub) == p * cur - p * sub + BASE * p;
    MulMono(1, sub - cur, p);
    assert p * (sub - cur) == p * sub - p * cur;
    assert (q - 1) * v == q * v - v;
  }

  // ----- the whole division

  /**
   * Divides `u` by the normalized `v` in place: `q` receives the quotient, and the remainder is
   * left in the low limbs of `u`.
   */
  method Divide(u: array<Limb>, v: seq<Limb>, q: array<Limb>)
    requires Normalized(v) && u.Length > |v| && q.Length == u.Length - |v| && u != q
    requires Val(u[q.Length..]) < Val(v)
    modifies u, q
    ensures old(Val(u[..])) == Val(q[..]) * Val(v) + Val(u[..|v|])
    ensures 0 <= Val(u[..|v|]) < Val(v)
  {
    hide Le, Pow;
    LeNil(BASE);
    var nl := |v|;
    ghost var total := Val(u[..]);
    assert q[q.Length..] == [] && u[q.Length..] == u[q.Length..q.Length + nl];
    ghost var qv, vv := 0, Val(v);
    for j := q.Length downto 0
      invariant Val(u[j..j + nl]) < vv
      invariant forall k :: j + nl <= k < u.Length ==> u[k] == 0
      invariant qv == Val(q[j..])
      invariant total == Pow(BASE, j) * (qv * vv) + Val(u[..])
    {
      ghost var u1, qs := u[..], q[j + 1..];
      PowStep(BASE, j);
      var digit := QuotientDigit(u, j, v);
      q[j] := digit;
      assert q[j..] == [digit] + qs;
      LeCons(digit, qs, BASE);
      WindowReplaced(u1, u[..], j, nl + 1);
      assert u1[j..j + nl + 1] == u1[j..][..nl + 1];
      assert u[..][j..j + nl + 1] == u[j..j + nl] + [0];
      WindowValue(u[j..j + nl], 0);
      Accumulate(Pow(BASE, j), digit, qv, vv);
      qv := digit + BASE * qv;
    }
    assert u[0..nl] == u[..nl] && q[0..] == q[..];
    AllHighZero(u[..], nl);
    ValBound(u[..nl]);
  }

  /** Changing a window changes the value by the window's change, scaled. */
  lemma WindowReplaced(s: seq<Limb>, t: seq<Limb>, j: nat, n: nat)
    requires |s| == |t| && j + n <= |s|
    requires forall k :: 0 <= k < |s| && !(j <= k < j + n) ==> s[k] == t[k]
    ensures Val(s) - Val(t) == Pow(BASE, j) * (Val(s[j..j + n]) - Val(t[j..j + n]))
  {
    hide Le, Pow;
    LeSplit(s, j, BASE);
    LeSplit(t, j, BASE);
    LeSplit(s[j..], n, BASE);
    LeSplit(t[j..], n, BASE);
    assert s[..j] == t[..j] && s[j..][n..] == t[j..][n..];
    assert s[j..][..n] == s[j..j + n] && t[j..][..n] == t[j..j + n];
    SubMul(Pow(BASE, j), Val(s[j..j + n]), Val(t[j..j + n]), Pow(BASE, n) * Val(s[j..][n..]));
  }

  lemma SubMul(p: int, x: int, y: int, z: int)
    ensures p * (x - y) == p * (x + z) - p * (y + z)
  {}

  lemma Accumulate(p: int, digit: int, qs: int, v: int)
    ensures p * ((digit + BASE * qs) * v) == p * (digit * v) + BASE * p * (qs * v)
  {
    Distribute(digit, BASE, qs, v);
    assert p * (digit * v + BASE * (qs * v)) == p * (digit * v) + BASE * p * (qs * v);
  }

  lemma AllHighZero(u: seq<Limb>, nl: nat)
    requires nl <= |u| && forall k :: nl <= k < |u| ==> u[k] == 0
    ensures Val(u) == Val(u[..nl])
  {
    LeSplit(u, nl, BASE);
    LeZeros(u[nl..], BASE);
  }
}
