/**
 * Machine words holding one decimal digit per byte: the SWAR conversions between eight ASCII
 * digits and a number.  A word is its unsigned value; `&` and `|` are defined bit by bit.
 */
module Words {
  import opened Numerals

  type byte = x: int | 0 <= x < 256
  type Digit = x: int | 48 <= x <= 57 witness 48
  type u64 = x: int | 0 <= x < 0x1_0000_0000_0000_0000
  type i64 = x: int | -0x8000_0000_0000_0000 <= x < 0x8000_0000_0000_0000

  const WORD: int := 0x1_0000_0000_0000_0000
  const ASCII0: int := 0x3030_3030_3030_3030

  /** The number an ASCII digit string denotes. */
  function Dec(s: seq<int>): int { Be(s, 10, 48) }

  lemma DecNil()
    ensures Dec([]) == 0
  {}

  lemma OneDigit(d: Digit)
    ensures Dec([d]) == d as int - 48
  {
    BeSnoc([], d, 10, 48);
    assert [] + [d] == [d];
  }

  function Zeros(n: nat): (s: seq<Digit>)
    ensures |s| == n
    ensures forall i :: 0 <= i < n ==> s[i] == 48
  {
    seq(n, i => 48)
  }

  lemma ZerosSplit(m: nat, n: nat)
    ensures Zeros(m + n) == Zeros(m) + Zeros(n) && Zeros(0) == [] && Zeros(1) == [48]
  {}

  lemma ZerosDec(n: nat)
    ensures Dec(Zeros(n)) == 0
  {
    BeZeros(Zeros(n), 10, 48);
  }

  // ----- bitwise operations

  function And(a: int, b: int): (r: nat)
    ensures a >= 0 ==> r <= a
    ensures b >= 0 ==> r <= b
    decreases if a < 0 then 0 else a
  {
    if a <= 0 || b <= 0 then 0 else (if a % 2 == 1 && b % 2 == 1 then 1 else 0) + 2 * And(a / 2, b / 2)
  }

  function Or(a: int, b: int): int { a + b - And(a, b) }

  lemma {:induction false} AndZero(a: nat)
    ensures And(a, 0) == 0 == And(0, a)
  {}

  /** Low and high parts of both operands meet separately. */
  lemma {:induction false} AndSplit(a: nat, a': nat, b: nat, b': nat, k: nat)
    requires a < Pow(2, k) && b < Pow(2, k)
    ensures 0 <= Pow(2, k) * a' && 0 <= Pow(2, k) * b' && 0 <= Pow(2, k) * And(a', b')
    ensures And(a + Pow(2, k) * a', b + Pow(2, k) * b') == And(a, b) + Pow(2, k) * And(a', b')
  {
    hide And, Pow;
    PowPos(2, k);
    MulNonneg(Pow(2, k), a');
    MulNonneg(Pow(2, k), b');
    MulNonneg(Pow(2, k), And(a', b'));
    if k == 0 {
      AndZero(0);
      PowStep(2, 0);
      assert Pow(2, k) * a' == a' && Pow(2, k) * b' == b' && Pow(2, k) * And(a', b') == And(a', b');
    } else {
      PowStep(2, k - 1);
      var p := Pow(2, k - 1);
      PowPos(2, k - 1);
      MulNonneg(p, a');
      MulNonneg(p, b');
      AndSplit(a / 2, a', b / 2, b', k - 1);
      Doubled(p, a');
      Doubled(p, b');
      Doubled(p, And(a', b'));
      HalfOf(a, p * a');
      HalfOf(b, p * b');
      AndStep(a, b);
      AndStep(a + 2 * (p * a'), b + 2 * (p * b'));
    }
  }

  lemma Doubled(p: int, x: int)
    ensures 2 * p * x == 2 * (p * x)
  {}

  lemma HalfOf(a: int, x: int)
    ensures (a + 2 * x) % 2 == a % 2 && (a + 2 * x) / 2 == a / 2 + x
  {}

  lemma AndStep(a: nat, b: nat)
    ensures And(a, b) == (if a % 2 == 1 && b % 2 == 1 then 1 else 0) + 2 * And(a / 2, b / 2)
  {
    if a == 0 || b == 0 {
      AndZero(a / 2);
      AndZero(b / 2);
    }
  }

  /** A mask of `k` ones takes the remainder. */
  lemma {:induction false} AndLowOnes(x: nat, k: nat)
    ensures 0 < Pow(2, k) && And(x, Pow(2, k) - 1) == x % Pow(2, k)
  {
    hide And, Pow;
    PowPos(2, k);
    PowStep(2, 0);
    if k == 0 {
      AndZero(x);
    } else {
      PowStep(2, k - 1);
      var p := Pow(2, k - 1);
      AndLowOnes(x / 2, k - 1);
      AndStep(x, 2 * p - 1);
      DivModFact(x / 2, p);
      var q := x / 2 / p;
      assert q * (2 * p) == 2 * (q * p);
      DivModUnique(x, 2 * p, x / 2 / p, 2 * (x / 2 % p) + x % 2);
    }
  }

  /** A mask of ones above the low `k` bits drops them. */
  lemma AndHighOnes(x: nat, k: nat, m: nat)
    requires x < Pow(2, m) && k <= m
    ensures 0 < Pow(2, k) <= Pow(2, m) && And(x, Pow(2, m) - Pow(2, k)) == x / Pow(2, k) * Pow(2, k)
  {
    hide And, Pow;
    PowPos(2, k);
    PowPos(2, m - k);
    PowAdd(2, k, m - k);
    PowMono(2, k, m);
    HighPart(x, Pow(2, k), Pow(2, m - k));
    AndSplit(x % Pow(2, k), x / Pow(2, k), 0, Pow(2, m - k) - 1, k);
    AndZero(x % Pow(2, k));
    AndLowOnes(x / Pow(2, k), m - k);
  }

  lemma HighPart(x: nat, p: nat, q: nat)
    requires 0 < p && 0 < q && x < p * q
    ensures x == x % p + p * (x / p) && p * (q - 1) == p * q - p
    ensures x / p % q == x / p && x / p * p == p * (x / p)
  {
    DivModFact(x, p);
    MulCancelLt(x / p, q, p);
    DivModUnique(x / p, q, 0, x / p);
  }

  /** `|` of parts that do not overlap is their sum. */
  lemma OrDisjoint(a: nat, b: nat, k: nat)
    requires a < Pow(2, k)
    ensures 0 <= Pow(2, k) * b && Or(a, Pow(2, k) * b) == a + Pow(2, k) * b == Or(Pow(2, k) * b, a)
  {
    hide And, Pow;
    PowPos(2, k);
    AndSplit(a, 0, 0, b, k);
    AndSplit(0, b, a, 0, k);
    AndZero(a);
    AndZero(b);
  }

  function AndEach(x: seq<int>, y: seq<int>): (z: seq<int>)
    requires |x| == |y| && (forall i :: 0 <= i < |x| ==> x[i] >= 0 && y[i] >= 0)
    ensures |z| == |x|
  {
    seq(|x|, i requires 0 <= i < |x| => And(x[i], y[i]))
  }

  /** `&` acts lane by lane. */
  lemma {:induction false} AndLanes(x: seq<int>, y: seq<int>, k: nat)
    requires |x| == |y| && InRange(x, 0, Pow(2, k)) && InRange(y, 0, Pow(2, k))
    ensures 0 <= Le(x, Pow(2, k)) && 0 <= Le(y, Pow(2, k))
    ensures And(Le(x, Pow(2, k)), Le(y, Pow(2, k))) == Le(AndEach(x, y), Pow(2, k))
  {
    hide And, Pow;
    var b := Pow(2, k);
    PowPos(2, k);
    LeBound(x, b);
    LeBound(y, b);
    if |x| == 0 {
      AndZero(0);
    } else {
      LeBound(x[1..], b);
      LeBound(y[1..], b);
      AndLanes(x[1..], y[1..], k);
      AndSplit(x[0], Le(x[1..], b), y[0], Le(y[1..], b), k);
      assert AndEach(x, y)[1..] == AndEach(x[1..], y[1..]);
    }
  }

  // ----- bytes of a word

  function LeBytes(w: nat, n: nat): (s: seq<byte>)
    ensures |s| == n
  {
    if n == 0 then [] else [w % 256] + LeBytes(w / 256, n - 1)
  }

  function BeBytes(w: nat, n: nat): (s: seq<byte>)
    ensures |s| == n
  {
    if n == 0 then [] else BeBytes(w / 256, n - 1) + [w % 256]
  }

  lemma {:induction false} LeBytesOf(s: seq<byte>)
    ensures 0 <= Le(s, 256) && LeBytes(Le(s, 256), |s|) == s
  {
    LeBound(s, 256);
    if |s| > 0 {
      LeBytesOf(s[1..]);
      DivModUnique(Le(s, 256), 256, Le(s[1..], 256), s[0]);
    }
  }

  lemma {:induction false} BeBytesOf(s: seq<byte>)
    ensures 0 <= Be(s, 256, 0) && BeBytes(Be(s, 256, 0), |s|) == s
  {
    BeBound(s, 256, 0);
    if |s| > 0 {
      var n := |s| - 1;
      BeBytesOf(s[..n]);
      DivModUnique(Be(s, 256, 0), 256, Be(s[..n], 256, 0), s[n]);
      assert s == s[..n] + [s[n]];
    }
  }

  /** `|` of words whose lanes do not overlap is their sum. */
  lemma OrLanes(x: seq<int>, y: seq<int>, k: nat)
    requires |x| == |y| && InRange(x, 0, Pow(2, k)) && InRange(y, 0, Pow(2, k))
    requires forall i :: 0 <= i < |x| ==> And(x[i], y[i]) == 0
    ensures 0 <= Le(x, Pow(2, k)) && 0 <= Le(y, Pow(2, k))
    ensures Or(Le(x, Pow(2, k)), Le(y, Pow(2, k))) == Le(x, Pow(2, k)) + Le(y, Pow(2, k))
  {
    hide And, Pow, Le;
    AndLanes(x, y, k);
    LeZeros(AndEach(x, y), Pow(2, k));
  }

  /** A number below sixteen has no bit in common with a multiple of sixteen. */
  lemma LowHighNibble(d: nat, h: nat)
    requires d < 16
    ensures And(d, 16 * h) == 0
  {
    hide And;
    assert Pow(2, 4) == 16;
    AndSplit(d, 0, 0, h, 4);
    AndZero(d);
    AndZero(h);
  }
}
