/** Digit-by-digit column arithmetic on equally long digit strings: what word-at-a-time code must agree with. */
module Columns {
  import opened Numerals
  import opened Words

  /** One column: `x + y + c`, or `x - y - c` when subtracting. */
  function Column(sub: bool, x: int, y: int, c: int): int {
    if sub then x - y - c else x + y + c
  }

  function CarryOf(s: int): int { if s < 0 || s >= 10 then 1 else 0 }

  function DigitOf(s: int): int { if s < 0 then s + 10 else if s >= 10 then s - 10 else s }

  /** `x + y + c` (or `x - y - c`) column by column from the right, with the carry (or borrow) out. */
  function Cols(sub: bool, x: seq<Digit>, y: seq<Digit>, c: int): (r: (seq<Digit>, int))
    requires |x| == |y| && 0 <= c <= 1
    ensures |r.0| == |x| && 0 <= r.1 <= 1
  {
    if |x| == 0 then ([], c) else
      var n := |x| - 1;
      var s := Column(sub, x[n] as int - 48, y[n] as int - 48, c);
      var r := Cols(sub, x[..n], y[..n], CarryOf(s));
      (r.0 + [48 + DigitOf(s)], r.1)
  }

  lemma ColsNil(sub: bool, c: int)
    requires 0 <= c <= 1
    ensures Cols(sub, [], [], c) == ([], c)
  {}

  lemma ColsSnoc(sub: bool, x: seq<Digit>, y: seq<Digit>, d: Digit, e: Digit, c: int)
    requires |x| == |y| && 0 <= c <= 1
    ensures var s := Column(sub, d as int - 48, e as int - 48, c);
      var r := Cols(sub, x, y, CarryOf(s));
      Cols(sub, x + [d], y + [e], c) == (r.0 + [48 + DigitOf(s)], r.1)
  {
    assert (x + [d])[..|x|] == x && (y + [e])[..|x|] == y;
  }

  /** Column arithmetic is integer arithmetic. */
  lemma {:induction false} ColsValue(sub: bool, x: seq<Digit>, y: seq<Digit>, c: int)
    requires |x| == |y| && 0 <= c <= 1
    ensures var r := Cols(sub, x, y, c);
      && (sub ==> Dec(x) - Dec(y) - c == Dec(r.0) - Pow(10, |x|) * r.1)
      && (!sub ==> Dec(x) + Dec(y) + c == Dec(r.0) + Pow(10, |x|) * r.1)
  {
    if |x| == 0 {
      assert Pow(10, 0) * c == c;
    } else {
      var n := |x| - 1;
      var s := Column(sub, x[n] as int - 48, y[n] as int - 48, c);
      ColsValue(sub, x[..n], y[..n], CarryOf(s));
      var r := Cols(sub, x[..n], y[..n], CarryOf(s));
      assert Cols(sub, x, y, c) == (r.0 + [48 + DigitOf(s)], r.1);
      hide Cols, Be, Pow;
      BeLast(x, 10, 48);
      BeLast(y, 10, 48);
      BeSnoc(r.0, 48 + DigitOf(s), 10, 48);
      PowStep(10, n);
      Carried(Pow(10, n), r.1);
    }
  }

  lemma Carried(p: int, c: int)
    ensures 10 * (p * c) == 10 * p * c
  {}

  /** The low columns first, then the high ones with their carry. */
  lemma {:induction false} ColsConcat(sub: bool, x: seq<Digit>, x': seq<Digit>, y: seq<Digit>, y': seq<Digit>, c: int)
    requires |x| == |y| && |x'| == |y'| && 0 <= c <= 1
    ensures var lo := Cols(sub, x', y', c);
      var hi := Cols(sub, x, y, lo.1);
      Cols(sub, x + x', y + y', c) == (hi.0 + lo.0, hi.1)
  {
    if |x'| == 0 {
      assert x + x' == x && y + y' == y;
      assert Cols(sub, x, y, c).0 + [] == Cols(sub, x, y, c).0;
    } else {
      var n := |x'| - 1;
      var d, e, t, u := x'[n], y'[n], x'[..n], y'[..n];
      assert x' == t + [d] && y' == u + [e];
      var s := Column(sub, d as int - 48, e as int - 48, c);
      hide Cols, Column, CarryOf, DigitOf;
      assert x + x' == (x + t) + [d] && y + y' == (y + u) + [e];
      ColsSnoc(sub, x + t, y + u, d, e, c);
      ColsSnoc(sub, t, u, d, e, c);
      ColsConcat(sub, x, t, y, u, CarryOf(s));
      var lo := Cols(sub, t, u, CarryOf(s));
      var hi := Cols(sub, x, y, lo.1);
      assert (hi.0 + lo.0) + [48 + DigitOf(s)] == hi.0 + (lo.0 + [48 + DigitOf(s)]);
    }
  }

  function Nines(n: nat): (s: seq<Digit>)
    ensures |s| == n
  {
    seq(n, i => 57)
  }

  /** Columns of nine plus zero hand a carry on; columns of zero less zero hand a borrow on. */
  lemma {:induction false} CarryPasses(sub: bool, n: nat, c: int)
    requires 0 <= c <= 1
    ensures Cols(sub, if sub then Zeros(n) else Nines(n), Zeros(n), c).1 == c
  {
    if n > 0 {
      assert Nines(n)[..n - 1] == Nines(n - 1) && Zeros(n)[..n - 1] == Zeros(n - 1);
      CarryPasses(sub, n - 1, c);
    }
  }

  /** Zeros without a carry change nothing. */
  lemma {:induction false} NoCarry(sub: bool, x: seq<Digit>)
    ensures Cols(sub, x, Zeros(|x|), 0) == (x, 0)
  {
    if |x| > 0 {
      var n := |x| - 1;
      NoCarry(sub, x[..n]);
      assert x == x[..n] + [x[n]] && Zeros(|x|) == Zeros(n) + [48];
      ColsSnoc(sub, x[..n], Zeros(n), x[n], 48, 0);
    }
  }
}
