/** Finding the end of a run of ASCII digits eight bytes at a time. */
module Scanning {
  import opened Numerals
  import opened Words
  import Packing

  function Xor(a: int, b: int): int { a + b - 2 * And(a, b) }

  /** Zero exactly for ASCII digits: a high nibble that is not 3, or a low nibble of ten or more. */
  function BadByte(b: int): int {
    var v := Xor(b, 0x30);
    Or(And(v, 0xF0), And(And(v, 0x0F) + 0x06, 0x10))
  }

  /** The same test on all eight bytes of a little-endian word. */
  function BadWord(w: int): int {
    var v := Xor(w, 0x3030_3030_3030_3030);
    Or(And(v, 0xF0F0_F0F0_F0F0_F0F0),
       And(And(v, 0x0F0F_0F0F_0F0F_0F0F) + 0x0606_0606_0606_0606, 0x1010_1010_1010_1010))
  }

  predicate IsDigit(b: int) { 48 <= b <= 57 }

  // ----- one byte

  /** Nibbles combine separately. */
  lemma Nibbles(h: nat, l: nat, h': nat, l': nat)
    requires l < 16 && l' < 16
    ensures And(l + 16 * h, l' + 16 * h') == And(l, l') + 16 * And(h, h')
  {
    hide And;
    assert Pow(2, 4) == 16;
    AndSplit(l, h, l', h', 4);
  }

  /** Only the high nibble 3 vanishes. */
  lemma XorValue(h: nat, l: nat)
    requires h < 16 && l < 16
    ensures var x := h + 3 - 2 * (h % 4);
      0 <= x < 16 && (x == 0 <==> h == 3) && Xor(l + 16 * h, 0x30) == l + 16 * x
  {
    hide And;
    Nibbles(h, l, 3, 0);
    AndZero(l);
    assert Pow(2, 2) == 4;
    AndLowOnes(h, 2);
  }

  lemma SplitNibbles(x: nat, l: nat)
    requires x < 16 && l < 16
    ensures And(l + 16 * x, 0xF0) == 16 * x && And(l + 16 * x, 0x0F) == l
  {
    hide And;
    assert Pow(2, 4) == 16;
    hide Pow;
    Nibbles(x, l, 15, 0);
    Nibbles(x, l, 0, 15);
    AndZero(x);
    AndZero(l);
    AndLowOnes(x, 4);
    AndLowOnes(l, 4);
  }

  lemma TenOrMore(l: nat)
    requires l < 16
    ensures And(l + 6, 0x10) == if l >= 10 then 0x10 else 0
  {
    hide And;
    var y, z := (l + 6) % 16, (l + 6) / 16;
    assert l + 6 == y + 16 * z;
    Nibbles(z, y, 1, 0);
    AndZero(y);
    assert Pow(2, 1) == 2;
    AndLowOnes(z, 1);
  }

  lemma OrNibbles(x: nat, t: int)
    requires x < 16 && (t == 0 || t == 0x10)
    ensures 0 <= Or(16 * x, t) < 256 && (Or(16 * x, t) == 0 <==> x == 0 && t == 0)
  {
    hide And;
    if t == 0 {
      AndZero(16 * x);
    } else {
      Nibbles(x, 0, 1, 0);
      AndZero(0);
      assert Pow(2, 1) == 2;
      AndLowOnes(x, 1);
    }
  }

  lemma BadByteValue(b: byte)
    ensures 0 <= Xor(b, 0x30) < 256
    ensures var v := Xor(b, 0x30); 0 <= And(v, 0xF0) < 256 && 0 <= And(v, 0x0F) < 16
    ensures 0 <= BadByte(b) < 256
    ensures BadByte(b) == 0 <==> IsDigit(b)
  {
    hide And, Xor, Or;
    var h, l := b / 16, b % 16;
    assert b == l + 16 * h;
    XorValue(h, l);
    var x := h + 3 - 2 * (h % 4);
    SplitNibbles(x, l);
    TenOrMore(l);
    OrNibbles(x, if l >= 10 then 0x10 else 0);
  }

  // ----- eight bytes

  function BadBytes(s: seq<byte>): (t: seq<int>)
    ensures |t| == |s|
  {
    seq(|s|, i requires 0 <= i < |s| => BadByte(s[i]))
  }

  lemma {:induction false} LeCombine(x: seq<int>, y: seq<int>, z: seq<int>, p: int, b: int)
    requires |x| == |y| == |z| && (forall i :: 0 <= i < |x| ==> z[i] == x[i] + p * y[i])
    ensures Le(z, b) == Le(x, b) + p * Le(y, b)
  {
    if |x| > 0 {
      LeCombine(x[1..], y[1..], z[1..], p, b);
      Scaled(x[0], y[0], Le(x[1..], b), Le(y[1..], b), p, b);
    }
  }

  lemma Scaled(x: int, y: int, s: int, t: int, p: int, b: int)
    ensures x + p * y + b * (s + p * t) == x + b * s + p * (y + b * t)
  {}

  function Same(c: int): (s: seq<int>)
    ensures |s| == 8 && forall i :: 0 <= i < 8 ==> s[i] == c
  {
    [c, c, c, c, c, c, c, c]
  }

  lemma Constants()
    ensures Le(Same(0x30), 256) == 0x3030_3030_3030_3030
    ensures Le(Same(0xF0), 256) == 0xF0F0_F0F0_F0F0_F0F0
    ensures Le(Same(0x0F), 256) == 0x0F0F_0F0F_0F0F_0F0F
    ensures Le(Same(0x06), 256) == 0x0606_0606_0606_0606
    ensures Le(Same(0x10), 256) == 0x1010_1010_1010_1010
  {
    hide Le;
    Packing.Le8(Same(0x30), 256);
    Packing.Le8(Same(0xF0), 256);
    Packing.Le8(Same(0x0F), 256);
    Packing.Le8(Same(0x06), 256);
    Packing.Le8(Same(0x10), 256);
  }

  /** `&` with the same byte in every lane. */
  lemma AndSame(x: seq<int>, c: byte, z: seq<int>)
    requires |x| == |z| == 8 && InRange(x, 0, 256)
    requires forall i :: 0 <= i < 8 ==> z[i] == And(x[i], c)
    ensures And(Le(x, 256), Le(Same(c), 256)) == Le(z, 256)
  {
    hide And, Le;
    Packing.PowersOfTwo();
    AndLanes(x, Same(c), 8);
    assert AndEach(x, Same(c)) == z;
  }

  /** The word test is the byte test lane by lane. */
  lemma BadWordLanes(s: seq<byte>)
    requires |s| == 8
    ensures BadWord(Le(s, 256)) == Le(BadBytes(s), 256)
    ensures InRange(BadBytes(s), 0, 256)
    ensures forall i :: 0 <= i < 8 ==> (BadBytes(s)[i] == 0 <==> IsDigit(s[i]))
  {
    hide And, Le, Pow, Or, Xor, Same;
    Constants();
    var v := seq(8, i requires 0 <= i < 8 => Xor(s[i], 0x30));
    var h := seq(8, i requires 0 <= i < 8 => And(v[i], 0xF0));
    var l := seq(8, i requires 0 <= i < 8 => And(v[i], 0x0F));
    var l6 := seq(8, i requires 0 <= i < 8 => l[i] + 6);
    var t := seq(8, i requires 0 <= i < 8 => And(l6[i], 0x10));
    forall i | 0 <= i < 8
      ensures 0 <= v[i] < 256 && 0 <= h[i] < 256 && 0 <= l[i] < 16
      ensures 0 <= BadByte(s[i]) < 256 && (BadByte(s[i]) == 0 <==> IsDigit(s[i]))
    {
      BadByteValue(s[i]);
    }
    XorLanes(s, v);
    AndSame(v, 0xF0, h);
    AndSame(v, 0x0F, l);
    LeCombine(l, Same(6), l6, 1, 256);
    AndSame(l6, 0x10, t);
    OrOf(h, t, BadBytes(s));
  }

  lemma XorLanes(s: seq<byte>, v: seq<int>)
    requires |s| == |v| == 8 && (forall i :: 0 <= i < 8 ==> v[i] == Xor(s[i], 0x30))
    ensures Xor(Le(s, 256), Le(Same(0x30), 256)) == Le(v, 256)
  {
    hide Le, And, Same;
    var a := seq(8, i requires 0 <= i < 8 => And(s[i], 0x30));
    var sum := seq(8, i requires 0 <= i < 8 => s[i] as int + 0x30);
    AndSame(s, 0x30, a);
    LeCombine(s, Same(0x30), sum, 1, 256);
    LeCombine(sum, a, v, -2, 256);
  }

  lemma OrOf(h: seq<int>, t: seq<int>, z: seq<int>)
    requires |h| == |t| == |z| == 8 && InRange(h, 0, 256) && InRange(t, 0, 256)
    requires forall i :: 0 <= i < 8 ==> z[i] == Or(h[i], t[i])
    ensures Or(Le(h, 256), Le(t, 256)) == Le(z, 256)
  {
    hide And, Le;
    Packing.PowersOfTwo();
    AndLanes(h, t, 8);
    var sum := seq(8, i requires 0 <= i < 8 => h[i] + t[i]);
    LeCombine(h, t, sum, 1, 256);
    LeCombine(sum, AndEach(h, t), z, -1, 256);
  }

  // ----- the first bad byte

  function TrailingZeros(w: int): (k: nat)
    requires w > 0
  {
    if w % 2 == 1 then 0 else 1 + TrailingZeros(w / 2)
  }

  lemma {:induction false} TrailingOfByte(d: int, rest: int)
    requires 0 < d < 256
    ensures d + 256 * rest > 0 ==> TrailingZeros(d + 256 * rest) < 8
  {
    if d + 256 * rest > 0 {
      TrailingBelow(d, rest, 8);
    }
  }

  lemma {:induction false} TrailingBelow(d: int, rest: int, k: nat)
    requires 0 < d < Pow(2, k) && d + Pow(2, k) * rest > 0
    ensures TrailingZeros(d + Pow(2, k) * rest) < k
  {
    if k > 0 {
      PowStep(2, k - 1);
      var p := Pow(2, k - 1);
      assert 2 * p * rest == 2 * (p * rest);
      HalfOf(d, p * rest);
      if d % 2 == 0 {
        TrailingBelow(d / 2, rest, k - 1);
      }
    }
  }

  lemma TrailingShift(w: int)
    requires w > 0
    ensures TrailingZeros(256 * w) == 8 + TrailingZeros(w)
  {
    assert TrailingZeros(2 * w) == 1 + TrailingZeros(w);
    assert TrailingZeros(4 * w) == 1 + TrailingZeros(2 * w);
    assert TrailingZeros(8 * w) == 1 + TrailingZeros(4 * w);
    assert TrailingZeros(16 * w) == 1 + TrailingZeros(8 * w);
    assert TrailingZeros(32 * w) == 1 + TrailingZeros(16 * w);
    assert TrailingZeros(64 * w) == 1 + TrailingZeros(32 * w);
    assert TrailingZeros(128 * w) == 1 + TrailingZeros(64 * w);
  }

  /** The lowest set bit lies in the first lane that is not zero. */
  lemma {:induction false} FirstLane(x: seq<int>)
    requires InRange(x, 0, 256)
    ensures 0 <= Le(x, 256)
    ensures Le(x, 256) == 0 ==> forall i :: 0 <= i < |x| ==> x[i] == 0
    ensures Le(x, 256) > 0 ==> var j := TrailingZeros(Le(x, 256)) / 8;
      j < |x| && x[j] != 0 && forall i :: 0 <= i < j ==> x[i] == 0
  {
    hide TrailingZeros;
    LeBound(x, 256);
    if |x| > 0 && Le(x, 256) > 0 {
      LeBound(x[1..], 256);
      if x[0] != 0 {
        TrailingOfByte(x[0], Le(x[1..], 256));
      } else {
        FirstLane(x[1..]);
        TrailingShift(Le(x[1..], 256));
        var j := TrailingZeros(Le(x[1..], 256)) / 8;
        forall i | 0 <= i < j + 1 ensures x[i] == 0 {
          if i > 0 {
            assert x[i] == x[1..][i - 1];
          }
        }
      }
    } else if |x| > 0 {
      LeBound(x[1..], 256);
      FirstLane(x[1..]);
      assert x == [x[0]] + x[1..];
    }
  }

  /** What a scan from `i` stops at: the first byte that is not a digit, or the end. */
  predicate StopsAt(s: seq<byte>, i: nat, r: nat) {
    && i <= r <= |s|
    && (forall k :: i <= k < r ==> IsDigit(s[k]))
    && (r < |s| ==> !IsDigit(s[r]))
  }

  lemma StopsOnce(s: seq<byte>, i: nat, r: nat, r': nat)
    requires StopsAt(s, i, r) && StopsAt(s, i, r')
    ensures r == r'
  {
    assert r < |s| ==> !IsDigit(s[r]);
    assert r' < |s| ==> !IsDigit(s[r']);
  }

  function BadAt(s: seq<byte>, at: nat): int
    requires at + 8 <= |s|
  {
    BadWord(Le(s[at..at + 8], 256))
  }

  /** The first non-zero lane at or after the hidden ones is the first byte that is not a digit. */
  lemma FirstBad(s: seq<byte>, at: nat, k: nat, lanes: seq<int>)
    requires at + 8 <= |s| && k <= |lanes| == 8 && InRange(lanes, 0, 256)
    requires forall l :: 0 <= l < 8 ==> (lanes[l] == 0 <==> l < k || IsDigit(s[at + l]))
    ensures var bad := Le(lanes, 256);
      && 0 <= bad
      && (bad == 0 ==> forall l :: at + k <= l < at + 8 ==> IsDigit(s[l]))
      && (bad > 0 ==> var j := TrailingZeros(bad) / 8;
        k <= j < 8 && !IsDigit(s[at + j]) && forall l :: at + k <= l < at + j ==> IsDigit(s[l]))
  {
    hide Le, TrailingZeros, IsDigit;
    FirstLane(lanes);
    if Le(lanes, 256) == 0 {
      forall l | at + k <= l < at + 8 ensures IsDigit(s[l]) {
        assert lanes[l - at] == 0;
      }
    } else {
      var j := TrailingZeros(Le(lanes, 256)) / 8;
      forall l | at + k <= l < at + j ensures IsDigit(s[l]) {
        assert lanes[l - at] == 0;
      }
    }
  }

  lemma BadAtLanes(s: seq<byte>, at: nat)
    requires at + 8 <= |s|
    ensures var lanes := BadBytes(s[at..at + 8]);
      && BadAt(s, at) == Le(lanes, 256) && InRange(lanes, 0, 256)
      && forall l :: 0 <= l < 8 ==> (lanes[l] == 0 <==> IsDigit(s[at + l]))
  {
    hide Le, BadBytes, BadWord, IsDigit;
    BadWordLanes(s[at..at + 8]);
  }

  lemma BadAtMeans(s: seq<byte>, at: nat)
    requires at + 8 <= |s|
    ensures 0 <= BadAt(s, at)
    ensures BadAt(s, at) == 0 ==> forall k :: at <= k < at + 8 ==> IsDigit(s[k])
    ensures BadAt(s, at) > 0 ==> var j := at + TrailingZeros(BadAt(s, at)) / 8;
      at <= j < at + 8 && !IsDigit(s[j]) && forall k :: at <= k < j ==> IsDigit(s[k])
  {
    hide BadAt, BadBytes, TrailingZeros, IsDigit, Le;
    BadAtLanes(s, at);
    FirstBad(s, at, 0, BadBytes(s[at..at + 8]));
  }

  /** Clearing the low lanes hides the bytes before `i`. */
  lemma LanesFrom(x: seq<int>, k: nat)
    requires InRange(x, 0, 256) && |x| == 8 && k <= 8
    ensures var kept := Same(0)[..k] + x[k..];
      && InRange(kept, 0, 256) && 0 <= Le(x, 256)
      && And(Le(x, 256), Pow(2, 64) - Pow(2, 8 * k)) == Le(kept, 256)
  {
    hide And, Le, Pow;
    Packing.PowersOfTwo();
    PowMul(2, 8, 8);
    PowMul(2, 8, k);
    LeBound(x, 256);
    AndHighOnes(Le(x, 256), 8 * k, 64);
    LeSplit(x, k, 256);
    LeBound(x[..k], 256);
    var low, kept := Same(0)[..k], Same(0)[..k] + x[k..];
    LeConcat(low, x[k..], 256);
    LeZeros(low, 256);
    var p, q := Pow(256, k), Le(x[k..], 256);
    DropLow(Le(x, 256), p, q, Le(x[..k], 256));
  }

  lemma DropLow(v: int, p: int, q: int, low: int)
    requires 0 <= low < p && v == low + p * q
    ensures v / p * p == p * q
  {
    assert q * p == p * q;
    DivModUnique(v, p, q, low);
  }

  lemma MaskedMeans(s: seq<byte>, at: nat, i: nat)
    requires at + 8 == |s| && at <= i < |s|
    ensures var bad := And(BadAt(s, at), Pow(2, 64) - Pow(2, 8 * (i - at)));
      && 0 <= bad
      && (bad == 0 ==> StopsAt(s, i, |s|))
      && (bad > 0 ==> StopsAt(s, i, at + TrailingZeros(bad) / 8))
  {
    hide And, BadAt, BadBytes, TrailingZeros, IsDigit, Le, Pow;
    var lanes, k := BadBytes(s[at..at + 8]), i - at;
    BadAtLanes(s, at);
    LanesFrom(lanes, k);
    var kept := Same(0)[..k] + lanes[k..];
    FirstBad(s, at, k, kept);
  }

  lemma FourWords(a: int, b: int, c: int, d: int)
    requires 0 <= a && 0 <= b && 0 <= c && 0 <= d
    ensures Or(Or(Or(a, b), c), d) == 0 <==> a == 0 && b == 0 && c == 0 && d == 0
  {
    hide And, Or;
    OrZero(a, b);
    OrZero(Or(a, b), c);
    OrZero(Or(Or(a, b), c), d);
  }

  lemma OrZero(a: int, b: int)
    requires 0 <= a && 0 <= b
    ensures 0 <= Or(a, b) && (Or(a, b) == 0 <==> a == 0 && b == 0)
  {
    hide And;
    AndZero(0);
  }

  lemma ThirtyTwo(s: seq<byte>, i: nat)
    requires i + 32 <= |s|
    ensures Or(Or(Or(BadAt(s, i), BadAt(s, i + 8)), BadAt(s, i + 16)), BadAt(s, i + 24)) == 0
      ==> forall k :: i <= k < i + 32 ==> IsDigit(s[k])
  {
    hide And, Or, BadAt, TrailingZeros, IsDigit;
    BadAtMeans(s, i);
    BadAtMeans(s, i + 8);
    BadAtMeans(s, i + 16);
    BadAtMeans(s, i + 24);
    FourWords(BadAt(s, i), BadAt(s, i + 8), BadAt(s, i + 16), BadAt(s, i + 24));
  }

  /** Thirty-two bytes per check while all are digits. */
  method SkipBlocks(s: seq<byte>, start: nat) returns (i: nat)
    requires start <= |s|
    ensures start <= i <= |s| && forall k :: start <= k < i ==> IsDigit(s[k])
  {
    hide And, Or, BadAt, IsDigit;
    i := start;
    while i + 32 <= |s|
      invariant start <= i <= |s|
      invariant forall k :: start <= k < i ==> IsDigit(s[k])
    {
      var any := Or(Or(Or(BadAt(s, i), BadAt(s, i + 8)), BadAt(s, i + 16)), BadAt(s, i + 24));
      ThirtyTwo(s, i);
      if any != 0 {
        break;
      }
      i := i + 32;
    }
  }

  /** Index of the first byte at or after `start` that is not an ASCII digit. */
  method FirstNondigit(s: seq<byte>, start: nat) returns (r: nat)
    requires start <= |s|
    ensures StopsAt(s, start, r)
  {
    hide And, BadAt, TrailingZeros, Pow, IsDigit;
    var len := |s|;
    var i := SkipBlocks(s, start);
    while i + 8 <= len
      invariant start <= i <= len
      invariant forall k :: start <= k < i ==> IsDigit(s[k])
    {
      BadAtMeans(s, i);
      var bad := BadAt(s, i);
      if bad != 0 {
        return i + TrailingZeros(bad) / 8;
      }
      i := i + 8;
    }
    if i == len {
      return len;
    }
    if len >= 8 {
      var at := len - 8;
      MaskedMeans(s, at, i);
      var bad := And(BadAt(s, at), Pow(2, 64) - Pow(2, 8 * (i - at)));
      return if bad != 0 then at + TrailingZeros(bad) / 8 else len;
    }
    while i < len && IsDigit(s[i])
      invariant start <= i <= len
      invariant forall k :: start <= k < i ==> IsDigit(s[k])
    {
      i := i + 1;
    }
    return i;
  }
}
