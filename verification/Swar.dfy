/**
 * Decimal addition and subtraction of ASCII digit strings a machine word at a time: bytes are
 * biased so that a decimal carry is a binary byte carry.  Words are big-endian: the first digit
 * is the most significant byte.
 */
module Swar {
  import opened Numerals
  import opened Words
  import opened Columns
  import opened Wrappers
  import opened Buffers

  const BIAS: int := 0xF6F6_F6F6_F6F6_F6F6
  const LOW_BITS: int := 0x0101_0101_0101_0101
  const K: int := BIAS - 2 * ASCII0

  function Word(s: seq<int>): int { Be(s, 256, 0) }

  /** The byte `c` in each of `n` places. */
  function Splat(c: int, n: nat): int {
    if n == 0 then 0 else Splat(c, n - 1) * 256 + c
  }

  /** The constants of a word: how many values it has, and the bias, low bits and zeros in every byte. */
  datatype Lanes = Lanes(size: int, bias: int, ones: int, ascii: int)

  /** What they are in a word of `n` bytes. */
  function LanesOf(n: nat): Lanes { Lanes(Pow(256, n), Splat(150, n), Splat(1, n), Splat(48, n)) }

  const EIGHT: Lanes := Lanes(WORD, K, LOW_BITS, ASCII0)

  /** The eight-byte constants doubled. */
  const SIXTEEN: Lanes :=
    Lanes(WORD * WORD, Or(K * WORD, K), Or(LOW_BITS * WORD, LOW_BITS), Or(ASCII0 * WORD, ASCII0))

  lemma LanesAre()
    ensures EIGHT == LanesOf(8) && SIXTEEN == LanesOf(16)
  {
    SplatConstants();
    hide Splat, Pow, Or;
    PowAdd(256, 8, 8);
    Doubled(1, LOW_BITS);
    Doubled(48, ASCII0);
    Doubled(150, K);
  }

  lemma Doubled(c: int, w: int)
    requires w == Splat(c, 8) && 0 <= w < WORD
    ensures Or(w * WORD, w) == Splat(c, 16)
  {
    SplatConstants();
    hide Splat, Pow, Or;
    SplatDouble(c, 8, 8);
    OrDisjoint(w, w, 64);
  }

  lemma SplatConstants()
    ensures Splat(1, 8) == LOW_BITS && Splat(48, 8) == ASCII0 && Splat(150, 8) == K
    ensures Splat(57, 8) == 0x3939_3939_3939_3939
    ensures Pow(256, 8) == WORD == Pow(2, 64) && Pow(2, 8) == 256
  {
    PowEight();
    PowAdd(2, 8, 8);
    PowAdd(2, 16, 16);
    PowAdd(2, 32, 32);
    PowMul(2, 8, 8);
  }

  lemma PowEight()
    ensures Pow(2, 8) == 256
  {}

  lemma {:induction false} SplatWord(c: int, s: seq<int>)
    requires forall i :: 0 <= i < |s| ==> s[i] == c
    ensures Word(s) == Splat(c, |s|)
  {
    if |s| > 0 {
      SplatWord(c, s[..|s| - 1]);
    }
  }

  lemma {:induction false} SplatDouble(c: int, m: nat, n: nat)
    ensures Splat(c, m + n) == Splat(c, m) * Pow(256, n) + Splat(c, n)
  {
    hide Splat, Pow;
    if n == 0 {
      SplatStep(c, 0);
      PowStep(256, 0);
    } else {
      SplatDouble(c, m, n - 1);
      SplatStep(c, m + n - 1);
      SplatStep(c, n - 1);
      PowStep(256, n - 1);
      NextPlace(Splat(c, m), Pow(256, n - 1), Splat(c, n - 1), c);
    }
  }

  lemma SplatStep(c: int, n: nat)
    ensures Splat(c, 0) == 0 && Splat(c, n + 1) == Splat(c, n) * 256 + c
  {}

  lemma NextPlace(x: int, p: int, y: int, c: int)
    ensures (x * p + y) * 256 + c == x * (256 * p) + (y * 256 + c)
  {
    assert x * p * 256 == x * (p * 256);
  }

  // ----- one word

  /** A word of digits (bytes 0 to 9, or 246 to 255 where a byte did not carry or did borrow) back to ASCII. */
  function SwarFix(w: int, l: Lanes): int {
    (w - And(w / 128, l.ones) * 246) + l.ascii
  }

  function AddWord(a: int, b: int, carry: int, l: Lanes): (int, int) {
    var t := a + l.bias + b;
    var w := if t >= l.size then t - l.size else t;
    var t' := w + carry;
    var w' := if t' >= l.size then t' - l.size else t';
    (SwarFix(w', l), if t >= l.size || t' >= l.size then 1 else 0)
  }

  function SubWord(a: int, b: int, borrow: int, l: Lanes): (int, int) {
    var t := a - b;
    var w := if t < 0 then t + l.size else t;
    var t' := w - borrow;
    var w' := if t' < 0 then t' + l.size else t';
    (SwarFix(w', l), if t < 0 || t' < 0 then 1 else 0)
  }

  /** The bytes between the binary operation and the fix. */
  ghost function Raw(sub: bool, x: seq<Digit>, y: seq<Digit>, c: int): (w: seq<byte>)
    requires |x| == |y| && 0 <= c <= 1
    ensures |w| == |x|
  {
    if |x| == 0 then [] else
      var n := |x| - 1;
      var s := Column(sub, x[n] as int - 48, y[n] as int - 48, c);
      Raw(sub, x[..n], y[..n], CarryOf(s)) + [DigitOf(s) + if sub == (CarryOf(s) == 1) then 246 else 0]
  }

  lemma {:induction false} RawValue(sub: bool, x: seq<Digit>, y: seq<Digit>, c: int)
    requires |x| == |y| && 0 <= c <= 1
    ensures var out := Pow(256, |x|) * Cols(sub, x, y, c).1;
      && (sub ==> Word(x) - Word(y) - c == Word(Raw(sub, x, y, c)) - out)
      && (!sub ==> Word(x) + Splat(150, |x|) + Word(y) + c == Word(Raw(sub, x, y, c)) + out)
  {
    if |x| == 0 {
      assert Pow(256, 0) * c == c;
    } else {
      var n := |x| - 1;
      var s := Column(sub, x[n] as int - 48, y[n] as int - 48, c);
      RawValue(sub, x[..n], y[..n], CarryOf(s));
      var w := Raw(sub, x[..n], y[..n], CarryOf(s));
      var z := DigitOf(s) + if sub == (CarryOf(s) == 1) then 246 else 0;
      assert Raw(sub, x, y, c) == w + [z];
      var c' := Cols(sub, x[..n], y[..n], CarryOf(s)).1;
      assert Cols(sub, x, y, c).1 == c' && Splat(150, |x|) == Splat(150, n) * 256 + 150;
      hide Cols, Be, Pow, Raw, Splat;
      BeLast(x, 256, 0);
      BeLast(y, 256, 0);
      BeSnoc(w, z, 256, 0);
      PowStep(256, n);
      Scaled(Pow(256, n), c');
    }
  }

  lemma Scaled(p: int, c: int)
    ensures 256 * (p * c) == 256 * p * c
  {}

  lemma HighBit(hi: nat, ones: nat, w: byte)
    ensures And((hi * 256 + w) / 128, ones * 256 + 1) == And(hi / 128, ones) * 256 + w / 128
  {
    hide And;
    var low := 2 * (hi % 128) + w / 128;
    DivModUnique(hi * 256 + w, 128, low + 256 * (hi / 128), w % 128);
    assert Pow(2, 8) == 256;
    AndSplit(low, hi / 128, 1, ones, 8);
    assert Pow(2, 1) == 2;
    AndLowOnes(low, 1);
  }

  lemma SplatNonneg(c: nat, n: nat)
    ensures 0 <= Splat(c, n)
  {}

  lemma FixStep(hi: nat, n: nat, z: byte, d: int)
    requires 0 <= d < 10 && (z == d || z == d + 246)
    ensures SwarFix(hi * 256 + z, LanesOf(n + 1)) == SwarFix(hi, LanesOf(n)) * 256 + (d + 48)
  {
    hide And, Splat, Pow;
    SplatStep(1, n);
    SplatStep(48, n);
    SplatNonneg(1, n);
    HighBit(hi, Splat(1, n), z);
  }

  lemma FixNothing()
    ensures SwarFix(0, LanesOf(0)) == 0
  {
    AndZero(0);
  }

  lemma WordSnoc(w: seq<int>, z: int)
    ensures Word(w + [z]) == Word(w) * 256 + z
  {
    BeSnoc(w, z, 256, 0);
  }

  lemma WordBound(s: seq<byte>)
    ensures 0 <= Word(s) < Pow(256, |s|)
  {
    BeBound(s, 256, 0);
  }

  /** The last column: its raw byte is the digit, lifted by 246 or not. */
  lemma RawLast(sub: bool, x: seq<Digit>, y: seq<Digit>, c: int) returns (c': int, z: byte, d: int)
    requires |x| == |y| > 0 && 0 <= c <= 1
    ensures 0 <= c' <= 1 && 0 <= d < 10 && (z == d || z == d + 246)
    ensures Raw(sub, x, y, c) == Raw(sub, x[..|x| - 1], y[..|x| - 1], c') + [z]
    ensures Cols(sub, x, y, c).0 == Cols(sub, x[..|x| - 1], y[..|x| - 1], c').0 + [d + 48]
  {
    var s := Column(sub, x[|x| - 1] as int - 48, y[|x| - 1] as int - 48, c);
    c', d := CarryOf(s), DigitOf(s);
    z := d + if sub == (c' == 1) then 246 else 0;
  }

  lemma {:induction false} RawFix(sub: bool, x: seq<Digit>, y: seq<Digit>, c: int)
    requires |x| == |y| && 0 <= c <= 1
    ensures SwarFix(Word(Raw(sub, x, y, c)), LanesOf(|x|)) == Word(Cols(sub, x, y, c).0)
  {
    if |x| == 0 {
      hide And, SwarFix, Splat, Pow;
      assert Raw(sub, x, y, c) == [] && Cols(sub, x, y, c).0 == [];
      FixNothing();
    } else {
      hide *;
      var n := |x| - 1;
      var c', z, d := RawLast(sub, x, y, c);
      RawFix(sub, x[..n], y[..n], c');
      WordBound(Raw(sub, x[..n], y[..n], c'));
      WordSnoc(Raw(sub, x[..n], y[..n], c'), z);
      WordSnoc(Cols(sub, x[..n], y[..n], c').0, d + 48);
      FixStep(Word(Raw(sub, x[..n], y[..n], c')), n, z, d);
    }
  }

  /** A word step is column arithmetic on its digits. */
  lemma AddWordCols(x: seq<Digit>, y: seq<Digit>, c: int)
    requires |x| == |y| && 0 <= c <= 1
    ensures var r := Cols(false, x, y, c);
      AddWord(Word(x), Word(y), c, LanesOf(|x|)) == (Word(r.0), r.1)
    ensures 0 <= Word(x) + Splat(150, |x|) < Pow(256, |x|)
  {
    hide Cols, Be, Pow, Raw, Splat, SwarFix;
    RawValue(false, x, y, c);
    WordBound(Raw(false, x, y, c));
    RawFix(false, x, y, c);
    BeBound(y, 256, 0);
    BiasedFits(x);
    assert Pow(256, |x|) * 0 == 0 && Pow(256, |x|) * 1 == Pow(256, |x|);
  }

  /** Adding the bias to a word of digits does not overflow. */
  lemma {:induction false} BiasedFits(x: seq<Digit>)
    ensures 0 <= Word(x) && 0 <= Word(x) + Splat(150, |x|) < Pow(256, |x|)
  {
    if |x| > 0 {
      BiasedFits(x[..|x| - 1]);
    }
  }

  lemma SubWordCols(x: seq<Digit>, y: seq<Digit>, c: int)
    requires |x| == |y| && 0 <= c <= 1
    ensures var r := Cols(true, x, y, c);
      SubWord(Word(x), Word(y), c, LanesOf(|x|)) == (Word(r.0), r.1)
  {
    hide Cols, Be, Pow, Raw, Splat, SwarFix;
    RawValue(true, x, y, c);
    WordBound(Raw(true, x, y, c));
    RawFix(true, x, y, c);
    BeBound(x, 256, 0);
    BeBound(y, 256, 0);
    assert Pow(256, |x|) * 0 == 0 && Pow(256, |x|) * 1 == Pow(256, |x|);
  }

  // ----- whole strings, from the last digit to the first

  /** More columns to the left of finished ones. */
  lemma Extend(sub: bool, x: seq<Digit>, y: seq<Digit>, c: int, i: nat, j: nat)
    requires |x| == |y| && 0 <= c <= 1 && i <= j <= |x|
    ensures var low := Cols(sub, x[j..], y[j..], c);
      var r := Cols(sub, x[i..j], y[i..j], low.1);
      Cols(sub, x[i..], y[i..], c) == (r.0 + low.0, r.1)
  {
    assert x[i..] == x[i..j] + x[j..] && y[i..] == y[i..j] + y[j..];
    ColsConcat(sub, x[i..j], x[j..], y[i..j], y[j..], c);
  }

  /** Sixteen digits as one word, from two eight-byte loads. */
  lemma DoubleWord(s: seq<Digit>)
    requires |s| == 16
    ensures 0 <= Word(s[..8]) && 0 <= Word(s[8..]) && Or(Word(s[..8]) * WORD, Word(s[8..])) == Word(s)
  {
    hide Be, Pow, And, Or;
    SplatConstants();
    BeSplit(s, 8, 256, 0);
    WordBound(s[..8]);
    WordBound(s[8..]);
    PowMul(2, 8, 8);
    OrDisjoint(Word(s[8..]), Word(s[..8]), 64);
  }

  /** Storing the two halves of a sixteen-byte word stores its digits. */
  lemma DoubleStore(s: seq<byte>)
    requires |s| == 16
    ensures 0 <= Word(s) && 0 <= Word(s) / WORD && BeBytes(Word(s) / WORD, 8) + BeBytes(Word(s) % WORD, 8) == s
  {
    hide Be, Pow, BeBytes;
    SplatConstants();
    BeSplit(s, 8, 256, 0);
    WordBound(s[..8]);
    WordBound(s[8..]);
    DivModUnique(Word(s), WORD, Word(s[..8]), Word(s[8..]));
    BeBytesOf(s[..8]);
    BeBytesOf(s[8..]);
    assert s[..8] + s[8..] == s;
  }

  /** Sixteen columns at `at`. */
  method AddStep16(dst: array<byte>, at: nat, x: seq<Digit>, y: seq<Digit>, carry: int) returns (c: int)
    requires |x| == |y| == 16 && at + 16 <= dst.Length && 0 <= carry <= 1
    modifies dst
    ensures (dst[at..at + 16], c) == Cols(false, x, y, carry)
    ensures forall k :: 0 <= k < dst.Length && !(at <= k < at + 16) ==> dst[k] == old(dst[k])
  {
    hide Cols, Be, And, Or, AddWord, BeBytes, Word;
    DoubleWord(x);
    DoubleWord(y);
    var a := Or(Word(x[..8]) * WORD, Word(x[8..]));
    var b := Or(Word(y[..8]) * WORD, Word(y[8..]));
    AddWordCols(x, y, carry);
    LanesAre();
    var (res, c') := AddWord(a, b, carry, SIXTEEN);
    DoubleStore(Cols(false, x, y, carry).0);
    CopyBytes(dst, at, BeBytes(res / WORD, 8));
    ghost var first := dst[at..at + 8];
    CopyBytes(dst, at + 8, BeBytes(res % WORD, 8));
    assert dst[at..at + 16] == first + dst[at + 8..at + 16];
    c := c';
  }

  /** Eight columns at `at`. */
  method AddStep8(dst: array<byte>, at: nat, x: seq<Digit>, y: seq<Digit>, carry: int) returns (c: int)
    requires |x| == |y| == 8 && at + 8 <= dst.Length && 0 <= carry <= 1
    modifies dst
    ensures (dst[at..at + 8], c) == Cols(false, x, y, carry)
    ensures forall k :: 0 <= k < dst.Length && !(at <= k < at + 8) ==> dst[k] == old(dst[k])
  {
    hide *;
    AddWordCols(x, y, carry);
    LanesAre();
    var (res, c') := AddWord(Word(x), Word(y), carry, EIGHT);
    BeBytesOf(Cols(false, x, y, carry).0);
    WordIs(Cols(false, x, y, carry).0);
    CopyBytes(dst, at, BeBytes(res, 8));
    c := c';
  }

  lemma WordIs(s: seq<byte>)
    ensures Word(s) == Be(s, 256, 0)
  {}

  /** The mask of a word's first `r` bytes. */
  function Head(r: nat): int
    requires r <= 8
  {
    WORD - Pow(2, 8 * (8 - r))
  }

  /** A word cut behind its first `r` bytes. */
  lemma WordHead(s: seq<byte>, r: nat)
    requires |s| == 8 && r <= 8
    ensures var p := Pow(2, 8 * (8 - r));
      && 0 < p && 0 <= Word(s) && Word(s) == Word(s[..r]) * p + Word(s[r..])
      && 0 <= Word(s[..r]) && 0 <= Word(s[r..]) < p
      && And(Word(s), Head(r)) == Word(s[..r]) * p && And(Word(s), WORD - 1 - Head(r)) == Word(s[r..])
  {
    hide Be, And, Pow;
    SplatConstants();
    var k := 8 * (8 - r);
    PowMul(2, 8, 8 - r);
    WordBound(s);
    WordBound(s[..r]);
    WordBound(s[r..]);
    BeSplit(s, r, 256, 0);
    AndHighOnes(Word(s), k, 64);
    AndLowOnes(Word(s), k);
    DivModUnique(Word(s), Pow(2, k), Word(s[..r]), Word(s[r..]));
  }

  /** Taking the head of one word and the rest of another. */
  lemma Merge(s: seq<byte>, t: seq<byte>, r: nat)
    requires |s| == |t| == 8 && r <= 8
    ensures 0 <= Word(s) && 0 <= Word(t)
    ensures Or(And(Word(s), Head(r)), And(Word(t), WORD - 1 - Head(r))) == Word(s[..r] + t[r..])
  {
    hide Be, And, Or, Pow, Head, Splat;
    var k := 8 * (8 - r);
    SplatConstants();
    PowMul(2, 8, 8 - r);
    WordHead(s, r);
    WordHead(t, r);
    BeConcat(s[..r], t[r..], 256, 0);
    OrDisjoint(Word(t[r..]), Word(s[..r]), k);
  }

  /**
   * The leading `r` digits of a string of eight or more, as one word over its first eight bytes;
   * the other bytes, already done, only pass the carry on and are written back as they were.
   */
  method AddHead(dst: array<byte>, lo: nat, x: seq<Digit>, y: seq<Digit>, r: nat, carry: int) returns (c: int)
    requires |x| == |y| == 8 && lo + 8 <= dst.Length && 0 < r < 8 && 0 <= carry <= 1
    modifies dst
    ensures (dst[lo..lo + r], c) == Cols(false, x[..r], y[..r], carry)
    ensures forall k :: 0 <= k < dst.Length && !(lo <= k < lo + r) ==> dst[k] == old(dst[k])
  {
    hide And, Or, Be, Pow, Cols, AddWord, BeBytes, Head, Splat;
    SplatConstants();
    ghost var nines, zeros := Nines(8), Zeros(8);
    SplatWord(57, nines);
    SplatWord(48, zeros);
    Merge(x, nines, r);
    Merge(y, zeros, r);
    var a := Or(And(Word(x), Head(r)), And(0x3939_3939_3939_3939, WORD - 1 - Head(r)));
    var b := Or(And(Word(y), Head(r)), And(ASCII0, WORD - 1 - Head(r)));
    ghost var xa, yb: seq<Digit> := x[..r] + nines[r..], y[..r] + zeros[r..];
    AddWordCols(xa, yb, carry);
    LanesAre();
    var (res, c') := AddWord(a, b, carry, EIGHT);
    HeadColumns(false, x[..r], y[..r], carry);
    assert nines[r..] == Nines(8 - r) && zeros[r..] == Zeros(8 - r);
    ghost var sum: seq<byte> := Cols(false, xa, yb, carry).0;
    ghost var was := dst[lo..lo + 8];
    Merge(sum, was, r);
    var old' := Word(dst[lo..lo + 8]);
    var out := Or(And(res, Head(r)), And(old', WORD - 1 - Head(r)));
    BeBytesOf(sum[..r] + was[r..]);
    CopyBytes(dst, lo, BeBytes(out, 8));
    assert dst[lo..lo + 8] == sum[..r] + was[r..];
    HeadWritten(dst, lo, r, sum, was);
    c := c';
  }

  /** Storing a merged word writes the head and leaves the bytes behind it as they were. */
  lemma HeadWritten(dst: array<byte>, lo: nat, r: nat, head: seq<byte>, was: seq<byte>)
    requires |head| == |was| == 8 && r <= 8 && lo + 8 <= dst.Length
    requires dst[lo..lo + 8] == head[..r] + was[r..]
    ensures dst[lo..lo + r] == head[..r]
    ensures forall k :: lo + r <= k < lo + 8 ==> dst[k] == was[k - lo]
  {
    var word := dst[lo..lo + 8];
    assert forall k :: 0 <= k < 8 ==> dst[lo + k] == word[k];
    assert dst[lo..lo + r] == word[..r];
  }

  /** Below the head, nine-plus-zero columns carry on what came in (zero-less-zero when subtracting). */
  lemma HeadColumns(sub: bool, x: seq<Digit>, y: seq<Digit>, c: int)
    requires |x| == |y| <= 8 && 0 <= c <= 1
    ensures var k := 8 - |x|;
      var fill := if sub then Zeros(k) else Nines(k);
      var w := Cols(sub, x + fill, y + Zeros(k), c);
      && |w.0| == 8 && (w.0[..|x|], w.1) == Cols(sub, x, y, c)
  {
    hide Cols;
    var k := 8 - |x|;
    CarryPasses(sub, k, c);
    ColsConcat(sub, x, if sub then Zeros(k) else Nines(k), y, Zeros(k), c);
  }

  /** What has been done when the columns `i..` are finished. */
  ghost predicate Finished(sub: bool, dst: array<byte>, lo: nat, hi: nat, x: seq<Digit>, y: seq<Digit>, carry: int,
    i: nat, c: int)
    requires lo <= hi <= dst.Length && |x| == |y| == hi - lo && 0 <= carry <= 1 && i <= |x|
    reads dst
  {
    0 <= c <= 1 && (dst[lo + i..hi], c) == Cols(sub, x[i..], y[i..], carry)
  }

  lemma NothingDone(sub: bool, dst: array<byte>, lo: nat, hi: nat, x: seq<Digit>, y: seq<Digit>, carry: int)
    requires lo <= hi <= dst.Length && |x| == |y| == hi - lo && 0 <= carry <= 1
    ensures Finished(sub, dst, lo, hi, x, y, carry, |x|, carry)
  {
    ColsNil(sub, carry);
    assert x[|x|..] == [] && y[|y|..] == [] && dst[hi..hi] == [];
  }

  lemma FinishedIs(sub: bool, dst: array<byte>, lo: nat, hi: nat, x: seq<Digit>, y: seq<Digit>, carry: int, i: nat,
    c: int)
    requires lo <= hi <= dst.Length && |x| == |y| == hi - lo && 0 <= carry <= 1 && i <= |x|
    requires Finished(sub, dst, lo, hi, x, y, carry, i, c)
    ensures 0 <= c <= 1 && (dst[lo + i..hi], c) == Cols(sub, x[i..], y[i..], carry)
  {}

  /** `k` more columns on the left. */
  lemma MoreDone(sub: bool, dst: array<byte>, lo: nat, hi: nat, x: seq<Digit>, y: seq<Digit>, carry: int, i: nat,
    k: nat, low: seq<byte>, c: int, c': int)
    requires lo <= hi <= dst.Length && |x| == |y| == hi - lo && 0 <= carry <= 1 && i + k <= |x|
    requires 0 <= c <= 1 && (low, c) == Cols(sub, x[i + k..], y[i + k..], carry)
    requires forall l :: 0 <= l < |low| ==> dst[lo + i + k + l] == low[l]
    requires (dst[lo + i..lo + i + k], c') == Cols(sub, x[i..i + k], y[i..i + k], c)
    ensures Finished(sub, dst, lo, hi, x, y, carry, i, c')
  {
    hide Cols;
    Extend(sub, x, y, carry, i, i + k);
    assert dst[lo + i..hi] == dst[lo + i..lo + i + k] + low;
  }

  /** Whole words of `w` digits, sixteen or eight, from the right; stops with fewer than `w` digits left. */
  method AddLoop(w: nat, dst: array<byte>, lo: nat, hi: nat, x: seq<Digit>, y: seq<Digit>, ghost carry: int,
    start: nat, c0: int)
      returns (i: nat, c: int)
    requires w == 16 || w == 8
    requires lo <= hi <= dst.Length && |x| == |y| == hi - lo && 0 <= carry <= 1 && start <= |x|
    requires Finished(false, dst, lo, hi, x, y, carry, start, c0)
    modifies dst
    ensures i == start % w && Finished(false, dst, lo, hi, x, y, carry, i, c)
    ensures forall k :: 0 <= k < dst.Length && !(lo <= k < hi) ==> dst[k] == old(dst[k])
  {
    hide Cols, Finished;
    i, c := start, c0;
    while i >= w
      invariant i <= start && i % w == start % w
      invariant Finished(false, dst, lo, hi, x, y, carry, i, c)
      invariant forall k :: 0 <= k < dst.Length && !(lo <= k < hi) ==> dst[k] == old(dst[k])
    {
      ModStep(i, w);
      FinishedIs(false, dst, lo, hi, x, y, carry, i, c);
      i := i - w;
      ghost var low, c1 := dst[lo + i + w..hi], c;
      if w == 16 {
        c := AddStep16(dst, lo + i, x[i..i + 16], y[i..i + 16], c);
      } else {
        c := AddStep8(dst, lo + i, x[i..i + 8], y[i..i + 8], c);
      }
      MoreDone(false, dst, lo, hi, x, y, carry, i, w, low, c1, c);
    }
    ModStep(i, w);
  }

  lemma ModStep(i: nat, w: nat)
    requires w == 16 || w == 8
    ensures i >= w ==> (i - w) % w == i % w
    ensures i < w ==> i % w == i
  {}

  /** `dst[lo..hi] = x + y + carry` over equally long digit strings; returns the carry out. */
  method SwarAdd(dst: array<byte>, lo: nat, hi: nat, x: seq<Digit>, y: seq<Digit>, carry: int) returns (c: int)
    requires lo <= hi <= dst.Length && |x| == |y| == hi - lo && 0 <= carry <= 1
    modifies dst
    ensures (dst[lo..hi], c) == Cols(false, x, y, carry)
    ensures forall k :: 0 <= k < dst.Length && !(lo <= k < hi) ==> dst[k] == old(dst[k])
  {
    hide Cols, Finished;
    var n := hi - lo;
    var i;
    NothingDone(false, dst, lo, hi, x, y, carry);
    i, c := AddLoop(16, dst, lo, hi, x, y, carry, n, carry);
    i, c := AddLoop(8, dst, lo, hi, x, y, carry, i, c);
    c := AddTop(dst, lo, hi, x, y, carry, c);
    AllDone(false, dst, lo, hi, x, y, carry, c);
  }

  /** The leading digits, fewer than eight of them. */
  method AddTop(dst: array<byte>, lo: nat, hi: nat, x: seq<Digit>, y: seq<Digit>, ghost carry: int, c0: int)
    returns (c: int)
    requires lo <= hi <= dst.Length && |x| == |y| == hi - lo && 0 <= carry <= 1
    requires Finished(false, dst, lo, hi, x, y, carry, (hi - lo) % 8, c0)
    modifies dst
    ensures Finished(false, dst, lo, hi, x, y, carry, 0, c)
    ensures forall k :: 0 <= k < dst.Length && !(lo <= k < hi) ==> dst[k] == old(dst[k])
  {
    hide Cols, Finished;
    var n := hi - lo;
    var r := n % 8;
    FinishedIs(false, dst, lo, hi, x, y, carry, r, c0);
    ghost var low := dst[lo + r..hi];
    if r > 0 && n >= 8 {
      assert x[..8][..r] == x[0..r] && y[..8][..r] == y[0..r];
      c := AddHead(dst, lo, x[..8], y[..8], r, c0);
    } else {
      c := ColumnLoop(false, dst, lo, x[0..r], y[0..r], c0);
    }
    MoreDone(false, dst, lo, hi, x, y, carry, 0, r, low, c0, c);
  }

  lemma AllDone(sub: bool, dst: array<byte>, lo: nat, hi: nat, x: seq<Digit>, y: seq<Digit>, carry: int, c: int)
    requires lo <= hi <= dst.Length && |x| == |y| == hi - lo && 0 <= carry <= 1
    requires Finished(sub, dst, lo, hi, x, y, carry, 0, c)
    ensures (dst[lo..hi], c) == Cols(sub, x, y, carry)
  {
    hide Cols;
    assert x[0..] == x && y[0..] == y;
  }

  // ----- subtraction

  /** The minuend of a subtraction: a digit string, or zeros when there is none. */
  function Minuend(x: Option<seq<Digit>>, n: nat): (m: seq<Digit>)
    requires x.Some? ==> |x.value| == n
    ensures |m| == n
  {
    match x
    case Some(s) => s
    case None => Zeros(n)
  }

  /** Eight columns at `at`; without a minuend the subtrahend is taken from zero. */
  method SubStep8(dst: array<byte>, at: nat, x: Option<seq<Digit>>, y: seq<Digit>, borrow: int) returns (b: int)
    requires |y| == 8 && (x.Some? ==> |x.value| == 8) && at + 8 <= dst.Length && 0 <= borrow <= 1
    modifies dst
    ensures (dst[at..at + 8], b) == Cols(true, Minuend(x, 8), y, borrow)
    ensures forall k :: 0 <= k < dst.Length && !(at <= k < at + 8) ==> dst[k] == old(dst[k])
  {
    hide Cols, Be, SwarFix, BeBytes, Zeros, Pow;
    ghost var xs := Minuend(x, 8);
    SubWordCols(xs, y, borrow);
    SplatConstants();
    LanesAre();
    SplatWord(48, Zeros(8));
    var (res, b') := match x
      case Some(s) => SubWord(Word(s), Word(y), borrow, EIGHT)
      case None => SubWord(0, Word(y) - ASCII0, borrow, EIGHT);
    BeBytesOf(Cols(true, xs, y, borrow).0);
    CopyBytes(dst, at, BeBytes(res, 8));
    b := b';
  }

  /** The leading `r` digits as one word; the other bytes become zero less zero, which hands a borrow on. */
  method SubHead(dst: array<byte>, lo: nat, x: Option<seq<Digit>>, y: seq<Digit>, r: nat, borrow: int) returns (b: int)
    requires |y| == 8 && (x.Some? ==> |x.value| == 8) && lo + 8 <= dst.Length && 0 < r < 8 && 0 <= borrow <= 1
    modifies dst
    ensures (dst[lo..lo + r], b) == Cols(true, Minuend(x, 8)[..r], y[..r], borrow)
    ensures forall k :: 0 <= k < dst.Length && !(lo <= k < lo + r) ==> dst[k] == old(dst[k])
  {
    hide And, Or, Be, Pow, Cols, SubWord, BeBytes, Head, Splat;
    SplatConstants();
    ghost var zeros, xs := Zeros(8), Minuend(x, 8);
    SplatWord(48, zeros);
    Merge(xs, zeros, r);
    Merge(y, zeros, r);
    var a := match x
      case Some(s) => Or(And(Word(s), Head(r)), And(ASCII0, WORD - 1 - Head(r)))
      case None => ASCII0;
    var s := Or(And(Word(y), Head(r)), And(ASCII0, WORD - 1 - Head(r)));
    ghost var xa, yb: seq<Digit> := xs[..r] + zeros[r..], y[..r] + zeros[r..];
    assert x.None? ==> xa == zeros;
    SubWordCols(xa, yb, borrow);
    LanesAre();
    var (res, b') := SubWord(a, s, borrow, EIGHT);
    HeadColumns(true, xs[..r], y[..r], borrow);
    assert zeros[r..] == Zeros(8 - r);
    ghost var diff: seq<byte> := Cols(true, xa, yb, borrow).0;
    ghost var was := dst[lo..lo + 8];
    Merge(diff, was, r);
    var old' := Word(dst[lo..lo + 8]);
    var out := Or(And(res, Head(r)), And(old', WORD - 1 - Head(r)));
    BeBytesOf(diff[..r] + was[r..]);
    CopyBytes(dst, lo, BeBytes(out, 8));
    assert dst[lo..lo + 8] == diff[..r] + was[r..];
    HeadWritten(dst, lo, r, diff, was);
    b := b';
  }

  function SliceOf(x: Option<seq<Digit>>, i: nat, j: nat): (s: Option<seq<Digit>>)
    requires i <= j && (x.Some? ==> j <= |x.value|)
    ensures s.Some? ==> |s.value| == j - i
  {
    match x
    case Some(s) => Some(s[i..j])
    case None => None
  }

  /** `dst[lo..hi] = x - y - borrow` (no `x`: zeros); returns the borrow out. */
  method SwarSub(dst: array<byte>, lo: nat, hi: nat, x: Option<seq<Digit>>, y: seq<Digit>, borrow: int) returns (b: int)
    requires lo <= hi <= dst.Length && |y| == hi - lo && (x.Some? ==> |x.value| == hi - lo) && 0 <= borrow <= 1
    modifies dst
    ensures (dst[lo..hi], b) == Cols(true, Minuend(x, hi - lo), y, borrow)
    ensures forall k :: 0 <= k < dst.Length && !(lo <= k < hi) ==> dst[k] == old(dst[k])
  {
    hide *;
    var i := hi - lo;
    b := borrow;
    NothingDone(true, dst, lo, hi, Minuend(x, hi - lo), y, borrow);
    while i >= 8
      invariant 0 <= i <= hi - lo && i % 8 == (hi - lo) % 8
      invariant Finished(true, dst, lo, hi, Minuend(x, hi - lo), y, borrow, i, b)
      invariant forall k :: 0 <= k < dst.Length && !(lo <= k < hi) ==> dst[k] == old(dst[k])
    {
      ModStep(i, 8);
      i := i - 8;
      b := SubStep(dst, lo, hi, x, y, borrow, i, b);
    }
    ModStep(i, 8);
    b := SubTop(dst, lo, hi, x, y, borrow, b);
    AllDone(true, dst, lo, hi, Minuend(x, hi - lo), y, borrow, b);
  }

  /** The eight columns from `i` on. */
  method SubStep(dst: array<byte>, lo: nat, hi: nat, x: Option<seq<Digit>>, y: seq<Digit>, ghost borrow: int, i: nat,
    b0: int)
    returns (b: int)
    requires lo <= hi <= dst.Length && |y| == hi - lo && (x.Some? ==> |x.value| == hi - lo) && 0 <= borrow <= 1
      && i + 8 <= hi - lo
    requires Finished(true, dst, lo, hi, Minuend(x, hi - lo), y, borrow, i + 8, b0)
    modifies dst
    ensures Finished(true, dst, lo, hi, Minuend(x, hi - lo), y, borrow, i, b)
    ensures forall k :: 0 <= k < dst.Length && !(lo <= k < hi) ==> dst[k] == old(dst[k])
  {
    hide Cols, Zeros, Finished, Minuend;
    FinishedIs(true, dst, lo, hi, Minuend(x, hi - lo), y, borrow, i + 8, b0);
    ghost var low := dst[lo + i + 8..hi];
    MinuendSlice(x, hi - lo, i, i + 8);
    b := SubStep8(dst, lo + i, SliceOf(x, i, i + 8), y[i..i + 8], b0);
    MoreDone(true, dst, lo, hi, Minuend(x, hi - lo), y, borrow, i, 8, low, b0, b);
  }

  /** The leading digits, fewer than eight of them. */
  method SubTop(dst: array<byte>, lo: nat, hi: nat, x: Option<seq<Digit>>, y: seq<Digit>, ghost borrow: int, b0: int)
    returns (b: int)
    requires lo <= hi <= dst.Length && |y| == hi - lo && (x.Some? ==> |x.value| == hi - lo) && 0 <= borrow <= 1
    requires Finished(true, dst, lo, hi, Minuend(x, hi - lo), y, borrow, (hi - lo) % 8, b0)
    modifies dst
    ensures Finished(true, dst, lo, hi, Minuend(x, hi - lo), y, borrow, 0, b)
    ensures forall k :: 0 <= k < dst.Length && !(lo <= k < hi) ==> dst[k] == old(dst[k])
  {
    hide Cols, Zeros, Finished;
    var n := hi - lo;
    var r := n % 8;
    FinishedIs(true, dst, lo, hi, Minuend(x, n), y, borrow, r, b0);
    ghost var low := dst[lo + r..hi];
    MinuendSlice(x, n, 0, r);
    if r > 0 && n >= 8 {
      MinuendSlice(x, n, 0, 8);
      assert Minuend(x, n)[0..8][..r] == Minuend(x, n)[0..r] && y[..8][..r] == y[0..r];
      b := SubHead(dst, lo, SliceOf(x, 0, 8), y[..8], r, b0);
    } else {
      b := ColumnLoop(true, dst, lo, Minuend(SliceOf(x, 0, r), r), y[0..r], b0);
    }
    MoreDone(true, dst, lo, hi, Minuend(x, n), y, borrow, 0, r, low, b0, b);
  }

  lemma MinuendSlice(x: Option<seq<Digit>>, n: nat, i: nat, j: nat)
    requires i <= j <= n && (x.Some? ==> |x.value| == n)
    ensures Minuend(SliceOf(x, i, j), j - i) == Minuend(x, n)[i..j]
  {}

  /** One digit at a time, for the short strings. */
  method ColumnLoop(sub: bool, dst: array<byte>, lo: nat, x: seq<Digit>, y: seq<Digit>, carry: int) returns (c: int)
    requires lo + |x| <= dst.Length && |x| == |y| && 0 <= carry <= 1
    modifies dst
    ensures (dst[lo..lo + |x|], c) == Cols(sub, x, y, carry)
    ensures forall k :: 0 <= k < dst.Length && !(lo <= k < lo + |x|) ==> dst[k] == old(dst[k])
  {
    hide Cols;
    c := carry;
    var hi := lo + |x|;
    ColsNil(sub, carry);
    assert x[|x|..] == [] && y[|x|..] == [] && dst[hi..hi] == [];
    for i := |x| downto 0
      invariant 0 <= c <= 1
      invariant (dst[lo + i..hi], c) == Cols(sub, x[i..], y[i..], carry)
      invariant forall k :: 0 <= k < dst.Length && !(lo + i <= k < hi) ==> dst[k] == old(dst[k])
    {
      Extend(sub, x, y, carry, i, i + 1);
      OneColumn(sub, x[i], y[i], c);
      assert x[i..i + 1] == [x[i]] && y[i..i + 1] == [y[i]];
      ghost var low := dst[lo + i + 1..hi];
      if sub {
        var d := (x[i] as int - 48) - (y[i] as int - 48) - c;
        if d < 0 {
          d := d + 10;
          c := 1;
        } else {
          c := 0;
        }
        dst[lo + i] := d + 48;
      } else {
        var s := x[i] as int + y[i] as int - 48 + c;
        if s > 57 {
          dst[lo + i] := s - 10;
          c := 1;
        } else {
          dst[lo + i] := s;
          c := 0;
        }
      }
      assert dst[lo + i..hi] == [dst[lo + i]] + low;
    }
    assert x[0..] == x && y[0..] == y;
  }

  lemma OneColumn(sub: bool, d: Digit, e: Digit, c: int)
    requires 0 <= c <= 1
    ensures var s := Column(sub, d as int - 48, e as int - 48, c);
      Cols(sub, [d], [e], c) == ([48 + DigitOf(s)], CarryOf(s))
  {
    hide Cols;
    var s := Column(sub, d as int - 48, e as int - 48, c);
    assert [] + [d] == [d] && [] + [e] == [e];
    ColsSnoc(sub, [], [], d, e, c);
    ColsNil(sub, CarryOf(s));
    var one: seq<Digit> := [48 + DigitOf(s)];
    assert [] + one == one;
  }
}
