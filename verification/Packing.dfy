/** Eight ASCII digits per base-10^8 limb: the SWAR load and store, and packing and unpacking of digit strings. */
module Packing {
  import opened Numerals
  import opened Limbs
  import opened Words

  // ----- eight digits to a value

  /** Eight ASCII digits in a little-endian word (first digit in the low byte) to their value. */
  function Parse8w(w: int): int {
    var v0 := w - ASCII0;
    var v1 := And(v0, 0x0F0F_0F0F_0F0F_0F0F) * 2561 % WORD / 0x100;
    var v2 := And(v1, 0x00FF_00FF_00FF_00FF) * 6_553_601 % WORD / 0x1_0000;
    And(v2, 0x0000_FFFF_0000_FFFF) * 42_949_672_960_001 % WORD / 0x1_0000_0000
  }

  lemma Le8(s: seq<int>, b: int)
    requires |s| == 8
    ensures Le(s, b) == s[0] + b * (s[1] + b * (s[2] + b * (s[3] + b * (s[4] + b * (s[5] + b * (s[6] + b * s[7]))))))
  {
    hide Le;
    assert s == [s[0]] + ([s[1]] + ([s[2]] + ([s[3]] + ([s[4]] + ([s[5]] + ([s[6]] + [s[7]]))))));
    LeOne(s[7], b);
    LeCons(s[6], [s[7]], b);
    LeCons(s[5], [s[6]] + [s[7]], b);
    LeCons(s[4], [s[5]] + ([s[6]] + [s[7]]), b);
    LeCons(s[3], [s[4]] + ([s[5]] + ([s[6]] + [s[7]])), b);
    LeCons(s[2], [s[3]] + ([s[4]] + ([s[5]] + ([s[6]] + [s[7]]))), b);
    LeCons(s[1], [s[2]] + ([s[3]] + ([s[4]] + ([s[5]] + ([s[6]] + [s[7]])))), b);
    LeCons(s[0], [s[1]] + ([s[2]] + ([s[3]] + ([s[4]] + ([s[5]] + ([s[6]] + [s[7]]))))), b);
  }

  lemma Le4(s: seq<int>, b: int)
    requires |s| == 4
    ensures Le(s, b) == s[0] + b * (s[1] + b * (s[2] + b * s[3]))
  {
    hide Le;
    assert s == [s[0]] + ([s[1]] + ([s[2]] + [s[3]]));
    LeOne(s[3], b);
    LeCons(s[2], [s[3]], b);
    LeCons(s[1], [s[2]] + [s[3]], b);
    LeCons(s[0], [s[1]] + ([s[2]] + [s[3]]), b);
  }

  lemma PowersOfTwo()
    ensures Pow(2, 4) == 16 && Pow(2, 8) == 256 && Pow(2, 16) == 65536 && Pow(2, 32) == 0x1_0000_0000
    ensures Pow(2, 64) == WORD
  {
    assert Pow(2, 4) == 16;
    PowAdd(2, 4, 4);
    PowAdd(2, 8, 8);
    PowAdd(2, 16, 16);
    PowAdd(2, 32, 32);
  }

  /** A mask of all-ones and all-zeros lanes keeps the lanes it covers. */
  lemma MaskLanes(x: seq<int>, m: seq<int>, k: nat, kept: seq<int>)
    requires |x| == |m| == |kept| && InRange(x, 0, Pow(2, k)) && InRange(kept, 0, Pow(2, k))
    requires forall i :: 0 <= i < |x| ==> m[i] == 0 || m[i] == Pow(2, k) - 1
    requires forall i :: 0 <= i < |x| ==> kept[i] == if m[i] == 0 then 0 else x[i]
    ensures 0 <= Le(x, Pow(2, k)) && 0 <= Le(m, Pow(2, k))
    ensures And(Le(x, Pow(2, k)), Le(m, Pow(2, k))) == Le(kept, Pow(2, k))
  {
    hide And, Pow, Le;
    PowPos(2, k);
    AndLanes(x, m, k);
    forall i | 0 <= i < |x| ensures And(x[i], m[i]) == kept[i] {
      AndZero(x[i]);
      AndLowOnes(x[i], k);
      DivModUnique(x[i], Pow(2, k), 0, x[i]);
    }
    assert AndEach(x, m) == kept;
  }

  /** Decimal digits fit the low half of their bytes. */
  lemma NibblesKept(d: seq<int>)
    requires |d| == 8 && InRange(d, 0, 10)
    ensures 0 <= Le(d, 256) && And(Le(d, 256), 0x0F0F_0F0F_0F0F_0F0F) == Le(d, 256)
  {
    hide And, Le, Pow;
    PowersOfTwo();
    var m := [15, 15, 15, 15, 15, 15, 15, 15];
    Le8(m, 256);
    AndLanes(d, m, 8);
    forall i | 0 <= i < 8 ensures And(d[i], m[i]) == d[i] {
      AndLowOnes(d[i], 4);
    }
    assert AndEach(d, m) == d;
  }

  /** What a wrapping multiplication followed by a shift leaves: the middle of the product. */
  lemma ShiftOut(x: int, top: int, e: int, low: int, unit: int)
    requires 0 <= low < unit && 0 <= e && low + e * unit < WORD && x == top * WORD + (low + e * unit)
    ensures x % WORD / unit == e
  {
    MulNonneg(e, unit);
    DivModUnique(x, WORD, top, low + e * unit);
    DivModUnique(low + e * unit, unit, e, low);
  }

  /** Multiplying by 10 * 256 + 1 puts ten times each digit plus its neighbour into each byte. */
  lemma Pairs(d: seq<int>, e: seq<int>)
    requires |d| == 8 && InRange(d, 0, 10)
    requires e == [10 * d[0] + d[1], 10 * d[1] + d[2], 10 * d[2] + d[3], 10 * d[3] + d[4],
                   10 * d[4] + d[5], 10 * d[5] + d[6], 10 * d[6] + d[7], 0]
    ensures Le(d, 256) * 2561 % WORD / 0x100 == Le(e, 256)
  {
    hide Le;
    Le8(d, 256);
    Le8(e, 256);
    ShiftOut(Le(d, 256) * 2561, 10 * d[7], Le(e, 256), d[0], 256);
  }

  lemma EvenBytes(e: seq<int>)
    requires |e| == 8 && InRange(e, 0, 256)
    ensures 0 <= Le(e, 256) && And(Le(e, 256), 0x00FF_00FF_00FF_00FF) == Le([e[0], e[2], e[4], e[6]], 65536)
  {
    hide And, Le, Pow;
    var m, kept := [255, 0, 255, 0, 255, 0, 255, 0], [e[0], 0, e[2], 0, e[4], 0, e[6], 0];
    PowersOfTwo();
    MaskLanes(e, m, 8, kept);
    Le8(m, 256);
    Le8(kept, 256);
    Le4([e[0], e[2], e[4], e[6]], 65536);
  }

  lemma Quads(e: seq<int>, f: seq<int>)
    requires |e| == 4 && InRange(e, 0, 100)
    requires f == [100 * e[0] + e[1], 100 * e[1] + e[2], 100 * e[2] + e[3], 0]
    ensures Le(e, 65536) * 6_553_601 % WORD / 0x1_0000 == Le(f, 65536)
    ensures And(Le(f, 65536), 0x0000_FFFF_0000_FFFF) == f[0] + 0x1_0000_0000 * f[2]
  {
    hide And, Le, Pow;
    Le4(e, 65536);
    Le4(f, 65536);
    ShiftOut(Le(e, 65536) * 6_553_601, 100 * e[3], Le(f, 65536), e[0], 65536);
    var m, kept := [0xFFFF, 0, 0xFFFF, 0], [f[0], 0, f[2], 0];
    PowersOfTwo();
    MaskLanes(f, m, 16, kept);
    Le4(m, 65536);
    Le4(kept, 65536);
  }

  lemma Dec8(s: seq<int>)
    requires |s| == 8
    ensures Dec(s) == 10000000 * (s[0] - 48) + 1000000 * (s[1] - 48) + 100000 * (s[2] - 48) + 10000 * (s[3] - 48)
                    + 1000 * (s[4] - 48) + 100 * (s[5] - 48) + 10 * (s[6] - 48) + (s[7] - 48)
  {
    hide Be;
    BeNil(10, 48);
    assert s[..0] == [] && s[..8] == s;
    DecNext(s, 0);
    DecNext(s, 1);
    DecNext(s, 2);
    DecNext(s, 3);
    DecNext(s, 4);
    DecNext(s, 5);
    DecNext(s, 6);
    DecNext(s, 7);
  }

  lemma DecNext(s: seq<int>, k: nat)
    requires k < |s|
    ensures Dec(s[..k + 1]) == 10 * Dec(s[..k]) + (s[k] - 48)
  {
    assert s[..k + 1] == s[..k] + [s[k]];
    BeSnoc(s[..k], s[k], 10, 48);
  }

  /** The SWAR core computes the value of the eight digits. */
  lemma Parse8wValue(s: seq<Digit>)
    requires |s| == 8
    ensures ASCII0 <= Le(s, 256) < WORD && Parse8w(Le(s, 256)) == Dec(s)
  {
    hide And, Le, Pow, Be;
    var d := seq(8, i requires 0 <= i < 8 => s[i] as int - 48);
    WordOfDigits(s, d);
    var e := [10 * d[0] + d[1], 10 * d[1] + d[2], 10 * d[2] + d[3], 10 * d[3] + d[4],
              10 * d[4] + d[5], 10 * d[5] + d[6], 10 * d[6] + d[7], 0];
    Pairs(d, e);
    EvenBytes(e);
    var g := [e[0], e[2], e[4], e[6]];
    var f := [100 * g[0] + g[1], 100 * g[1] + g[2], 100 * g[2] + g[3], 0];
    Quads(g, f);
    Halves(f[0], f[2]);
    Dec8(s);
  }

  lemma Halves(f: int, f': int)
    requires 0 <= f < 10000 && 0 <= f' < 10000
    ensures (f + 0x1_0000_0000 * f') * 42_949_672_960_001 % WORD / 0x1_0000_0000 == 10000 * f + f'
  {
    ShiftOut((f + 0x1_0000_0000 * f') * 42_949_672_960_001, 10000 * f', 10000 * f + f', f, 0x1_0000_0000);
  }

  lemma WordOfDigits(s: seq<Digit>, d: seq<int>)
    requires |s| == |d| == 8 && forall i :: 0 <= i < 8 ==> d[i] == s[i] as int - 48
    ensures Le(s, 256) == Le(d, 256) + ASCII0 && 0 <= Le(d, 256) && Le(s, 256) < WORD
    ensures And(Le(d, 256), 0x0F0F_0F0F_0F0F_0F0F) == Le(d, 256)
  {
    hide And, Le, Pow;
    Le8(s, 256);
    Le8(d, 256);
    NibblesKept(d);
  }

  // ----- a value to eight digits

  /** A value below 10^8 as eight ASCII digits, most significant first. */
  function Fmt8(v: Limb): seq<byte> {
    var x := Or(SpreadTens(SpreadHundreds(v / 10_000, v % 10_000)), ASCII0);
    if 0 <= x then LeBytes(x, 8) else []
  }

  /** Two four-digit values to four two-digit lanes. */
  function SpreadHundreds(hi: int, lo: int): int {
    var x := Or(hi, lo * 0x1_0000_0000);
    var q := And(x * 5243 / 0x8_0000, 0x0000_007F_0000_007F);
    Or(q, (x - q * 100) * 0x1_0000 % WORD)
  }

  /** Four two-digit lanes to eight one-digit bytes. */
  function SpreadTens(x: int): int {
    var q := And(x * 103 / 0x400, 0x000F_000F_000F_000F);
    Or(q, (x - q * 10) * 0x100 % WORD)
  }

  /** Both halves divided by 100 at once; 5243 / 2^19 is 1/100 closely enough for four digits. */
  lemma Hundreds(hi: int, lo: int, t: int, r: int, t': int, r': int)
    requires hi == 100 * t + r && lo == 100 * t' + r'
    requires 0 <= t < 100 && 0 <= r < 100 && 0 <= t' < 100 && 0 <= r' < 100
    ensures Or(hi, lo * 0x1_0000_0000) == hi + 0x1_0000_0000 * lo
    ensures And((hi + 0x1_0000_0000 * lo) * 5243 / 0x8_0000, 0x0000_007F_0000_007F) == t + 0x1_0000_0000 * t'
  {
    hide *;
    PowersOfTwo();
    OrDisjoint(hi, lo, 32);
    var x := 12 * t' + 5243 * r';
    HundredsShift(t, r, t', r');
    LowSeven(t, x);
    LowSeven(t', 0);
    SevenOnes(t + 0x2000 * x);
    SevenOnes(t');
    AndSplit(t + 0x2000 * x, t', 127, 127, 32);
  }

  lemma LowSeven(t: int, x: int)
    requires 0 <= t < 100
    ensures (t + 0x2000 * x) % 128 == t
  {
    DivModUnique(t + 0x2000 * x, 128, 64 * x, t);
  }

  lemma HundredsShift(t: int, r: int, t': int, r': int)
    requires 0 <= t < 100 && 0 <= r < 100
    ensures (100 * t + r + 0x1_0000_0000 * (100 * t' + r')) * 5243 / 0x8_0000
         == t + 0x2000 * (12 * t' + 5243 * r') + 0x1_0000_0000 * t'
  {
    DivModUnique((100 * t + r + 0x1_0000_0000 * (100 * t' + r')) * 5243, 0x8_0000,
                 t + 0x2000 * (12 * t' + 5243 * r') + 0x1_0000_0000 * t', 12 * t + 5243 * r);
  }

  lemma SevenOnes(a: nat)
    ensures And(a, 127) == a % 128
  {
    hide And, Pow;
    PowStep(2, 3);
    PowStep(2, 4);
    PowStep(2, 5);
    PowStep(2, 6);
    PowersOfTwo();
    AndLowOnes(a, 7);
  }

  lemma FourOnes(a: nat)
    ensures And(a, 15) == a % 16
  {
    hide And, Pow;
    PowersOfTwo();
    AndLowOnes(a, 4);
  }

  /** Two lanes of four digits become four lanes of two. */
  lemma FourLanes(t: int, r: int, t': int, r': int)
    requires 0 <= t < 100 && 0 <= r < 100 && 0 <= t' < 100 && 0 <= r' < 100
    ensures Or(t + 0x1_0000_0000 * t', (r + 0x1_0000_0000 * r') * 0x1_0000 % WORD) == Le([t, r, t', r'], 65536)
  {
    hide And, Or, Pow, Le;
    PowersOfTwo();
    var x, y := [t, 0, t', 0], [0, r, 0, r'];
    Le4(x, 65536);
    Le4(y, 65536);
    Le4([t, r, t', r'], 65536);
    forall i | 0 <= i < 4 ensures And(x[i], y[i]) == 0 {
      AndZero(x[i]);
      AndZero(y[i]);
    }
    OrLanes(x, y, 16);
    DivModUnique((r + 0x1_0000_0000 * r') * 0x1_0000, WORD, 0, Le(y, 65536));
  }

  /** Lanes split into tens and units. */
  ghost predicate TensUnits(p: seq<int>, t: seq<int>, r: seq<int>) {
    && |p| == |t| == |r| == 4 && InRange(t, 0, 10) && InRange(r, 0, 10)
    && (forall i :: 0 <= i < 4 ==> p[i] == 10 * t[i] + r[i])
  }

  /** All four lanes divided by 10 at once. */
  lemma Tens(p: seq<int>, t: seq<int>, r: seq<int>)
    requires TensUnits(p, t, r)
    ensures 0 <= Le(t, 65536) && And(Le(p, 65536) * 103 / 0x400, 0x000F_000F_000F_000F) == Le(t, 65536)
  {
    hide And, Le;
    var m1, m2, m3 := 6 * t[1] + 103 * r[1], 6 * t[2] + 103 * r[2], 6 * t[3] + 103 * r[3];
    var c := [t[0] + 64 * m1, t[1] + 64 * m2, t[2] + 64 * m3, t[3]];
    TensShift(p, t, r, c);
    TensMask(c, t, [m1, m2, m3, 0]);
  }

  lemma TensMask(c: seq<int>, t: seq<int>, m: seq<int>)
    requires |c| == |t| == |m| == 4 && InRange(t, 0, 10) && InRange(m, 0, 1000)
    requires forall i :: 0 <= i < 4 ==> c[i] == t[i] + 64 * m[i]
    ensures 0 <= Le(t, 65536) && And(Le(c, 65536), 0x000F_000F_000F_000F) == Le(t, 65536)
  {
    hide And, Pow, Le;
    PowersOfTwo();
    var f := [15, 15, 15, 15];
    Le4(f, 65536);
    AndLanes(c, f, 16);
    forall i | 0 <= i < 4 ensures And(c[i], f[i]) == t[i] {
      LowNibble(t[i], m[i]);
    }
    assert AndEach(c, f) == t;
    LeBound(t, 65536);
  }

  lemma LowNibble(t: nat, m: nat)
    requires t < 16
    ensures And(t + 64 * m, 15) == t
  {
    hide And, Pow;
    assert 16 * (4 * m) == 64 * m;
    PowersOfTwo();
    AndSplit(t, 4 * m, 15, 0, 4);
    AndZero(4 * m);
    FourOnes(t);
  }

  lemma TensShift(p: seq<int>, t: seq<int>, r: seq<int>, c: seq<int>)
    requires TensUnits(p, t, r)
    requires c == [t[0] + 64 * (6 * t[1] + 103 * r[1]), t[1] + 64 * (6 * t[2] + 103 * r[2]),
                   t[2] + 64 * (6 * t[3] + 103 * r[3]), t[3]]
    ensures Le(p, 65536) * 103 / 0x400 == Le(c, 65536)
  {
    hide Le;
    Le4(p, 65536);
    Le4(c, 65536);
    DivModUnique(Le(p, 65536) * 103, 0x400, Le(c, 65536), 6 * t[0] + 103 * r[0]);
  }

  /** Four lanes of two digits become eight bytes. */
  lemma EightBytes(p: seq<int>, t: seq<int>, r: seq<int>)
    requires TensUnits(p, t, r)
    ensures Or(Le(t, 65536), (Le(p, 65536) - Le(t, 65536) * 10) * 0x100 % WORD)
         == Le([t[0], r[0], t[1], r[1], t[2], r[2], t[3], r[3]], 256)
  {
    hide And, Or, Pow, Le;
    PowersOfTwo();
    var x, y := [t[0], 0, t[1], 0, t[2], 0, t[3], 0], [0, r[0], 0, r[1], 0, r[2], 0, r[3]];
    forall i | 0 <= i < 8 ensures And(x[i], y[i]) == 0 {
      AndZero(x[i]);
      AndZero(y[i]);
    }
    OrLanes(x, y, 8);
    Interleave(p, t, r, x, y);
  }

  lemma Interleave(p: seq<int>, t: seq<int>, r: seq<int>, x: seq<int>, y: seq<int>)
    requires TensUnits(p, t, r)
    requires x == [t[0], 0, t[1], 0, t[2], 0, t[3], 0] && y == [0, r[0], 0, r[1], 0, r[2], 0, r[3]]
    ensures Le(x, 256) == Le(t, 65536)
    ensures Le(y, 256) == (Le(p, 65536) - Le(t, 65536) * 10) * 0x100 % WORD
    ensures Le(x, 256) + Le(y, 256) == Le([t[0], r[0], t[1], r[1], t[2], r[2], t[3], r[3]], 256)
  {
    hide Le;
    Le8(x, 256);
    Le8(y, 256);
    Le8([t[0], r[0], t[1], r[1], t[2], r[2], t[3], r[3]], 256);
    Le4(p, 65536);
    Le4(t, 65536);
    DivModUnique((Le(p, 65536) - Le(t, 65536) * 10) * 0x100, WORD, 0, Le(y, 256));
  }

  lemma ToAscii(d: seq<int>, s: seq<byte>)
    requires |d| == |s| == 8 && InRange(d, 0, 10) && forall i :: 0 <= i < 8 ==> s[i] == d[i] + 48
    ensures Or(Le(d, 256), ASCII0) == Le(s, 256)
  {
    hide And, Or, Pow, Le;
    PowersOfTwo();
    var z := [48, 48, 48, 48, 48, 48, 48, 48];
    forall i | 0 <= i < 8 ensures And(d[i], z[i]) == 0 {
      LowHighNibble(d[i], 3);
    }
    OrLanes(d, z, 8);
    Le8(d, 256);
    Le8(z, 256);
    Le8(s, 256);
  }

  /** The formatted limb is eight digits and has the limb's value. */
  lemma Fmt8Value(v: Limb)
    ensures |Fmt8(v)| == 8 && InRange(Fmt8(v), 48, 58) && Dec(Fmt8(v)) == v
  {
    hide And, Or, Pow, Le, Be;
    var hi, lo := v / 10_000, v % 10_000;
    var p := [hi / 100, hi % 100, lo / 100, lo % 100];
    var t: seq<int> := seq(4, i requires 0 <= i < 4 => p[i] / 10);
    var r: seq<int> := seq(4, i requires 0 <= i < 4 => p[i] % 10);
    var s: seq<byte> := [t[0] + 48, r[0] + 48, t[1] + 48, r[1] + 48, t[2] + 48, r[2] + 48, t[3] + 48, r[3] + 48];
    Fmt8Bytes(v, p, t, r, s);
    Dec8(s);
  }

  lemma Fmt8Bytes(v: Limb, p: seq<int>, t: seq<int>, r: seq<int>, s: seq<byte>)
    requires TensUnits(p, t, r)
    requires v / 10_000 == 100 * p[0] + p[1] && v % 10_000 == 100 * p[2] + p[3]
    requires s == [t[0] + 48, r[0] + 48, t[1] + 48, r[1] + 48, t[2] + 48, r[2] + 48, t[3] + 48, r[3] + 48]
    ensures Fmt8(v) == s
  {
    hide And, Or, Pow, Le, SpreadHundreds, SpreadTens;
    SpreadHundredsValue(v / 10_000, v % 10_000, p);
    SpreadTensValue(p, t, r);
    var d := [t[0], r[0], t[1], r[1], t[2], r[2], t[3], r[3]];
    ToAscii(d, s);
    LeBytesOf(s);
  }

  lemma SpreadHundredsValue(hi: int, lo: int, p: seq<int>)
    requires |p| == 4 && InRange(p, 0, 100) && hi == 100 * p[0] + p[1] && lo == 100 * p[2] + p[3]
    ensures SpreadHundreds(hi, lo) == Le(p, 65536)
  {
    hide And, Or, Pow, Le;
    Hundreds(hi, lo, p[0], p[1], p[2], p[3]);
    FourLanes(p[0], p[1], p[2], p[3]);
    assert p == [p[0], p[1], p[2], p[3]];
    assert hi + 0x1_0000_0000 * lo - (p[0] + 0x1_0000_0000 * p[2]) * 100 == p[1] + 0x1_0000_0000 * p[3];
  }

  lemma SpreadTensValue(p: seq<int>, t: seq<int>, r: seq<int>)
    requires TensUnits(p, t, r)
    ensures SpreadTens(Le(p, 65536)) == Le([t[0], r[0], t[1], r[1], t[2], r[2], t[3], r[3]], 256)
  {
    hide And, Or, Pow, Le;
    Tens(p, t, r);
    EightBytes(p, t, r);
  }

  function Parse8(chunk: seq<Digit>): (r: Limb)
    requires |chunk| == 8
    ensures r == Dec(chunk)
  {
    Parse8wValue(chunk);
    DecBelow(chunk, 8);
    Parse8w(Le(chunk, 256))
  }

  lemma PowersOfTen(k: nat)
    requires k <= 8
    ensures Pow(10, k) == POW10_U32[k]
  {
    PowStep(10, 0);
    if k > 0 {
      PowersOfTen(k - 1);
      PowStep(10, k - 1);
    }
  }

  lemma BaseIsPower()
    ensures Pow(10, 8) == BASE
  {
    PowersOfTen(8);
  }

  lemma DecBelow(s: seq<Digit>, k: nat)
    requires |s| <= k <= 8
    ensures 0 <= Dec(s) < POW10_U32[k] <= BASE
  {
    hide Pow, Be;
    BeBound(s, 10, 48);
    PowMono(10, |s|, k);
    PowersOfTen(k);
  }

  // ----- up to eight digits, with one overlapping load when the string allows it

  /** The value of the digits `s[start..end]`, at most eight of them. */
  function ParseRange(s: seq<Digit>, start: nat, end: nat): int
    requires start <= end <= |s| && end - start <= 8
  {
    var r := end - start;
    var pad := 8 - r;
    if r == 8 then
      Parse8(s[start..end])
    else if r == 0 then
      0
    else if end >= 8 then
      // the eight bytes ending at `end`, the `pad` extra ones blanked
      var w, keep := Le(s[end - 8..end], 256), WORD - Pow(2, 8 * pad);
      Parse8w(Or(And(w, keep), And(ASCII0, WORD - 1 - keep)))
    else if start + 8 <= |s| then
      // the eight bytes starting at `start`, the wanted ones shifted up
      PowPos(2, 8 * r);
      Parse8w(Or(Le(s[start..start + 8], 256) * Pow(2, 8 * pad) % WORD, ASCII0 / Pow(2, 8 * r)))
    else
      Dec(s[start..end])
  }

  /** Cutting a word at a byte boundary: remainder and quotient by the power. */
  lemma WordCut(s: seq<byte>, i: nat)
    requires i <= |s|
    ensures 0 < Pow(2, 8 * i) == Pow(256, i)
    ensures Le(s, 256) % Pow(256, i) == Le(s[..i], 256) && Le(s, 256) / Pow(256, i) == Le(s[i..], 256)
  {
    hide Le, Pow;
    PowersOfTwo();
    PowMul(2, 8, i);
    LeSplit(s, i, 256);
    LeBound(s[..i], 256);
    DivModUnique(Le(s, 256), Pow(256, i), Le(s[i..], 256), Le(s[..i], 256));
  }

  lemma AsciiZeros(i: nat)
    requires i <= 8
    ensures 0 < Pow(256, i) && ASCII0 % Pow(256, i) == Le(Zeros(i), 256)
      && ASCII0 / Pow(256, i) == Le(Zeros(8 - i), 256)
  {
    hide Le, Pow;
    var z := Zeros(8);
    Le8(z, 256);
    WordCut(z, i);
    assert z[..i] == Zeros(i) && z[i..] == Zeros(8 - i);
  }

  lemma PowsOf256(i: nat)
    requires i <= 8
    ensures Pow(256, i) == Pow(2, 8 * i) && Pow(256, 8) == WORD == Pow(256, i) * Pow(256, 8 - i)
  {
    hide Pow;
    PowersOfTwo();
    PowMul(2, 8, i);
    PowMul(2, 8, 8);
    PowAdd(256, i, 8 - i);
  }

  /** Blank bytes below wanted ones: a disjoint `|`. */
  lemma ZeroPadded(t: seq<Digit>, pad: nat)
    requires pad + |t| == 8
    ensures 0 <= Le(t, 256) && Or(Pow(256, pad) * Le(t, 256), Le(Zeros(pad), 256)) == Le(Zeros(pad) + t, 256)
    ensures Parse8w(Le(Zeros(pad) + t, 256)) == Dec(t)
  {
    hide Le, Pow, And, Or, Be;
    PowsOf256(pad);
    var z: seq<Digit> := Zeros(pad);
    LeConcat(z, t, 256);
    LeBound(z, 256);
    LeBound(t, 256);
    OrDisjoint(Le(z, 256), Le(t, 256), 8 * pad);
    Parse8wValue(z + t);
    BeConcat(z, t, 10, 48);
    BeZeros(z, 10, 48);
  }

  /** Every branch reads the plain digit value. */
  lemma ParseRangeValue(s: seq<Digit>, start: nat, end: nat)
    requires start <= end <= |s| && end - start <= 8
    ensures ParseRange(s, start, end) == Dec(s[start..end])
  {
    hide Le, Pow, And, Or, Be, Parse8w;
    var r := end - start;
    var pad := 8 - r;
    if r == 8 {
    } else if r == 0 {
      BeNil(10, 48);
      assert s[start..end] == [];
    } else if end >= 8 {
      BlankedLoad(s[end - 8..end], pad);
      assert s[end - 8..end][pad..] == s[start..end];
    } else if start + 8 <= |s| {
      ShiftedLoad(s[start..start + 8], r);
      assert s[start..start + 8][..r] == s[start..end];
    }
  }

  lemma BlankedLoad(s: seq<Digit>, pad: nat)
    requires |s| == 8 && 0 < pad < 8
    ensures var keep := WORD - Pow(2, 8 * pad);
      Parse8w(Or(And(Le(s, 256), keep), And(ASCII0, WORD - 1 - keep))) == Dec(s[pad..])
  {
    hide Le, Pow, And, Or, Be, Parse8w;
    PowersOfTwo();
    PowsOf256(pad);
    LeBound(s, 256);
    AndHighOnes(Le(s, 256), 8 * pad, 64);
    WordCut(s, pad);
    AndLowOnes(ASCII0, 8 * pad);
    AsciiZeros(pad);
    ZeroPadded(s[pad..], pad);
  }

  lemma ShiftedLoad(s: seq<Digit>, r: nat)
    requires |s| == 8 && 0 < r < 8
    ensures 0 < Pow(2, 8 * r)
    ensures Parse8w(Or(Le(s, 256) * Pow(2, 8 * (8 - r)) % WORD, ASCII0 / Pow(2, 8 * r))) == Dec(s[..r])
  {
    hide Le, Pow, And, Or, Be, Parse8w;
    PowsOf256(r);
    PowsOf256(8 - r);
    WordCut(s, r);
    AsciiZeros(r);
    LeBound(s[..r], 256);
    DivModFact(Le(s, 256), Pow(256, r));
    Overflowed(Le(s[..r], 256), Le(s[r..], 256), Pow(256, r), Pow(256, 8 - r));
    ZeroPadded(s[..r], 8 - r);
  }

  lemma Overflowed(low: int, high: int, p: int, q: int)
    requires 0 <= low < p && 0 < q && p * q == WORD
    ensures (low + high * p) * q % WORD == q * low
  {
    MulStrict(low, p, q);
    MulNonneg(low, q);
    assert (low + high * p) * q == high * (p * q) + low * q;
    DivModUnique((low + high * p) * q, WORD, high, low * q);
  }

  // ----- whole digit strings

  const POW10_U32: seq<int> := [1, 10, 100, 1_000, 10_000, 100_000, 1_000_000, 10_000_000, 100_000_000]

  function LimbCount(digits: nat): nat { (digits + 7) / 8 }

  /** The digit string that packing reads: `a`, then `b`, then zeros. */
  function Virtual(a: seq<Digit>, b: seq<Digit>, zeros: nat): seq<Digit> {
    a + b + Zeros(zeros)
  }

  /** The limb of the chunk `start..end` of the virtual string: one load when it lies inside one operand. */
  method PackChunk(a: seq<Digit>, b: seq<Digit>, zrem: nat, start: nat, end: nat) returns (limb: Limb)
    requires start <= end <= |a| + |b| + zrem && end - start <= 8
    ensures limb == Dec(Virtual(a, b, zrem)[start..end])
  {
    hide Le, Pow, And, Or, Be, Parse8w, ParseRange;
    var la, digits := |a|, |a| + |b|;
    if end - start == 8 && end <= la {
      assert Virtual(a, b, zrem)[start..end] == a[start..end];
      limb := Parse8(a[start..end]);
    } else if end - start == 8 && start >= la && end <= digits {
      assert Virtual(a, b, zrem)[start..end] == b[start - la..end - la];
      limb := Parse8(b[start - la..end - la]);
    } else {
      limb := PackPieces(a, b, zrem, start, end);
    }
  }

  /** A chunk split into its `a`, `b` and trailing-zero pieces. */
  method PackPieces(a: seq<Digit>, b: seq<Digit>, zrem: nat, start: nat, end: nat) returns (limb: Limb)
    requires start <= end <= |a| + |b| + zrem && end - start <= 8
    ensures limb == Dec(Virtual(a, b, zrem)[start..end])
  {
    hide Le, Pow, And, Or, Be, Parse8w, ParseRange;
    BeNil(10, 48);
    var la, digits := |a|, |a| + |b|;
    var zStart := if start >= digits then start else digits;
    var zl := if end >= zStart then end - zStart else 0;
    var dEnd := end - zl;
    var bStart := if start >= la then start else la;
    var bv, bl := 0, 0;
    ghost var sa, sb := [], [];
    if dEnd > bStart {
      ParseRangeValue(b, bStart - la, dEnd - la);
      bv, bl := ParseRange(b, bStart - la, dEnd - la), dEnd - bStart;
      sb := b[bStart - la..dEnd - la];
    }
    var aEnd := if dEnd <= la then dEnd else la;
    var av := 0;
    if aEnd > start {
      ParseRangeValue(a, start, aEnd);
      av := ParseRange(a, start, aEnd);
      sa := a[start..aEnd];
    }
    Straddling(a, b, zrem, start, end, sa, sb, zl);
    limb := Glue(av, bv, bl, zl, sa, sb);
  }

  method Glue(av: int, bv: int, bl: nat, zl: nat, ghost sa: seq<Digit>, ghost sb: seq<Digit>) returns (limb: Limb)
    requires |sa| + |sb| + zl <= 8 && bl == |sb| && av == Dec(sa) && bv == Dec(sb)
    ensures limb == Dec(sa + sb + Zeros(zl))
  {
    Pieces(sa, sb, zl);
    limb := (av * POW10_U32[bl] + bv) * POW10_U32[zl];
  }

  lemma Straddling(a: seq<Digit>, b: seq<Digit>, zrem: nat, start: nat, end: nat, sa: seq<Digit>, sb: seq<Digit>,
    zl: nat)
    requires start <= end <= |a| + |b| + zrem && zl <= end
    requires zl == if end >= |a| + |b| && start <= |a| + |b| then end - (|a| + |b|)
      else if start > |a| + |b| then end - start else 0
    requires var dEnd := end - zl;
      && sa == (if start < |a| && start < dEnd then a[start..if dEnd <= |a| then dEnd else |a|] else [])
      && sb == (if dEnd > |a| && dEnd > start then b[(if start >= |a| then start - |a| else 0)..dEnd - |a|] else [])
    ensures Virtual(a, b, zrem)[start..end] == sa + sb + Zeros(zl)
  {
    var s := Virtual(a, b, zrem);
    assert forall i :: start <= i < end ==> s[i] == (sa + sb + Zeros(zl))[i - start];
  }

  lemma Pieces(sa: seq<Digit>, sb: seq<Digit>, zl: nat)
    requires |sa| + |sb| + zl <= 8
    ensures Dec(sa + sb + Zeros(zl)) == (Dec(sa) * POW10_U32[|sb|] + Dec(sb)) * POW10_U32[zl]
    ensures 0 <= Dec(sa + sb + Zeros(zl)) < BASE
  {
    hide Pow, Be;
    PowersOfTen(|sb|);
    PowersOfTen(zl);
    PowersOfTen(8);
    BeConcat(sa, sb, 10, 48);
    BeConcat(sa + sb, Zeros(zl), 10, 48);
    BeZeros(Zeros(zl), 10, 48);
    var s: seq<Digit> := sa + sb + Zeros(zl);
    BeBound(s, 10, 48);
    PowMono(10, |s|, 8);
  }

  /**
   * Packs the digit string `a ++ b ++ 0^zeros` into `out`, least significant limb first; returns
   * the limb count.
   */
  method FromDigitsSlice(a: seq<Digit>, b: seq<Digit>, zeros: nat, out: array<Limb>) returns (k: nat)
    requires LimbCount(|a| + |b| + zeros) <= out.Length
    modifies out
    ensures k == LimbCount(|a| + |b| + zeros)
    ensures Val(out[..k]) == Dec(Virtual(a, b, zeros))
    ensures forall i :: k <= i < out.Length ==> out[i] == old(out[i])
  {
    hide Le, Pow, And, Or, Be, Parse8w;
    BeNil(10, 48);
    ZeroLimbs(a, b, zeros);
    var zeroLimbs, zrem := zeros / 8, zeros % 8;
    for i := 0 to zeroLimbs
      invariant forall l :: 0 <= l < i ==> out[l] == 0
      invariant forall l :: i <= l < out.Length ==> out[l] == old(out[l])
    {
      out[i] := 0;
    }
    LeZeros(out[..zeroLimbs], BASE);
    var total := |a| + |b| + zrem;
    ghost var s := Virtual(a, b, zrem);
    k := zeroLimbs;
    var end := total;
    assert s[end..] == [];
    while end > 0
      invariant 0 <= end <= total && zeroLimbs <= k
      invariant end == if total >= 8 * (k - zeroLimbs) then total - 8 * (k - zeroLimbs) else 0
      invariant k - zeroLimbs <= LimbCount(total)
      invariant Val(out[..k]) == Pow(BASE, zeroLimbs) * Dec(s[end..])
      invariant forall i :: k <= i < out.Length ==> out[i] == old(out[i])
    {
      var start := if end >= 8 then end - 8 else 0;
      ghost var low := out[..k];
      var limb := PackChunk(a, b, zrem, start, end);
      out[k] := limb;
      assert out[..k + 1] == low + [limb];
      NextChunk(s, start, end, zeroLimbs, k - zeroLimbs, low, limb);
      k := k + 1;
      end := start;
    }
    assert s[0..] == s;
  }

  /** A chunk above `done` packed ones. */
  lemma NextChunk(s: seq<Digit>, start: nat, end: nat, zeroLimbs: nat, done: nat, low: seq<Limb>, limb: Limb)
    requires start <= end <= |s| && |s| - end == 8 * done && |low| == zeroLimbs + done
    requires Val(low) == Pow(BASE, zeroLimbs) * Dec(s[end..]) && limb == Dec(s[start..end])
    ensures Val(low + [limb]) == Pow(BASE, zeroLimbs) * Dec(s[start..])
  {
    hide Le, Pow, Be;
    LeSnoc(low, limb, BASE);
    BeSplit(s[start..], end - start, 10, 48);
    assert s[start..][..end - start] == s[start..end] && s[start..][end - start..] == s[end..];
    BaseIsPower();
    PowMul(10, 8, done);
    PowAdd(BASE, zeroLimbs, done);
    var p, q := Pow(BASE, zeroLimbs), Pow(BASE, done);
    assert p * (limb * q + Dec(s[end..])) == p * q * limb + p * Dec(s[end..]);
  }

  lemma ZeroLimbs(a: seq<Digit>, b: seq<Digit>, zeros: nat)
    ensures Dec(Virtual(a, b, zeros)) == Pow(BASE, zeros / 8) * Dec(Virtual(a, b, zeros % 8))
    ensures LimbCount(|a| + |b| + zeros) == zeros / 8 + LimbCount(|a| + |b| + zeros % 8)
  {
    hide Pow, Be;
    var z := 8 * (zeros / 8);
    assert Virtual(a, b, zeros) == Virtual(a, b, zeros % 8) + Zeros(z);
    BeConcat(Virtual(a, b, zeros % 8), Zeros(z), 10, 48);
    BeZeros(Zeros(z), 10, 48);
    BaseIsPower();
    PowMul(10, 8, zeros / 8);
  }

  /** Packs into a new vector. */
  method FromDigits(a: seq<Digit>, b: seq<Digit>, zeros: nat) returns (l: seq<Limb>)
    ensures |l| == LimbCount(|a| + |b| + zeros) && Val(l) == Dec(Virtual(a, b, zeros))
  {
    var out := new Limb[LimbCount(|a| + |b| + zeros)](_ => 0);
    var k := FromDigitsSlice(a, b, zeros, out);
    l := out[..k];
  }
}
