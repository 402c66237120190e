/** Operands, exact values cut to a scale, and their canonical text. */
module Decimals {
  import opened Numerals
  import opened Words
  import opened Digits
  import opened Buffers

  // ----- exact values

  function Abs(x: int): nat { if x < 0 then -x else x }

  /** `n / d` truncated toward zero. */
  function TruncDiv(n: int, d: int): int
    requires d > 0
  {
    if n < 0 then -(-n / d) else n / d
  }

  /** The value `v / 10^s` cut toward zero to `scale` digits, counted in units of `10^-scale`. */
  function AtScale(v: int, s: nat, scale: nat): int {
    PowPos(10, s);
    TruncDiv(v * Pow(10, scale), Pow(10, s))
  }

  function Signed(neg: bool, m: int): int { if neg then -m else m }

  lemma TruncSigned(neg: bool, m: nat, d: int)
    requires d > 0
    ensures TruncDiv(Signed(neg, m), d) == Signed(neg, m / d) && 0 <= m / d
  {
    DivModFact(m, d);
    if m / d < 0 {
      MulMono(m / d, -1, d);
    }
    if m == 0 {
      DivModUnique(0, d, 0, 0);
    }
  }

  /** Cutting moves toward zero by less than one unit, and nothing else does. */
  lemma AtScaleIsTruncation(v: int, s: nat, scale: nat)
    ensures 0 < Pow(10, s)
    ensures var r := AtScale(v, s, scale);
      && (v >= 0 ==> r >= 0 && r * Pow(10, s) <= v * Pow(10, scale) < (r + 1) * Pow(10, s))
      && (v <= 0 ==> r <= 0 && (r - 1) * Pow(10, s) < v * Pow(10, scale) <= r * Pow(10, s))
  {
    hide Pow;
    PowPos(10, s);
    PowPos(10, scale);
    var m, d := Abs(v) * Pow(10, scale), Pow(10, s);
    MulNonneg(Abs(v), Pow(10, scale));
    assert v * Pow(10, scale) == Signed(v < 0, m);
    TruncSigned(v < 0, m, d);
    DivModFact(m, d);
    var q := m / d;
    assert (q + 1) * d == q * d + d && (-q - 1) * d == -(q * d) - d && (-q) * d == -(q * d);
  }

  // ----- operands

  datatype Num = Num(neg: bool, whole: seq<Digit>, frac: seq<Digit>) {
    /** The integer part has no leading zeros; the fraction is as written. */
    ghost predicate WellFormed() {
      |whole| > 0 ==> whole[0] != 48
    }

    /** The number is `Unscaled() / 10^|frac|`. */
    function Unscaled(): int { Signed(neg, Dec(whole + frac)) }

    predicate IsZero() {
      |whole| == 0 && AllZeros(frac)
    }

    function Negated(): Num { Num(!neg, whole, frac) }

    function Truncated(scale: nat): Num {
      if |frac| > scale then Num(neg, whole, frac[..scale]) else this
    }

    function Trimmed(): Num { Num(neg, whole, TrimZeros(frac)) }

    predicate HasFraction() { !AllZeros(frac) }
  }

  predicate AllZeros(s: seq<int>) {
    forall i :: 0 <= i < |s| ==> s[i] == 48
  }

  /** The fraction without trailing zeros. */
  function TrimZeros(s: seq<Digit>): (t: seq<Digit>)
    ensures |t| <= |s| && t == s[..|t|]
    ensures s == t + Zeros(|s| - |t|)
  {
    if |s| > 0 && s[|s| - 1] == 48 then
      var t := TrimZeros(s[..|s| - 1]);
      assert s == s[..|s| - 1] + [48];
      assert Zeros(|s| - |t|) == Zeros(|s| - 1 - |t|) + [48];
      t
    else s
  }

  /** A digit string denotes zero exactly when every digit is zero. */
  lemma {:induction false} ZeroDigits(s: seq<Digit>)
    ensures 0 <= Dec(s) && (Dec(s) == 0 <==> AllZeros(s))
  {
    BeBound(s, 10, 48);
    if |s| > 0 {
      ZeroDigits(s[..|s| - 1]);
      assert s == s[..|s| - 1] + [s[|s| - 1]];
    }
  }

  lemma ZeroNum(n: Num)
    requires n.WellFormed()
    ensures n.IsZero() <==> n.Unscaled() == 0
  {
    hide Be;
    ZeroDigits(n.whole + n.frac);
    if |n.whole| > 0 {
      assert (n.whole + n.frac)[0] != 48;
    } else {
      assert n.whole + n.frac == n.frac;
    }
  }

  // ----- canonical text

  /** `n` as exactly `k` digits (its low ones). */
  function Padded(n: nat, k: nat): (s: seq<Digit>)
    ensures |s| == k
  {
    if k == 0 then [] else Padded(n / 10, k - 1) + [48 + n % 10]
  }

  lemma {:induction false} PaddedDec(s: seq<Digit>)
    ensures 0 <= Dec(s) && Padded(Dec(s), |s|) == s
  {
    BeBound(s, 10, 48);
    if |s| > 0 {
      var n := |s| - 1;
      PaddedDec(s[..n]);
      DivModUnique(Dec(s), 10, Dec(s[..n]), s[n] as int - 48);
      assert s == s[..n] + [s[n]];
    }
  }

  const MINUS: seq<byte> := [45]
  const POINT: seq<byte> := [46]

  function SignText(minus: bool): seq<byte> { if minus then MINUS else [] }

  function WholeText(whole: seq<Digit>): seq<byte> { if |whole| == 0 then [48] else whole }

  function FracText(frac: seq<Digit>): seq<byte> { if |frac| > 0 then POINT + frac else [] }

  /** Sign, integer part (`0` when it has no digits), and the fraction behind a point unless it is empty. */
  function Assemble(minus: bool, whole: seq<Digit>, frac: seq<Digit>): seq<byte> {
    SignText(minus) + WholeText(whole) + FracText(frac)
  }

  /** The number `v / 10^scale`: a minus sign for negative values only, then the integer part, then `scale` digits. */
  function Text(v: int, scale: nat): seq<byte> {
    PowPos(10, scale);
    DivModFact(Abs(v), Pow(10, scale));
    TruncSigned(false, Abs(v), Pow(10, scale));
    Assemble(v < 0, DigitsOf(Abs(v) / Pow(10, scale)), Padded(Abs(v) % Pow(10, scale), scale))
  }

  /** The text of a value given by its digits. */
  lemma TextOfDigits(neg: bool, whole: seq<Digit>, frac: seq<Digit>)
    ensures Text(Signed(neg, Dec(whole + frac)), |frac|)
         == Assemble(neg && Dec(whole + frac) != 0, StripZeros(whole), frac)
  {
    hide Be, Pow, Assemble, DigitsOf, StripZeros, Padded;
    BeConcat(whole, frac, 10, 48);
    BeBound(frac, 10, 48);
    BeBound(whole, 10, 48);
    BeBound(whole + frac, 10, 48);
    DivModUnique(Dec(whole + frac), Pow(10, |frac|), Dec(whole), Dec(frac));
    DigitsOfDec(whole);
    PaddedDec(frac);
  }

  /** The fraction digits shown at `scale`: cut, or padded with zeros. */
  function Shown(frac: seq<Digit>, scale: nat): (s: seq<Digit>)
    ensures |s| == scale
  {
    if |frac| >= scale then frac[..scale] else frac + Zeros(scale - |frac|)
  }

  lemma AtScaleDigits(neg: bool, whole: seq<Digit>, frac: seq<Digit>, scale: nat)
    ensures AtScale(Signed(neg, Dec(whole + frac)), |frac|, scale) == Signed(neg, Dec(whole + Shown(frac, scale)))
  {
    hide Be, Pow;
    var s := |frac|;
    PowPos(10, s);
    PowPos(10, scale);
    var m := Dec(whole + frac);
    BeBound(whole + frac, 10, 48);
    MulNonneg(m, Pow(10, scale));
    assert Signed(neg, m) * Pow(10, scale) == Signed(neg, m * Pow(10, scale));
    TruncSigned(neg, m * Pow(10, scale), Pow(10, s));
    if s >= scale {
      CutDigits(whole, frac, scale);
    } else {
      PadDigits(whole, frac, scale);
    }
  }

  lemma CutDigits(whole: seq<Digit>, frac: seq<Digit>, scale: nat)
    requires |frac| >= scale
    ensures 0 < Pow(10, |frac|) && Dec(whole + frac) * Pow(10, scale) / Pow(10, |frac|) ==
      Dec(whole + Shown(frac, scale))
  {
    hide Be, Pow;
    var s, rest := |frac|, frac[scale..];
    PowPos(10, s);
    PowPos(10, scale);
    assert whole + frac == (whole + frac[..scale]) + rest;
    BeConcat(whole + frac[..scale], rest, 10, 48);
    BeBound(rest, 10, 48);
    PowAdd(10, s - scale, scale);
    CutDown(Dec(whole + frac[..scale]), Dec(rest), Pow(10, s - scale), Pow(10, scale));
  }

  lemma PadDigits(whole: seq<Digit>, frac: seq<Digit>, scale: nat)
    requires |frac| < scale
    ensures 0 < Pow(10, |frac|) && Dec(whole + frac) * Pow(10, scale) / Pow(10, |frac|) ==
      Dec(whole + Shown(frac, scale))
  {
    hide Be, Pow;
    var s, z := |frac|, Zeros(scale - |frac|);
    PowPos(10, s);
    assert whole + Shown(frac, scale) == (whole + frac) + z;
    BeConcat(whole + frac, z, 10, 48);
    BeZeros(z, 10, 48);
    PowAdd(10, scale - s, s);
    var m, p := Dec(whole + frac), Pow(10, scale - s);
    assert m * (p * Pow(10, s)) == (m * p) * Pow(10, s);
    DivModUnique(m * Pow(10, scale), Pow(10, s), m * p, 0);
  }

  lemma CutDown(h: int, r: int, p: int, q: int)
    requires 0 <= r < p && 0 < q
    ensures 0 < p * q && (h * p + r) * q / (p * q) == h
  {
    MulStrict(0, p, q);
    MulStrict(r, p, q);
    MulNonneg(r, q);
    assert (h * p + r) * q == h * (p * q) + r * q;
    DivModUnique((h * p + r) * q, p * q, h, r * q);
  }

  // ----- writing results

  lemma Patch(pre: seq<byte>, mid: seq<byte>, post: seq<byte>, s: seq<byte>)
    requires |s| == |mid|
    ensures (pre + mid + post)[..|pre|] + s + (pre + mid + post)[|pre| + |s|..] == pre + s + post
  {}

  lemma PatchOne(pre: seq<byte>, old_: byte, post: seq<byte>, x: byte)
    ensures (pre + [old_] + post)[|pre| := x] == pre + [x] + post
  {}

  lemma Assoc(a: seq<byte>, b: seq<byte>, c: seq<byte>)
    ensures a + (b + c) == a + b + c
  {}

  /** One fill with zeros, then the other pieces copied over it. */
  method Layout(out: ByteVec, minus: bool, whole: seq<Digit>, lead: nat, fr: seq<Digit>, scale: nat)
    requires lead + |fr| <= scale
    modifies out
    ensures out.bytes == old(out.bytes) + Assemble(minus, whole, Zeros(lead) + fr + Zeros(scale - lead - |fr|))
  {
    hide Zeros, Assemble;
    var signLen := if minus then 1 else 0;
    var intLen := if |whole| > 0 then |whole| else 1;
    var fracLen := if scale > 0 then scale + 1 else 0;
    var start := |out.bytes|;
    ghost var b := out.bytes;
    GrowZeros(out, signLen + intLen + fracLen);
    ThreeParts(b, signLen, intLen, fracLen);
    PutSign(out, start, minus, b, Zeros(intLen) + Zeros(fracLen));
    ghost var head := b + SignText(minus);
    Assoc(head, Zeros(intLen), Zeros(fracLen));
    CopyDigits(out, start + signLen, head, Zeros(fracLen), whole, intLen);
    head := head + WholeText(whole);
    PutFraction(out, start + signLen + intLen, head, lead, fr, scale);
    Assembled(b, minus, whole, Zeros(lead) + fr + Zeros(scale - lead - |fr|));
  }

  lemma ThreeParts(b: seq<byte>, m: nat, n: nat, k: nat)
    ensures b + Zeros(m + n + k) == b + Zeros(m) + (Zeros(n) + Zeros(k))
  {
    hide Zeros;
    ZerosSplit(m, n + k);
    ZerosSplit(n, k);
    Assoc(b, Zeros(m), Zeros(n) + Zeros(k));
  }

  method PutSign(out: ByteVec, start: nat, minus: bool, ghost b: seq<byte>, ghost post: seq<byte>)
    requires start == |b| && out.bytes == b + Zeros(if minus then 1 else 0) + post
    modifies out
    ensures out.bytes == b + SignText(minus) + post
  {
    if minus {
      ZerosSplit(0, 1);
      PatchOne(b, 48, post, 45);
      out.Set(start, 45);
    }
  }

  method PutFraction(out: ByteVec, at: nat, ghost head: seq<byte>, lead: nat, fr: seq<Digit>, scale: nat)
    requires lead + |fr| <= scale && at == |head|
    requires out.bytes == head + Zeros(if scale > 0 then scale + 1 else 0)
    modifies out
    ensures out.bytes == head + FracText(Zeros(lead) + fr + Zeros(scale - lead - |fr|))
  {
    if scale > 0 {
      hide Zeros;
      ZerosSplit(1, scale);
      Assoc(head, [48], Zeros(scale));
      PatchOne(head, 48, Zeros(scale), 46);
      out.Set(at, 46);
      FillFraction(out, at + 1, head + POINT, lead, fr, scale);
      Assoc(head, POINT, Zeros(lead) + fr + Zeros(scale - lead - |fr|));
    }
  }

  lemma Assembled(b: seq<byte>, minus: bool, whole: seq<Digit>, shown: seq<Digit>)
    ensures b + SignText(minus) + WholeText(whole) + FracText(shown) == b + Assemble(minus, whole, shown)
  {}

  method GrowZeros(out: ByteVec, n: nat)
    modifies out
    ensures out.bytes == old(out.bytes) + Zeros(n)
  {
    out.Grow(n, 48);
    assert seq<byte>(n, i => 48) == Zeros(n);
  }

  /** The integer digits over their zeros; a lone zero stays when there are none. */
  method CopyDigits(out: ByteVec, at: nat, ghost head: seq<byte>, ghost rest: seq<byte>, whole: seq<Digit>, intLen: nat)
    requires intLen == (if |whole| > 0 then |whole| else 1) && at == |head|
    requires out.bytes == head + Zeros(intLen) + rest
    modifies out
    ensures out.bytes == head + WholeText(whole) + rest
  {
    hide Zeros;
    ghost var before := out.bytes;
    out.CopyAt(at, whole);
    if |whole| > 0 {
      Patch(head, Zeros(intLen), rest, whole);
    } else {
      ZerosSplit(0, 1);
      assert out.bytes == before;
    }
  }

  /** The shown fraction digits over the zeros behind the point. */
  method FillFraction(out: ByteVec, at: nat, ghost head: seq<byte>, lead: nat, fr: seq<Digit>, scale: nat)
    requires lead + |fr| <= scale && at == |head| && out.bytes == head + Zeros(scale)
    modifies out
    ensures out.bytes == head + (Zeros(lead) + fr + Zeros(scale - lead - |fr|))
  {
    hide Zeros;
    ZerosSplit(lead + |fr|, scale - lead - |fr|);
    ZerosSplit(lead, |fr|);
    ghost var pre, post: seq<byte> := head + Zeros(lead), Zeros(scale - lead - |fr|);
    assert out.bytes == pre + Zeros(|fr|) + post;
    Patch(pre, Zeros(|fr|), post, fr);
    out.CopyAt(at + lead, fr);
  }

  /**
   * Appends the number with integer digits `whole` (leading zeros allowed) and fraction
   * `0^fracZeros ++ frac`, cut or zero-padded to `scale` digits.
   */
  method Emit(out: ByteVec, neg: bool, whole: seq<Digit>, fracZeros: nat, frac: seq<Digit>, scale: nat)
    modifies out
    ensures out.bytes == old(out.bytes)
      + Text(AtScale(Signed(neg, Dec(whole + (Zeros(fracZeros) + frac))), fracZeros + |frac|, scale), scale)
  {
    var stripped := whole[LeadingZeros(whole)..];
    var keep := if scale <= fracZeros + |frac| then scale else fracZeros + |frac|;
    var lead := if fracZeros <= keep then fracZeros else keep;
    var fr := frac[..keep - lead];
    var nonzero := |stripped| > 0 || !AllZeros(fr);
    EmitText(neg, whole, stripped, fracZeros, frac, lead, fr, scale);
    hide *;
    Layout(out, neg && nonzero, stripped, lead, fr, scale);
  }

  lemma EmitText(neg: bool, whole: seq<Digit>, stripped: seq<Digit>, fracZeros: nat, frac: seq<Digit>, lead: nat,
    fr: seq<Digit>, scale: nat)
    requires stripped == whole[LeadingZeros(whole)..]
    requires var keep := if scale <= fracZeros + |frac| then scale else fracZeros + |frac|;
      lead == (if fracZeros <= keep then fracZeros else keep) && fr == frac[..keep - lead]
    ensures Text(AtScale(Signed(neg, Dec(whole + (Zeros(fracZeros) + frac))), fracZeros + |frac|, scale), scale)
         == Assemble(neg && (|stripped| > 0 || !AllZeros(fr)), stripped, Zeros(lead) + fr + Zeros(scale - lead - |fr|))
  {
    ShownPieces(fracZeros, frac, scale);
    hide *;
    StrippedIs(whole);
    ShownZero(whole, stripped, Shown(Zeros(fracZeros) + frac, scale), fr, lead);
    AtScaleDigits(neg, whole, Zeros(fracZeros) + frac, scale);
    TextOfDigits(neg, whole, Shown(Zeros(fracZeros) + frac, scale));
  }

  lemma {:induction false} StrippedIs(s: seq<Digit>)
    ensures s[LeadingZeros(s)..] == StripZeros(s)
  {
    if |s| > 0 && s[0] == 48 {
      StrippedIs(s[1..]);
    }
  }

  /** What is shown of `0^fracZeros ++ frac`. */
  lemma ShownPieces(fracZeros: nat, frac: seq<Digit>, scale: nat)
    ensures var keep := if scale <= fracZeros + |frac| then scale else fracZeros + |frac|;
      var lead := if fracZeros <= keep then fracZeros else keep;
      var fr := frac[..keep - lead];
      Shown(Zeros(fracZeros) + frac, scale) == Zeros(lead) + fr + Zeros(scale - lead - |fr|)
  {}

  lemma ShownWhole(frac: seq<Digit>, scale: nat)
    ensures var fr := frac[..if |frac| <= scale then |frac| else scale];
      Shown(frac, scale) == fr + Zeros(scale - |fr|)
  {}

  lemma ShownAllZeros(frac: seq<Digit>, scale: nat)
    ensures AllZeros(Shown(frac, scale)) <==> AllZeros(frac[..if |frac| <= scale then |frac| else scale])
  {
    var fr := frac[..if |frac| <= scale then |frac| else scale];
    assert forall i :: 0 <= i < |fr| ==> Shown(frac, scale)[i] == fr[i];
  }

  /** The sign test looks at the stripped integer part and the copied fraction digits only. */
  lemma ShownZero(whole: seq<Digit>, stripped: seq<Digit>, shown: seq<Digit>, fr: seq<Digit>, lead: nat)
    requires stripped == StripZeros(whole) && lead + |fr| <= |shown|
    requires forall i :: 0 <= i < |shown| && !(lead <= i < lead + |fr|) ==> shown[i] == 48
    requires shown[lead..lead + |fr|] == fr
    ensures Dec(whole + shown) != 0 <==> |stripped| > 0 || !AllZeros(fr)
  {
    hide Be, StripZeros, DigitsOf;
    ZeroDigits(whole + shown);
    ZeroDigits(whole);
    StripValue(whole);
    CanonicalDigits(stripped);
    assert forall i :: 0 <= i < |fr| ==> fr[i] == shown[lead + i];
    assert AllZeros(shown) <==> AllZeros(fr) by {
      if AllZeros(fr) {
        forall i | 0 <= i < |shown| ensures shown[i] == 48 {
          if lead <= i < lead + |fr| {
            assert shown[i] == fr[i - lead];
          }
        }
      }
    }
    assert AllZeros(whole + shown) <==> AllZeros(whole) && AllZeros(shown) by {
      assert forall i :: 0 <= i < |shown| ==> shown[i] == (whole + shown)[|whole| + i];
      assert forall i :: 0 <= i < |whole| ==> whole[i] == (whole + shown)[i];
    }
  }

  /** Appends an unscaled result with `s` fractional digits, cut or padded to `scale`. */
  method WriteUnscaled(out: ByteVec, neg: bool, digits: seq<Digit>, s: nat, scale: nat)
    modifies out
    ensures out.bytes == old(out.bytes) + Text(AtScale(Signed(neg, Dec(digits)), s, scale), scale)
  {
    hide Be, Pow;
    if |digits| >= s {
      var k := |digits| - s;
      assert digits == digits[..k] + (Zeros(0) + digits[k..]);
      Emit(out, neg, digits[..k], 0, digits[k..], scale);
    } else {
      var z := Zeros(s - |digits|);
      assert [] + (z + digits) == z + digits;
      BeConcat(z, digits, 10, 48);
      BeZeros(z, 10, 48);
      Emit(out, neg, [], s - |digits|, digits, scale);
    }
  }

  /** The written sign and digits are those of the value cut to `scale`. */
  lemma NumText(n: Num, scale: nat, minus: bool)
    requires n.WellFormed()
    requires minus == (n.neg && (|n.whole| > 0 || !AllZeros(Shown(n.frac, scale))))
    ensures Text(AtScale(n.Unscaled(), |n.frac|, scale), scale) == Assemble(minus, n.whole, Shown(n.frac, scale))
  {
    NothingToStrip(n);
    UnscaledIs(n);
    hide *;
    ShownZero(n.whole, n.whole, Shown(n.frac, scale), Shown(n.frac, scale), 0);
    AtScaleDigits(n.neg, n.whole, n.frac, scale);
    TextOfDigits(n.neg, n.whole, Shown(n.frac, scale));
  }

  lemma NothingToStrip(n: Num)
    requires n.WellFormed()
    ensures StripZeros(n.whole) == n.whole
  {}

  lemma UnscaledIs(n: Num)
    ensures n.Unscaled() == Signed(n.neg, Dec(n.whole + n.frac))
  {}

  /** Appends `n` cut or zero-padded to exactly `scale` fractional digits. */
  method WriteNum(out: ByteVec, n: Num, scale: nat)
    requires n.WellFormed()
    modifies out
    ensures out.bytes == old(out.bytes) + Text(AtScale(n.Unscaled(), |n.frac|, scale), scale)
  {
    hide *;
    var frac := n.frac[..if |n.frac| <= scale then |n.frac| else scale];
    var zero := |n.whole| == 0 && AllZeros(frac);
    ShownWhole(n.frac, scale);
    ShownAllZeros(n.frac, scale);
    NumText(n, scale, n.neg && !zero);
    WriteParts(out, n.neg && !zero, n.whole, frac, scale);
  }

  method WriteParts(out: ByteVec, minus: bool, whole: seq<Digit>, frac: seq<Digit>, scale: nat)
    requires |frac| <= scale
    modifies out
    ensures out.bytes == old(out.bytes) + Assemble(minus, whole, frac + Zeros(scale - |frac|))
  {
    ghost var b := out.bytes;
    if minus {
      out.Push(45);
    }
    if |whole| == 0 {
      out.Push(48);
    } else {
      out.Extend(whole);
    }
    assert out.bytes == b + SignText(minus) + WholeText(whole);
    ghost var head := out.bytes;
    if scale > 0 {
      hide Zeros, Assemble;
      out.Push(46);
      out.Extend(frac);
      GrowZeros(out, scale - |frac|);
      Assoc(head + POINT, frac, Zeros(scale - |frac|));
      Assoc(head, POINT, frac + Zeros(scale - |frac|));
    }
    Assembled(b, minus, whole, frac + Zeros(scale - |frac|));
  }
}
