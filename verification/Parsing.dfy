/** Reading operands: the accepted texts, and that canonical text reads back as what was written. */
module Parsing {
  import opened Numerals
  import opened Words
  import opened Digits
  import opened Decimals
  import opened Scanning
  import opened Wrappers

  function RunEnd(s: seq<byte>, i: nat): (r: nat)
    requires i <= |s|
    ensures StopsAt(s, i, r)
    decreases |s| - i
  {
    if i < |s| && IsDigit(s[i]) then RunEnd(s, i + 1) else i
  }

  function SignLength(s: seq<byte>): nat {
    if |s| > 0 && (s[0] == 45 || s[0] == 43) then 1 else 0
  }

  /** What an operand text denotes: a sign, digits, a point and digits, ending at the first NUL. */
  function Parsed(s: seq<byte>): Option<Num> {
    var neg := |s| > 0 && s[0] == 45;
    var start := SignLength(s);
    var e := RunEnd(s, start);
    var whole: seq<Digit> := s[start..e];
    var point := e < |s| && s[e] == 46;
    var end := if point then RunEnd(s, e + 1) else e;
    var frac: seq<Digit> := if point then s[e + 1..end] else [];
    if end < |s| && s[end] != 0 then None else Some(Num(neg, StripZeros(whole), frac))
  }

  /** The scan of an operand: sign, digit runs, leading zeros dropped. */
  method Parse(s: seq<byte>) returns (n: Option<Num>)
    ensures n == Parsed(s)
  {
    hide StripZeros, RunEnd;
    var neg, start := false, 0;
    if |s| > 0 && s[0] == 45 {
      neg, start := true, 1;
    } else if |s| > 0 && s[0] == 43 {
      start := 1;
    }
    var e := FirstNondigit(s, start);
    StopsOnce(s, start, e, RunEnd(s, start));
    var whole: seq<Digit> := s[start..e];
    var frac: seq<Digit>, end := [], e;
    if e < |s| && s[e] == 46 {
      end := FirstNondigit(s, e + 1);
      StopsOnce(s, e + 1, end, RunEnd(s, e + 1));
      frac := s[e + 1..end];
    }
    if end < |s| && s[end] != 0 {
      return None;
    }
    var stripped := DropZeros(whole);
    return Some(Num(neg, stripped, frac));
  }

  method DropZeros(whole: seq<Digit>) returns (rest: seq<Digit>)
    ensures rest == StripZeros(whole)
  {
    rest := whole;
    while |rest| > 0 && rest[0] == 48
      invariant StripZeros(rest) == StripZeros(whole)
      decreases |rest|
    {
      rest := rest[1..];
    }
  }

  // ----- the accepted texts

  function PointText(point: bool): seq<byte> { if point then POINT else [] }

  /** `s` is an optional sign, digits, and optionally a point and digits, up to its end or its first NUL. */
  ghost predicate Operand(s: seq<byte>, sign: seq<byte>, whole: seq<Digit>, point: bool, frac: seq<Digit>) {
    var body := sign + whole + PointText(point) + frac;
    && (sign == [] || sign == MINUS || sign == [43])
    && (!point ==> frac == [])
    && body <= s && (body == s || s[|body|] == 0)
  }

  lemma Middle(a: seq<byte>, b: seq<byte>, c: seq<byte>, s: seq<byte>)
    requires a + b + c <= s
    ensures s[..|a|] == a && s[|a|..|a| + |b|] == b
  {
    assert s[..|a + b + c|] == a + b + c;
    assert s[..|a|] == (a + b + c)[..|a|];
    assert s[|a|..|a| + |b|] == (a + b + c)[|a|..|a| + |b|];
  }

  lemma BehindPoint(head: seq<byte>, frac: seq<byte>, s: seq<byte>)
    requires head + POINT + frac <= s
    ensures s[|head|] == 46 && s[|head| + 1..|head| + 1 + |frac|] == frac
  {
    assert |POINT| == 1 && POINT[0] == 46;
    hide POINT;
    Middle(head, POINT, frac, s);
    assert s[|head|] == s[|head|..|head| + 1][0];
    assert head + POINT + frac == (head + POINT) + frac + [];
    Middle(head + POINT, frac, [], s);
  }

  /** Where the pieces of an operand lie. */
  ghost predicate PiecesAt(s: seq<byte>, sign: seq<byte>, whole: seq<Digit>, point: bool, frac: seq<Digit>) {
    var start, e := |sign|, |sign| + |whole|;
    var end := if point then e + 1 + |frac| else e;
    && (sign == [] || sign == MINUS || sign == [43])
    && (!point ==> frac == [])
    && end <= |s| && (end < |s| ==> s[end] == 0)
    && s[..start] == sign && s[start..e] == whole
    && (point ==> s[e] == 46 && s[e + 1..end] == frac)
  }

  lemma Pieces(s: seq<byte>, sign: seq<byte>, whole: seq<Digit>, point: bool, frac: seq<Digit>)
    requires Operand(s, sign, whole, point, frac)
    ensures PiecesAt(s, sign, whole, point, frac)
  {
    var body := sign + whole + PointText(point) + frac;
    assert body == sign + whole + (PointText(point) + frac);
    BodyLength(sign + whole, point, frac);
    hide PointText;
    Middle(sign, whole, PointText(point) + frac, s);
    if point {
      PointIs();
      BehindPoint(sign + whole, frac, s);
    }
  }

  lemma PointIs()
    ensures PointText(true) == POINT
  {}

  lemma BodyLength(head: seq<byte>, point: bool, frac: seq<Digit>)
    ensures |head + PointText(point) + frac| == |head| + (if point then 1 else 0) + |frac|
  {}

  lemma DigitRun(s: seq<byte>, i: nat, d: seq<Digit>)
    requires i + |d| <= |s| && s[i..i + |d|] == d
    requires i + |d| < |s| ==> !IsDigit(s[i + |d|])
    ensures RunEnd(s, i) == i + |d|
  {
    assert forall k :: 0 <= k < |d| ==> s[i + k] == d[k];
    assert StopsAt(s, i, i + |d|) by {
      assert forall k :: i <= k < i + |d| ==> s[k] == d[k - i];
    }
    hide RunEnd;
    StopsOnce(s, i, i + |d|, RunEnd(s, i));
  }

  lemma SignRun(s: seq<byte>, sign: seq<byte>)
    requires sign == [] || sign == MINUS || sign == [43]
    requires |sign| <= |s| && s[..|sign|] == sign
    requires sign == [] && |s| > 0 ==> s[0] != 45 && s[0] != 43
    ensures SignLength(s) == |sign| && (|s| > 0 && s[0] == 45 <==> sign == MINUS)
  {
    if |sign| > 0 {
      assert s[0] == sign[0];
    }
  }

  /** Every text of this form is read, in only one way. */
  lemma Complete(s: seq<byte>, sign: seq<byte>, whole: seq<Digit>, point: bool, frac: seq<Digit>)
    requires Operand(s, sign, whole, point, frac)
    ensures Parsed(s) == Some(Num(sign == MINUS, StripZeros(whole), frac))
  {
    hide *;
    Pieces(s, sign, whole, point, frac);
    CompleteAt(s, sign, whole, point, frac);
  }

  lemma FirstIsNoSign(s: seq<byte>, whole: seq<Digit>, point: bool, frac: seq<Digit>)
    requires PiecesAt(s, [], whole, point, frac) && |s| > 0
    ensures s[0] != 45 && s[0] != 43
  {
    if |whole| > 0 {
      assert s[0] == s[0..|whole|][0] == whole[0];
    }
  }

  lemma SignPart(s: seq<byte>, sign: seq<byte>, whole: seq<Digit>, point: bool, frac: seq<Digit>)
    requires PiecesAt(s, sign, whole, point, frac)
    ensures SignLength(s) == |sign| && (|s| > 0 && s[0] == 45 <==> sign == MINUS)
  {
    hide SignLength;
    if sign == [] && |s| > 0 {
      FirstIsNoSign(s, whole, point, frac);
    }
    SignRun(s, sign);
  }

  lemma WholePart(s: seq<byte>, sign: seq<byte>, whole: seq<Digit>, point: bool, frac: seq<Digit>)
    requires PiecesAt(s, sign, whole, point, frac)
    ensures |sign| <= |s| && RunEnd(s, |sign|) == |sign| + |whole|
  {
    hide RunEnd;
    DigitRun(s, |sign|, whole);
  }

  lemma EndPart(s: seq<byte>, sign: seq<byte>, whole: seq<Digit>, point: bool, frac: seq<Digit>)
    requires PiecesAt(s, sign, whole, point, frac)
    ensures var e := |sign| + |whole|;
      var end := if point then e + 1 + |frac| else e;
      && (point <==> e < |s| && s[e] == 46) && e <= end <= |s| && (point ==> e < end) && (end < |s| ==> s[end] == 0)
      && s[|sign|..e] == whole && (if point then s[e + 1..end] else []) == frac
  {}

  lemma FractionPart(s: seq<byte>, sign: seq<byte>, whole: seq<Digit>, frac: seq<Digit>)
    requires PiecesAt(s, sign, whole, true, frac)
    ensures |sign| + |whole| < |s| && RunEnd(s, |sign| + |whole| + 1) == |sign| + |whole| + 1 + |frac|
  {
    hide *;
    EndPart(s, sign, whole, true, frac);
    BehindDigits(s, sign, whole, frac);
    DigitRun(s, |sign| + |whole| + 1, frac);
  }

  lemma BehindDigits(s: seq<byte>, sign: seq<byte>, whole: seq<Digit>, frac: seq<Digit>)
    requires PiecesAt(s, sign, whole, true, frac)
    ensures var end := |sign| + |whole| + 1 + |frac|; end < |s| ==> !IsDigit(s[end])
  {}

  lemma ParsedIs(s: seq<byte>, start: nat, e: nat, point: bool, end: nat)
    requires SignLength(s) == start <= |s| && RunEnd(s, start) == e
    requires point <==> e < |s| && s[e] == 46
    requires end == (if point then RunEnd(s, e + 1) else e) && (end < |s| ==> s[end] == 0)
    ensures Parsed(s) == Some(Num(|s| > 0 && s[0] == 45, StripZeros(s[start..e]), if point then s[e + 1..end] else []))
  {
    hide StripZeros, RunEnd, SignLength, StopsAt, IsDigit;
  }

  lemma CompleteAt(s: seq<byte>, sign: seq<byte>, whole: seq<Digit>, point: bool, frac: seq<Digit>)
    requires PiecesAt(s, sign, whole, point, frac)
    ensures Parsed(s) == Some(Num(sign == MINUS, StripZeros(whole), frac))
  {
    hide *;
    SignPart(s, sign, whole, point, frac);
    WholePart(s, sign, whole, point, frac);
    if point {
      FractionPart(s, sign, whole, frac);
    }
    EndPart(s, sign, whole, point, frac);
    var e := |sign| + |whole|;
    ParsedIs(s, |sign|, e, point, if point then e + 1 + |frac| else e);
  }

  /** Nothing else is read. */
  lemma Sound(s: seq<byte>) returns (sign: seq<byte>, whole: seq<Digit>, point: bool, frac: seq<Digit>)
    requires Parsed(s).Some?
    ensures Operand(s, sign, whole, point, frac)
  {
    hide StripZeros, RunEnd, SignLength, Operand;
    var start := SignLength(s);
    SignPieces(s);
    var e := RunEnd(s, start);
    sign, whole := s[..start], s[start..e];
    point := e < |s| && s[e] == 46;
    var end := if point then RunEnd(s, e + 1) else e;
    frac := if point then s[e + 1..end] else [];
    hide Parsed, StopsAt;
    PiecesJoin(s, sign, whole, point, frac, start, e, end);
  }

  lemma SignPieces(s: seq<byte>)
    ensures var start := SignLength(s);
      start <= |s| && (s[..start] == [] || s[..start] == MINUS || s[..start] == [43])
  {
    if SignLength(s) == 1 {
      assert s[..1] == [s[0]];
    }
  }

  lemma PiecesJoin(
    s: seq<byte>, sign: seq<byte>, whole: seq<Digit>, point: bool, frac: seq<Digit>, start: nat, e: nat, end: nat
  )
    requires start <= e <= end <= |s| && (point ==> e < end && s[e] == 46) && (!point ==> end == e)
    requires sign == s[..start] && (sign == [] || sign == MINUS || sign == [43]) && whole == s[start..e]
    requires frac == (if point then s[e + 1..end] else []) && (end < |s| ==> s[end] == 0)
    ensures Operand(s, sign, whole, point, frac)
  {
    Joined(s, start, e, point, end);
  }

  lemma Joined(s: seq<byte>, start: nat, e: nat, point: bool, end: nat)
    requires start <= e <= end <= |s| && (point ==> e < end && s[e] == 46) && (!point ==> end == e)
    ensures s[..start] + s[start..e] + PointText(point) + (if point then s[e + 1..end] else []) == s[..end]
  {
    assert s[..start] + s[start..e] == s[..e];
    if point {
      assert s[..e] + POINT == s[..e + 1];
      assert s[..e + 1] + s[e + 1..end] == s[..end];
    } else {
      assert s[..e] + [] == s[..e];
    }
  }

  /** A text is accepted exactly when it has the operand form, and then denotes what its pieces say. */
  lemma ParsedIff(s: seq<byte>, n: Num)
    ensures Parsed(s) == Some(n) <==>
      exists sign, whole, point ::
        Operand(s, sign, whole, point, n.frac) && n == Num(sign == MINUS, StripZeros(whole), n.frac)
  {
    hide Parsed, Operand, StripZeros;
    if Parsed(s) == Some(n) {
      var sign, whole, point, frac := Sound(s);
      Complete(s, sign, whole, point, frac);
      assert Operand(s, sign, whole, point, n.frac);
    }
    if sign, whole, point :|
      Operand(s, sign, whole, point, n.frac) && n == Num(sign == MINUS, StripZeros(whole), n.frac)
    {
      Complete(s, sign, whole, point, n.frac);
    }
  }

  // ----- text and back

  lemma {:induction false} PaddedValue(n: nat, k: nat)
    requires n < Pow(10, k)
    ensures Dec(Padded(n, k)) == n
  {
    if k > 0 {
      PaddedValue(n / 10, k - 1);
      BeSnoc(Padded(n / 10, k - 1), 48 + n % 10, 10, 48);
    }
  }

  /** The operand `v / 10^scale` with exactly `scale` fraction digits. */
  function NumOf(v: int, scale: nat): Num {
    PowPos(10, scale);
    DivModFact(Abs(v), Pow(10, scale));
    TruncSigned(false, Abs(v), Pow(10, scale));
    Num(v < 0, DigitsOf(Abs(v) / Pow(10, scale)), Padded(Abs(v) % Pow(10, scale), scale))
  }

  lemma NumOfValue(v: int, scale: nat)
    ensures var n := NumOf(v, scale); n.WellFormed() && |n.frac| == scale && n.Unscaled() == v
  {
    hide Be, Pow, DigitsOf, Padded;
    PowPos(10, scale);
    var p := Pow(10, scale);
    DivModFact(Abs(v), p);
    TruncSigned(false, Abs(v), p);
    PaddedValue(Abs(v) % p, scale);
    var n := NumOf(v, scale);
    BeConcat(n.whole, n.frac, 10, 48);
  }

  lemma TextIs(v: int, scale: nat)
    ensures var n := NumOf(v, scale); Text(v, scale) == Assemble(n.neg, n.whole, n.frac)
  {}

  /** Written digits are read back: value, sign and scale. */
  lemma AssembledReads(minus: bool, whole: seq<Digit>, frac: seq<Digit>)
    requires |whole| > 0 ==> whole[0] != 48
    ensures Parsed(Assemble(minus, whole, frac)) == Some(Num(minus, whole, frac))
  {
    hide *;
    var shown: seq<Digit> := if |whole| == 0 then [48] else whole;
    ShownStripped(whole, shown);
    AssembledForm(minus, whole, shown, frac);
    SignOf(minus);
    Complete(Assemble(minus, whole, frac), SignText(minus), shown, |frac| > 0, frac);
  }

  lemma ShownStripped(whole: seq<Digit>, shown: seq<Digit>)
    requires |whole| > 0 ==> whole[0] != 48
    requires shown == if |whole| == 0 then [48] else whole
    ensures StripZeros(shown) == whole
  {
    if |whole| == 0 {
      assert shown[1..] == [];
    }
  }

  lemma SignOf(minus: bool)
    ensures SignText(minus) == MINUS <==> minus
  {
    assert |MINUS| == 1;
  }

  lemma AssembledForm(minus: bool, whole: seq<Digit>, shown: seq<Digit>, frac: seq<Digit>)
    requires shown == if |whole| == 0 then [48] else whole
    ensures Operand(Assemble(minus, whole, frac), SignText(minus), shown, |frac| > 0, frac)
  {
    var s := Assemble(minus, whole, frac);
    assert SignText(minus) + shown + PointText(|frac| > 0) + frac == s;
  }

  /** Reading canonical text gives back the value and the scale it was written with. */
  lemma TextReads(v: int, scale: nat)
    ensures Parsed(Text(v, scale)) == Some(NumOf(v, scale))
  {
    hide Parsed, Text, Assemble;
    NumOfValue(v, scale);
    TextIs(v, scale);
    var n := NumOf(v, scale);
    AssembledReads(n.neg, n.whole, n.frac);
  }

  /** Different values, or the same value at different scales, have different canonical texts. */
  lemma TextInjective(v: int, scale: nat, v': int, scale': nat)
    requires Text(v, scale) == Text(v', scale')
    ensures v == v' && scale == scale'
  {
    hide Parsed, Text, NumOf;
    TextReads(v, scale);
    TextReads(v', scale');
    NumOfValue(v, scale);
    NumOfValue(v', scale');
  }
}
