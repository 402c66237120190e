/** Canonical decimal digit strings. */
module Digits {
  import opened Numerals
  import opened Words

  /** The decimal digits of `n`, without leading zeros: nothing for zero. */
  function DigitsOf(n: nat): (s: seq<Digit>)
    ensures Dec(s) == n
    ensures |s| > 0 ==> s[0] != 48
    ensures |s| == 0 <==> n == 0
  {
    if n == 0 then [] else
      var t := DigitsOf(n / 10);
      BeSnoc(t, 48 + n % 10, 10, 48);
      t + [48 + n % 10]
  }

  function StripZeros(s: seq<Digit>): (t: seq<Digit>)
    ensures |t| <= |s| && t == s[|s| - |t|..]
    ensures forall i :: 0 <= i < |s| - |t| ==> s[i] == 48
    ensures |t| > 0 ==> t[0] != 48
  {
    if |s| > 0 && s[0] == 48 then
      var t := StripZeros(s[1..]);
      assert s == [s[0]] + s[1..];
      assert s[1..][|s| - 1 - |t|..] == s[|s| - |t|..];
      t
    else s
  }

  lemma {:induction false} StripValue(s: seq<Digit>)
    ensures Dec(StripZeros(s)) == Dec(s)
  {
    hide Be, Pow;
    var t := StripZeros(s);
    BeSplit(s, |s| - |t|, 10, 48);
    BeZeros(s[..|s| - |t|], 10, 48);
  }

  /** A digit string without a leading zero is determined by its value. */
  lemma {:induction false} CanonicalDigits(s: seq<Digit>)
    requires |s| > 0 ==> s[0] != 48
    ensures 0 <= Dec(s) && s == DigitsOf(Dec(s))
  {
    BeBound(s, 10, 48);
    if |s| > 0 {
      var n := |s| - 1;
      BeLower(s, 10, 48);
      PowPos(10, n);
      CanonicalDigits(s[..n]);
      DivModUnique(Dec(s), 10, Dec(s[..n]), s[n] as int - 48);
      assert s == s[..n] + [s[n]];
    }
  }

  /** Packing digits and unpacking them drops the leading zeros and nothing else. */
  lemma DigitsOfDec(s: seq<Digit>)
    ensures 0 <= Dec(s) && DigitsOf(Dec(s)) == StripZeros(s)
  {
    StripValue(s);
    CanonicalDigits(StripZeros(s));
  }

  /** The length of the digits: the least power of ten above the number. */
  lemma DigitsLength(n: nat, k: nat)
    ensures |DigitsOf(n)| <= k <==> n < Pow(10, k)
  {
    hide Be;
    var s := DigitsOf(n);
    BeBound(s, 10, 48);
    if |s| <= k {
      PowMono(10, |s|, k);
    } else {
      BeLower(s, 10, 48);
      PowMono(10, k, |s| - 1);
    }
  }

  /** How many zeros a digit string starts with. */
  function LeadingZeros(s: seq<byte>): (k: nat)
    ensures k <= |s| && (forall i :: 0 <= i < k ==> s[i] == 48)
    ensures k < |s| ==> s[k] != 48
  {
    if |s| > 0 && s[0] == 48 then 1 + LeadingZeros(s[1..]) else 0
  }
}
