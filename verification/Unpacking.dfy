/** Limb vectors back to digit strings. */
module Unpacking {
  import opened Numerals
  import opened Limbs
  import opened Words
  import opened Packing
  import opened Digits
  import opened Buffers

  /** The top limb, without its leading zeros. */
  method WriteTop(limb: Limb, out: array<byte>) returns (k: nat)
    requires limb != 0 && out.Length >= 8
    modifies out
    ensures 0 < k <= 8 && InRange(out[..k], 48, 58) && out[0] != 48 && Dec(out[..k]) == limb
  {
    hide Pow, Be, Fmt8;
    var first := Fmt8(limb);
    Fmt8Value(limb);
    var lz := LeadingZeros(first);
    BeSplit(first, lz, 10, 48);
    BeZeros(first[..lz], 10, 48);
    assert first[..8] == first;
    k := 8 - lz;
    CopyBytes(out, 0, first[lz..]);
    assert out[0..k] == out[..k] && out[0] == first[lz..][0];
  }

  /** Writes the decimal digits of `l` without leading zeros (nothing for zero); returns their count. */
  method ToDigitsSlice(l: seq<Limb>, out: array<byte>) returns (k: nat)
    requires 8 * |l| <= out.Length
    modifies out
    ensures k <= out.Length && 0 <= Val(l) && out[..k] == DigitsOf(Val(l))
  {
    hide Le, Pow, Be, Fmt8, DigitsOf, StripZeros;
    var top := |l|;
    while top > 0 && l[top - 1] == 0
      invariant 0 <= top <= |l| && forall i :: top <= i < |l| ==> l[i] == 0
    {
      top := top - 1;
    }
    LeSplit(l, top, BASE);
    LeZeros(l[top..], BASE);
    ValBound(l);
    if top == 0 {
      LeNil(BASE);
      assert l[..0] == [];
      return 0;
    }
    k := WriteTop(l[top - 1], out);
    assert l[top - 1..top] == [l[top - 1]];
    LeOne(l[top - 1], BASE);
    for i := top - 1 downto 0
      invariant 0 < k <= 8 * (top - i)
      invariant InRange(out[..k], 48, 58) && out[0] != 48
      invariant Dec(out[..k]) == Val(l[i..top])
    {
      k := AppendLimb(out, k, l[i], l[i + 1..top]);
      assert l[i..top] == [l[i]] + l[i + 1..top];
    }
    assert l[0..top] == l[..top];
    CanonicalDigits(out[..k]);
  }

  method AppendLimb(out: array<byte>, k: nat, limb: Limb, ghost high: seq<Limb>) returns (k': nat)
    requires 0 < k && k + 8 <= out.Length
    requires InRange(out[..k], 48, 58) && out[0] != 48 && Dec(out[..k]) == Val(high)
    modifies out
    ensures k' == k + 8 && InRange(out[..k'], 48, 58) && out[0] != 48 && Dec(out[..k']) == Val([limb] + high)
  {
    hide Le, Pow, Be, Fmt8;
    ghost var done := out[..k];
    assert done[0] != 48;
    Fmt8Value(limb);
    CopyBytes(out, k, Fmt8(limb));
    k' := k + 8;
    assert out[..k'] == done + Fmt8(limb) && out[0] == done[0];
    NextLimb(done, limb, high);
  }

  lemma NextLimb(done: seq<int>, limb: Limb, high: seq<Limb>)
    requires Dec(done) == Val(high)
    ensures Dec(done + Fmt8(limb)) == Val([limb] + high)
  {
    hide Le, Pow, Be, Fmt8;
    Fmt8Value(limb);
    BeConcat(done, Fmt8(limb), 10, 48);
    BaseIsPower();
    LeCons(limb, high, BASE);
  }

  /** The digits as a new string. */
  method ToDigits(l: seq<Limb>) returns (s: seq<Digit>)
    ensures 0 <= Val(l) && s == DigitsOf(Val(l))
  {
    var out := new byte[8 * |l|](_ => 0);
    var k := ToDigitsSlice(l, out);
    s := out[..k];
  }

  /** Packing a digit string and unpacking the limbs gives it back without its leading zeros. */
  lemma RoundTrip(a: seq<Digit>, b: seq<Digit>, zeros: nat, l: seq<Limb>)
    requires Val(l) == Dec(Virtual(a, b, zeros))
    ensures 0 <= Val(l) && DigitsOf(Val(l)) == StripZeros(Virtual(a, b, zeros))
  {
    DigitsOfDec(Virtual(a, b, zeros));
  }
}
