/** Signed decimal addition and subtraction of operands of any lengths, cut to a scale. */
module Addition {
  import opened Numerals
  import opened Words
  import opened Digits
  import opened Decimals
  import opened Buffers
  import opened Columns
  import opened Swar
  import opened Wrappers

  // ----- comparison

  datatype Ordering = Less | Equal | Greater

  function Compare(x: int, y: int): Ordering {
    if x < y then Less else if x > y then Greater else Equal
  }

  /** Lexicographic order of byte strings. */
  function LexCmp(s: seq<Digit>, t: seq<Digit>): Ordering {
    if |s| == 0 && |t| == 0 then Equal
    else if |s| == 0 then Less
    else if |t| == 0 then Greater
    else if s[0] != t[0] then Compare(s[0], t[0])
    else LexCmp(s[1..], t[1..])
  }

  /** Compares magnitudes: integer parts by length and digits, then fractions, then what the longer one has left. */
  function CmpMag(a: Num, b: Num): Ordering {
    if |a.whole| != |b.whole| then Compare(|a.whole|, |b.whole|)
    else
      var w := LexCmp(a.whole, b.whole);
      if w != Equal then w
      else
        var n := if |a.frac| < |b.frac| then |a.frac| else |b.frac|;
        var f := LexCmp(a.frac[..n], b.frac[..n]);
        if f != Equal then f
        else
          var aRest, bRest := !AllZeros(a.frac[n..]), !AllZeros(b.frac[n..]);
          if aRest == bRest then Equal else if aRest then Greater else Less
  }

  /** The magnitude counted in units of `10^-fl`. */
  function MagAt(n: Num, fl: nat): int {
    Dec(n.whole + Shown(n.frac, fl))
  }

  lemma {:induction false} LexIsValue(s: seq<Digit>, t: seq<Digit>)
    requires |s| == |t|
    ensures LexCmp(s, t) == Compare(Dec(s), Dec(t))
  {
    hide Be, Pow;
    if |s| == 0 {
      BeNil(10, 48);
      assert s == [] && t == [];
    } else {
      BeSplit(s, 1, 10, 48);
      BeSplit(t, 1, 10, 48);
      OneDigit(s[0]);
      OneDigit(t[0]);
      assert s[..1] == [s[0]] && t[..1] == [t[0]];
      LexIsValue(s[1..], t[1..]);
      BeBound(s[1..], 10, 48);
      BeBound(t[1..], 10, 48);
      Leading(s[0] as int - 48, t[0] as int - 48, Pow(10, |s| - 1), Dec(s[1..]), Dec(t[1..]));
    }
  }

  lemma Leading(d: int, e: int, p: int, x: int, y: int)
    requires 0 <= x < p && 0 <= y < p
    ensures d < e ==> d * p + x < e * p + y
    ensures d > e ==> d * p + x > e * p + y
  {
    if d < e {
      MulMono(d + 1, e, p);
      assert (d + 1) * p == d * p + p;
    } else if d > e {
      MulMono(e + 1, d, p);
      assert (e + 1) * p == e * p + p;
    }
  }

  lemma {:induction false} LexConcat(s: seq<Digit>, s': seq<Digit>, t: seq<Digit>, t': seq<Digit>)
    requires |s| == |t|
    ensures LexCmp(s + s', t + t') == if LexCmp(s, t) != Equal then LexCmp(s, t) else LexCmp(s', t')
  {
    if |s| == 0 {
      assert s + s' == s' && t + t' == t';
    } else {
      assert (s + s')[1..] == s[1..] + s' && (t + t')[1..] == t[1..] + t';
      LexConcat(s[1..], s', t[1..], t');
    }
  }

  function MaxLen(s: seq<Digit>, t: seq<Digit>): nat { if |s| >= |t| then |s| else |t| }

  /** Digit comparison of well-formed operands is comparison of their magnitudes. */
  lemma CmpMagIsOrder(a: Num, b: Num, fl: nat)
    requires a.WellFormed() && b.WellFormed() && fl == MaxLen(a.frac, b.frac)
    ensures CmpMag(a, b) == Compare(MagAt(a, fl), MagAt(b, fl))
  {
    if |a.whole| < |b.whole| {
      ShorterIsLess(a, b, fl);
    } else if |a.whole| > |b.whole| {
      ShorterIsLess(b, a, fl);
    } else {
      var n := if |a.frac| < |b.frac| then |a.frac| else |b.frac|;
      var sa, sb := Shown(a.frac, fl), Shown(b.frac, fl);
      assert sa == a.frac[..n] + sa[n..] && sb == b.frac[..n] + sb[n..];
      hide LexCmp, Be;
      LexConcat(a.whole, sa, b.whole, sb);
      LexConcat(a.frac[..n], sa[n..], b.frac[..n], sb[n..]);
      LexIsValue(a.whole + sa, b.whole + sb);
      LexIsValue(sa[n..], sb[n..]);
      ZeroDigits(sa[n..]);
      ZeroDigits(sb[n..]);
      RestZeros(a.frac, n, fl);
      RestZeros(b.frac, n, fl);
    }
  }

  lemma RestZeros(f: seq<Digit>, n: nat, fl: nat)
    requires n <= |f| <= fl
    ensures AllZeros(f[n..]) <==> AllZeros(Shown(f, fl)[n..])
    ensures |f| == n ==> AllZeros(Shown(f, fl)[n..])
  {
    var s := Shown(f, fl);
    assert forall i :: n <= i < |f| ==> s[i] == f[i] && f[i] == f[n..][i - n] && s[i] == s[n..][i - n];
    assert forall i :: |f| <= i < fl ==> s[i] == 48;
  }

  lemma ShorterIsLess(a: Num, b: Num, fl: nat)
    requires |a.whole| < |b.whole| && b.WellFormed()
    ensures MagAt(a, fl) < MagAt(b, fl)
  {
    hide Be, Pow, Shown;
    var s, t := a.whole + Shown(a.frac, fl), b.whole + Shown(b.frac, fl);
    BeBound(s, 10, 48);
    assert t[0] == b.whole[0];
    BeLower(t, 10, 48);
    PowMono(10, |s|, |t| - 1);
  }

  // ----- carries and borrows through copied digits

  /** `dst[lo..lo + |x|] = x + carry` (or `x - carry`): copies, then ripples from the right. */
  method Ripple(sub: bool, dst: array<byte>, lo: nat, x: seq<Digit>, carry: int) returns (c: int)
    requires lo + |x| <= dst.Length && 0 <= carry <= 1
    modifies dst
    ensures (dst[lo..lo + |x|], c) == Cols(sub, x, Zeros(|x|), carry)
    ensures forall k :: 0 <= k < dst.Length && !(lo <= k < lo + |x|) ==> dst[k] == old(dst[k])
  {
    hide Cols, Zeros;
    var hi := lo + |x|;
    ghost var z := Zeros(|x|);
    CopyBytes(dst, lo, x);
    NoCarry(sub, x);
    if carry == 0 {
      return 0;
    }
    NothingDone(sub, dst, lo, hi, x, z, 1);
    assert dst[lo..lo + |x|] == x[..|x|];
    hide Finished;
    for i := |x| downto 0
      invariant dst[lo..lo + i] == x[..i]
      invariant Finished(sub, dst, lo, hi, x, z, 1, i, 1)
      invariant forall k :: 0 <= k < dst.Length && !(lo <= k < hi) ==> dst[k] == old(dst[k])
    {
      var stop := RippleStep(sub, dst, lo, hi, x, i);
      if stop {
        RestCopied(sub, dst, lo, hi, x, i);
        return 0;
      }
    }
    AllDone(sub, dst, lo, hi, x, z, 1, 1);
    return 1;
  }

  /** One column of the ripple: it stops where the digit can absorb the carry. */
  method RippleStep(sub: bool, dst: array<byte>, lo: nat, hi: nat, x: seq<Digit>, i: nat) returns (stop: bool)
    requires lo <= hi <= dst.Length && |x| == hi - lo && i < |x|
    requires dst[lo..lo + i + 1] == x[..i + 1] && Finished(sub, dst, lo, hi, x, Zeros(|x|), 1, i + 1, 1)
    modifies dst
    ensures dst[lo..lo + i] == x[..i]
    ensures Finished(sub, dst, lo, hi, x, Zeros(|x|), 1, i, if stop then 0 else 1)
    ensures forall k :: 0 <= k < dst.Length && !(lo <= k < hi) ==> dst[k] == old(dst[k])
  {
    hide Cols, Zeros, Finished;
    ghost var z, low, head := Zeros(|x|), dst[lo + i + 1..hi], dst[lo..lo + i + 1];
    FinishedIs(sub, dst, lo, hi, x, z, 1, i + 1, 1);
    assert dst[lo + i] == head[i] == x[..i + 1][i] == x[i];
    OneColumn(sub, x[i], 48, 1);
    assert z[i] == 48;
    stop := if sub then dst[lo + i] != 48 else dst[lo + i] != 57;
    if !stop {
      dst[lo + i] := if sub then 57 else 48;
    } else {
      dst[lo + i] := if sub then dst[lo + i] as int - 1 else dst[lo + i] as int + 1;
    }
    assert dst[lo..lo + i] == head[..i] == x[..i];
    assert x[i..i + 1] == [x[i]] && z[i..i + 1] == [48] && dst[lo + i..lo + i + 1] == [dst[lo + i]];
    MoreDone(sub, dst, lo, hi, x, z, 1, i, 1, low, 1, if stop then 0 else 1);
  }

  lemma RestCopied(sub: bool, dst: array<byte>, lo: nat, hi: nat, x: seq<Digit>, i: nat)
    requires lo <= hi <= dst.Length && |x| == hi - lo && i <= |x|
    requires Finished(sub, dst, lo, hi, x, Zeros(|x|), 1, i, 0) && dst[lo..lo + i] == x[..i]
    ensures (dst[lo..hi], 0) == Cols(sub, x, Zeros(|x|), 1)
  {
    hide Cols;
    NoCarry(sub, x[..i]);
    assert x[0..i] == x[..i] && Zeros(|x|)[0..i] == Zeros(i);
    MoreDone(sub, dst, lo, hi, x, Zeros(|x|), 1, 0, i, dst[lo + i..hi], 0, 0);
    AllDone(sub, dst, lo, hi, x, Zeros(|x|), 1, 0);
  }

  // ----- the two halves of the sum

  /** Column arithmetic over a shared split: high columns done after the low ones. */
  lemma Joined(sub: bool, dst: seq<byte>, cut: nat, x: seq<Digit>, y: seq<Digit>, c0: int, c1: int, c: int)
    requires |dst| == |x| == |y| && cut <= |x| && 0 <= c0 <= 1 && 0 <= c1 <= 1
    requires (dst[cut..], c1) == Cols(sub, x[cut..], y[cut..], c0)
    requires (dst[..cut], c) == Cols(sub, x[..cut], y[..cut], c1)
    ensures (dst, c) == Cols(sub, x, y, c0)
  {
    hide Cols;
    assert x == x[..cut] + x[cut..] && y == y[..cut] + y[cut..];
    ColsConcat(sub, x[..cut], x[cut..], y[..cut], y[cut..], c0);
    assert dst == dst[..cut] + dst[cut..];
  }

  lemma {:induction false} AddCommutes(x: seq<Digit>, y: seq<Digit>, c: int)
    requires |x| == |y| && 0 <= c <= 1
    ensures Cols(false, x, y, c) == Cols(false, y, x, c)
  {
    if |x| > 0 {
      var n := |x| - 1;
      AddCommutes(x[..n], y[..n], CarryOf(Column(false, x[n] as int - 48, y[n] as int - 48, c)));
    }
  }

  /** Beyond the shorter fraction only the longer one has digits. */
  lemma TailColumns(sub: bool, x: seq<Digit>, y: seq<Digit>, ov: nat)
    requires ov == if |x| <= |y| then |x| else |y|
    requires sub ==> |y| == ov
    ensures var fl := MaxLen(x, y);
      Cols(sub, Shown(x, fl)[ov..], Shown(y, fl)[ov..], 0) == ((if |x| > ov then x else y)[ov..], 0)
  {
    hide Cols;
    var fl := MaxLen(x, y);
    if |x| > ov || |y| == ov {
      assert Shown(x, fl)[ov..] == x[ov..] && Shown(y, fl)[ov..] == Zeros(fl - ov);
      NoCarry(sub, x[ov..]);
    } else {
      assert Shown(y, fl)[ov..] == y[ov..] && Shown(x, fl)[ov..] == Zeros(fl - ov);
      AddCommutes(Zeros(fl - ov), y[ov..], 0);
      NoCarry(false, y[ov..]);
    }
  }

  lemma ShownTail(x: seq<Digit>, ov: nat, fl: nat)
    requires ov <= fl
    ensures |x| >= ov ==> Shown(x, fl)[..ov] == x[..ov]
    ensures |x| == fl ==> Shown(x, fl)[ov..] == x[ov..]
    ensures |x| == ov ==> Shown(x, fl)[ov..] == Zeros(fl - ov)
  {}

  /** The fraction digits that only one operand has. */
  method FractionTail(sub: bool, buf: array<byte>, at: nat, x: seq<Digit>, y: seq<Digit>, ov: nat, fl: nat)
    returns (c: int)
    requires ov == (if |x| <= |y| then |x| else |y|) && fl == MaxLen(x, y) && at + fl <= buf.Length
    modifies buf
    ensures 0 <= c <= 1 && (buf[at + ov..at + fl], c) == Cols(sub, Shown(x, fl)[ov..], Shown(y, fl)[ov..], 0)
    ensures forall k :: 0 <= k < buf.Length && !(at + ov <= k < at + fl) ==> buf[k] == old(buf[k])
  {
    hide Cols, Zeros, Shown;
    c := 0;
    if !sub {
      var longer := if |x| > ov then x else y;
      CopyBytes(buf, at + ov, longer[ov..]);
      TailColumns(false, x, y, ov);
    } else if |x| > ov {
      CopyBytes(buf, at + ov, x[ov..]);
      TailColumns(true, x, y, ov);
    } else if |y| > ov {
      ShownTail(x, ov, fl);
      ShownTail(y, ov, fl);
      c := SwarSub(buf, at + ov, at + fl, None, y[ov..], 0);
    } else {
      TailColumns(true, x, y, ov);
      assert buf[at + ov..at + fl] == x[ov..];
    }
  }

  lemma BothHalves(sub: bool, buf: array<byte>, at: nat, cut: nat, low: seq<byte>, x: seq<Digit>, y: seq<Digit>,
    c0: int, c1: int, c: int)
    requires cut <= |x| == |y| == cut + |low| && at + |x| <= buf.Length && 0 <= c0 <= 1 && 0 <= c1 <= 1
    requires (low, c1) == Cols(sub, x[cut..], y[cut..], c0)
    requires (buf[at..at + cut], c) == Cols(sub, x[..cut], y[..cut], c1)
    requires forall k :: 0 <= k < |low| ==> buf[at + cut + k] == low[k]
    ensures (buf[at..at + |x|], c) == Cols(sub, x, y, c0)
  {
    hide Cols;
    var all := buf[at..at + |x|];
    assert all[..cut] == buf[at..at + cut];
    assert all[cut..] == low;
    Joined(sub, all, cut, x, y, c0, c1, c);
  }

  /** The fractional part, aligned at the decimal point. */
  method FractionColumns(sub: bool, buf: array<byte>, at: nat, x: seq<Digit>, y: seq<Digit>) returns (c: int)
    requires at + MaxLen(x, y) <= buf.Length
    modifies buf
    ensures var fl := MaxLen(x, y);
      0 <= c <= 1 && (buf[at..at + fl], c) == Cols(sub, Shown(x, fl), Shown(y, fl), 0)
    ensures forall k :: 0 <= k < buf.Length && !(at <= k < at + MaxLen(x, y)) ==> buf[k] == old(buf[k])
  {
    hide Cols, Zeros, Shown;
    var ov := if |x| <= |y| then |x| else |y|;
    var fl := MaxLen(x, y);
    c := FractionTail(sub, buf, at, x, y, ov, fl);
    ShownTail(x, ov, fl);
    ShownTail(y, ov, fl);
    ghost var low, c1 := buf[at + ov..at + fl], c;
    if !sub {
      c := SwarAdd(buf, at, at + ov, x[..ov], y[..ov], c);
    } else {
      c := SwarSub(buf, at, at + ov, Some(x[..ov]), y[..ov], c);
    }
    BothHalves(sub, buf, at, ov, low, Shown(x, fl), Shown(y, fl), 0, c1, c);
  }

  /** `s` behind zeros, `n` digits in all. */
  function Lead(s: seq<Digit>, n: nat): (t: seq<Digit>)
    requires |s| <= n
    ensures |t| == n
  {
    Zeros(n - |s|) + s
  }

  lemma LeadParts(s: seq<Digit>, cut: nat, n: nat)
    requires cut <= n
    ensures n - cut <= |s| <= n ==> Lead(s, n)[cut..] == s[|s| - (n - cut)..]
    ensures |s| == n ==> Lead(s, n)[..cut] == s[..cut]
    ensures |s| == n - cut ==> Lead(s, n)[..cut] == Zeros(cut)
  {}

  /** The integer part, aligned at the right. */
  method WholeColumns(sub: bool, buf: array<byte>, at: nat, x: seq<Digit>, y: seq<Digit>, carry: int) returns (c: int)
    requires at + MaxLen(x, y) <= buf.Length && 0 <= carry <= 1 && (sub ==> |x| >= |y|)
    modifies buf
    ensures var il := MaxLen(x, y);
      0 <= c <= 1 && (buf[at..at + il], c) == Cols(sub, Lead(x, il), Lead(y, il), carry)
    ensures forall k :: 0 <= k < buf.Length && !(at <= k < at + MaxLen(x, y)) ==> buf[k] == old(buf[k])
  {
    hide Cols, Zeros, Lead;
    var xl, yl := |x|, |y|;
    var il := MaxLen(x, y);
    var ov := if xl <= yl then xl else yl;
    var cut := il - ov;
    LeadParts(x, cut, il);
    LeadParts(y, cut, il);
    if !sub {
      c := SwarAdd(buf, at + cut, at + il, x[xl - ov..], y[yl - ov..], carry);
    } else {
      c := SwarSub(buf, at + cut, at + il, Some(x[xl - ov..]), y[yl - ov..], carry);
    }
    ghost var low, c1 := buf[at + cut..at + il], c;
    if !sub {
      var longer := if xl > yl then x else y;
      c := Ripple(false, buf, at, longer[..cut], c);
      AddCommutes(Zeros(cut), longer[..cut], c1);
      EmptyHead(x, y);
    } else {
      c := Ripple(true, buf, at, x[..cut], c);
    }
    BothHalves(sub, buf, at, cut, low, Lead(x, il), Lead(y, il), carry, c1, c);
  }

  lemma EmptyHead(x: seq<Digit>, y: seq<Digit>)
    ensures x[..0] == y[..0] == Zeros(0)
  {}

  // ----- the sum

  /** `n` counted in units of `10^-fl`. */
  function At(n: Num, fl: nat): int
    requires |n.frac| <= fl
  {
    n.Unscaled() * Pow(10, fl - |n.frac|)
  }

  lemma AtIsSigned(n: Num, fl: nat)
    requires |n.frac| <= fl
    ensures At(n, fl) == Signed(n.neg, MagAt(n, fl)) && 0 <= MagAt(n, fl)
  {
    hide Be, Pow;
    var z := Zeros(fl - |n.frac|);
    BeBound(n.whole + Shown(n.frac, fl), 10, 48);
    if |n.frac| == fl {
      assert Shown(n.frac, fl) == n.frac;
      PowStep(10, 0);
    } else {
      assert n.whole + Shown(n.frac, fl) == (n.whole + n.frac) + z;
      BeConcat(n.whole + n.frac, z, 10, 48);
      ZerosDec(fl - |n.frac|);
      assert -Dec(n.whole + n.frac) * Pow(10, |z|) == -(Dec(n.whole + n.frac) * Pow(10, |z|));
    }
  }

  lemma LeadMag(n: Num, il: nat, fl: nat)
    requires |n.whole| <= il
    ensures Dec(Lead(n.whole, il) + Shown(n.frac, fl)) == MagAt(n, fl)
  {
    hide Be, Pow;
    var z := Zeros(il - |n.whole|);
    assert Lead(n.whole, il) + Shown(n.frac, fl) == z + (n.whole + Shown(n.frac, fl));
    BeConcat(z, n.whole + Shown(n.frac, fl), 10, 48);
    ZerosDec(|z|);
  }

  /** The digits of all columns, behind the carry digit, denote the sum or the difference of the magnitudes. */
  lemma Total(sub: bool, x: Num, y: Num, il: nat, fl: nat, digits: seq<Digit>, c: int)
    requires |x.whole| <= il && |y.whole| <= il && |digits| == il + fl
    requires sub ==> MagAt(y, fl) <= MagAt(x, fl)
    requires (digits, c) == Cols(sub, Lead(x.whole, il) + Shown(x.frac, fl), Lead(y.whole, il) + Shown(y.frac, fl), 0)
    ensures 0 <= c <= 1 && (sub ==> c == 0)
    ensures Dec([48 + c] + digits) == if sub then MagAt(x, fl) - MagAt(y, fl) else MagAt(x, fl) + MagAt(y, fl)
  {
    hide Cols, Be, Pow, Lead, Shown, MagAt;
    LeadMag(x, il, fl);
    LeadMag(y, il, fl);
    ColsValue(sub, Lead(x.whole, il) + Shown(x.frac, fl), Lead(y.whole, il) + Shown(y.frac, fl), 0);
    BeBound(digits, 10, 48);
    BeConcat([48 + c], digits, 10, 48);
    OneDigit(48 + c);
    CarryOut(Pow(10, il + fl), c);
  }

  lemma CarryOut(p: int, c: int)
    requires 0 <= c <= 1
    ensures p * c == c * p == if c == 1 then p else 0
  {}

  /** A magnitude that is not below another has at least as many integer digits. */
  lemma NotLess(x: Num, y: Num, fl: nat)
    requires x.WellFormed() && y.WellFormed() && fl == MaxLen(x.frac, y.frac)
    requires MagAt(y, fl) <= MagAt(x, fl)
    ensures |x.whole| >= |y.whole|
  {
    if |x.whole| < |y.whole| {
      ShorterIsLess(x, y, fl);
    }
  }

  /** Which operand comes first, the sign of the result, and whether magnitudes are subtracted. */
  function Arrange(a: Num, b: Num): (Num, Num, bool, bool) {
    if a.neg == b.neg then (a, b, a.neg, false)
    else if CmpMag(a, b) == Less then (b, a, b.neg, true)
    else (a, b, a.neg, true)
  }

  lemma Arranged(a: Num, b: Num)
    requires a.WellFormed() && b.WellFormed()
    ensures var (x, y, neg, sub) := Arrange(a, b);
      var fl := MaxLen(a.frac, b.frac);
      && fl == MaxLen(x.frac, y.frac)
      && (sub ==> MagAt(y, fl) <= MagAt(x, fl) && |x.whole| >= |y.whole|)
      && At(a, fl) + At(b, fl) == Signed(neg, if sub then MagAt(x, fl) - MagAt(y, fl) else MagAt(x, fl) + MagAt(y, fl))
  {
    var (x, y, neg, sub) := Arrange(a, b);
    var fl := MaxLen(a.frac, b.frac);
    hide MagAt, At, CmpMag;
    CmpMagIsOrder(a, b, fl);
    AtIsSigned(a, fl);
    AtIsSigned(b, fl);
    if sub {
      NotLess(x, y, fl);
    }
  }

  lemma AsDigits(buf: array<byte>, d: Digit, digits: seq<Digit>)
    requires buf.Length == 1 + |digits| && buf[0] == d
    requires forall k :: 0 <= k < |digits| ==> buf[1 + k] == digits[k]
    ensures buf[..] == [d] + digits
    ensures forall k :: 0 <= k < buf.Length ==> 48 <= buf[..][k] <= 57
  {
    assert forall k :: 0 <= k < buf.Length ==> buf[..][k] == ([d] + digits)[k];
  }

  /** Aligns both operands in one buffer: carry digit, integer digits, fraction digits. */
  method SumDigits(sub: bool, x: Num, y: Num) returns (result: seq<Digit>)
    requires sub ==> |x.whole| >= |y.whole| && MagAt(y, MaxLen(x.frac, y.frac)) <= MagAt(x, MaxLen(x.frac, y.frac))
    ensures MaxLen(x.frac, y.frac) <= |result|
    ensures var fl := MaxLen(x.frac, y.frac);
      Dec(result) == if sub then MagAt(x, fl) - MagAt(y, fl) else MagAt(x, fl) + MagAt(y, fl)
  {
    hide Cols, Be, Lead, Shown, MagAt, Zeros;
    var il, fl := MaxLen(x.whole, y.whole), MaxLen(x.frac, y.frac);
    var buf := new byte[1 + il + fl](_ => 0);
    var c := FractionColumns(sub, buf, 1 + il, x.frac, y.frac);
    ghost var low, c1 := buf[1 + il..1 + il + fl], c;
    c := WholeColumns(sub, buf, 1, x.whole, y.whole, c);
    ghost var all := buf[1..1 + il + fl];
    assert all[..il] == buf[1..1 + il];
    assert all[il..] == low;
    ghost var xs, ys: seq<Digit> := Lead(x.whole, il) + Shown(x.frac, fl), Lead(y.whole, il) + Shown(y.frac, fl);
    assert xs[..il] == Lead(x.whole, il) && xs[il..] == Shown(x.frac, fl);
    assert ys[..il] == Lead(y.whole, il) && ys[il..] == Shown(y.frac, fl);
    Joined(sub, all, il, xs, ys, 0, c1, c);
    ghost var digits: seq<Digit> := Cols(sub, xs, ys, 0).0;
    assert digits == all;
    Total(sub, x, y, il, fl, digits, c);
    buf[0] := if sub then 48 else 48 + c;
    AsDigits(buf, 48 + c, digits);
    result := buf[..];
  }

  /** The last `fl` digits of the buffer are the fraction. */
  method EmitBuffer(out: ByteVec, neg: bool, digits: seq<Digit>, fl: nat, scale: nat)
    requires fl <= |digits|
    modifies out
    ensures out.bytes == old(out.bytes) + Text(AtScale(Signed(neg, Dec(digits)), fl, scale), scale)
  {
    hide *;
    var cut := |digits| - fl;
    FracPart(digits, cut);
    Emit(out, neg, digits[..cut], 0, digits[cut..], scale);
  }

  /**
   * Appends `a + b`, exact and then cut to `scale` digits: magnitudes are added for equal signs,
   * otherwise the smaller one is taken from the larger, whose sign the result has.
   */
  method AddInto(out: ByteVec, a: Num, b: Num, scale: nat)
    requires a.WellFormed() && b.WellFormed()
    modifies out
    ensures var fl := MaxLen(a.frac, b.frac);
      out.bytes == old(out.bytes) + Text(AtScale(At(a, fl) + At(b, fl), fl, scale), scale)
  {
    hide *;
    var (x, y, neg, sub) := Arrange(a, b);
    Arranged(a, b);
    var fl := MaxLen(x.frac, y.frac);
    var digits := SumDigits(sub, x, y);
    EmitBuffer(out, neg, digits, fl, scale);
  }

  lemma FracPart(digits: seq<Digit>, cut: nat)
    requires cut <= |digits|
    ensures Dec(digits[..cut] + (Zeros(0) + digits[cut..])) == Dec(digits)
  {
    assert digits[..cut] + (Zeros(0) + digits[cut..]) == digits;
  }

  /** Appends `a - b`, exact and then cut to `scale` digits. */
  method SubInto(out: ByteVec, a: Num, b: Num, scale: nat)
    requires a.WellFormed() && b.WellFormed()
    modifies out
    ensures var fl := MaxLen(a.frac, b.frac);
      out.bytes == old(out.bytes) + Text(AtScale(At(a, fl) - At(b, fl), fl, scale), scale)
  {
    NegatedAt(b, MaxLen(a.frac, b.frac));
    hide *;
    AddInto(out, a, b.Negated(), scale);
  }

  lemma NegatedAt(n: Num, fl: nat)
    requires |n.frac| <= fl
    ensures At(n.Negated(), fl) == -At(n, fl)
    ensures n.WellFormed() ==> n.Negated().WellFormed()
    ensures n.Negated().frac == n.frac
  {
    var p := Pow(10, fl - |n.frac|);
    assert n.Negated().Unscaled() == -n.Unscaled();
    assert (-n.Unscaled()) * p == -(n.Unscaled() * p);
  }

  // ----- signed comparison

  function Signum(n: Num): int {
    if n.IsZero() then 0 else if n.neg then -1 else 1
  }

  /** Signed comparison; negative zero equals zero. */
  function Cmp(a: Num, b: Num): Ordering {
    var sa, sb := Signum(a), Signum(b);
    if sa != sb then Compare(sa, sb)
    else if sa == 0 then Equal
    else if sa == 1 then CmpMag(a, b)
    else CmpMag(b, a)
  }

  lemma MagSign(n: Num, fl: nat)
    requires n.WellFormed() && |n.frac| <= fl
    ensures 0 <= MagAt(n, fl) && (n.IsZero() <==> MagAt(n, fl) == 0)
    ensures At(n, fl) == Signed(n.neg, MagAt(n, fl))
  {
    hide Be, Pow;
    AtIsSigned(n, fl);
    ZeroNum(n);
    PowPos(10, fl - |n.frac|);
    if n.Unscaled() > 0 {
      MulStrict(0, n.Unscaled(), Pow(10, fl - |n.frac|));
    } else if n.Unscaled() < 0 {
      MulStrict(n.Unscaled(), 0, Pow(10, fl - |n.frac|));
    }
  }

  /** Comparison of operands is comparison of the numbers they denote. */
  lemma CmpIsOrder(a: Num, b: Num)
    requires a.WellFormed() && b.WellFormed()
    ensures var fl := MaxLen(a.frac, b.frac); Cmp(a, b) == Compare(At(a, fl), At(b, fl))
  {
    var fl := MaxLen(a.frac, b.frac);
    MagSign(a, fl);
    MagSign(b, fl);
    CmpMagIsOrder(a, b, fl);
    CmpMagIsOrder(b, a, fl);
  }
}
