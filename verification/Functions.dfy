/** The `bc*` functions: argument checks, a length bound known before the work, then the operation. */
module Functions {
  import opened Numerals
  import opened Words
  import opened Digits
  import opened Decimals
  import opened Buffers
  import opened Operands
  import opened Wrappers
  import Addition
  import Dividing
  import Multiplying
  import Parsing

  const MAX_SCALE: int := 2147483647
  const USIZE_MAX: int := 0xFFFF_FFFF_FFFF_FFFF

  datatype BcError =
    | ScaleOutOfRange
    | NotWellFormed(arg: nat)
    | FractionalExponent | ExponentTooLarge | NegativeExponent
    | FractionalBase | FractionalModulus | NegativeRadicand
    | InvalidSerialization
    | DivisionByZero
    | OutOfMemory(bytes: int)

  datatype BinOp = Add | Sub | Mul | Div

  // ----- what an operation shows

  /** The result of `a op b` cut to `scale` digits, in units of `10^-scale`. */
  function ShownResult(op: BinOp, a: Num, b: Num, scale: nat): int
    requires op == Div ==> b.Unscaled() != 0
  {
    var fl := Addition.MaxLen(a.frac, b.frac);
    match op
    case Add => AtScale(Addition.At(a, fl) + Addition.At(b, fl), fl, scale)
    case Sub => AtScale(Addition.At(a, fl) - Addition.At(b, fl), fl, scale)
    case Mul => AtScale(a.Unscaled() * b.Unscaled(), |a.frac| + |b.frac|, scale)
    case Div => Dividing.Quotient(a, b, scale)
  }

  /** The four operations, each appending its result; `estimate` is the float estimate of short quotients. */
  method Apply(out: ByteVec, op: BinOp, a: Num, b: Num, scale: nat, estimate: u64)
    requires a.WellFormed() && b.WellFormed() && (op == Div ==> b.Unscaled() != 0)
    modifies out
    ensures out.bytes == old(out.bytes) + Text(ShownResult(op, a, b, scale), scale)
  {
    hide AtScale, Addition.At, Dividing.Quotient, Text;
    match op
    case Add => Addition.AddInto(out, a, b, scale);
    case Sub => Addition.SubInto(out, a, b, scale);
    case Mul => Multiplying.MulInto(out, a, b, scale);
    case Div => Dividing.DivInto(out, a, b, scale, estimate);
  }

  // ----- the length bound

  /** An upper bound of the length of a two-operand result, known before the operation. */
  function ResultBound(a: Num, b: Num, scale: nat): nat {
    |a.whole| + |b.whole| + |b.frac| + scale + 4
  }

  function TextBound(k: nat, scale: nat): nat {
    1 + (if k > 1 then k else 1) + (if scale > 0 then scale + 1 else 0)
  }

  lemma TextLength(v: int, k: nat, scale: nat)
    requires Abs(v) < Pow(10, k + scale)
    ensures |Text(v, scale)| <= TextBound(k, scale)
  {
    hide Pow, Padded;
    PowPos(10, scale);
    DivModFact(Abs(v), Pow(10, scale));
    TruncSigned(false, Abs(v), Pow(10, scale));
    PowAdd(10, k, scale);
    MulCancelLt(Abs(v) / Pow(10, scale), Pow(10, k), Pow(10, scale));
    DigitsLength(Abs(v) / Pow(10, scale), k);
  }

  /** Cutting does not grow the integer part. */
  lemma CutBelow(v: int, s: nat, scale: nat, k: nat)
    requires Abs(v) < Pow(10, k + s)
    ensures Abs(AtScale(v, s, scale)) < Pow(10, k + scale)
  {
    hide Pow, AtScale;
    var r := AtScale(v, s, scale);
    AtScaleIsTruncation(v, s, scale);
    PowPos(10, scale);
    PowAdd(10, k, s);
    PowAdd(10, k, scale);
    MulStrict(Abs(v), Pow(10, k + s), Pow(10, scale));
    CutArithmetic(v, r, Pow(10, s), Pow(10, scale), Pow(10, k));
  }

  lemma CutArithmetic(v: int, r: int, p: int, q: int, k: int)
    requires 0 < p && Abs(v) * q < k * p * q
    requires v >= 0 ==> 0 <= r && r * p <= v * q
    requires v <= 0 ==> r <= 0 && v * q <= r * p
    ensures Abs(r) < k * q
  {
    assert (-v) * q == -(v * q) && (-r) * p == -(r * p);
    assert k * p * q == k * q * p by {
      assert p * q == q * p;
      assert k * p * q == k * (p * q) && k * q * p == k * (q * p);
    }
    MulCancelLt(Abs(r), k * q, p);
  }

  lemma AtBelow(n: Num, fl: nat)
    requires |n.frac| <= fl
    ensures Abs(Addition.At(n, fl)) < Pow(10, |n.whole| + fl)
  {
    Addition.AtIsSigned(n, fl);
    hide Pow, Be, Addition.At;
    BeBound(n.whole + Decimals.Shown(n.frac, fl), 10, 48);
  }

  lemma UnscaledBelow(n: Num)
    ensures Abs(n.Unscaled()) < Pow(10, |n.whole| + |n.frac|)
  {
    hide Be, Pow;
    BeBound(n.whole + n.frac, 10, 48);
  }

  lemma SumBelow(x: int, y: int, i: nat, j: nat, n: nat)
    requires Abs(x) < Pow(10, i) && Abs(y) < Pow(10, j) && i < n && j < n
    ensures Abs(x + y) < Pow(10, n) && Abs(x - y) < Pow(10, n)
  {
    hide Pow;
    PowMono(10, i, n - 1);
    PowMono(10, j, n - 1);
    PowStep(10, n - 1);
  }

  lemma ProductBelow(x: int, y: int, i: nat, j: nat)
    requires Abs(x) < Pow(10, i) && Abs(y) < Pow(10, j)
    ensures Abs(x * y) < Pow(10, i + j)
  {
    hide Pow;
    PowAdd(10, i, j);
    AbsProduct(x, y);
    MulMono(Abs(x), Pow(10, i), Abs(y));
    if Abs(x) == 0 {
      PowPos(10, i + j);
    } else {
      PowPos(10, i);
      MulStrict(Abs(y), Pow(10, j), Pow(10, i));
    }
  }

  lemma AbsProduct(x: int, y: int)
    ensures Abs(x * y) == Abs(x) * Abs(y)
  {
    assert (-x) * y == -(x * y) && x * (-y) == -(x * y) && (-x) * (-y) == x * y;
    MulNonneg(Abs(x), Abs(y));
  }

  /** A quotient's integer part is at most the dividend's plus the divisor's scale. */
  lemma QuotientBelow(a: Num, b: Num, scale: nat)
    requires b.Unscaled() != 0
    ensures Abs(Dividing.Quotient(a, b, scale)) < Pow(10, |a.whole| + |b.frac| + scale)
  {
    hide Pow, Be, Dividing.TruncQuot, Dividing.IsTruncated;
    var u, w, p, f := a.Unscaled(), b.Unscaled(), Pow(10, |a.frac|), Pow(10, |b.frac| + scale);
    UnscaledBelow(a);
    PowPos(10, |a.frac|);
    PowPos(10, |b.frac| + scale);
    Dividing.NonZeroProduct(w, p);
    var q := Dividing.Quotient(a, b, scale);
    Dividing.TruncQuotIff(u * f, w * p, q);
    PowAdd(10, |a.whole|, |a.frac|);
    PowAdd(10, |a.whole|, |b.frac| + scale);
    hide Dividing.Quotient, Signed;
    QuotientSize(u, f, w, p, q, Pow(10, |a.whole|));
  }

  lemma QuotientSize(u: int, f: int, w: int, p: int, q: int, k: int)
    requires 0 < f && w != 0 && 0 < p && Abs(u) < k * p && Dividing.IsTruncated(u * f, w * p, q)
    ensures Abs(q) < k * f
  {
    Dividing.NonZeroProduct(w, p);
    TruncatedSmaller(u * f, w * p, q);
    AbsProduct(u, f);
    AbsProduct(w, p);
    SizeChain(Abs(u), f, Abs(w), p, Abs(q), k);
  }

  lemma SizeChain(u: nat, f: int, w: nat, p: int, q: nat, k: int)
    requires 0 < f && 0 < w && 0 < p && u < k * p && q * (w * p) <= u * f
    ensures q < k * f
  {
    MulMono(1, w, p);
    MulMono(p, w * p, q);
    MulStrict(u, k * p, f);
    Exchange(k, p, f);
    MulCancelLt(q, k * f, p);
  }

  lemma Exchange(k: int, p: int, f: int)
    ensures k * p * f == k * f * p
  {
    assert p * f == f * p;
    assert k * p * f == k * (p * f) && k * f * p == k * (f * p);
  }

  lemma TruncatedSmaller(n: int, d: int, q: int)
    requires d != 0 && Dividing.IsTruncated(n, d, q)
    ensures Abs(q) * Abs(d) <= Abs(n)
  {
    AbsProduct(q, d);
    if q != 0 {
      Dividing.Multiples(q, d);
    }
  }

  /** No result is longer than the bound: a call that passes the check stays within the limit. */
  lemma BoundHolds(op: BinOp, a: Num, b: Num, scale: nat)
    requires op == Div ==> b.Unscaled() != 0
    ensures |Text(ShownResult(op, a, b, scale), scale)| <= ResultBound(a, b, scale)
  {
    var fl := Addition.MaxLen(a.frac, b.frac);
    var n := (if |a.whole| >= |b.whole| then |a.whole| else |b.whole|) + 1;
    hide Text, Pow, Be, AtScale, Addition.At, Dividing.Quotient;
    match op
    case Add =>
      AtBelow(a, fl);
      AtBelow(b, fl);
      SumBelow(Addition.At(a, fl), Addition.At(b, fl), |a.whole| + fl, |b.whole| + fl, n + fl);
      CutBelow(Addition.At(a, fl) + Addition.At(b, fl), fl, scale, n);
      TextLength(ShownResult(op, a, b, scale), n, scale);
    case Sub =>
      AtBelow(a, fl);
      AtBelow(b, fl);
      SumBelow(Addition.At(a, fl), Addition.At(b, fl), |a.whole| + fl, |b.whole| + fl, n + fl);
      CutBelow(Addition.At(a, fl) - Addition.At(b, fl), fl, scale, n);
      TextLength(ShownResult(op, a, b, scale), n, scale);
    case Mul =>
      UnscaledBelow(a);
      UnscaledBelow(b);
      ProductBelow(a.Unscaled(), b.Unscaled(), |a.whole| + |a.frac|, |b.whole| + |b.frac|);
      CutBelow(a.Unscaled() * b.Unscaled(), |a.frac| + |b.frac|, scale, |a.whole| + |b.whole|);
      TextLength(ShownResult(op, a, b, scale), |a.whole| + |b.whole|, scale);
    case Div =>
      QuotientBelow(a, b, scale);
      TextLength(ShownResult(op, a, b, scale), |a.whole| + |b.frac|, scale);
  }

  // ----- the calls

  function CheckLen(len: nat, limit: nat): Option<BcError> {
    if len > limit then Some(OutOfMemory(if len <= USIZE_MAX then len else USIZE_MAX)) else None
  }

  function ResolveScale(scale: Option<int>, default_: nat): Result<nat, BcError> {
    match scale
    case None => Ok(default_)
    case Some(s) => if 0 <= s <= MAX_SCALE then Ok(s) else Err(ScaleOutOfRange)
  }

  /** `a op b` at `scale`, refused when its bound exceeds the limit. */
  method RunInto(out: ByteVec, op: BinOp, a: Num, b: Num, scale: nat, limit: nat, estimate: u64)
    returns (err: Option<BcError>)
    requires a.WellFormed() && b.WellFormed() && (op == Div ==> b.Unscaled() != 0)
    modifies out
    ensures err == CheckLen(ResultBound(a, b, scale), limit)
    ensures err.Some? <==> ResultBound(a, b, scale) > limit
    ensures err.Some? ==> err.value.OutOfMemory? && 0 <= err.value.bytes <= 0xFFFF_FFFF_FFFF_FFFF
    ensures err.None? ==> out.bytes == old(out.bytes) + Text(ShownResult(op, a, b, scale), scale)
    ensures err.Some? ==> out.bytes == old(out.bytes)
    ensures |out.bytes| <= |old(out.bytes)| + limit
  {
    hide Text, ShownResult;
    err := CheckLen(ResultBound(a, b, scale), limit);
    if err.Some? {
      return;
    }
    Apply(out, op, a, b, scale, estimate);
    BoundHolds(op, a, b, scale);
  }

  /** What a call on two strings does: the scale first, then each operand, then division by zero, then the length. */
  function Checked(op: BinOp, num1: seq<byte>, num2: seq<byte>, scale: Option<int>, default_: nat, limit: nat)
    : Option<BcError>
  {
    var s := ResolveScale(scale, default_);
    var a, b := Parsing.Parsed(num1), Parsing.Parsed(num2);
    if s.Err? then Some(s.error)
    else if a.None? then Some(NotWellFormed(1))
    else if b.None? then Some(NotWellFormed(2))
    else if op == Div && b.value.IsZero() then Some(DivisionByZero)
    else CheckLen(ResultBound(a.value, b.value, s.value), limit)
  }

  lemma ParsedWellFormed(s: seq<byte>)
    requires Parsing.Parsed(s).Some?
    ensures Parsing.Parsed(s).value.WellFormed()
  {}

  /**
   * `t` reads as the result of the operation on the operands of the two strings, with as many
   * fraction digits as the call asks for, or as the default says when it does not ask.
   */
  ghost predicate Answers(
    op: BinOp, num1: seq<byte>, num2: seq<byte>, scale: Option<int>, default_: nat, t: seq<byte>
  ) {
    var a, b, r := Parsing.Parsed(num1), Parsing.Parsed(num2), Parsing.Parsed(t);
    && a.Some? && b.Some? && r.Some? && (op == Div ==> b.value.Unscaled() != 0)
    && |r.value.frac| == (if scale.None? then default_ else scale.value)
    && r.value.Unscaled() == ShownResult(op, a.value, b.value, |r.value.frac|)
  }

  lemma TextAnswers(op: BinOp, num1: seq<byte>, num2: seq<byte>, scale: Option<int>, default_: nat)
    requires ResolveScale(scale, default_).Ok? && Parsing.Parsed(num1).Some? && Parsing.Parsed(num2).Some?
    requires op == Div ==> Parsing.Parsed(num2).value.Unscaled() != 0
    ensures var s := ResolveScale(scale, default_).value;
      var v := ShownResult(op, Parsing.Parsed(num1).value, Parsing.Parsed(num2).value, s);
      Answers(op, num1, num2, scale, default_, Text(v, s))
  {
    hide Parsing.Parsed, Parsing.NumOf, Text, ShownResult;
    var s := ResolveScale(scale, default_).value;
    var v := ShownResult(op, Parsing.Parsed(num1).value, Parsing.Parsed(num2).value, s);
    Parsing.TextReads(v, s);
    Parsing.NumOfValue(v, s);
  }

  /** `bcadd`, `bcsub`, `bcmul` and `bcdiv` on operand strings. */
  method BcCall(out: ByteVec, op: BinOp, num1: seq<byte>, num2: seq<byte>, scale: Option<int>, default_: nat,
    limit: nat, estimate: u64)
      returns (err: Option<BcError>)
    modifies out
    ensures err == Checked(op, num1, num2, scale, default_, limit)
    ensures err.Some? ==> out.bytes == old(out.bytes)
    ensures err.None? ==> var (s, a, b) := (ResolveScale(scale, default_).value, Parsing.Parsed(num1).value,
      Parsing.Parsed(num2).value);
      && (op == Div ==> b.Unscaled() != 0)
      && out.bytes == old(out.bytes) + Text(ShownResult(op, a, b, s), s)
      && |out.bytes| <= |old(out.bytes)| + limit
    ensures err.None? ==>
      |old(out.bytes)| <= |out.bytes| && Answers(op, num1, num2, scale, default_, out.bytes[|old(out.bytes)|..])
  {
    hide Text, ShownResult, Parsing.Parsed, Answers;
    var s := ResolveScale(scale, default_);
    if s.Err? {
      return Some(s.error);
    }
    var a := Parsing.Parse(num1);
    if a.None? {
      return Some(NotWellFormed(1));
    }
    var b := Parsing.Parse(num2);
    if b.None? {
      return Some(NotWellFormed(2));
    }
    ParsedWellFormed(num1);
    ParsedWellFormed(num2);
    ZeroNum(b.value);
    if op == Div && b.value.IsZero() {
      return Some(DivisionByZero);
    }
    err := RunInto(out, op, a.value, b.value, s.value, limit, estimate);
    if err.None? {
      TextAnswers(op, num1, num2, scale, default_);
      ghost var text := Text(ShownResult(op, a.value, b.value, s.value), s.value);
      assert (old(out.bytes) + text)[|old(out.bytes)|..] == text;
    }
  }
}
