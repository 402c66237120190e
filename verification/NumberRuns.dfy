/** Programs over `BcMath\Number` values: what every run keeps. */
module NumberRuns {
  import opened Numerals
  import opened Words
  import opened Decimals
  import opened Wrappers
  import opened Rounding
  import opened Functions
  import opened Numbers
  import opened NumberOps
  import opened NumberPowers
  import opened Shortcut
  import Addition
  import Dividing
  import Parsing

  /** An argument: a string, an int, or an earlier result. */
  datatype Operand = Str(s: seq<byte>) | Int(i: int) | Ref(k: nat)

  datatype Action =
    | Create(arg: Operand)
    | Unserialize(data: Option<seq<byte>>)
    | Calculate(op: NumberOp, lhs: Operand, rhs: Operand, scale: Option<int>)
    | DivideMod(lhs: Operand, rhs: Operand, scale: Option<int>)
    | Raise(lhs: Operand, rhs: Operand, scale: Option<int>)
    | RaiseMod(lhs: Operand, rhs: Operand, modulus: Operand, scale: Option<int>)
    | Minus(arg: Operand)
    | SquareRoot(arg: Operand, scale: Option<int>)
    | RoundAt(arg: Operand, precision: int, mode: RoundingMode)

  /** What the surroundings decide: the length limit, and the logarithm bounds of a base and an exponent. */
  datatype Env = Env(limit: nat, logs: (Num, int) -> LogBounds)

  // ----- what each action means

  /** What an argument denotes: earlier results are read by parsing their text. */
  ghost function Denoted(store: seq<Number>, o: Operand): Option<Num> {
    match o
    case Str(s) => Parsing.Parsed(s)
    case Int(i) => Some(Parsing.NumOf(i, 0))
    case Ref(k) => if k < |store| then Parsing.Parsed(store[k].value) else None
  }

  function ScaleArg(scale: Option<int>): Result<Option<nat>, BcError> {
    match scale
    case None => Ok(None)
    case Some(s) => if 0 <= s <= MAX_SCALE then Ok(Some(s)) else Err(ScaleOutOfRange)
  }

  datatype Args = Args(a: Num, b: Num, scale: Option<nat>)

  /** Arguments are checked in order, then the scale. */
  ghost function TwoArgs(store: seq<Number>, lhs: Operand, rhs: Operand, scale: Option<int>): Result<Args, BcError> {
    var a, b, s := Denoted(store, lhs), Denoted(store, rhs), ScaleArg(scale);
    if a.None? then Err(NotWellFormed(1))
    else if b.None? then Err(NotWellFormed(2))
    else if s.Err? then Err(s.error)
    else Ok(Args(a.value, b.value, s.value))
  }

  /** A result of one number. */
  function Single(r: Result<Number, BcError>): Result<seq<Number>, BcError> {
    match r
    case Err(error) => Err(error)
    case Ok(n) => Ok([n])
  }

  function Pair(r: Result<(Number, Number), BcError>): Result<seq<Number>, BcError> {
    match r
    case Err(error) => Err(error)
    case Ok((q, m)) => Ok([q, m])
  }

  /** The operand as a number at the scale of its fraction. */
  function Plain(n: Num): Number { Make(n.Unscaled(), |n.frac|) }

  function UnserializeSpec(data: Option<seq<byte>>): Result<Number, BcError> {
    if data.None? || data.value == [] || Parsing.Parsed(data.value).None? then Err(InvalidSerialization)
    else Ok(Plain(Parsing.Parsed(data.value).value))
  }

  function RaiseSpec(args: Args, env: Env): Result<Number, BcError> {
    var e := ExponentOf(args.b);
    if e.Err? then Err(e.error) else PowSpec(args.a, e.value, args.scale, env.logs(args.a, e.value), env.limit)
  }

  /** The new numbers of an action, or its error. */
  ghost function Outcome(store: seq<Number>, action: Action, env: Env): Result<seq<Number>, BcError> {
    match action
    case Create(arg) =>
      var n := Denoted(store, arg);
      if n.None? then Err(NotWellFormed(1)) else Single(Ok(Plain(n.value)))
    case Unserialize(data) => Single(UnserializeSpec(data))
    case Calculate(op, lhs, rhs, scale) =>
      var args := TwoArgs(store, lhs, rhs, scale);
      if args.Err? then Err(args.error)
      else Single(CalcSpec(op, args.value.a, args.value.b, args.value.scale, env.limit))
    case DivideMod(lhs, rhs, scale) =>
      var args := TwoArgs(store, lhs, rhs, scale);
      if args.Err? then Err(args.error)
      else Pair(DivModSpec(args.value.a, args.value.b, args.value.scale, env.limit))
    case Raise(lhs, rhs, scale) =>
      var args := TwoArgs(store, lhs, rhs, scale);
      if args.Err? then Err(args.error) else Single(RaiseSpec(args.value, env))
    case RaiseMod(lhs, rhs, modulus, scale) =>
      var a, e, m, s := Denoted(store, lhs), Denoted(store, rhs), Denoted(store, modulus), ScaleArg(scale);
      if a.None? then Err(NotWellFormed(1))
      else if e.None? then Err(NotWellFormed(2))
      else if m.None? then Err(NotWellFormed(3))
      else if s.Err? then Err(s.error)
      else Single(PowModSpec(a.value, e.value, m.value, s.value, env.limit))
    case Minus(arg) =>
      var n := Denoted(store, arg);
      if n.None? then Err(NotWellFormed(1)) else Single(Ok(Plain(n.value.Negated())))
    case SquareRoot(arg, scale) =>
      var n, s := Denoted(store, arg), ScaleArg(scale);
      if n.None? then Err(NotWellFormed(1))
      else if s.Err? then Err(s.error)
      else Single(SqrtSpec(n.value, s.value, env.limit))
    case RoundAt(arg, precision, mode) =>
      var n := Denoted(store, arg);
      if n.None? then Err(NotWellFormed(1)) else Single(RoundSpec(n.value, precision, mode, env.limit))
  }

  // ----- every run

  ghost predicate AllCanonical(store: seq<Number>) {
    forall k :: 0 <= k < |store| ==> Canonical(store[k])
  }

  /** The store after an action: results join it, an error leaves it as it was. */
  ghost function After(store: seq<Number>, action: Action, env: Env): seq<Number> {
    var r := Outcome(store, action, env);
    if r.Ok? then store + r.value else store
  }

  ghost predicate IsRun(run: seq<seq<Number>>, env: Env) {
    |run| > 0 && run[0] == [] && forall i :: 0 <= i < |run| - 1 ==> Next(run[i], run[i + 1], env)
  }

  ghost predicate Next(store: seq<Number>, store': seq<Number>, env: Env) {
    exists action :: store' == After(store, action, env)
  }

  lemma FormattedCanonical(v: int, s: nat, scale: nat, limit: nat)
    ensures Formatted(v, s, scale, limit).Ok? ==> Canonical(Formatted(v, s, scale, limit).value)
  {
    MakeCanonical(AtScale(v, s, scale), scale);
  }

  lemma CalcCanonical(op: NumberOp, a: Num, b: Num, scale: Option<nat>, limit: nat)
    ensures CalcSpec(op, a, b, scale, limit).Ok? ==> Canonical(CalcSpec(op, a, b, scale, limit).value)
  {
    hide Formatted, ShownResult, TrimDown, Text, Remainder, RemainderScale, Canonical, Make;
    match op
    case Modulo =>
      if b.Unscaled() != 0 {
        var rs := if scale.Some? then scale.value else Addition.MaxLen(a.frac, b.frac);
        FormattedCanonical(Remainder(a, b), RemainderScale(a, b), rs, limit);
      }
    case Arith(op) =>
      if !(op == Div && b.Unscaled() == 0) {
        var default_ := if op == Div then |a.frac| + EXPAND_SCALE else DefaultScale(op, a, b);
        var s := if scale.Some? then scale.value else default_;
        var v := ShownResult(op, a, b, s);
        MakeCanonical(v, s);
        MakeCanonical(TrimDown(v, s, |a.frac|).0, TrimDown(v, s, |a.frac|).1);
      }
  }

  lemma DivModCanonical(a: Num, b: Num, scale: Option<nat>, limit: nat)
    requires DivModSpec(a, b, scale, limit).Ok?
    ensures var (q, r) := DivModSpec(a, b, scale, limit).value; Canonical(q) && Canonical(r)
  {
    hide Formatted, Remainder, RemainderScale, Canonical, Dividing.Quotient;
    var rs := if scale.Some? then scale.value else Addition.MaxLen(a.frac, b.frac);
    FormattedCanonical(Dividing.Quotient(a, b, 0), 0, 0, limit);
    FormattedCanonical(Remainder(a, b), RemainderScale(a, b), rs, limit);
  }

  lemma PowCanonical(a: Num, e: int, scale: Option<nat>, logs: LogBounds, limit: nat)
    ensures PowSpec(a, e, scale, logs, limit).Ok? ==> Canonical(PowSpec(a, e, scale, logs, limit).value)
  {
    hide Formatted, TrimDown, Pow, Inverse, Num.Unscaled, Num.Trimmed, IsUnit, PowRefused, ShortcutFires, Canonical;
    var n := NegScale(a, scale);
    FormattedCanonical(0, 0, n, limit);
    if e >= 0 {
      MulNonneg(|a.frac|, e);
      var s := |a.frac| * e;
      FormattedCanonical(Pow(a.Unscaled(), e), s, if scale.Some? then n else s, limit);
    } else if a.Unscaled() != 0 {
      FormattedCanonical(0, 0, 0, limit);
      FormattedCanonical(Inverse(a, -e, n), n, n, limit);
      FormattedCanonical(Signed(a.neg && e % 2 != 0, 1), 0, 0, limit);
      var (w, t) := TrimDown(Inverse(a, -e, n), n, |a.frac|);
      FormattedCanonical(w, t, t, limit);
    }
  }

  lemma PowModCanonical(a: Num, e: Num, m: Num, scale: Option<nat>, limit: nat)
    ensures PowModSpec(a, e, m, scale, limit).Ok? ==> Canonical(PowModSpec(a, e, m, scale, limit).value)
  {
    hide Formatted, Pow, Num.Unscaled, AllZeros, Powers.TruncRem, Canonical;
    if PowModSpec(a, e, m, scale, limit).Ok? {
      assert exists v: int, t: nat :: PowModSpec(a, e, m, scale, limit) == Formatted(v, 0, t, limit);
      var v, t :| PowModSpec(a, e, m, scale, limit) == Formatted(v, 0, t, limit);
      FormattedCanonical(v, 0, t, limit);
    }
  }

  lemma PlainCanonical(n: Num)
    ensures Canonical(Plain(n))
  {
    MakeCanonical(n.Unscaled(), |n.frac|);
  }

  /** Every result of every action is canonical, whatever its arguments are. */
  lemma OutcomeCanonical(store: seq<Number>, action: Action, env: Env)
    requires Outcome(store, action, env).Ok?
    ensures AllCanonical(Outcome(store, action, env).value)
  {
    hide Denoted, CalcSpec, DivModSpec, PowSpec, PowModSpec, SqrtSpec, RoundSpec, ExponentOf, Parsing.Parsed, Plain,
      Canonical;
    match action
    case Create(arg) => PlainCanonical(Denoted(store, arg).value);
    case Unserialize(data) => PlainCanonical(Parsing.Parsed(data.value).value);
    case Calculate(op, lhs, rhs, scale) =>
      var args := TwoArgs(store, lhs, rhs, scale).value;
      CalcCanonical(op, args.a, args.b, args.scale, env.limit);
    case DivideMod(lhs, rhs, scale) =>
      var args := TwoArgs(store, lhs, rhs, scale).value;
      DivModCanonical(args.a, args.b, args.scale, env.limit);
    case Raise(lhs, rhs, scale) =>
      var args := TwoArgs(store, lhs, rhs, scale).value;
      var e := ExponentOf(args.b).value;
      PowCanonical(args.a, e, args.scale, env.logs(args.a, e), env.limit);
    case RaiseMod(lhs, rhs, modulus, scale) =>
      PowModCanonical(Denoted(store, lhs).value, Denoted(store, rhs).value, Denoted(store, modulus).value,
        ScaleArg(scale).value, env.limit);
    case Minus(arg) => PlainCanonical(Denoted(store, arg).value.Negated());
    case SquareRoot(arg, scale) => SqrtCanonical(Denoted(store, arg).value, ScaleArg(scale).value, env.limit);
    case RoundAt(arg, precision, mode) => RoundCanonical(Denoted(store, arg).value, precision, mode, env.limit);
  }

  lemma SqrtCanonical(a: Num, scale: Option<nat>, limit: nat)
    ensures SqrtSpec(a, scale, limit).Ok? ==> Canonical(SqrtSpec(a, scale, limit).value)
  {
    hide Formatted, Root, TrimDown, Canonical;
    if a.Unscaled() >= 0 {
      match scale
      case Some(s) => FormattedCanonical(Root(a, s), s, s, limit);
      case None =>
        var s := |a.frac|;
        var (w, t) := TrimDown(Root(a, s + EXPAND_SCALE), s + EXPAND_SCALE, s);
        FormattedCanonical(w, t, t, limit);
    }
  }

  lemma RoundCanonical(n: Num, precision: int, mode: RoundingMode, limit: nat)
    ensures RoundSpec(n, precision, mode, limit).Ok? ==> Canonical(RoundSpec(n, precision, mode, limit).value)
  {
    hide Formatted, TooLong, Numerator, Denominator, Canonical, IsRounded;
    DenominatorPositive(n, precision);
    var q := RoundTo(mode, Numerator(n, precision), Denominator(n, precision));
    FormattedCanonical(q * Pow(10, Max0(-precision)), Max0(precision), Max0(precision), limit);
  }

  /** Throughout every run all numbers are canonical, and no later action changes an earlier number. */
  lemma {:induction false} RunKeepsCanonical(run: seq<seq<Number>>, env: Env, i: nat)
    requires IsRun(run, env) && i < |run|
    ensures AllCanonical(run[i])
    ensures forall j :: 0 <= j <= i ==> run[j] <= run[i]
  {
    hide Outcome, Canonical;
    if i > 0 {
      RunKeepsCanonical(run, env, i - 1);
      assert Next(run[i - 1], run[i - 1 + 1], env);
      var action :| run[i] == After(run[i - 1], action, env);
      if Outcome(run[i - 1], action, env).Ok? {
        OutcomeCanonical(run[i - 1], action, env);
      }
    }
  }

  /** Throughout every run, cutting a number apart and parsing its text agree, and none shows "-0". */
  lemma RunReadsBack(run: seq<seq<Number>>, env: Env, i: nat, k: nat)
    requires IsRun(run, env) && i < |run| && k < |run[i]|
    ensures Canonical(run[i][k]) && |run[i][k].value| > 0
    ensures var n := run[i][k];
      && Parsing.Parsed(n.value) == Some(AsNum(n)) && |AsNum(n).frac| == n.scale
      && (n.value[0] == 45 <==> AsNum(n).Unscaled() < 0)
  {
    RunKeepsCanonical(run, env, i);
    hide *;
    CanonicalAt(run[i], k);
    Reads(run[i][k]);
    NoNegativeZero(run[i][k]);
  }

  /** Throughout every run, a number's serialized text gives the same number back. */
  lemma RunSerializes(run: seq<seq<Number>>, env: Env, i: nat, k: nat)
    requires IsRun(run, env) && i < |run| && k < |run[i]|
    ensures UnserializeSpec(Some(run[i][k].value)) == Ok(run[i][k])
  {
    RunKeepsCanonical(run, env, i);
    hide *;
    CanonicalAt(run[i], k);
    Serializes(run[i][k]);
  }

  lemma Serializes(n: Number)
    requires Canonical(n)
    ensures UnserializeSpec(Some(n.value)) == Ok(n)
  {
    hide Canonical, Text, Parsing.Parsed, AsNum;
    Reads(n);
    NoNegativeZero(n);
  }

  lemma CanonicalAt(store: seq<Number>, k: nat)
    requires AllCanonical(store) && k < |store|
    ensures Canonical(store[k])
  {}

  /** A default-scale sum or difference is exact. */
  lemma SumResult(op: BinOp, x: Num, y: Num, limit: nat)
    requires op == Add || op == Sub
    ensures var s, r := Addition.MaxLen(x.frac, y.frac), CalcSpec(Arith(op), x, y, None, limit);
      var v := if op == Add then Addition.At(x, s) + Addition.At(y, s) else Addition.At(x, s) - Addition.At(y, s);
      r.Ok? ==> r.value == Make(v, s)
  {
    hide Text, AtScale, Addition.At, Pow, Be, Signed;
    var s := Addition.MaxLen(x.frac, y.frac);
    Dividing.SameScale(Addition.At(x, s) + Addition.At(y, s), s);
    Dividing.SameScale(Addition.At(x, s) - Addition.At(y, s), s);
  }

  lemma AtValue(n: Num, s: nat)
    requires |n.frac| <= s
    ensures Addition.At(n, s) == n.Unscaled() * Pow(10, s - |n.frac|)
  {}

  /** With default scales, adding and then subtracting gives the first number back, at the larger scale. */
  lemma AddThenSubtract(a: Number, b: Number, limit: nat)
    requires Canonical(a) && Canonical(b)
    requires var sum := CalcSpec(Arith(Add), AsNum(a), AsNum(b), None, limit);
      sum.Ok? && Canonical(sum.value) && CalcSpec(Arith(Sub), AsNum(sum.value), AsNum(b), None, limit).Ok?
    ensures var s := if a.scale >= b.scale then a.scale else b.scale;
      var sum := CalcSpec(Arith(Add), AsNum(a), AsNum(b), None, limit).value;
      CalcSpec(Arith(Sub), AsNum(sum), AsNum(b), None, limit) == Ok(Make(AsNum(a).Unscaled() * Pow(10, s - a.scale), s))
  {
    hide *;
    var x, y := AsNum(a), AsNum(b);
    var s := if a.scale >= b.scale then a.scale else b.scale;
    Reads(a);
    Reads(b);
    LongerIs(x, y);
    var total := Addition.At(x, s) + Addition.At(y, s);
    SumResult(Add, x, y, limit);
    ReadsAsParsed(total, s);
    var z := AsNum(Make(total, s));
    LongerIs(z, y);
    SumResult(Sub, z, y, limit);
    AtOwnScale(z);
    AtValue(x, s);
  }

  lemma LongerIs(x: Num, y: Num)
    ensures Addition.MaxLen(x.frac, y.frac) == if |x.frac| >= |y.frac| then |x.frac| else |y.frac|
  {}

  lemma AtOwnScale(n: Num)
    ensures Addition.At(n, |n.frac|) == n.Unscaled()
  {
    PowStep(10, 0);
  }

  // ----- running it

  method ReadOperand(store: seq<Number>, o: Operand) returns (n: Option<Num>)
    requires AllCanonical(store) && IntFits(o)
    ensures n == Denoted(store, o)
    ensures n.Some? ==> n.value.WellFormed()
  {
    hide Parsing.Parsed, Parsing.NumOf, Canonical, Text;
    match o
    case Str(s) =>
      n := Parsing.Parse(s);
      if n.Some? {
        ParsedWellFormed(s);
      }
    case Int(i) =>
      var t := IntText(i);
      n := Parsing.Parse(t);
      Parsing.TextReads(i, 0);
      Parsing.NumOfValue(i, 0);
    case Ref(k) =>
      if k < |store| {
        Reads(store[k]);
        n := Some(AsNum(store[k]));
      } else {
        n := None;
      }
  }

  method ReadTwo(store: seq<Number>, lhs: Operand, rhs: Operand, scale: Option<int>) returns (r: Result<Args, BcError>)
    requires AllCanonical(store) && IntFits(lhs) && IntFits(rhs)
    ensures r == TwoArgs(store, lhs, rhs, scale)
    ensures r.Ok? ==> r.value.a.WellFormed() && r.value.b.WellFormed()
  {
    hide Denoted, Num.WellFormed, Canonical;
    var a := ReadOperand(store, lhs);
    var b := ReadOperand(store, rhs);
    if a.None? || b.None? {
      return Err(NotWellFormed(if a.None? then 1 else 2));
    }
    var s := ScaleArg(scale);
    if s.Err? {
      return Err(s.error);
    }
    r := Ok(Args(a.value, b.value, s.value));
  }

  /** `__unserialize`: the value must be a well-formed number's text. */
  method UnserializeNumber(data: Option<seq<byte>>) returns (r: Result<Number, BcError>)
    ensures r == UnserializeSpec(data)
  {
    hide Parsing.Parsed, Text, Num.Unscaled;
    if data.None? || |data.value| == 0 {
      return Err(InvalidSerialization);
    }
    var n := FromString(data.value);
    r := if n.None? then Err(InvalidSerialization) else Ok(n.value);
  }

  method RaisePower(args: Args, env: Env) returns (r: Result<Number, BcError>)
    requires args.a.WellFormed() && args.b.WellFormed()
    ensures r == RaiseSpec(args, env)
  {
    hide ExponentOf, PowSpec, Num.WellFormed;
    var e := Exponent(args.b);
    if e.Err? {
      return Err(e.error);
    }
    r := PowImpl(args.a, e.value, args.scale, env.logs(args.a, e.value), env.limit);
  }

  /** Carries out an action on two arguments and a scale. */
  method ExecuteTwo(store: seq<Number>, action: Action, env: Env, estimate: u64)
    returns (r: Result<seq<Number>, BcError>)
    requires AllCanonical(store) && IntsFit(action)
    requires action.Calculate? || action.DivideMod? || action.Raise?
    ensures r == Outcome(store, action, env)
  {
    hide Denoted, Num.WellFormed, Canonical, CalcSpec, DivModSpec, RaiseSpec, TwoArgs;
    var args := ReadTwo(store, action.lhs, action.rhs, action.scale);
    if args.Err? {
      return Err(args.error);
    }
    var a, b, s := args.value.a, args.value.b, args.value.scale;
    match action
    case Calculate(op, _, _, _) =>
      var n := Calc(op, a, b, s, env.limit, estimate);
      r := Single(n);
    case DivideMod(_, _, _) =>
      var n := DivModNumbers(a, b, s, env.limit);
      r := Pair(n);
    case Raise(_, _, _) =>
      var n := RaisePower(args.value, env);
      r := Single(n);
  }

  /** Carries out an action; `estimate` and `env.logs` stand for the floating-point numbers inside. */
  method Execute(store: seq<Number>, action: Action, env: Env, estimate: u64) returns (r: Result<seq<Number>, BcError>)
    requires AllCanonical(store)
    requires IntsFit(action)
    ensures r == Outcome(store, action, env)
  {
    if action.Calculate? || action.DivideMod? || action.Raise? {
      r := ExecuteTwo(store, action, env, estimate);
      return;
    }
    hide Denoted, Num.WellFormed, Canonical, Text, PowModSpec, SqrtSpec, RoundSpec, UnserializeSpec;
    match action
    case Create(arg) =>
      var n := ReadOperand(store, arg);
      if n.None? {
        return Err(NotWellFormed(1));
      }
      var made := FromOperand(n.value);
      r := Ok([made]);
    case Unserialize(data) =>
      var n := UnserializeNumber(data);
      r := Single(n);
    case RaiseMod(lhs, rhs, modulus, scale) =>
      var a := ReadOperand(store, lhs);
      var e := ReadOperand(store, rhs);
      var m := ReadOperand(store, modulus);
      if a.None? || e.None? || m.None? {
        return Err(NotWellFormed(if a.None? then 1 else if e.None? then 2 else 3));
      }
      var s := ScaleArg(scale);
      if s.Err? {
        return Err(s.error);
      }
      var n := PowModNumber(a.value, e.value, m.value, s.value, env.limit);
      r := Single(n);
    case Minus(arg) =>
      var n := ReadOperand(store, arg);
      if n.None? {
        return Err(NotWellFormed(1));
      }
      NegatedValue(n.value);
      var made := FromOperand(n.value.Negated());
      r := Ok([made]);
    case SquareRoot(arg, scale) =>
      var a := ReadOperand(store, arg);
      if a.None? {
        return Err(NotWellFormed(1));
      }
      var s := ScaleArg(scale);
      if s.Err? {
        return Err(s.error);
      }
      var n := SqrtNumber(a.value, s.value, env.limit);
      r := Single(n);
    case RoundAt(arg, precision, mode) =>
      var a := ReadOperand(store, arg);
      if a.None? {
        return Err(NotWellFormed(1));
      }
      var n := RoundNumber(a.value, precision, mode, env.limit);
      r := Single(n);
  }

  predicate IntFits(o: Operand) {
    o.Int? ==> -0x8000_0000_0000_0000 <= o.i < 0x8000_0000_0000_0000
  }

  predicate IntsFit(action: Action) {
    match action
    case Create(arg) => IntFits(arg)
    case Unserialize(_) => true
    case Calculate(_, lhs, rhs, _) => IntFits(lhs) && IntFits(rhs)
    case DivideMod(lhs, rhs, _) => IntFits(lhs) && IntFits(rhs)
    case Raise(lhs, rhs, _) => IntFits(lhs) && IntFits(rhs)
    case RaiseMod(lhs, rhs, modulus, _) => IntFits(lhs) && IntFits(rhs) && IntFits(modulus)
    case Minus(arg) => IntFits(arg)
    case SquareRoot(arg, _) => IntFits(arg)
    case RoundAt(arg, _, _) => IntFits(arg)
  }
}
