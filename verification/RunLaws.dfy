/** What the actions of a program over `BcMath\Number` values do, in terms of the values of their arguments. */
module RunLaws {
  import opened Numerals
  import opened Words
  import opened Decimals
  import opened Wrappers
  import opened Rounding
  import opened Functions
  import opened Numbers
  import opened NumberLaws
  import opened NumberOps
  import opened NumberPowers
  import opened NumberRuns
  import opened Shortcut
  import Parsing

  // ----- what the actions of a run mean

  /** The value of an argument: a string's, an int, or what an earlier number shows. */
  ghost function ReadAs(store: seq<Number>, o: Operand): Option<Decimal>
    requires AllCanonical(store)
  {
    match o
    case Str(s) => if Parsing.Parsed(s).None? then None else Some(ValueOf(Parsing.Parsed(s).value))
    case Int(i) => Some(Decimal(i, 0))
    case Ref(k) => if k < |store| then Some(ReadBack(store[k])) else None
  }

  /** The bounds computed for this power are accurate enough for the shortcut to be right. */
  ghost predicate Reliable(a: Num, e: int, logs: LogBounds) {
    exists eps: real :: Within(a, logs, eps) && Abs(e) as real * eps <= 2.0
  }

  predicate IsExponent(y: Decimal, e: int) { y.v == e * Pow(10, y.s) && -I64_MAX <= e <= I64_MAX }

  /** `a` to the power `e`; anything else can only be zero, and only when the logarithm is not reliable. */
  ghost predicate PowerMeans(a: Num, e: int, scale: Option<int>, env: Env, r: Decimal) {
    IsPowerOf(ValueOf(a), e, scale, r) || (!Reliable(a, e, env.logs(a, e)) && r.v == 0)
  }

  /** What the new numbers of an action are, in terms of the values of its arguments. */
  ghost predicate Means(store: seq<Number>, action: Action, env: Env, new_: seq<Number>)
    requires AllCanonical(store) && AllCanonical(new_)
  {
    match action
    case Create(arg) =>
      |new_| == 1 && ReadAs(store, arg) == Some(ReadBack(new_[0]))
    case Unserialize(data) =>
      |new_| == 1 && data.Some? && data.value != [] && ReadAs(store, Str(data.value)) == Some(ReadBack(new_[0]))
    case Calculate(op, lhs, rhs, scale) =>
      var x, y := ReadAs(store, lhs), ReadAs(store, rhs);
      |new_| == 1 && x.Some? && y.Some? && Calculated(op, x.value, y.value, scale, ReadBack(new_[0]))
    case DivideMod(lhs, rhs, scale) =>
      var x, y := ReadAs(store, lhs), ReadAs(store, rhs);
      |new_| == 2 && x.Some? && y.Some? && IsDivMod(x.value, y.value, scale, ReadBack(new_[0]), ReadBack(new_[1]))
    case Raise(lhs, rhs, scale) =>
      var x, y := Denoted(store, lhs), ReadAs(store, rhs);
      |new_| == 1 && x.Some? && y.Some? && ReadAs(store, lhs) == Some(ValueOf(x.value))
      && exists e :: IsExponent(y.value, e) && PowerMeans(x.value, e, scale, env, ReadBack(new_[0]))
    case RaiseMod(lhs, rhs, modulus, scale) =>
      var x, y, m := ReadAs(store, lhs), ReadAs(store, rhs), ReadAs(store, modulus);
      |new_| == 1 && x.Some? && y.Some? && m.Some?
      && IsModularPower(x.value, y.value, m.value, scale, ReadBack(new_[0]))
    case Minus(arg) =>
      var x := ReadAs(store, arg);
      |new_| == 1 && x.Some? && ReadBack(new_[0]) == Decimal(-x.value.v, x.value.s)
    case SquareRoot(arg, scale) =>
      var x := ReadAs(store, arg);
      |new_| == 1 && x.Some? && IsRootOf(x.value, scale, ReadBack(new_[0]))
    case RoundAt(arg, precision, mode) =>
      var x := ReadAs(store, arg);
      |new_| == 1 && x.Some? && IsRoundedTo(x.value, precision, mode, ReadBack(new_[0]))
  }

  lemma DenotedReads(store: seq<Number>, o: Operand)
    requires AllCanonical(store)
    ensures var n := Denoted(store, o); ReadAs(store, o) == if n.None? then None else Some(ValueOf(n.value))
  {
    hide Parsing.Parsed, Parsing.NumOf, Canonical, AsNum, Num.Unscaled, Num.WellFormed;
    match o
    case Str(s) =>
    case Int(i) => Parsing.NumOfValue(i, 0);
    case Ref(k) =>
      if k < |store| {
        Reads(store[k]);
      }
  }

  lemma PlainShows(n: Num)
    ensures Canonical(Plain(n)) && ReadBack(Plain(n)) == ValueOf(n)
  {
    hide Canonical, ReadBack, Num.Unscaled, Make;
    ShownMake(n.Unscaled(), |n.frac|);
  }

  lemma ScaleKept(scale: Option<int>)
    requires ScaleArg(scale).Ok?
    ensures ScaleArg(scale).value == scale
  {}

  lemma UnserializedMeans(store: seq<Number>, data: seq<byte>)
    requires AllCanonical(store) && Parsing.Parsed(data).Some?
    ensures var n := Plain(Parsing.Parsed(data).value); Canonical(n) && ReadAs(store, Str(data)) == Some(ReadBack(n))
  {
    hide Parsing.Parsed, Canonical, ReadBack, Plain, ValueOf;
    PlainShows(Parsing.Parsed(data).value);
  }

  lemma NegatedMeans(n: Num)
    ensures ValueOf(n.Negated()) == Decimal(-ValueOf(n).v, ValueOf(n).s)
  {
    hide Num.Unscaled;
    NegatedValue(n);
  }

  lemma RaiseMeans(args: Args, env: Env)
    requires RaiseSpec(args, env).Ok?
    ensures Canonical(RaiseSpec(args, env).value)
    ensures exists e ::
      IsExponent(ValueOf(args.b), e) && PowerMeans(args.a, e, args.scale, env, ReadBack(RaiseSpec(args, env).value))
  {
    hide Canonical, ReadBack, PowSpec, Num.Unscaled, IsPowerOf, Within, ShortcutFires, TruncatesToZero, ExponentOf, Pow;
    var e := ExponentOf(args.b).value;
    ExponentAccepted(args.b, e);
    assert IsExponent(ValueOf(args.b), e);
    var logs := env.logs(args.a, e);
    PowerLaw(args.a, e, args.scale, logs, env.limit);
    if Reliable(args.a, e, logs) {
      var eps: real :| Within(args.a, logs, eps) && Abs(e) as real * eps <= 2.0;
      AccuratePower(args.a, e, args.scale, logs, eps, env.limit);
    }
    assert PowerMeans(args.a, e, args.scale, env, ReadBack(RaiseSpec(args, env).value));
  }

  lemma OneCanonical(n: Number)
    requires Canonical(n)
    ensures AllCanonical([n])
  {
    hide Canonical;
  }

  lemma TwoCanonical(n: Number, m: Number)
    requires Canonical(n) && Canonical(m)
    ensures AllCanonical([n, m])
  {
    hide Canonical;
  }

  lemma CalculateMeans(store: seq<Number>, action: Action, env: Env)
    requires AllCanonical(store) && Outcome(store, action, env).Ok? && action.Calculate?
    ensures var new_ := Outcome(store, action, env).value;
      AllCanonical(new_) && Means(store, action, env, new_)
  {
    hide Denoted, ReadAs, CalcSpec, DivModSpec, PowModSpec, SqrtSpec, RoundSpec, RaiseSpec, Parsing.Parsed, Plain,
      Canonical, AllCanonical, Calculated, IsDivMod, IsModularPower, IsRootOf, IsRoundedTo, PowerMeans, IsExponent,
      ReadBack, ValueOf, Num.Negated;
    DenotedReads(store, action.lhs);
    DenotedReads(store, action.rhs);
    ScaleKept(action.scale);
    var args := TwoArgs(store, action.lhs, action.rhs, action.scale).value;
    CalcLaw(action.op, args.a, args.b, args.scale, env.limit);
    OneCanonical(CalcSpec(action.op, args.a, args.b, args.scale, env.limit).value);
  }

  lemma DivideModMeans(store: seq<Number>, action: Action, env: Env)
    requires AllCanonical(store) && Outcome(store, action, env).Ok? && action.DivideMod?
    ensures var new_ := Outcome(store, action, env).value;
      AllCanonical(new_) && Means(store, action, env, new_)
  {
    hide Denoted, ReadAs, CalcSpec, DivModSpec, PowModSpec, SqrtSpec, RoundSpec, RaiseSpec, Parsing.Parsed, Plain,
      Canonical, AllCanonical, Calculated, IsDivMod, IsModularPower, IsRootOf, IsRoundedTo, PowerMeans, IsExponent,
      ReadBack, ValueOf, Num.Negated;
    DenotedReads(store, action.lhs);
    DenotedReads(store, action.rhs);
    ScaleKept(action.scale);
    var args := TwoArgs(store, action.lhs, action.rhs, action.scale).value;
    DivModMeans(args.a, args.b, args.scale, env.limit);
    var (q, m) := DivModSpec(args.a, args.b, args.scale, env.limit).value;
    TwoCanonical(q, m);
  }

  lemma RaiseActionMeans(store: seq<Number>, action: Action, env: Env)
    requires AllCanonical(store) && Outcome(store, action, env).Ok? && action.Raise?
    ensures var new_ := Outcome(store, action, env).value;
      AllCanonical(new_) && Means(store, action, env, new_)
  {
    hide Denoted, ReadAs, CalcSpec, DivModSpec, PowModSpec, SqrtSpec, RoundSpec, RaiseSpec, Parsing.Parsed, Plain,
      Canonical, AllCanonical, Calculated, IsDivMod, IsModularPower, IsRootOf, IsRoundedTo, PowerMeans, IsExponent,
      ReadBack, ValueOf, Num.Negated;
    DenotedReads(store, action.lhs);
    DenotedReads(store, action.rhs);
    ScaleKept(action.scale);
    var args := TwoArgs(store, action.lhs, action.rhs, action.scale).value;
    RaiseMeans(args, env);
    OneCanonical(RaiseSpec(args, env).value);
  }

  lemma RaiseModMeans(store: seq<Number>, action: Action, env: Env)
    requires AllCanonical(store) && Outcome(store, action, env).Ok? && action.RaiseMod?
    ensures var new_ := Outcome(store, action, env).value;
      AllCanonical(new_) && Means(store, action, env, new_)
  {
    hide Denoted, ReadAs, CalcSpec, DivModSpec, PowModSpec, SqrtSpec, RoundSpec, RaiseSpec, Parsing.Parsed, Plain,
      Canonical, AllCanonical, Calculated, IsDivMod, IsModularPower, IsRootOf, IsRoundedTo, PowerMeans, IsExponent,
      ReadBack, ValueOf, Num.Negated;
    DenotedReads(store, action.lhs);
    DenotedReads(store, action.rhs);
    DenotedReads(store, action.modulus);
    ScaleKept(action.scale);
    var a, e, m := Denoted(store, action.lhs).value, Denoted(store, action.rhs).value,
      Denoted(store, action.modulus).value;
    PowModMeans(a, e, m, ScaleArg(action.scale).value, env.limit);
    OneCanonical(PowModSpec(a, e, m, ScaleArg(action.scale).value, env.limit).value);
  }

  lemma CreateMeans(store: seq<Number>, action: Action, env: Env)
    requires AllCanonical(store) && Outcome(store, action, env).Ok? && action.Create?
    ensures var new_ := Outcome(store, action, env).value;
      AllCanonical(new_) && Means(store, action, env, new_)
  {
    hide Denoted, ReadAs, CalcSpec, DivModSpec, PowModSpec, SqrtSpec, RoundSpec, RaiseSpec, Parsing.Parsed, Plain,
      Canonical, AllCanonical, Calculated, IsDivMod, IsModularPower, IsRootOf, IsRoundedTo, PowerMeans, IsExponent,
      ReadBack, ValueOf, Num.Negated;
    DenotedReads(store, action.arg);
    PlainShows(Denoted(store, action.arg).value);
    OneCanonical(Plain(Denoted(store, action.arg).value));
  }

  lemma MinusMeans(store: seq<Number>, action: Action, env: Env)
    requires AllCanonical(store) && Outcome(store, action, env).Ok? && action.Minus?
    ensures var new_ := Outcome(store, action, env).value;
      AllCanonical(new_) && Means(store, action, env, new_)
  {
    hide Denoted, ReadAs, CalcSpec, DivModSpec, PowModSpec, SqrtSpec, RoundSpec, RaiseSpec, Parsing.Parsed, Plain,
      Canonical, AllCanonical, Calculated, IsDivMod, IsModularPower, IsRootOf, IsRoundedTo, PowerMeans, IsExponent,
      ReadBack, ValueOf, Num.Negated;
    DenotedReads(store, action.arg);
    var n := Denoted(store, action.arg).value;
    PlainShows(n.Negated());
    NegatedMeans(n);
    OneCanonical(Plain(n.Negated()));
  }

  lemma SquareRootMeans(store: seq<Number>, action: Action, env: Env)
    requires AllCanonical(store) && Outcome(store, action, env).Ok? && action.SquareRoot?
    ensures var new_ := Outcome(store, action, env).value;
      AllCanonical(new_) && Means(store, action, env, new_)
  {
    hide Denoted, ReadAs, CalcSpec, DivModSpec, PowModSpec, SqrtSpec, RoundSpec, RaiseSpec, Parsing.Parsed, Plain,
      Canonical, AllCanonical, Calculated, IsDivMod, IsModularPower, IsRootOf, IsRoundedTo, PowerMeans, IsExponent,
      ReadBack, ValueOf, Num.Negated;
    DenotedReads(store, action.arg);
    ScaleKept(action.scale);
    var n := Denoted(store, action.arg).value;
    RootLaw(n, ScaleArg(action.scale).value, env.limit);
    OneCanonical(SqrtSpec(n, ScaleArg(action.scale).value, env.limit).value);
  }

  lemma RoundAtMeans(store: seq<Number>, action: Action, env: Env)
    requires AllCanonical(store) && Outcome(store, action, env).Ok? && action.RoundAt?
    ensures var new_ := Outcome(store, action, env).value;
      AllCanonical(new_) && Means(store, action, env, new_)
  {
    hide Denoted, ReadAs, CalcSpec, DivModSpec, PowModSpec, SqrtSpec, RoundSpec, RaiseSpec, Parsing.Parsed, Plain,
      Canonical, AllCanonical, Calculated, IsDivMod, IsModularPower, IsRootOf, IsRoundedTo, PowerMeans, IsExponent,
      ReadBack, ValueOf, Num.Negated;
    DenotedReads(store, action.arg);
    var n := Denoted(store, action.arg).value;
    RoundLaw(n, action.precision, action.mode, env.limit);
    OneCanonical(RoundSpec(n, action.precision, action.mode, env.limit).value);
  }

  lemma UnserializeMeans(store: seq<Number>, action: Action, env: Env)
    requires AllCanonical(store) && Outcome(store, action, env).Ok? && action.Unserialize?
    ensures var new_ := Outcome(store, action, env).value;
      AllCanonical(new_) && Means(store, action, env, new_)
  {
    hide Denoted, ReadAs, CalcSpec, DivModSpec, PowModSpec, SqrtSpec, RoundSpec, RaiseSpec, Parsing.Parsed, Plain,
      Canonical, AllCanonical, Calculated, IsDivMod, IsModularPower, IsRootOf, IsRoundedTo, PowerMeans, IsExponent,
      ReadBack, ValueOf, Num.Negated;
    UnserializedMeans(store, action.data.value);
    OneCanonical(Plain(Parsing.Parsed(action.data.value).value));
  }

  /** Every action that succeeds does what it means. */
  lemma OutcomeMeans(store: seq<Number>, action: Action, env: Env)
    requires AllCanonical(store) && Outcome(store, action, env).Ok?
    ensures var new_ := Outcome(store, action, env).value;
      AllCanonical(new_) && Means(store, action, env, new_)
  {
    hide *;
    match action
    case Create(_) => CreateMeans(store, action, env);
    case Unserialize(_) => UnserializeMeans(store, action, env);
    case Calculate(_, _, _, _) => CalculateMeans(store, action, env);
    case DivideMod(_, _, _) => DivideModMeans(store, action, env);
    case Raise(_, _, _) => RaiseActionMeans(store, action, env);
    case RaiseMod(_, _, _, _) => RaiseModMeans(store, action, env);
    case Minus(_) => MinusMeans(store, action, env);
    case SquareRoot(_, _) => SquareRootMeans(store, action, env);
    case RoundAt(_, _, _) => RoundAtMeans(store, action, env);
  }

  /** Every step of every run either changes nothing or adds numbers that an action means. */
  lemma RunMeans(run: seq<seq<Number>>, env: Env, i: nat) returns (action: Action, new_: seq<Number>)
    requires IsRun(run, env) && i + 1 < |run|
    ensures AllCanonical(run[i]) && AllCanonical(new_) && run[i + 1] == run[i] + new_
    ensures new_ != [] ==> Means(run[i], action, env, new_)
  {
    RunKeepsCanonical(run, env, i);
    hide Outcome, Canonical, Means;
    assert Next(run[i], run[i + 1], env);
    action :| run[i + 1] == After(run[i], action, env);
    if Outcome(run[i], action, env).Ok? {
      OutcomeMeans(run[i], action, env);
      new_ := Outcome(run[i], action, env).value;
    } else {
      new_ := [];
      assert run[i] + [] == run[i];
    }
  }

  /**
   * With default scales, adding a stored number and then subtracting it gives the first one back, at the
   * larger scale.
   */
  lemma StoredAddThenSubtract(store: seq<Number>, i: nat, j: nat, env: Env)
    requires AllCanonical(store) && i < |store| && j < |store|
    requires var add := Calculate(Arith(Add), Ref(i), Ref(j), None);
      && Outcome(store, add, env).Ok?
      && Outcome(After(store, add, env), Calculate(Arith(Sub), Ref(|store|), Ref(j), None), env).Ok?
    ensures var w := Wider(ReadBack(store[i]), ReadBack(store[j]));
      var store' := After(store, Calculate(Arith(Add), Ref(i), Ref(j), None), env);
      Outcome(store', Calculate(Arith(Sub), Ref(|store|), Ref(j), None), env)
        == Ok([Make(InUnits(ReadBack(store[i]), w), w)])
  {
    hide *;
    AllAt(store, i);
    AllAt(store, j);
    var x, y := ReadBack(store[i]), ReadBack(store[j]);
    var w := Wider(x, y);
    WiderIs(x, y);
    var v := InUnits(x, w) + InUnits(y, w);
    var sum := CalculatedRefs(store, Add, i, j, env);
    DefaultExact(Add, x, y, ReadBack(sum));
    AfterOne(store, Calculate(Arith(Add), Ref(i), Ref(j), None), env, sum);
    var back := CalculatedRefs(store + [sum], Sub, |store|, j, env);
    DefaultExact(Sub, Decimal(v, w), y, ReadBack(back));
    SumLessAddend(x, y, v);
    ShownWhole(back);
  }

  lemma AllAt(store: seq<Number>, k: nat)
    requires AllCanonical(store) && k < |store|
    ensures Canonical(store[k])
  {
    hide Canonical;
  }

  lemma WiderIs(x: Decimal, y: Decimal)
    ensures x.s <= Wider(x, y) && y.s <= Wider(x, y)
  {}

  lemma AfterOne(store: seq<Number>, action: Action, env: Env, n: Number)
    requires Outcome(store, action, env) == Ok([n]) && AllCanonical(store) && Canonical(n)
    ensures After(store, action, env) == store + [n] && AllCanonical(store + [n])
  {
    hide Outcome, Canonical;
  }

  /** A calculation on stored numbers, with the default scale. */
  lemma CalculatedRefs(store: seq<Number>, op: BinOp, i: nat, j: nat, env: Env) returns (n: Number)
    requires AllCanonical(store) && i < |store| && j < |store|
    requires Outcome(store, Calculate(Arith(op), Ref(i), Ref(j), None), env).Ok?
    ensures Canonical(n) && Outcome(store, Calculate(Arith(op), Ref(i), Ref(j), None), env) == Ok([n])
    ensures Canonical(store[i]) && Canonical(store[j])
    ensures Calculated(Arith(op), ReadBack(store[i]), ReadBack(store[j]), None, ReadBack(n))
  {
    hide *;
    var action := Calculate(Arith(op), Ref(i), Ref(j), None);
    OutcomeMeans(store, action, env);
    AllAt(store, i);
    AllAt(store, j);
    var new_ := Outcome(store, action, env).value;
    MeantForRefs(store, op, i, j, env, new_);
    AllAt(new_, 0);
    n := new_[0];
    assert new_ == [n];
  }

  lemma MeantForRefs(store: seq<Number>, op: BinOp, i: nat, j: nat, env: Env, new_: seq<Number>)
    requires AllCanonical(store) && AllCanonical(new_) && i < |store| && j < |store|
    requires Means(store, Calculate(Arith(op), Ref(i), Ref(j), None), env, new_)
    ensures |new_| == 1 && Canonical(store[i]) && Canonical(store[j]) && Canonical(new_[0])
    ensures Calculated(Arith(op), ReadBack(store[i]), ReadBack(store[j]), None, ReadBack(new_[0]))
  {
    hide Canonical, ReadBack, Calculated;
  }

  /** Default-scale sums and differences are exact. */
  lemma DefaultExact(op: BinOp, x: Decimal, y: Decimal, r: Decimal)
    requires (op == Add || op == Sub) && Calculated(Arith(op), x, y, None, r)
    ensures var w := Wider(x, y);
      r == Decimal(if op == Add then InUnits(x, w) + InUnits(y, w) else InUnits(x, w) - InUnits(y, w), w)
  {
    hide InUnits;
  }

  lemma SumLessAddend(x: Decimal, y: Decimal, v: int)
    ensures var w := Wider(x, y);
      v == InUnits(x, w) + InUnits(y, w) ==>
        Wider(Decimal(v, w), y) == w && InUnits(Decimal(v, w), w) - InUnits(y, w) == InUnits(x, w)
  {
    PowStep(10, 0);
  }

  lemma ShownWhole(n: Number)
    requires Canonical(n)
    ensures n == Make(ReadBack(n).v, ReadBack(n).s)
  {
    hide Canonical, AsNum, Make, Num.Unscaled;
    Reads(n);
  }

  // ----- arguments that are refused

  function ArgumentsOf(action: Action): seq<Operand> {
    match action
    case Create(arg) => [arg]
    case Unserialize(_) => []
    case Calculate(_, lhs, rhs, _) => [lhs, rhs]
    case DivideMod(lhs, rhs, _) => [lhs, rhs]
    case Raise(lhs, rhs, _) => [lhs, rhs]
    case RaiseMod(lhs, rhs, modulus, _) => [lhs, rhs, modulus]
    case Minus(arg) => [arg]
    case SquareRoot(arg, _) => [arg]
    case RoundAt(arg, _, _) => [arg]
  }

  function ScaleOf(action: Action): Option<int> {
    if
      || action.Calculate? || action.DivideMod? || action.Raise? || action.RaiseMod? || action.SquareRoot?
    then action.scale
    else None
  }

  /** The first unreadable argument is named; a scale out of range is refused when all arguments are readable. */
  lemma ArgumentsChecked(store: seq<Number>, action: Action, env: Env, k: nat)
    requires AllCanonical(store) && k <= |ArgumentsOf(action)|
    requires forall i :: 0 <= i < k ==> ReadAs(store, ArgumentsOf(action)[i]).Some?
    ensures k < |ArgumentsOf(action)| && ReadAs(store, ArgumentsOf(action)[k]).None? ==>
      Outcome(store, action, env) == Err(NotWellFormed(k + 1))
    ensures k == |ArgumentsOf(action)| && ScaleOf(action).Some? && !(0 <= ScaleOf(action).value <= 2147483647) ==>
      Outcome(store, action, env) == Err(ScaleOutOfRange)
  {
    var args := ArgumentsOf(action);
    hide Denoted, ReadAs, CalcSpec, DivModSpec, PowModSpec, SqrtSpec, RoundSpec, RaiseSpec, UnserializeSpec, Plain,
      Canonical, AllCanonical;
    if |args| > 0 {
      DenotedReads(store, args[0]);
      assert k > 0 ==> ReadAs(store, args[0]).Some?;
    }
    if |args| > 1 {
      DenotedReads(store, args[1]);
      assert k > 1 ==> ReadAs(store, args[1]).Some?;
    }
    if |args| > 2 {
      DenotedReads(store, args[2]);
      assert k > 2 ==> ReadAs(store, args[2]).Some?;
    }
  }
}
