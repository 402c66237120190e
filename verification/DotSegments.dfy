/** Removal of "." and ".." segments from a path (section 5.2.4 of RFC 3986). */
module DotSegments {
  import opened Words

  type Bytes = seq<byte>

  const SLASH: byte := 47
  const DOT: Bytes := [46]
  const DOTS: Bytes := [46, 46]

  // ----- paths as segments

  predicate NoSlash(s: Bytes) { forall i :: 0 <= i < |s| ==> s[i] != SLASH }

  predicate Segments(segs: seq<Bytes>) { forall i :: 0 <= i < |segs| ==> NoSlash(segs[i]) }

  predicate IsDots(s: Bytes) { s == DOT || s == DOTS }

  /** Where the first slash is, or the end. */
  function FirstSlash(s: Bytes): (n: nat)
    ensures n <= |s| && NoSlash(s[..n]) && (n < |s| ==> s[n] == SLASH)
  {
    if |s| == 0 || s[0] == SLASH then 0
    else
      var n := 1 + FirstSlash(s[1..]);
      assert s[..n] == [s[0]] + s[1..][..n - 1];
      n
  }

  /** The pieces between slashes. */
  function Split(s: Bytes): (segs: seq<Bytes>)
    ensures |segs| > 0 && Segments(segs)
    decreases |s|
  {
    var n := FirstSlash(s);
    if n == |s| then [s] else [s[..n]] + Split(s[n + 1..])
  }

  /** Each segment behind a slash. */
  function Render(segs: seq<Bytes>): Bytes {
    if |segs| == 0 then [] else [SLASH] + segs[0] + Render(segs[1..])
  }

  function Joined(segs: seq<Bytes>): Bytes
    requires |segs| > 0
  {
    segs[0] + Render(segs[1..])
  }

  lemma JoinStep(a: Bytes, rest: seq<Bytes>)
    requires |rest| > 0
    ensures Joined([a] + rest) == a + ([SLASH] + Joined(rest))
  {
    assert ([a] + rest)[1..] == rest;
    RenderCons(rest);
  }

  lemma RenderCons(rest: seq<Bytes>)
    requires |rest| > 0
    ensures Render(rest) == [SLASH] + Joined(rest)
  {
    assert [SLASH] + rest[0] + Render(rest[1..]) == [SLASH] + (rest[0] + Render(rest[1..]));
  }

  lemma JoinOne(a: Bytes)
    ensures Joined([a]) == a
  {
    assert [a][1..] == [];
    assert a + [] == a;
  }

  lemma {:induction false} SplitJoined(s: Bytes)
    ensures Joined(Split(s)) == s
    decreases |s|
  {
    var n := FirstSlash(s);
    if n == |s| {
      JoinOne(s);
    } else {
      assert s == s[..n] + ([SLASH] + s[n + 1..]);
      assert Split(s) == [s[..n]] + Split(s[n + 1..]);
      hide Joined, Split;
      SplitJoined(s[n + 1..]);
      JoinStep(s[..n], Split(s[n + 1..]));
    }
  }

  lemma SlashAt(s: Bytes, n: nat)
    requires n <= |s| && NoSlash(s[..n]) && (n < |s| ==> s[n] == SLASH)
    ensures FirstSlash(s) == n
  {
    var m := FirstSlash(s);
    assert forall i :: 0 <= i < n ==> s[..n][i] == s[i];
    assert forall i :: 0 <= i < m ==> s[..m][i] == s[i];
  }

  lemma {:induction false} JoinedSplit(segs: seq<Bytes>)
    requires |segs| > 0 && Segments(segs)
    ensures Split(Joined(segs)) == segs
  {
    var s, n := Joined(segs), |segs[0]|;
    assert segs == [segs[0]] + segs[1..];
    if |segs| > 1 {
      JoinStep(segs[0], segs[1..]);
      assert s[..n] == segs[0] && s[n] == SLASH && s[n + 1..] == Joined(segs[1..]);
      SlashAt(s, n);
      JoinedSplit(segs[1..]);
    } else {
      JoinOne(segs[0]);
      assert s[..n] == s;
      SlashAt(s, n);
    }
  }

  // ----- evaluation on a stack

  /** What has been kept: a first segment without a slash, and a stack of segments behind slashes. */
  datatype Kept = Kept(first: Bytes, stack: seq<Bytes>) {
    function Text(): Bytes { first + Render(stack) }

    function Push(s: Bytes): Kept { Kept(first, stack + [s]) }

    /** Removes the last segment; below the stack, the first one. */
    function Pop(): Kept {
      if |stack| > 0 then Kept(first, stack[..|stack| - 1]) else Kept([], [])
    }
  }

  /** Segments in order: "." stays, ".." goes up, and either leaves a trailing slash at the end of the path. */
  function Eval(k: Kept, rest: seq<Bytes>): Kept
    decreases |rest|
  {
    if |rest| == 0 then k
    else
      var k' := if rest[0] == DOTS then k.Pop() else k;
      if !IsDots(rest[0]) then Eval(k.Push(rest[0]), rest[1..])
      else if |rest| == 1 then k'.Push([])
      else Eval(k', rest[1..])
  }

  /** Leading dot segments of a relative path vanish. */
  function Normalized(segs: seq<Bytes>): Kept
    requires |segs| > 0
  {
    if !IsDots(segs[0]) then Eval(Kept(segs[0], []), segs[1..])
    else if |segs| == 1 then Kept([], [])
    else Normalized(segs[1..])
  }

  /** The result as a function of the path. */
  function Removed(path: Bytes): Bytes { Normalized(Split(path)).Text() }

  // ----- the byte loop

  /** Where the loop stands: before the first kept segment, or behind it. */
  datatype Phase = Leading(segs: seq<Bytes>) | Inside(k: Kept, rest: seq<Bytes>)

  ghost predicate Matches(p: Phase, input: Bytes, out: Bytes) {
    match p
    case Leading(segs) => |segs| > 0 && Segments(segs) && input == Joined(segs) && out == []
    case Inside(k, rest) =>
      Segments(rest) && NoSlash(k.first) && Segments(k.stack) && input == Render(rest) && out == k.Text()
  }

  ghost function Target(p: Phase): Kept
    requires p.Leading? ==> |p.segs| > 0
  {
    match p
    case Leading(segs) => Normalized(segs)
    case Inside(k, rest) => Eval(k, rest)
  }

  method PopSegment(out: Bytes, ghost k: Kept) returns (out': Bytes)
    requires out == k.Text() && NoSlash(k.first) && Segments(k.stack)
    ensures out' == k.Pop().Text()
  {
    var p: nat := |out|;
    while p > 0 && out[p - 1] != SLASH
      invariant p <= |out| && forall i :: p <= i < |out| ==> out[i] != SLASH
    {
      p := p - 1;
    }
    LastSlash(k, p);
    out' := if p > 0 then out[..p - 1] else [];
  }

  lemma {:induction false} RenderSnoc(segs: seq<Bytes>, s: Bytes)
    ensures Render(segs + [s]) == Render(segs) + ([SLASH] + s)
  {
    if |segs| == 0 {
      assert (segs + [s])[1..] == [];
      assert [SLASH] + s + [] == [] + ([SLASH] + s);
    } else {
      assert (segs + [s])[1..] == segs[1..] + [s];
      RenderSnoc(segs[1..], s);
      assert [SLASH] + segs[0] + (Render(segs[1..]) + ([SLASH] + s)) ==
        ([SLASH] + segs[0] + Render(segs[1..])) + ([SLASH] + s);
    }
  }

  /** The last slash of the text is the one before the top of the stack. */
  lemma LastSlash(k: Kept, p: nat)
    requires NoSlash(k.first) && Segments(k.stack) && p <= |k.Text()|
    requires forall i :: p <= i < |k.Text()| ==> k.Text()[i] != SLASH
    requires p > 0 ==> k.Text()[p - 1] == SLASH
    ensures k.Pop().Text() == if p > 0 then k.Text()[..p - 1] else []
  {
    hide Render;
    var t := k.Text();
    if |k.stack| > 0 {
      var n := |k.stack| - 1;
      var below, top := k.first + Render(k.stack[..n]), k.stack[n];
      assert k.stack == k.stack[..n] + [top];
      RenderSnoc(k.stack[..n], top);
      assert t == below + ([SLASH] + top);
      assert t[|below|] == SLASH;
      assert forall i :: |below| < i < |t| ==> t[i] == top[i - |below| - 1];
      assert p == |below| + 1;
      assert t[..p - 1] == below;
    } else {
      RenderNone();
      assert t == k.first;
    }
  }

  lemma RenderNone()
    ensures Render([]) == []
  {}

  /** The loop's byte tests are tests on the first segment. */
  lemma FirstSegment(segs: seq<Bytes>)
    requires |segs| > 0 && Segments(segs)
    ensures var t := Joined(segs);
      && (DOT + [SLASH] <= t <==> segs[0] == DOT && |segs| > 1) && (t == DOT <==> segs[0] == DOT && |segs| == 1)
      && (DOTS + [SLASH] <= t <==> segs[0] == DOTS && |segs| > 1) && (t == DOTS <==> segs[0] == DOTS && |segs| == 1)
      && FirstSlash(t) == |segs[0]| && t[..|segs[0]|] == segs[0] && t[|segs[0]|..] == Render(segs[1..])
      && (|t| > 0 && t[0] == SLASH <==> segs[0] == [] && |segs| > 1)
      && (t == [] <==> segs[0] == [] && |segs| == 1)
      && (|segs| > 1 ==> |t| > |segs[0]| && t[|segs[0]| + 1..] == Joined(segs[1..]))
  {
    var t, s := Joined(segs), segs[0];
    assert t[..|s|] == s;
    if |segs| > 1 {
      RenderCons(segs[1..]);
      assert t == s + ([SLASH] + Joined(segs[1..]));
    } else {
      RenderNone();
      assert segs[1..] == [];
      assert t == s;
    }
    hide Render;
    SlashAt(t, |s|);
    SegmentTest(t, s, DOT, |segs| > 1);
    SegmentTest(t, s, DOTS, |segs| > 1);
  }

  /** `d/` starts the text, or `d` is all of it, exactly when the first segment is `d`. */
  lemma SegmentTest(t: Bytes, s: Bytes, d: Bytes, more: bool)
    requires NoSlash(s) && NoSlash(d) && |s| <= |t| && t[..|s|] == s
    requires if more then |t| > |s| && t[|s|] == SLASH else t == s
    ensures d + [SLASH] <= t <==> s == d && more
    ensures t == d <==> s == d && !more
  {
    if d + [SLASH] <= t {
      assert t[|d|] == (d + [SLASH])[|d|] == SLASH;
      assert t[..|d|] == (d + [SLASH])[..|d|] == d;
      SameSlash(t, s, d);
    }
    if t == d {
      SameEnd(t, s);
    }
    if s == d && more {
      assert t[..|d| + 1] == d + [SLASH];
    }
  }

  lemma SameSlash(t: Bytes, s: Bytes, d: Bytes)
    requires NoSlash(s) && NoSlash(d) && |s| <= |t| && t[..|s|] == s && |d| < |t| && t[..|d|] == d && t[|d|] == SLASH
    requires |s| < |t| ==> t[|s|] == SLASH
    ensures s == d
  {
    SlashAt(t, |s|);
    SlashAt(t, |d|);
  }

  lemma SameEnd(t: Bytes, s: Bytes)
    requires NoSlash(t) && |s| <= |t| && t[..|s|] == s && (|s| < |t| ==> t[|s|] == SLASH)
    ensures s == t
  {
    assert |s| == |t|;
  }

  lemma NoneLeft(segs: seq<Bytes>)
    ensures |segs| == 1 ==> segs[1..] == [] && Render(segs[1..]) == []
  {}

  lemma DotsHaveNoSlash()
    ensures NoSlash(DOT) && NoSlash(DOTS) && NoSlash([]) && Joined([[]]) == [] && Render([[]]) == [SLASH]
  {
    JoinOne([]);
    RenderCons([[]]);
  }

  /** A kept segment, behind its slash or in front. */
  lemma KeepSegment(p: Phase, input: Bytes, out: Bytes)
    requires Matches(p, input, out) && |input| > 0
    requires p.Leading? ==> !IsDots(p.segs[0]) && p.segs[0] != []
    requires p.Inside? ==> |p.rest| > 0 && !IsDots(p.rest[0])
    ensures var p' := match p
        case Leading(segs) => Inside(Kept(segs[0], []), segs[1..])
        case Inside(k, rest) => Inside(k.Push(rest[0]), rest[1..]);
      var start := if p.Leading? then 0 else 1;
      var end := start + FirstSlash(input[start..]);
      && start <= end <= |input| && Matches(p', input[end..], out + input[..end]) && Target(p') == Target(p)
  {
    match p
    case Leading(segs) =>
      FirstSegment(segs);
      assert input[0..] == input;
      RenderNone();
      assert segs[0] + [] == segs[0];
      assert [] + segs[0] == segs[0];
    case Inside(k, rest) => KeepInside(k, rest, input, out);
  }

  lemma KeepInside(k: Kept, rest: seq<Bytes>, input: Bytes, out: Bytes)
    requires Matches(Inside(k, rest), input, out) && |rest| > 0 && !IsDots(rest[0])
    ensures var end := 1 + |rest[0]|;
      && 1 <= |input| && FirstSlash(input[1..]) == |rest[0]| && end <= |input|
      && Matches(Inside(k.Push(rest[0]), rest[1..]), input[end..], out + input[..end])
  {
    var text := k.Text();
    assert text == k.first + Render(k.stack);
    assert Segments(rest[1..]) && Segments(k.stack + [rest[0]]);
    hide Render, Joined, FirstSlash, Segments, NoSlash, IsDots;
    RenderCons(rest);
    FirstSegment(rest);
    BehindOne(input, Joined(rest), |rest[0]|, rest[0]);
    RenderSnoc(k.stack, rest[0]);
    Regroup(k.first, Render(k.stack), [SLASH] + rest[0]);
  }

  lemma BehindOne(input: Bytes, t: Bytes, n: nat, s: Bytes)
    requires input == [SLASH] + t && n <= |t| && t[..n] == s
    ensures input[1..] == t && input[1 + n..] == t[n..] && input[..1 + n] == [SLASH] + s
  {}

  lemma Regroup(a: Bytes, b: Bytes, c: Bytes)
    ensures (a + b) + c == a + (b + c)
  {}

  /** What the loop does to its two buffers, by the first segment of the input. */
  ghost predicate Stepped(p: Phase, p': Phase, input': Bytes, out': Bytes)
    requires p.Leading? ==> |p.segs| > 0
  {
    (p'.Leading? ==> |p'.segs| > 0) && Matches(p', input', out') && Target(p') == Target(p)
  }

  lemma LeadingDots(segs: seq<Bytes>, input: Bytes)
    requires Matches(Leading(segs), input, []) && IsDots(segs[0])
    ensures |segs| > 1 ==> |input| > |segs[0]| && Stepped(Leading(segs), Leading(segs[1..]), input[|segs[0]| + 1..], [])
    ensures |segs| == 1 ==> Stepped(Leading(segs), Leading([[]]), [], [])
  {
    FirstSegment(segs);
    DotsHaveNoSlash();
    NoneLeft([[]]);
  }

  lemma InsideDots(k: Kept, rest: seq<Bytes>, input: Bytes, out: Bytes)
    requires Matches(Inside(k, rest), input, out) && |rest| > 0 && IsDots(rest[0])
    ensures var k' := if rest[0] == DOTS then k.Pop() else k;
      && (|rest| > 1 ==> |input| > 1 + |rest[0]| && Stepped(Inside(k, rest), Inside(k', rest[1..]),
        input[1 + |rest[0]|..], k'.Text()))
      && (|rest| == 1 ==> Stepped(Inside(k, rest), Inside(k', [[]]), [SLASH], k'.Text()))
  {
    RenderCons(rest);
    FirstSegment(rest);
    DotsHaveNoSlash();
    NoneLeft([[]]);
    NoneLeft(rest);
    var n := |rest[0]|;
    assert |rest| > 1 ==> input[1 + n..] == Joined(rest)[n..];
    assert NoSlash([]);
  }

  /** Tests on the input, in terms of the phase. */
  lemma Tests(p: Phase, input: Bytes, out: Bytes)
    requires Matches(p, input, out) && |input| > 0
    ensures var slash: Bytes := [SLASH];
      match p
      case Leading(segs) =>
        && (input[0] == SLASH <==> segs[0] == [] && |segs| > 1)
        && (DOTS + slash <= input <==> segs[0] == DOTS && |segs| > 1)
          && (DOT + slash <= input <==> segs[0] == DOT && |segs| > 1)
        && (input == DOT <==> segs[0] == DOT && |segs| == 1) && (input == DOTS <==> segs[0] == DOTS && |segs| == 1)
      case Inside(k, rest) =>
        && |rest| > 0 && input[0] == SLASH
        && (slash + DOT + slash <= input <==> rest[0] == DOT && |rest| > 1)
          && (input == slash + DOT <==> rest[0] == DOT && |rest| == 1)
        && (slash + DOTS + slash <= input <==> rest[0] == DOTS && |rest| > 1)
          && (input == slash + DOTS <==> rest[0] == DOTS && |rest| == 1)
  {
    var slash: Bytes := [SLASH];
    match p
    case Leading(segs) => FirstSegment(segs);
    case Inside(k, rest) =>
      RenderNone();
      RenderCons(rest);
      FirstSegment(rest);
      var t := Joined(rest);
      BehindSlash(t, DOT);
      BehindSlash(t, DOTS);
  }

  lemma BehindSlash(t: Bytes, d: Bytes)
    ensures [SLASH] + d + [SLASH] <= [SLASH] + t <==> d + [SLASH] <= t
    ensures [SLASH] + t == [SLASH] + d <==> t == d
  {
    var u := [SLASH] + t;
    assert u[1..] == t && ([SLASH] + d)[1..] == d;
    assert [SLASH] + d + [SLASH] == [SLASH] + (d + [SLASH]);
    if d + [SLASH] <= t {
      assert t == (d + [SLASH]) + t[|d| + 1..];
      assert u == ([SLASH] + (d + [SLASH])) + t[|d| + 1..];
    }
    if [SLASH] + (d + [SLASH]) <= u {
      assert u == ([SLASH] + (d + [SLASH])) + u[|d| + 2..];
      assert t == (d + [SLASH]) + u[|d| + 2..];
    }
  }

  /** One round of the loop. */
  method Round(input: Bytes, out: Bytes, ghost p: Phase) returns (input': Bytes, out': Bytes, ghost p': Phase)
    requires Matches(p, input, out) && |input| > 0
    requires p.Leading? ==> !(p.segs[0] == [] && |p.segs| > 1)
    ensures |input'| < |input| && Stepped(p, p', input', out')
    ensures p'.Leading? ==> p.Leading?
  {
    hide Render, Normalized, Eval, Joined, NoSlash, Segments;
    Tests(p, input, out);
    var slash: Bytes := [SLASH];
    if DOTS + slash <= input {
      LeadingDots(p.segs, input);
      input', out', p' := input[3..], out, Leading(p.segs[1..]);
    } else if DOT + slash <= input {
      LeadingDots(p.segs, input);
      input', out', p' := input[2..], out, Leading(p.segs[1..]);
    } else if slash + DOT + slash <= input {
      InsideDots(p.k, p.rest, input, out);
      input', out', p' := input[2..], out, Inside(p.k, p.rest[1..]);
    } else if input == slash + DOT {
      InsideDots(p.k, p.rest, input, out);
      input', out', p' := slash, out, Inside(p.k, [[]]);
    } else if slash + DOTS + slash <= input {
      InsideDots(p.k, p.rest, input, out);
      input' := input[3..];
      out' := PopSegment(out, p.k);
      p' := Inside(p.k.Pop(), p.rest[1..]);
    } else if input == slash + DOTS {
      InsideDots(p.k, p.rest, input, out);
      input' := slash;
      out' := PopSegment(out, p.k);
      p' := Inside(p.k.Pop(), [[]]);
    } else if input == DOT || input == DOTS {
      LeadingDots(p.segs, input);
      input', out', p' := [], out, Leading([[]]);
    } else {
      input', out', p' := Keep(input, out, p);
    }
  }

  method Keep(input: Bytes, out: Bytes, ghost p: Phase) returns (input': Bytes, out': Bytes, ghost p': Phase)
    requires Matches(p, input, out) && |input| > 0
    requires p.Leading? ==> !IsDots(p.segs[0]) && !(p.segs[0] == [] && |p.segs| > 1)
    requires p.Inside? ==> |p.rest| > 0 && !IsDots(p.rest[0])
    ensures |input'| < |input| && Stepped(p, p', input', out') && p'.Inside?
  {
    FirstByte(p, input, out);
    hide Render, Normalized, Eval, Joined, NoSlash, Segments;
    KeepSegment(p, input, out);
    var start := if input[0] == SLASH then 1 else 0;
    var end := start + FirstSlash(input[start..]);
    input', out' := input[end..], out + input[..end];
    p' := match p
      case Leading(segs) => Inside(Kept(segs[0], []), segs[1..])
      case Inside(k, rest) => Inside(k.Push(rest[0]), rest[1..]);
  }

  lemma FirstByte(p: Phase, input: Bytes, out: Bytes)
    requires Matches(p, input, out) && |input| > 0
    requires p.Leading? ==> !(p.segs[0] == [] && |p.segs| > 1)
    ensures p.Leading? ==> p.segs[0] != [] && input[0] != SLASH && FirstSlash(input[0..]) > 0
    ensures p.Inside? ==> input[0] == SLASH
  {
    Tests(p, input, out);
    assert input[0..] == input;
    if p.Leading? {
      FirstSegment(p.segs);
    }
  }

  /** The path without its dot segments is its segments evaluated on a stack. */
  method RemoveDotSegments(path: Bytes) returns (out: Bytes)
    ensures out == Removed(path)
  {
    hide Render, Normalized, Eval, Joined, NoSlash, Segments, Split;
    var input := path;
    out := [];
    ghost var p := Leading(Split(path));
    SplitJoined(path);
    StartsInside(p, input);
    if p.segs[0] == [] && |p.segs| > 1 {
      p := Inside(Kept([], []), p.segs[1..]);
    }
    ghost var target := Normalized(Split(path));
    while |input| > 0
      invariant Stepped(Leading(Split(path)), p, input, out)
      invariant p.Leading? ==> !(p.segs[0] == [] && |p.segs| > 1)
      decreases |input|
    {
      input, out, p := Round(input, out, p);
      StartsInside(p, input);
      if p.Leading? && p.segs[0] == [] && |p.segs| > 1 {
        p := Inside(Kept([], []), p.segs[1..]);
      }
    }
    Finished(p, out);
  }

  /** An empty first segment is a path that starts with a slash. */
  lemma StartsInside(p: Phase, input: Bytes)
    requires p.Leading? && |p.segs| > 1 && p.segs[0] == [] ==> Matches(p, input, [])
    ensures p.Leading? && |p.segs| > 1 && p.segs[0] == [] ==>
      Matches(Inside(Kept([], []), p.segs[1..]), input, []) && Target(Inside(Kept([], []), p.segs[1..])) == Target(p)
  {
    if p.Leading? && |p.segs| > 1 && p.segs[0] == [] {
      FirstSegment(p.segs);
      assert input[0..] == input;
      RenderNone();
    }
  }

  lemma Finished(p: Phase, out: Bytes)
    requires Matches(p, [], out) && (p.Leading? ==> |p.segs| > 0)
    ensures out == Target(p).Text()
  {
    match p
    case Leading(segs) =>
      FirstSegment(segs);
      assert segs[1..] == [];
      assert Eval(Kept([], []), []) == Kept([], []);
      RenderNone();
    case Inside(k, rest) =>
      if |rest| > 0 {
        RenderCons(rest);
      }
  }

  // ----- what the result is like

  ghost predicate Clean(k: Kept) {
    && NoSlash(k.first) && !IsDots(k.first)
    && Segments(k.stack) && forall i :: 0 <= i < |k.stack| ==> !IsDots(k.stack[i])
  }

  lemma {:induction false} EvalClean(k: Kept, rest: seq<Bytes>)
    requires Clean(k) && Segments(rest)
    ensures Clean(Eval(k, rest))
    ensures k.first == [] ==> Eval(k, rest).first == []
    ensures |rest| > 0 ==> |Eval(k, rest).stack| > 0
    decreases |rest|
  {
    if |rest| > 0 {
      var k' := if rest[0] == DOTS then k.Pop() else k;
      if !IsDots(rest[0]) {
        EvalClean(k.Push(rest[0]), rest[1..]);
      } else if |rest| > 1 {
        EvalClean(k', rest[1..]);
      }
    }
  }

  lemma {:induction false} NormalizedClean(segs: seq<Bytes>)
    requires |segs| > 0 && Segments(segs)
    ensures Clean(Normalized(segs))
    ensures segs[0] == [] && |segs| > 1 ==> Normalized(segs).first == [] && |Normalized(segs).stack| > 0
  {
    if !IsDots(segs[0]) {
      EvalClean(Kept(segs[0], []), segs[1..]);
    } else if |segs| > 1 {
      NormalizedClean(segs[1..]);
    }
  }

  lemma TextSegments(k: Kept)
    requires Clean(k)
    ensures Split(k.Text()) == [k.first] + k.stack
  {
    assert ([k.first] + k.stack)[1..] == k.stack;
    JoinedSplit([k.first] + k.stack);
  }

  /** No "." or ".." segment is left. */
  lemma NoDotSegments(path: Bytes)
    ensures forall i :: 0 <= i < |Split(Removed(path))| ==> !IsDots(Split(Removed(path))[i])
  {
    var k := Normalized(Split(path));
    assert Removed(path) == k.Text();
    NormalizedClean(Split(path));
    hide Removed, Normalized, Split, Kept.Text, IsDots;
    TextSegments(k);
    CleanSegments(k);
  }

  lemma CleanSegments(k: Kept)
    requires Clean(k)
    ensures var segs := [k.first] + k.stack; forall i :: 0 <= i < |segs| ==> !IsDots(segs[i])
  {}

  lemma {:induction false} EvalPlain(k: Kept, rest: seq<Bytes>)
    requires forall i :: 0 <= i < |rest| ==> !IsDots(rest[i])
    ensures Eval(k, rest) == Kept(k.first, k.stack + rest)
    decreases |rest|
  {
    if |rest| > 0 {
      EvalPlain(k.Push(rest[0]), rest[1..]);
      assert k.stack + [rest[0]] + rest[1..] == k.stack + rest;
    } else {
      assert k.stack + rest == k.stack;
    }
  }

  /** A path without such segments is unchanged. */
  lemma Unchanged(path: Bytes)
    requires forall i :: 0 <= i < |Split(path)| ==> !IsDots(Split(path)[i])
    ensures Removed(path) == path
  {
    var segs := Split(path);
    EvalPlain(Kept(segs[0], []), segs[1..]);
    assert [] + segs[1..] == segs[1..];
    SplitJoined(path);
  }

  /** Removing dot segments twice is removing them once. */
  lemma Idempotent(path: Bytes)
    ensures Removed(Removed(path)) == Removed(path)
  {
    hide Removed, Split;
    NoDotSegments(path);
    Unchanged(Removed(path));
  }

  /** A path that starts with a slash still does. */
  lemma StaysAbsolute(path: Bytes)
    requires |path| > 0 && path[0] == SLASH
    ensures |Removed(path)| > 0 && Removed(path)[0] == SLASH
  {
    var segs := Split(path);
    SplitJoined(path);
    FirstSegment(segs);
    NormalizedClean(segs);
    var k := Normalized(segs);
    RenderCons(k.stack);
    assert [] + Render(k.stack) == Render(k.stack);
  }
}
