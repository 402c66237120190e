/** The fast path from UTF-16 (section 2.2 of RFC 2781) to UTF-8 (section 3 of RFC 3629). */
module Utf16 {
  import opened Numerals
  import opened Words
  import opened Wrappers

  type u16 = x: int | 0 <= x < 0x1_0000

  // ----- the encodings

  predicate IsScalar(c: int) { 0 <= c < 0x11_0000 && !(0xD800 <= c <= 0xDFFF) }

  ghost predicate Scalars(s: seq<int>) { forall i :: 0 <= i < |s| ==> IsScalar(s[i]) }

  /** One or two UTF-16 units. */
  function Units16(c: int): (u: seq<u16>)
    requires IsScalar(c)
  {
    if c < 0x1_0000 then [c]
    else
      var v := c - 0x1_0000;
      [0xD800 + v / 0x400, 0xDC00 + v % 0x400]
  }

  function Encode16(s: seq<int>): seq<u16>
    requires Scalars(s)
  {
    if |s| == 0 then [] else Units16(s[0]) + Encode16(s[1..])
  }

  /** One to four UTF-8 bytes. */
  function Bytes8(c: int): (b: seq<byte>)
    requires IsScalar(c)
    ensures 1 <= |b| <= 4
  {
    if c < 0x80 then [c]
    else if c < 0x800 then [0xC0 + c / 0x40, 0x80 + c % 0x40]
    else if c < 0x1_0000 then [0xE0 + c / 0x1000, 0x80 + c / 0x40 % 0x40, 0x80 + c % 0x40]
    else [0xF0 + c / 0x4_0000, 0x80 + c / 0x1000 % 0x40, 0x80 + c / 0x40 % 0x40, 0x80 + c % 0x40]
  }

  function Encode8(s: seq<int>): seq<byte>
    requires Scalars(s)
  {
    if |s| == 0 then [] else Bytes8(s[0]) + Encode8(s[1..])
  }

  lemma {:induction false} Encode8Snoc(s: seq<int>, c: int)
    requires Scalars(s) && IsScalar(c)
    ensures Scalars(s + [c]) && Encode8(s + [c]) == Encode8(s) + Bytes8(c)
  {
    if |s| == 0 {
      assert (s + [c])[1..] == [];
      assert Bytes8(c) + [] == [] + Bytes8(c);
    } else {
      assert (s + [c])[1..] == s[1..] + [c];
      Encode8Snoc(s[1..], c);
      assert Bytes8(s[0]) + (Encode8(s[1..]) + Bytes8(c)) == (Bytes8(s[0]) + Encode8(s[1..])) + Bytes8(c);
    }
  }

  // ----- well-formed UTF-16

  predicate Surrogate(u: int) { 0xD800 <= u <= 0xDFFF }

  function Pair(u: u16, v: u16): int { 0x1_0000 + (u - 0xD800) * 0x400 + (v - 0xDC00) }

  predicate IsPair(u: u16, v: u16) { 0xD800 <= u < 0xDC00 <= v <= 0xDFFF }

  function Behind(c: int, rest: Option<seq<int>>): Option<seq<int>> {
    if rest.None? then None else Some([c] + rest.value)
  }

  /** The scalars of a unit sequence; nothing when it is not well formed. */
  function Decode16(u: seq<u16>): Option<seq<int>> {
    if |u| == 0 then Some([])
    else if !Surrogate(u[0]) then Behind(u[0], Decode16(u[1..]))
    else if |u| >= 2 && IsPair(u[0], u[1]) then Behind(Pair(u[0], u[1]), Decode16(u[2..]))
    else None
  }

  lemma PairRoundTrip(u: u16, v: u16)
    requires IsPair(u, v)
    ensures IsScalar(Pair(u, v)) && Pair(u, v) >= 0x1_0000 && Units16(Pair(u, v)) == [u, v]
  {}

  lemma {:induction false} DecodeSound(u: seq<u16>)
    requires Decode16(u).Some?
    ensures Scalars(Decode16(u).value) && Encode16(Decode16(u).value) == u
  {
    if |u| > 0 {
      var s := Decode16(u).value;
      if !Surrogate(u[0]) {
        DecodeSound(u[1..]);
        assert s[1..] == Decode16(u[1..]).value;
        assert u == [u[0]] + u[1..];
      } else {
        DecodeSound(u[2..]);
        PairRoundTrip(u[0], u[1]);
        assert s[1..] == Decode16(u[2..]).value;
        assert u == [u[0], u[1]] + u[2..];
      }
    }
  }

  lemma SplitPair(c: int)
    requires IsScalar(c) && c >= 0x1_0000
    ensures var p := Units16(c); |p| == 2 && IsPair(p[0], p[1]) && Pair(p[0], p[1]) == c
  {}

  /** The units of a scalar in front of others are decoded to that scalar. */
  lemma DecodeUnits(c: int, rest: seq<u16>)
    requires IsScalar(c)
    ensures Decode16(Units16(c) + rest) == Behind(c, Decode16(rest))
  {
    var u := Units16(c) + rest;
    if c < 0x1_0000 {
      assert u[1..] == rest;
    } else {
      SplitPair(c);
      assert u[2..] == rest;
    }
  }

  lemma {:induction false} DecodeComplete(s: seq<int>)
    requires Scalars(s)
    ensures Decode16(Encode16(s)) == Some(s)
  {
    if |s| > 0 {
      DecodeComplete(s[1..]);
      DecodeUnits(s[0], Encode16(s[1..]));
      hide Decode16, Units16;
      assert s == [s[0]] + s[1..];
    }
  }

  /** A unit sequence is accepted exactly when it encodes scalars, and which ones is then settled. */
  lemma DecodeIff(u: seq<u16>, s: seq<int>)
    ensures Decode16(u) == Some(s) <==> Scalars(s) && Encode16(s) == u
  {
    hide Decode16, Encode16, Scalars;
    if Decode16(u) == Some(s) {
      DecodeSound(u);
    }
    if Scalars(s) && Encode16(s) == u {
      DecodeComplete(s);
    }
  }

  // ----- UTF-8 back to scalars

  predicate Continues(b: byte) { 0x80 <= b < 0xC0 }

  /** The first scalar of a UTF-8 string and its length, by the syntax of section 4 of RFC 3629. */
  function First8(b: seq<byte>): (r: Option<(int, nat)>)
    ensures r.Some? ==> 1 <= r.value.1 <= |b|
  {
    if |b| == 0 then None
    else if b[0] < 0x80 then Some((b[0], 1))
    else if 0xC2 <= b[0] < 0xE0 && |b| >= 2 && Continues(b[1]) then
      Some(((b[0] as int - 0xC0) * 0x40 + (b[1] as int - 0x80), 2))
    else if 0xE0 <= b[0] < 0xF0 && |b| >= 3 && Continues(b[1]) && Continues(b[2]) then
      var c := (b[0] as int - 0xE0) * 0x1000 + (b[1] as int - 0x80) * 0x40 + (b[2] as int - 0x80);
      if c >= 0x800 && !Surrogate(c) then Some((c, 3)) else None
    else if 0xF0 <= b[0] < 0xF5 && |b| >= 4 && Continues(b[1]) && Continues(b[2]) && Continues(b[3]) then
      var high := (b[0] as int - 0xF0) * 0x4_0000 + (b[1] as int - 0x80) * 0x1000;
      var c := high + (b[2] as int - 0x80) * 0x40 + (b[3] as int - 0x80);
      if 0x1_0000 <= c < 0x11_0000 then Some((c, 4)) else None
    else None
  }

  function Decode8(b: seq<byte>): Option<seq<int>> {
    if |b| == 0 then Some([])
    else
      var f := First8(b);
      if f.None? then None else Behind(f.value.0, Decode8(b[f.value.1..]))
  }

  lemma FirstOfBytes(c: int, rest: seq<byte>)
    requires IsScalar(c)
    ensures First8(Bytes8(c) + rest) == Some((c, |Bytes8(c)|))
  {
    var b := Bytes8(c) + rest;
    assert forall i :: 0 <= i < |Bytes8(c)| ==> b[i] == Bytes8(c)[i];
    Sixes(c);
  }

  lemma Sixes(c: int)
    requires 0 <= c < 0x11_0000
    ensures c == c / 0x40 * 0x40 + c % 0x40
    ensures c / 0x40 == c / 0x1000 * 0x40 + c / 0x40 % 0x40
    ensures c / 0x1000 == c / 0x4_0000 * 0x40 + c / 0x1000 % 0x40
  {}

  /** Decoding UTF-8 gives back the scalars it was made from. */
  lemma {:induction false} Decode8Complete(s: seq<int>)
    requires Scalars(s)
    ensures Decode8(Encode8(s)) == Some(s)
  {
    if |s| > 0 {
      var b := Bytes8(s[0]) + Encode8(s[1..]);
      FirstOfBytes(s[0], Encode8(s[1..]));
      Decode8Complete(s[1..]);
      assert b[|Bytes8(s[0])|..] == Encode8(s[1..]);
      assert s == [s[0]] + s[1..];
      hide First8, Bytes8;
      assert Encode8(s) == b;
    }
  }

  // ----- bit operations of the fast path

  /** `0x80 | (c >> k & 0x3F)`. */
  lemma Continuation(c: nat)
    ensures Or(0x80, And(c, 0x3F)) == 0x80 + c % 0x40
  {
    hide And;
    assert Pow(2, 6) == 64;
    AndLowOnes(c, 6);
    OrDisjoint(c % 64, 2, 6);
  }

  lemma LeadBits(x: nat)
    ensures x < 0x20 ==> Or(0xC0, x) == 0xC0 + x
    ensures x < 0x10 ==> Or(0xE0, x) == 0xE0 + x
    ensures x < 0x08 ==> Or(0xF0, x) == 0xF0 + x
  {
    hide And;
    assert Pow(2, 6) == 64 && Pow(2, 5) == 32 && Pow(2, 4) == 16;
    if x < 0x20 {
      OrDisjoint(x, 3, 6);
    }
    if x < 0x10 {
      OrDisjoint(x, 7, 5);
    }
    if x < 0x08 {
      OrDisjoint(x, 15, 4);
    }
  }

  // ----- the fast path

  /** The 16-bit units of the input, in either byte order. */
  function UnitsOf(input: seq<byte>, le: bool): (u: seq<u16>)
    requires |input| % 2 == 0
    ensures |u| == |input| / 2
  {
    seq(|input| / 2, i requires 0 <= i < |input| / 2 =>
      if le then input[2 * i] as int + 256 * input[2 * i + 1] as int
      else 256 * input[2 * i] as int + input[2 * i + 1] as int)
  }

  /** Each unit as two bytes: the low one first in little-endian order, the high one first otherwise. */
  function Serialize(u: seq<u16>, le: bool): (b: seq<byte>)
    ensures |b| == 2 * |u|
  {
    if |u| == 0 then []
    else (if le then [u[0] % 256, u[0] / 256] else [u[0] / 256, u[0] % 256]) + Serialize(u[1..], le)
  }

  lemma {:induction false} SerializedByte(u: seq<u16>, le: bool, i: nat)
    requires i < |u|
    ensures Serialize(u, le)[2 * i] == if le then u[i] % 256 else u[i] / 256
    ensures Serialize(u, le)[2 * i + 1] == if le then u[i] / 256 else u[i] % 256
  {
    if i > 0 {
      SerializedByte(u[1..], le, i - 1);
    }
  }

  lemma UnitAt(input: seq<byte>, le: bool, i: nat)
    requires |input| % 2 == 0 && 2 * i < |input|
    ensures var x, y := input[2 * i] as int, input[2 * i + 1] as int;
      UnitsOf(input, le)[i] == if le then x + 256 * y else 256 * x + y
  {}

  /** Reading what was serialized gives the units back. */
  lemma SerializedReads(u: seq<u16>, le: bool)
    ensures UnitsOf(Serialize(u, le), le) == u
  {
    hide Serialize, UnitsOf;
    forall i | 0 <= i < |u| ensures UnitsOf(Serialize(u, le), le)[i] == u[i] {
      SerializedByte(u, le, i);
      UnitAt(Serialize(u, le), le, i);
    }
  }

  /** And every input of even length is serialized units. */
  lemma ReadSerializes(input: seq<byte>, le: bool)
    requires |input| % 2 == 0
    ensures Serialize(UnitsOf(input, le), le) == input
  {
    hide Serialize, UnitsOf;
    var u := UnitsOf(input, le);
    forall j | 0 <= j < |input| ensures Serialize(u, le)[j] == input[j] {
      SerializedByte(u, le, j / 2);
      UnitAt(input, le, j / 2);
      TwoBytes(input[j - j % 2], input[j - j % 2 + 1]);
    }
  }

  lemma TwoBytes(x: byte, y: byte)
    ensures (x as int + 256 * y) % 256 == x && (x as int + 256 * y) / 256 == y
    ensures (256 * x as int + y) % 256 == y && (256 * x as int + y) / 256 == x
  {}

  /** The input is the serialization of exactly the scalars that its units decode to. */
  lemma InputEncodes(input: seq<byte>, le: bool, s: seq<int>)
    ensures Scalars(s) && input == Serialize(Encode16(s), le)
      <==> |input| % 2 == 0 && Decode16(UnitsOf(input, le)) == Some(s)
  {
    hide Scalars, Encode16, Decode16, Serialize, UnitsOf;
    if |input| % 2 == 0 {
      DecodeIff(UnitsOf(input, le), s);
      ReadSerializes(input, le);
    }
    if Scalars(s) && input == Serialize(Encode16(s), le) {
      SerializedReads(Encode16(s), le);
    }
  }

  lemma InputDecodes(input: seq<byte>, le: bool)
    ensures forall s ::
      (Scalars(s) && input == Serialize(Encode16(s), le)) <==>
      (|input| % 2 == 0 && Decode16(UnitsOf(input, le)) == Some(s))
  {
    hide Scalars, Encode16, Decode16, Serialize, UnitsOf;
    forall s ensures Scalars(s) && input == Serialize(Encode16(s), le)
      <==> |input| % 2 == 0 && Decode16(UnitsOf(input, le)) == Some(s)
    {
      InputEncodes(input, le, s);
    }
  }

  /** Units up to `i` have been read as the scalars `done`. */
  ghost predicate Reading(u: seq<u16>, i: nat, done: seq<int>) {
    && i <= |u| && Scalars(done)
    && Decode16(u) == match Decode16(u[i..])
       case None => None
       case Some(rest) => Some(done + rest)
  }

  lemma ReadNext(u: seq<u16>, i: nat, done: seq<int>)
    requires Reading(u, i, done) && i < |u|
    ensures !Surrogate(u[i]) ==> IsScalar(u[i]) && Reading(u, i + 1, done + [u[i]])
    ensures Surrogate(u[i]) && i + 1 < |u| && IsPair(u[i], u[i + 1]) ==>
      IsScalar(Pair(u[i], u[i + 1])) && Reading(u, i + 2, done + [Pair(u[i], u[i + 1])])
    ensures Surrogate(u[i]) && !(i + 1 < |u| && IsPair(u[i], u[i + 1])) ==> Decode16(u) == None
  {
    var t := u[i..];
    assert t[0] == u[i] && t[1..] == u[i + 1..];
    if i + 1 < |u| {
      assert t[1] == u[i + 1] && t[2..] == u[i + 2..];
    }
    if !Surrogate(u[i]) {
      AppendOne(done, u[i], Decode16(u[i + 1..]));
    } else if i + 1 < |u| && IsPair(u[i], u[i + 1]) {
      PairRoundTrip(u[i], u[i + 1]);
      AppendOne(done, Pair(u[i], u[i + 1]), Decode16(u[i + 2..]));
    }
  }

  lemma AppendOne(done: seq<int>, c: int, rest: Option<seq<int>>)
    ensures rest.Some? ==> done + ([c] + rest.value) == (done + [c]) + rest.value
  {}

  /** Writes one scalar of the basic plane; returns the next position. */
  method PutUnit(out: array<byte>, o: nat, u: u16) returns (o': nat)
    requires IsScalar(u) && o + 3 <= out.Length
    modifies out
    ensures o' == o + |Bytes8(u)| <= o + 3 && out[o..o'] == Bytes8(u)
    ensures forall k :: 0 <= k < out.Length && !(o <= k < o') ==> out[k] == old(out[k])
  {
    hide And, Or;
    LeadBits(u / 0x40);
    LeadBits(u / 0x1000);
    Continuation(u);
    Continuation(u / 0x40);
    if u < 0x80 {
      out[o] := u;
      o' := o + 1;
    } else if u < 0x800 {
      out[o] := Or(0xC0, u / 0x40);
      out[o + 1] := Or(0x80, And(u, 0x3F));
      o' := o + 2;
    } else {
      out[o] := Or(0xE0, u / 0x1000);
      out[o + 1] := Or(0x80, And(u / 0x40, 0x3F));
      out[o + 2] := Or(0x80, And(u, 0x3F));
      o' := o + 3;
    }
  }

  /** Writes one scalar above the basic plane. */
  method PutPair(out: array<byte>, o: nat, c: int)
    requires 0x1_0000 <= c < 0x11_0000 && o + 4 <= out.Length
    modifies out
    ensures |Bytes8(c)| == 4 && out[o..o + 4] == Bytes8(c)
    ensures forall k :: 0 <= k < out.Length && !(o <= k < o + 4) ==> out[k] == old(out[k])
  {
    hide And, Or;
    LeadBits(c / 0x4_0000);
    Continuation(c);
    Continuation(c / 0x40);
    Continuation(c / 0x1000);
    out[o] := Or(0xF0, c / 0x4_0000);
    out[o + 1] := Or(0x80, And(c / 0x1000, 0x3F));
    out[o + 2] := Or(0x80, And(c / 0x40, 0x3F));
    out[o + 3] := Or(0x80, And(c, 0x3F));
  }

  lemma Extended(out: array<byte>, o: nat, o': nat, before: seq<byte>, b: seq<byte>)
    requires o <= o' <= out.Length && |before| == o && out[o..o'] == b
    requires forall k :: 0 <= k < o ==> out[k] == before[k]
    ensures out[..o'] == before + b
  {
    assert out[..o] == before;
    assert out[..o'] == out[..o] + out[o..o'];
  }

  /**
   * UTF-16 of even length to UTF-8: succeeds exactly on well-formed input, and writes the UTF-8 of
   * its scalars, never more than three bytes for each unit read.
   */
  method FastUtf16To8(input: seq<byte>, le: bool) returns (r: Option<seq<byte>>)
    ensures r.Some? <==> exists s :: Scalars(s) && input == Serialize(Encode16(s), le)
    ensures forall s :: Scalars(s) && input == Serialize(Encode16(s), le) ==> r == Some(Encode8(s))
    ensures r.Some? ==> |r.value| <= 3 * (|input| / 2)
  {
    hide Decode16, Encode8, Bytes8, Reading, Scalars, Pair, IsScalar, UnitsOf, Encode16, Serialize;
    InputDecodes(input, le);
    if |input| % 2 != 0 {
      return None;
    }
    var units := UnitsOf(input, le);
    var out := new byte[|units| * 3](_ => 0);
    var o, i := 0, 0;
    ghost var done: seq<int> := [];
    ReadStart(units);
    assert out[..0] == [];
    while i < |units|
      invariant 0 <= i <= |units| && 0 <= o <= 3 * i
      invariant Reading(units, i, done) && Scalars(done) && out[..o] == Encode8(done)
    {
      ReadNext(units, i, done);
      var u := units[i];
      ghost var before := out[..o];
      if !(0xD800 <= u <= 0xDFFF) {
        Encode8Snoc(done, u);
        var o' := PutUnit(out, o, u);
        Extended(out, o, o', before, Bytes8(u));
        done := done + [u];
        o := o';
        i := i + 1;
      } else {
        if i + 1 == |units| {
          return None;
        }
        var u2 := units[i + 1];
        if u >= 0xDC00 || !(0xDC00 <= u2 <= 0xDFFF) {
          NoPair(u, u2);
          return None;
        }
        PairRange(u, u2);
        var c := 0x1_0000 + (u as int - 0xD800) * 0x400 + (u2 as int - 0xDC00);
        Encode8Snoc(done, c);
        PutPair(out, o, c);
        Extended(out, o, o + 4, before, Bytes8(c));
        done := done + [c];
        o := o + 4;
        i := i + 2;
      }
    }
    ReadEnd(units, done);
    r := Some(out[..o]);
  }

  lemma NoPair(u: u16, v: u16)
    requires u >= 0xDC00 || !(0xDC00 <= v <= 0xDFFF)
    ensures !IsPair(u, v)
  {}

  lemma PairRange(u: u16, v: u16)
    requires Surrogate(u) && u < 0xDC00 && 0xDC00 <= v <= 0xDFFF
    ensures IsPair(u, v) && Pair(u, v) == 0x1_0000 + (u as int - 0xD800) * 0x400 + (v as int - 0xDC00)
    ensures 0x1_0000 <= Pair(u, v) < 0x11_0000
  {}

  lemma ReadStart(u: seq<u16>)
    ensures Reading(u, 0, []) && Scalars([]) && Encode8([]) == []
  {
    assert u[0..] == u;
    var d := Decode16(u);
    assert d.Some? ==> [] + d.value == d.value;
  }

  lemma ReadEnd(u: seq<u16>, done: seq<int>)
    requires Reading(u, |u|, done)
    ensures Decode16(u) == Some(done) && Scalars(done)
  {
    assert u[|u|..] == [];
    assert done + [] == done;
  }

  /** What the fast path writes decodes to the scalars that its input encodes. */
  lemma OutputDecodes(u: seq<u16>)
    requires Decode16(u).Some?
    ensures Scalars(Decode16(u).value) && Decode8(Encode8(Decode16(u).value)) == Decode16(u)
  {
    hide Decode16, Encode8, Decode8, Scalars, Encode16;
    DecodeSound(u);
    Decode8Complete(Decode16(u).value);
  }
}
