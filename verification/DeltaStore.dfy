/**
 * The locale data compiler's record store: each record is a difference from a base record, and
 * walking the bases must give back the full data.
 */
module DeltaStore {
  import opened Words
  import opened Wrappers

  /** A string as its UTF-8 bytes. */
  type Str = seq<byte>

  type Dict = map<Str, Str>

  /** A locale and the name of a section. */
  type Section = (string, string)

  type Data = map<Section, Dict>

  /** The record number of each finished section. */
  type Index = map<Section, nat>

  /** The pool offset of each stored string. */
  type Refs = map<Str, nat>

  const NONE: nat := 0xFFFF_FFFF

  // ----- the string pool

  /** The string stored at `r`: two length bytes, then the bytes. */
  ghost predicate StoredAt(buf: seq<byte>, r: nat, s: Str) {
    && r + 2 + |s| <= |buf|
    && buf[r] as int + buf[r + 1] as int * 256 == |s|
    && buf[r + 2..r + 2 + |s|] == s
  }

  lemma StoredExtends(buf: seq<byte>, more: seq<byte>, r: nat, s: Str)
    requires StoredAt(buf, r, s)
    ensures StoredAt(buf + more, r, s)
  {
    assert (buf + more)[r + 2..r + 2 + |s|] == buf[r + 2..r + 2 + |s|];
  }

  class Pool {
    var buf: seq<byte>
    var refs: Refs

    ghost predicate Valid()
      reads this
    {
      forall s :: s in refs ==> StoredAt(buf, refs[s], s)
    }

    constructor ()
      ensures Valid() && buf == [] && refs == map[]
    {
      buf, refs := [], map[];
    }

    /** The reference of a string: stored once, at an offset that never changes. */
    method Ref(s: Str) returns (r: nat)
      requires Valid() && |s| < 65536
      modifies this
      ensures Valid() && old(buf) <= buf
      ensures s in refs && refs[s] == r < |buf|
      ensures forall t :: t in old(refs) ==> t in refs && refs[t] == old(refs)[t]
    {
      if s in refs {
        return refs[s];
      }
      r := |buf|;
      ghost var before := buf;
      var more := [|s| % 256, |s| / 256] + s;
      buf := buf + more;
      refs := refs[s := r];
      assert buf[r + 2..r + 2 + |s|] == s;
      forall t | t in refs ensures StoredAt(buf, refs[t], t) {
        if t != s {
          StoredExtends(before, more, refs[t], t);
        }
      }
    }

    /** Reads a string back. */
    function Text(r: nat): Str
      requires r + 2 <= |buf| && r + 2 + buf[r] as int + buf[r + 1] as int * 256 <= |buf|
      reads this
    {
      buf[r + 2..r + 2 + buf[r] as int + buf[r + 1] as int * 256]
    }
  }

  /** A stored string reads back from its reference. */
  lemma TextStored(p: Pool, r: nat, s: Str)
    requires StoredAt(p.buf, r, s)
    ensures p.Text(r) == s
  {}

  // ----- records

  /** A key index and a value reference; `NONE` marks a key that is absent here. */
  type Ent = (nat, nat)

  datatype Record = Record(base: nat, ents: seq<Ent>)

  function Find(ents: seq<Ent>, key: nat): Option<nat> {
    if |ents| == 0 then None
    else if ents[0].0 == key then Some(ents[0].1)
    else Find(ents[1..], key)
  }

  ghost predicate Distinct(ents: seq<Ent>) {
    forall i, j :: 0 <= i < j < |ents| ==> ents[i].0 != ents[j].0
  }

  ghost predicate Ascending(ents: seq<Ent>) {
    forall i, j :: 0 <= i < j < |ents| ==> ents[i].0 < ents[j].0
  }

  lemma {:induction false} FindIs(ents: seq<Ent>, key: nat)
    requires Distinct(ents)
    ensures Find(ents, key).Some? <==> exists i :: 0 <= i < |ents| && ents[i].0 == key
    ensures forall i :: 0 <= i < |ents| && ents[i].0 == key ==> Find(ents, key) == Some(ents[i].1)
  {
    if |ents| > 0 && ents[0].0 != key {
      FindIs(ents[1..], key);
      assert forall i :: 0 < i < |ents| ==> ents[i] == ents[1..][i - 1];
      if Find(ents[1..], key).Some? {
        var i :| 0 <= i < |ents[1..]| && ents[1..][i].0 == key;
        assert ents[i + 1].0 == key;
      }
    }
  }

  /** Every record's base comes before it. */
  ghost predicate Grounded(records: seq<Record>) {
    forall i :: 0 <= i < |records| ==> records[i].base == NONE || records[i].base < i
  }

  /** What a record says about a key: its own entry, or what its base says. */
  function Walk(records: seq<Record>, r: nat, key: nat): Option<nat>
    requires Grounded(records) && r < |records|
    decreases r
  {
    var found := Find(records[r].ents, key);
    if found.Some? then (if found.value == NONE then None else found)
    else if records[r].base == NONE then None
    else Walk(records, records[r].base, key)
  }

  lemma {:induction false} WalkExtends(records: seq<Record>, more: seq<Record>, r: nat, key: nat)
    requires Grounded(records) && Grounded(records + more) && r < |records|
    ensures Walk(records + more, r, key) == Walk(records, r, key)
    decreases r
  {
    assert (records + more)[r] == records[r];
    if Find(records[r].ents, key).None? && records[r].base != NONE {
      WalkExtends(records, more, records[r].base, key);
    }
  }

  /** The reader: binary search in each record of the chain, until a key or a tombstone is found. */
  method Lookup(records: seq<Record>, rec: nat, key: nat) returns (v: Option<nat>)
    requires Grounded(records) && rec < |records|
    requires forall i :: 0 <= i < |records| ==> Ascending(records[i].ents)
    ensures v == Walk(records, rec, key)
  {
    var r: nat := rec;
    while true
      invariant r < |records| && Walk(records, r, key) == Walk(records, rec, key)
      decreases r
    {
      var at := Search(records[r].ents, key);
      if at.Some? {
        return if at.value == NONE then None else at;
      }
      if records[r].base == NONE {
        return None;
      }
      r := records[r].base;
    }
  }

  method Search(ents: seq<Ent>, key: nat) returns (v: Option<nat>)
    requires Ascending(ents)
    ensures v == Find(ents, key)
  {
    AscendingDistinct(ents);
    FindIs(ents, key);
    var lo, hi := 0, |ents|;
    while lo < hi
      invariant 0 <= lo <= hi <= |ents|
      invariant forall i :: 0 <= i < lo ==> ents[i].0 < key
      invariant forall i :: hi <= i < |ents| ==> key < ents[i].0
    {
      var mid := (lo + hi) / 2;
      if ents[mid].0 < key {
        lo := mid + 1;
      } else if ents[mid].0 > key {
        hi := mid;
      } else {
        return Some(ents[mid].1);
      }
    }
    return None;
  }

  lemma AscendingDistinct(ents: seq<Ent>)
    requires Ascending(ents)
    ensures Distinct(ents)
  {}

  // ----- sorting entries

  function Insert(e: Ent, s: seq<Ent>): (t: seq<Ent>)
    ensures |t| == |s| + 1
  {
    if |s| == 0 || e.0 < s[0].0 then [e] + s else [s[0]] + Insert(e, s[1..])
  }

  lemma {:induction false} InsertMembers(e: Ent, s: seq<Ent>, x: Ent)
    ensures x in Insert(e, s) <==> x == e || x in s
  {
    if !(|s| == 0 || e.0 < s[0].0) {
      InsertMembers(e, s[1..], x);
      assert s == [s[0]] + s[1..];
    }
  }

  lemma {:induction false} InsertAscending(e: Ent, s: seq<Ent>)
    requires Ascending(s) && forall i :: 0 <= i < |s| ==> s[i].0 != e.0
    ensures Ascending(Insert(e, s))
  {
    var t := Insert(e, s);
    if !(|s| == 0 || e.0 < s[0].0) {
      InsertAscending(e, s[1..]);
      forall i | 0 < i < |t| ensures s[0].0 < t[i].0 {
        assert t[i] == Insert(e, s[1..])[i - 1];
        InsertMembers(e, s[1..], t[i]);
      }
    }
  }

  /** The entries in ascending key order. */
  function Sort(s: seq<Ent>): (t: seq<Ent>)
    ensures |t| == |s|
  {
    if |s| == 0 then [] else Insert(s[0], Sort(s[1..]))
  }

  lemma {:induction false} SortMembers(s: seq<Ent>, x: Ent)
    ensures x in Sort(s) <==> x in s
  {
    if |s| > 0 {
      SortMembers(s[1..], x);
      InsertMembers(s[0], Sort(s[1..]), x);
      assert s == [s[0]] + s[1..];
    }
  }

  lemma {:induction false} SortAscending(s: seq<Ent>)
    requires Distinct(s)
    ensures Ascending(Sort(s))
  {
    if |s| > 0 {
      var rest := Sort(s[1..]);
      SortAscending(s[1..]);
      forall i | 0 <= i < |rest| ensures rest[i].0 != s[0].0 {
        SortMembers(s[1..], rest[i]);
        var j :| 0 <= j < |s[1..]| && s[1..][j] == rest[i];
        assert s[j + 1] == rest[i];
      }
      InsertAscending(s[0], rest);
    }
  }

  // ----- locales

  /** The part of a locale id before its last "-". */
  function BeforeDash(loc: string): (p: string)
    ensures |loc| > 0 ==> |p| < |loc|
  {
    if |loc| == 0 then ""
    else if loc[|loc| - 1] == '-' then loc[..|loc| - 1]
    else BeforeDash(loc[..|loc| - 1])
  }

  function Parent(parents: map<string, string>, loc: string): Option<string> {
    if loc == "und" then None
    else if loc in parents then Some(parents[loc])
    else if '-' in loc then Some(BeforeDash(loc))
    else Some("und")
  }

  /** Every key of the data has an index, and no string is too long for its length field. */
  ghost predicate Indexed(data: Data, keyIdx: Refs) {
    forall c, k :: c in data && k in data[c] ==> k in keyIdx && |data[c][k]| < 65536
  }

  lemma IndexedBy(data: Data, keys: seq<Str>, keyIdx: Refs)
    requires forall c, k :: c in data && k in data[c] ==> k in keys && |data[c][k]| < 65536
    requires forall k :: k in keys <==> k in keyIdx
    ensures Indexed(data, keyIdx)
  {}

  /** Every chain of parents ends: some rank goes down at each step. */
  ghost predicate Rooted(parents: map<string, string>, rank: string -> nat) {
    forall l :: Parent(parents, l).Some? ==> rank(Parent(parents, l).value) < rank(l)
  }

  /** The chain of parents from `l` ends within `n` steps. */
  ghost predicate Ends(parents: map<string, string>, l: string, n: nat)
    decreases n
  {
    var p := Parent(parents, l);
    p.None? || (n > 0 && Ends(parents, p.value, n - 1))
  }

  ghost predicate Leads(parents: map<string, string>, l: string) {
    exists n: nat :: Ends(parents, l, n)
  }

  lemma {:induction false} EndsMore(parents: map<string, string>, l: string, m: nat, n: nat)
    requires Ends(parents, l, m) && m <= n
    ensures Ends(parents, l, n)
    decreases m
  {
    var p := Parent(parents, l);
    if p.Some? {
      EndsMore(parents, p.value, m - 1, n - 1);
    }
  }

  /** Truncation alone ends, or comes to a locale with an explicit parent. */
  lemma {:induction false} TruncationEnds(parents: map<string, string>, l: string)
    requires forall m :: m in parents ==> Leads(parents, m)
    ensures Leads(parents, l)
    decreases |l|
  {
    if l == "und" {
      assert Ends(parents, l, 0);
    } else if l !in parents {
      var p := Parent(parents, l).value;
      if '-' in l {
        TruncationEnds(parents, p);
      } else {
        assert Ends(parents, p, 0);
      }
      var n: nat :| Ends(parents, p, n);
      assert Ends(parents, l, n + 1);
    }
  }

  /** The number of steps to the root. */
  ghost function Depth(parents: map<string, string>, l: string): (n: nat)
    ensures Leads(parents, l) ==> Ends(parents, l, n) && (n == 0 || !Ends(parents, l, n - 1))
  {
    if Leads(parents, l) then
      var k: nat :| Ends(parents, l, k);
      Least(parents, l, k)
    else 0
  }

  ghost function Least(parents: map<string, string>, l: string, k: nat): (n: nat)
    requires Ends(parents, l, k)
    ensures Ends(parents, l, n) && (n == 0 || !Ends(parents, l, n - 1))
  {
    if k > 0 && Ends(parents, l, k - 1) then Least(parents, l, k - 1) else k
  }

  /** The explicit parents lead to the root from everywhere if they do from the locales they are given for. */
  lemma ParentsRooted(parents: map<string, string>)
    requires forall l :: l in parents ==> Leads(parents, l)
    ensures Rooted(parents, l => Depth(parents, l))
  {
    forall l | Parent(parents, l).Some? ensures Depth(parents, Parent(parents, l).value) < Depth(parents, l) {
      var p := Parent(parents, l).value;
      TruncationEnds(parents, l);
      TruncationEnds(parents, p);
      var n := Depth(parents, l);
      assert Ends(parents, p, n - 1);
      var m := Depth(parents, p);
      if m > n - 1 {
        EndsMore(parents, p, n - 1, m - 1);
      }
    }
  }

  /** And only then: any rank bounds the steps. */
  lemma {:induction false} RootedEnds(parents: map<string, string>, rank: string -> nat, l: string)
    requires Rooted(parents, rank)
    ensures Ends(parents, l, rank(l))
    decreases rank(l)
  {
    var p := Parent(parents, l);
    if p.Some? {
      RootedEnds(parents, rank, p.value);
      EndsMore(parents, p.value, rank(p.value), rank(l) - 1);
    }
  }

  // ----- building

  /** What the difference from `base` says about key `k` of `d`. */
  ghost function Entry(d: Dict, base: Option<Dict>, refs: Refs, k: Str): Option<nat> {
    if k in d then
      if base.Some? && k in base.value && base.value[k] == d[k] then None
      else if d[k] in refs then Some(refs[d[k]]) else None
    else if base.Some? && k in base.value then Some(NONE)
    else None
  }

  /** The keys whose entries the difference holds: changed or new ones, and removed ones. */
  ghost function Changes(d: Dict, base: Option<Dict>): set<Str> {
    match base
    case None => d.Keys
    case Some(b) => (set k | k in d && !(k in b && b[k] == d[k])) + (b.Keys - d.Keys)
  }

  lemma NoBase(d: Dict)
    ensures Changes(d, None) == d.Keys
  {}

  /** What the full data says about key `k`. */
  ghost function Full(d: Dict, refs: Refs, k: Str): Option<nat> {
    if k in d && d[k] in refs then Some(refs[d[k]]) else None
  }

  /** `ents` is exactly the difference of `d` from `base`. */
  ghost predicate IsDiff(ents: seq<Ent>, d: Dict, base: Option<Dict>, keyIdx: Refs, refs: Refs) {
    && Ascending(ents) && |ents| == |Changes(d, base)|
    && (forall k :: k in keyIdx ==> Find(ents, keyIdx[k]) == Entry(d, base, refs, k))
    && (forall k :: ValueListed(d, base, k) ==> d[k] in refs)
  }

  ghost predicate RefsKept(old_: Refs, new_: Refs) {
    forall t :: t in old_ ==> t in new_ && new_[t] == old_[t]
  }

  lemma DiffKept(ents: seq<Ent>, d: Dict, base: Option<Dict>, keyIdx: Refs, refs: Refs, refs': Refs)
    requires IsDiff(ents, d, base, keyIdx, refs) && RefsKept(refs, refs')
    ensures IsDiff(ents, d, base, keyIdx, refs')
  {}

  lemma DiffSize(ents: seq<Ent>, d: Dict, base: Option<Dict>, keyIdx: Refs, refs: Refs)
    requires IsDiff(ents, d, base, keyIdx, refs)
    ensures |ents| == |Changes(d, base)|
  {}

  /** Record `r` says exactly what the dictionary says. */
  ghost predicate Says(records: seq<Record>, r: nat, d: Dict, keyIdx: Refs, refs: Refs)
    requires Grounded(records) && r < |records|
  {
    forall k :: k in keyIdx ==> Walk(records, r, keyIdx[k]) == Full(d, refs, k)
  }

  /** A record that holds the difference from a base says what the dictionary says, when the base's record does. */
  lemma RecordSays(records: seq<Record>, r: nat, d: Dict, base: Option<Dict>, keyIdx: Refs, refs: Refs)
    requires Grounded(records) && r < |records|
    requires IsDiff(records[r].ents, d, base, keyIdx, refs)
    requires base.None? ==> records[r].base == NONE
    requires base.Some? ==>
      && records[r].base != NONE && Says(records, records[r].base, base.value, keyIdx, refs)
      && forall k :: k in base.value ==> base.value[k] in refs
    requires forall t :: t in refs ==> refs[t] != NONE
    ensures Says(records, r, d, keyIdx, refs)
  {
    hide Find, Ascending, Changes;
    forall k | k in keyIdx ensures Walk(records, r, keyIdx[k]) == Full(d, refs, k) {
      assert Find(records[r].ents, keyIdx[k]) == Entry(d, base, refs, k);
    }
  }

  lemma SaysKept(records: seq<Record>, records': seq<Record>, r: nat, d: Dict, keyIdx: Refs, refs: Refs, refs': Refs)
    requires Grounded(records) && Grounded(records') && records <= records' && r < |records|
    requires Says(records, r, d, keyIdx, refs) && RefsKept(refs, refs')
    requires forall k :: k in d ==> d[k] in refs
    ensures Says(records', r, d, keyIdx, refs')
  {
    assert records' == records + records'[|records|..];
    forall k | k in keyIdx ensures Walk(records', r, keyIdx[k]) == Full(d, refs', k) {
      WalkExtends(records, records'[|records|..], r, keyIdx[k]);
    }
  }

  /** The tables are consistent: bases come first, entries are sorted, shared records are found where they are. */
  ghost predicate Tables(data: Data, records: seq<Record>, recIndex: Index, recDedup: map<Record, nat>, refs: Refs) {
    && Grounded(records) && (forall i :: 0 <= i < |records| ==> Ascending(records[i].ents))
    && (forall sig :: sig in recDedup ==> recDedup[sig] < |records| && records[recDedup[sig]] == sig)
    && (forall c :: c in recIndex ==> c in data && recIndex[c] < |records|)
    && (forall c, k :: c in recIndex && k in data[c] ==> data[c][k] in refs)
  }

  /** Every finished section's record says what its dictionary says. */
  ghost predicate Meanings(data: Data, records: seq<Record>, recIndex: Index, keyIdx: Refs, refs: Refs) {
    && Grounded(records)
    && forall c :: c in recIndex ==>
      c in data && recIndex[c] < |records| && Says(records, recIndex[c], data[c], keyIdx, refs)
  }

  /** More strings in the pool change nothing. */
  lemma PoolGrown(data: Data, records: seq<Record>, recIndex: Index, recDedup: map<Record, nat>, keyIdx: Refs,
    refs: Refs, refs': Refs)
    requires Tables(data, records, recIndex, recDedup, refs) && RefsKept(refs, refs')
    ensures Tables(data, records, recIndex, recDedup, refs')
    ensures Meanings(data, records, recIndex, keyIdx, refs) ==> Meanings(data, records, recIndex, keyIdx, refs')
  {
    hide Grounded, Ascending, Walk, Says;
    if Meanings(data, records, recIndex, keyIdx, refs) {
      forall c | c in recIndex ensures Says(records, recIndex[c], data[c], keyIdx, refs') {
        SaysKept(records, records, recIndex[c], data[c], keyIdx, refs, refs');
      }
    }
  }

  /** One more section, on a new record or a shared one. */
  lemma SectionAdded(data: Data, records: seq<Record>, records': seq<Record>, recIndex: Index, keyIdx: Refs, refs: Refs,
      c: Section, r: nat, base: Option<Section>)
    requires Meanings(data, records, recIndex, keyIdx, refs) && Grounded(records') && records <= records'
      && r < |records'| && c in data
    requires forall c, k :: c in recIndex && k in data[c] ==> data[c][k] in refs
    requires base.Some? ==> base.value in recIndex && recIndex[base.value] == records'[r].base != NONE
    requires base.None? ==> records'[r].base == NONE
    requires base.Some? ==> base.value in data
    requires IsDiff(records'[r].ents, data[c], if base.Some? then Some(data[base.value]) else None, keyIdx, refs)
    requires forall t :: t in refs ==> refs[t] != NONE
    ensures Meanings(data, records', recIndex[c := r], keyIdx, refs)
  {
    hide Grounded, Walk, Says, IsDiff;
    RefsSame(refs);
    forall b | b in recIndex ensures Says(records', recIndex[b], data[b], keyIdx, refs) {
      SaysKept(records, records', recIndex[b], data[b], keyIdx, refs, refs);
    }
    RecordSays(records', r, data[c], if base.Some? then Some(data[base.value]) else None, keyIdx, refs);
  }

  lemma BaseIn(data: Data, rs: seq<Record>, index: Index, dedup: map<Record, nat>, refs: Refs, base: Option<Section>)
    requires Tables(data, rs, index, dedup, refs) && (base.Some? ==> base.value in index)
    ensures base.Some? ==> index[base.value] < |rs|
    ensures forall c :: c in index ==> c in data
    ensures forall c, k :: c in index && k in data[c] ==> data[c][k] in refs
  {
    hide Grounded, Ascending;
  }

  lemma DiffAscends(ents: seq<Ent>, d: Dict, base: Option<Dict>, keyIdx: Refs, refs: Refs)
    requires IsDiff(ents, d, base, keyIdx, refs)
    ensures Ascending(ents)
  {}

  /** One more record, or an equal one shared. */
  lemma TablesAdded(
    data: Data, rs: seq<Record>, rs': seq<Record>, index: Index, dedup: map<Record, nat>, dedup': map<Record, nat>,
    refs: Refs, c: Section, r: nat, sig: Record
  )
    requires Tables(data, rs, index, dedup, refs) && Ascending(sig.ents) && (sig.base == NONE || sig.base < |rs|)
    requires c in data && forall k :: k in data[c] ==> data[c][k] in refs
    requires if sig in dedup then r == dedup[sig] && rs' == rs && dedup' == dedup
      else r == |rs| && rs' == rs + [sig] && dedup' == dedup[sig := r]
    ensures Tables(data, rs', index[c := r], dedup', refs) && Grounded(rs')
    ensures rs <= rs' && r < |rs'| && rs'[r] == sig
  {
    hide Ascending;
  }

  /** Everything so far stays: offsets, records and finished sections. */
  ghost predicate Grew(
    refs: Refs, records: seq<Record>, recIndex: Index, refs': Refs, records': seq<Record>, recIndex': Index
  ) {
    && RefsKept(refs, refs') && records <= records'
    && forall c :: c in recIndex ==> c in recIndex' && recIndex'[c] == recIndex[c]
  }

  lemma GrewTrans(f: Refs, r: seq<Record>, i: Index, f': Refs, r': seq<Record>, i': Index,
      f'': Refs, r'': seq<Record>, i'': Index)
    requires Grew(f, r, i, f', r', i') && Grew(f', r', i', f'', r'', i'')
    ensures Grew(f, r, i, f'', r'', i'')
  {}

  lemma GrewOne(f: Refs, r: seq<Record>, i: Index, f': Refs, r': seq<Record>, i': Index,
      r'': seq<Record>, c: Section, n: nat)
    requires Grew(f, r, i, f', r', i') && r' <= r'' && c !in i
    ensures Grew(f, r, i, f', r'', i'[c := n])
  {}

  // ----- the choice of a base

  /** How many entries the difference from a section has. */
  ghost function Size(d: Dict, data: Data, c: Section): nat
    requires c in data
  {
    |Changes(d, Some(data[c]))|
  }

  /** The best of the candidates so far, replaced only by a smaller one. */
  ghost function Pick(d: Dict, data: Data, cands: seq<Section>): (best: Option<Section>)
    requires forall i :: 0 <= i < |cands| ==> cands[i] in data
    ensures best.Some? ==> best.value in data && best.value in cands
    ensures best.None? <==> |cands| == 0
  {
    if |cands| == 0 then None
    else
      var last, best := cands[|cands| - 1], Pick(d, data, cands[..|cands| - 1]);
      if best.None? || Size(d, data, last) < Size(d, data, best.value) then Some(last) else best
  }

  /** It is the first of the smallest. */
  lemma {:induction false} PickSmallest(d: Dict, data: Data, cands: seq<Section>) returns (i: nat)
    requires |cands| > 0 && forall j :: 0 <= j < |cands| ==> cands[j] in data
    ensures i < |cands| && Pick(d, data, cands) == Some(cands[i])
    ensures forall j :: 0 <= j < |cands| ==> Size(d, data, cands[i]) <= Size(d, data, cands[j])
    ensures forall j :: 0 <= j < i ==> Size(d, data, cands[i]) < Size(d, data, cands[j])
  {
    hide Size;
    var n := |cands| - 1;
    i := n;
    if n > 0 {
      var k := PickSmallest(d, data, cands[..n]);
      if Size(d, data, cands[n]) >= Size(d, data, cands[k]) {
        i := k;
      }
    }
  }

  /** The record of section `c` is its difference from the section `best`, on that section's record. */
  ghost predicate FromBase(
    record: Record, c: Section, best: Option<Section>, data: Data, recIndex: Index, keyIdx: Refs, refs: Refs
  ) {
    && c in data && (best.Some? ==> best.value in data && best.value in recIndex)
    && record.base == (if best.None? then NONE else recIndex[best.value])
    && IsDiff(record.ents, data[c], if best.Some? then Some(data[best.value]) else None, keyIdx, refs)
  }

  class Builder {
    const data: Data
    const parents: map<string, string>
    const calendars: set<string>
    const keys: seq<Str>
    const keyIdx: Refs
    ghost const rank: string -> nat
    const pool: Pool
    var records: seq<Record>
    var recIndex: Index
    var recDedup: map<Record, nat>

    /** The input: keys listed once, strings short enough, and parents that lead to the root. */
    ghost predicate Input() {
      && (forall k :: k in keyIdx ==> keyIdx[k] < |keys| && keys[keyIdx[k]] == k)
      && Indexed(data, keyIdx)
      && Rooted(parents, rank)
    }

    /** Offsets and record numbers stay clear of the marker value. */
    ghost predicate Fits()
      reads this, pool
    {
      |pool.buf| <= NONE && |records| <= NONE
    }

    ghost predicate Valid()
      reads this, pool
    {
      && Input() && pool.Valid() && Tables(data, records, recIndex, recDedup, pool.refs)
      && AllFromBase(records, recIndex, pool.refs)
      && (Fits() ==> Meanings(data, records, recIndex, keyIdx, pool.refs))
    }

    /** The nearest locale from `p` on that has the section. */
    ghost function Nearest(p: Option<string>, sec: string): (q: Option<string>)
      requires Input()
      ensures q.Some? ==> p.Some? && (q.value, sec) in data && rank(q.value) <= rank(p.value)
      decreases if p.Some? then 1 + rank(p.value) else 0
    {
      if p.None? || (p.value, sec) in data then p else Nearest(Parent(parents, p.value), sec)
    }

    /** The sections a difference may be taken from: the nearest ancestor's, or the locale's Gregorian calendar. */
    ghost function CandidatesOf(loc: string, sec: string): (cands: seq<Section>)
      requires Input()
      ensures forall i :: 0 <= i < |cands| ==> cands[i] in data && Smaller(cands[i], loc, sec)
    {
      var p := Nearest(Parent(parents, loc), sec);
      (if p.Some? then [(p.value, sec)] else [])
      + if sec in calendars && sec != "gregorian" && (loc, "gregorian") in data then [(loc, "gregorian")] else []
    }

    /** The section that the difference of a section is taken from. */
    ghost function Picked(c: Section): Option<Section> {
      if Input() && c in data then Pick(data[c], data, CandidatesOf(c.0, c.1)) else None
    }

    /** Every finished section is held as its smallest difference. */
    ghost predicate AllFromBase(rs: seq<Record>, index: Index, refs: Refs) {
      forall c :: c in index ==> index[c] < |rs| && FromBase(rs[index[c]], c, Picked(c), data, index, keyIdx, refs)
    }

    lemma SmallestKept(rs: seq<Record>, index: Index, refs: Refs, refs': Refs)
      requires AllFromBase(rs, index, refs) && RefsKept(refs, refs')
      ensures AllFromBase(rs, index, refs')
    {
      hide IsDiff, RefsKept, Picked;
      forall c | c in index ensures FromBase(rs[index[c]], c, Picked(c), data, index, keyIdx, refs') {
        var b := Picked(c);
        assert FromBase(rs[index[c]], c, b, data, index, keyIdx, refs);
        DiffKept(rs[index[c]].ents, data[c], if b.Some? then Some(data[b.value]) else None, keyIdx, refs, refs');
      }
    }

    lemma SmallestAdded(rs: seq<Record>, rs': seq<Record>, index: Index, refs: Refs, c: Section, r: nat)
      requires AllFromBase(rs, index, refs) && rs <= rs' && c !in index && r < |rs'|
      requires FromBase(rs'[r], c, Picked(c), data, index, keyIdx, refs)
      ensures AllFromBase(rs', index[c := r], refs)
    {
      hide IsDiff, Picked;
      forall b | b in index[c := r]
        ensures index[c := r][b] < |rs'|
        ensures FromBase(rs'[index[c := r][b]], b, Picked(b), data, index[c := r], keyIdx, refs)
      {
        assert b != c ==> FromBase(rs[index[b]], b, Picked(b), data, index, keyIdx, refs);
      }
    }

    /** Lists the keys in the pool; nothing is built yet. */
    constructor (data: Data, parents: map<string, string>, calendars: set<string>, keys: seq<Str>,
      ghost rank: string -> nat)
      requires forall i, j :: 0 <= i < j < |keys| ==> keys[i] != keys[j]
      requires forall c, k :: c in data && k in data[c] ==> k in keys && |data[c][k]| < 65536
      requires forall k :: k in keys ==> |k| < 65536
      requires Rooted(parents, rank)
      ensures Valid() && this.data == data && this.keys == keys && this.calendars == calendars
        && this.parents == parents
      ensures fresh(pool) && records == [] && recIndex == map[]
      ensures forall k :: k in keys <==> k in keyIdx
    {
      var p := new Pool();
      var index := ListKeys(p, keys);
      IndexedBy(data, keys, index);
      this.data, this.parents, this.calendars := data, parents, calendars;
      this.keys, this.keyIdx, this.rank := keys, index, rank;
      pool, records, recIndex, recDedup := p, [], map[], map[];
      new;
      hide StoredAt, Walk, Says, Find, Rooted, Indexed;
      assert Input();
      assert Tables(this.data, records, recIndex, recDedup, pool.refs);
    }

    static method ListKeys(p: Pool, keys: seq<Str>) returns (index: Refs)
      requires p.Valid() && (forall k :: k in keys ==> |k| < 65536)
      requires forall i, j :: 0 <= i < j < |keys| ==> keys[i] != keys[j]
      modifies p
      ensures p.Valid()
      ensures forall k :: k in index ==> index[k] < |keys| && keys[index[k]] == k
      ensures forall k :: k in keys <==> k in index
    {
      hide StoredAt;
      index := map[];
      for i := 0 to |keys|
        invariant p.Valid()
        invariant forall k :: k in index ==> index[k] < i && keys[index[k]] == k
        invariant forall j :: 0 <= j < i ==> keys[j] in index
      {
        var r := p.Ref(keys[i]);
        index := index[keys[i] := i];
      }
      forall k | k in keys ensures k in index {
        var j :| 0 <= j < |keys| && keys[j] == k;
      }
    }

    /** The difference of `d` from `base`: changed and new keys with their values, removed ones with a tombstone. */
    method Diff(d: Dict, base: Option<Dict>) returns (ents: seq<Ent>)
      requires Input() && pool.Valid()
      requires forall k :: k in d ==> k in keyIdx && |d[k]| < 65536
      requires base.Some? ==> forall k :: k in base.value ==> k in keyIdx
      modifies pool
      ensures pool.Valid() && |old(pool.buf)| <= |pool.buf| && RefsKept(old(pool.refs), pool.refs)
      ensures IsDiff(ents, d, base, keyIdx, pool.refs)
    {
      hide *;
      RefsSame(pool.refs);
      var out := ListValues(d, base);
      if base.Some? {
        out := ListRemoved(d, base, out);
      }
      ents := Sort(out);
      BothKeys(d, base);
      InputKeys();
      AllListed(out, d, base, d.Keys + (if base.Some? then base.value.Keys else {}), keys, keyIdx, pool.refs);
    }

    /** Values that are new or changed. */
    method ListValues(d: Dict, base: Option<Dict>) returns (out: seq<Ent>)
      requires Input() && pool.Valid()
      requires forall k :: k in d ==> k in keyIdx && |d[k]| < 65536
      modifies pool
      ensures pool.Valid() && |old(pool.buf)| <= |pool.buf| && RefsKept(old(pool.refs), pool.refs)
      ensures Listed(out, d, base, d.Keys, keys, keyIdx, pool.refs)
    {
      hide *;
      out := [];
      var todo := d.Keys;
      RefsSame(pool.refs);
      ListedNone(d, base, keys, keyIdx, pool.refs);
      assert d.Keys - todo == {};
      while todo != {}
        invariant todo <= d.Keys && pool.Valid() && |old(pool.buf)| <= |pool.buf|
        invariant RefsKept(old(pool.refs), pool.refs)
        invariant Listed(out, d, base, d.Keys - todo, keys, keyIdx, pool.refs)
        decreases |todo|
      {
        var k :| k in todo;
        ghost var refs := pool.refs;
        out := ListValue(out, d, base, k, d.Keys - todo);
        SetStep(d.Keys, todo, k);
        RefsTrans(old(pool.refs), refs, pool.refs);
        todo := todo - {k};
      }
      assert d.Keys - todo == d.Keys;
    }

    /** One key of the dictionary: listed unless the base has the same value for it. */
    method ListValue(out0: seq<Ent>, d: Dict, base: Option<Dict>, k: Str, ghost done: set<Str>) returns (out: seq<Ent>)
      requires Input() && pool.Valid() && k in d && k in keyIdx && |d[k]| < 65536 && k !in done
      requires Listed(out0, d, base, done, keys, keyIdx, pool.refs)
      modifies pool
      ensures pool.Valid() && |old(pool.buf)| <= |pool.buf| && RefsKept(old(pool.refs), pool.refs)
      ensures Listed(out, d, base, done + {k}, keys, keyIdx, pool.refs)
    {
      hide Listed, StoredAt;
      out := out0;
      ghost var refs := pool.refs;
      if base.None? || k !in base.value || base.value[k] != d[k] {
        var r := pool.Ref(d[k]);
        ListedKept(out, d, base, done, keys, keyIdx, refs, pool.refs);
        ListedMore(out, d, base, done, k, keys, keyIdx, pool.refs, r);
        out := out + [(keyIdx[k], r)];
      } else {
        ListedSame(out, d, base, done, k, keys, keyIdx, pool.refs);
      }
    }

    /** Keys of the base that the dictionary does not have. */
    method ListRemoved(d: Dict, base: Option<Dict>, out0: seq<Ent>) returns (out: seq<Ent>)
      requires Input() && base.Some?
      requires forall k :: k in base.value ==> k in keyIdx
      requires Listed(out0, d, base, d.Keys, keys, keyIdx, pool.refs)
      ensures Listed(out, d, base, d.Keys + base.value.Keys, keys, keyIdx, pool.refs)
    {
      hide *;
      out := out0;
      var todo := base.value.Keys;
      ghost var all := base.value.Keys;
      LookedAtEnds(d.Keys, all);
      while todo != {}
        invariant todo <= all
        invariant Listed(out, d, base, LookedAt(d.Keys, all, todo), keys, keyIdx, pool.refs)
        decreases |todo|
      {
        var k :| k in todo;
        LookedAtStep(d.Keys, all, todo, k);
        out := ListMissing(out, d, base, k, LookedAt(d.Keys, all, todo));
        todo := todo - {k};
      }
    }

    /** One key of the base: marked absent unless the dictionary has it. */
    method ListMissing(out0: seq<Ent>, d: Dict, base: Option<Dict>, k: Str, ghost done: set<Str>)
      returns (out: seq<Ent>)
      requires Input() && base.Some? && k in base.value && k in keyIdx && (k in done <==> k in d)
      requires Listed(out0, d, base, done, keys, keyIdx, pool.refs)
      ensures Listed(out, d, base, done + {k}, keys, keyIdx, pool.refs)
    {
      hide Listed;
      out := out0;
      if k !in d {
        ListedMore(out, d, base, done, k, keys, keyIdx, pool.refs, NONE);
        out := out + [(keyIdx[k], NONE)];
      } else {
        ListedSame(out, d, base, done, k, keys, keyIdx, pool.refs);
      }
    }

    lemma InputKeys()
      requires Input()
      ensures forall l :: l in keyIdx ==> keyIdx[l] < |keys| && keys[keyIdx[l]] == l
    {}

    lemma BothKeys(d: Dict, base: Option<Dict>)
      ensures d.Keys + (if base.Some? then base.value.Keys else {})
        == if base.Some? then d.Keys + base.value.Keys else d.Keys
    {}

    /** The nearest ancestor that has the section. */
    method AncestorWith(loc: string, sec: string) returns (p: Option<string>)
      requires Input()
      ensures p == Nearest(Parent(parents, loc), sec)
    {
      p := Parent(parents, loc);
      while p.Some? && (p.value, sec) !in data
        invariant Nearest(p, sec) == Nearest(Parent(parents, loc), sec)
        decreases if p.Some? then 1 + rank(p.value) else 0
      {
        p := Parent(parents, p.value);
      }
    }

    method Candidates(loc: string, sec: string) returns (cands: seq<Section>)
      requires Input()
      ensures cands == CandidatesOf(loc, sec)
    {
      cands := [];
      var p := AncestorWith(loc, sec);
      if p.Some? {
        cands := cands + [(p.value, sec)];
      }
      if sec in calendars && sec != "gregorian" && (loc, "gregorian") in data {
        cands := cands + [(loc, "gregorian")];
      }
    }

    /** What a section's construction may build. */
    ghost predicate Below(c: Section, loc: string, sec: string) {
      rank(c.0) < rank(loc) || (c.0 == loc && (c.1 == sec || c.1 == "gregorian"))
    }

    /** Progress of the recursion. */
    ghost predicate Smaller(c: Section, loc: string, sec: string) {
      rank(c.0) < rank(loc) || (c.0 == loc && c.1 == "gregorian" && sec != "gregorian")
    }

    /** The smallest difference among the candidates, or the whole dictionary when there is none. */
    method Choose(d: Dict, cands: seq<Section>) returns (best: Option<Section>, ents: seq<Ent>)
      requires Input() && pool.Valid()
      requires forall k :: k in d ==> k in keyIdx && |d[k]| < 65536
      requires forall i :: 0 <= i < |cands| ==> cands[i] in data
      modifies pool
      ensures pool.Valid() && |old(pool.buf)| <= |pool.buf| && RefsKept(old(pool.refs), pool.refs)
      ensures best == Pick(d, data, cands)
      ensures IsDiff(ents, d, if best.Some? then Some(data[best.value]) else None, keyIdx, pool.refs)
    {
      hide Ascending, Find, StoredAt, IsDiff, Changes;
      best, ents := None, [];
      for i := 0 to |cands|
        invariant pool.Valid() && |old(pool.buf)| <= |pool.buf| && RefsKept(old(pool.refs), pool.refs)
        invariant best == Pick(d, data, cands[..i])
        invariant best.Some? ==> IsDiff(ents, d, Some(data[best.value]), keyIdx, pool.refs)
      {
        ghost var refs := pool.refs;
        var e := Diff(d, Some(data[cands[i]]));
        DiffSize(e, d, Some(data[cands[i]]), keyIdx, pool.refs);
        assert cands[..i + 1][..i] == cands[..i];
        if best.Some? {
          DiffSize(ents, d, Some(data[best.value]), keyIdx, refs);
        }
        if best.None? || |e| < |ents| {
          best, ents := Some(cands[i]), e;
        } else {
          DiffKept(ents, d, Some(data[best.value]), keyIdx, refs, pool.refs);
        }
        DiffSize(ents, d, Some(data[best.value]), keyIdx, pool.refs);
      }
      assert cands[..|cands|] == cands;
      if best.None? {
        ents := Diff(d, None);
      }
    }

    lemma RefsBelow()
      requires pool.Valid()
      ensures forall t :: t in pool.refs ==> pool.refs[t] < |pool.buf|
    {}

    /** Files a section under its record, appending the record unless an equal one exists. */
    method AddRecord(c: Section, baseRec: nat, ents: seq<Ent>, ghost base: Option<Section>) returns (r: nat)
      requires Valid() && c in data && c !in recIndex && base == Picked(c)
      requires base.None? ==> baseRec == NONE
      requires base.Some? ==> base.value in recIndex && recIndex[base.value] == baseRec && base.value in data
      requires IsDiff(ents, data[c], if base.Some? then Some(data[base.value]) else None, keyIdx, pool.refs)
      modifies this
      ensures Valid() && recIndex == old(recIndex)[c := r] && old(records) <= records
    {
      hide StoredAt, Tables, Meanings, Grounded, IsDiff, Picked, AllFromBase, Input;
      var sig := Record(baseRec, ents);
      ghost var dedup := recDedup;
      DiffValues(ents, c, base);
      BaseIn(data, records, recIndex, recDedup, pool.refs, base);
      if sig in recDedup {
        r := recDedup[sig];
      } else {
        r := |records|;
        records := records + [sig];
        recDedup := recDedup[sig := r];
      }
      DiffAscends(ents, data[c], if base.Some? then Some(data[base.value]) else None, keyIdx, pool.refs);
      TablesAdded(data, old(records), records, recIndex, dedup, recDedup, pool.refs, c, r, sig);
      RefsBelow();
      if Fits() {
        SectionAdded(data, old(records), records, recIndex, keyIdx, pool.refs, c, r, base);
      }
      SmallestAdded(old(records), records, recIndex, pool.refs, c, r);
      recIndex := recIndex[c := r];
    }

    lemma DiffValues(ents: seq<Ent>, c: Section, base: Option<Section>)
      requires Tables(data, records, recIndex, recDedup, pool.refs) && c in data
      requires base.Some? ==> base.value in recIndex && base.value in data
      requires IsDiff(ents, data[c], if base.Some? then Some(data[base.value]) else None, keyIdx, pool.refs)
      ensures forall k :: k in data[c] ==> data[c][k] in pool.refs
    {
      hide Grounded, Ascending;
    }

    /** The record of a section, built after the record it is a difference from; equal records are shared. */
    method Build(loc: string, sec: string) returns (r: Option<nat>)
      requires Valid()
      modifies this, pool
      ensures Valid() && |old(pool.buf)| <= |pool.buf|
      ensures Grew(old(pool.refs), old(records), old(recIndex), pool.refs, records, recIndex)
      ensures r.None? <==> (loc, sec) !in data
      ensures r.Some? ==> (loc, sec) in recIndex && recIndex[(loc, sec)] == r.value
      ensures forall c :: c in recIndex && c !in old(recIndex) ==> Below(c, loc, sec)
      decreases rank(loc), if sec == "gregorian" then 0 else 1
    {
      hide Ascending, Find, StoredAt, IsDiff, Walk, Says, Grounded, RefsKept, Meanings;
      RefsSame(pool.refs);
      if (loc, sec) in recIndex {
        return Some(recIndex[(loc, sec)]);
      }
      if (loc, sec) !in data {
        return None;
      }
      var cands := Candidates(loc, sec);
      var best, ents := Choose(data[(loc, sec)], cands);
      PoolGrown(data, records, recIndex, recDedup, keyIdx, old(pool.refs), pool.refs);
      SmallestKept(records, recIndex, old(pool.refs), pool.refs);
      ghost var refs, built, index := pool.refs, records, recIndex;
      var baseRec := BuildBase(loc, sec, best, ents);
      GrewTrans(old(pool.refs), old(records), old(recIndex), refs, built, index, pool.refs, records, recIndex);
      ghost var based, index' := records, recIndex;
      var n := AddRecord((loc, sec), baseRec, ents, best);
      GrewOne(old(pool.refs), old(records), old(recIndex), pool.refs, based, index', records, (loc, sec), n);
      r := Some(n);
    }

    /** The base's record, first. */
    method BuildBase(loc: string, sec: string, best: Option<Section>, ghost ents: seq<Ent>) returns (baseRec: nat)
      requires Valid() && (loc, sec) in data
      requires best.Some? ==> best.value in data && Smaller(best.value, loc, sec)
      requires IsDiff(ents, data[(loc, sec)], if best.Some? then Some(data[best.value]) else None, keyIdx, pool.refs)
      modifies this, pool
      ensures Valid() && |old(pool.buf)| <= |pool.buf|
      ensures Grew(old(pool.refs), old(records), old(recIndex), pool.refs, records, recIndex)
      ensures best.None? ==> baseRec == NONE
      ensures best.Some? ==> best.value in recIndex && recIndex[best.value] == baseRec
      ensures forall c :: c in recIndex && c !in old(recIndex) ==> c != (loc, sec) && Below(c, loc, sec)
      ensures IsDiff(ents, data[(loc, sec)], if best.Some? then Some(data[best.value]) else None, keyIdx, pool.refs)
      decreases rank(loc), if sec == "gregorian" then 0 else 1, 0
    {
      hide Ascending, Find, StoredAt, IsDiff, Walk, Says, Grounded, RefsKept, Meanings, Tables;
      RefsSame(pool.refs);
      baseRec := NONE;
      if best.Some? {
        var b := Build(best.value.0, best.value.1);
        baseRec := b.value;
        DiffKept(ents, data[(loc, sec)], Some(data[best.value]), keyIdx, old(pool.refs), pool.refs);
      }
    }

    /** Builds every section of every locale: a row of record numbers each. */
    method BuildAll(locs: seq<string>, sections: seq<string>) returns (rows: seq<seq<nat>>)
      requires Valid()
      modifies this, pool
      ensures Valid() && Rows(locs, sections, rows)
    {
      hide Valid;
      rows := [];
      for i := 0 to |locs|
        invariant Valid() && Rows(locs[..i], sections, rows)
      {
        var row := BuildRow(locs[i], sections);
        rows := rows + [row];
      }
      assert locs[..|locs|] == locs;
    }

    /** A row for every locale, and in it a number for every section. */
    ghost predicate Rows(locs: seq<string>, sections: seq<string>, rows: seq<seq<nat>>)
      reads this
    {
      |rows| == |locs| && forall i :: 0 <= i < |locs| ==> Row(locs[i], sections, rows[i])
    }

    /** A row: the record number of each section, or the marker. */
    ghost predicate Row(loc: string, sections: seq<string>, row: seq<nat>)
      reads this
    {
      |row| == |sections| && forall s :: 0 <= s < |row| ==>
        if (loc, sections[s]) in data then (loc, sections[s]) in recIndex && recIndex[(loc, sections[s])] == row[s]
        else row[s] == NONE
    }

    method BuildRow(loc: string, sections: seq<string>) returns (row: seq<nat>)
      requires Valid()
      modifies this, pool
      ensures Valid() && Row(loc, sections, row)
      ensures forall c :: c in old(recIndex) ==> c in recIndex && recIndex[c] == old(recIndex)[c]
    {
      hide Valid, RefsKept, Below;
      row := [];
      for s := 0 to |sections|
        invariant Valid() && Row(loc, sections[..s], row)
        invariant forall c :: c in old(recIndex) ==> c in recIndex && recIndex[c] == old(recIndex)[c]
      {
        var r := Build(loc, sections[s]);
        row := row + [if r.None? then NONE else r.value];
      }
      assert sections[..|sections|] == sections;
    }

    /** A finished section without candidates is held in full. */
    lemma WithoutBase(c: Section)
      requires Valid() && c in recIndex && CandidatesOf(c.0, c.1) == []
      ensures c in data && recIndex[c] < |records|
      ensures records[recIndex[c]].base == NONE && |records[recIndex[c]].ents| == |data[c].Keys|
    {
      hide CandidatesOf, IsDiff, Changes, Tables, Meanings, Input;
      assert FromBase(records[recIndex[c]], c, Picked(c), data, recIndex, keyIdx, pool.refs);
      DiffSize(records[recIndex[c]].ents, data[c], None, keyIdx, pool.refs);
      NoBase(data[c]);
    }

    /** Any other is the smallest difference from a candidate, the first among equals. */
    lemma SmallestDifference(c: Section) returns (i: nat)
      requires Valid() && c in recIndex && CandidatesOf(c.0, c.1) != []
      ensures c in data && recIndex[c] < |records|
      ensures var cands, record := CandidatesOf(c.0, c.1), records[recIndex[c]];
        && i < |cands| && cands[i] in recIndex && record.base == recIndex[cands[i]]
        && |record.ents| == Size(data[c], data, cands[i])
        && (forall j :: 0 <= j < |cands| ==> |record.ents| <= Size(data[c], data, cands[j]))
        && (forall j :: 0 <= j < i ==> |record.ents| < Size(data[c], data, cands[j]))
    {
      HeldAsPicked(c);
      hide *;
      i := PickSmallest(data[c], data, CandidatesOf(c.0, c.1));
    }

    lemma HeldAsPicked(c: Section)
      requires Valid() && c in recIndex && CandidatesOf(c.0, c.1) != []
      ensures Input() && c in data && recIndex[c] < |records|
      ensures forall j :: 0 <= j < |CandidatesOf(c.0, c.1)| ==> CandidatesOf(c.0, c.1)[j] in data
      ensures var b, record := Pick(data[c], data, CandidatesOf(c.0, c.1)), records[recIndex[c]];
        && b.Some? && b.value in recIndex && record.base == recIndex[b.value]
        && |record.ents| == Size(data[c], data, b.value)
    {
      PickedIs(c);
      hide CandidatesOf, IsDiff, Changes, Tables, Meanings, Input, Picked, Pick;
      assert FromBase(records[recIndex[c]], c, Picked(c), data, recIndex, keyIdx, pool.refs);
      DiffSize(records[recIndex[c]].ents, data[c], Some(data[Picked(c).value]), keyIdx, pool.refs);
    }

    lemma PickedIs(c: Section)
      requires Valid() && c in recIndex
      ensures c in data && Picked(c) == Pick(data[c], data, CandidatesOf(c.0, c.1))
    {
      hide CandidatesOf, Pick, Meanings, FromBase;
    }

    /**
     * The store agrees with the data it was built from: for every finished section and every key,
     * walking the record's base chain finds the reference of the key's string, or nothing exactly
     * when the key is absent.
     */
    lemma AgreesWithData(c: Section, k: Str)
      requires Valid() && Fits() && c in recIndex && k in keyIdx
      ensures c in data && recIndex[c] < |records| && Grounded(records)
      ensures var v := Walk(records, recIndex[c], keyIdx[k]);
        && (v.Some? <==> k in data[c])
        && (k in data[c] ==> StoredAt(pool.buf, v.value, data[c][k]))
    {
      hide Walk, StoredAt, Ascending;
      assert Says(records, recIndex[c], data[c], keyIdx, pool.refs);
      assert Walk(records, recIndex[c], keyIdx[k]) == Full(data[c], pool.refs, k);
    }

    /**
     * After everything is built, every locale's row answers for every section and key: the marker
     * stands exactly for sections without data, and any other number leads to the key's string, or
     * to nothing exactly when the key is absent.
     */
    lemma RowsAgree(locs: seq<string>, sections: seq<string>, rows: seq<seq<nat>>, i: nat, s: nat, k: Str)
      requires Valid() && Fits() && Rows(locs, sections, rows)
      requires i < |locs| && s < |sections| && k in keyIdx
      ensures |rows[i]| == |sections| && Grounded(records)
      ensures var c, r := (locs[i], sections[s]), rows[i][s];
        && (r == NONE <==> c !in data)
        && (r != NONE ==>
          && r < |records| && (Walk(records, r, keyIdx[k]).Some? <==> k in data[c])
          && (k in data[c] ==> StoredAt(pool.buf, Walk(records, r, keyIdx[k]).value, data[c][k])))
    {
      hide Valid, Walk, StoredAt;
      assert Row(locs[i], sections, rows[i]);
      RecordsGrounded();
      var c := (locs[i], sections[s]);
      if c in data {
        AgreesWithData(c, k);
      }
    }

    lemma RecordsGrounded()
      requires Valid()
      ensures Grounded(records)
    {
      hide Grounded, Meanings;
    }
  }

  ghost function LookedAt(some: set<Str>, all: set<Str>, todo: set<Str>): set<Str> { some + (all - todo) }

  lemma LookedAtEnds(some: set<Str>, all: set<Str>)
    ensures LookedAt(some, all, all) == some && LookedAt(some, all, {}) == some + all
  {}

  lemma LookedAtStep(some: set<Str>, all: set<Str>, todo: set<Str>, k: Str)
    requires k in todo && todo <= all
    ensures LookedAt(some, all, todo - {k}) == LookedAt(some, all, todo) + {k}
    ensures k in LookedAt(some, all, todo) <==> k in some
    ensures |todo - {k}| < |todo| && todo - {k} <= all
  {}

  lemma SetStep(all: set<Str>, todo: set<Str>, k: Str)
    requires k in todo && todo <= all
    ensures all - (todo - {k}) == (all - todo) + {k} && k !in all - todo && |todo - {k}| < |todo|
  {}

  lemma RefsTrans(a: Refs, b: Refs, c: Refs)
    requires RefsKept(a, b) && RefsKept(b, c)
    ensures RefsKept(a, c)
  {}

  lemma RefsSame(refs: Refs)
    ensures RefsKept(refs, refs)
  {}

  // ----- entries while they are collected

  /** How many of the keys in `done` have an entry in the difference. */
  ghost function ChangedIn(d: Dict, base: Option<Dict>, done: set<Str>): nat { |Changes(d, base) * done| }

  ghost predicate ListedEnt(e: Ent, d: Dict, base: Option<Dict>, done: set<Str>, keys: seq<Str>, refs: Refs) {
    e.0 < |keys| && keys[e.0] in done && Entry(d, base, refs, keys[e.0]) == Some(e.1)
  }

  /** Every listed entry is one of the difference. */
  ghost predicate AllSound(out: seq<Ent>, d: Dict, base: Option<Dict>, done: set<Str>, keys: seq<Str>, refs: Refs) {
    forall i :: 0 <= i < |out| ==> ListedEnt(out[i], d, base, done, keys, refs)
  }

  /** Every entry of the difference for a key in `done` is listed, and its value is in the pool. */
  ghost predicate AllFound(out: seq<Ent>, d: Dict, base: Option<Dict>, done: set<Str>, keyIdx: Refs, refs: Refs) {
    && (forall k :: k in done && k in keyIdx && Entry(d, base, refs, k).Some? ==>
         (keyIdx[k], Entry(d, base, refs, k).value) in out)
    && (forall k :: k in done && ValueListed(d, base, k) ==> d[k] in refs)
  }

  /** The key is new, or its value changed. */
  predicate ValueListed(d: Dict, base: Option<Dict>, k: Str) {
    k in d && !(base.Some? && k in base.value && base.value[k] == d[k])
  }

  /** The entries listed once the keys in `done` have been looked at. */
  ghost predicate Listed(
    out: seq<Ent>, d: Dict, base: Option<Dict>, done: set<Str>, keys: seq<Str>, keyIdx: Refs, refs: Refs
  ) {
    && Distinct(out) && |out| == ChangedIn(d, base, done)
    && AllSound(out, d, base, done, keys, refs) && AllFound(out, d, base, done, keyIdx, refs)
  }

  lemma ListedNone(d: Dict, base: Option<Dict>, keys: seq<Str>, keyIdx: Refs, refs: Refs)
    ensures Listed([], d, base, {}, keys, keyIdx, refs)
  {
    assert Changes(d, base) * {} == {};
  }

  lemma ListedKept(
    out: seq<Ent>, d: Dict, base: Option<Dict>, done: set<Str>, keys: seq<Str>, keyIdx: Refs, refs: Refs, refs': Refs
  )
    requires Listed(out, d, base, done, keys, keyIdx, refs) && RefsKept(refs, refs')
    ensures Listed(out, d, base, done, keys, keyIdx, refs')
  {
    hide ChangedIn, Distinct;
    forall i | 0 <= i < |out| ensures ListedEnt(out[i], d, base, done, keys, refs') {
      assert ListedEnt(out[i], d, base, done, keys, refs);
    }
  }

  lemma OneMoreChanged(d: Dict, base: Option<Dict>, done: set<Str>, k: Str, refs: Refs)
    ensures k !in done && Entry(d, base, refs, k).Some? ==>
      ChangedIn(d, base, done + {k}) == ChangedIn(d, base, done) + 1
    ensures k in done || (k in d && !ValueListed(d, base, k)) ==>
      ChangedIn(d, base, done + {k}) == ChangedIn(d, base, done)
  {
    var c := Changes(d, base);
    if k !in done && Entry(d, base, refs, k).Some? {
      assert k in c;
      hide Changes;
      assert c * (done + {k}) == c * done + {k};
    } else if k in done || (k in d && !ValueListed(d, base, k)) {
      assert k in done || k !in c;
      hide Changes;
      assert c * (done + {k}) == c * done;
    }
  }

  lemma EntryStored(d: Dict, base: Option<Dict>, refs: Refs, k: Str)
    ensures Entry(d, base, refs, k).Some? && ValueListed(d, base, k) ==> d[k] in refs
    ensures k in d && !ValueListed(d, base, k) ==> Entry(d, base, refs, k).None?
  {}

  lemma SoundMore(out: seq<Ent>, d: Dict, base: Option<Dict>, done: set<Str>, keys: seq<Str>, refs: Refs, e: Ent,
    k: Str)
    requires AllSound(out, d, base, done, keys, refs) && k !in done && Distinct(out)
    requires e.0 < |keys| && keys[e.0] == k && Entry(d, base, refs, k) == Some(e.1)
    ensures AllSound(out + [e], d, base, done + {k}, keys, refs) && Distinct(out + [e])
  {
    hide Entry;
    forall i | 0 <= i < |out| ensures out[i].0 != e.0 && ListedEnt(out[i], d, base, done + {k}, keys, refs) {
      assert ListedEnt(out[i], d, base, done, keys, refs);
    }
    assert ListedEnt(e, d, base, done + {k}, keys, refs);
    assert (out + [e])[|out|] == e;
  }

  lemma FoundMore(out: seq<Ent>, d: Dict, base: Option<Dict>, done: set<Str>, keyIdx: Refs, refs: Refs, e: Ent, k: Str)
    requires AllFound(out, d, base, done, keyIdx, refs)
    requires k in keyIdx && e.0 == keyIdx[k] && Entry(d, base, refs, k) == Some(e.1)
    ensures AllFound(out + [e], d, base, done + {k}, keyIdx, refs)
  {
    EntryStored(d, base, refs, k);
    hide Entry, ValueListed;
    assert (out + [e])[|out|] == e;
  }

  /** A key with an entry is listed. */
  lemma ListedMore(
    out: seq<Ent>, d: Dict, base: Option<Dict>, done: set<Str>, k: Str, keys: seq<Str>, keyIdx: Refs, refs: Refs, v: nat
  )
    requires Listed(out, d, base, done, keys, keyIdx, refs) && k !in done
    requires forall l :: l in keyIdx ==> keyIdx[l] < |keys| && keys[keyIdx[l]] == l
    requires k in keyIdx && Entry(d, base, refs, k) == Some(v)
    ensures Listed(out + [(keyIdx[k], v)], d, base, done + {k}, keys, keyIdx, refs)
  {
    var e := (keyIdx[k], v);
    hide AllSound, AllFound, ChangedIn, Distinct, Entry;
    OneMoreChanged(d, base, done, k, refs);
    SoundMore(out, d, base, done, keys, refs, e, k);
    FoundMore(out, d, base, done, keyIdx, refs, e, k);
  }

  /** A key without one is passed over. */
  lemma ListedSame(
    out: seq<Ent>, d: Dict, base: Option<Dict>, done: set<Str>, k: Str, keys: seq<Str>, keyIdx: Refs, refs: Refs
  )
    requires Listed(out, d, base, done, keys, keyIdx, refs)
    requires k in done || (k in d && base.Some? && k in base.value && base.value[k] == d[k])
    ensures Listed(out, d, base, done + {k}, keys, keyIdx, refs)
  {
    OneMoreChanged(d, base, done, k, refs);
    EntryStored(d, base, refs, k);
    hide ChangedIn, Entry, Distinct;
    forall i | 0 <= i < |out| ensures ListedEnt(out[i], d, base, done + {k}, keys, refs) {
      assert ListedEnt(out[i], d, base, done, keys, refs);
    }
    assert AllFound(out, d, base, done + {k}, keyIdx, refs) by {
      hide ListedEnt, AllSound;
    }
  }

  lemma Everything(d: Dict, base: Option<Dict>, done: set<Str>, refs: Refs)
    requires done == d.Keys + (if base.Some? then base.value.Keys else {})
    ensures |Changes(d, base)| == ChangedIn(d, base, done)
    ensures forall k :: ValueListed(d, base, k) || Entry(d, base, refs, k).Some? ==> k in done
  {
    assert Changes(d, base) * done == Changes(d, base);
  }

  /** Looking a key up in the sorted list gives its entry. */
  lemma SortedFinds(
    out: seq<Ent>, d: Dict, base: Option<Dict>, done: set<Str>, keys: seq<Str>, keyIdx: Refs, refs: Refs, k: Str
  )
    requires k in keyIdx && keyIdx[k] < |keys| && keys[keyIdx[k]] == k
    requires Listed(out, d, base, done, keys, keyIdx, refs)
    requires Entry(d, base, refs, k).Some? ==> k in done
    ensures Find(Sort(out), keyIdx[k]) == Entry(d, base, refs, k)
  {
    var ents := Sort(out);
    hide Entry, Sort, Find, ChangedIn;
    SortAscending(out);
    AscendingDistinct(ents);
    FindIs(ents, keyIdx[k]);
    var e := Entry(d, base, refs, k);
    if e.Some? {
      SortMembers(out, (keyIdx[k], e.value));
      var i :| 0 <= i < |ents| && ents[i] == (keyIdx[k], e.value);
    }
    if Find(ents, keyIdx[k]).Some? {
      var i :| 0 <= i < |ents| && ents[i].0 == keyIdx[k];
      SortMembers(out, ents[i]);
      var j :| 0 <= j < |out| && out[j] == ents[i];
      assert ListedEnt(out[j], d, base, done, keys, refs);
    }
  }

  lemma AllListed(
    out: seq<Ent>, d: Dict, base: Option<Dict>, done: set<Str>, keys: seq<Str>, keyIdx: Refs, refs: Refs
  )
    requires forall l :: l in keyIdx ==> keyIdx[l] < |keys| && keys[keyIdx[l]] == l
    requires Listed(out, d, base, done, keys, keyIdx, refs)
    requires done == d.Keys + (if base.Some? then base.value.Keys else {})
    ensures IsDiff(Sort(out), d, base, keyIdx, refs)
  {
    hide Sort, Find, Entry, Changes, ChangedIn, ListedEnt, Ascending;
    Everything(d, base, done, refs);
    SortAscending(out);
    forall k | k in keyIdx ensures Find(Sort(out), keyIdx[k]) == Entry(d, base, refs, k) {
      SortedFinds(out, d, base, done, keys, keyIdx, refs, k);
    }
  }
}
