/** JSON values as their text has them, with members in order and keys possibly repeated; how
    plugins/payz/json_equal.c compares two of them, and what that decides. */
module JsonDoc {
  import opened JsonTree

  /** A word is a number, a boolean or null. */
  datatype Doc = Word(text: string) | Str(text: string) | Arr(items: seq<Doc>) | Obj(members: seq<Member>)
  datatype Member = Member(key: string, value: Doc)

  /** The bytes of a token. */
  function Text(buf: string, tok: Tok): string {
    if 0 <= tok.start <= tok.end <= |buf| then buf[tok.start..tok.end] else []
  }

  /** The value that a token tree stands for. */
  function DocOf(buf: string, t: Tree): Doc
    decreases t, 0
  {
    match t.tok.kind
    case Array => Arr(DocsOf(buf, t.kids))
    case Object => Obj(MembersOf(buf, t.kids))
    case String => Str(Text(buf, t.tok))
    case _ => Word(Text(buf, t.tok))
  }

  function DocsOf(buf: string, ts: seq<Tree>): (ds: seq<Doc>)
    ensures |ds| == |ts|
    decreases ts, 1
  {
    if ts == [] then [] else [DocOf(buf, ts[0])] + DocsOf(buf, ts[1..])
  }

  function MembersOf(buf: string, keys: seq<Tree>): (ms: seq<Member>)
    ensures |ms| == |keys|
    decreases keys, 1
  {
    if keys == [] then []
    else [MemberOf(buf, keys[0])] + MembersOf(buf, keys[1..])
  }

  function MemberOf(buf: string, key: Tree): Member
    decreases key, 1
  {
    Member(Text(buf, key.tok), if key.kids == [] then Word([]) else DocOf(buf, key.kids[0]))
  }

  lemma {:induction false} DocsAt(buf: string, ts: seq<Tree>, i: nat)
    requires i < |ts|
    ensures DocsOf(buf, ts)[i] == DocOf(buf, ts[i])
    decreases |ts|
  {
    hide DocOf;
    if i > 0 { DocsAt(buf, ts[1..], i - 1); }
  }

  lemma {:induction false} MembersAt(buf: string, keys: seq<Tree>, i: nat)
    requires i < |keys|
    ensures MembersOf(buf, keys)[i] == MemberOf(buf, keys[i])
    decreases |keys|
  {
    hide MemberOf;
    if i > 0 { MembersAt(buf, keys[1..], i - 1); }
  }

  // ---- json_equal ----

  /** The first member with a key, or |ms|. */
  function Find(ms: seq<Member>, name: string): (j: nat)
    ensures j <= |ms| && (j < |ms| ==> ms[j].key == name)
    ensures forall i :: 0 <= i < j ==> ms[i].key != name
  {
    if ms == [] || ms[0].key == name then 0 else 1 + Find(ms[1..], name)
  }

  /** json_equal.  The keys of the second object are only looked up. */
  predicate Equal(d1: Doc, d2: Doc)
    decreases d1
  {
    match d1
    case Word(text) => d2 == Word(text)
    case Str(text) => d2 == Str(text)
    case Arr(items) =>
      d2.Arr? && |items| == |d2.items| && forall i :: 0 <= i < |items| ==> Equal(items[i], d2.items[i])
    case Obj(members) =>
      d2.Obj? && |members| == |d2.members| && forall i :: 0 <= i < |members| ==> MemberEqual(members[i], d2.members)
  }

  predicate MemberEqual(m: Member, ms: seq<Member>)
    decreases m
  {
    var j := Find(ms, m.key);
    j < |ms| && Equal(m.value, ms[j].value)
  }

  // ---- Values ----

  /** JSON values, objects being finite maps. */
  datatype Value =
    VWord(text: string) | VStr(text: string) | VArr(items: seq<Value>) | VObj(members: map<string, Value>)

  ghost function Meaning(d: Doc): Value
    decreases d, 0
  {
    match d
    case Word(text) => VWord(text)
    case Str(text) => VStr(text)
    case Arr(items) => VArr(Meanings(items))
    case Obj(members) => VObj(Entries(members))
  }

  ghost function Meanings(ds: seq<Doc>): (vs: seq<Value>)
    ensures |vs| == |ds|
    decreases ds, 1
  {
    if ds == [] then [] else [Meaning(ds[0])] + Meanings(ds[1..])
  }

  ghost function Entries(ms: seq<Member>): map<string, Value>
    decreases ms, 1
  {
    if ms == [] then map[] else Entries(ms[1..])[ms[0].key := Meaning(ms[0].value)]
  }

  lemma {:induction false} MeaningsAt(ds: seq<Doc>, i: nat)
    requires i < |ds|
    ensures Meanings(ds)[i] == Meaning(ds[i])
    decreases |ds|
  {
    hide Meaning;
    if i > 0 { MeaningsAt(ds[1..], i - 1); }
  }

  /** Looking a key up finds the entry of the map. */
  lemma {:induction false} FindIsLookup(ms: seq<Member>, name: string)
    ensures name in Entries(ms) <==> Find(ms, name) < |ms|
    ensures name in Entries(ms) ==> Entries(ms)[name] == Meaning(ms[Find(ms, name)].value)
    decreases |ms|
  {
    hide Meaning;
    if ms != [] { FindIsLookup(ms[1..], name); }
  }

  ghost predicate DistinctKeys(ms: seq<Member>) {
    forall i, j :: 0 <= i < j < |ms| ==> ms[i].key != ms[j].key
  }

  /** No object in d repeats a key. */
  ghost predicate Regular(d: Doc) {
    match d
    case Word(_) => true
    case Str(_) => true
    case Arr(items) => forall i :: 0 <= i < |items| ==> Regular(items[i])
    case Obj(members) => DistinctKeys(members) && forall i :: 0 <= i < |members| ==> Regular(members[i].value)
  }

  lemma FindFinds(ms: seq<Member>, i: nat)
    requires DistinctKeys(ms) && i < |ms|
    ensures Find(ms, ms[i].key) == i
  {
  }

  lemma {:induction false} EntriesSize(ms: seq<Member>)
    requires DistinctKeys(ms)
    ensures |Entries(ms)| == |ms|
    decreases |ms|
  {
    hide Meaning;
    if ms != [] {
      EntriesSize(ms[1..]);
      FindIsLookup(ms[1..], ms[0].key);
    }
  }

  /** json_equal decides equality of the JSON values. */
  lemma {:induction false} EqualDecides(d1: Doc, d2: Doc)
    requires Regular(d1) && Regular(d2)
    ensures Equal(d1, d2) <==> Meaning(d1) == Meaning(d2)
    decreases d1
  {
    if d1.Arr? && d2.Arr? { ArraysDecide(d1, d2); }
    if d1.Obj? && d2.Obj? { ObjectsDecide(d1, d2); }
  }

  lemma {:induction false} ArraysDecide(d1: Doc, d2: Doc)
    requires Regular(d1) && Regular(d2) && d1.Arr? && d2.Arr?
    ensures Equal(d1, d2) <==> Meaning(d1) == Meaning(d2)
    decreases d1, 0
  {
    if |d1.items| == |d2.items| {
      var v1, v2 := Meanings(d1.items), Meanings(d2.items);
      forall i | 0 <= i < |d1.items| ensures Equal(d1.items[i], d2.items[i]) <==> v1[i] == v2[i] {
        EqualDecides(d1.items[i], d2.items[i]);
        MeaningsAt(d1.items, i);
        MeaningsAt(d2.items, i);
      }
    }
  }

  lemma {:induction false} ObjectsDecide(d1: Doc, d2: Doc)
    requires Regular(d1) && Regular(d2) && d1.Obj? && d2.Obj?
    ensures Equal(d1, d2) <==> Meaning(d1) == Meaning(d2)
    decreases d1, 0
  {
    var m1, m2 := d1.members, d2.members;
    EntriesSize(m1);
    EntriesSize(m2);
    if |m1| == |m2| {
      forall i | 0 <= i < |m1| ensures MemberEqual(m1[i], m2) <==> SameEntry(m1, m2, m1[i].key) {
        FindFinds(m1, i);
        FindIsLookup(m1, m1[i].key);
        FindIsLookup(m2, m1[i].key);
        var j := Find(m2, m1[i].key);
        if j < |m2| { EqualDecides(m1[i].value, m2[j].value); }
      }
      MapsDecide(m1, m2);
    }
  }

  ghost predicate SameEntry(m1: seq<Member>, m2: seq<Member>, key: string) {
    && key in Entries(m1) && key in Entries(m2) && Entries(m1)[key] == Entries(m2)[key]
  }

  /** Equal maps of equal size: it is enough to look up one side's keys. */
  lemma MapsDecide(m1: seq<Member>, m2: seq<Member>)
    requires |Entries(m1)| == |Entries(m2)|
    ensures (forall i :: 0 <= i < |m1| ==> SameEntry(m1, m2, m1[i].key)) <==> Entries(m1) == Entries(m2)
  {
    forall k ensures k in Entries(m1) <==> exists i :: 0 <= i < |m1| && m1[i].key == k { FindIsLookup(m1, k); }
    hide Entries, Find;
    if forall i :: 0 <= i < |m1| ==> SameEntry(m1, m2, m1[i].key) {
      forall k | k in Entries(m1) ensures k in Entries(m2) && Entries(m2)[k] == Entries(m1)[k] {
        var i :| 0 <= i < |m1| && m1[i].key == k;
        assert SameEntry(m1, m2, m1[i].key);
      }
      SameSizeSubmap(Entries(m1), Entries(m2));
    }
  }

  lemma SameSizeSubmap(m1: map<string, Value>, m2: map<string, Value>)
    requires |m1| == |m2| && forall k :: k in m1 ==> k in m2 && m2[k] == m1[k]
    ensures m1 == m2
  {
    assert m1.Keys <= m2.Keys && |m1.Keys| == |m1| && |m2.Keys| == |m2|;
    SameSizeSubset(m1.Keys, m2.Keys);
  }

  lemma SameSizeSubset(a: set<string>, b: set<string>)
    requires a <= b && |a| == |b|
    ensures a == b
  {
    assert |b - a| == |b| - |a|;
  }

  /** Although only one side's keys are looked up, json_equal is an equivalence. */
  lemma EqualIsEquivalence(d1: Doc, d2: Doc, d3: Doc)
    requires Regular(d1) && Regular(d2) && Regular(d3)
    ensures Equal(d1, d1)
    ensures Equal(d1, d2) <==> Equal(d2, d1)
    ensures Equal(d1, d2) && Equal(d2, d3) ==> Equal(d1, d3)
  {
    EqualDecides(d1, d1);
    EqualDecides(d1, d2);
    EqualDecides(d2, d1);
    EqualDecides(d2, d3);
    EqualDecides(d1, d3);
    hide Equal, Meaning, Regular;
  }

  // ---- Where it is not symmetric ----

  /** No object in d has two members. */
  ghost predicate Slim(d: Doc) {
    match d
    case Word(_) => true
    case Str(_) => true
    case Arr(items) => forall i :: 0 <= i < |items| ==> Slim(items[i])
    case Obj(members) => |members| <= 1 && forall i :: 0 <= i < |members| ==> Slim(members[i].value)
  }

  lemma {:induction false} SlimIsSymmetric(d1: Doc, d2: Doc)
    requires Slim(d1)
    ensures Equal(d1, d2) <==> Equal(d2, d1)
    decreases d1
  {
    if d1.Arr? && d2.Arr? && |d1.items| == |d2.items| {
      forall i | 0 <= i < |d1.items| ensures Equal(d1.items[i], d2.items[i]) <==> Equal(d2.items[i], d1.items[i]) {
        SlimIsSymmetric(d1.items[i], d2.items[i]);
      }
    } else if d1.Obj? && d2.Obj? && |d1.members| == |d2.members| == 1 {
      var m1, m2 := d1.members[0], d2.members[0];
      SlimIsSymmetric(m1.value, m2.value);
      assert MemberEqual(m1, d2.members) <==> m1.key == m2.key && Equal(m1.value, m2.value);
      assert MemberEqual(m2, d1.members) <==> m1.key == m2.key && Equal(m2.value, m1.value);
    }
  }

  function Copies(n: nat, m: Member): (ms: seq<Member>)
    ensures |ms| == n && forall i :: 0 <= i < n ==> ms[i] == m
  {
    seq(n, _ => m)
  }

  /** d with every object's first member in the place of all others. */
  function Low(d: Doc): Doc
    decreases d, 0
  {
    match d
    case Word(_) => d
    case Str(_) => d
    case Arr(items) => Arr(LowAll(items))
    case Obj(members) =>
      if members == [] then d else Obj(Copies(|members|, Member(members[0].key, Low(members[0].value))))
  }

  function LowAll(ds: seq<Doc>): (r: seq<Doc>)
    ensures |r| == |ds| && forall i :: 0 <= i < |ds| ==> r[i] == Low(ds[i])
    decreases ds, 1
  {
    if ds == [] then [] else [Low(ds[0])] + LowAll(ds[1..])
  }

  /** A key other than the given one. */
  function OtherKey(key: string): string { if key == "a" then "b" else "a" }

  /** The same, with another key for all but the first. */
  function High(d: Doc): Doc
    decreases d, 0
  {
    match d
    case Word(_) => d
    case Str(_) => d
    case Arr(items) => Arr(HighAll(items))
    case Obj(members) =>
      if members == [] then d
      else
        var key, value := members[0].key, High(members[0].value);
        Obj([Member(key, value)] + Copies(|members| - 1, Member(OtherKey(key), value)))
  }

  function HighAll(ds: seq<Doc>): (r: seq<Doc>)
    ensures |r| == |ds| && forall i :: 0 <= i < |ds| ==> r[i] == High(ds[i])
    decreases ds, 1
  {
    if ds == [] then [] else [High(ds[0])] + HighAll(ds[1..])
  }

  lemma {:induction false} LowEquals(d: Doc)
    ensures Equal(Low(d), d)
    decreases d
  {
    match d
    case Word(_) =>
    case Str(_) =>
    case Arr(items) =>
      forall i | 0 <= i < |items| ensures Equal(Low(items[i]), items[i]) { LowEquals(items[i]); }
    case Obj(members) =>
      if members != [] {
        LowEquals(members[0].value);
        assert MemberEqual(Member(members[0].key, Low(members[0].value)), members);
      }
  }

  lemma {:induction false} LowThenHigh(u: Doc, d: Doc)
    requires Equal(u, Low(d))
    ensures Equal(u, High(d))
    decreases d
  {
    match d
    case Word(_) =>
    case Str(_) =>
    case Arr(items) =>
      forall i | 0 <= i < |items| ensures Equal(u.items[i], High(items[i])) {
        assert Equal(u.items[i], LowAll(items)[i]);
        LowThenHigh(u.items[i], items[i]);
      }
    case Obj(members) =>
      if members != [] {
        var low, high := Low(d).members, High(d).members;
        forall i | 0 <= i < |u.members| ensures MemberEqual(u.members[i], high) {
          assert MemberEqual(u.members[i], low);
          LowThenHigh(u.members[i].value, members[0].value);
        }
      }
  }

  lemma {:induction false} HighDiffers(d: Doc)
    requires Equal(d, Low(d)) && !Slim(d)
    ensures !Equal(High(d), d)
    decreases d
  {
    match d
    case Arr(items) =>
      var i :| 0 <= i < |items| && !Slim(items[i]);
      assert Equal(items[i], LowAll(items)[i]);
      HighDiffers(items[i]);
      assert High(d).items[i] == High(items[i]);
    case Obj(members) =>
      var key, high := members[0].key, High(d).members;
      if |members| == 1 {
        assert MemberEqual(members[0], Low(d).members);
        HighDiffers(members[0].value);
        assert !MemberEqual(high[0], members);
      } else {
        forall i | 0 <= i < |members| ensures members[i].key == key { assert MemberEqual(members[i], Low(d).members); }
        assert high[1].key == OtherKey(key);
        assert !MemberEqual(high[1], members);
      }
  }

  /** A value that d compares with in one direction only. */
  lemma Asymmetric(d: Doc)
    requires !Slim(d)
    ensures Equal(d, Low(d)) != Equal(Low(d), d) || Equal(d, High(d)) != Equal(High(d), d)
  {
    LowEquals(d);
    if Equal(d, Low(d)) {
      LowThenHigh(d, d);
      HighDiffers(d);
    }
  }

  /** json_equal compares d with every value alike in both directions exactly when no object in d
      has two members: next to distinct keys the other side may repeat one, and a repeated one may
      be looked up among others. */
  lemma SymmetricExactly(d: Doc)
    ensures (forall e :: Equal(d, e) <==> Equal(e, d)) <==> Slim(d)
  {
    if Slim(d) {
      forall e ensures Equal(d, e) <==> Equal(e, d) { SlimIsSymmetric(d, e); }
    } else {
      Asymmetric(d);
    }
  }
}
