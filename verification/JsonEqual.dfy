/** plugins/payz/json_equal.c on token arrays. */
module JsonEqual {
  import opened Wrappers
  import opened JsonTree
  import opened JsonDoc

  /** The tree that the tokens at p hold. */
  ghost function TreeAt(toks: seq<Tok>, p: nat, end: nat): Tree
    requires p <= end <= |toks| && Build(toks, p, end).Some?
  {
    Build(toks, p, end).value.value
  }

  /** Whether strings are UTF-8 plays no part here. */
  const ANY_TEXT: Utf8 := tok => true

  /** A datum lies at p, and none of its tokens is of undefined kind. */
  ghost predicate DatumAt(toks: seq<Tok>, p: nat, end: nat) {
    && p <= end <= |toks| && Build(toks, p, end).Some?
    && Comparable(TreeAt(toks, p, end))
  }

  ghost predicate Comparable(t: Tree) {
    IsDatum(ANY_TEXT, t) && AllDefined(t)
  }

  ghost predicate AllDefined(t: Tree) {
    t.tok.kind != Undefined && forall i :: 0 <= i < |t.kids| ==> AllDefined(t.kids[i])
  }

  /** The value there. */
  ghost function DocAt(buf: string, toks: seq<Tok>, p: nat, end: nat): Doc
    requires p <= end <= |toks| && Build(toks, p, end).Some?
  {
    DocOf(buf, TreeAt(toks, p, end))
  }

  lemma ComparableItem(t: Tree, i: nat)
    requires Comparable(t) && i < |t.kids| && t.tok.kind == Array
    ensures Comparable(t.kids[i])
  {
  }

  lemma ComparableMember(t: Tree, i: nat)
    requires Comparable(t) && i < |t.kids| && t.tok.kind == Object
    ensures t.kids[i].tok.kind == String && |t.kids[i].kids| == 1 && Comparable(t.kids[i].kids[0])
  {
    assert IsKeyvalue(ANY_TEXT, t.kids[i]);
    assert AllDefined(t.kids[i]);
  }

  lemma KnownKind(t: Tree)
    requires Comparable(t)
    ensures t.tok.kind != Undefined && t.tok.kind != Other
  {
  }

  /** All of these are keys with one value each. */
  ghost predicate AreKeys(keys: seq<Tree>) {
    forall i :: 0 <= i < |keys| ==> keys[i].tok.kind == String && |keys[i].kids| == 1
  }

  lemma ObjectKeys(t: Tree)
    requires Comparable(t) && t.tok.kind == Object
    ensures AreKeys(t.kids)
  {
    forall i | 0 <= i < |t.kids| ensures t.kids[i].tok.kind == String && |t.kids[i].kids| == 1 {
      ComparableMember(t, i);
    }
  }

  lemma TokAt(toks: seq<Tok>, p: nat, end: nat)
    requires p <= end <= |toks| && Build(toks, p, end).Some?
    ensures p < end && TreeAt(toks, p, end).tok == toks[p]
  {
  }

  lemma NextBounds(toks: seq<Tok>, p: nat, end: nat)
    requires p <= end <= |toks| && Build(toks, p, end).Some?
    ensures p < Build(toks, p, end).value.next <= end
  {
  }

  /** What the loops know of one side: the children still to come start at q. */
  ghost predicate AtKid(toks: seq<Tok>, p: nat, end: nat, q: nat, i: nat)
    requires p <= end <= |toks| && Build(toks, p, end).Some?
  {
    var kids := TreeAt(toks, p, end).kids;
    && p < q <= end && i <= |kids|
    && BuildAll(toks, q, end, |kids| - i).Some? && BuildAll(toks, q, end, |kids| - i).value.value == kids[i..]
  }

  lemma FirstKid(toks: seq<Tok>, p: nat, end: nat)
    requires p <= end <= |toks| && Build(toks, p, end).Some?
    ensures AtKid(toks, p, end, p + 1, 0)
  {
    KidsOf(toks, p, end);
    var kids := TreeAt(toks, p, end).kids;
    assert kids[0..] == kids;
  }

  lemma NextKid(toks: seq<Tok>, p: nat, end: nat, q: nat, i: nat)
    requires p <= end <= |toks| && Build(toks, p, end).Some? && AtKid(toks, p, end, q, i)
    requires i < |TreeAt(toks, p, end).kids|
    ensures p < q < end && Build(toks, q, end).Some? && TreeAt(toks, q, end) == TreeAt(toks, p, end).kids[i]
    ensures AtKid(toks, p, end, Build(toks, q, end).value.next, i + 1)
    ensures TreeAt(toks, q, end).tok == toks[q]
  {
    var kids := TreeAt(toks, p, end).kids;
    FirstOfAll(toks, q, end, |kids| - i);
    assert kids[i..][1..] == kids[i + 1..];
    NextBounds(toks, q, end);
  }

  lemma {:induction false} AnyTextDatum(utf8: Utf8, t: Tree, key: bool)
    requires IsKid(utf8, t, key)
    ensures IsKid(ANY_TEXT, t, key)
    decreases t
  {
    if key {
      AnyTextDatum(utf8, t.kids[0], false);
    } else if t.tok.kind == Object {
      forall i | 0 <= i < |t.kids| ensures IsKeyvalue(ANY_TEXT, t.kids[i]) { AnyTextDatum(utf8, t.kids[i], true); }
    } else if t.tok.kind == Array {
      forall i | 0 <= i < |t.kids| ensures IsDatum(ANY_TEXT, t.kids[i]) { AnyTextDatum(utf8, t.kids[i], false); }
    }
  }

  // ---- json_get_membern ----

  /** json_get_membern on an object: the token of the value behind the first such key. */
  method GetMember(buf: string, toks: seq<Tok>, p: nat, ghost end: nat, name: string) returns (r: Option<nat>)
    requires p <= end <= |toks| && Build(toks, p, end).Some?
    requires toks[p].kind == Object && AreKeys(TreeAt(toks, p, end).kids)
    ensures var kids := TreeAt(toks, p, end).kids;
      var j := Find(MembersOf(buf, kids), name);
      && (r.None? <==> j == |kids|)
      && (r.Some? ==>
            r.value <= end && Build(toks, r.value, end).Some? && TreeAt(toks, r.value, end) == kids[j].kids[0])
  {
    hide Build, BuildAll, Text, AtKid, Find, MembersOf, DocOf;
    ghost var kids := TreeAt(toks, p, end).kids;
    ghost var ms := MembersOf(buf, kids);
    KidsOf(toks, p, end);
    FirstKid(toks, p, end);
    var i: nat, t: nat := 0, p + 1;
    while i < toks[p].size
      invariant i <= toks[p].size == |kids| && AtKid(toks, p, end, t, i)
      invariant forall k :: 0 <= k < i ==> ms[k].key != name
    {
      NextKid(toks, p, end, t, i);
      ValueOfKey(toks, t, end);
      MembersAt(buf, kids, i);
      if toks[t].kind == String && Text(buf, toks[t]) == name {
        FirstIs(ms, name, i);
        return Some(t + 1);
      }
      t := Next(toks, t + 1, end);
      i := i + 1;
    }
    FirstIs(ms, name, |kids|);
    return None;
  }

  lemma FirstIs(ms: seq<Member>, name: string, j: nat)
    requires j <= |ms| && (j < |ms| ==> ms[j].key == name) && forall i :: 0 <= i < j ==> ms[i].key != name
    ensures Find(ms, name) == j
  {
  }

  // ---- json_equal ----

  /** json_equal on validated tokens: it compares the values there, and decides equality of what
      they mean when no object in them repeats a key. */
  method JsonEqual(b1: string, toks1: seq<Tok>, p1: nat, ghost e1: nat,
                   b2: string, toks2: seq<Tok>, p2: nat, ghost e2: nat) returns (r: bool)
    requires DatumAt(toks1, p1, e1) && DatumAt(toks2, p2, e2)
    ensures r <==> Equal(DocAt(b1, toks1, p1, e1), DocAt(b2, toks2, p2, e2))
    ensures Regular(DocAt(b1, toks1, p1, e1)) && Regular(DocAt(b2, toks2, p2, e2)) ==>
      (r <==> Meaning(DocAt(b1, toks1, p1, e1)) == Meaning(DocAt(b2, toks2, p2, e2)))
    decreases e1 - p1, 1, 0
  {
    hide Build, BuildAll, Text, Meaning, Comparable, Regular;
    ghost var t1, t2 := TreeAt(toks1, p1, e1), TreeAt(toks2, p2, e2);
    TokAt(toks1, p1, e1);
    TokAt(toks2, p2, e2);
    if Regular(DocOf(b1, t1)) && Regular(DocOf(b2, t2)) {
      EqualDecides(DocOf(b1, t1), DocOf(b2, t2));
    }
    KnownKind(t1);
    KnownKind(t2);
    KidsOf(toks1, p1, e1);
    KidsOf(toks2, p2, e2);
    if toks1[p1].kind != toks2[p2].kind { return false; }
    match toks1[p1].kind
    case Primitive => r := Text(b1, toks1[p1]) == Text(b2, toks2[p2]);
    case String => r := Text(b1, toks1[p1]) == Text(b2, toks2[p2]);
    case Array =>
      if toks1[p1].size != toks2[p2].size { return false; }
      r := EqualItems(b1, toks1, p1, e1, b2, toks2, p2, e2);
    case Object =>
      if toks1[p1].size != toks2[p2].size { return false; }
      r := EqualMembers(b1, toks1, p1, e1, b2, toks2, p2, e2);
  }

  /** The loop over two arrays of the same size. */
  method EqualItems(b1: string, toks1: seq<Tok>, p1: nat, ghost e1: nat,
                    b2: string, toks2: seq<Tok>, p2: nat, ghost e2: nat) returns (r: bool)
    requires DatumAt(toks1, p1, e1) && DatumAt(toks2, p2, e2) && p1 < e1 && p2 < e2
    requires toks1[p1].kind == toks2[p2].kind == Array && toks1[p1].size == toks2[p2].size
    ensures r <==> Equal(DocAt(b1, toks1, p1, e1), DocAt(b2, toks2, p2, e2))
    decreases e1 - p1, 0, 0
  {
    hide Build, BuildAll, Comparable, AtKid;
    ghost var t1, t2 := TreeAt(toks1, p1, e1), TreeAt(toks2, p2, e2);
    TokAt(toks1, p1, e1);
    TokAt(toks2, p2, e2);
    KidsOf(toks1, p1, e1);
    KidsOf(toks2, p2, e2);
    FirstKid(toks1, p1, e1);
    FirstKid(toks2, p2, e2);
    var i: nat, q1: nat, q2: nat := 0, p1 + 1, p2 + 1;
    while i < toks1[p1].size
      invariant i <= |t1.kids| == |t2.kids| && AtKid(toks1, p1, e1, q1, i) && AtKid(toks2, p2, e2, q2, i)
      invariant forall k :: 0 <= k < i ==> Equal(DocsOf(b1, t1.kids)[k], DocsOf(b2, t2.kids)[k])
    {
      NextKid(toks1, p1, e1, q1, i);
      NextKid(toks2, p2, e2, q2, i);
      ComparableItem(t1, i);
      ComparableItem(t2, i);
      DocsAt(b1, t1.kids, i);
      DocsAt(b2, t2.kids, i);
      var same := JsonEqual(b1, toks1, q1, e1, b2, toks2, q2, e2);
      if !same { return false; }
      q1 := Next(toks1, q1, e1);
      q2 := Next(toks2, q2, e2);
      i := i + 1;
    }
    return true;
  }

  /** The loop over the members of the first of two objects of the same size. */
  method EqualMembers(b1: string, toks1: seq<Tok>, p1: nat, ghost e1: nat,
                      b2: string, toks2: seq<Tok>, p2: nat, ghost e2: nat) returns (r: bool)
    requires DatumAt(toks1, p1, e1) && DatumAt(toks2, p2, e2) && p1 < e1 && p2 < e2
    requires toks1[p1].kind == toks2[p2].kind == Object && toks1[p1].size == toks2[p2].size
    ensures r <==> Equal(DocAt(b1, toks1, p1, e1), DocAt(b2, toks2, p2, e2))
    decreases e1 - p1, 0, 0
  {
    hide Build, BuildAll, Comparable, AtKid, MemberEqual, Text, MembersOf;
    ghost var t1, t2 := TreeAt(toks1, p1, e1), TreeAt(toks2, p2, e2);
    ghost var m1, m2 := MembersOf(b1, t1.kids), MembersOf(b2, t2.kids);
    TokAt(toks1, p1, e1);
    TokAt(toks2, p2, e2);
    KidsOf(toks1, p1, e1);
    KidsOf(toks2, p2, e2);
    FirstKid(toks1, p1, e1);
    var i: nat, key: nat := 0, p1 + 1;
    while i < toks1[p1].size
      invariant i <= |t1.kids| == |t2.kids| && AtKid(toks1, p1, e1, key, i)
      invariant forall k :: 0 <= k < i ==> MemberEqual(m1[k], m2)
    {
      NextKid(toks1, p1, e1, key, i);
      ComparableMember(t1, i);
      ValueOfKey(toks1, key, e1);
      MembersAt(b1, t1.kids, i);
      var same := EqualMember(b1, toks1, key, e1, b2, toks2, p2, e2);
      if !same { return false; }
      key := Next(toks1, key + 1, e1);
      i := i + 1;
    }
    return true;
  }

  /** One member: found in the second object with an equal value. */
  method EqualMember(b1: string, toks1: seq<Tok>, key: nat, ghost e1: nat,
                     b2: string, toks2: seq<Tok>, p2: nat, ghost e2: nat) returns (r: bool)
    requires key < e1 <= |toks1| && Build(toks1, key, e1).Some?
    requires |TreeAt(toks1, key, e1).kids| == 1 && Comparable(TreeAt(toks1, key, e1).kids[0])
    requires DatumAt(toks2, p2, e2) && p2 < e2 && toks2[p2].kind == Object
    ensures r <==> MemberEqual(MemberOf(b1, TreeAt(toks1, key, e1)), MembersOf(b2, TreeAt(toks2, p2, e2).kids))
    decreases e1 - key, 0, 1
  {
    hide Build, BuildAll, Comparable, AreKeys, Text, Equal, MembersOf, DocOf;
    ghost var k1, t2 := TreeAt(toks1, key, e1), TreeAt(toks2, p2, e2);
    TokAt(toks1, key, e1);
    TokAt(toks2, p2, e2);
    ObjectKeys(t2);
    ValueOfKey(toks1, key, e1);
    var value2 := GetMember(b2, toks2, p2, e2, Text(b1, toks1[key]));
    if value2.None? { return false; }
    ghost var j := Find(MembersOf(b2, t2.kids), Text(b1, toks1[key]));
    MembersAt(b2, t2.kids, j);
    ComparableMember(t2, j);
    r := JsonEqual(b1, toks1, key + 1, e1, b2, toks2, value2.value, e2);
  }
}
