/** The token arrays of common/json.c: every token is followed by the tokens of its `size`
    children, so an array of tokens is a tree written in preorder. */
module JsonTree {
  import opened Wrappers

  /** jsmntype_t; Other is any number outside the enumeration. */
  datatype Kind = Undefined | Object | Array | String | Primitive | Other

  /** jsmntok_t. */
  datatype Tok = Tok(kind: Kind, start: int, end: int, size: nat)

  datatype Tree = Tree(tok: Tok, kids: seq<Tree>)

  /** Each token counts its children. */
  ghost predicate Wf(t: Tree) {
    t.tok.size == |t.kids| && forall i :: 0 <= i < |t.kids| ==> Wf(t.kids[i])
  }

  ghost predicate WfAll(ts: seq<Tree>) {
    forall i :: 0 <= i < |ts| ==> Wf(ts[i])
  }

  /** The tokens of a tree, and of several in a row. */
  function Flat(t: Tree): (s: seq<Tok>)
    ensures |s| >= 1 && s[0] == t.tok
  {
    [t.tok] + FlatAll(t.kids)
  }

  function FlatAll(ts: seq<Tree>): seq<Tok> {
    if ts == [] then [] else Flat(ts[0]) + FlatAll(ts[1..])
  }

  datatype Built<T> = Built(value: T, next: nat)

  /** The tree that starts at p and lies before end, and where it stops. */
  function Build(toks: seq<Tok>, p: nat, end: nat): (r: Option<Built<Tree>>)
    requires p <= end <= |toks|
    ensures r.Some? ==> p < r.value.next <= end && r.value.value.tok == toks[p]
    decreases end - p, 0
  {
    if p == end then None
    else
      var kids := BuildAll(toks, p + 1, end, toks[p].size);
      if kids.None? then None else Some(Built(Tree(toks[p], kids.value.value), kids.value.next))
  }

  /** k trees in a row. */
  function BuildAll(toks: seq<Tok>, p: nat, end: nat, k: nat): (r: Option<Built<seq<Tree>>>)
    requires p <= end <= |toks|
    ensures r.Some? ==> p <= r.value.next <= end && |r.value.value| == k
    decreases end - p, k
  {
    if k == 0 then Some(Built([], p))
    else
      var t := Build(toks, p, end);
      if t.None? then None
      else
        var ts := BuildAll(toks, t.value.next, end, k - 1);
        if ts.None? then None else Some(Built([t.value.value] + ts.value.value, ts.value.next))
  }

  /** What is built is what is written there. */
  lemma {:induction false} BuildIsFlat(toks: seq<Tok>, p: nat, end: nat)
    requires p <= end <= |toks| && Build(toks, p, end).Some?
    ensures var b := Build(toks, p, end).value; Wf(b.value) && toks[p..b.next] == Flat(b.value)
    decreases end - p, 0
  {
    BuildAllIsFlat(toks, p + 1, end, toks[p].size);
    var b := Build(toks, p, end).value;
    assert toks[p..b.next] == [toks[p]] + toks[p + 1..b.next];
  }

  lemma {:induction false} BuildAllIsFlat(toks: seq<Tok>, p: nat, end: nat, k: nat)
    requires p <= end <= |toks| && BuildAll(toks, p, end, k).Some?
    ensures var b := BuildAll(toks, p, end, k).value; WfAll(b.value) && toks[p..b.next] == FlatAll(b.value)
    decreases end - p, k
  {
    if k > 0 {
      BuildIsFlat(toks, p, end);
      var t := Build(toks, p, end).value;
      BuildAllIsFlat(toks, t.next, end, k - 1);
      var ts := BuildAll(toks, t.next, end, k - 1).value;
      assert toks[p..ts.next] == toks[p..t.next] + toks[t.next..ts.next];
      assert ([t.value] + ts.value)[1..] == ts.value;
    }
  }

  /** A tree that is written at p is built. */
  lemma {:induction false} FlatIsBuilt(toks: seq<Tok>, p: nat, end: nat, t: Tree)
    requires p <= end <= |toks| && Wf(t) && p + |Flat(t)| <= end && toks[p..p + |Flat(t)|] == Flat(t)
    ensures Build(toks, p, end) == Some(Built(t, p + |Flat(t)|))
    decreases t, 0
  {
    var q := p + |Flat(t)|;
    assert toks[p] == toks[p..q][0] == t.tok;
    assert toks[p + 1..q] == toks[p..q][1..] == FlatAll(t.kids);
    FlatAllIsBuilt(toks, p + 1, end, t.kids);
  }

  lemma {:induction false} FlatAllIsBuilt(toks: seq<Tok>, p: nat, end: nat, ts: seq<Tree>)
    requires p <= end <= |toks| && WfAll(ts) && p + |FlatAll(ts)| <= end && toks[p..p + |FlatAll(ts)|] == FlatAll(ts)
    ensures BuildAll(toks, p, end, |ts|) == Some(Built(ts, p + |FlatAll(ts)|))
    decreases ts, 1
  {
    if ts != [] {
      assert FlatAll(ts) == Flat(ts[0]) + FlatAll(ts[1..]);
      hide Flat, FlatAll, Wf, Build, BuildAll;
      var m := p + |Flat(ts[0])|;
      Halves(toks, p, Flat(ts[0]), FlatAll(ts[1..]));
      FlatIsBuilt(toks, p, end, ts[0]);
      FlatAllIsBuilt(toks, m, end, ts[1..]);
      JoinAll(toks, p, end, m, ts);
    }
  }

  lemma BuildOne(toks: seq<Tok>, p: nat, end: nat)
    requires p < end <= |toks| && BuildAll(toks, p + 1, end, toks[p].size).Some?
    ensures Build(toks, p, end).Some?
    ensures Build(toks, p, end).value.next == BuildAll(toks, p + 1, end, toks[p].size).value.next
  {
  }

  lemma JoinAll(toks: seq<Tok>, p: nat, end: nat, m: nat, all: seq<Tree>)
    requires p <= m <= end <= |toks| && all != [] && Build(toks, p, end) == Some(Built(all[0], m))
    requires BuildAll(toks, m, end, |all| - 1).Some? && BuildAll(toks, m, end, |all| - 1).value.value == all[1..]
    ensures BuildAll(toks, p, end, |all|) == Some(Built(all, BuildAll(toks, m, end, |all| - 1).value.next))
  {
    hide Build;
    assert all == [all[0]] + all[1..];
  }

  lemma Halves(s: seq<Tok>, p: nat, a: seq<Tok>, b: seq<Tok>)
    requires p + |a + b| <= |s| && s[p..p + |a + b|] == a + b
    ensures s[p..p + |a|] == a && s[p + |a|..p + |a| + |b|] == b
  {
    assert s[p..p + |a|] == s[p..p + |a + b|][..|a|];
    assert s[p + |a|..p + |a| + |b|] == s[p..p + |a + b|][|a|..];
  }

  // ---- json_next ----

  /** json_next: on a complete tree, the token after it. */
  method Next(toks: seq<Tok>, p: nat, ghost end: nat) returns (t: nat)
    requires p <= end <= |toks| && Build(toks, p, end).Some?
    ensures t == Build(toks, p, end).value.next
    decreases end - p
  {
    t := p + 1;
    var i := 0;
    while i < toks[p].size
      invariant i <= toks[p].size && p < t <= end
      invariant BuildAll(toks, t, end, toks[p].size - i).Some?
      invariant BuildAll(toks, t, end, toks[p].size - i).value.next == Build(toks, p, end).value.next
    {
      t := Next(toks, t, end);
      i := i + 1;
    }
  }

  // ---- Validation ----

  /** utf8_check on the text of a token. */
  type Utf8 = Tok -> bool

  /** A standard JSON datum, and a key with its value. */
  ghost predicate IsDatum(utf8: Utf8, t: Tree) {
    match t.tok.kind
    case String => utf8(t.tok) && t.kids == []
    case Undefined => t.kids == []
    case Primitive => t.kids == []
    case Array => forall i :: 0 <= i < |t.kids| ==> IsDatum(utf8, t.kids[i])
    case Object => forall i :: 0 <= i < |t.kids| ==> IsKeyvalue(utf8, t.kids[i])
    case Other => false
  }

  ghost predicate IsKeyvalue(utf8: Utf8, t: Tree) {
    t.tok.kind == String && |t.kids| == 1 && utf8(t.tok) && IsDatum(utf8, t.kids[0])
  }

  ghost predicate IsKid(utf8: Utf8, t: Tree, key: bool) {
    if key then IsKeyvalue(utf8, t) else IsDatum(utf8, t)
  }

  ghost predicate AreKids(utf8: Utf8, ts: seq<Tree>, key: bool) {
    forall i :: 0 <= i < |ts| ==> IsKid(utf8, ts[i], key)
  }

  /** The tokens from p on hold a datum (or a key with its value); k of them. */
  ghost predicate Holds(utf8: Utf8, toks: seq<Tok>, p: nat, end: nat, key: bool)
    requires p <= end <= |toks|
  {
    Build(toks, p, end).Some? && IsKid(utf8, Build(toks, p, end).value.value, key)
  }

  ghost predicate HoldsAll(utf8: Utf8, toks: seq<Tok>, p: nat, end: nat, k: nat, key: bool)
    requires p <= end <= |toks|
  {
    BuildAll(toks, p, end, k).Some? && AreKids(utf8, BuildAll(toks, p, end, k).value.value, key)
  }

  /** Taking the first of k. */
  lemma HoldsStep(utf8: Utf8, toks: seq<Tok>, p: nat, end: nat, k: nat, key: bool)
    requires p <= end <= |toks| && k > 0
    ensures HoldsAll(utf8, toks, p, end, k, key) ==> Holds(utf8, toks, p, end, key)
    ensures Holds(utf8, toks, p, end, key) ==>
      var q := Build(toks, p, end).value.next;
      && (HoldsAll(utf8, toks, p, end, k, key) <==> HoldsAll(utf8, toks, q, end, k - 1, key))
      && (HoldsAll(utf8, toks, p, end, k, key) ==>
            BuildAll(toks, p, end, k).value.next == BuildAll(toks, q, end, k - 1).value.next)
  {
    hide IsKid;
    var t := Build(toks, p, end);
    if t.Some? {
      var ts := BuildAll(toks, t.value.next, end, k - 1);
      if ts.Some? {
        var all := BuildAll(toks, p, end, k).value.value;
        assert all == [t.value.value] + ts.value.value;
        assert all[0] == t.value.value;
        assert forall i :: 0 <= i < k - 1 ==> all[i + 1] == ts.value.value[i];
        assert forall i :: 0 < i < k ==> all[i] == ts.value.value[i - 1];
      }
    }
  }

  /** A token's children decide what it holds. */
  lemma HoldsKids(utf8: Utf8, toks: seq<Tok>, p: nat, end: nat)
    requires p < end <= |toks| && (toks[p].kind == Array || toks[p].kind == Object)
    ensures Holds(utf8, toks, p, end, false) <==> HoldsAll(utf8, toks, p + 1, end, toks[p].size, toks[p].kind == Object)
    ensures Holds(utf8, toks, p, end, false) ==>
      Build(toks, p, end).value.next == BuildAll(toks, p + 1, end, toks[p].size).value.next
  {
    var kids := BuildAll(toks, p + 1, end, toks[p].size);
    if kids.Some? {
      var t := Tree(toks[p], kids.value.value);
      assert Build(toks, p, end) == Some(Built(t, kids.value.next));
      if toks[p].kind == Object {
        assert IsDatum(utf8, t) <==> forall i :: 0 <= i < |t.kids| ==> IsKeyvalue(utf8, t.kids[i]);
        assert forall i :: 0 <= i < |t.kids| ==> (IsKid(utf8, t.kids[i], true) <==> IsKeyvalue(utf8, t.kids[i]));
      } else {
        assert forall i :: 0 <= i < |t.kids| ==> (IsKid(utf8, t.kids[i], false) <==> IsDatum(utf8, t.kids[i]));
      }
    }
  }

  lemma HoldsLeaf(utf8: Utf8, toks: seq<Tok>, p: nat, end: nat)
    requires p < end <= |toks| && toks[p].size == 0
    ensures Build(toks, p, end) == Some(Built(Tree(toks[p], []), p + 1))
  {
    assert BuildAll(toks, p + 1, end, 0) == Some(Built([], p + 1));
  }

  lemma BuiltSize(toks: seq<Tok>, p: nat, end: nat)
    requires p < end <= |toks| && Build(toks, p, end).Some?
    ensures |Build(toks, p, end).value.value.kids| == toks[p].size
  {
  }

  /** validate_jsmn_datum: valid exactly when a datum lies at p, and then q is behind it. */
  method ValidateDatum(utf8: Utf8, toks: seq<Tok>, p: nat, end: nat) returns (valid: bool, q: nat)
    requires p <= end <= |toks|
    ensures valid <==> Holds(utf8, toks, p, end, false)
    ensures valid ==> q == Build(toks, p, end).value.next
    decreases end - p, 1
  {
    hide Build, BuildAll;
    if p == end {
      NothingHere(toks, p);
      return false, p;
    }
    match toks[p].kind
    case String =>
      valid := utf8(toks[p]) && toks[p].size == 0;
      q := p + 1;
      LeafHolds(utf8, toks, p, end);
    case Undefined =>
      valid, q := toks[p].size == 0, p + 1;
      LeafHolds(utf8, toks, p, end);
    case Primitive =>
      valid, q := toks[p].size == 0, p + 1;
      LeafHolds(utf8, toks, p, end);
    case Array =>
      HoldsKids(utf8, toks, p, end);
      valid, q := ValidateKids(utf8, toks, p + 1, end, toks[p].size, false);
    case Object =>
      HoldsKids(utf8, toks, p, end);
      valid, q := ValidateKids(utf8, toks, p + 1, end, toks[p].size, true);
    case Other =>
      LeafHolds(utf8, toks, p, end);
      valid, q := false, p;
  }

  lemma NothingHere(toks: seq<Tok>, p: nat)
    requires p <= |toks|
    ensures Build(toks, p, p).None?
  {
  }

  lemma LeafHolds(utf8: Utf8, toks: seq<Tok>, p: nat, end: nat)
    requires p < end <= |toks| && toks[p].kind != Array && toks[p].kind != Object
    ensures Holds(utf8, toks, p, end, false) <==>
      toks[p].kind != Other && toks[p].size == 0 && (toks[p].kind == String ==> utf8(toks[p]))
    ensures toks[p].size == 0 ==> Build(toks, p, end) == Some(Built(Tree(toks[p], []), p + 1))
  {
    if Build(toks, p, end).Some? { BuiltSize(toks, p, end); }
    if toks[p].size == 0 { HoldsLeaf(utf8, toks, p, end); }
  }

  /** The loops over the children of an array or an object. */
  method ValidateKids(utf8: Utf8, toks: seq<Tok>, start: nat, end: nat, size: nat, key: bool)
      returns (valid: bool, q: nat)
    requires start <= end <= |toks|
    ensures valid <==> HoldsAll(utf8, toks, start, end, size, key)
    ensures valid ==> q == BuildAll(toks, start, end, size).value.next
    decreases end - start, 3
  {
    hide Build, BuildAll, Holds;
    q, valid := start, true;
    var i := 0;
    while i < size
      invariant i <= size && start <= q <= end && valid
      invariant HoldsAll(utf8, toks, start, end, size, key) <==> HoldsAll(utf8, toks, q, end, size - i, key)
      invariant HoldsAll(utf8, toks, start, end, size, key) ==>
        BuildAll(toks, start, end, size).value.next == BuildAll(toks, q, end, size - i).value.next
    {
      HoldsStep(utf8, toks, q, end, size - i, key);
      ghost var before := q;
      if key {
        valid, q := ValidateKeyvalue(utf8, toks, q, end);
      } else {
        valid, q := ValidateDatum(utf8, toks, q, end);
      }
      if !valid { return false, q; }
      BuiltBounds(utf8, toks, before, end, key);
      i := i + 1;
    }
    NoneLeft(utf8, toks, q, end, key);
  }

  lemma BuiltBounds(utf8: Utf8, toks: seq<Tok>, p: nat, end: nat, key: bool)
    requires p <= end <= |toks| && Holds(utf8, toks, p, end, key)
    ensures Build(toks, p, end).Some? && p < Build(toks, p, end).value.next <= end
  {
  }

  lemma NoneLeft(utf8: Utf8, toks: seq<Tok>, p: nat, end: nat, key: bool)
    requires p <= end <= |toks|
    ensures HoldsAll(utf8, toks, p, end, 0, key) && BuildAll(toks, p, end, 0).value.next == p
  {
  }

  /** validate_jsmn_keyvalue: a string of size 1 and a datum. */
  method ValidateKeyvalue(utf8: Utf8, toks: seq<Tok>, p: nat, end: nat) returns (valid: bool, q: nat)
    requires p <= end <= |toks|
    ensures valid <==> Holds(utf8, toks, p, end, true)
    ensures valid ==> q == Build(toks, p, end).value.next
    decreases end - p, 2
  {
    hide Build, BuildAll;
    if p == end {
      NothingHere(toks, p);
      return false, p;
    }
    if Build(toks, p, end).Some? { BuiltSize(toks, p, end); }
    if toks[p].kind != String || toks[p].size != 1 || !utf8(toks[p]) {
      return false, p;
    }
    KeyHolds(utf8, toks, p, end);
    valid, q := ValidateDatum(utf8, toks, p + 1, end);
  }

  lemma KeyHolds(utf8: Utf8, toks: seq<Tok>, p: nat, end: nat)
    requires p < end <= |toks| && toks[p].kind == String && toks[p].size == 1 && utf8(toks[p])
    ensures Holds(utf8, toks, p, end, true) <==> Holds(utf8, toks, p + 1, end, false)
    ensures Holds(utf8, toks, p, end, true) ==> Build(toks, p, end).value.next == Build(toks, p + 1, end).value.next
  {
    var v := Build(toks, p + 1, end);
    if v.Some? {
      assert BuildAll(toks, v.value.next, end, 0) == Some(Built([], v.value.next));
      assert BuildAll(toks, p + 1, end, 1) == Some(Built([v.value.value] + [], v.value.next));
      assert Build(toks, p, end).value.value == Tree(toks[p], [v.value.value] + []);
    } else {
      assert BuildAll(toks, p + 1, end, 1).None?;
    }
  }

  // ---- Walking over children ----

  /** The first of several trees, and the rest. */
  lemma FirstOfAll(toks: seq<Tok>, p: nat, end: nat, k: nat)
    requires p <= end <= |toks| && k > 0 && BuildAll(toks, p, end, k).Some?
    ensures var all := BuildAll(toks, p, end, k).value;
      && Build(toks, p, end).Some? && Build(toks, p, end).value.value == all.value[0]
      && BuildAll(toks, Build(toks, p, end).value.next, end, k - 1) == Some(Built(all.value[1..], all.next))
  {
    var t := Build(toks, p, end).value;
    var ts := BuildAll(toks, t.next, end, k - 1).value;
    assert BuildAll(toks, p, end, k).value.value == [t.value] + ts.value;
  }

  lemma KidsOf(toks: seq<Tok>, p: nat, end: nat)
    requires p <= end <= |toks| && Build(toks, p, end).Some?
    ensures p < end && var b := Build(toks, p, end).value;
      |b.value.kids| == toks[p].size && BuildAll(toks, p + 1, end, toks[p].size) == Some(Built(b.value.kids, b.next))
  {
  }

  /** The value behind a key. */
  lemma ValueOfKey(toks: seq<Tok>, p: nat, end: nat)
    requires p <= end <= |toks| && Build(toks, p, end).Some? && |Build(toks, p, end).value.value.kids| == 1
    ensures p < end && var b := Build(toks, p, end).value;
      Build(toks, p + 1, end) == Some(Built(b.value.kids[0], b.next))
  {
    KidsOf(toks, p, end);
    FirstOfAll(toks, p + 1, end, 1);
    assert BuildAll(toks, Build(toks, p + 1, end).value.next, end, 0).value.next == Build(toks, p + 1, end).value.next;
  }
}
