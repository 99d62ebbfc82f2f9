/** json_tok_remove of common/json.c: cutting children out of a token array. */
module JsonRemove {
  import opened JsonTree

  // ---- On trees ----

  /** The node whose token is the o-th of t. */
  ghost function NodeAt(t: Tree, o: nat): Tree
    requires o < |Flat(t)|
    decreases t, 0
  {
    if o == 0 then t else NodeIn(t.kids, o - 1)
  }

  ghost function NodeIn(ts: seq<Tree>, o: nat): Tree
    requires o < |FlatAll(ts)|
    decreases ts, 1
  {
    if o < |Flat(ts[0])| then NodeAt(ts[0], o) else NodeIn(ts[1..], o - |Flat(ts[0])|)
  }

  /** A node without num of its children, from the i-th on. */
  ghost function Without(t: Tree, i: nat, num: nat): Tree
    requires i + num <= |t.kids| == t.tok.size
  {
    Tree(t.tok.(size := t.tok.size - num), t.kids[..i] + t.kids[i + num..])
  }

  /** t with its node at o so changed. */
  ghost function Pruned(t: Tree, o: nat, i: nat, num: nat): Tree
    requires Wf(t) && o < |Flat(t)| && i + num <= |NodeAt(t, o).kids|
    decreases t, 0
  {
    if o == 0 then Without(t, i, num) else Tree(t.tok, PrunedIn(t.kids, o - 1, i, num))
  }

  ghost function PrunedIn(ts: seq<Tree>, o: nat, i: nat, num: nat): (r: seq<Tree>)
    requires WfAll(ts) && o < |FlatAll(ts)| && i + num <= |NodeIn(ts, o).kids|
    ensures |r| == |ts|
    decreases ts, 1
  {
    if o < |Flat(ts[0])| then [Pruned(ts[0], o, i, num)] + ts[1..]
    else [ts[0]] + PrunedIn(ts[1..], o - |Flat(ts[0])|, i, num)
  }

  lemma {:induction false} NodeAtWf(t: Tree, o: nat)
    requires Wf(t) && o < |Flat(t)|
    ensures Wf(NodeAt(t, o)) && o + |Flat(NodeAt(t, o))| <= |Flat(t)|
    ensures Flat(t)[o..o + |Flat(NodeAt(t, o))|] == Flat(NodeAt(t, o))
    decreases t, 0
  {
    if o > 0 {
      NodeInWf(t.kids, o - 1);
      var n := NodeAt(t, o);
      assert Flat(t)[o..o + |Flat(n)|] == FlatAll(t.kids)[o - 1..o - 1 + |Flat(n)|];
    } else {
      assert Flat(t)[0..|Flat(t)|] == Flat(t);
    }
  }

  lemma {:induction false} NodeInWf(ts: seq<Tree>, o: nat)
    requires WfAll(ts) && o < |FlatAll(ts)|
    ensures Wf(NodeIn(ts, o)) && o + |Flat(NodeIn(ts, o))| <= |FlatAll(ts)|
    ensures FlatAll(ts)[o..o + |Flat(NodeIn(ts, o))|] == Flat(NodeIn(ts, o))
    decreases ts, 1
  {
    var a, b, n := Flat(ts[0]), FlatAll(ts[1..]), NodeIn(ts, o);
    assert FlatAll(ts) == a + b;
    hide Flat, FlatAll;
    if o < |a| {
      NodeAtWf(ts[0], o);
      assert (a + b)[o..o + |Flat(n)|] == a[o..o + |Flat(n)|];
    } else {
      NodeInWf(ts[1..], o - |a|);
      assert (a + b)[o..o + |Flat(n)|] == b[o - |a|..o - |a| + |Flat(n)|];
    }
  }

  // ---- On tokens ----

  /** s with num taken off the size of the token at o, and without the tokens from a up to b. */
  function Cut(s: seq<Tok>, o: nat, a: nat, b: nat, num: nat): seq<Tok>
    requires o < a <= b <= |s| && num <= s[o].size
  {
    s[o := s[o].(size := s[o].size - num)][..a] + s[b..]
  }

  lemma CutInside(x: seq<Tok>, y: seq<Tok>, z: seq<Tok>, o: nat, a: nat, b: nat, num: nat)
    requires o < a <= b <= |y| && num <= y[o].size
    ensures (x + y + z)[|x| + o] == y[o]
    ensures Cut(x + y + z, |x| + o, |x| + a, |x| + b, num) == x + Cut(y, o, a, b, num) + z
  {
    var w := x + y + z;
    var y' := y[o := y[o].(size := y[o].size - num)];
    assert w[|x| + o := w[|x| + o].(size := y[o].size - num)] == x + y' + z;
    assert (x + y' + z)[..|x| + a] == x + y'[..a];
    assert w[|x| + b..] == y[b..] + z;
  }

  lemma CutLeft(y: seq<Tok>, z: seq<Tok>, o: nat, a: nat, b: nat, num: nat)
    requires o < a <= b <= |y| && num <= y[o].size
    ensures (y + z)[o] == y[o] && Cut(y + z, o, a, b, num) == Cut(y, o, a, b, num) + z
  {
    hide Cut;
    CutInside([], y, z, o, a, b, num);
    assert [] + y + z == y + z;
    assert [] + Cut(y, o, a, b, num) + z == Cut(y, o, a, b, num) + z;
  }

  lemma CutRight(x: seq<Tok>, y: seq<Tok>, o: nat, a: nat, b: nat, num: nat)
    requires o < a <= b <= |y| && num <= y[o].size
    ensures (x + y)[|x| + o] == y[o] && Cut(x + y, |x| + o, |x| + a, |x| + b, num) == x + Cut(y, o, a, b, num)
  {
    hide Cut;
    CutInside(x, y, [], o, a, b, num);
    assert x + y + [] == x + y;
    assert x + Cut(y, o, a, b, num) + [] == x + Cut(y, o, a, b, num);
  }

  lemma CutHead(tok: Tok, x: seq<Tok>, y: seq<Tok>, z: seq<Tok>, num: nat)
    requires num <= tok.size
    ensures Cut([tok] + (x + y + z), 0, 1 + |x|, 1 + |x| + |y|, num) == [tok.(size := tok.size - num)] + (x + z)
  {
    var s, tok' := [tok] + (x + y + z), tok.(size := tok.size - num);
    assert s[0 := tok'] == [tok'] + (x + y + z);
    assert s[0 := tok'][..1 + |x|] == [tok'] + x;
    assert s[1 + |x| + |y|..] == z;
  }

  /** Where child i of a node starts, and where the num children from there end. */
  ghost function From(t: Tree, i: nat): (p: nat)
    requires i <= |t.kids|
    ensures p >= 1
  {
    1 + |FlatAll(t.kids[..i])|
  }

  lemma {:induction false} FlatAllConcat(a: seq<Tree>, b: seq<Tree>)
    ensures FlatAll(a + b) == FlatAll(a) + FlatAll(b)
    decreases |a|
  {
    hide Flat;
    if a == [] {
      assert a + b == b;
    } else {
      assert (a + b)[1..] == a[1..] + b;
      FlatAllConcat(a[1..], b);
    }
  }

  lemma FromMonotone(t: Tree, i: nat, j: nat)
    requires i <= j <= |t.kids|
    ensures From(t, i) <= From(t, j) <= |Flat(t)|
  {
    assert t.kids[..j] == t.kids[..i] + t.kids[i..j];
    FlatAllConcat(t.kids[..i], t.kids[i..j]);
    assert t.kids == t.kids[..j] + t.kids[j..];
    FlatAllConcat(t.kids[..j], t.kids[j..]);
  }

  lemma FlatDef(t: Tree)
    ensures Flat(t) == [t.tok] + FlatAll(t.kids)
  {
  }

  lemma FlatAllDef(ts: seq<Tree>)
    requires ts != []
    ensures FlatAll(ts) == Flat(ts[0]) + FlatAll(ts[1..])
  {
  }

  lemma FlatAllCons(t: Tree, ts: seq<Tree>)
    ensures FlatAll([t] + ts) == Flat(t) + FlatAll(ts)
  {
    assert ([t] + ts)[1..] == ts;
  }

  /** The children of a node in three parts. */
  lemma FlatThree(t: Tree, i: nat, num: nat)
    requires i + num <= |t.kids|
    ensures FlatAll(t.kids) == FlatAll(t.kids[..i]) + FlatAll(t.kids[i..i + num]) + FlatAll(t.kids[i + num..])
    ensures FlatAll(t.kids[..i + num]) == FlatAll(t.kids[..i]) + FlatAll(t.kids[i..i + num])
    ensures FlatAll(t.kids[..i] + t.kids[i + num..]) == FlatAll(t.kids[..i]) + FlatAll(t.kids[i + num..])
  {
    hide Flat, FlatAll;
    var a, b, c := t.kids[..i], t.kids[i..i + num], t.kids[i + num..];
    FlatAllConcat(a, b);
    FlatAllConcat(a + b, c);
    FlatAllConcat(a, c);
    assert t.kids[..i + num] == a + b && t.kids == a + b + c;
  }

  /** At the node itself. */
  lemma CutNode(t: Tree, i: nat, num: nat)
    requires Wf(t) && i + num <= |t.kids|
    ensures From(t, i) <= From(t, i + num) <= |Flat(t)|
    ensures Flat(Without(t, i, num)) == Cut(Flat(t), 0, From(t, i), From(t, i + num), num)
  {
    KidCount(t);
    FromMonotone(t, i, i + num);
    CutNodeAt(t, i, num, From(t, i), From(t, i + num));
    hide *;
  }

  lemma CutNodeAt(t: Tree, i: nat, num: nat, a: nat, b: nat)
    requires i + num <= |t.kids| == t.tok.size && a <= b <= |Flat(t)|
    requires a == From(t, i) && b == From(t, i + num)
    ensures Flat(Without(t, i, num)) == Cut(Flat(t), 0, a, b, num)
  {
    hide Flat, FlatAll, Cut;
    var x, y, z := FlatAll(t.kids[..i]), FlatAll(t.kids[i..i + num]), FlatAll(t.kids[i + num..]);
    FlatThree(t, i, num);
    FlatDef(t);
    FlatDef(Without(t, i, num));
    assert a == 1 + |x| && b == 1 + |x| + |y|;
    CutHead(t.tok, x, y, z, num);
  }

  lemma KidCount(t: Tree)
    requires Wf(t)
    ensures t.tok.size == |t.kids| && WfAll(t.kids)
  {
  }

  /** after is before with children i up to i + num of the node n at o cut out. */
  ghost predicate CutOut(before: seq<Tok>, after: seq<Tok>, o: nat, n: Tree, i: nat, num: nat)
    requires i + num <= |n.kids|
  {
    && From(n, i) <= From(n, i + num) && o + From(n, i + num) <= |before| && num <= before[o].size
    && after == Cut(before, o, o + From(n, i), o + From(n, i + num), num)
  }

  lemma CutOutLeft(a: seq<Tok>, a': seq<Tok>, b: seq<Tok>, o: nat, n: Tree, i: nat, num: nat)
    requires i + num <= |n.kids| && CutOut(a, a', o, n, i, num)
    ensures CutOut(a + b, a' + b, o, n, i, num)
  {
    hide From, Cut;
    CutLeft(a, b, o, o + From(n, i), o + From(n, i + num), num);
  }

  lemma CutOutRight(a: seq<Tok>, b: seq<Tok>, b': seq<Tok>, o: nat, n: Tree, i: nat, num: nat)
    requires i + num <= |n.kids| && CutOut(b, b', o, n, i, num)
    ensures CutOut(a + b, a + b', |a| + o, n, i, num)
  {
    hide From, Cut;
    CutRight(a, b, o, o + From(n, i), o + From(n, i + num), num);
  }

  /** Anywhere below. */
  lemma {:induction false} CutTree(t: Tree, o: nat, i: nat, num: nat)
    requires Wf(t) && o < |Flat(t)| && i + num <= |NodeAt(t, o).kids|
    ensures Wf(Pruned(t, o, i, num))
    ensures CutOut(Flat(t), Flat(Pruned(t, o, i, num)), o, NodeAt(t, o), i, num)
    decreases t, 0
  {
    if o == 0 {
      CutNode(t, i, num);
    } else {
      FlatDef(t);
      hide Flat, FlatAll, CutOut, NodeIn, PrunedIn;
      CutTrees(t.kids, o - 1, i, num);
      FlatDef(Pruned(t, o, i, num));
      CutOutRight([t.tok], FlatAll(t.kids), FlatAll(PrunedIn(t.kids, o - 1, i, num)), o - 1, NodeAt(t, o), i, num);
    }
  }

  lemma {:induction false} CutTrees(ts: seq<Tree>, o: nat, i: nat, num: nat)
    requires WfAll(ts) && o < |FlatAll(ts)| && i + num <= |NodeIn(ts, o).kids|
    ensures WfAll(PrunedIn(ts, o, i, num))
    ensures CutOut(FlatAll(ts), FlatAll(PrunedIn(ts, o, i, num)), o, NodeIn(ts, o), i, num)
    decreases ts, 1
  {
    FlatAllDef(ts);
    hide Flat, FlatAll, CutOut, Wf, NodeAt, Pruned;
    var a, b, n := Flat(ts[0]), FlatAll(ts[1..]), NodeIn(ts, o);
    if o < |a| {
      CutTree(ts[0], o, i, num);
      var p := Pruned(ts[0], o, i, num);
      FlatAllCons(p, ts[1..]);
      CutOutLeft(a, Flat(p), b, o, n, i, num);
    } else {
      var o' := o - |a|;
      CutTrees(ts[1..], o', i, num);
      var p := PrunedIn(ts[1..], o', i, num);
      FlatAllCons(ts[0], p);
      CutOutRight(a, b, FlatAll(p), o', n, i, num);
    }
  }

  // ---- json_tok_remove ----

  /** json_tok_remove: the tokens of the tree minus num children of the array or object at obj,
      from its child i at tok on.  What follows the tree is not moved along: behind the tree that is
      left stands what stood there before, so a lone terminator gives way to a token of the old tree. */
  method TokRemove(toks: seq<Tok>, obj: nat, tok: nat, num: nat, ghost root: Tree, ghost i: nat) returns (r: seq<Tok>)
    requires Wf(root) && Flat(root) <= toks && obj < |Flat(root)|
    requires i + num <= |NodeAt(root, obj).kids| && tok == obj + From(NodeAt(root, obj), i)
    ensures var left := Pruned(root, obj, i, num);
      && Wf(left) && |Flat(left)| <= |r| <= |toks| && |toks| - |r| == |Flat(root)| - |Flat(left)|
      && r == Flat(left) + toks[|Flat(left)|..|r|]
      && (|toks| == |Flat(root)| + 1 && |r| < |toks| ==> r == Flat(left) + [Flat(root)[|Flat(left)|]])
  {
    hide *;
    ghost var n := |Flat(root)|;
    assert toks[0..n] == Flat(root);
    FlatIsBuilt(toks, 0, n, root);
    NodeTokens(toks, root, obj);
    var end := Next(toks, 0, n);
    var src := SkipKids(toks, obj, tok, num, NodeAt(root, obj), i, n);
    SlidIsPruned(toks, root, obj, i, num, tok, src);
    r := Slid(toks, obj, tok, src, end, num);
    Stale(toks, Flat(root), Flat(Pruned(root, obj, i, num)), r);
  }

  /** One token behind the tree is replaced by one of the tree. */
  lemma Stale(toks: seq<Tok>, flat: seq<Tok>, left: seq<Tok>, r: seq<Tok>)
    requires flat <= toks && |left| <= |r| <= |toks| && |toks| - |r| == |flat| - |left|
    requires r == left + toks[|left|..|r|]
    ensures |toks| == |flat| + 1 && |r| < |toks| ==> |left| < |flat| && r == left + [flat[|left|]]
  {
    if |toks| == |flat| + 1 && |r| < |toks| {
      assert |r| == |left| + 1;
      assert toks[..|flat|][|left|] == flat[|left|];
    }
  }

  lemma NodeTokens(toks: seq<Tok>, root: Tree, obj: nat)
    requires Wf(root) && Flat(root) <= toks && obj < |Flat(root)|
    ensures Wf(NodeAt(root, obj)) && obj + |Flat(NodeAt(root, obj))| <= |Flat(root)| <= |toks|
    ensures toks[obj..obj + |Flat(NodeAt(root, obj))|] == Flat(NodeAt(root, obj))
  {
    NodeAtWf(root, obj);
    hide Flat, NodeAt;
    SubSlice(toks, Flat(root), obj, Flat(NodeAt(root, obj)));
  }

  lemma SlidIsPruned(toks: seq<Tok>, root: Tree, obj: nat, i: nat, num: nat, a: nat, b: nat)
    requires Wf(root) && Flat(root) <= toks && obj < |Flat(root)| && i + num <= |NodeAt(root, obj).kids|
    requires a == obj + From(NodeAt(root, obj), i) && b == obj + From(NodeAt(root, obj), i + num)
    ensures obj < a <= b <= |Flat(root)| && num <= toks[obj].size
    ensures var left, r := Pruned(root, obj, i, num), Slid(toks, obj, a, b, |Flat(root)|, num);
      && Wf(left) && |Flat(root)| - |Flat(left)| == b - a && |Flat(left)| <= |r|
      && r == Flat(left) + toks[|Flat(left)|..|r|]
  {
    hide Flat, FlatAll, NodeAt, Pruned, Wf, From, Slid, Cut;
    CutTree(root, obj, i, num);
    Moved(toks, Flat(root), obj, a, b, num);
  }

  lemma SubSlice(toks: seq<Tok>, flat: seq<Tok>, o: nat, sub: seq<Tok>)
    requires flat <= toks && o + |sub| <= |flat| && flat[o..o + |sub|] == sub
    ensures toks[o..o + |sub|] == sub
  {
    assert toks[..|flat|] == flat;
    assert toks[o..o + |sub|] == toks[..|flat|][o..o + |sub|];
  }

  /** The size written down, the tokens from b up to end moved to a, and the array cut shorter. */
  function Slid(toks: seq<Tok>, o: nat, a: nat, b: nat, end: nat, num: nat): (r: seq<Tok>)
    requires o < a <= b <= end <= |toks| && num <= toks[o].size
    ensures |r| == |toks| - (b - a)
  {
    var r := toks[o := toks[o].(size := toks[o].size - num)];
    var moved := r[b..end];
    (r[..a] + moved + r[a + |moved|..])[..|toks| - (b - a)]
  }

  /** memmove and truncation, on the tokens of the tree. */
  lemma Moved(toks: seq<Tok>, flat: seq<Tok>, o: nat, a: nat, b: nat, num: nat)
    requires flat <= toks && o < a <= b <= |flat| && num <= flat[o].size
    ensures toks[o] == flat[o] && |Cut(flat, o, a, b, num)| == |flat| - (b - a)
    ensures var cut, r := Cut(flat, o, a, b, num), Slid(toks, o, a, b, |flat|, num);
      |cut| <= |r| && r == cut + toks[|cut|..|r|]
  {
    var r0 := toks[o := toks[o].(size := toks[o].size - num)];
    var f0 := flat[o := flat[o].(size := flat[o].size - num)];
    assert r0[..|flat|] == f0;
    assert r0[..a] == f0[..a] && r0[b..|flat|] == flat[b..];
    var cut := Cut(flat, o, a, b, num);
    assert r0[..a] + r0[b..|flat|] == cut;
    assert r0[|cut|..] == toks[|cut|..];
  }

  /** The loop that steps over num children. */
  method SkipKids(toks: seq<Tok>, obj: nat, tok: nat, num: nat, ghost node: Tree, ghost i: nat, ghost end: nat)
      returns (src: nat)
    requires Wf(node) && end <= |toks| && obj + |Flat(node)| <= end && toks[obj..obj + |Flat(node)|] == Flat(node)
    requires i + num <= |node.kids| && tok == obj + From(node, i)
    ensures src == obj + From(node, i + num) <= end
  {
    hide Flat, FlatAll, Wf, Build;
    src := tok;
    for j: nat := 0 to num
      invariant src == obj + From(node, i + j)
    {
      KidAt(toks, obj, node, i + j, end);
      src := Next(toks, src, end);
    }
    FromMonotone(node, i + num, i + num);
  }

  lemma KidAt(toks: seq<Tok>, obj: nat, node: Tree, j: nat, end: nat)
    requires Wf(node) && end <= |toks| && obj + |Flat(node)| <= end && toks[obj..obj + |Flat(node)|] == Flat(node)
    requires j < |node.kids|
    ensures var p := obj + From(node, j);
      p <= end && Build(toks, p, end).Some? && Build(toks, p, end).value.next == obj + From(node, j + 1)
  {
    hide FlatAll, Flat, Wf, Build;
    var k, c, p := node.kids[j], node.kids[j + 1..], obj + From(node, j);
    FlatThree(node, j, 1);
    FlatDef(node);
    assert node.kids[j..j + 1] == [k] + [];
    FlatAllCons(k, []);
    NoTokens();
    var x := [node.tok] + FlatAll(node.kids[..j]);
    assert Flat(node) == x + (Flat(k) + FlatAll(c));
    Halves(toks, obj, x, Flat(k) + FlatAll(c));
    Halves(toks, p, Flat(k), FlatAll(c));
    KidWf(node, j);
    FlatIsBuilt(toks, p, end, k);
  }

  lemma NoTokens()
    ensures FlatAll([]) == []
  {
  }

  lemma KidWf(t: Tree, j: nat)
    requires Wf(t) && j < |t.kids|
    ensures Wf(t.kids[j])
  {
  }
}
