/** The integer map of ccan/ccan/intmap/intmap.c: a crit-bit tree whose nodes hold the bits
    that all their keys share and the first bit in which they differ.  Indexes are 64-bit words. */
module Intmap {
  import opened Wrappers
  import opened Words
  import opened CritTree

  const BITS: nat := 64

  /** The value of a word. */
  function Num(w: Word): nat {
    LowBits(w, BITS)
  }

  /** bitops_ls64: the lowest one-bit from i on. */
  function LowestBit(w: Word, i: nat): (l: nat)
    requires Below(w, BITS) && w != {} && i <= BITS && forall j :: j in w ==> j >= i
    ensures l in w && forall j :: j in w ==> j >= l
    decreases BITS - i
  {
    if i in w then i else LowestBit(w, i + 1)
  }

  // ---- Order ----

  /** The order of different words is decided by the highest bit in which they differ. */
  lemma Differ(a: Word, b: Word) returns (d: nat)
    requires a != b && Below(a, BITS) && Below(b, BITS)
    ensures d < BITS && (LessAt(a, b, d) || LessAt(b, a, d))
  {
    XorApart(a, b, BITS);
    var x := Xor(a, b);
    d := HighestBit(x, BITS);
    assert forall e: nat :: e > d ==> e !in x;
  }

  lemma NumInjective(a: Word, b: Word)
    requires Below(a, BITS) && Below(b, BITS) && Num(a) == Num(b)
    ensures a == b
  {
    BitsOfLow(a, BITS);
    BitsOfLow(b, BITS);
    assert a * BitsBelow(BITS) == a && b * BitsBelow(BITS) == b;
  }

  lemma LessFromAt(a: Word, b: Word, d: nat)
    requires LessAt(a, b, d) && d < BITS
    ensures Num(a) < Num(b)
  {
    LessAtIsLess(a, b, d, BITS);
  }

  // ---- Trees ----

  type IntTree<V> = Tree<Word, Word, V>

  /** critbit. */
  function Crit(pac: Word): (c: nat)
    requires pac != {} && Below(pac, BITS)
    ensures c in pac && forall j :: j in pac ==> j >= c
  {
    LowestBit(pac, 0)
  }

  /** w & prefix_mask(c). */
  function Prefix(w: Word, c: nat): Word {
    w - BitsBelow(c + 1)
  }

  /** prefix_and_critbit(w, c). */
  function PrefixAndCrit(w: Word, c: nat): Word {
    (w - BitsBelow(c)) + {c}
  }

  /** Which child of a node with the given prefix_and_critbit an index belongs in. */
  function Dir(pac: Word, index: Word): bool {
    pac != {} && Below(pac, BITS) && Crit(pac) in index
  }

  /** Every key below shares the node's prefix. */
  ghost predicate Sharing<V>(t: IntTree<V>, pac: Word, c: nat) {
    forall k :: k in Contents(t) ==> Prefix(k, c) == Prefix(pac, c)
  }

  ghost predicate Prefixed<V>(t: IntTree<V>) {
    match t
    case Leaf(i, _) => Below(i, BITS)
    case Node(pac, l, r) =>
      && pac != {} && Below(pac, BITS) && Prefixed(l) && Prefixed(r)
      && Sharing(l, pac, Crit(pac)) && Sharing(r, pac, Crit(pac))
  }

  ghost predicate Wf<V>(t: IntTree<V>) {
    Prefixed(t) && Directed(Dir, t)
  }

  lemma {:induction false} KeysBelow<V>(t: IntTree<V>, k: Word)
    requires Prefixed(t) && k in Contents(t)
    ensures Below(k, BITS)
  {
    match t
    case Leaf(_, _) =>
    case Node(_, l, r) => if k in Contents(r) { KeysBelow(r, k); } else { KeysBelow(l, k); }
  }

  /** Every key of a node shares its prefix. */
  lemma NodePrefix<V>(t: IntTree<V>, k: Word)
    requires Prefixed(t) && t.Node? && k in Contents(t)
    ensures Prefix(k, Crit(t.info)) == Prefix(t.info, Crit(t.info))
  {
  }

  lemma NodeParts<V>(n: IntTree<V>)
    requires Wf(n) && n.Node?
    ensures n.info != {} && Below(n.info, BITS)
    ensures forall k :: Dir(n.info, k) <==> Crit(n.info) in k
    ensures Wf(n.child0) && Wf(n.child1)
    ensures forall k :: k in Contents(n.child0) ==>
      Crit(n.info) !in k && Prefix(k, Crit(n.info)) == Prefix(n.info, Crit(n.info))
    ensures forall k :: k in Contents(n.child1) ==>
      Crit(n.info) in k && Prefix(k, Crit(n.info)) == Prefix(n.info, Crit(n.info))
  {
    hide Crit, Prefix;
  }

  // ---- Writing below a path ----

  /** index agrees with the prefix of every node of p. */
  ghost predicate Agrees<V>(t: IntTree<V>, p: Path, index: Word)
    requires IsPath(t, p) && Prefixed(t)
    decreases |p|
  {
    p == [] || (Prefix(index, Crit(t.info)) == Prefix(t.info, Crit(t.info)) && Agrees(t.Child(p[0]), p[1..], index))
  }

  lemma {:induction false} AgreesExtend<V>(t: IntTree<V>, p: Path, index: Word, way: bool)
    requires IsPath(t, p) && Prefixed(t) && At(t, p).Node? && Agrees(t, p, index) && IsPath(t, p + [way])
    ensures Prefixed(At(t, p))
    ensures var n := At(t, p);
      Prefix(index, Crit(n.info)) == Prefix(n.info, Crit(n.info)) ==> Agrees(t, p + [way], index)
    decreases |p|
  {
    if p == [] {
      assert (p + [way])[1..] == [];
    } else {
      assert (p + [way])[1..] == p[1..] + [way];
      AgreesExtend(t.Child(p[0]), p[1..], index, way);
    }
  }

  /** Writing a subtree with keys that share the prefixes above it. */
  lemma {:induction false} PutPrefixed<V>(t: IntTree<V>, p: Path, s: IntTree<V>, index: Word)
    requires IsPath(t, p) && Prefixed(t) && Prefixed(s) && Agrees(t, p, index)
    requires forall k :: k in Contents(s) ==> k == index || k in Contents(At(t, p))
    ensures Prefixed(Put(t, p, s)) && forall k :: k in Contents(Put(t, p, s)) ==> k == index || k in Contents(t)
    decreases |p|
  {
    if p != [] {
      PutPrefixed(t.Child(p[0]), p[1..], s, index);
      hide Prefix, Crit;
    }
  }

  /** Writing a part of a subtree in its place. */
  lemma {:induction false} PutPart<V>(t: IntTree<V>, p: Path, s: IntTree<V>)
    requires IsPath(t, p) && Prefixed(t) && Prefixed(s) && forall k :: k in Contents(s) ==> k in Contents(At(t, p))
    ensures Prefixed(Put(t, p, s)) && forall k :: k in Contents(Put(t, p, s)) ==> k in Contents(t)
    decreases |p|
  {
    if p != [] {
      PutPart(t.Child(p[0]), p[1..], s);
      hide Prefix, Crit;
    }
  }

  lemma {:induction false} AtPrefixed<V>(t: IntTree<V>, p: Path)
    requires IsPath(t, p) && Prefixed(t)
    ensures Prefixed(At(t, p))
    decreases |p|
  {
    if p != [] { AtPrefixed(t.Child(p[0]), p[1..]); }
  }

  // ---- Splitting ----

  /** The keys of t agree with near above bit c, and index differs from near in bit w > c. */
  ghost predicate Splits<V>(t: IntTree<V>, near: Word, c: int, index: Word, w: nat) {
    && Below(near, BITS) && Below(index, BITS) && -1 <= c < w && (w in near <==> w !in index)
    && (forall k, i: nat :: k in Contents(t) && i > c ==> (i in k <==> i in near))
  }

  /** split_node. */
  function Split<V>(t: IntTree<V>, near: Word, index: Word, v: V): IntTree<V>
    requires Below(near, BITS) && Below(index, BITS) && near != index
  {
    XorApart(near, index, BITS);
    var c := HighestBit(Xor(near, index), BITS);
    var pac := PrefixAndCrit(index, c);
    if c in index then Node(pac, t, Leaf(index, v)) else Node(pac, Leaf(index, v), t)
  }

  /** Seen from the highest bit d in which near and index differ. */
  lemma SplitSide(k: Word, near: Word, index: Word, d: nat)
    requires Below(near, BITS) && Below(index, BITS) && near != index
    requires Xor(near, index) != {} && Below(Xor(near, index), BITS) && d == HighestBit(Xor(near, index), BITS)
    requires forall i: nat :: i >= d ==> (i in k <==> i in near)
    ensures Prefix(k, d) == Prefix(PrefixAndCrit(index, d), d) && (d in k <==> d !in index)
  {
    assert d in Xor(near, index);
    forall i: nat ensures i in Prefix(k, d) <==> i in Prefix(PrefixAndCrit(index, d), d) {
      if i > d { assert i !in Xor(near, index); }
    }
  }

  lemma SplitCrit(index: Word, d: nat)
    requires Below(index, BITS) && d < BITS
    ensures var pac := PrefixAndCrit(index, d); pac != {} && Below(pac, BITS) && Crit(pac) == d
    ensures Prefix(index, d) == Prefix(PrefixAndCrit(index, d), d)
  {
    assert d in PrefixAndCrit(index, d);
  }

  lemma SplitAdds<V>(t: IntTree<V>, near: Word, c: int, index: Word, v: V, w: nat)
    requires Wf(t) && Splits(t, near, c, index, w)
    ensures near != index && Wf(Split(t, near, index, v)) && index !in Contents(t)
    ensures Contents(Split(t, near, index, v)) == Contents(t)[index := v]
  {
    XorApart(near, index, BITS);
    var d := HighestBit(Xor(near, index), BITS);
    assert w in Xor(near, index) && d >= w;
    SplitCrit(index, d);
    var pac := PrefixAndCrit(index, d);
    forall k | k in Contents(t) ensures Prefix(k, d) == Prefix(pac, d) && (d in k <==> d !in index) {
      SplitSide(k, near, index, d);
    }
    hide Prefix, PrefixAndCrit, Crit, HighestBit;
    JoinLeaf(t, pac, d, index, v);
  }

  lemma JoinLeaf<V>(t: IntTree<V>, pac: Word, d: nat, index: Word, v: V)
    requires Wf(t) && Below(index, BITS) && pac != {} && Below(pac, BITS) && d == Crit(pac)
    requires Prefix(index, d) == Prefix(pac, d)
    requires forall k :: k in Contents(t) ==> Prefix(k, d) == Prefix(pac, d) && (d in k <==> d !in index)
    ensures index !in Contents(t)
    ensures var n := if d in index then Node(pac, t, Leaf(index, v)) else Node(pac, Leaf(index, v), t);
      Wf(n) && Contents(n) == Contents(t)[index := v]
  {
    hide Prefix, Crit;
    var leaf: IntTree<V> := Leaf(index, v);
    LeafContents(leaf);
    assert Prefixed(leaf) && Directed(Dir, leaf);
    assert Sharing(t, pac, d) && Sharing(leaf, pac, d);
    assert AllGo(Dir, pac, t, d !in index) && AllGo(Dir, pac, leaf, d in index);
    UnionOne(Contents(t), index, v);
  }

  /** The place where index leaves the prefix of a node. */
  lemma NodeSplits<V>(n: IntTree<V>, index: Word) returns (w: nat)
    requires Prefixed(n) && n.Node? && Below(index, BITS)
    requires Prefix(index, Crit(n.info)) != Prefix(n.info, Crit(n.info))
    ensures Splits(n, Prefix(n.info, Crit(n.info)), Crit(n.info), index, w)
  {
    var c := Crit(n.info);
    var near := Prefix(n.info, c);
    w :| (w in Prefix(index, c) && w !in near) || (w !in Prefix(index, c) && w in near);
    forall k, i: nat | k in Contents(n) && i > c ensures i in k <==> i in near {
      NodePrefix(n, k);
      assert i in k <==> i in Prefix(k, c);
    }
  }

  lemma LeafSplits<V>(n: IntTree<V>, index: Word) returns (w: nat)
    requires Prefixed(n) && n.Leaf? && Below(index, BITS) && index != n.key
    ensures Splits(n, n.key, -1, index, w)
  {
    w :| (w in index && w !in n.key) || (w !in index && w in n.key);
  }

  lemma AddAt<V>(t: IntTree<V>, p: Path, n: IntTree<V>, near: Word, c: int, index: Word, v: V, w: nat)
    requires Wf(t) && IsPath(t, p) && At(t, p) == n && Leads(Dir, t, p, index) && Agrees(t, p, index)
    requires Splits(n, near, c, index, w)
    ensures near != index && index !in Contents(t) && Wf(Put(t, p, Split(n, near, index, v)))
    ensures Contents(Put(t, p, Split(n, near, index, v))) == Contents(t)[index := v]
  {
    AtDirected(Dir, t, p);
    AtPrefixed(t, p);
    SplitAdds(n, near, c, index, v, w);
    hide Prefixed, Directed, Contents, Split, Splits;
    LeadsContents(Dir, t, p, index);
    PutMore(Dir, t, p, Split(n, near, index, v), index, v);
    PutPrefixed(t, p, Split(n, near, index, v), index);
  }

  lemma DelAt<V>(t: IntTree<V>, q: Path, index: Word)
    requires Wf(t) && IsPath(t, q) && Leads(Dir, t, q, index) && At(t, q).Node?
    requires var c := At(t, q).Child(Dir(At(t, q).info, index)); c.Leaf? && c.key == index
    ensures var s := Put(t, q, At(t, q).Child(!Dir(At(t, q).info, index)));
      Wf(s) && Contents(s) == Contents(t) - {index}
  {
    AtPrefixed(t, q);
    DeleteAt(Dir, t, q, index);
    PutPart(t, q, At(t, q).Child(!Dir(At(t, q).info, index)));
  }

  // ---- Order in the tree ----

  lemma SamePrefixLess(a: Word, b: Word, c: nat)
    requires Prefix(a, c) == Prefix(b, c) && c !in a && c in b && c < BITS
    ensures Num(a) < Num(b)
  {
    forall e: nat | e > c ensures e in a <==> e in b {
      assert e in a <==> e in Prefix(a, c);
      assert e in b <==> e in Prefix(b, c);
    }
    LessFromAt(a, b, c);
  }

  function NumLess(a: Word, b: Word): bool {
    Num(a) < Num(b)
  }

  /** Left keys are smaller than right keys. */
  lemma {:induction false} TreeOrdered<V>(t: IntTree<V>)
    requires Wf(t)
    ensures Ordered(NumLess, t)
  {
    if t.Node? {
      NodeParts(t);
      TreeOrdered(t.child0);
      TreeOrdered(t.child1);
      var c := Crit(t.info);
      hide Prefix, Crit, Num;
      forall a, b | a in Contents(t.child0) && b in Contents(t.child1) ensures NumLess(a, b) {
        SamePrefixLess(a, b, c);
      }
    }
  }

  lemma FirstFacts<V>(t: IntTree<V>)
    requires Wf(t)
    ensures First(t).key in Contents(t) && Contents(t)[First(t).key] == First(t).value
    ensures forall k :: k in Contents(t) ==> Num(First(t).key) <= Num(k)
  {
    TreeOrdered(t);
    FirstIsLeast(Dir, NumLess, t);
    hide Num;
  }

  lemma LastFacts<V>(t: IntTree<V>)
    requires Wf(t)
    ensures Last(t).key in Contents(t) && Contents(t)[Last(t).key] == Last(t).value
    ensures forall k :: k in Contents(t) ==> Num(k) <= Num(Last(t).key)
  {
    TreeOrdered(t);
    LastIsGreatest(Dir, NumLess, t);
    hide Num;
  }

  /** intmap_iterate_ visits exactly the entries, in strictly ascending order. */
  lemma IterationAscends<V>(t: IntTree<V>)
    requires Wf(t)
    ensures forall i, j :: 0 <= i < j < |InOrder(t)| ==> Num(InOrder(t)[i].0) < Num(InOrder(t)[j].0)
    ensures forall i :: 0 <= i < |InOrder(t)| ==>
      InOrder(t)[i].0 in Contents(t) && Contents(t)[InOrder(t)[i].0] == InOrder(t)[i].1
    ensures forall k :: k in Contents(t) ==> (k, Contents(t)[k]) in InOrder(t)
  {
    TreeOrdered(t);
    InOrderAscends(Dir, NumLess, t);
    hide Num;
  }

  /** Comparing the prefixes as intmap_after_ does: shifted down to the crit bit, which is set
      on both sides. */
  lemma PrefixOrder(index: Word, pac: Word, k: Word, c: nat)
    requires c in pac && Below(index, BITS) && Below(pac, BITS) && Below(k, BITS) && Prefix(k, c) == Prefix(pac, c)
    ensures Num(ShiftRight(index, c) + {0}) < Num(ShiftRight(pac, c)) ==> Num(index) < Num(k)
    ensures Num(ShiftRight(index, c) + {0}) > Num(ShiftRight(pac, c)) ==> Num(index) > Num(k)
    ensures Num(ShiftRight(index, c) + {0}) == Num(ShiftRight(pac, c)) ==> Prefix(index, c) == Prefix(pac, c)
  {
    hide Num, ShiftRight, Prefix;
    var a, b := ShiftRight(index, c) + {0}, ShiftRight(pac, c);
    ShiftedBits(index, pac, k, c);
    if a == b {
      SamePrefix(index, pac, c);
    } else {
      if Num(a) == Num(b) { NumInjective(a, b); }
      var d := Differ(a, b);
      assert d >= 1;
      if LessAt(a, b, d) { Unshift(a, b, d, index, k, c); } else { Unshift(b, a, d, k, index, c); }
    }
  }

  lemma ShiftedBits(index: Word, pac: Word, k: Word, c: nat)
    requires c in pac && Below(index, BITS) && Below(pac, BITS) && Below(k, BITS) && Prefix(k, c) == Prefix(pac, c)
    ensures Below(ShiftRight(index, c) + {0}, BITS) && Below(ShiftRight(pac, c), BITS) && 0 in ShiftRight(pac, c)
    ensures forall e: nat :: e >= 1 ==> (e in ShiftRight(pac, c) <==> c + e in k)
    ensures forall e: nat :: e >= 1 ==> (e in ShiftRight(index, c) + {0} <==> c + e in index)
  {
    ShiftBit(pac, c, 0);
    forall e: nat | e >= 1 ensures e in ShiftRight(pac, c) <==> c + e in k
      ensures e in ShiftRight(index, c) <==> c + e in index
    {
      ShiftBit(index, c, e);
      ShiftBit(pac, c, e);
      assert c + e in Prefix(k, c) <==> c + e in Prefix(pac, c);
    }
  }

  lemma SamePrefix(index: Word, pac: Word, c: nat)
    requires ShiftRight(index, c) + {0} == ShiftRight(pac, c)
    ensures Prefix(index, c) == Prefix(pac, c)
  {
    forall e: nat ensures e in Prefix(index, c) <==> e in Prefix(pac, c) {
      if e > c {
        ShiftBit(index, c, e - c);
        ShiftBit(pac, c, e - c);
        assert e - c in ShiftRight(index, c) + {0} <==> e - c in ShiftRight(pac, c);
      }
    }
  }

  lemma Unshift(a: Word, b: Word, d: nat, x: Word, y: Word, c: nat)
    requires LessAt(a, b, d) && d < BITS && Below(a, BITS) && Below(b, BITS) && Below(y, BITS)
    requires forall e: nat :: e >= d ==> (e in b <==> c + e in y)
    requires forall e: nat :: e >= d ==> (e in a <==> c + e in x)
    ensures Num(a) < Num(b) && Num(x) < Num(y)
  {
    LessFromAt(a, b, d);
    assert c + d in y;
    forall e: nat | e > c + d ensures e in x <==> e in y {
      assert e - c in a <==> c + (e - c) in x;
      assert e - c in b <==> c + (e - c) in y;
    }
    LessFromAt(x, y, c + d);
  }

  // ---- Operations ----

  /** r is the entry of m with the least index at or above that of `from`. */
  ghost predicate IsCeiling<V>(m: map<Word, V>, from: nat, r: Option<(Word, V)>) {
    match r
    case None => forall k :: k in m ==> Num(k) < from
    case Some((k, v)) =>
      k in m && m[k] == v && Num(k) >= from && forall j :: j in m && Num(j) >= from ==> Num(k) <= Num(j)
  }

  /** r is the entry of m with the greatest index at or below `from`. */
  ghost predicate IsFloor<V>(m: map<Word, V>, from: int, r: Option<(Word, V)>) {
    match r
    case None => forall k :: k in m ==> Num(k) > from
    case Some((k, v)) =>
      k in m && m[k] == v && Num(k) <= from && forall j :: j in m && Num(j) <= from ==> Num(j) <= Num(k)
  }

  /** Where intmap_after_ stands: the answer lies in n, or else is the first entry of what is
      to the right of the last left turn. */
  ghost predicate Seeking<V>(root: IntTree<V>, n: IntTree<V>, alt: Option<IntTree<V>>, from: nat) {
    && Wf(root) && Wf(n) && Within(n, root)
    && (alt.Some? ==> Wf(alt.value) && Within(alt.value, root) && Num(First(alt.value).key) >= from)
    && (alt.Some? ==> forall k :: k in Contents(n) ==> Num(k) < Num(First(alt.value).key))
    && (forall k :: k in Contents(root) && Num(k) >= from ==>
          k in Contents(n) || (alt.Some? && Num(First(alt.value).key) <= Num(k)))
  }

  ghost predicate Within<V>(n: IntTree<V>, root: IntTree<V>) {
    forall k :: k in Contents(n) ==> k in Contents(root) && Contents(root)[k] == Contents(n)[k]
  }

  lemma WithinChild<V>(n: IntTree<V>, root: IntTree<V>, dir: bool)
    requires Wf(n) && n.Node? && Within(n, root)
    ensures Within(n.Child(dir), root) && Wf(n.Child(dir))
  {
    NodeParts(n);
    hide Crit, Prefix;
    forall k | k in Contents(n.Child(dir)) ensures k in Contents(n) && Contents(n)[k] == Contents(n.Child(dir))[k] {
      ChildContents(Dir, n, k);
    }
  }

  /** Going left: everything on the right is above, in order. */
  lemma SeekLeft<V>(root: IntTree<V>, n: IntTree<V>, alt: Option<IntTree<V>>, index: Word)
    requires Seeking(root, n, alt, Num(index)) && n.Node? && Below(index, BITS)
    requires Prefix(index, Crit(n.info)) == Prefix(n.info, Crit(n.info)) && Crit(n.info) !in index
    ensures Seeking(root, n.child0, Some(n.child1), Num(index))
  {
    var c := Crit(n.info);
    WithinChild(n, root, false);
    WithinChild(n, root, true);
    FirstFacts(n.child1);
    var f := First(n.child1).key;
    NodeParts(n);
    SamePrefixLess(index, f, c);
    hide Num, Prefix, Crit, First;
    forall k | k in Contents(n.child0) ensures Num(k) < Num(f) { SamePrefixLess(k, f, c); }
    forall k | k in Contents(root) && Num(k) >= Num(index) ensures k in Contents(n.child0) || Num(f) <= Num(k) {
      if k !in Contents(n) { assert f in Contents(n); }
    }
  }

  /** Going right: everything on the left is below. */
  lemma SeekRight<V>(root: IntTree<V>, n: IntTree<V>, alt: Option<IntTree<V>>, index: Word)
    requires Seeking(root, n, alt, Num(index)) && n.Node? && Below(index, BITS)
    requires Prefix(index, Crit(n.info)) == Prefix(n.info, Crit(n.info)) && Crit(n.info) in index
    ensures Seeking(root, n.child1, alt, Num(index))
  {
    var c := Crit(n.info);
    WithinChild(n, root, true);
    forall k | k in Contents(n.child0) ensures Num(k) < Num(index) {
      NodeParts(n);
      SamePrefixLess(k, index, c);
    }
    hide Num, Prefix, Crit, First;
  }

  /** The whole of n lies above: its first entry is the answer. */
  lemma SeekAllAbove<V>(root: IntTree<V>, n: IntTree<V>, alt: Option<IntTree<V>>, from: nat)
    requires Seeking(root, n, alt, from) && forall k :: k in Contents(n) ==> Num(k) >= from
    ensures var f := First(n); IsCeiling(Contents(root), from, Some((f.key, f.value)))
  {
    FirstFacts(n);
    hide Num, First;
  }

  /** The whole of n lies below: the answer is on the right, if there is a right. */
  lemma SeekAllBelow<V>(root: IntTree<V>, n: IntTree<V>, alt: Option<IntTree<V>>, from: nat)
    requires Seeking(root, n, alt, from) && forall k :: k in Contents(n) ==> Num(k) < from
    ensures alt.None? ==> IsCeiling(Contents(root), from, None)
    ensures alt.Some? ==> var f := First(alt.value); IsCeiling(Contents(root), from, Some((f.key, f.value)))
  {
    if alt.Some? { FirstFacts(alt.value); }
    hide Num, First;
  }

  /** Where intmap_before_ stands: the answer lies in n, or else is the last entry of what is to
      the left of the last right turn. */
  ghost predicate SeekingDown<V>(root: IntTree<V>, n: IntTree<V>, alt: Option<IntTree<V>>, from: nat) {
    && Wf(root) && Wf(n) && Within(n, root)
    && (alt.Some? ==> Wf(alt.value) && Within(alt.value, root) && Num(Last(alt.value).key) <= from)
    && (alt.Some? ==> forall k :: k in Contents(n) ==> Num(Last(alt.value).key) < Num(k))
    && (forall k :: k in Contents(root) && Num(k) <= from ==>
          k in Contents(n) || (alt.Some? && Num(k) <= Num(Last(alt.value).key)))
  }

  lemma SeekDownRight<V>(root: IntTree<V>, n: IntTree<V>, alt: Option<IntTree<V>>, index: Word)
    requires SeekingDown(root, n, alt, Num(index)) && n.Node? && Below(index, BITS)
    requires Prefix(index, Crit(n.info)) == Prefix(n.info, Crit(n.info)) && Crit(n.info) in index
    ensures SeekingDown(root, n.child1, Some(n.child0), Num(index))
  {
    var c := Crit(n.info);
    WithinChild(n, root, false);
    WithinChild(n, root, true);
    LastFacts(n.child0);
    var f := Last(n.child0).key;
    NodeParts(n);
    SamePrefixLess(f, index, c);
    hide Num, Prefix, Crit, Last;
    forall k | k in Contents(n.child1) ensures Num(f) < Num(k) { SamePrefixLess(f, k, c); }
    forall k | k in Contents(root) && Num(k) <= Num(index) ensures k in Contents(n.child1) || Num(k) <= Num(f) {
      if k !in Contents(n) { assert f in Contents(n); }
    }
  }

  lemma SeekDownLeft<V>(root: IntTree<V>, n: IntTree<V>, alt: Option<IntTree<V>>, index: Word)
    requires SeekingDown(root, n, alt, Num(index)) && n.Node? && Below(index, BITS)
    requires Prefix(index, Crit(n.info)) == Prefix(n.info, Crit(n.info)) && Crit(n.info) !in index
    ensures SeekingDown(root, n.child0, alt, Num(index))
  {
    var c := Crit(n.info);
    WithinChild(n, root, false);
    forall k | k in Contents(n.child1) ensures Num(index) < Num(k) {
      NodeParts(n);
      SamePrefixLess(index, k, c);
    }
    hide Num, Prefix, Crit, Last;
  }

  lemma SeekDownAllBelow<V>(root: IntTree<V>, n: IntTree<V>, alt: Option<IntTree<V>>, from: nat)
    requires SeekingDown(root, n, alt, from) && forall k :: k in Contents(n) ==> Num(k) <= from
    ensures var f := Last(n); IsFloor(Contents(root), from, Some((f.key, f.value)))
  {
    LastFacts(n);
    hide Num, Last;
  }

  lemma SeekDownAllAbove<V>(root: IntTree<V>, n: IntTree<V>, alt: Option<IntTree<V>>, from: nat)
    requires SeekingDown(root, n, alt, from) && forall k :: k in Contents(n) ==> Num(k) > from
    ensures alt.None? ==> IsFloor(Contents(root), from, None)
    ensures alt.Some? ==> var f := Last(alt.value); IsFloor(Contents(root), from, Some((f.key, f.value)))
  {
    if alt.Some? { LastFacts(alt.value); }
    hide Num, Last;
  }

  lemma NodeOrder<V>(n: IntTree<V>, index: Word)
    requires Wf(n) && n.Node? && Below(index, BITS)
    ensures var c := Crit(n.info); var a, b := Num(ShiftRight(index, c) + {0}), Num(ShiftRight(n.info, c));
      && (a < b ==> forall k :: k in Contents(n) ==> Num(index) < Num(k))
      && (a > b ==> forall k :: k in Contents(n) ==> Num(k) < Num(index))
      && (a == b ==> Prefix(index, c) == Prefix(n.info, c))
  {
    var c := Crit(n.info);
    FirstFacts(n);
    hide Num, ShiftRight, Prefix;
    forall k | k in Contents(n)
      ensures Num(ShiftRight(index, c) + {0}) < Num(ShiftRight(n.info, c)) ==> Num(index) < Num(k)
      ensures Num(ShiftRight(index, c) + {0}) > Num(ShiftRight(n.info, c)) ==> Num(k) < Num(index)
      ensures Num(ShiftRight(index, c) + {0}) == Num(ShiftRight(n.info, c)) ==> Prefix(index, c) == Prefix(n.info, c)
    {
      NodePrefix(n, k);
      KeysBelow(n, k);
      PrefixOrder(index, n.info, k, c);
    }
  }

  /** index + 1 as a word. */
  lemma Successor(index: Word)
    requires Below(index, BITS) && Num(index) + 1 < Pow2(BITS)
    ensures Num(Bits(Num(index) + 1, BITS)) == Num(index) + 1
  {
    LowOfBits(Num(index) + 1, BITS);
  }

  /** index - 1 as a word. */
  lemma Predecessor(index: Word)
    requires Below(index, BITS) && 0 < Num(index) < Pow2(BITS)
    ensures Num(Bits(Num(index) - 1, BITS)) == Num(index) - 1
  {
    LowOfBits(Num(index) - 1, BITS);
  }

  lemma NumIsBelow(w: Word)
    ensures Num(w) < Pow2(BITS)
  {
  }

  class Intmap<V> {
    var root: Option<IntTree<V>>

    ghost predicate Valid()
      reads this
    {
      root.Some? ==> Wf(root.value)
    }

    /** The map that the tree stands for. */
    ghost function M(): map<Word, V>
      reads this
    {
      if root.Some? then Contents(root.value) else map[]
    }

    /** intmap_init_. */
    constructor ()
      ensures Valid() && M() == map[]
    {
      root := None;
    }

    /** intmap_get_. */
    method Get(index: Word) returns (r: Option<V>)
      requires Valid()
      ensures r == if index in M() then Some(M()[index]) else None
    {
      if root.None? { return None; }
      var n := root.value;
      while n.Node?
        invariant Wf(n) && (index in M() <==> index in Contents(n))
        invariant (index in M() ==> M()[index] == Contents(n)[index])
        decreases n
      {
        NodeParts(n);
        ChildContents(Dir, n, index);
        n := n.Child(Crit(n.info) in index);
      }
      return if index == n.key then Some(n.value) else None;
    }

    /** intmap_add_: false when the index is there already. */
    method Add(index: Word, v: V) returns (ok: bool)
      requires Valid() && Below(index, BITS)
      modifies this
      ensures Valid() && ok == (index !in old(M()))
      ensures M() == if ok then old(M())[index := v] else old(M())
    {
      if root.None? {
        root := Some(Leaf(index, v));
        return true;
      }
      hide Wf, Contents, Prefix, Crit, IsPath, Dir;
      var t := root.value;
      var n, p: Path := t, [];
      PathStart(Dir, t, index);
      WfParts(t);
      while n.Node?
        invariant root == Some(t) && Wf(t) && Prefixed(t) && Wf(n) && IsPath(t, p) && At(t, p) == n
        invariant Leads(Dir, t, p, index) && Agrees(t, p, index)
        decreases n
      {
        NodeParts(n);
        WfParts(n);
        if Prefix(index, Crit(n.info)) != Prefix(n.info, Crit(n.info)) {
          ghost var w := NodeSplits(n, index);
          AddAt(t, p, n, Prefix(n.info, Crit(n.info)), Crit(n.info), index, v, w);
          root := Some(Put(t, p, Split(n, Prefix(n.info, Crit(n.info)), index, v)));
          return true;
        }
        PathExtend(Dir, t, p, index);
        var dir := Crit(n.info) in index;
        AgreesExtend(t, p, index, dir);
        n, p := n.Child(dir), p + [dir];
      }
      KeyAt(t, p, index);
      if index == n.key { return false; }
      WfParts(n);
      ghost var w := LeafSplits(n, index);
      AddAt(t, p, n, n.key, -1, index, v, w);
      root := Some(Put(t, p, Split(n, n.key, index, v)));
      return true;
    }

    /** intmap_del_: the other child takes the parent's place. */
    method Del(index: Word) returns (r: Option<V>)
      requires Valid()
      modifies this
      ensures Valid() && M() == old(M()) - {index}
      ensures r == if index in old(M()) then Some(old(M())[index]) else None
    {
      if root.None? { return None; }
      hide Wf, Contents, Crit, IsPath, Dir;
      var t := root.value;
      var n, p: Path := t, [];
      var parent: Option<Path> := None;
      PathStart(Dir, t, index);
      while n.Node?
        invariant root == Some(t) && Wf(t) && Wf(n) && IsPath(t, p) && At(t, p) == n && Leads(Dir, t, p, index)
        invariant parent.None? ==> p == []
        invariant parent.Some? ==>
          && IsPath(t, parent.value) && At(t, parent.value).Node? && Leads(Dir, t, parent.value, index)
          && n == At(t, parent.value).Child(Dir(At(t, parent.value).info, index))
        decreases n
      {
        NodeParts(n);
        PathExtend(Dir, t, p, index);
        var dir := Crit(n.info) in index;
        parent := Some(p);
        n, p := n.Child(dir), p + [dir];
      }
      KeyAt(t, p, index);
      if index != n.key {
        assert old(M()) - {index} == old(M());
        return None;
      }
      if parent.None? {
        root := None;
        LeafContents(n);
        assert old(M()) - {index} == map[];
      } else {
        var q := parent.value;
        DelAt(t, q, index);
        root := Some(Put(t, q, At(t, q).Child(!Dir(At(t, q).info, index))));
      }
      return Some(n.value);
    }

    /** intmap_first_. */
    method FirstEntry() returns (r: Option<(Word, V)>)
      requires Valid()
      ensures IsCeiling(M(), 0, r)
    {
      if root.None? { return None; }
      var f := Leftmost(root.value);
      FirstFacts(root.value);
      hide Num;
      return Some((f.key, f.value));
    }

    /** intmap_last_. */
    method LastEntry() returns (r: Option<(Word, V)>)
      requires Valid()
      ensures IsFloor(M(), Pow2(BITS), r)
    {
      if root.None? { return None; }
      var f := Rightmost(root.value);
      LastFacts(root.value);
      forall k ensures Num(k) < Pow2(BITS) { NumIsBelow(k); }
      hide Num, Pow2;
      return Some((f.key, f.value));
    }

    /** intmap_after_: the entry with the least index above the given one, present or not. */
    method After(index: Word) returns (r: Option<(Word, V)>)
      requires Valid() && Below(index, BITS)
      ensures IsCeiling(M(), Num(index) + 1, r)
    {
      hide Num, Pow2, Wf, Contents, Bits, Seeking;
      NumIsBelow(index);
      forall k ensures Num(k) < Pow2(BITS) { NumIsBelow(k); }
      if Num(index) + 1 == Pow2(BITS) || root.None? {
        NothingStored(this);
        return None;
      }
      var next := Bits(Num(index) + 1, BITS);
      Successor(index);
      var n, prev: Option<IntTree<V>> := root.value, None;
      SeekStart(n, Num(next));
      while n.Node?
        invariant prev.Some? ==> prev.value.Node?
        invariant Seeking(root.value, n, if prev.Some? then Some(prev.value.child1) else None, Num(next))
        decreases n
      {
        ghost var alt := if prev.Some? then Some(prev.value.child1) else None;
        SeekingWf(root.value, n, alt, Num(next));
        NodeParts(n);
        NodeOrder(n, next);
        var crit := Crit(n.info);
        var idx, prefix := ShiftRight(next, crit) + {0}, ShiftRight(n.info, crit);
        if Num(idx) < Num(prefix) {
          SeekAllAbove(root.value, n, alt, Num(next));
          var f := Leftmost(n);
          return Some((f.key, f.value));
        } else if Num(idx) > Num(prefix) {
          SeekAllBelow(root.value, n, alt, Num(next));
          r := GreaterTree(prev);
          return;
        }
        if crit in next {
          SeekRight(root.value, n, alt, next);
          n := n.child1;
        } else {
          SeekLeft(root.value, n, alt, next);
          prev := Some(n);
          n := n.child0;
        }
      }
      ghost var alt := if prev.Some? then Some(prev.value.child1) else None;
      LeafContents(n);
      if Num(n.key) >= Num(next) {
        SeekAllAbove(root.value, n, alt, Num(next));
        return Some((n.key, n.value));
      }
      SeekAllBelow(root.value, n, alt, Num(next));
      r := GreaterTree(prev);
    }

    /** The tail of intmap_after_: back to the right of the last left turn. */
    method GreaterTree(prev: Option<IntTree<V>>) returns (r: Option<(Word, V)>)
      requires prev.Some? ==> prev.value.Node?
      ensures prev.None? ==> r == None
      ensures prev.Some? ==> var f := First(prev.value.child1); r == Some((f.key, f.value))
    {
      if prev.None? { return None; }
      var f := Leftmost(prev.value.child1);
      return Some((f.key, f.value));
    }

    /** intmap_before_: the entry with the greatest index below the given one, present or not. */
    method Before(index: Word) returns (r: Option<(Word, V)>)
      requires Valid() && Below(index, BITS)
      ensures IsFloor(M(), Num(index) - 1, r)
    {
      hide Num, Pow2, Wf, Contents, Bits, SeekingDown;
      NumIsBelow(index);
      forall k ensures Num(k) < Pow2(BITS) { NumIsBelow(k); }
      if Num(index) == 0 || root.None? {
        NothingStored(this);
        return None;
      }
      var next := Bits(Num(index) - 1, BITS);
      Predecessor(index);
      var n, prev: Option<IntTree<V>> := root.value, None;
      SeekDownStart(n, Num(next));
      while n.Node?
        invariant prev.Some? ==> prev.value.Node?
        invariant SeekingDown(root.value, n, if prev.Some? then Some(prev.value.child0) else None, Num(next))
        decreases n
      {
        ghost var alt := if prev.Some? then Some(prev.value.child0) else None;
        SeekingDownWf(root.value, n, alt, Num(next));
        NodeParts(n);
        NodeOrder(n, next);
        var crit := Crit(n.info);
        var idx, prefix := ShiftRight(next, crit) + {0}, ShiftRight(n.info, crit);
        if Num(idx) > Num(prefix) {
          SeekDownAllBelow(root.value, n, alt, Num(next));
          var f := Rightmost(n);
          return Some((f.key, f.value));
        } else if Num(idx) < Num(prefix) {
          SeekDownAllAbove(root.value, n, alt, Num(next));
          r := LesserTree(prev);
          return;
        }
        if crit in next {
          SeekDownRight(root.value, n, alt, next);
          prev := Some(n);
          n := n.child1;
        } else {
          SeekDownLeft(root.value, n, alt, next);
          n := n.child0;
        }
      }
      ghost var alt := if prev.Some? then Some(prev.value.child0) else None;
      LeafContents(n);
      if Num(n.key) <= Num(next) {
        SeekDownAllBelow(root.value, n, alt, Num(next));
        return Some((n.key, n.value));
      }
      SeekDownAllAbove(root.value, n, alt, Num(next));
      r := LesserTree(prev);
    }

    /** The tail of intmap_before_: back to the left of the last right turn. */
    method LesserTree(prev: Option<IntTree<V>>) returns (r: Option<(Word, V)>)
      requires prev.Some? ==> prev.value.Node?
      ensures prev.None? ==> r == None
      ensures prev.Some? ==> var f := Last(prev.value.child0); r == Some((f.key, f.value))
    {
      if prev.None? { return None; }
      var f := Rightmost(prev.value.child0);
      return Some((f.key, f.value));
    }
  }

  lemma WfParts<V>(t: IntTree<V>)
    requires Wf(t)
    ensures Prefixed(t) && Directed(Dir, t)
  {
  }

  /** At the leaf that index leads to. */
  lemma KeyAt<V>(t: IntTree<V>, p: Path, index: Word)
    requires Wf(t) && IsPath(t, p) && Leads(Dir, t, p, index) && At(t, p).Leaf?
    ensures var n := At(t, p);
      (index in Contents(t) <==> index == n.key) && (index in Contents(t) ==> Contents(t)[index] == n.value)
  {
    LeadsContents(Dir, t, p, index);
    LeafContents(At(t, p));
  }

  lemma SeekStart<V>(t: IntTree<V>, from: nat)
    requires Wf(t)
    ensures Seeking(t, t, None, from)
  {
  }

  lemma SeekDownStart<V>(t: IntTree<V>, from: nat)
    requires Wf(t)
    ensures SeekingDown(t, t, None, from)
  {
  }

  lemma SeekingDownWf<V>(root: IntTree<V>, n: IntTree<V>, alt: Option<IntTree<V>>, from: nat)
    requires SeekingDown(root, n, alt, from)
    ensures Wf(n)
  {
  }

  lemma SeekingWf<V>(root: IntTree<V>, n: IntTree<V>, alt: Option<IntTree<V>>, from: nat)
    requires Seeking(root, n, alt, from)
    ensures Wf(n)
  {
  }

  lemma NothingStored<V>(m: Intmap<V>)
    requires m.Valid()
    ensures m.root.None? ==>
      forall from: int :: (from >= 0 ==> IsCeiling(m.M(), from, None)) && IsFloor(m.M(), from, None)
    ensures forall k :: k in m.M() ==> Num(k) < Pow2(BITS)
  {
    forall k ensures Num(k) < Pow2(BITS) { NumIsBelow(k); }
  }
}
