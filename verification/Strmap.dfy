/** The string map of ccan/ccan/strmap/strmap.c: a crit-bit tree over the bits of the strings,
    highest bit of the first byte first, with zero bits behind the end. */
module Strmap {
  import opened Wrappers
  import opened Words
  import opened CritTree

  /** A C string without its terminator. */
  type Char = c: int | 1 <= c < 256 witness 1
  type Str = seq<Char>

  /** byte_num and bit_num of a node. */
  datatype BitNum = BitNum(byteNum: nat, bitNum: nat)

  type StrTree<V> = Tree<BitNum, Str, V>

  /** The bits of byte i, the terminator and what is beyond it being zero. */
  function CharBits(s: Str, i: nat): (w: Word)
    ensures Below(w, 8)
  {
    assert Pow2(8) == 256;
    if i < |s| then Bits(s[i], 8) else {}
  }

  /** The direction a string takes at a node. */
  function Dir(b: BitNum, s: Str): bool {
    b.byteNum < |s| && b.bitNum in CharBits(s, b.byteNum)
  }

  /** Bit positions in the order of comparison. */
  function Pos(b: BitNum): nat
    requires b.bitNum < 8
  {
    8 * b.byteNum + (7 - b.bitNum)
  }

  function BitAt(s: Str, p: nat): bool {
    Dir(BitNum(p / 8, 7 - p % 8), s)
  }

  lemma PosBit(b: BitNum)
    requires b.bitNum < 8
    ensures BitNum(Pos(b) / 8, 7 - Pos(b) % 8) == b
    ensures forall s: Str :: BitAt(s, Pos(b)) == Dir(b, s)
  {
  }

  /** a and b agree on all bits before p. */
  ghost predicate SameBefore(a: Str, b: Str, p: nat) {
    forall q: nat :: q < p ==> BitAt(a, q) == BitAt(b, q)
  }

  // ---- Trees ----

  /** All keys of t agree before position p. */
  ghost predicate Uniform<V>(t: StrTree<V>, p: nat) {
    forall a, b :: a in Contents(t) && b in Contents(t) ==> SameBefore(a, b, p)
  }

  ghost predicate Agreeing<V>(t: StrTree<V>) {
    t.Node? ==> t.info.bitNum < 8 && Uniform(t, Pos(t.info)) && Agreeing(t.child0) && Agreeing(t.child1)
  }

  ghost predicate Wf<V>(t: StrTree<V>) {
    Agreeing(t) && Directed(Dir, t)
  }

  // ---- Strings and their bits ----

  lemma CharBitsValue(s: Str, i: nat)
    ensures LowBits(CharBits(s, i), 8) == if i < |s| then s[i] else 0
  {
    assert Pow2(8) == 256;
    if i < |s| { LowOfBits(s[i], 8); } else { LowOfNothing(8); }
  }

  lemma {:induction false} LowOfNothing(n: nat)
    ensures LowBits({}, n) == 0
  {
    if n > 0 { LowOfNothing(n - 1); }
  }

  /** Two strings with the same bits before the i-th byte have the same first i bytes, and end
      together if they end there. */
  lemma {:induction false} SameBytes(a: Str, b: Str, i: nat)
    requires SameBefore(a, b, 8 * i)
    ensures forall j :: 0 <= j < i ==> CharBits(a, j) == CharBits(b, j)
  {
    forall j | 0 <= j < i ensures CharBits(a, j) == CharBits(b, j) {
      forall bit: nat ensures bit in CharBits(a, j) <==> bit in CharBits(b, j) {
        if bit < 8 {
          var n := BitNum(j, bit);
          PosBit(n);
          assert BitAt(a, Pos(n)) == BitAt(b, Pos(n));
        }
      }
    }
  }

  /** C's strcmp order: by unsigned bytes, a prefix first. */
  predicate LexLess(a: Str, b: Str) {
    if b == [] then false
    else if a == [] then true
    else a[0] < b[0] || (a[0] == b[0] && LexLess(a[1..], b[1..]))
  }

  /** The first byte in which two strings differ decides. */
  lemma {:induction false} LexAt(a: Str, b: Str, i: nat)
    requires i <= |a| && i < |b| && (forall j :: 0 <= j < i ==> a[j] == b[j]) && (i == |a| || a[i] < b[i])
    ensures LexLess(a, b)
    decreases i
  {
    if i > 0 { LexAt(a[1..], b[1..], i - 1); }
  }

  /** The first bit in which two strings differ decides. */
  lemma BitDecides(a: Str, b: Str, p: nat)
    requires SameBefore(a, b, p) && BitAt(b, p) && !BitAt(a, p)
    ensures LexLess(a, b)
  {
    var i, bit := p / 8, 7 - p % 8;
    SameBytes(a, b, i);
    forall j | 0 <= j < i ensures (j < |a| <==> j < |b|) && (j < |a| ==> a[j] == b[j]) {
      CharBitsValue(a, j);
      CharBitsValue(b, j);
    }
    assert i < |b|;
    if i > 0 {
      CharBitsValue(a, i - 1);
      CharBitsValue(b, i - 1);
    }
    var x, y := CharBits(a, i), CharBits(b, i);
    forall e: nat | e > bit ensures e in x <==> e in y {
      if e < 8 {
        PosBit(BitNum(i, e));
        assert BitAt(a, Pos(BitNum(i, e))) == BitAt(b, Pos(BitNum(i, e)));
      }
    }
    LessAtIsLess(x, y, bit, 8);
    CharBitsValue(a, i);
    CharBitsValue(b, i);
    LexAt(a, b, i);
  }

  // ---- Finding ----

  /** closest: the entry that the bits of s lead to. */
  function Closest<V>(t: StrTree<V>, s: Str): (n: StrTree<V>)
    ensures n.Leaf?
  {
    if t.Leaf? then t else Closest(t.Child(Dir(t.info, s)), s)
  }

  method FindClosest<V>(t: StrTree<V>, s: Str) returns (n: StrTree<V>)
    ensures n == Closest(t, s)
  {
    n := t;
    while n.Node?
      invariant Closest(n, s) == Closest(t, s)
      decreases n
    {
      n := n.Child(Dir(n.info, s));
    }
  }

  lemma {:induction false} ClosestIsKey<V>(t: StrTree<V>, s: Str)
    requires Directed(Dir, t)
    ensures var n := Closest(t, s); n.key in Contents(t) && (s in Contents(t) <==> n.key == s)
    ensures s in Contents(t) ==> Contents(t)[s] == Closest(t, s).value
  {
    if t.Node? {
      ChildContents(Dir, t, s);
      ClosestIsKey(t.Child(Dir(t.info, s)), s);
    }
  }

  /** The byte at i, zero at the end. */
  function CharAt(s: Str, i: nat): nat {
    if i < |s| then s[i] else 0
  }

  lemma CharsApart(a: Str, b: Str, i: nat)
    requires CharAt(a, i) != CharAt(b, i)
    ensures CharBits(a, i) != CharBits(b, i)
  {
    CharBitsValue(a, i);
    CharBitsValue(b, i);
  }

  /** d is where a and b first differ. */
  ghost predicate FirstDiff(a: Str, b: Str, d: BitNum) {
    d.bitNum < 8 && SameBefore(a, b, Pos(d)) && Dir(d, a) != Dir(d, b)
  }

  /** The first difference of two strings, if they are not equal. */
  method Difference(a: Str, b: Str) returns (r: Option<BitNum>)
    ensures r.None? <==> a == b
    ensures r.Some? ==> FirstDiff(a, b, r.value)
  {
    hide CharBits;
    var i: nat := 0;
    while CharAt(a, i) == CharAt(b, i)
      invariant i <= |a| && i <= |b| && a[..i] == b[..i]
      decreases |a| - i
    {
      if i == |b| {
        assert a == a[..i] == b;
        return None;
      }
      assert a[..i + 1] == a[..i] + [a[i]] && b[..i + 1] == b[..i] + [b[i]];
      i := i + 1;
    }
    CharsApart(a, b, i);
    XorApart(CharBits(a, i), CharBits(b, i), 8);
    var bit := HighestBit(Xor(CharBits(a, i), CharBits(b, i)), 8);
    HighestIsFirst(a, b, i, bit);
    return Some(BitNum(i, bit));
  }

  lemma HighestIsFirst(a: Str, b: Str, i: nat, bit: nat)
    requires i <= |a| && i <= |b| && a[..i] == b[..i]
    requires bit in Xor(CharBits(a, i), CharBits(b, i))
    requires forall e :: e in Xor(CharBits(a, i), CharBits(b, i)) ==> e <= bit
    ensures bit < 8 && FirstDiff(a, b, BitNum(i, bit))
  {
    var d := BitNum(i, bit);
    forall q: nat | q < Pos(d) ensures BitAt(a, q) == BitAt(b, q) {
      var j, e := q / 8, 7 - q % 8;
      if j < i {
        assert a[j] == a[..i][j] == b[..i][j] == b[j];
      } else {
        assert e !in Xor(CharBits(a, i), CharBits(b, i));
      }
    }
  }

  // ---- Adding ----

  /** The nodes along p lie before position q. */
  ghost predicate PathBefore<V>(t: StrTree<V>, p: Path, q: nat)
    requires IsPath(t, p) && Agreeing(t)
    decreases |p|
  {
    p == [] || (Pos(t.info) < q && PathBefore(t.Child(p[0]), p[1..], q))
  }

  lemma {:induction false} PathBeforeExtend<V>(t: StrTree<V>, p: Path, q: nat, way: bool)
    requires IsPath(t, p) && Agreeing(t) && PathBefore(t, p, q) && At(t, p).Node? && IsPath(t, p + [way])
    ensures Agreeing(At(t, p)) && (Pos(At(t, p).info) < q ==> PathBefore(t, p + [way], q))
    decreases |p|
  {
    if p == [] {
      assert (p + [way])[1..] == [];
    } else {
      assert (p + [way])[1..] == p[1..] + [way];
      PathBeforeExtend(t.Child(p[0]), p[1..], q, way);
    }
  }

  lemma SameTrans(a: Str, b: Str, c: Str, p: nat, q: nat)
    requires SameBefore(a, b, p) && SameBefore(b, c, q)
    ensures forall r: nat :: r <= p && r <= q ==> SameBefore(a, c, r) && SameBefore(c, a, r)
  {
  }

  /** Writing a subtree with one key more, which agrees with a key below up to q. */
  lemma {:induction false} PutAgreeing<V>(t: StrTree<V>, p: Path, s: StrTree<V>, m: Str, near: Str, q: nat)
    requires IsPath(t, p) && Agreeing(t) && Agreeing(s) && PathBefore(t, p, q)
    requires near in Contents(At(t, p)) && SameBefore(near, m, q)
    requires forall k :: k in Contents(s) ==> k == m || k in Contents(At(t, p))
    ensures Agreeing(Put(t, p, s)) && (forall k :: k in Contents(Put(t, p, s)) ==> k == m || k in Contents(t))
    ensures near in Contents(t)
    decreases |p|
  {
    if p != [] {
      PutAgreeing(t.Child(p[0]), p[1..], s, m, near, q);
      var n := Put(t, p, s);
      var r := Pos(t.info);
      forall k | k in Contents(t) ensures SameBefore(k, m, r) && SameBefore(m, k, r) {
        SameTrans(k, near, m, r, q);
      }
      assert n.info == t.info && forall k :: k in Contents(n) ==> k == m || k in Contents(t);
      hide SameBefore;
      SameSelf(m, r);
      assert Uniform(n, r);
    }
  }

  lemma SameSelf(a: Str, p: nat)
    ensures SameBefore(a, a, p)
  {
  }

  /** The node that strmap_add_ puts over n. */
  function Split<V>(n: StrTree<V>, d: BitNum, m: Str, v: V): StrTree<V> {
    if Dir(d, m) then Node(d, n, Leaf(m, v)) else Node(d, Leaf(m, v), n)
  }

  lemma SplitAdds<V>(n: StrTree<V>, d: BitNum, m: Str, v: V, near: Str)
    requires Wf(n) && near in Contents(n) && FirstDiff(near, m, d) && (n.Node? ==> Pos(n.info) > Pos(d))
    ensures Wf(Split(n, d, m, v)) && m !in Contents(n) && Contents(Split(n, d, m, v)) == Contents(n)[m := v]
  {
    var q := Pos(d);
    forall k | k in Contents(n) ensures SameBefore(k, near, q + 1) {
      if n.Node? {
        assert SameBefore(k, near, Pos(n.info));
      } else {
        SameSelf(near, q + 1);
      }
    }
    PosBit(d);
    forall k | k in Contents(n) ensures Dir(d, k) != Dir(d, m) && SameBefore(k, m, q) && SameBefore(m, k, q) {
      assert BitAt(k, q) == BitAt(near, q);
      SameTrans(k, near, m, q, q);
    }
    hide SameBefore, FirstDiff, Dir;
    JoinLeaf(n, d, m, v);
  }

  lemma JoinLeaf<V>(n: StrTree<V>, d: BitNum, m: Str, v: V)
    requires Wf(n) && d.bitNum < 8
    requires forall k :: k in Contents(n) ==>
      Dir(d, k) != Dir(d, m) && SameBefore(k, m, Pos(d)) && SameBefore(m, k, Pos(d))
    requires Uniform(n, Pos(d))
    ensures Wf(Split(n, d, m, v)) && m !in Contents(n) && Contents(Split(n, d, m, v)) == Contents(n)[m := v]
  {
    hide SameBefore, Dir;
    var leaf: StrTree<V> := Leaf(m, v);
    LeafContents(leaf);
    UnionOne(Contents(n), m, v);
    SameSelf(m, Pos(d));
    assert AllGo(Dir, d, n, !Dir(d, m)) && AllGo(Dir, d, leaf, Dir(d, m));
    assert Uniform(Split(n, d, m, v), Pos(d));
  }

  // ---- Order and prefixes ----

  lemma ChildFacts<V>(t: StrTree<V>, way: bool)
    requires Wf(t) && t.Node?
    ensures Wf(t.Child(way)) && t.info.bitNum < 8
    ensures forall k :: k in Contents(t.Child(way)) ==> k in Contents(t) && Dir(t.info, k) == way
    ensures forall a, b :: a in Contents(t) && b in Contents(t) ==> SameBefore(a, b, Pos(t.info))
  {
    hide SameBefore, Dir;
    assert AllGo(Dir, t.info, t.Child(way), way);
  }

  /** Positions grow downwards. */
  lemma Deeper<V>(t: StrTree<V>, way: bool)
    requires Wf(t) && t.Node? && t.Child(way).Node?
    ensures Agreeing(t.Child(way)) && Pos(t.info) < Pos(t.Child(way).info)
  {
    ChildFacts(t, way);
    var c := t.Child(way);
    ChildFacts(c, false);
    ChildFacts(c, true);
    var a, b := First(c.child0).key, First(c.child1).key;
    NotEmpty(c.child0);
    NotEmpty(c.child1);
    PosBit(t.info);
    PosBit(c.info);
    assert a in Contents(c) && b in Contents(c);
    assert SameBefore(a, b, Pos(t.info));
    assert BitAt(a, Pos(t.info)) == BitAt(b, Pos(t.info)) && BitAt(a, Pos(c.info)) != BitAt(b, Pos(c.info));
  }

  /** Left keys come before right keys in the order of unsigned bytes. */
  lemma {:induction false} TreeOrdered<V>(t: StrTree<V>)
    requires Wf(t)
    ensures Ordered(LexLess, t)
  {
    if t.Node? {
      TreeOrdered(t.child0);
      TreeOrdered(t.child1);
      PosBit(t.info);
      forall a, b | a in Contents(t.child0) && b in Contents(t.child1) ensures LexLess(a, b) {
        assert a in Contents(t) && b in Contents(t);
        assert SameBefore(a, b, Pos(t.info));
        assert !Dir(t.info, a) && Dir(t.info, b);
        BitDecides(a, b, Pos(t.info));
      }
    }
  }

  /** strmap_iterate_ visits exactly the entries, in ascending order of unsigned bytes. */
  lemma IterationAscends<V>(t: StrTree<V>)
    requires Wf(t)
    ensures forall i, j :: 0 <= i < j < |InOrder(t)| ==> LexLess(InOrder(t)[i].0, InOrder(t)[j].0)
    ensures forall i :: 0 <= i < |InOrder(t)| ==>
      InOrder(t)[i].0 in Contents(t) && Contents(t)[InOrder(t)[i].0] == InOrder(t)[i].1
    ensures forall k :: k in Contents(t) ==> (k, Contents(t)[k]) in InOrder(t)
  {
    TreeOrdered(t);
    InOrderAscends(Dir, LexLess, t);
  }

  /** Agreeing with a string on the bits of its length is starting with it. */
  lemma PrefixBits(s: Str, prefix: Str)
    ensures SameBefore(s, prefix, 8 * |prefix|) <==> prefix <= s
  {
    if SameBefore(s, prefix, 8 * |prefix|) {
      SameBytes(s, prefix, |prefix|);
      forall j | 0 <= j < |prefix| ensures j < |s| && s[j] == prefix[j] {
        CharBitsValue(s, j);
        CharBitsValue(prefix, j);
      }
      if prefix != [] {
        CharBitsValue(s, |prefix| - 1);
        CharBitsValue(prefix, |prefix| - 1);
      }
    }
    if prefix <= s {
      forall q: nat | q < 8 * |prefix| ensures BitAt(s, q) == BitAt(prefix, q) {
        assert q / 8 < |prefix|;
        assert s[q / 8] == prefix[q / 8];
      }
    }
  }

  /** The entries of m whose keys start with prefix. */
  ghost function Starting<V>(m: map<Str, V>, prefix: Str): map<Str, V> {
    map k | k in m && prefix <= k :: m[k]
  }

  /** Where strmap_prefix_ stands: n is on the way down; top holds everything with the prefix;
      and either top is n, or top lies at or beyond the end of the prefix. */
  ghost predicate Descending<V>(root: StrTree<V>, top: StrTree<V>, n: StrTree<V>, prefix: Str) {
    && Wf(root) && Wf(top) && Wf(n)
    && (forall k :: k in Contents(top) ==> k in Contents(root) && Contents(root)[k] == Contents(top)[k])
    && (forall k :: k in Contents(root) && prefix <= k ==> k in Contents(top))
    && (forall k :: k in Contents(n) ==> k in Contents(top))
    && (n == top || (top.Node? && Pos(top.info) >= 8 * |prefix| && (n.Node? ==> Pos(n.info) > Pos(top.info))))
  }

  lemma DescendStep<V>(root: StrTree<V>, top: StrTree<V>, n: StrTree<V>, prefix: Str)
    requires Descending(root, top, n, prefix) && n.Node?
    ensures var c := n.Child(Dir(n.info, prefix));
      Descending(root, if n.info.byteNum < |prefix| then c else top, c, prefix)
  {
    var way := Dir(n.info, prefix);
    var c := n.Child(way);
    ChildFacts(n, way);
    if c.Node? { Deeper(n, way); }
    PosBit(n.info);
    if n.info.byteNum < |prefix| {
      assert n == top;
      forall k | k in Contents(root) && prefix <= k ensures k in Contents(c) {
        assert n.info.byteNum < |k| && k[n.info.byteNum] == prefix[n.info.byteNum];
        assert Dir(n.info, k) == way;
        ChildContents(Dir, n, k);
      }
      forall k | k in Contents(c) ensures k in Contents(root) && Contents(root)[k] == Contents(c)[k] {
        ChildContents(Dir, n, k);
      }
    } else {
      assert Pos(n.info) >= 8 * |prefix|;
    }
  }

  /** At the leaf: top is exactly what starts with the prefix, if the leaf does. */
  lemma DescendEnd<V>(root: StrTree<V>, top: StrTree<V>, n: StrTree<V>, prefix: Str)
    requires Descending(root, top, n, prefix) && n.Leaf?
    ensures prefix <= n.key ==> Contents(top) == Starting(Contents(root), prefix)
    ensures !(prefix <= n.key) ==> Starting(Contents(root), prefix) == map[]
  {
    LeafContents(n);
    assert n.key in Contents(top);
    forall k | k in Contents(top) ensures prefix <= k <==> prefix <= n.key {
      if top != n {
        assert SameBefore(k, n.key, Pos(top.info)) && SameBefore(n.key, k, Pos(top.info));
        PrefixBits(k, prefix);
        PrefixBits(n.key, prefix);
        var p := 8 * |prefix|;
        assert SameBefore(k, n.key, p) && SameBefore(n.key, k, p);
        if prefix <= k { SameTrans(n.key, k, prefix, p, p); }
        if prefix <= n.key { SameTrans(k, n.key, prefix, p, p); }
      }
    }
  }

  // ---- Operations ----

  lemma AddAt<V>(t: StrTree<V>, p: Path, n: StrTree<V>, d: BitNum, m: Str, v: V, near: Str)
    requires Wf(t) && IsPath(t, p) && At(t, p) == n && Leads(Dir, t, p, m) && FirstDiff(near, m, d)
    requires PathBefore(t, p, Pos(d)) && near in Contents(n) && Wf(n) && (n.Node? ==> Pos(n.info) > Pos(d))
    ensures Wf(Put(t, p, Split(n, d, m, v))) && m !in Contents(t)
    ensures Contents(Put(t, p, Split(n, d, m, v))) == Contents(t)[m := v]
  {
    SplitAdds(n, d, m, v, near);
    LeadsContents(Dir, t, p, m);
    hide Contents, Split, Dir;
    PutMore(Dir, t, p, Split(n, d, m, v), m, v);
    PutAgreeing(t, p, Split(n, d, m, v), m, near, Pos(d));
  }

  lemma {:induction false} PutPart<V>(t: StrTree<V>, p: Path, s: StrTree<V>)
    requires IsPath(t, p) && Agreeing(t) && Agreeing(s) && forall k :: k in Contents(s) ==> k in Contents(At(t, p))
    ensures Agreeing(Put(t, p, s)) && forall k :: k in Contents(Put(t, p, s)) ==> k in Contents(t)
    decreases |p|
  {
    if p != [] {
      PutPart(t.Child(p[0]), p[1..], s);
      hide SameBefore;
      var n := Put(t, p, s);
      assert n.info == t.info && forall k :: k in Contents(n) ==> k in Contents(t);
      assert Uniform(n, Pos(t.info));
    }
  }

  lemma {:induction false} AtWf<V>(t: StrTree<V>, p: Path)
    requires IsPath(t, p) && Wf(t)
    ensures Wf(At(t, p))
    decreases |p|
  {
    if p != [] {
      ChildFacts(t, p[0]);
      AtWf(t.Child(p[0]), p[1..]);
    }
  }

  lemma DelAt<V>(t: StrTree<V>, q: Path, m: Str)
    requires Wf(t) && IsPath(t, q) && Leads(Dir, t, q, m) && At(t, q).Node?
    requires var c := At(t, q).Child(Dir(At(t, q).info, m)); c.Leaf? && c.key == m
    ensures var s := Put(t, q, At(t, q).Child(!Dir(At(t, q).info, m))); Wf(s) && Contents(s) == Contents(t) - {m}
  {
    AtWf(t, q);
    DeleteAt(Dir, t, q, m);
    ChildFacts(At(t, q), !Dir(At(t, q).info, m));
    PutPart(t, q, At(t, q).Child(!Dir(At(t, q).info, m)));
  }

  class Strmap<V> {
    var root: Option<StrTree<V>>

    ghost predicate Valid()
      reads this
    {
      root.Some? ==> Wf(root.value)
    }

    /** The map that the tree stands for. */
    ghost function M(): map<Str, V>
      reads this
    {
      if root.Some? then Contents(root.value) else map[]
    }

    constructor ()
      ensures Valid() && M() == map[]
    {
      root := None;
    }

    /** strmap_get_. */
    method Get(m: Str) returns (r: Option<V>)
      requires Valid()
      ensures r == if m in M() then Some(M()[m]) else None
    {
      if root.None? { return None; }
      var n := FindClosest(root.value, m);
      ClosestIsKey(root.value, m);
      return if n.key == m then Some(n.value) else None;
    }

    /** strmap_add_: false when the string is there already. */
    method Add(m: Str, v: V) returns (ok: bool)
      requires Valid()
      modifies this
      ensures Valid() && ok == (m !in old(M()))
      ensures M() == if ok then old(M())[m := v] else old(M())
    {
      if root.None? {
        root := Some(Leaf(m, v));
        return true;
      }
      hide Contents, Agreeing, Directed, Dir, IsPath, SameBefore;
      var t := root.value;
      var near := FindClosest(t, m);
      ClosestIsKey(t, m);
      var d := Difference(near.key, m);
      if d.None? { return false; }
      var q := d.value;
      var n, p: Path := t, [];
      PathStart(Dir, t, m);
      while n.Node? && !Beyond(n.info, q)
        invariant root == Some(t) && Wf(t) && Wf(n) && IsPath(t, p) && At(t, p) == n && Leads(Dir, t, p, m)
        invariant PathBefore(t, p, Pos(q)) && Closest(n, m) == near
        decreases n
      {
        NodeFacts(n, m);
        NotAtDiff(n, m, q);
        PathExtend(Dir, t, p, m);
        var way := Dir(n.info, m);
        PathBeforeExtend(t, p, Pos(q), way);
        n, p := n.Child(way), p + [way];
      }
      NearIsBelow(n, m, q);
      AddAt(t, p, n, q, m, v, near.key);
      root := Some(Put(t, p, Split(n, q, m, v)));
      return true;
    }

    /** strmap_del_. */
    method Del(m: Str) returns (r: Option<V>)
      requires Valid()
      modifies this
      ensures Valid() && M() == old(M()) - {m}
      ensures r == if m in old(M()) then Some(old(M())[m]) else None
    {
      if root.None? { return None; }
      hide Contents, Agreeing, Directed, Dir, IsPath;
      var t := root.value;
      var n, p: Path := t, [];
      var parent: Option<Path> := None;
      PathStart(Dir, t, m);
      while n.Node?
        invariant root == Some(t) && Wf(t) && IsPath(t, p) && At(t, p) == n && Leads(Dir, t, p, m)
        invariant parent.None? ==> p == []
        invariant parent.Some? ==>
          && IsPath(t, parent.value) && At(t, parent.value).Node? && Leads(Dir, t, parent.value, m)
          && n == At(t, parent.value).Child(Dir(At(t, parent.value).info, m))
        decreases n
      {
        PathExtend(Dir, t, p, m);
        var way := Dir(n.info, m);
        parent := Some(p);
        n, p := n.Child(way), p + [way];
      }
      LeadsContents(Dir, t, p, m);
      LeafContents(n);
      if m != n.key {
        assert old(M()) - {m} == old(M());
        return None;
      }
      if parent.None? {
        root := None;
        assert old(M()) - {m} == map[];
      } else {
        var q := parent.value;
        DelAt(t, q, m);
        root := Some(Put(t, q, At(t, q).Child(!Dir(At(t, q).info, m))));
      }
      return Some(n.value);
    }

    /** strmap_prefix_: a subtree holding exactly the members with the prefix. */
    method Prefix(prefix: Str) returns (r: Option<StrTree<V>>)
      requires Valid()
      ensures r.Some? ==> Wf(r.value)
      ensures (if r.Some? then Contents(r.value) else map[]) == Starting(M(), prefix)
    {
      if root.None? { return None; }
      hide Descending, Contents, Dir, Wf;
      var top, n := root.value, root.value;
      DescendStart(root.value, prefix);
      while n.Node?
        invariant Descending(root.value, top, n, prefix)
        decreases n
      {
        DescendStep(root.value, top, n, prefix);
        var b := n.info;
        n := n.Child(Dir(b, prefix));
        if b.byteNum < |prefix| { top := n; }
      }
      DescendEnd(root.value, top, n, prefix);
      TopWf(root.value, top, n, prefix);
      return if prefix <= n.key then Some(top) else None;
    }
  }

  /** A node's bit comes after d: a later byte, or a lower bit of the same byte. */
  predicate Beyond(b: BitNum, d: BitNum) {
    b.byteNum > d.byteNum || (b.byteNum == d.byteNum && b.bitNum < d.bitNum)
  }

  lemma NodeFacts<V>(n: StrTree<V>, m: Str)
    requires Wf(n) && n.Node?
    ensures Wf(n.Child(Dir(n.info, m))) && n.info.bitNum < 8
  {
    ChildFacts(n, Dir(n.info, m));
  }

  /** No node on the way is at the difference itself, since the closest entry went the same way. */
  lemma NotAtDiff<V>(n: StrTree<V>, m: Str, d: BitNum)
    requires Wf(n) && n.Node? && FirstDiff(Closest(n, m).key, m, d) && !Beyond(n.info, d)
    ensures n.info.bitNum < 8 && Pos(n.info) < Pos(d)
  {
    var way := Dir(n.info, m);
    ChildFacts(n, way);
    ClosestIsKey(n.Child(way), m);
    assert Dir(n.info, Closest(n, m).key) == way;
    hide Dir;
    assert n.info != d;
  }

  lemma NearIsBelow<V>(n: StrTree<V>, m: Str, d: BitNum)
    requires Wf(n) && d.bitNum < 8 && (n.Node? ==> Beyond(n.info, d))
    ensures Closest(n, m).key in Contents(n)
    ensures n.Node? ==> n.info.bitNum < 8 && Pos(n.info) > Pos(d)
  {
    ClosestIsKey(n, m);
  }

  lemma DescendStart<V>(root: StrTree<V>, prefix: Str)
    requires Wf(root)
    ensures Descending(root, root, root, prefix)
  {
  }

  lemma TopWf<V>(root: StrTree<V>, top: StrTree<V>, n: StrTree<V>, prefix: Str)
    requires Descending(root, top, n, prefix)
    ensures Wf(top)
  {
  }
}
