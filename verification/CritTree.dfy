/** The trees under ccan/ccan/intmap/intmap.c and ccan/ccan/strmap/strmap.c: entries at the
    leaves, and nodes whose `info` tells for every key which child it belongs in.  A place that
    the C code writes through a pointer is named by the path of directions that leads to it. */
module CritTree {

  datatype Tree<I, K, V> = Leaf(key: K, value: V) | Node(info: I, child0: Tree<I, K, V>, child1: Tree<I, K, V>)
  {
    function Child(dir: bool): Tree<I, K, V>
      requires Node?
    {
      if dir then child1 else child0
    }
  }

  type Path = seq<bool>

  ghost function Contents<I, K, V>(t: Tree<I, K, V>): map<K, V> {
    match t
    case Leaf(k, v) => map[k := v]
    case Node(_, l, r) => Contents(l) + Contents(r)
  }

  ghost predicate AllGo<I, K, V>(dir: (I, K) -> bool, info: I, t: Tree<I, K, V>, way: bool) {
    forall k :: k in Contents(t) ==> dir(info, k) == way
  }

  /** Every key lies where the directions lead it. */
  ghost predicate Directed<I, K, V>(dir: (I, K) -> bool, t: Tree<I, K, V>) {
    t.Node? ==>
      && Directed(dir, t.child0) && Directed(dir, t.child1)
      && AllGo(dir, t.info, t.child0, false) && AllGo(dir, t.info, t.child1, true)
  }

  lemma ChildContents<I, K, V>(dir: (I, K) -> bool, t: Tree<I, K, V>, k: K)
    requires Directed(dir, t) && t.Node?
    ensures var n := t.Child(dir(t.info, k));
      (k in Contents(t) <==> k in Contents(n)) && (k in Contents(t) ==> Contents(t)[k] == Contents(n)[k])
  {
  }

  lemma LeafContents<I, K, V>(t: Tree<I, K, V>)
    requires t.Leaf?
    ensures Contents(t) == map[t.key := t.value] && First(t) == t == Last(t)
  {
  }

  lemma {:induction false} NotEmpty<I, K, V>(t: Tree<I, K, V>)
    ensures First(t).key in Contents(t)
  {
    if t.Node? { NotEmpty(t.child0); }
  }

  // ---- Paths ----

  predicate IsPath<I, K, V>(t: Tree<I, K, V>, p: Path)
    decreases |p|
  {
    p == [] || (t.Node? && IsPath(t.Child(p[0]), p[1..]))
  }

  /** What the pointer p points to. */
  function At<I, K, V>(t: Tree<I, K, V>, p: Path): Tree<I, K, V>
    requires IsPath(t, p)
    decreases |p|
  {
    if p == [] then t else At(t.Child(p[0]), p[1..])
  }

  /** Writing through the pointer p. */
  function Put<I, K, V>(t: Tree<I, K, V>, p: Path, s: Tree<I, K, V>): Tree<I, K, V>
    requires IsPath(t, p)
    decreases |p|
  {
    if p == [] then s
    else if p[0] then t.(child1 := Put(t.child1, p[1..], s))
    else t.(child0 := Put(t.child0, p[1..], s))
  }

  /** The directions along p are those of k. */
  ghost predicate Leads<I, K, V>(dir: (I, K) -> bool, t: Tree<I, K, V>, p: Path, k: K)
    requires IsPath(t, p)
    decreases |p|
  {
    p == [] || (p[0] == dir(t.info, k) && Leads(dir, t.Child(p[0]), p[1..], k))
  }

  lemma PathStart<I, K, V>(dir: (I, K) -> bool, t: Tree<I, K, V>, k: K)
    ensures IsPath(t, []) && At(t, []) == t && Leads(dir, t, [], k)
  {
  }

  lemma {:induction false} PathExtend<I, K, V>(dir: (I, K) -> bool, t: Tree<I, K, V>, p: Path, k: K)
    requires IsPath(t, p) && At(t, p).Node? && Leads(dir, t, p, k)
    ensures var n := At(t, p); var way := dir(n.info, k);
      IsPath(t, p + [way]) && At(t, p + [way]) == n.Child(way) && Leads(dir, t, p + [way], k)
    decreases |p|
  {
    var way := dir(At(t, p).info, k);
    if p == [] {
      assert (p + [way])[1..] == [];
    } else {
      PathExtend(dir, t.Child(p[0]), p[1..], k);
      assert (p + [way])[1..] == p[1..] + [way];
    }
  }

  lemma {:induction false} AtDirected<I, K, V>(dir: (I, K) -> bool, t: Tree<I, K, V>, p: Path)
    requires IsPath(t, p) && Directed(dir, t)
    ensures Directed(dir, At(t, p)) && forall k :: k in Contents(At(t, p)) ==> k in Contents(t)
    decreases |p|
  {
    if p != [] { AtDirected(dir, t.Child(p[0]), p[1..]); }
  }

  /** A key that p leads for is in the tree exactly when it is below p. */
  lemma {:induction false} LeadsContents<I, K, V>(dir: (I, K) -> bool, t: Tree<I, K, V>, p: Path, k: K)
    requires IsPath(t, p) && Directed(dir, t) && Leads(dir, t, p, k)
    ensures k in Contents(t) <==> k in Contents(At(t, p))
    ensures k in Contents(t) ==> Contents(t)[k] == Contents(At(t, p))[k]
    decreases |p|
  {
    if p != [] {
      ChildContents(dir, t, k);
      LeadsContents(dir, t.Child(p[0]), p[1..], k);
    }
  }

  lemma NotThere<I, K, V>(dir: (I, K) -> bool, info: I, t: Tree<I, K, V>, way: bool, k: K)
    requires AllGo(dir, info, t, way) && dir(info, k) != way
    ensures k !in Contents(t)
  {
  }

  lemma Unions<K, V>(a: map<K, V>, b: map<K, V>, k: K, v: V)
    ensures a + b[k := v] == (a + b)[k := v]
    ensures k !in b ==> a[k := v] + b == (a + b)[k := v]
    ensures k !in a ==> a + (b - {k}) == (a + b) - {k}
    ensures k !in b ==> (a - {k}) + b == (a + b) - {k}
  {
  }

  lemma UnionOne<K, V>(m: map<K, V>, k: K, v: V)
    requires k !in m
    ensures m + map[k := v] == m[k := v] && map[k := v] + m == m[k := v]
  {
  }

  /** One key more on one side of a node. */
  lemma NodeMore<I, K, V>(dir: (I, K) -> bool, info: I, l: Tree<I, K, V>, r: Tree<I, K, V>, s: Tree<I, K, V>, k: K,
                          v: V)
    requires Directed(dir, Node(info, l, r)) && Directed(dir, s)
    requires Contents(s) == Contents(if dir(info, k) then r else l)[k := v]
    ensures var n := if dir(info, k) then Node(info, l, s) else Node(info, s, r);
      Directed(dir, n) && Contents(n) == Contents(Node(info, l, r))[k := v]
  {
    Unions(Contents(l), Contents(r), k, v);
    if !dir(info, k) { NotThere(dir, info, r, true, k); }
  }

  /** Writing a subtree with one key more. */
  lemma {:induction false} PutMore<I, K, V>(dir: (I, K) -> bool, t: Tree<I, K, V>, p: Path, s: Tree<I, K, V>, k: K,
                                            v: V)
    requires IsPath(t, p) && Directed(dir, t) && Leads(dir, t, p, k) && Directed(dir, s)
    requires Contents(s) == Contents(At(t, p))[k := v]
    ensures Directed(dir, Put(t, p, s)) && Contents(Put(t, p, s)) == Contents(t)[k := v]
    decreases |p|
  {
    if p != [] {
      hide Contents, AllGo;
      PutMore(dir, t.Child(p[0]), p[1..], s, k, v);
      NodeMore(dir, t.info, t.child0, t.child1, Put(t.Child(p[0]), p[1..], s), k, v);
    }
  }

  /** One key less on one side of a node. */
  lemma NodeLess<I, K, V>(dir: (I, K) -> bool, info: I, l: Tree<I, K, V>, r: Tree<I, K, V>, s: Tree<I, K, V>, k: K,
                          v: V)
    requires Directed(dir, Node(info, l, r)) && Directed(dir, s)
    requires Contents(s) == Contents(if dir(info, k) then r else l) - {k}
    ensures var n := if dir(info, k) then Node(info, l, s) else Node(info, s, r);
      Directed(dir, n) && Contents(n) == Contents(Node(info, l, r)) - {k}
  {
    Unions(Contents(l), Contents(r), k, v);
    if dir(info, k) { NotThere(dir, info, l, false, k); } else { NotThere(dir, info, r, true, k); }
  }

  /** Writing a subtree with one key less. */
  lemma {:induction false} PutLess<I, K, V>(dir: (I, K) -> bool, t: Tree<I, K, V>, p: Path, s: Tree<I, K, V>, k: K,
                                            v: V)
    requires IsPath(t, p) && Directed(dir, t) && Leads(dir, t, p, k) && Directed(dir, s)
    requires Contents(s) == Contents(At(t, p)) - {k}
    ensures Directed(dir, Put(t, p, s)) && Contents(Put(t, p, s)) == Contents(t) - {k}
    decreases |p|
  {
    if p != [] {
      hide Contents, AllGo;
      PutLess(dir, t.Child(p[0]), p[1..], s, k, v);
      NodeLess(dir, t.info, t.child0, t.child1, Put(t.Child(p[0]), p[1..], s), k, v);
    }
  }

  /** Taking the leaf of k out: its parent at q gives way to the other child. */
  lemma DeleteAt<I, K, V>(dir: (I, K) -> bool, t: Tree<I, K, V>, q: Path, k: K)
    requires Directed(dir, t) && IsPath(t, q) && Leads(dir, t, q, k) && At(t, q).Node?
    requires var c := At(t, q).Child(dir(At(t, q).info, k)); c.Leaf? && c.key == k
    ensures var s := Put(t, q, At(t, q).Child(!dir(At(t, q).info, k)));
      Directed(dir, s) && Contents(s) == Contents(t) - {k}
  {
    AtDirected(dir, t, q);
    var n := At(t, q);
    var way := dir(n.info, k);
    NotThere(dir, n.info, n.Child(!way), !way, k);
    LeafContents(n.Child(way));
    assert Contents(n.Child(!way)) == Contents(n) - {k};
    hide Contents;
    PutLess(dir, t, q, n.Child(!way), k, n.Child(way).value);
  }

  // ---- Ends and order ----

  /** The leftmost and rightmost entries. */
  function First<I, K, V>(t: Tree<I, K, V>): (f: Tree<I, K, V>)
    ensures f.Leaf?
  {
    if t.Leaf? then t else First(t.child0)
  }

  function Last<I, K, V>(t: Tree<I, K, V>): (f: Tree<I, K, V>)
    ensures f.Leaf?
  {
    if t.Leaf? then t else Last(t.child1)
  }

  method Leftmost<I, K, V>(t: Tree<I, K, V>) returns (f: Tree<I, K, V>)
    ensures f == First(t)
  {
    f := t;
    while f.Node?
      invariant First(f) == First(t)
      decreases f
    {
      f := f.child0;
    }
  }

  method Rightmost<I, K, V>(t: Tree<I, K, V>) returns (f: Tree<I, K, V>)
    ensures f == Last(t)
  {
    f := t;
    while f.Node?
      invariant Last(f) == Last(t)
      decreases f
    {
      f := f.child1;
    }
  }

  /** Left keys precede right keys, everywhere in t. */
  ghost predicate Ordered<I, K, V>(less: (K, K) -> bool, t: Tree<I, K, V>) {
    t.Node? ==>
      && Ordered(less, t.child0) && Ordered(less, t.child1)
      && forall a, b :: a in Contents(t.child0) && b in Contents(t.child1) ==> less(a, b)
  }

  lemma {:induction false} FirstIsLeast<I, K, V>(dir: (I, K) -> bool, less: (K, K) -> bool, t: Tree<I, K, V>)
    requires Directed(dir, t) && Ordered(less, t)
    ensures First(t).key in Contents(t) && Contents(t)[First(t).key] == First(t).value
    ensures forall k :: k in Contents(t) ==> k == First(t).key || less(First(t).key, k)
  {
    if t.Node? {
      FirstIsLeast(dir, less, t.child0);
      assert First(t.child0).key !in Contents(t.child1);
    }
  }

  lemma {:induction false} LastIsGreatest<I, K, V>(dir: (I, K) -> bool, less: (K, K) -> bool, t: Tree<I, K, V>)
    requires Directed(dir, t) && Ordered(less, t)
    ensures Last(t).key in Contents(t) && Contents(t)[Last(t).key] == Last(t).value
    ensures forall k :: k in Contents(t) ==> k == Last(t).key || less(k, Last(t).key)
  {
    if t.Node? {
      LastIsGreatest(dir, less, t.child1);
    }
  }

  /** What iteration visits. */
  function InOrder<I, K, V>(t: Tree<I, K, V>): seq<(K, V)> {
    match t
    case Leaf(k, v) => [(k, v)]
    case Node(_, l, r) => InOrder(l) + InOrder(r)
  }

  /** Iteration visits exactly the entries, in strictly ascending order. */
  lemma {:induction false} InOrderAscends<I, K, V>(dir: (I, K) -> bool, less: (K, K) -> bool, t: Tree<I, K, V>)
    requires Directed(dir, t) && Ordered(less, t)
    ensures forall i, j :: 0 <= i < j < |InOrder(t)| ==> less(InOrder(t)[i].0, InOrder(t)[j].0)
    ensures forall i :: 0 <= i < |InOrder(t)| ==>
      InOrder(t)[i].0 in Contents(t) && Contents(t)[InOrder(t)[i].0] == InOrder(t)[i].1
    ensures forall k :: k in Contents(t) ==> (k, Contents(t)[k]) in InOrder(t)
  {
    match t
    case Leaf(_, _) =>
    case Node(info, l, r) =>
      InOrderAscends(dir, less, l);
      InOrderAscends(dir, less, r);
      var a, b := InOrder(l), InOrder(r);
      forall i | 0 <= i < |a| ensures a[i].0 !in Contents(r) { NotThere(dir, info, r, true, a[i].0); }
  }

  /** The recursive iterators: ascending until the handler says stop. */
  method Iterate<I, K, V>(t: Tree<I, K, V>, handle: (K, V) -> bool) returns (ok: bool, calls: seq<(K, V)>)
    ensures |calls| <= |InOrder(t)| && calls == InOrder(t)[..|calls|]
    ensures ok ==> calls == InOrder(t) && forall i :: 0 <= i < |calls| ==> handle(calls[i].0, calls[i].1)
    ensures !ok ==> calls != [] && !handle(calls[|calls| - 1].0, calls[|calls| - 1].1)
    ensures forall i :: 0 <= i < |calls| - 1 ==> handle(calls[i].0, calls[i].1)
  {
    match t
    case Leaf(k, v) =>
      calls := [(k, v)];
      ok := handle(k, v);
    case Node(_, l, r) =>
      ok, calls := Iterate(l, handle);
      if ok {
        var more;
        ok, more := Iterate(r, handle);
        calls := calls + more;
      }
  }
}
