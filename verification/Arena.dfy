/** The graph arena of common/gossmap.c as values: nodes and channels in growable arrays whose
    free slots form linked lists, adjacency lists in the nodes, and two indexes.

    The gossip store is a fixed map from offsets to channel announcements; the hash indexes
    are maps. */
module Arena {
  import opened Numbers
  import opened Graph

  type NodeId = nat
  type Scid = nat

  /** The largest arena a 31-bit node index can address. */
  const ARENA_MAX: nat := 0x7FFF_FFFF

  /** What a channel_announcement says, and how far its scid lies from its start. */
  datatype Ann = Ann(scid: Scid, id1: NodeId, id2: NodeId, plusScidOff: nat)

  /** The arrays and indexes, without the free-list heads. */
  datatype Map = Map(nodeArr: seq<Node>, chanArr: seq<Chan>, nodes: map<NodeId, nat>, channels: map<Scid, nat>)

  predicate LiveChan(m: Map, c: nat) {
    c < |m.chanArr| && m.chanArr[c].plusScidOff != 0
  }

  /** The graph that a search sees. */
  function GraphOf(m: Map): Graph {
    Graph(m.nodeArr, m.chanArr)
  }

  predicate LiveNode(m: Map, n: nat) {
    Live(GraphOf(m), n)
  }

  predicate HasEnd(ch: Chan, n: nat) {
    ch.half0.nodeidx == n || ch.half1.nodeidx == n
  }

  ghost predicate Distinct(s: seq<nat>) {
    forall i, j :: 0 <= i < j < |s| ==> s[i] != s[j]
  }

  // ---- Free lists ----

  /** Following `next` from head visits exactly `free`, without repeats, and ends at U32_MAX. */
  ghost predicate FreeChain(next: seq<nat>, head: nat, free: seq<nat>)
    decreases |free|
  {
    if free == [] then head == U32_MAX
    else
      && head == free[0] < |next| && head !in free[1..]
      && FreeChain(next, next[head], free[1..])
  }

  ghost function NodeLinks(a: seq<Node>): (r: seq<nat>)
    ensures |r| == |a| && forall i :: 0 <= i < |a| ==> r[i] == a[i].nannOff
  {
    seq(|a|, i requires 0 <= i < |a| => a[i].nannOff)
  }

  ghost function ChanLinks(a: seq<Chan>): (r: seq<nat>)
    ensures |r| == |a| && forall i :: 0 <= i < |a| ==> r[i] == a[i].cannOff
  {
    seq(|a|, i requires 0 <= i < |a| => a[i].cannOff)
  }

  /** The node arena splits into the free list, the nodes in limbo (taken but still without
      channels) and the live nodes. */
  ghost predicate NodesOk(a: seq<Node>, head: nat, free: seq<nat>, limbo: set<nat>) {
    && 0 < |a| <= ARENA_MAX
    && FreeChain(NodeLinks(a), head, free)
    && (forall x :: 0 <= x < |a| ==> (a[x].chanIdxs == [] <==> x in free || x in limbo))
    && (forall x :: x in limbo ==> x < |a| && x !in free)
  }

  ghost predicate ChansOk(a: seq<Chan>, head: nat, free: seq<nat>) {
    && 0 < |a| <= ARENA_MAX
    && FreeChain(ChanLinks(a), head, free)
    && forall x :: 0 <= x < |a| ==> (a[x].plusScidOff == 0 <==> x in free)
  }

  lemma {:induction false} FreeInRange(next: seq<nat>, head: nat, free: seq<nat>)
    requires FreeChain(next, head, free)
    ensures forall x :: x in free ==> x < |next|
    decreases |free|
  {
    if free != [] {
      FreeInRange(next, next[head], free[1..]);
      assert free == [head] + free[1..];
    }
  }

  /** Popping the head of a free list. */
  lemma FreePop(next: seq<nat>, head: nat, free: seq<nat>)
    requires FreeChain(next, head, free) && free != []
    ensures head == free[0] < |next| && FreeChain(next, next[head], free[1..]) && head !in free[1..]
    ensures forall x :: x in free <==> x == head || x in free[1..]
  {
    assert free == [head] + free[1..];
  }

  /** Entries off the list may change freely. */
  lemma {:induction false} FreeFrame(next: seq<nat>, next': seq<nat>, head: nat, free: seq<nat>)
    requires FreeChain(next, head, free) && |next| <= |next'|
    requires forall x :: x in free && x < |next| ==> next'[x] == next[x]
    ensures FreeChain(next', head, free)
    decreases |free|
  {
    if free != [] { FreeFrame(next, next', next[head], free[1..]); }
  }

  /** Freeing an entry pushes it on the list. */
  lemma FreePush(next: seq<nat>, head: nat, free: seq<nat>, x: nat)
    requires FreeChain(next, head, free) && x < |next| && x !in free
    ensures FreeChain(next[x := head], x, [x] + free)
  {
    FreeFrame(next, next[x := head], head, free);
    assert ([x] + free)[1..] == free;
  }

  /** The indices from lo up to hi. */
  ghost function Range(lo: nat, hi: nat): (r: seq<nat>)
    requires lo <= hi
    ensures |r| == hi - lo && forall i :: 0 <= i < |r| ==> r[i] == lo + i
  {
    seq(hi - lo, i requires 0 <= i => lo + i)
  }

  lemma RangeMembers(lo: nat, hi: nat)
    requires lo <= hi
    ensures forall x: nat :: x in Range(lo, hi) <==> lo <= x < hi
  {
    var r := Range(lo, hi);
    forall x: nat | lo <= x < hi ensures x in r { assert r[x - lo] == x; }
  }

  /** A freshly initialised stretch of an arena is one free list. */
  lemma {:induction false} FreeFresh(next: seq<nat>, lo: nat)
    requires lo < |next|
    requires forall i :: lo <= i < |next| ==> next[i] == (if i + 1 < |next| then i + 1 else U32_MAX)
    ensures FreeChain(next, lo, Range(lo, |next|))
    decreases |next| - lo
  {
    var r := Range(lo, |next|);
    RangeMembers(lo, |next|);
    if lo + 1 < |next| {
      FreeFresh(next, lo + 1);
      assert r[1..] == Range(lo + 1, |next|);
    } else {
      assert r[1..] == [];
    }
  }

  // ---- Adjacency and indexes ----

  /** Each live channel joins two distinct nodes and is listed exactly once at each; nothing
      else is listed. */
  ghost predicate Adjacent(m: Map) {
    && (forall n :: 0 <= n < |m.nodeArr| ==> Distinct(m.nodeArr[n].chanIdxs))
    && (forall n, c: nat :: 0 <= n < |m.nodeArr| ==>
          (c in m.nodeArr[n].chanIdxs <==> LiveChan(m, c) && HasEnd(m.chanArr[c], n)))
    && (forall c: nat :: LiveChan(m, c) ==> ChanOk(m.chanArr[c], |m.nodeArr|))
  }

  ghost predicate ChanOk(ch: Chan, n: nat) {
    && ch.half0.nodeidx != ch.half1.nodeidx && ch.half0.nodeidx < n && ch.half1.nodeidx < n
    && HalfInRange(ch.half0) && HalfInRange(ch.half1)
  }

  /** A live channel is indexed under its announcement's scid and node ids. */
  ghost predicate ChanIndexed(m: Map, anns: map<nat, Ann>, c: nat)
    requires c < |m.chanArr|
  {
    var ch := m.chanArr[c];
    && ch.cannOff in anns
    && var a := anns[ch.cannOff];
    && a.plusScidOff == ch.plusScidOff
    && a.scid in m.channels && m.channels[a.scid] == c
    && a.id1 in m.nodes && m.nodes[a.id1] == ch.half0.nodeidx
    && a.id2 in m.nodes && m.nodes[a.id2] == ch.half1.nodeidx
  }

  /** gossmap_node_get_id: the id is read from the node's first channel. */
  function IdAt(m: Map, anns: map<nat, Ann>, n: nat): NodeId
    requires LiveNode(m, n) && LiveChan(m, m.nodeArr[n].chanIdxs[0])
    requires m.chanArr[m.nodeArr[n].chanIdxs[0]].cannOff in anns
  {
    var ch := m.chanArr[m.nodeArr[n].chanIdxs[0]];
    var a := anns[ch.cannOff];
    EndId(ch, a, n)
  }

  ghost predicate ChansIndexed(m: Map, anns: map<nat, Ann>) {
    && (forall c: nat :: LiveChan(m, c) ==> ChanIndexed(m, anns, c))
    && (forall s :: s in m.channels ==> ScidIndexed(m, anns, s))
  }

  ghost predicate ScidIndexed(m: Map, anns: map<nat, Ann>, s: Scid)
    requires s in m.channels
  {
    && LiveChan(m, m.channels[s]) && m.chanArr[m.channels[s]].cannOff in anns
    && anns[m.chanArr[m.channels[s]].cannOff].scid == s
  }

  /** The node index is a bijection from ids to live nodes. */
  ghost predicate NodesIndexed(m: Map) {
    && (forall id :: id in m.nodes ==> LiveNode(m, m.nodes[id]))
    && (forall id, id' :: id in m.nodes && id' in m.nodes && m.nodes[id] == m.nodes[id'] ==> id == id')
    && (forall n: nat :: LiveNode(m, n) ==> exists id :: id in m.nodes && m.nodes[id] == n)
  }

  ghost predicate Indexed(m: Map, anns: map<nat, Ann>) {
    ChansIndexed(m, anns) && NodesIndexed(m)
  }

  ghost predicate ValidMap(m: Map, anns: map<nat, Ann>) {
    Adjacent(m) && Indexed(m, anns)
  }

  // ---- Taking slots ----

  /** a' is a with more free slots at its end and perhaps different links in the free ones. */
  ghost predicate NodesGrown(a: seq<Node>, a': seq<Node>) {
    && |a| <= |a'|
    && (forall x :: 0 <= x < |a| ==> a'[x].chanIdxs == a[x].chanIdxs)
    && (forall x :: 0 <= x < |a| && a[x].chanIdxs != [] ==> a'[x] == a[x])
    && (forall x :: |a| <= x < |a'| ==> a'[x].chanIdxs == [])
  }

  ghost predicate ChansGrown(a: seq<Chan>, a': seq<Chan>) {
    && |a| <= |a'|
    && (forall x :: 0 <= x < |a| ==> a'[x] == a[x])
    && (forall x :: |a| <= x < |a'| ==> a'[x].plusScidOff == 0)
  }

  /** init_node_arr: link the entries from start on into one list. */
  method InitNodeArr(a: seq<Node>, start: nat) returns (b: seq<Node>)
    requires start < |a|
    ensures |b| == |a| && b[..start] == a[..start]
    ensures forall i :: start <= i < |a| ==> b[i] == Node(if i + 1 < |a| then i + 1 else U32_MAX, [])
  {
    b := a;
    for i := start to |a| - 1
      invariant |b| == |a| && b[..start] == a[..start]
      invariant forall j :: start <= j < i ==> b[j] == Node(j + 1, [])
    {
      b := b[i := Node(i + 1, [])];
    }
    b := b[|a| - 1 := Node(U32_MAX, [])];
  }

  const NO_HALF: HalfChan := HalfChan(false, 0, 0, 0, 0, 0, 0)
  const NO_CHAN: Chan := Chan(0, 0, false, 0, 0, NO_HALF, NO_HALF)

  /** init_chan_arr. */
  method InitChanArr(a: seq<Chan>, start: nat) returns (b: seq<Chan>)
    requires start < |a|
    ensures |b| == |a| && b[..start] == a[..start]
    ensures forall i :: start <= i < |a| ==>
      b[i].plusScidOff == 0 && b[i].cannOff == (if i + 1 < |a| then i + 1 else U32_MAX)
  {
    b := a;
    for i := start to |a| - 1
      invariant |b| == |a| && b[..start] == a[..start]
      invariant forall j :: start <= j < i ==> b[j].plusScidOff == 0 && b[j].cannOff == j + 1
    {
      b := b[i := b[i].(cannOff := i + 1, plusScidOff := 0)];
    }
    b := b[|a| - 1 := b[|a| - 1].(cannOff := U32_MAX, plusScidOff := 0)];
  }

  /** Doubling a full node arena. */
  lemma DoubledNodes(a: seq<Node>, b: seq<Node>, head: nat, free: seq<nat>, limbo: set<nat>)
    requires NodesOk(a, head, free, limbo) && head == U32_MAX && |b| == 2 * |a| <= ARENA_MAX
    requires b[..|a|] == a
    requires forall i :: |a| <= i < |b| ==> b[i] == Node(if i + 1 < |b| then i + 1 else U32_MAX, [])
    ensures NodesOk(b, |a|, Range(|a|, |b|), limbo) && NodesGrown(a, b)
  {
    assert free == [];
    forall x | 0 <= x < |a| ensures b[x] == a[x] { assert b[x] == b[..|a|][x]; }
    FreeFresh(NodeLinks(b), |a|);
    RangeMembers(|a|, |b|);
  }

  /** Taking the first free node. */
  lemma TakeNode(a: seq<Node>, head: nat, free: seq<nat>, limbo: set<nat>)
    requires NodesOk(a, head, free, limbo) && head != U32_MAX
    ensures free != [] && head == free[0] < |a| && head !in limbo
    ensures NodesOk(a[head := Node(0, [])], a[head].nannOff, free[1..], limbo + {head})
    ensures NodesGrown(a, a[head := Node(0, [])])
  {
    FreePop(NodeLinks(a), head, free);
    var b := a[head := Node(0, [])];
    FreeFrame(NodeLinks(a), NodeLinks(b), a[head].nannOff, free[1..]);
  }

  lemma DoubledChans(a: seq<Chan>, b: seq<Chan>, head: nat, free: seq<nat>)
    requires ChansOk(a, head, free) && head == U32_MAX && |b| == 2 * |a| <= ARENA_MAX
    requires b[..|a|] == a
    requires forall i :: |a| <= i < |b| ==>
      b[i].plusScidOff == 0 && b[i].cannOff == (if i + 1 < |b| then i + 1 else U32_MAX)
    ensures ChansOk(b, |a|, Range(|a|, |b|)) && ChansGrown(a, b)
  {
    assert free == [];
    forall x | 0 <= x < |a| ensures b[x] == a[x] { assert b[x] == b[..|a|][x]; }
    FreeFresh(ChanLinks(b), |a|);
    RangeMembers(|a|, |b|);
  }

  lemma TakeChan(a: seq<Chan>, head: nat, free: seq<nat>, ch: Chan)
    requires ChansOk(a, head, free) && head != U32_MAX && ch.plusScidOff != 0
    ensures free != [] && head == free[0] < |a| && a[head].plusScidOff == 0
    ensures ChansOk(a[head := ch], a[head].cannOff, free[1..])
  {
    FreePop(ChanLinks(a), head, free);
    FreeFrame(ChanLinks(a), ChanLinks(a[head := ch]), a[head].cannOff, free[1..]);
  }

  // ---- Linking a channel ----

  /** What adding channel c with record ch under announcement a does to the graph: one new
      live channel, appended to the adjacency of both ends, whose nodes are created if their
      ids are new. */
  ghost predicate Added(m: Map, m': Map, a: Ann, ch: Chan, c: nat) {
    && |m.nodeArr| <= |m'.nodeArr| && |m.chanArr| <= |m'.chanArr|
    && !LiveChan(m, c) && c < |m'.chanArr| && m'.chanArr[c] == ch && ch.plusScidOff != 0
    && (forall x: nat :: x != c ==> (LiveChan(m', x) <==> LiveChan(m, x)))
    && (forall x: nat :: LiveChan(m, x) ==> x < |m'.chanArr| && m'.chanArr[x] == m.chanArr[x])
    && (forall n: nat :: LiveNode(m, n) ==>
          n < |m'.nodeArr| &&
          m'.nodeArr[n] == m.nodeArr[n].(chanIdxs := m.nodeArr[n].chanIdxs + if HasEnd(ch, n) then [c] else []))
    && (forall n: nat :: n < |m'.nodeArr| && !LiveNode(m, n) ==>
          m'.nodeArr[n].chanIdxs == if HasEnd(ch, n) then [c] else [])
    && (forall n: nat :: n < |m'.nodeArr| && !LiveNode(m, n) && HasEnd(ch, n) ==> m'.nodeArr[n].nannOff == 0)
    && m'.channels == m.channels[a.scid := c]
    && m'.nodes == m.nodes[a.id1 := ch.half0.nodeidx][a.id2 := ch.half1.nodeidx]
  }

  /** The end of a new channel: the node its id is indexed under, or a node without channels. */
  ghost predicate EndFor(m: Map, id: NodeId, n: nat) {
    if id in m.nodes then m.nodes[id] == n else !LiveNode(m, n)
  }

  lemma AddedIsAdjacent(m: Map, m': Map, a: Ann, ch: Chan, c: nat)
    requires Adjacent(m) && Added(m, m', a, ch, c) && ChanOk(ch, |m'.nodeArr|)
    ensures Adjacent(m')
  {
    forall x: nat | LiveChan(m', x) ensures ChanOk(m'.chanArr[x], |m'.nodeArr|) {
      if x != c { assert LiveChan(m, x) && ChanOk(m.chanArr[x], |m.nodeArr|); }
    }
    forall n: nat | n < |m'.nodeArr| ensures Distinct(m'.nodeArr[n].chanIdxs) {
      if LiveNode(m, n) {
        assert Distinct(m.nodeArr[n].chanIdxs) && c !in m.nodeArr[n].chanIdxs;
      }
    }
    forall n: nat, x: nat | n < |m'.nodeArr|
      ensures x in m'.nodeArr[n].chanIdxs <==> LiveChan(m', x) && HasEnd(m'.chanArr[x], n)
    {
      AddedListing(m, m', a, ch, c, n, x);
    }
  }

  lemma AddedListing(m: Map, m': Map, a: Ann, ch: Chan, c: nat, n: nat, x: nat)
    requires Adjacent(m) && Added(m, m', a, ch, c) && n < |m'.nodeArr|
    ensures x in m'.nodeArr[n].chanIdxs <==> LiveChan(m', x) && HasEnd(m'.chanArr[x], n)
  {
    if LiveNode(m, n) {
      assert x in m.nodeArr[n].chanIdxs <==> LiveChan(m, x) && HasEnd(m.chanArr[x], n);
    } else if LiveChan(m, x) {
      assert ChanOk(m.chanArr[x], |m.nodeArr|);
      assert n < |m.nodeArr| ==> (x in m.nodeArr[n].chanIdxs <==> HasEnd(m.chanArr[x], n));
    }
  }

  /** The preconditions of adding: a new scid, two different ids, and suitable ends. */
  ghost predicate Addable(m: Map, anns: map<nat, Ann>, a: Ann, ch: Chan) {
    && ch.cannOff in anns && anns[ch.cannOff] == a && a.plusScidOff == ch.plusScidOff
    && a.id1 != a.id2 && a.scid !in m.channels
    && EndFor(m, a.id1, ch.half0.nodeidx) && EndFor(m, a.id2, ch.half1.nodeidx)
  }

  lemma AddedChansIndexed(m: Map, m': Map, anns: map<nat, Ann>, a: Ann, ch: Chan, c: nat)
    requires Indexed(m, anns) && Added(m, m', a, ch, c) && Addable(m, anns, a, ch)
    ensures ChansIndexed(m', anns)
  {
    hide NodesIndexed;
    assert forall id :: id in m.nodes ==> id in m'.nodes && m'.nodes[id] == m.nodes[id];
    forall x: nat | LiveChan(m', x) ensures ChanIndexed(m', anns, x) {
      if x != c {
        assert LiveChan(m, x) && ChanIndexed(m, anns, x);
        assert anns[m.chanArr[x].cannOff].scid != a.scid;
      }
    }
    forall s | s in m'.channels ensures ScidIndexed(m', anns, s) {
      if s != a.scid { assert s in m.channels && ScidIndexed(m, anns, s); }
    }
  }

  lemma AddedLive(m: Map, m': Map, a: Ann, ch: Chan, c: nat)
    requires Added(m, m', a, ch, c) && ch.half0.nodeidx < |m'.nodeArr| && ch.half1.nodeidx < |m'.nodeArr|
    ensures forall n: nat :: LiveNode(m', n) <==> LiveNode(m, n) || HasEnd(ch, n)
    ensures forall id :: id in m'.nodes <==> id in m.nodes || id == a.id1 || id == a.id2
    ensures m'.nodes[a.id2] == ch.half1.nodeidx && (a.id1 != a.id2 ==> m'.nodes[a.id1] == ch.half0.nodeidx)
    ensures forall id :: id in m.nodes && id != a.id1 && id != a.id2 ==> m'.nodes[id] == m.nodes[id]
  {
  }

  lemma AddedNodesIndexed(m: Map, m': Map, anns: map<nat, Ann>, a: Ann, ch: Chan, c: nat)
    requires NodesIndexed(m) && Added(m, m', a, ch, c) && Addable(m, anns, a, ch) && ChanOk(ch, |m'.nodeArr|)
    ensures NodesIndexed(m')
  {
    AddedLive(m, m', a, ch, c);
    hide Added, LiveNode;
    assert forall id :: id in m.nodes ==> m'.nodes[id] == m.nodes[id];
    forall n: nat | LiveNode(m', n) ensures exists id :: id in m'.nodes && m'.nodes[id] == n {
      if n == ch.half0.nodeidx { assert a.id1 in m'.nodes && m'.nodes[a.id1] == n; }
      else if n == ch.half1.nodeidx { assert a.id2 in m'.nodes && m'.nodes[a.id2] == n; }
      else {
        var id :| id in m.nodes && m.nodes[id] == n;
        assert id in m'.nodes && m'.nodes[id] == n;
      }
    }
  }

  /** Adding a channel keeps the graph valid. */
  lemma AddedIsValid(m: Map, m': Map, anns: map<nat, Ann>, a: Ann, ch: Chan, c: nat)
    requires ValidMap(m, anns) && Added(m, m', a, ch, c) && Addable(m, anns, a, ch) && ChanOk(ch, |m'.nodeArr|)
    ensures ValidMap(m', anns)
  {
    hide Added, Addable, Adjacent, ChansIndexed, NodesIndexed;
    AddedIsAdjacent(m, m', a, ch, c);
    AddedChansIndexed(m, m', anns, a, ch, c);
    AddedNodesIndexed(m, m', anns, a, ch, c);
  }

  // ---- Unlinking a channel ----

  /** s without its first c, the rest in order. */
  function Without(s: seq<nat>, c: nat): seq<nat> {
    if s == [] then [] else if s[0] == c then s[1..] else [s[0]] + Without(s[1..], c)
  }

  lemma {:induction false} WithoutMembers(s: seq<nat>, c: nat)
    requires Distinct(s)
    ensures Distinct(Without(s, c)) && forall x :: x in Without(s, c) <==> x in s && x != c
  {
    if s != [] {
      assert s == [s[0]] + s[1..];
      assert s[0] !in s[1..];
      WithoutMembers(s[1..], c);
    }
  }

  lemma {:induction false} WithoutAt(s: seq<nat>, c: nat, i: nat)
    requires i < |s| && s[i] == c && c !in s[..i]
    ensures Without(s, c) == s[..i] + s[i + 1..]
  {
    if i > 0 {
      assert s[0] == s[..i][0];
      assert s[1..][..i - 1] == s[..i][1..];
      WithoutAt(s[1..], c, i - 1);
    }
  }

  /** What removing channel c under announcement a does to the graph: it leaves the adjacency
      of both ends, and an end without channels leaves the node index. */
  ghost predicate Removed(m: Map, m': Map, a: Ann, c: nat) {
    && |m.nodeArr| == |m'.nodeArr| && |m.chanArr| == |m'.chanArr|
    && LiveChan(m, c) && !LiveChan(m', c)
    && (forall x: nat :: x != c && x < |m.chanArr| ==> m'.chanArr[x] == m.chanArr[x])
    && (forall n :: 0 <= n < |m.nodeArr| ==> NodeAfter(m.nodeArr[n], m'.nodeArr[n], m.chanArr[c], n, c))
    && (forall s :: s in m'.channels <==> s in m.channels && s != a.scid)
    && (forall s :: s in m'.channels ==> m'.channels[s] == m.channels[s])
    && (forall id :: id in m'.nodes <==> id in m.nodes && !Dropped(m, m', a, c, id))
    && (forall id :: id in m'.nodes ==> m'.nodes[id] == m.nodes[id])
  }

  /** id names an end of channel c that has lost its last channel. */
  ghost predicate Dropped(m: Map, m': Map, a: Ann, c: nat, id: NodeId)
    requires c < |m.chanArr|
  {
    || (id == a.id1 && !LiveNode(m', m.chanArr[c].half0.nodeidx))
    || (id == a.id2 && !LiveNode(m', m.chanArr[c].half1.nodeidx))
  }

  ghost predicate NodeAfter(x: Node, x': Node, ch: Chan, n: nat, c: nat) {
    && x'.chanIdxs == (if HasEnd(ch, n) then Without(x.chanIdxs, c) else x.chanIdxs)
    && (x'.chanIdxs != [] ==> x'.nannOff == x.nannOff)
  }

  lemma RemovedIsAdjacent(m: Map, m': Map, a: Ann, c: nat)
    requires Adjacent(m) && Removed(m, m', a, c)
    ensures Adjacent(m')
  {
    assert forall x: nat :: LiveChan(m', x) <==> LiveChan(m, x) && x != c;
    forall n: nat | n < |m'.nodeArr| ensures Distinct(m'.nodeArr[n].chanIdxs) {
      assert NodeAfter(m.nodeArr[n], m'.nodeArr[n], m.chanArr[c], n, c);
      WithoutMembers(m.nodeArr[n].chanIdxs, c);
    }
    forall n: nat, x: nat | n < |m'.nodeArr|
      ensures x in m'.nodeArr[n].chanIdxs <==> LiveChan(m', x) && HasEnd(m'.chanArr[x], n)
    {
      assert NodeAfter(m.nodeArr[n], m'.nodeArr[n], m.chanArr[c], n, c);
      WithoutMembers(m.nodeArr[n].chanIdxs, c);
      assert x in m.nodeArr[n].chanIdxs <==> LiveChan(m, x) && HasEnd(m.chanArr[x], n);
    }
  }

  lemma RemovedLive(m: Map, m': Map, a: Ann, c: nat)
    requires Adjacent(m) && Removed(m, m', a, c)
    ensures forall n: nat :: LiveNode(m', n) ==> LiveNode(m, n)
    ensures forall n: nat :: LiveNode(m, n) && !HasEnd(m.chanArr[c], n) ==> LiveNode(m', n)
    ensures forall x: nat :: LiveChan(m', x) <==> LiveChan(m, x) && x != c
    ensures forall x: nat :: LiveChan(m', x) ==>
      LiveNode(m', m.chanArr[x].half0.nodeidx) && LiveNode(m', m.chanArr[x].half1.nodeidx)
  {
    RemovedIsAdjacent(m, m', a, c);
    forall n: nat | n < |m.nodeArr| ensures LiveNode(m', n) ==> LiveNode(m, n)
      ensures LiveNode(m, n) && !HasEnd(m.chanArr[c], n) ==> LiveNode(m', n)
    {
      assert NodeAfter(m.nodeArr[n], m'.nodeArr[n], m.chanArr[c], n, c);
    }
    forall x: nat | LiveChan(m', x)
      ensures LiveNode(m', m.chanArr[x].half0.nodeidx) && LiveNode(m', m.chanArr[x].half1.nodeidx)
    {
      assert ChanOk(m.chanArr[x], |m.nodeArr|);
      assert x in m'.nodeArr[m.chanArr[x].half0.nodeidx].chanIdxs;
      assert x in m'.nodeArr[m.chanArr[x].half1.nodeidx].chanIdxs;
    }
  }

  /** An id stays indexed exactly when its node stays live. */
  lemma RemovedIds(m: Map, m': Map, anns: map<nat, Ann>, a: Ann, c: nat)
    requires ValidMap(m, anns) && Removed(m, m', a, c)
    requires m.chanArr[c].cannOff in anns && anns[m.chanArr[c].cannOff] == a
    ensures forall id :: id in m'.nodes <==> id in m.nodes && LiveNode(m', m.nodes[id])
    ensures forall id :: id in m'.nodes ==> m'.nodes[id] == m.nodes[id]
  {
    RemovedLive(m, m', a, c);
    assert ChanIndexed(m, anns, c);
    hide Adjacent, ChansIndexed;
    forall id ensures id in m'.nodes <==> id in m.nodes && LiveNode(m', m.nodes[id]) {
      if id in m.nodes && id != a.id1 && id != a.id2 {
        assert LiveNode(m, m.nodes[id]);
        assert m.nodes[id] != m.nodes[a.id1] && m.nodes[id] != m.nodes[a.id2];
      }
    }
  }

  lemma RemovedChansIndexed(m: Map, m': Map, anns: map<nat, Ann>, a: Ann, c: nat)
    requires ValidMap(m, anns) && Removed(m, m', a, c)
    requires m.chanArr[c].cannOff in anns && anns[m.chanArr[c].cannOff] == a
    ensures ChansIndexed(m', anns)
  {
    hide Adjacent, NodesIndexed, ChanIndexed, ScidIndexed, NodeAfter, Dropped;
    forall x: nat | LiveChan(m', x) ensures ChanIndexed(m', anns, x) {
      RemovedChanIndexed(m, m', anns, a, c, x);
    }
    RemovedKeepsScids(m, m', anns, a, c);
  }

  lemma RemovedChanIndexed(m: Map, m': Map, anns: map<nat, Ann>, a: Ann, c: nat, x: nat)
    requires ValidMap(m, anns) && Removed(m, m', a, c) && LiveChan(m', x)
    requires m.chanArr[c].cannOff in anns && anns[m.chanArr[c].cannOff] == a
    ensures ChanIndexed(m', anns, x)
  {
    assert LiveChan(m, c);
    hide Adjacent, NodesIndexed, Removed, ScidIndexed;
    RemovedLive(m, m', a, c);
    RemovedIds(m, m', anns, a, c);
    assert ChanIndexed(m, anns, x) && ChanIndexed(m, anns, c);
    hide ChansIndexed, ChanIndexed;
    RemovedKeepsChan(m, m', anns, a, c, x);
  }

  lemma RemovedKeepsScids(m: Map, m': Map, anns: map<nat, Ann>, a: Ann, c: nat)
    requires Removed(m, m', a, c) && ChansIndexed(m, anns)
    requires m.chanArr[c].cannOff in anns && anns[m.chanArr[c].cannOff] == a
    ensures forall s :: s in m'.channels ==> ScidIndexed(m', anns, s)
  {
    hide NodeAfter, Dropped, ChanIndexed;
    forall s | s in m'.channels ensures ScidIndexed(m', anns, s) {
      assert s in m.channels && ScidIndexed(m, anns, s);
      assert m.channels[s] != c;
    }
  }

  lemma RemovedKeepsChan(m: Map, m': Map, anns: map<nat, Ann>, a: Ann, c: nat, x: nat)
    requires Removed(m, m', a, c) && LiveChan(m, x) && x != c
    requires ChanIndexed(m, anns, x) && ChanIndexed(m, anns, c) && anns[m.chanArr[c].cannOff] == a
    requires LiveNode(m', m.chanArr[x].half0.nodeidx) && LiveNode(m', m.chanArr[x].half1.nodeidx)
    requires forall id :: id in m'.nodes <==> id in m.nodes && LiveNode(m', m.nodes[id])
    ensures ChanIndexed(m', anns, x)
  {
    var b := anns[m.chanArr[x].cannOff];
    assert b.scid != a.scid;
    assert b.id1 in m'.nodes && b.id2 in m'.nodes;
    assert b.scid in m'.channels;
  }

  lemma RemovedNodesIndexed(m: Map, m': Map, anns: map<nat, Ann>, a: Ann, c: nat)
    requires ValidMap(m, anns) && Removed(m, m', a, c)
    requires m.chanArr[c].cannOff in anns && anns[m.chanArr[c].cannOff] == a
    ensures NodesIndexed(m')
  {
    RemovedLive(m, m', a, c);
    RemovedIds(m, m', anns, a, c);
    hide Adjacent, ChansIndexed, Removed;
    forall n: nat | LiveNode(m', n) ensures exists id :: id in m'.nodes && m'.nodes[id] == n {
      var id :| id in m.nodes && m.nodes[id] == n;
      assert id in m'.nodes && m'.nodes[id] == n;
    }
  }

  lemma RemovedIsValid(m: Map, m': Map, anns: map<nat, Ann>, a: Ann, c: nat)
    requires ValidMap(m, anns) && Removed(m, m', a, c)
    requires m.chanArr[c].cannOff in anns && anns[m.chanArr[c].cannOff] == a
    ensures ValidMap(m', anns)
  {
    hide Removed, Adjacent, ChansIndexed, NodesIndexed;
    RemovedIsAdjacent(m, m', a, c);
    RemovedChansIndexed(m, m', anns, a, c);
    RemovedNodesIndexed(m, m', anns, a, c);
  }

  /** node_add_channel at both ends of a new channel. */
  function LinkBoth(a: seq<Node>, n0: nat, n1: nat, c: nat): (b: seq<Node>)
    requires n0 < |a| && n1 < |a|
    ensures |b| == |a|
  {
    var a1 := a[n0 := a[n0].(chanIdxs := a[n0].chanIdxs + [c])];
    a1[n1 := a1[n1].(chanIdxs := a1[n1].chanIdxs + [c])]
  }

  /** Listing a channel takes its ends out of limbo. */
  lemma LinkedNodesOk(a: seq<Node>, head: nat, free: seq<nat>, limbo: set<nat>, n0: nat, n1: nat, c: nat)
    requires NodesOk(a, head, free, limbo) && n0 < |a| && n1 < |a| && n0 != n1
    requires n0 !in free && n1 !in free && limbo <= {n0, n1}
    ensures NodesOk(LinkBoth(a, n0, n1, c), head, free, {})
  {
    var b := LinkBoth(a, n0, n1, c);
    FreeFrame(NodeLinks(a), NodeLinks(b), head, free);
    hide FreeChain;
    forall x | 0 <= x < |b| ensures b[x].chanIdxs == [] <==> x in free {
      if x == n0 || x == n1 { assert c in b[x].chanIdxs; }
      else { assert x !in limbo; }
    }
  }

  /** The node index once both ends are in it; an end that was there keeps its place. */
  function IndexEnds(nodes: map<NodeId, nat>, a: Ann, n0: nat, n1: nat): map<NodeId, nat> {
    nodes[a.id1 := n0][a.id2 := n1]
  }

  /** b is a with ch in a free slot c, and perhaps more free slots. */
  ghost predicate ChanPut(a: seq<Chan>, b: seq<Chan>, ch: Chan, c: nat) {
    && |a| <= |b| && c < |b| && b[c] == ch && ch.plusScidOff != 0
    && (c < |a| ==> a[c].plusScidOff == 0)
    && (forall x: nat :: x < |a| && x != c ==> b[x] == a[x])
    && (forall x: nat :: |a| <= x < |b| && x != c ==> b[x].plusScidOff == 0)
  }

  lemma PutIsThere(a: seq<Chan>, b: seq<Chan>, ch: Chan, c: nat)
    requires ChanPut(a, b, ch, c)
    ensures c < |b| && b[c] == ch
  {
  }

  ghost predicate FreshEnd(a: seq<Node>, n: nat)
    requires n < |a|
  {
    a[n].chanIdxs == [] ==> a[n].nannOff == 0
  }

  /** A graph m whose arenas have grown to a and b, with ch in slot c and both ends linked. */
  lemma LinkedIsAdded(m: Map, a: seq<Node>, b: seq<Chan>, anns: map<nat, Ann>, an: Ann, ch: Chan, c: nat)
    requires ValidMap(m, anns) && NodesGrown(m.nodeArr, a)
    requires ChanPut(m.chanArr, b, ch, c)
    requires ch.half0.nodeidx < |a| && ch.half1.nodeidx < |a| && ch.half0.nodeidx != ch.half1.nodeidx
    requires FreshEnd(a, ch.half0.nodeidx) && FreshEnd(a, ch.half1.nodeidx)
    ensures Added(m, Map(LinkBoth(a, ch.half0.nodeidx, ch.half1.nodeidx, c), b,
                         IndexEnds(m.nodes, an, ch.half0.nodeidx, ch.half1.nodeidx),
                         m.channels[an.scid := c]), an, ch, c)
  {
    hide ValidMap;
  }

  lemma NewIsAddable(m: Map, anns: map<nat, Ann>, a: Ann, ch: Chan)
    requires ch.cannOff in anns && anns[ch.cannOff] == a && a.plusScidOff == ch.plusScidOff
    requires a.id1 != a.id2 && a.scid !in m.channels
    requires EndFor(m, a.id1, ch.half0.nodeidx) && EndFor(m, a.id2, ch.half1.nodeidx)
    ensures Addable(m, anns, a, ch)
  {
  }

  lemma NewIsOk(ch: Chan, n: nat)
    requires ch.half0 == NO_HALF.(nodeidx := ch.half0.nodeidx) && ch.half1 == NO_HALF.(nodeidx := ch.half1.nodeidx)
    requires ch.half0.nodeidx != ch.half1.nodeidx && ch.half0.nodeidx < n && ch.half1.nodeidx < n
    ensures ChanOk(ch, n)
  {
  }

  /** remove_node's effect on the arena. */
  lemma FreedNodeOk(a: seq<Node>, head: nat, free: seq<nat>, n: nat)
    requires NodesOk(a, head, free, {}) && n < |a| && a[n].chanIdxs != []
    ensures NodesOk(a[n := Node(head, [])], n, [n] + free, {})
  {
    FreePush(NodeLinks(a), head, free, n);
    assert NodeLinks(a[n := Node(head, [])]) == NodeLinks(a)[n := head];
  }

  lemma ChangedNodeOk(a: seq<Node>, head: nat, free: seq<nat>, n: nat, x: Node)
    requires NodesOk(a, head, free, {}) && n < |a| && a[n].chanIdxs != [] && x.chanIdxs != []
    ensures NodesOk(a[n := x], head, free, {})
  {
    FreeFrame(NodeLinks(a), NodeLinks(a[n := x]), head, free);
  }

  lemma FreedChanOk(a: seq<Chan>, head: nat, free: seq<nat>, c: nat)
    requires ChansOk(a, head, free) && c < |a| && a[c].plusScidOff != 0
    ensures ChansOk(a[c := a[c].(cannOff := head, plusScidOff := 0)], c, [c] + free)
  {
    FreePush(ChanLinks(a), head, free, c);
    assert ChanLinks(a[c := a[c].(cannOff := head, plusScidOff := 0)]) == ChanLinks(a)[c := head];
  }

  /** Both ends unlinked, the index entries gone and the slot freed: the channel is removed. */
  lemma UnlinkedIsRemoved(m: Map, m': Map, a: Ann, c: nat, x0: Node, x1: Node)
    requires LiveChan(m, c) && ChanOk(m.chanArr[c], |m.nodeArr|)
    requires var n0, n1 := m.chanArr[c].half0.nodeidx, m.chanArr[c].half1.nodeidx;
      && m'.nodeArr == m.nodeArr[n0 := x0][n1 := x1]
      && NodeAfter(m.nodeArr[n0], x0, m.chanArr[c], n0, c) && NodeAfter(m.nodeArr[n1], x1, m.chanArr[c], n1, c)
    requires |m'.chanArr| == |m.chanArr| && m'.chanArr[c].plusScidOff == 0
    requires forall x: nat :: x != c && x < |m.chanArr| ==> m'.chanArr[x] == m.chanArr[x]
    requires m'.channels == m.channels - {a.scid}
    requires m'.nodes == m.nodes
      - (if x0.chanIdxs == [] then {a.id1} else {}) - (if x1.chanIdxs == [] then {a.id2} else {})
    ensures Removed(m, m', a, c)
  {
    hide HalfInRange;
  }

  /** Where c sits in a node's list. */
  method IndexIn(s: seq<nat>, c: nat) returns (i: nat)
    requires c in s
    ensures i < |s| && s[i] == c && Without(s, c) == s[..i] + s[i + 1..]
  {
    i := 0;
    while s[i] != c
      invariant i < |s| && c !in s[..i]
      decreases |s| - i
    {
      assert s == s[..i] + [s[i]] + s[i + 1..];
      i := i + 1;
    }
    WithoutAt(s, c, i);
  }

  /** The id of the end of channel ch at node n. */
  function EndId(ch: Chan, a: Ann, n: nat): NodeId {
    if ch.half0.nodeidx == n then a.id1 else a.id2
  }

  lemma ShowNodeAfter(x: Node, x': Node, ch: Chan, n: nat, c: nat)
    requires HasEnd(ch, n) && x'.chanIdxs == Without(x.chanIdxs, c)
    requires x'.chanIdxs != [] ==> x'.nannOff == x.nannOff
    ensures NodeAfter(x, x', ch, n, c)
  {
  }

  lemma LiveChanFacts(m: Map, anns: map<nat, Ann>, c: nat)
    requires ValidMap(m, anns) && LiveChan(m, c)
    ensures ChanOk(m.chanArr[c], |m.nodeArr|) && ChanIndexed(m, anns, c)
    ensures m.chanArr[c].half0.nodeidx < |m.nodeArr| && m.chanArr[c].half1.nodeidx < |m.nodeArr|
    ensures m.chanArr[c].half0.nodeidx != m.chanArr[c].half1.nodeidx
    ensures m.chanArr[c].cannOff in anns
    ensures Distinct(m.nodeArr[m.chanArr[c].half0.nodeidx].chanIdxs)
    ensures c in m.nodeArr[m.chanArr[c].half0.nodeidx].chanIdxs
    ensures Distinct(m.nodeArr[m.chanArr[c].half1.nodeidx].chanIdxs)
    ensures c in m.nodeArr[m.chanArr[c].half1.nodeidx].chanIdxs
  {
    assert ChanIndexed(m, anns, c);
  }

  // ---- Counting ----

  ghost function Below(n: nat): (s: set<nat>)
    ensures forall x :: x in s <==> 0 <= x < n
  {
    if n == 0 then {} else Below(n - 1) + {n - 1}
  }

  lemma {:induction false} BelowSize(n: nat)
    ensures |Below(n)| == n
  {
    if n > 0 {
      BelowSize(n - 1);
    }
  }

  lemma {:induction false} SubsetSize(a: set<nat>, b: set<nat>)
    requires a <= b
    ensures |a| <= |b|
    decreases |a|
  {
    if a != {} {
      var x :| x in a;
      SubsetSize(a - {x}, b - {x});
    }
  }

  /** A map has at most as many values as keys, and as many when it is injective. */
  lemma {:induction false} ValuesSize(m: map<nat, nat>)
    ensures |m.Values| <= |m|
    ensures (forall x, y :: x in m && y in m && m[x] == m[y] ==> x == y) ==> |m.Values| == |m|
    decreases |m|
  {
    if m == map[] {
      assert m.Values == {};
    } else {
      var k :| k in m;
      var m' := m - {k};
      ValuesSize(m');
      assert m == m'[k := m[k]];
      assert m.Values == m'.Values + {m[k]};
      if forall x, y :: x in m && y in m && m[x] == m[y] ==> x == y {
        assert m[k] !in m'.Values;
      }
    }
  }

  /** A node arena without free slots is no larger than its index and limbo. */
  lemma FullNodes(m: Map, limbo: set<nat>)
    requires NodesIndexed(m)
    requires forall x: nat :: x < |m.nodeArr| ==> LiveNode(m, x) || x in limbo
    ensures |m.nodeArr| <= |m.nodes| + |limbo|
  {
    forall x: nat | x in Below(|m.nodeArr|) ensures x in m.nodes.Values + limbo {
      if x !in limbo {
        var id :| id in m.nodes && m.nodes[id] == x;
      }
    }
    BelowSize(|m.nodeArr|);
    SubsetSize(Below(|m.nodeArr|), m.nodes.Values + limbo);
    ValuesSize(m.nodes);
  }

  lemma FullChans(m: Map, anns: map<nat, Ann>)
    requires ChansIndexed(m, anns)
    requires forall x: nat :: x < |m.chanArr| ==> LiveChan(m, x)
    ensures |m.chanArr| <= |m.channels|
  {
    forall x: nat | x in Below(|m.chanArr|) ensures x in m.channels.Values {
      assert ChanIndexed(m, anns, x);
      assert m.channels[anns[m.chanArr[x].cannOff].scid] == x;
    }
    BelowSize(|m.chanArr|);
    SubsetSize(Below(|m.chanArr|), m.channels.Values);
    ValuesSize(m.channels);
  }

  /** No free slot and an index of moderate size: there is room to double. */
  lemma RoomForNode(m: Map, head: nat, free: seq<nat>, limbo: set<nat>)
    requires NodesIndexed(m) && NodesOk(m.nodeArr, head, free, limbo)
    ensures head != U32_MAX || |m.nodeArr| <= |m.nodes| + |limbo|
  {
    if head == U32_MAX {
      assert free == [];
      FullNodes(m, limbo);
    }
  }

  lemma RoomForChan(m: Map, anns: map<nat, Ann>, head: nat, free: seq<nat>)
    requires ValidMap(m, anns) && ChansOk(m.chanArr, head, free)
    ensures head != U32_MAX || |m.chanArr| <= |m.channels|
  {
    if head == U32_MAX {
      assert free == [];
      FullChans(m, anns);
    }
  }

  lemma GrownTwice(a: seq<Node>, b: seq<Node>, c: seq<Node>)
    requires NodesGrown(a, b) && NodesGrown(b, c)
    ensures NodesGrown(a, c)
  {
  }

  lemma IndexFacts(m: Map, anns: map<nat, Ann>, id1: NodeId, id2: NodeId)
    requires ValidMap(m, anns) && id1 != id2
    ensures NodesIndexed(m) && NodesGrown(m.nodeArr, m.nodeArr)
    ensures id1 in m.nodes && id2 in m.nodes ==> m.nodes[id1] != m.nodes[id2]
  {
  }

  lemma IndexedOrLimbo(m: Map, a: seq<Node>, head: nat, free: seq<nat>, limbo: set<nat>, id: NodeId)
    requires NodesIndexed(m) && NodesGrown(m.nodeArr, a) && NodesOk(a, head, free, limbo) && id in m.nodes
    ensures m.nodes[id] < |m.nodeArr| <= |a| && m.nodes[id] !in free && m.nodes[id] !in limbo
    ensures a[m.nodes[id]].chanIdxs != []
  {
    assert LiveNode(m, m.nodes[id]);
  }

  /** The node that had to be taken for id, if any. */
  ghost function NewEnd(nodes: map<NodeId, nat>, id: NodeId, n: nat): (s: set<nat>)
    ensures s <= {n}
  {
    if id in nodes then {} else {n}
  }

  /** A node found or taken for id stays off the free list while more are taken. */
  lemma EndStays(m: Map, a: seq<Node>, head: nat, free: seq<nat>, limbo: set<nat>, id: NodeId, n: nat)
    requires NodesIndexed(m) && NodesGrown(m.nodeArr, a) && NodesOk(a, head, free, limbo)
    requires EndFor(m, id, n) && NewEnd(m.nodes, id, n) <= limbo
    ensures n < |a| && n !in free && (id in m.nodes ==> a[n].chanIdxs != [] && n !in limbo)
  {
    if id in m.nodes {
      IndexedOrLimbo(m, a, head, free, limbo, id);
    } else {
      LimboNotLive(m, a, head, free, limbo, n);
    }
  }

  lemma LimboNotLive(m: Map, a: seq<Node>, head: nat, free: seq<nat>, limbo: set<nat>, n: nat)
    requires NodesGrown(m.nodeArr, a) && NodesOk(a, head, free, limbo) && n in limbo
    ensures !LiveNode(m, n) && n !in free && n < |a|
  {
  }

  lemma GrownNodesIndexed(m: Map, m': Map)
    requires NodesIndexed(m) && m'.nodes == m.nodes && NodesGrown(m.nodeArr, m'.nodeArr)
    ensures NodesIndexed(m')
  {
    assert forall n: nat :: LiveNode(m', n) <==> LiveNode(m, n);
  }

  /** A list without the members of d. */
  ghost function Minus(s: seq<nat>, d: set<nat>): seq<nat> {
    if s == [] then [] else (if s[0] in d then [] else [s[0]]) + Minus(s[1..], d)
  }

  lemma {:induction false} MinusNone(s: seq<nat>, d: set<nat>)
    requires forall x :: x in s ==> x !in d
    ensures Minus(s, d) == s
  {
    if s != [] { MinusNone(s[1..], d); }
  }

  lemma {:induction false} MinusMembers(s: seq<nat>, d: set<nat>)
    ensures forall x :: x in Minus(s, d) <==> x in s && x !in d
  {
    if s != [] {
      assert s == [s[0]] + s[1..];
      MinusMembers(s[1..], d);
    }
  }

  lemma {:induction false} MinusAppend(s: seq<nat>, t: seq<nat>, d: set<nat>)
    ensures Minus(s + t, d) == Minus(s, d) + Minus(t, d)
  {
    if s == [] {
      assert s + t == t;
    } else {
      assert (s + t)[1..] == s[1..] + t;
      MinusAppend(s[1..], t, d);
    }
  }

  lemma {:induction false} MinusMore(s: seq<nat>, d: set<nat>, c: nat)
    requires c !in s
    ensures Minus(s, d + {c}) == Minus(s, d)
  {
    if s != [] { MinusMore(s[1..], d, c); }
  }

  /** Taking c out and then the rest of d is taking d out. */
  lemma {:induction false} MinusWithout(s: seq<nat>, d: set<nat>, c: nat)
    requires Distinct(s)
    ensures Minus(Without(s, c), d) == Minus(s, d + {c})
  {
    if s != [] {
      assert s == [s[0]] + s[1..];
      if s[0] == c {
        assert c !in s[1..];
        MinusMore(s[1..], d, c);
      } else {
        assert Without(s, c)[1..] == Without(s[1..], c);
        MinusWithout(s[1..], d, c);
      }
    }
  }

  lemma {:induction false} MinusThenWithout(s: seq<nat>, d: set<nat>, c: nat)
    requires Distinct(s)
    ensures Without(Minus(s, d), c) == Minus(s, d + {c})
  {
    if s != [] {
      assert s == [s[0]] + s[1..];
      MinusThenWithout(s[1..], d, c);
      if s[0] !in d {
        assert Minus(s, d) == [s[0]] + Minus(s[1..], d);
        assert Minus(s, d)[1..] == Minus(s[1..], d);
        if s[0] == c {
          assert c !in s[1..];
          MinusMore(s[1..], d, c);
        }
      } else {
        assert Minus(s, d) == Minus(s[1..], d) && Minus(s, d + {c}) == Minus(s[1..], d + {c});
      }
    }
  }

  // ---- Several removals ----

  ghost function Members(s: seq<nat>): set<nat> {
    set c | c in s
  }

  /** m' is m without the channels in d: every other channel keeps its record and its place in
      the order of both adjacency lists, and ids keep their nodes. */
  ghost predicate RemovedAll(m: Map, m': Map, d: set<nat>) {
    && |m.nodeArr| == |m'.nodeArr| && |m.chanArr| == |m'.chanArr|
    && (forall x: nat :: LiveChan(m', x) <==> LiveChan(m, x) && x !in d)
    && (forall x: nat :: LiveChan(m', x) ==> m'.chanArr[x] == m.chanArr[x])
    && (forall k :: 0 <= k < |m.nodeArr| ==> NodeMinus(m.nodeArr[k], m'.nodeArr[k], d))
    && (forall id :: id in m'.nodes ==> id in m.nodes && m'.nodes[id] == m.nodes[id])
  }

  ghost predicate NodeMinus(x: Node, x': Node, d: set<nat>) {
    && x'.chanIdxs == Minus(x.chanIdxs, d)
    && (x'.chanIdxs != [] ==> x'.nannOff == x.nannOff)
  }

  lemma RemovedNone(m: Map)
    ensures RemovedAll(m, m, {})
  {
    forall k | 0 <= k < |m.nodeArr| ensures NodeMinus(m.nodeArr[k], m.nodeArr[k], {}) {
      MinusNone(m.nodeArr[k].chanIdxs, {});
    }
  }

  lemma RemovedOneMore(m: Map, m1: Map, m2: Map, d: set<nat>, a: Ann, c: nat)
    requires Adjacent(m) && RemovedAll(m, m1, d) && Removed(m1, m2, a, c)
    ensures RemovedAll(m, m2, d + {c})
  {
    forall k: nat | k < |m.nodeArr| ensures NodeMinus(m.nodeArr[k], m2.nodeArr[k], d + {c}) {
      assert NodeMinus(m.nodeArr[k], m1.nodeArr[k], d);
      assert NodeAfter(m1.nodeArr[k], m2.nodeArr[k], m1.chanArr[c], k, c);
      var s := m.nodeArr[k].chanIdxs;
      assert c in s <==> LiveChan(m, c) && HasEnd(m.chanArr[c], k);
      if HasEnd(m1.chanArr[c], k) {
        MinusThenWithout(s, d, c);
      } else {
        MinusMore(s, d, c);
      }
    }
    assert forall x: nat :: LiveChan(m2, x) <==> LiveChan(m1, x) && x != c;
  }

  lemma RemovedOne(m: Map, m': Map, anns: map<nat, Ann>, a: Ann, c: nat)
    requires ValidMap(m, anns) && Removed(m, m', a, c)
    ensures RemovedAll(m, m', {c})
  {
    hide RemovedAll, Removed;
    RemovedNone(m);
    RemovedOneMore(m, m, m', {}, a, c);
    assert {} + {c} == {c};
  }

  // ---- Rewriting a channel's halves ----

  /** ch' may differ from ch in what its halves demand, but not in where it runs. */
  predicate SameShape(ch: Chan, ch': Chan) {
    && ch'.cannOff == ch.cannOff && ch'.plusScidOff == ch.plusScidOff && ch'.isPrivate == ch.isPrivate
    && ch'.half0.nodeidx == ch.half0.nodeidx && ch'.half1.nodeidx == ch.half1.nodeidx
  }

  lemma HalvesRewritten(m: Map, anns: map<nat, Ann>, c: nat, ch: Chan)
    requires ValidMap(m, anns) && LiveChan(m, c) && SameShape(m.chanArr[c], ch)
    requires HalfInRange(ch.half0) && HalfInRange(ch.half1)
    ensures ValidMap(m.(chanArr := m.chanArr[c := ch]), anns)
  {
    HalvesRewrittenAdjacent(m, c, ch);
    HalvesRewrittenIndexed(m, anns, c, ch);
    hide Adjacent, Indexed;
  }

  lemma HalvesRewrittenAdjacent(m: Map, c: nat, ch: Chan)
    requires Adjacent(m) && LiveChan(m, c) && SameShape(m.chanArr[c], ch)
    requires HalfInRange(ch.half0) && HalfInRange(ch.half1)
    ensures Adjacent(m.(chanArr := m.chanArr[c := ch]))
  {
    hide HalfInRange, Distinct;
    var m' := m.(chanArr := m.chanArr[c := ch]);
    assert forall x: nat :: LiveChan(m', x) ==> LiveChan(m, x) && SameShape(m.chanArr[x], m'.chanArr[x]);
    assert forall x: nat :: LiveChan(m, x) ==> LiveChan(m', x);
    forall x: nat | LiveChan(m', x) ensures ChanOk(m'.chanArr[x], |m'.nodeArr|) {
      assert LiveChan(m, x) && ChanOk(m.chanArr[x], |m.nodeArr|);
    }
  }

  lemma HalvesRewrittenIndexed(m: Map, anns: map<nat, Ann>, c: nat, ch: Chan)
    requires Indexed(m, anns) && LiveChan(m, c) && SameShape(m.chanArr[c], ch)
    ensures Indexed(m.(chanArr := m.chanArr[c := ch]), anns)
  {
    var m' := m.(chanArr := m.chanArr[c := ch]);
    assert forall n: nat :: LiveNode(m', n) <==> LiveNode(m, n);
    forall x: nat | LiveChan(m', x) ensures ChanIndexed(m', anns, x) {
      assert LiveChan(m, x) && ChanIndexed(m, anns, x);
    }
    forall s | s in m'.channels ensures ScidIndexed(m', anns, s) {
      assert ScidIndexed(m, anns, s);
    }
  }

  lemma RewrittenChansOk(a: seq<Chan>, head: nat, free: seq<nat>, c: nat, ch: Chan)
    requires ChansOk(a, head, free) && c < |a| && SameShape(a[c], ch)
    ensures ChansOk(a[c := ch], head, free)
  {
    assert ChanLinks(a[c := ch]) == ChanLinks(a);
  }

  lemma AnnouncedNodesOk(a: seq<Node>, head: nat, free: seq<nat>, n: nat, off: nat)
    requires NodesOk(a, head, free, {}) && n < |a| && a[n].chanIdxs != []
    ensures NodesOk(a[n := a[n].(nannOff := off)], head, free, {})
  {
    ChangedNodeOk(a, head, free, n, a[n].(nannOff := off));
  }

  lemma AnnouncedIsValid(m: Map, anns: map<nat, Ann>, n: nat, off: nat)
    requires ValidMap(m, anns) && LiveNode(m, n)
    ensures ValidMap(m.(nodeArr := m.nodeArr[n := m.nodeArr[n].(nannOff := off)]), anns)
  {
    var m' := m.(nodeArr := m.nodeArr[n := m.nodeArr[n].(nannOff := off)]);
    assert forall k :: 0 <= k < |m.nodeArr| ==> m'.nodeArr[k].chanIdxs == m.nodeArr[k].chanIdxs;
    assert forall k: nat :: LiveNode(m', k) <==> LiveNode(m, k);
    assert forall x: nat :: LiveChan(m', x) <==> LiveChan(m, x);
    assert ChansIndexed(m', anns) by {
      forall x: nat | LiveChan(m', x) ensures ChanIndexed(m', anns, x) { assert ChanIndexed(m, anns, x); }
      forall s | s in m'.channels ensures ScidIndexed(m', anns, s) { assert ScidIndexed(m, anns, s); }
    }
    hide ChansIndexed;
  }

  // ---- What the graph lists ----

  /** The record behind every known scid. */
  ghost function Listing(m: Map, anns: map<nat, Ann>): map<Scid, Chan>
    requires ValidMap(m, anns)
  {
    map s | s in m.channels :: assert ScidIndexed(m, anns, s); Bare(m.chanArr[m.channels[s]])
  }

  /** A channel record without the places of its ends in the arena. */
  function Bare(ch: Chan): Chan {
    ch.(half0 := ch.half0.(nodeidx := 0), half1 := ch.half1.(nodeidx := 0))
  }

  /** id is an end of some listed channel. */
  ghost predicate EndOfSome(l: map<Scid, Chan>, anns: map<nat, Ann>, id: NodeId) {
    exists s :: s in l && l[s].cannOff in anns && (anns[l[s].cannOff].id1 == id || anns[l[s].cannOff].id2 == id)
  }

  /** The nodes known are exactly the ends of the listed channels. */
  lemma NodesAreEnds(m: Map, anns: map<nat, Ann>, id: NodeId)
    requires ValidMap(m, anns)
    ensures id in m.nodes <==> EndOfSome(Listing(m, anns), anns, id)
  {
    if id in m.nodes { NodeIsEnd(m, anns, id); }
    if EndOfSome(Listing(m, anns), anns, id) { EndIsNode(m, anns, id); }
  }

  lemma NodeIsEnd(m: Map, anns: map<nat, Ann>, id: NodeId)
    requires ValidMap(m, anns) && id in m.nodes
    ensures EndOfSome(Listing(m, anns), anns, id)
  {
    var n := m.nodes[id];
    assert LiveNode(m, n);
    var c := m.nodeArr[n].chanIdxs[0];
    assert c in m.nodeArr[n].chanIdxs;
    assert LiveChan(m, c) && HasEnd(m.chanArr[c], n) && ChanIndexed(m, anns, c);
    var a := anns[m.chanArr[c].cannOff];
    assert a.id1 == id || a.id2 == id;
    hide Adjacent, NodesIndexed;
    var l := Listing(m, anns);
    assert a.scid in l && l[a.scid].cannOff in anns && anns[l[a.scid].cannOff] == a;
  }

  lemma EndIsNode(m: Map, anns: map<nat, Ann>, id: NodeId)
    requires ValidMap(m, anns) && EndOfSome(Listing(m, anns), anns, id)
    ensures id in m.nodes
  {
    hide Adjacent, NodesIndexed;
    var l := Listing(m, anns);
    var s :| s in l && l[s].cannOff in anns && (anns[l[s].cannOff].id1 == id || anns[l[s].cannOff].id2 == id);
    assert ScidIndexed(m, anns, s);
    assert ChanIndexed(m, anns, m.channels[s]);
  }

  lemma ListedAfterAdd(m: Map, m': Map, anns: map<nat, Ann>, a: Ann, ch: Chan, c: nat)
    requires ValidMap(m, anns) && ValidMap(m', anns) && Added(m, m', a, ch, c)
    ensures Listing(m', anns) == Listing(m, anns)[a.scid := Bare(ch)]
  {
    hide ChanIndexed, NodeAfter, Dropped, Adjacent, NodesIndexed;
    var l, l' := Listing(m, anns), Listing(m', anns);
    forall s | s in l' ensures l'[s] == l[a.scid := Bare(ch)][s] {
      if s != a.scid { assert s in m.channels && ScidIndexed(m, anns, s); }
    }
  }

  lemma ListedAfterRemove(m: Map, m': Map, anns: map<nat, Ann>, a: Ann, c: nat)
    requires ValidMap(m, anns) && ValidMap(m', anns) && Removed(m, m', a, c)
    ensures Listing(m', anns) == Listing(m, anns) - {a.scid}
  {
    hide ChanIndexed, NodeAfter, Dropped, Adjacent, NodesIndexed;
    var l, l' := Listing(m, anns), Listing(m', anns);
    forall s | s in l' ensures s in l && l'[s] == l[s] {
      assert s in m'.channels && s in m.channels && ScidIndexed(m', anns, s);
      assert m'.channels[s] != c;
    }
  }

  lemma ListedAfterRewrite(m: Map, anns: map<nat, Ann>, scid: Scid, ch: Chan)
    requires ValidMap(m, anns) && scid in m.channels && m.channels[scid] < |m.chanArr|
    requires ValidMap(m.(chanArr := m.chanArr[m.channels[scid] := ch]), anns)
    ensures Listing(m.(chanArr := m.chanArr[m.channels[scid] := ch]), anns) == Listing(m, anns)[scid := Bare(ch)]
  {
    hide ChanIndexed, Adjacent, NodesIndexed;
    var m' := m.(chanArr := m.chanArr[m.channels[scid] := ch]);
    var l, l' := Listing(m, anns), Listing(m', anns);
    forall s | s in l' ensures l'[s] == l[scid := Bare(ch)][s] {
      assert ScidIndexed(m, anns, s) && ScidIndexed(m, anns, scid);
    }
  }

  lemma ListedAt(m: Map, anns: map<nat, Ann>, scid: Scid)
    requires ValidMap(m, anns) && scid in m.channels
    ensures m.channels[scid] < |m.chanArr| && scid in Listing(m, anns)
    ensures Listing(m, anns)[scid] == Bare(m.chanArr[m.channels[scid]])
  {
    hide Adjacent, NodesIndexed, ChanIndexed;
    assert ScidIndexed(m, anns, scid);
  }

  lemma ListedAlike(m: Map, m': Map, anns: map<nat, Ann>)
    requires ValidMap(m, anns) && ValidMap(m', anns) && m'.channels == m.channels && m'.chanArr == m.chanArr
    ensures Listing(m', anns) == Listing(m, anns)
  {
    hide Adjacent, NodesIndexed, ChanIndexed;
  }

  lemma ScidFacts(m: Map, anns: map<nat, Ann>, s: Scid)
    requires ValidMap(m, anns) && s in m.channels
    ensures LiveChan(m, m.channels[s]) && m.chanArr[m.channels[s]].cannOff in anns
    ensures anns[m.chanArr[m.channels[s]].cannOff].scid == s
    ensures HalfInRange(m.chanArr[m.channels[s]].half0) && HalfInRange(m.chanArr[m.channels[s]].half1)
  {
    assert ScidIndexed(m, anns, s);
    assert ChanOk(m.chanArr[m.channels[s]], |m.nodeArr|);
  }

  lemma IdFacts(m: Map, anns: map<nat, Ann>, id: NodeId)
    requires ValidMap(m, anns) && id in m.nodes
    ensures LiveNode(m, m.nodes[id])
  {
  }

  /** The first channel of a node is live, was there before, and has not been removed. */
  lemma FirstIsLive(m: Map, m1: Map, anns: map<nat, Ann>, d: set<nat>, n: nat)
    requires ValidMap(m, anns) && ValidMap(m1, anns) && RemovedAll(m, m1, d) && LiveNode(m1, n)
    ensures LiveChan(m1, m1.nodeArr[n].chanIdxs[0]) && m1.nodeArr[n].chanIdxs[0] in m.nodeArr[n].chanIdxs
    ensures HasEnd(m1.chanArr[m1.nodeArr[n].chanIdxs[0]], n) && Adjacent(m)
  {
    hide Indexed, Distinct, ChanOk;
    var c := m1.nodeArr[n].chanIdxs[0];
    assert c in m1.nodeArr[n].chanIdxs;
    assert LiveChan(m1, c) && HasEnd(m1.chanArr[c], n);
    hide Adjacent;
    assert NodeMinus(m.nodeArr[n], m1.nodeArr[n], d);
    MinusMembers(m.nodeArr[n].chanIdxs, d);
  }

  lemma RemovedShrinks(m: Map, m': Map, a: Ann, n: nat, c: nat)
    requires Removed(m, m', a, c) && n < |m.nodeArr| && HasEnd(m.chanArr[c], n) && c in m.nodeArr[n].chanIdxs
    ensures n < |m'.nodeArr| && |m'.nodeArr[n].chanIdxs| < |m.nodeArr[n].chanIdxs|
  {
    assert NodeAfter(m.nodeArr[n], m'.nodeArr[n], m.chanArr[c], n, c);
    WithoutShrinks(m.nodeArr[n].chanIdxs, c);
  }

  lemma {:induction false} WithoutShrinks(s: seq<nat>, c: nat)
    requires c in s
    ensures |Without(s, c)| == |s| - 1
  {
    if s[0] != c { WithoutShrinks(s[1..], c); }
  }

  lemma AllRemoved(m: Map, m': Map, d: set<nat>, n: nat)
    requires RemovedAll(m, m', d) && n < |m.nodeArr| && m'.nodeArr[n].chanIdxs == []
    requires d <= Members(m.nodeArr[n].chanIdxs)
    ensures d == Members(m.nodeArr[n].chanIdxs)
  {
    assert NodeMinus(m.nodeArr[n], m'.nodeArr[n], d);
    MinusMembers(m.nodeArr[n].chanIdxs, d);
  }

  lemma ListedIsIndexed(m: Map, anns: map<nat, Ann>)
    requires ValidMap(m, anns)
    ensures Listing(m, anns).Keys == m.channels.Keys
    ensures forall s :: s !in m.channels ==> Listing(m, anns) - {s} == Listing(m, anns)
  {
  }

  lemma AddedSizes(m: Map, m': Map, a: Ann, ch: Chan, c: nat)
    requires Added(m, m', a, ch, c)
    ensures |m'.nodes| <= |m.nodes| + 2 && |m'.channels| <= |m.channels| + 1
  {
    hide HasEnd;
  }

  lemma {:induction false} SubmapSize(m: map<nat, nat>, m': map<nat, nat>)
    requires m'.Keys <= m.Keys
    ensures |m'| <= |m|
  {
    SubsetSize(m'.Keys, m.Keys);
    assert |m'.Keys| == |m'| && |m.Keys| == |m|;
  }

  lemma RemovedSizes(m: Map, m': Map, a: Ann, c: nat)
    requires Removed(m, m', a, c)
    ensures |m'.nodes| <= |m.nodes| && |m'.channels| <= |m.channels|
  {
    SubmapSize(m.nodes, m'.nodes);
    SubmapSize(m.channels, m'.channels);
  }

  lemma RemovedSummary(m: Map, m': Map, anns: map<nat, Ann>, a: Ann, c: nat)
    requires ValidMap(m, anns) && ValidMap(m', anns) && Removed(m, m', a, c)
    ensures Listing(m', anns) == Listing(m, anns) - {a.scid}
    ensures |m'.nodes| <= |m.nodes| && |m'.channels| <= |m.channels|
    ensures RemovedAll(m, m', {c})
  {
    hide Removed, ValidMap, Listing;
    ListedAfterRemove(m, m', anns, a, c);
    RemovedSizes(m, m', a, c);
    RemovedOne(m, m', anns, a, c);
  }

  // ---- Growing indexes ----

  /** Every scid of m is indexed alike in m'. */
  ghost predicate ScidsOver(m: Map, m': Map) {
    forall s :: s in m.channels ==> s in m'.channels && m'.channels[s] == m.channels[s]
  }

  /** Every id of m is indexed alike in m'. */
  ghost predicate IdsOver(m: Map, m': Map) {
    forall id :: id in m.nodes ==> id in m'.nodes && m'.nodes[id] == m.nodes[id]
  }

  lemma IndexedEndsKeepIds(m: Map, m': Map, a: Ann, n0: nat, n1: nat)
    requires EndFor(m, a.id1, n0) && EndFor(m, a.id2, n1) && m'.nodes == IndexEnds(m.nodes, a, n0, n1)
    requires a.id1 != a.id2
    ensures IdsOver(m, m')
  {
  }
}
