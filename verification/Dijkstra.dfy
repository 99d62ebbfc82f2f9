/** The backwards shortest-path search of common/dijkstra.c. */
module Dijkstra {
  import opened Wrappers
  import opened Numbers
  import opened Amount
  import opened Graph
  import GheapIndex
  import Gheap

  /** dijkstra_'s arguments.  `channelOk`, `risk` and `pathScore` are its callbacks, with
      the floating-point risk price as an arbitrary function of cost and delay. */
  datatype Problem = Problem(
    g: Graph, start: nat, amount: nat,
    channelOk: (nat, bool, nat) -> bool,
    risk: (nat, nat) -> nat,
    pathScore: (nat, nat, nat, nat) -> nat)

  ghost predicate ValidProblem(p: Problem) {
    && WellFormed(p.g) && Live(p.g, p.start) && p.amount <= U64_MAX
    && forall d, cost, r, c :: p.pathScore(d, cost, r, c) <= U64_MAX
  }

  /** The per-node record but for its heap pointer and score. */
  datatype Info = Info(distance: nat, totalDelay: nat, cost: nat, bestChan: nat)

  const UNREACHED: Info := Info(U32_MAX, 0, U64_MAX, 0)

  /** heapptr of a node that was visited already. */
  const VISITED: int := -1

  datatype Offer = NoOffer | Offer(score: nat, info: Info)

  function InfoScore(p: Problem, i: Info): nat {
    p.pathScore(i.distance, i.cost, p.risk(i.cost, i.totalDelay), i.bestChan)
  }

  /** What expanding node m, whose record is mi, offers the far end of its i-th channel. */
  function OfferOf(p: Problem, m: nat, mi: Info, i: nat): Offer
    requires ValidProblem(p) && m < |p.g.nodes| && i < |p.g.nodes[m].chanIdxs|
  {
    assert ListedOk(p.g, m, i);
    var c := p.g.nodes[m].chanIdxs[i];
    var dir := !WhichHalf(p.g, m, c);
    var h := p.g.chans[c].Half(dir);
    if !p.channelOk(c, dir, mi.cost) then NoOffer
    else match MsatAddFee(mi.cost, h.baseFee, h.propFee)
      case None => NoOffer
      case Some(cost) =>
        var info := Info((mi.distance + 1) % TWO_32, (mi.totalDelay + h.delay) % TWO_32, cost, c);
        Offer(InfoScore(p, info), info)
  }

  function NeighborOf(p: Problem, m: nat, i: nat): (n: nat)
    requires ValidProblem(p) && m < |p.g.nodes| && i < |p.g.nodes[m].chanIdxs|
    ensures Live(p.g, n)
  {
    assert ListedOk(p.g, m, i);
    Neighbor(p.g, m, i)
  }

  /** A node and the record a search can hold for it. */
  datatype Stop = Stop(node: nat, info: Info)

  /** The record that following offers from the start leads to, w naming at each node the
      position of the channel taken in its list. */
  ghost function WalkEnd(p: Problem, w: seq<nat>): (s: Option<Stop>)
    requires ValidProblem(p)
    ensures s.Some? ==> Live(p.g, s.value.node)
    decreases |w|
  {
    if w == [] then Some(Stop(p.start, Info(0, 0, p.amount, 0)))
    else
      var s, i := WalkEnd(p, w[..|w| - 1]), w[|w| - 1];
      if s.None? || i >= |p.g.nodes[s.value.node].chanIdxs| then None
      else
        match OfferOf(p, s.value.node, s.value.info, i)
        case NoOffer => None
        case Offer(_, info) => Some(Stop(NeighborOf(p, s.value.node, i), info))
  }

  /** The offer over channel i from where w ends scores no less than the record there. */
  ghost predicate EdgeKeeps(p: Problem, w: seq<nat>, i: nat)
    requires ValidProblem(p)
  {
    var s := WalkEnd(p, w);
    s.Some? && i < |p.g.nodes[s.value.node].chanIdxs| && OfferOf(p, s.value.node, s.value.info, i).Offer? ==>
      InfoScore(p, s.value.info) <= OfferOf(p, s.value.node, s.value.info, i).score
  }

  /** The path score never drops along an edge, from any record that a search can hold: a search
      tree is less deep than the graph has nodes, and the start itself scores zero. */
  ghost predicate EdgeMonotone(p: Problem)
    requires ValidProblem(p)
  {
    forall w: seq<nat>, i: nat :: 0 < |w| < |p.g.nodes| ==> EdgeKeeps(p, w, i)
  }

  // ---- What the arrays hold, on values ----

  ghost predicate Sized(p: Problem, score: seq<nat>, info: seq<Info>) {
    |score| == |info| == |p.g.nodes|
  }

  /** The node after x on its best channel. */
  function NextNode(p: Problem, x: nat, c: nat): nat
    requires c < |p.g.chans|
  {
    p.g.chans[c].Half(!WhichHalf(p.g, x, c)).nodeidx
  }

  /** x's record was made by extending the record of the next node along best_chan. */
  ghost predicate TreeEdge(p: Problem, score: seq<nat>, info: seq<Info>, x: nat)
    requires Sized(p, score, info) && x < |info|
  {
    var c := info[x].bestChan;
    && c < |p.g.chans|
    && var dir := WhichHalf(p.g, x, c);
    var h := p.g.chans[c].Half(dir);
    var n := NextNode(p, x, c);
    && h.nodeidx == x && HalfInRange(h)
    && Live(p.g, n) && c in p.g.nodes[n].chanIdxs
    && p.channelOk(c, dir, info[n].cost)
    && MsatAddFee(info[n].cost, h.baseFee, h.propFee) == Some(info[x].cost)
    && info[x].distance == info[n].distance + 1
    && info[x].totalDelay == (info[n].totalDelay + h.delay) % TWO_32
    && score[x] == p.pathScore(info[x].distance, info[x].cost, p.risk(info[x].cost, info[x].totalDelay), c)
  }

  /** One node's record, given the nodes already expanded. */
  ghost predicate NodeOk(p: Problem, score: seq<nat>, info: seq<Info>, done: seq<nat>, x: nat)
    requires Sized(p, score, info) && x < |info|
  {
    && info[x].distance <= U32_MAX && info[x].cost <= U64_MAX && info[x].totalDelay <= U32_MAX
    && score[x] <= U64_MAX
    && if info[x].distance == U32_MAX then
         score[x] == U64_MAX && x !in done && x != p.start
       else
         && info[x].distance <= |done|
         && if x == p.start then
              score[x] == 0 && info[x] == Info(0, 0, p.amount, info[x].bestChan)
            else
              && TreeEdge(p, score, info, x)
              && NextNode(p, x, info[x].bestChan) in done
              && score[NextNode(p, x, info[x].bestChan)] <= score[x] < U64_MAX
  }

  /** Records of all live nodes are right; expanded ones are at their final distance and
      in score order, and score no more than the rest. */
  ghost predicate SearchOk(p: Problem, score: seq<nat>, info: seq<Info>, done: seq<nat>) {
    && Sized(p, score, info)
    && (forall x: nat :: Live(p.g, x) ==> NodeOk(p, score, info, done, x))
    && (forall j :: 0 <= j < |done| ==> Live(p.g, done[j]) && info[done[j]].distance <= j)
    && (forall j, k :: 0 <= j < k < |done| ==> done[j] != done[k] && score[done[j]] <= score[done[k]])
    && (forall j, x: nat :: 0 <= j < |done| && Live(p.g, x) && x !in done ==> score[done[j]] <= score[x])
  }

  /** The far end of m's i-th channel scores no worse than what m offers it. */
  ghost predicate Relaxed(p: Problem, score: seq<nat>, info: seq<Info>, m: nat, i: nat)
    requires ValidProblem(p) && Sized(p, score, info)
    requires m < |p.g.nodes| && i < |p.g.nodes[m].chanIdxs|
  {
    OfferOf(p, m, info[m], i).Offer? ==> score[NeighborOf(p, m, i)] <= OfferOf(p, m, info[m], i).score
  }

  ghost predicate NodeRelaxed(p: Problem, score: seq<nat>, info: seq<Info>, m: nat, upto: nat)
    requires ValidProblem(p) && Sized(p, score, info) && m < |p.g.nodes|
  {
    forall i :: 0 <= i < upto && i < |p.g.nodes[m].chanIdxs| ==> Relaxed(p, score, info, m, i)
  }

  ghost predicate AllRelaxed(p: Problem, score: seq<nat>, info: seq<Info>, done: seq<nat>)
    requires ValidProblem(p) && Sized(p, score, info)
  {
    forall j :: 0 <= j < |done| && done[j] < |p.g.nodes| ==>
      NodeRelaxed(p, score, info, done[j], |p.g.nodes[done[j]].chanIdxs|)
  }

  // ---- One relaxation ----

  /** Writing m's offer into its neighbour's record makes it a tree edge to m. */
  lemma OfferIsTreeEdge(p: Problem, score: seq<nat>, info: seq<Info>, m: nat, i: nat)
    requires ValidProblem(p) && Sized(p, score, info)
    requires m < |p.g.nodes| && i < |p.g.nodes[m].chanIdxs| && Live(p.g, m)
    requires OfferOf(p, m, info[m], i).Offer? && NeighborOf(p, m, i) != m
    requires info[m].distance < U32_MAX
    ensures var n, o := NeighborOf(p, m, i), OfferOf(p, m, info[m], i);
      && TreeEdge(p, score[n := o.score], info[n := o.info], n)
      && NextNode(p, n, o.info.bestChan) == m
      && o.info.distance == info[m].distance + 1 && o.info.cost <= U64_MAX && o.info.totalDelay <= U32_MAX
  {
    assert ListedOk(p.g, m, i);
    hide MsatFee;
  }

  /** A tree edge to another node is that node's offer. */
  lemma TreeEdgeIsOffer(p: Problem, score: seq<nat>, info: seq<Info>, x: nat) returns (i: nat)
    requires ValidProblem(p) && Sized(p, score, info) && x < |info| && TreeEdge(p, score, info, x)
    requires info[x].distance < U32_MAX
    ensures var n := NextNode(p, x, info[x].bestChan);
      && Live(p.g, n) && i < |p.g.nodes[n].chanIdxs| && NeighborOf(p, n, i) == x
      && OfferOf(p, n, info[n], i) == Offer(score[x], info[x])
  {
    hide MsatAddFee;
    var c := info[x].bestChan;
    var n := NextNode(p, x, c);
    assert n != x by { assert info[x].distance == info[n].distance + 1; }
    i :| 0 <= i < |p.g.nodes[n].chanIdxs| && p.g.nodes[n].chanIdxs[i] == c;
    assert ListedOk(p.g, n, i);
  }

  /** What a node's record says, by its distance. */
  lemma RecordFacts(p: Problem, score: seq<nat>, info: seq<Info>, settled: seq<nat>, x: nat)
    requires SearchOk(p, score, info, settled) && Live(p.g, x)
    ensures Sized(p, score, info) && x < |info|
    ensures info[x].distance <= U32_MAX && info[x].cost <= U64_MAX && info[x].totalDelay <= U32_MAX
    ensures info[x].distance == 0 ==>
      x == p.start && info[x].cost == p.amount && info[x].totalDelay == 0 && score[x] == 0
    ensures 0 < info[x].distance < U32_MAX ==> TreeEdge(p, score, info, x)
  {
    hide MsatAddFee, InfoScore;
    assert NodeOk(p, score, info, settled, x);
  }

  /** Every record of a reached node is where some walk of its distance ends. */
  lemma {:induction false} RecordIsWalk(p: Problem, score: seq<nat>, info: seq<Info>, done: seq<nat>, x: nat)
      returns (w: seq<nat>)
    requires ValidProblem(p) && SearchOk(p, score, info, done) && Live(p.g, x) && info[x].distance < U32_MAX
    ensures |w| == info[x].distance
    ensures WalkEnd(p, w) == Some(Stop(x, if w == [] then info[x].(bestChan := 0) else info[x]))
    decreases info[x].distance
  {
    hide ValidProblem, WellFormed, SearchOk, MsatAddFee, NeighborOf;
    RecordFacts(p, score, info, done, x);
    if info[x].distance == 0 {
      w := [];
    } else {
      var i := TreeEdgeIsOffer(p, score, info, x);
      var n := NextNode(p, x, info[x].bestChan);
      var v := RecordIsWalk(p, score, info, done, n);
      w := v + [i];
      assert w[..|w| - 1] == v;
      SameOffer(p, n, info[n], i);
    }
  }

  /** Which channel led to a node has no part in what it offers. */
  lemma SameOffer(p: Problem, m: nat, mi: Info, i: nat)
    requires ValidProblem(p) && m < |p.g.nodes| && i < |p.g.nodes[m].chanIdxs|
    ensures OfferOf(p, m, mi.(bestChan := 0), i) == OfferOf(p, m, mi, i)
  {
  }

  /** A node's offers never score below the node itself. */
  lemma OfferNotBelow(p: Problem, score: seq<nat>, info: seq<Info>, done: seq<nat>, m: nat, i: nat)
    requires ValidProblem(p) && EdgeMonotone(p) && SearchOk(p, score, info, done)
    requires Live(p.g, m) && info[m].distance < |p.g.nodes| < U32_MAX
    requires i < |p.g.nodes[m].chanIdxs| && OfferOf(p, m, info[m], i).Offer?
    ensures score[m] <= OfferOf(p, m, info[m], i).score
  {
    hide OfferOf, SearchOk, ValidProblem;
    RecordFacts(p, score, info, done, m);
    if info[m].distance > 0 {
      var w := RecordIsWalk(p, score, info, done, m);
      assert EdgeKeeps(p, w, i);
    }
  }

  /** Rewriting an unexpanded node's record leaves the other records right. */
  lemma ImproveKeepsNode(p: Problem, score: seq<nat>, info: seq<Info>, done: seq<nat>,
                         n: nat, s: nat, r: Info, x: nat)
    requires Sized(p, score, info) && x < |info| && n < |info| && n !in done && x != n
    requires NodeOk(p, score, info, done, x)
    ensures NodeOk(p, score[n := s], info[n := r], done, x)
  {
    hide MsatAddFee, InfoScore;
  }

  /** Writing an improved offer into an unexpanded node's record keeps the records right. */
  lemma ImproveKeepsSearch(p: Problem, score: seq<nat>, info: seq<Info>, done: seq<nat>, m: nat, i: nat)
    requires ValidProblem(p) && EdgeMonotone(p) && SearchOk(p, score, info, done)
    requires 0 < |done| <= |p.g.nodes| < U32_MAX && m == done[|done| - 1] && info[m].distance < U32_MAX
    requires i < |p.g.nodes[m].chanIdxs| && OfferOf(p, m, info[m], i).Offer?
    requires NeighborOf(p, m, i) !in done
    requires OfferOf(p, m, info[m], i).score < score[NeighborOf(p, m, i)]
    ensures var n, o := NeighborOf(p, m, i), OfferOf(p, m, info[m], i);
      SearchOk(p, score[n := o.score], info[n := o.info], done)
  {
    hide OfferOf, NeighborOf, MsatAddFee, InfoScore, TreeEdge, EdgeMonotone, ValidProblem, WellFormed;
    var n, o := NeighborOf(p, m, i), OfferOf(p, m, info[m], i);
    var score', info' := score[n := o.score], info[n := o.info];
    assert Live(p.g, m) && m in done && info[m].distance < |done|;
    assert NodeOk(p, score, info, done, n);
    OfferIsTreeEdge(p, score, info, m, i);
    OfferNotBelow(p, score, info, done, m, i);
    assert NodeOk(p, score', info', done, n);
    RewriteKeepsSearch(p, score, info, done, n, o.score, o.info);
  }

  lemma RewriteKeepsSearch(p: Problem, score: seq<nat>, info: seq<Info>, done: seq<nat>,
                           n: nat, s: nat, r: Info)
    requires SearchOk(p, score, info, done) && Live(p.g, n) && n !in done
    requires NodeOk(p, score[n := s], info[n := r], done, n)
    requires forall j :: 0 <= j < |done| ==> score[done[j]] <= s
    ensures SearchOk(p, score[n := s], info[n := r], done)
  {
    hide NodeOk;
    var score', info' := score[n := s], info[n := r];
    forall x: nat | Live(p.g, x) ensures NodeOk(p, score', info', done, x) {
      if x != n { ImproveKeepsNode(p, score, info, done, n, s, r, x); }
    }
  }

  /** ...and keeps every edge that was relaxed relaxed. */
  lemma ImproveKeepsRelaxed(p: Problem, score: seq<nat>, info: seq<Info>, m: nat, upto: nat,
                            n: nat, s: nat, r: Info)
    requires ValidProblem(p) && Sized(p, score, info)
    requires m < |p.g.nodes| && NodeRelaxed(p, score, info, m, upto)
    requires n < |p.g.nodes| && n != m && s <= score[n]
    ensures NodeRelaxed(p, score[n := s], info[n := r], m, upto)
  {
    hide OfferOf, NeighborOf;
    var score', info' := score[n := s], info[n := r];
    forall i | 0 <= i < upto && i < |p.g.nodes[m].chanIdxs|
      ensures Relaxed(p, score', info', m, i)
    {
      assert Relaxed(p, score, info, m, i);
    }
  }

  /** An edge to an expanded node is relaxed: scores never drop along edges. */
  lemma RelaxedIfDone(p: Problem, score: seq<nat>, info: seq<Info>, done: seq<nat>, m: nat, i: nat)
    requires ValidProblem(p) && EdgeMonotone(p) && SearchOk(p, score, info, done)
    requires 0 < |done| <= |p.g.nodes| < U32_MAX && m == done[|done| - 1] && info[m].distance < U32_MAX
    requires i < |p.g.nodes[m].chanIdxs| && NeighborOf(p, m, i) in done
    ensures Relaxed(p, score, info, m, i)
  {
    hide OfferOf, NeighborOf, NodeOk, EdgeMonotone, ValidProblem;
    if OfferOf(p, m, info[m], i).Offer? {
      OfferNotBelow(p, score, info, done, m, i);
    }
  }

  lemma NodeRelaxedExtend(p: Problem, score: seq<nat>, info: seq<Info>, m: nat, i: nat)
    requires ValidProblem(p) && Sized(p, score, info) && m < |p.g.nodes| && i < |p.g.nodes[m].chanIdxs|
    requires NodeRelaxed(p, score, info, m, i) && Relaxed(p, score, info, m, i)
    ensures NodeRelaxed(p, score, info, m, i + 1)
  {
    hide Relaxed;
  }

  /** All that an improved offer from the node in hand does to the records. */
  lemma ImproveStep(p: Problem, score: seq<nat>, info: seq<Info>, settled: seq<nat>, m: nat, i: nat)
    requires ValidProblem(p) && EdgeMonotone(p) && SearchOk(p, score, info, settled + [m])
    requires |settled| < |p.g.nodes| < U32_MAX && Live(p.g, m) && info[m].distance < U32_MAX
    requires i < |p.g.nodes[m].chanIdxs| && OfferOf(p, m, info[m], i).Offer?
    requires NeighborOf(p, m, i) !in settled
    requires OfferOf(p, m, info[m], i).score < score[NeighborOf(p, m, i)]
    requires AllRelaxed(p, score, info, settled) && NodeRelaxed(p, score, info, m, i)
    ensures NeighborOf(p, m, i) != m && score[m] <= OfferOf(p, m, info[m], i).score
    ensures var n, o := NeighborOf(p, m, i), OfferOf(p, m, info[m], i);
      var score', info' := score[n := o.score], info[n := o.info];
      && SearchOk(p, score', info', settled + [m])
      && AllRelaxed(p, score', info', settled)
      && NodeRelaxed(p, score', info', m, i + 1)
  {
    var n, o := NeighborOf(p, m, i), OfferOf(p, m, info[m], i);
    assert info[m].distance <= |settled| by { assert (settled + [m])[|settled|] == m; }
    OfferNotBelow(p, score, info, settled + [m], m, i);
    assert n != m;
    ImproveKeepsSearch(p, score, info, settled + [m], m, i);
    ImproveKeepsRelaxed(p, score, info, m, i, n, o.score, o.info);
    var score', info' := score[n := o.score], info[n := o.info];
    assert Relaxed(p, score', info', m, i);
    NodeRelaxedExtend(p, score', info', m, i);
    ImproveKeepsAllRelaxed(p, score, info, settled, n, o.score, o.info);
  }

  lemma ImproveKeepsAllRelaxed(p: Problem, score: seq<nat>, info: seq<Info>, settled: seq<nat>,
                               n: nat, s: nat, r: Info)
    requires ValidProblem(p) && Sized(p, score, info) && AllRelaxed(p, score, info, settled)
    requires n < |p.g.nodes| && n !in settled && s <= score[n]
    ensures AllRelaxed(p, score[n := s], info[n := r], settled)
  {
    hide NodeRelaxed;
    var score', info' := score[n := s], info[n := r];
    forall j | 0 <= j < |settled| && settled[j] < |p.g.nodes|
      ensures NodeRelaxed(p, score', info', settled[j], |p.g.nodes[settled[j]].chanIdxs|)
    {
      ImproveKeepsRelaxed(p, score, info, settled[j], |p.g.nodes[settled[j]].chanIdxs|, n, s, r);
    }
  }

  // ---- The queue of unexpanded nodes ----

  /** The context dijkstra_ sets up: binary heap, no paging. */
  const CTX: GheapIndex.Ctx := GheapIndex.Ctx(2, 1)

  /** less_comparer is reversed, so gheap's maximum is the lowest score. */
  ghost function Key(score: seq<nat>): nat -> int {
    (x: nat) => if x < |score| then -(score[x] as int) else 0
  }

  /** heap[..size] and heapptr are mutually inverse and hold exactly the unexpanded nodes. */
  ghost predicate QueueOk(p: Problem, ptr: seq<int>, heap: seq<nat>, size: nat, settled: seq<nat>) {
    && |ptr| == |p.g.nodes| && |heap| <= |p.g.nodes| && size + |settled| == |heap|
    && Gheap.Linked(heap, size, -1, ptr)
    && (forall i :: 0 <= i < size ==> Live(p.g, heap[i]) && heap[i] !in settled)
    && (forall x: nat :: Live(p.g, x) && x !in settled ==> 0 <= ptr[x] < size && heap[ptr[x]] == x)
    && (forall x: nat :: x in settled ==> x < |ptr| && ptr[x] == VISITED)
  }

  ghost predicate HeapOrdered(score: seq<nat>, heap: seq<nat>, size: nat) {
    size <= |heap| && Gheap.Ordered(CTX, heap, size, 0, Key(score))
  }

  /** Lowering a score leaves only the edge above its slot in doubt. */
  lemma LowerScore(score: seq<nat>, heap: seq<nat>, size: nat, pos: nat, s: nat)
    requires pos < size <= |heap| && HeapOrdered(score, heap, size)
    requires heap[pos] < |score| && s <= score[heap[pos]]
    requires forall i, j :: 0 <= i < j < size ==> heap[i] != heap[j]
    ensures Gheap.OrderedButUp(CTX, heap, size, 0, pos, Key(score[heap[pos] := s]))
  {
    hide Gheap.Parent;
    var key, key' := Key(score), Key(score[heap[pos] := s]);
    assert forall i :: 0 <= i < size && i != pos ==> key'(heap[i]) == key(heap[i]);
    assert key'(heap[pos]) >= key(heap[pos]);
    if pos > 0 {
      var up := Gheap.Parent(CTX, pos);
      assert key(heap[pos]) <= key(heap[up]);
    }
  }

  /** The root has the lowest score. */
  lemma RootBest(score: seq<nat>, heap: seq<nat>, size: nat, i: nat)
    requires i < size && HeapOrdered(score, heap, size) && heap[0] < |score| && heap[i] < |score|
    ensures score[heap[0]] <= score[heap[i]]
  {
    Gheap.RootIsMax(CTX, heap, size, i, Key(score));
  }

  /** A heap operation keeps the queue. */
  lemma PermuteKeepsQueue(p: Problem, ptr: seq<int>, heap: seq<nat>, size: nat, settled: seq<nat>,
                          ptr': seq<int>, heap': seq<nat>)
    requires QueueOk(p, ptr, heap, size, settled) && Gheap.Permuted(heap', ptr', size, heap, ptr)
    ensures QueueOk(p, ptr', heap', size, settled)
  {
    Gheap.PermutedMembers(heap', ptr', size, heap, ptr);
    forall i | 0 <= i < size ensures heap'[i] in heap[..size] {
      assert heap'[..size][i] in heap[..size];
    }
    forall x: nat | Live(p.g, x) && x !in settled ensures 0 <= ptr'[x] < size && heap'[ptr'[x]] == x {
      assert heap[..size][ptr[x]] == x;
      assert x in heap'[..size];
    }
  }

  /** Popping the root and marking it visited settles it. */
  lemma PopKeepsQueue(p: Problem, ptr: seq<int>, heap: seq<nat>, size: nat, settled: seq<nat>,
                      ptr': seq<int>, heap': seq<nat>)
    requires size > 0 && QueueOk(p, ptr, heap, size, settled)
    requires Gheap.Permuted(heap', ptr', size, heap, ptr) && heap'[size - 1] == heap[0]
    ensures heap[0] < |ptr'|
    ensures QueueOk(p, ptr'[heap[0] := VISITED], heap', size - 1, settled + [heap[0]])
  {
    PermuteKeepsQueue(p, ptr, heap, size, settled, ptr', heap');
    var q := ptr'[heap[0] := VISITED];
    forall i | 0 <= i < size - 1 ensures heap'[i] != heap[0] && q[heap'[i]] == i {
      assert ptr'[heap'[i]] == i;
    }
    forall x: nat | Live(p.g, x) && x !in settled + [heap[0]] ensures 0 <= q[x] < size - 1 && heap'[q[x]] == x {
      assert x !in settled && x != heap[0];
    }
  }

  /** The root joins the expanded nodes: it scores at least the settled and at most the rest. */
  lemma TakeInHand(p: Problem, score: seq<nat>, info: seq<Info>, settled: seq<nat>,
                   ptr: seq<int>, heap: seq<nat>, size: nat)
    requires SearchOk(p, score, info, settled) && QueueOk(p, ptr, heap, size, settled)
    requires size > 0 && HeapOrdered(score, heap, size) && info[heap[0]].distance < U32_MAX
    ensures SearchOk(p, score, info, settled + [heap[0]])
  {
    hide HeapOrdered;
    var cur, done := heap[0], settled + [heap[0]];
    forall x: nat | Live(p.g, x) && x !in settled ensures score[cur] <= score[x] {
      RootBest(score, heap, size, ptr[x]);
    }
    forall x: nat | Live(p.g, x) ensures NodeOk(p, score, info, done, x) {
      assert NodeOk(p, score, info, settled, x);
      hide TreeEdge;
    }
    assert NodeOk(p, score, info, settled, cur);
  }

  lemma NothingRelaxed(p: Problem, score: seq<nat>, info: seq<Info>, m: nat)
    requires ValidProblem(p) && Sized(p, score, info) && m < |p.g.nodes|
    ensures NodeRelaxed(p, score, info, m, 0)
  {
  }

  lemma AllRelaxedExtend(p: Problem, score: seq<nat>, info: seq<Info>, settled: seq<nat>, m: nat)
    requires ValidProblem(p) && Sized(p, score, info) && m < |p.g.nodes|
    requires AllRelaxed(p, score, info, settled)
    requires NodeRelaxed(p, score, info, m, |p.g.nodes[m].chanIdxs|)
    ensures AllRelaxed(p, score, info, settled + [m])
  {
    hide NodeRelaxed;
  }

  /** The number of live nodes with index below k. */
  function LiveCount(g: Graph, k: nat): nat
    requires k <= |g.nodes|
  {
    if k == 0 then 0 else LiveCount(g, k - 1) + (if Live(g, k - 1) then 1 else 0)
  }

  lemma {:induction false} LiveCountMonotone(g: Graph, a: nat, b: nat)
    requires a <= b <= |g.nodes|
    ensures LiveCount(g, a) <= LiveCount(g, b) <= LiveCount(g, a) + b - a
    decreases b
  {
    if a < b { LiveCountMonotone(g, a, b - 1); }
  }

  /** What a finished search leaves behind: exactly the settled nodes are reached, their
      records form a tree towards the start in score order, and no edge offers better. */
  ghost predicate Finished(p: Problem, score: seq<nat>, info: seq<Info>, settled: seq<nat>)
    requires ValidProblem(p)
  {
    && SearchOk(p, score, info, settled) && |settled| <= |p.g.nodes|
    && AllRelaxed(p, score, info, settled)
    && (forall x: nat :: Live(p.g, x) ==> (x in settled <==> info[x].distance < U32_MAX))
  }

  /** When the best unexpanded node is unreached, so are all others. */
  lemma AllReachedSettled(p: Problem, score: seq<nat>, info: seq<Info>, settled: seq<nat>,
                          ptr: seq<int>, heap: seq<nat>, size: nat)
    requires ValidProblem(p) && SearchOk(p, score, info, settled) && AllRelaxed(p, score, info, settled)
    requires QueueOk(p, ptr, heap, size, settled) && HeapOrdered(score, heap, size)
    requires size > 0 ==> info[heap[0]].distance == U32_MAX
    ensures Finished(p, score, info, settled)
  {
    hide HeapOrdered, AllRelaxed;
    forall x: nat | Live(p.g, x) ensures x in settled <==> info[x].distance < U32_MAX {
      assert NodeOk(p, score, info, settled, x);
      if x !in settled {
        assert NodeOk(p, score, info, settled, heap[0]);
        RootBest(score, heap, size, ptr[x]);
      }
    }
  }

  class Search {
    const p: Problem
    const info: array<Info>
    const score: array<nat>
    const heapptr: array<int>
    const heap: array<nat>
    var heapsize: nat
    /** Nodes in the order they were popped. */
    ghost var settled: seq<nat>

    constructor (p: Problem, numNodes: nat)
      requires ValidProblem(p) && numNodes == LiveCount(p.g, |p.g.nodes|)
      ensures this.p == p && Shape() && heapsize == heap.Length == numNodes && settled == []
      ensures fresh(info) && fresh(score) && fresh(heapptr) && fresh(heap)
    {
      LiveCountMonotone(p.g, 0, |p.g.nodes|);
      this.p := p;
      info := new Info[|p.g.nodes|];
      score := new nat[|p.g.nodes|];
      heapptr := new int[|p.g.nodes|];
      heap := new nat[numNodes];
      heapsize, settled := numNodes, [];
    }

    ghost predicate Shape()
      reads this
    {
      && ValidProblem(p)
      && info.Length == score.Length == heapptr.Length == |p.g.nodes|
      && heap.Length <= |p.g.nodes| <= 0x7FFF_FFFF
      && (heap as object) != score && (heap as object) != heapptr && (score as object) != heapptr
      && heapsize <= heap.Length
    }

    /** Invariant of the main loop, `done` being the settled nodes and the one in hand. */
    ghost predicate Valid(done: seq<nat>)
      reads this, info, score, heapptr, heap
    {
      && Shape()
      && QueueOk(p, heapptr[..], heap[..], heapsize, settled)
      && HeapOrdered(score[..], heap[..], heapsize)
      && SearchOk(p, score[..], info[..], done)
      && AllRelaxed(p, score[..], info[..], settled)
    }

    /** The body of the inner loop once an offer improves on the neighbour's score. */
    method Improve(cur: nat, i: nat, n: nat, o: Offer)
      requires Valid(settled + [cur]) && EdgeMonotone(p)
      requires heapsize > 0 && heap[0] == cur && Live(p.g, cur)
      requires info[cur].distance < U32_MAX
      requires i < |p.g.nodes[cur].chanIdxs|
      requires NodeRelaxed(p, score[..], info[..], cur, i)
      requires n == NeighborOf(p, cur, i) && n !in settled
      requires o == OfferOf(p, cur, info[cur], i) && o.Offer? && o.score < score[n]
      modifies info, score, heapptr, heap
      ensures Valid(settled + [cur])
      ensures heap[0] == cur && n != cur
      ensures NodeRelaxed(p, score[..], info[..], cur, i + 1)
      ensures info[..] == old(info[..])[n := o.info] && score[..] == old(score[..])[n := o.score]
    {
      hide SearchOk, AllRelaxed, NodeRelaxed, EdgeMonotone, OfferOf, NeighborOf, WellFormed, Gheap.Ordered,
           Gheap.OrderedButUp;
      ghost var s0, i0, h0, p0 := score[..], info[..], heap[..], heapptr[..];
      ImproveStep(p, s0, i0, settled, cur, i);
      LowerScore(s0, h0, heapsize, p0[n], o.score);
      info[n] := o.info;
      score[n] := o.score;
      assert info[..] == i0[n := o.info] && score[..] == s0[n := o.score];
      var sc := score[..];
      var less := (a: nat, b: nat) => a < |sc| && b < |sc| && sc[a] > sc[b];
      Gheap.RestoreAfterIncrease(CTX, less, Key(sc), heap, heapptr, heapsize, heapptr[n]);
      PermuteKeepsQueue(p, p0, h0, heapsize, settled, heapptr[..], heap[..]);
    }

    /** One pass of the inner loop: consider cur's i-th channel. */
    method Relax(cur: nat, i: nat)
      requires Valid(settled + [cur]) && EdgeMonotone(p)
      requires heapsize > 0 && heap[0] == cur && Live(p.g, cur)
      requires info[cur].distance < U32_MAX
      requires i < |p.g.nodes[cur].chanIdxs|
      requires NodeRelaxed(p, score[..], info[..], cur, i)
      modifies info, score, heapptr, heap
      ensures Valid(settled + [cur])
      ensures heap[0] == cur
      ensures NodeRelaxed(p, score[..], info[..], cur, i + 1)
      ensures forall x :: x in settled + [cur] ==>
        x < info.Length && info[x] == old(info[x]) && score[x] == old(score[x])
    {
      hide SearchOk, AllRelaxed, NodeRelaxed, EdgeMonotone, OfferOf, NeighborOf, WellFormed, Gheap.Ordered, HeapOrdered;
      var n := NeighborOf(p, cur, i);
      if heapptr[n] == VISITED {
        RelaxedIfDone(p, score[..], info[..], settled + [cur], cur, i);
        NodeRelaxedExtend(p, score[..], info[..], cur, i);
        return;
      }
      var o := OfferOf(p, cur, info[cur], i);
      if o.NoOffer? || o.score >= score[n] {
        assert Relaxed(p, score[..], info[..], cur, i);
        NodeRelaxedExtend(p, score[..], info[..], cur, i);
        return;
      }
      Improve(cur, i, n, o);
    }

    /** The inner loop: offer every channel of the root to its far end, then pop the root.
        Settled nodes keep their records, and the popped node is the one expanded. */
    method Expand()
      requires Valid(settled) && EdgeMonotone(p)
      requires heapsize > 0 && info[heap[0]].distance < U32_MAX
      modifies this, info, score, heapptr, heap
      ensures Valid(settled)
      ensures settled == old(settled) + [old(heap[0])] && heapsize == old(heapsize) - 1
      ensures heap[heapsize] == old(heap[0]) && heapptr[heap[heapsize]] == VISITED
      ensures forall x :: x in settled ==> x < info.Length && info[x] == old(info[x]) && score[x] == old(score[x])
    {
      hide SearchOk, AllRelaxed, NodeRelaxed, EdgeMonotone, OfferOf, NeighborOf, WellFormed, Gheap.Ordered, HeapOrdered;
      var cur := heap[0];
      TakeInHand(p, score[..], info[..], settled, heapptr[..], heap[..], heapsize);
      ghost var in0, s0 := info[..], score[..];
      NothingRelaxed(p, score[..], info[..], cur);
      for i := 0 to |p.g.nodes[cur].chanIdxs|
        invariant Valid(settled + [cur]) && heap[0] == cur && heapsize == old(heapsize) && settled == old(settled)
        invariant NodeRelaxed(p, score[..], info[..], cur, i)
        invariant forall x :: x in settled + [cur] ==> x < info.Length && info[x] == in0[x] && score[x] == s0[x]
      {
        Relax(cur, i);
      }
      assert AllRelaxed(p, score[..], info[..], settled + [cur]) by {
        AllRelaxedExtend(p, score[..], info[..], settled, cur);
      }
      ghost var h1, p1 := heap[..], heapptr[..];
      var sc := score[..];
      var less := (a: nat, b: nat) => a < |sc| && b < |sc| && sc[a] > sc[b];
      PopRoot(less);
      PopKeepsQueue(p, p1, h1, heapsize, settled, heapptr[..], heap[..]);
      ghost var p2 := heapptr[..];
      heapptr[cur] := VISITED;
      assert heapptr[..] == p2[cur := VISITED];
      heapsize := heapsize - 1;
      settled := settled + [cur];
    }

    /** gheap_pop_heap on the search's heap. */
    method PopRoot(less: (nat, nat) -> bool)
      requires Shape() && heapsize > 0
      requires Gheap.Linked(heap[..], heapsize, -1, heapptr[..])
      requires HeapOrdered(score[..], heap[..], heapsize)
      requires Gheap.Ranks(less, Key(score[..]), heapptr.Length)
      modifies heapptr, heap
      ensures Gheap.Permuted(heap[..], heapptr[..], heapsize, old(heap[..]), old(heapptr[..]))
      ensures HeapOrdered(score[..], heap[..], heapsize - 1)
      ensures heap[heapsize - 1] == old(heap[0])
    {
      Gheap.PopHeap(CTX, less, Key(score[..]), heap, heapptr, heapsize - 1);
    }

    /** Put node n into a heap slot with a record and a score. */
    method Place(n: nat, slot: nat, r: Info, sc: nat)
      requires Shape() && n < |p.g.nodes| && slot < heap.Length
      modifies info, score, heapptr, heap
      ensures heap[..] == old(heap[..])[slot := n] && heapptr[..] == old(heapptr[..])[n := slot]
      ensures info[..] == old(info[..])[n := r] && score[..] == old(score[..])[n := sc]
    {
      heap[slot] := n;
      heapptr[n] := slot;
      info[n] := r;
      score[n] := sc;
    }

    /** One node of mkheap's loop. */
    method Fill(n: nat, i: nat) returns (j: nat)
      requires Shape() && n < |p.g.nodes| && 0 < i <= heap.Length && (n != p.start && Live(p.g, n) ==> i < heap.Length)
      requires Fresh(p, score[..], info[..], n) && Filled(p, heapptr[..], heap[..], n, i)
      modifies info, score, heapptr, heap
      ensures Fresh(p, score[..], info[..], n + 1) && Filled(p, heapptr[..], heap[..], n + 1, j)
      ensures j == if n != p.start && Live(p.g, n) then i + 1 else i
    {
      hide WellFormed, Fresh, Filled, Live;
      FillStep(p, score[..], info[..], heapptr[..], heap[..], n, i);
      j := i;
      if Live(p.g, n) {
        if n == p.start {
          Place(n, 0, Info(0, 0, p.amount, info[n].bestChan), 0);
        } else {
          Place(n, i, UNREACHED, U64_MAX);
          j := i + 1;
        }
      }
    }

    /** mkheap: the start in slot 0, every other live node in a slot of its own. */
    method MkHeap()
      requires Shape() && heapsize == heap.Length == LiveCount(p.g, |p.g.nodes|) && settled == []
      modifies info, score, heapptr, heap
      ensures Valid([])
    {
      hide WellFormed, Fresh, Filled, SearchOk, AllRelaxed, HeapOrdered, QueueOk;
      var i: nat := 1;
      LiveCountMonotone(p.g, p.start + 1, |p.g.nodes|);
      NothingFilled(p, score[..], info[..], heapptr[..], heap[..]);
      for n: nat := 0 to |p.g.nodes|
        invariant i == LiveCount(p.g, n) + (if p.start < n then 0 else 1)
        invariant 1 <= i <= heap.Length
        invariant Fresh(p, score[..], info[..], n)
        invariant Filled(p, heapptr[..], heap[..], n, i)
      {
        LiveCountMonotone(p.g, n + 1, |p.g.nodes|);
        if n < p.start {
          LiveCountMonotone(p.g, n + 1, p.start);
        }
        i := Fill(n, i);
      }
      FilledIsQueue(p, score[..], info[..], heapptr[..], heap[..]);
      InitialSearch(p, score[..], info[..]);
    }

    /** dijkstra_'s main loop. */
    method Run()
      requires Valid(settled) && EdgeMonotone(p)
      modifies this, info, score, heapptr, heap
      ensures Shape() && Finished(p, score[..], info[..], settled)
    {
      hide SearchOk, AllRelaxed, Finished, EdgeMonotone, WellFormed, HeapOrdered;
      while heapsize != 0
        invariant Valid(settled)
        decreases heapsize
      {
        if info[heap[0]].distance == U32_MAX {
          break;
        }
        DistanceBound(p, score[..], info[..], settled, heap[0]);
        Expand();
      }
      AllReachedSettled(p, score[..], info[..], settled, heapptr[..], heap[..], heapsize);
    }
  }

  /** Records of the nodes below n are as a search starts. */
  ghost predicate Fresh(p: Problem, score: seq<nat>, info: seq<Info>, n: nat) {
    && n <= |p.g.nodes| == |score| == |info|
    && forall x: nat :: x < n && Live(p.g, x) ==>
         if x == p.start then score[x] == 0 && info[x] == Info(0, 0, p.amount, info[x].bestChan)
         else score[x] == U64_MAX && info[x] == UNREACHED
  }

  /** The slots mkheap has filled, up to i, after looking at the nodes below n. */
  ghost predicate Filled(p: Problem, ptr: seq<int>, heap: seq<nat>, n: nat, i: nat) {
    && n <= |p.g.nodes| == |ptr| && i <= |heap|
    && (forall k :: 0 <= k < i && (k > 0 || p.start < n) ==>
          heap[k] < n && Live(p.g, heap[k]) && ptr[heap[k]] == k)
    && (forall x: nat :: x < n && Live(p.g, x) ==>
          0 <= ptr[x] < i && heap[ptr[x]] == x && (x == p.start <==> ptr[x] == 0))
  }

  lemma NothingFilled(p: Problem, score: seq<nat>, info: seq<Info>, ptr: seq<int>, heap: seq<nat>)
    requires Sized(p, score, info) && |ptr| == |p.g.nodes| && |heap| > 0
    ensures Fresh(p, score, info, 0) && Filled(p, ptr, heap, 0, 1)
  {
  }

  /** One node of mkheap's loop: the start, another live node, or a free slot. */
  lemma FillStep(p: Problem, score: seq<nat>, info: seq<Info>, ptr: seq<int>, heap: seq<nat>, n: nat, i: nat)
    requires n < |p.g.nodes| && i > 0
    requires Fresh(p, score, info, n) && Filled(p, ptr, heap, n, i)
    ensures !Live(p.g, n) && n != p.start ==> Fresh(p, score, info, n + 1) && Filled(p, ptr, heap, n + 1, i)
    ensures Live(p.g, n) && n == p.start ==>
      && Fresh(p, score[n := 0], info[n := Info(0, 0, p.amount, info[n].bestChan)], n + 1)
      && Filled(p, ptr[n := 0], heap[0 := n], n + 1, i)
    ensures Live(p.g, n) && n != p.start && i < |heap| ==>
      && Fresh(p, score[n := U64_MAX], info[n := UNREACHED], n + 1)
      && Filled(p, ptr[n := i], heap[i := n], n + 1, i + 1)
  {
  }

  lemma FilledIsQueue(p: Problem, score: seq<nat>, info: seq<Info>, ptr: seq<int>, heap: seq<nat>)
    requires Live(p.g, p.start) && |heap| <= |p.g.nodes|
    requires Fresh(p, score, info, |p.g.nodes|) && Filled(p, ptr, heap, |p.g.nodes|, |heap|)
    ensures QueueOk(p, ptr, heap, |heap|, []) && HeapOrdered(score, heap, |heap|)
  {
    InitialOrder(p, score, heap, |heap|);
  }

  lemma InitialSearch(p: Problem, score: seq<nat>, info: seq<Info>)
    requires ValidProblem(p) && Fresh(p, score, info, |p.g.nodes|)
    ensures SearchOk(p, score, info, []) && AllRelaxed(p, score, info, [])
  {
    hide WellFormed;
  }

  lemma InitialOrder(p: Problem, score: seq<nat>, heap: seq<nat>, size: nat)
    requires size <= |heap|
    requires forall i :: 0 <= i < size ==> heap[i] < |score| && score[heap[i]] <= U64_MAX
    requires forall i :: 0 < i < size ==> score[heap[i]] == U64_MAX
    ensures HeapOrdered(score, heap, size)
  {
    hide Gheap.Parent;
  }

  lemma DistanceBound(p: Problem, score: seq<nat>, info: seq<Info>, done: seq<nat>, x: nat)
    requires SearchOk(p, score, info, done) && Live(p.g, x)
    ensures info[x].distance <= U32_MAX
  {
    assert NodeOk(p, score, info, done, x);
  }

  /** dijkstra_: `numNodes` is the graph's own count of its nodes. */
  method FindPaths(p: Problem, numNodes: nat) returns (s: Search)
    requires ValidProblem(p) && EdgeMonotone(p) && numNodes == LiveCount(p.g, |p.g.nodes|)
    ensures fresh(s) && s.p == p && s.Shape() && Finished(p, s.score[..], s.info[..], s.settled)
  {
    s := new Search(p, numNodes);
    s.MkHeap();
    s.Run();
  }
}
