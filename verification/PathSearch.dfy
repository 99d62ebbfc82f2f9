/** Searching a gossmap: the graph it holds is one that common/dijkstra.c can search, and the
    channel test of common/route.c picks the usable channels. */
module PathSearch {
  import opened Wrappers
  import opened Numbers
  import opened Graph
  import opened Arena
  import opened Amount
  import Fp16
  import opened Dijkstra
  import opened RouteScore
  import opened Route
  import Gossmap

  /** A valid arena is a searchable graph. */
  lemma GraphIsWellFormed(m: Map, anns: map<nat, Ann>)
    requires ValidMap(m, anns) && |m.nodeArr| <= ARENA_MAX
    ensures WellFormed(GraphOf(m))
  {
    var g := GraphOf(m);
    hide Indexed, HalfInRange;
    forall n: nat, i: nat | n < |g.nodes| && i < |g.nodes[n].chanIdxs| ensures ListedOk(g, n, i) {
      var c := m.nodeArr[n].chanIdxs[i];
      assert c in m.nodeArr[n].chanIdxs;
      assert LiveChan(m, c) && ChanOk(m.chanArr[c], |m.nodeArr|);
      assert c in m.nodeArr[m.chanArr[c].half0.nodeidx].chanIdxs;
      assert c in m.nodeArr[m.chanArr[c].half1.nodeidx].chanIdxs;
    }
  }

  ghost function LiveBelow(g: Graph, k: nat): (s: set<nat>)
    requires k <= |g.nodes|
    ensures forall x :: x in s <==> 0 <= x < k && Live(g, x)
  {
    if k == 0 then {} else LiveBelow(g, k - 1) + if Live(g, k - 1) then {k - 1} else {}
  }

  lemma {:induction false} LiveBelowSize(g: Graph, k: nat)
    requires k <= |g.nodes|
    ensures |LiveBelow(g, k)| == LiveCount(g, k)
  {
    hide Live;
    if k > 0 {
      LiveBelowSize(g, k - 1);
      assert k - 1 !in LiveBelow(g, k - 1);
      assert LiveBelow(g, k) == LiveBelow(g, k - 1) + if Live(g, k - 1) then {k - 1} else {};
    }
  }

  /** gossmap_num_nodes counts the live nodes, so mkheap fills every slot of its heap. */
  lemma NumNodesIsLiveCount(m: Map)
    requires NodesIndexed(m)
    ensures |m.nodes| == LiveCount(GraphOf(m), |m.nodeArr|)
  {
    var g := GraphOf(m);
    forall x: nat ensures x in m.nodes.Values <==> x in LiveBelow(g, |g.nodes|) {
      if x in LiveBelow(g, |g.nodes|) {
        assert LiveNode(m, x);
        var id :| id in m.nodes && m.nodes[id] == x;
      }
      if x in m.nodes.Values {
        var id :| id in m.nodes && m.nodes[id] == x;
        assert LiveNode(m, x);
      }
    }
    assert m.nodes.Values == LiveBelow(g, |g.nodes|);
    ValuesSize(m.nodes);
    LiveBelowSize(g, |g.nodes|);
  }

  /** route_can_carry: both halves enabled, an update known, and the amount within limits. */
  predicate CanCarry(chans: seq<Chan>, c: nat, dir: bool, amount: nat) {
    && c < |chans| && HalfInRange(chans[c].Half(dir))
    && chans[c].Half(dir).enabled && chans[c].Half(!dir).enabled
    && chans[c].CupdateOff(dir) != 0
    && Fp16.Capacity(chans[c].Half(dir).htlcMin, chans[c].Half(dir).htlcMax, amount)
  }

  /** After an update that fits, the channel carries every amount within the update's own
      limits that a 16-bit float can hold, if its other half is enabled too. */
  lemma UpdatedCanCarry(chans: seq<Chan>, c: nat, u: Gossmap.UpdateMsg, off: nat, amount: nat)
    requires c < |chans| && u.InRange() && off != 0 && chans[c].Half(!u.dir).enabled
    requires u.Fits() && !u.disabled
    requires u.htlcMin <= amount <= Fp16.CAP && (u.hasMax ==> amount <= u.htlcMax)
    ensures CanCarry(chans[c := Gossmap.Updated(chans[c], u, off)], c, u.dir, amount)
  {
    Fp16.CapacityIsConservative(u.htlcMin, if u.hasMax then u.htlcMax else Fp16.CAP, amount);
    Fp16.AtMostCap(0);
    Fp16.RoundsDown(u.htlcMin, 0);
    hide Fp16.Value, Fp16.FromU64;
  }

  /** What an update lets through its half: fees that fit and no disabled flag, and an amount that no
      compact value at or below its minimum, or at or above its maximum, parts from its limits. */
  ghost predicate Lets(u: Gossmap.UpdateMsg, amount: nat) {
    && amount <= Fp16.CAP
    && (forall f: Fp16.Fp :: Fp16.Value(f) <= u.htlcMin ==> Fp16.Value(f) <= amount)
    && (u.hasMax ==> forall f: Fp16.Fp :: u.htlcMax <= Fp16.Value(f) ==> amount <= Fp16.Value(f))
  }

  predicate Enables(u: Gossmap.UpdateMsg) {
    !u.disabled && u.baseFee < 0x100_0000 && u.propFee < 0x10_0000
  }

  /** A channel both of whose halves were updated carries an amount exactly when both updates enable
      their half and the one for its direction lets the amount through. */
  lemma CarriesExactly(chans: seq<Chan>, c: nat, u: Gossmap.UpdateMsg, off: nat, u': Gossmap.UpdateMsg, off': nat,
                       amount: nat)
    requires c < |chans| && u'.dir == !u.dir && Gossmap.Shows(chans[c], u, off) && Gossmap.Shows(chans[c], u', off')
    ensures CanCarry(chans, c, u.dir, amount) <==> Enables(u) && Enables(u') && off != 0 && Lets(u, amount)
  {
    var h := chans[c].Half(u.dir);
    Fp16.AtMostCap(h.htlcMax);
    Fp16.AtMostCap(0xFFFF);
    hide Fp16.Value;
    assert h.enabled <==> Enables(u);
    assert chans[c].Half(!u.dir).enabled <==> Enables(u');
    if Enables(u) { LetsExactly(h, u, amount); }
  }

  lemma LetsExactly(h: HalfChan, u: Gossmap.UpdateMsg, amount: nat)
    requires HalfInRange(h) && Gossmap.NearestBelow(h.htlcMin, u.htlcMin)
    requires if u.hasMax then Gossmap.NearestAbove(h.htlcMax, u.htlcMax) else Fp16.Value(h.htlcMax) == Fp16.CAP
    ensures Fp16.Value(h.htlcMin) <= amount <= Fp16.Value(h.htlcMax) <==> Lets(u, amount)
  {
    Fp16.AtMostCap(h.htlcMax);
    hide Fp16.Value;
  }

  lemma MapIsSearchable(m: Map, anns: map<nat, Ann>)
    requires ValidMap(m, anns) && |m.nodeArr| <= ARENA_MAX
    ensures WellFormed(GraphOf(m)) && |m.nodes| == LiveCount(GraphOf(m), |m.nodeArr|)
    ensures forall id :: id in m.nodes ==> Live(GraphOf(m), m.nodes[id])
  {
    GraphIsWellFormed(m, anns);
    hide WellFormed, LiveCount;
    NumNodesIsLiveCount(m);
    assert forall id :: id in m.nodes ==> LiveNode(m, m.nodes[id]);
  }

  type Score = (nat, nat, nat, nat) -> nat

  /** A search over the channels that can carry the amount. */
  function CarryProblem(g: Graph, dst: nat, amount: nat, risk: (nat, nat) -> nat, score: Score): Problem {
    Problem(g, dst, amount, (c: nat, dir: bool, amt: nat) => CanCarry(g.chans, c, dir, amt), risk, score)
  }

  /** Such a search and the route it gives from src to dst. */
  ghost predicate Routed(gossmap: Gossmap.Gossmap, src: NodeId, dst: NodeId, amount: nat, finalCltv: nat,
                         s: Search, r: Option<seq<Hop>>)
    reads gossmap, s, s.score, s.info
  {
    && src in gossmap.nodes && dst in gossmap.nodes
    && s.p.g == GraphOf(gossmap.M()) && s.p.start == gossmap.nodes[dst] && ValidProblem(s.p)
    && s.Shape() && Finished(s.p, s.score[..], s.info[..], s.settled)
    && (r.None? <==> gossmap.nodes[src] !in s.settled)
    && (r.Some? ==>
          && HopsCarry(gossmap.chanArr, r.value)
          && exists a, cltv :: RouteOk(s.p, gossmap.nodes[src], r.value, amount, finalCltv, a, cltv))
  }

  /** Searching and following the tree back: the route is missing exactly when src is not
      reached, and every hop can carry its amount. */
  method SearchRoute(gossmap: Gossmap.Gossmap, src: NodeId, dst: NodeId, amount: nat, finalCltv: nat, p: Problem)
      returns (s: Search, r: Option<seq<Hop>>)
    requires gossmap.Valid() && src in gossmap.nodes && dst in gossmap.nodes && finalCltv <= U32_MAX
    requires p == CarryProblem(GraphOf(gossmap.M()), gossmap.nodes[dst], amount, p.risk, p.pathScore)
    requires ValidProblem(p) && EdgeMonotone(p)
    ensures s.p == p && Routed(gossmap, src, dst, amount, finalCltv, s, r)
  {
    MapIsSearchable(gossmap.M(), gossmap.Anns());
    hide WellFormed, LiveCount, ValidMap, NodesOk, ChansOk, Live, Finished, RouteOk, EdgeMonotone,
         CanCarry, HopsFollow, HopsCarry;
    s := FindPaths(p, |gossmap.nodes|);
    r := RouteFromDijkstra(s, gossmap.nodes[src], amount, finalCltv);
    if r.Some? {
      FollowedIsCarried(p, s.info[..], r.value, finalCltv);
    }
  }

  lemma FollowedIsCarried(p: Problem, info: seq<Info>, hops: seq<Hop>, finalCltv: nat)
    requires p == CarryProblem(p.g, p.start, p.amount, p.risk, p.pathScore)
    requires HopsFollow(p, info, hops, p.amount, finalCltv)
    ensures HopsCarry(p.g.chans, hops)
  {
    hide CanCarry, HopCarries;
    forall j | 0 <= j < |hops| ensures HopCarries(p.g.chans, hops[j]) {
      assert HopFollows(p, info, hops[j], p.amount, finalCltv);
      CarriedHop(p.g.chans, hops[j]);
    }
  }

  lemma CarriedHop(chans: seq<Chan>, h: Hop)
    requires CanCarry(chans, h.chan, h.direction, h.amount)
    ensures HopCarries(chans, h)
  {
    hide Fp16.Value;
  }

  /** The hop's channel is enabled both ways, its direction has an update, and its amount lies within
      that update's limits as they are stored. */
  ghost predicate HopCarries(chans: seq<Chan>, h: Hop) {
    && h.chan < |chans| && chans[h.chan].half0.enabled && chans[h.chan].half1.enabled
    && chans[h.chan].CupdateOff(h.direction) != 0
    && var half := chans[h.chan].Half(h.direction);
    HalfInRange(half) && Fp16.Value(half.htlcMin) <= h.amount <= Fp16.Value(half.htlcMax)
  }

  ghost predicate HopsCarry(chans: seq<Chan>, hops: seq<Hop>) {
    forall j :: 0 <= j < |hops| ==> HopCarries(chans, hops[j])
  }

  // ---- By hop count ----

  function ShortestProblem(g: Graph, dst: nat, amount: nat, risk: (nat, nat) -> nat): Problem {
    CarryProblem(g, dst, amount, risk, (d: nat, cost: nat, rk: nat, c: nat) => ScoreShorter(d, cost, rk))
  }

  lemma ShortestIsValid(g: Graph, dst: nat, amount: nat, risk: (nat, nat) -> nat)
    requires WellFormed(g) && Live(g, dst) && amount <= U64_MAX
    ensures var p := ShortestProblem(g, dst, amount, risk); ValidProblem(p) && UsesShorter(p) && EdgeMonotone(p)
  {
    hide WellFormed, EdgeMonotone;
    ShorterIsEdgeMonotone(ShortestProblem(g, dst, amount, risk));
  }

  /** Finding a route from src to dst by hop count, as a plugin does with a gossmap. */
  method ShortestRoute(gossmap: Gossmap.Gossmap, src: NodeId, dst: NodeId, amount: nat, finalCltv: nat,
                       risk: (nat, nat) -> nat)
      returns (s: Search, r: Option<seq<Hop>>)
    requires gossmap.Valid() && src in gossmap.nodes && dst in gossmap.nodes
    requires amount <= U64_MAX && finalCltv <= U32_MAX
    ensures UsesShorter(s.p) && Routed(gossmap, src, dst, amount, finalCltv, s, r)
  {
    MapIsSearchable(gossmap.M(), gossmap.Anns());
    hide WellFormed, ValidMap, NodesOk, ChansOk, Live, Routed, EdgeMonotone, UsesShorter;
    var p := ShortestProblem(Graph(gossmap.nodeArr, gossmap.chanArr), gossmap.nodes[dst], amount, risk);
    ShortestIsValid(GraphOf(gossmap.M()), gossmap.nodes[dst], amount, risk);
    s, r := SearchRoute(gossmap, src, dst, amount, finalCltv, p);
  }

  // ---- By cost ----

  function CheapestProblem(g: Graph, dst: nat, amount: nat, riskfactor: nat): Problem {
    CarryProblem(g, dst, amount, (cost: nat, delay: nat) => RiskPrice(cost, riskfactor, delay),
                 (d: nat, cost: nat, rk: nat, c: nat) => ScoreCheaper(d, cost, rk))
  }

  /** No channel's delay is above `most`. */
  ghost predicate DelaysWithin(g: Graph, most: nat) {
    forall n, i :: 0 <= n < |g.nodes| && 0 <= i < |g.nodes[n].chanIdxs| && g.nodes[n].chanIdxs[i] < |g.chans| ==>
      g.chans[g.nodes[n].chanIdxs[i]].half0.delay <= most && g.chans[g.nodes[n].chanIdxs[i]].half1.delay <= most
  }

  /** Up to this riskfactor no 32-bit delay makes cost and risk of a carried amount wrap. */
  const RISKFACTOR_MAX: nat := 2508

  /** A path through every node stays within 32 bits of delay, and the riskfactor is small for it. */
  ghost predicate ModestRisk(g: Graph, riskfactor: nat, most: nat) {
    && DelaysWithin(g, most) && |g.nodes| * most <= U32_MAX
    && riskfactor * (|g.nodes| * most) <= RISKFACTOR_MAX * U32_MAX
  }

  /** The most that a carried amount becomes with one more fee. */
  const MOST_COST: nat := 9_005_345_627_385

  lemma FeeBound(cost: nat, h: HalfChan)
    requires cost <= Fp16.CAP && HalfInRange(h)
    ensures cost + ExactFee(cost, h.baseFee, h.propFee) <= MOST_COST
  {
    MulNonNegative(cost, 0xF_FFFF - h.propFee);
    assert cost * (0xF_FFFF - h.propFee) == cost * 0xF_FFFF - cost * h.propFee;
    assert cost * h.propFee <= Fp16.CAP * 0xF_FFFF;
  }

  lemma RiskBound(cost: nat, riskfactor: nat, delay: nat)
    requires cost <= MOST_COST && riskfactor * delay <= RISKFACTOR_MAX * U32_MAX
    ensures cost + RiskPrice(cost, riskfactor, delay) <= U64_MAX
  {
    ProductGrows(cost, riskfactor, delay, MOST_COST, RISKFACTOR_MAX, U32_MAX);
    assert Product(MOST_COST, RISKFACTOR_MAX, U32_MAX) == MOST_COST * RISKFACTOR_MAX * U32_MAX;
    hide Product;
  }

  /** A channel that passed the test was tried with an amount that fits its limits. */
  lemma CarriedAmount(chans: seq<Chan>, c: nat, dir: bool, amount: nat)
    requires CanCarry(chans, c, dir, amount)
    ensures amount <= Fp16.CAP
  {
    Fp16.AtMostCap(chans[c].Half(dir).htlcMax);
    hide Fp16.Value;
  }

  /** No edge of a search by cost makes the score drop. */
  lemma CheapestEdge(p: Problem, riskfactor: nat, most: nat, w: seq<nat>, i: nat)
    requires p == CheapestProblem(p.g, p.start, p.amount, riskfactor)
    requires ValidProblem(p) && ModestRisk(p.g, riskfactor, most) && 0 < |w| < |p.g.nodes| && Offered(p, w, i)
    requires To(p, w, i).totalDelay <= |p.g.nodes| * most
    ensures !EdgeDrops(p, w, i)
  {
    hide ValidProblem, Offered, From, To, HalfOf, RiskPrice, CanCarry, ExactFee, DelaysWithin;
    OfferedFacts(p, w, i);
    var mi, o := From(p, w, i), To(p, w, i);
    var c, dir :| p.channelOk(c, dir, mi.cost);
    CarriedAmount(p.g.chans, c, dir, mi.cost);
    FeeBound(mi.cost, HalfOf(p, w, i));
    LessDelay(riskfactor, o.totalDelay, |p.g.nodes| * most);
    RiskBound(o.cost, riskfactor, o.totalDelay);
  }

  lemma LessDelay(riskfactor: nat, d: nat, d': nat)
    requires d <= d'
    ensures riskfactor * d <= riskfactor * d'
  {
  }

  lemma WithinIsUpTo(p: Problem, most: nat)
    requires ValidProblem(p) && DelaysWithin(p.g, most)
    ensures DelaysUpTo(p, most)
  {
    forall m: nat, i: nat | m < |p.g.nodes| && i < |p.g.nodes[m].chanIdxs| ensures EdgeHalf(p, m, i).delay <= most {
      assert ListedOk(p.g, m, i);
    }
  }

  lemma CheapestIsMonotone(p: Problem, riskfactor: nat, most: nat)
    requires p == CheapestProblem(p.g, p.start, p.amount, riskfactor)
    requires ValidProblem(p) && UsesCheaper(p) && ModestRisk(p.g, riskfactor, most)
    ensures EdgeMonotone(p)
  {
    assert UsesRiskPrice(p, riskfactor);
    hide ValidProblem, UsesCheaper, UsesRiskPrice, RiskGrows, DelaysFit, Offered, To, EdgeMonotone, DelaysWithin,
         DelaysUpTo, EdgeDrops, CheapestProblem;
    WithinIsUpTo(p, most);
    ShortDelaysFit(p, most);
    RiskPriceIsRisk(p, riskfactor);
    CheaperIsEdgeMonotone(p);
    forall w: seq<nat>, i: nat | 0 < |w| < |p.g.nodes| ensures !EdgeDrops(p, w, i) {
      if EdgeDrops(p, w, i) {
        assert Offered(p, w, i) by { DropIsOffered(p, w, i); }
        CheapestEdge(p, riskfactor, most, w, i);
      }
    }
  }

  lemma DropIsOffered(p: Problem, w: seq<nat>, i: nat)
    requires ValidProblem(p) && EdgeDrops(p, w, i)
    ensures Offered(p, w, i)
  {
  }

  lemma CheapestIsValid(g: Graph, dst: nat, amount: nat, riskfactor: nat, most: nat)
    requires WellFormed(g) && Live(g, dst) && amount <= U64_MAX && ModestRisk(g, riskfactor, most)
    ensures var p := CheapestProblem(g, dst, amount, riskfactor);
      ValidProblem(p) && UsesCheaper(p) && UsesRiskPrice(p, riskfactor) && EdgeMonotone(p)
  {
    hide WellFormed, EdgeMonotone, ModestRisk, RiskPrice;
    CheapestIsMonotone(CheapestProblem(g, dst, amount, riskfactor), riskfactor, most);
  }

  /** Finding a route by cost, the risk price being risk_price's own. */
  method CheapestRoute(gossmap: Gossmap.Gossmap, src: NodeId, dst: NodeId, amount: nat, finalCltv: nat,
                       riskfactor: nat, ghost most: nat)
      returns (s: Search, r: Option<seq<Hop>>)
    requires gossmap.Valid() && src in gossmap.nodes && dst in gossmap.nodes
    requires amount <= U64_MAX && finalCltv <= U32_MAX && ModestRisk(GraphOf(gossmap.M()), riskfactor, most)
    ensures UsesCheaper(s.p) && UsesRiskPrice(s.p, riskfactor) && Routed(gossmap, src, dst, amount, finalCltv, s, r)
  {
    MapIsSearchable(gossmap.M(), gossmap.Anns());
    hide WellFormed, ValidMap, NodesOk, ChansOk, Live, Routed, EdgeMonotone, UsesCheaper, UsesRiskPrice, ModestRisk;
    var p := CheapestProblem(Graph(gossmap.nodeArr, gossmap.chanArr), gossmap.nodes[dst], amount, riskfactor);
    CheapestIsValid(GraphOf(gossmap.M()), gossmap.nodes[dst], amount, riskfactor, most);
    s, r := SearchRoute(gossmap, src, dst, amount, finalCltv, p);
  }
}
