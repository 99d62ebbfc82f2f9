/** Routes from a finished search (common/route.c). */
module Route {
  import opened Wrappers
  import opened Numbers
  import opened Amount
  import opened Graph
  import opened Dijkstra
  import opened RouteScore

  // ---- Hop counts ----

  /** The channel check ignores the amount. */
  ghost predicate AmountBlind(p: Problem) {
    forall c, dir, a, b :: p.channelOk(c, dir, a) == p.channelOk(c, dir, b)
  }

  /** m's i-th channel may be used towards m. */
  predicate Usable(p: Problem, m: nat, i: nat)
    requires ValidProblem(p) && m < |p.g.nodes| && i < |p.g.nodes[m].chanIdxs|
  {
    assert ListedOk(p.g, m, i);
    var c := p.g.nodes[m].chanIdxs[i];
    p.channelOk(c, !WhichHalf(p.g, m, c), 0)
  }

  /** Some usable channel leads from x to m. */
  ghost predicate HopEdge(p: Problem, x: nat, m: nat)
    requires ValidProblem(p)
  {
    m < |p.g.nodes| && exists i: nat ::
      i < |p.g.nodes[m].chanIdxs| && NeighborOf(p, m, i) == x && Usable(p, m, i)
  }

  /** w walks usable channels to the search's start (the payment's destination). */
  ghost predicate HopPath(p: Problem, w: seq<nat>)
    requires ValidProblem(p)
  {
    && w != [] && w[|w| - 1] == p.start
    && forall j :: 0 <= j < |w| - 1 ==> HopEdge(p, w[j], w[j + 1])
  }

  /** No fee addition overflowed from a settled node's cost. */
  ghost predicate NoFeeOverflow(p: Problem, info: seq<Info>, settled: seq<nat>)
    requires ValidProblem(p) && |info| == |p.g.nodes|
  {
    forall m: nat, i: nat {:trigger Usable(p, m, i)} ::
      m in settled && m < |p.g.nodes| && i < |p.g.nodes[m].chanIdxs| && Usable(p, m, i) ==>
        var c := p.g.nodes[m].chanIdxs[i];
        c < |p.g.chans| &&
        var h := p.g.chans[c].Half(!WhichHalf(p.g, m, c));
        MsatAddFee(info[m].cost, h.baseFee, h.propFee).Some?
  }

  /** A settled node makes an offer over each of its usable channels. */
  lemma UsableIsOffered(p: Problem, info: seq<Info>, settled: seq<nat>, m: nat, i: nat)
    requires ValidProblem(p) && |info| == |p.g.nodes| && UsesShorter(p) && AmountBlind(p)
    requires NoFeeOverflow(p, info, settled) && m in settled
    requires m < |p.g.nodes| && i < |p.g.nodes[m].chanIdxs| && Usable(p, m, i)
    requires info[m].distance < U32_MAX
    ensures OfferOf(p, m, info[m], i).Offer?
    ensures OfferOf(p, m, info[m], i).score / TWO_32 == info[m].distance + 1
  {
    hide ScoreShorter, MsatAddFee;
    assert ListedOk(p.g, m, i);
  }

  /** One hop towards a settled node: the far end is settled, at most one hop further. */
  lemma HopStep(p: Problem, score: seq<nat>, info: seq<Info>, settled: seq<nat>, x: nat, m: nat)
    requires ValidProblem(p) && Finished(p, score, info, settled) && UsesShorter(p) && AmountBlind(p)
    requires NoFeeOverflow(p, info, settled)
    requires m in settled && HopEdge(p, x, m)
    ensures Live(p.g, x) && x in settled && info[x].distance <= info[m].distance + 1
  {
    NodeLimit(p);
    hide WellFormed, ScoreShorter, MsatAddFee, TreeEdge, OfferOf, Usable, NoFeeOverflow, UsesShorter, AmountBlind,
         ValidProblem;
    var j :| 0 <= j < |settled| && settled[j] == m;
    assert info[m].distance <= j < 0x7FFF_FFFF;
    var i: nat :| i < |p.g.nodes[m].chanIdxs| && NeighborOf(p, m, i) == x && Usable(p, m, i);
    UsableIsOffered(p, info, settled, m, i);
    assert NodeRelaxed(p, score, info, settled[j], |p.g.nodes[settled[j]].chanIdxs|);
    assert Relaxed(p, score, info, m, i);
    assert NodeOk(p, score, info, settled, x);
    assert info[x].distance < U32_MAX;
    ScoreIsDistance(p, score, info, settled, x);
  }

  /** The upper half of a reached node's shorter-path score is its distance. */
  lemma ScoreIsDistance(p: Problem, score: seq<nat>, info: seq<Info>, settled: seq<nat>, x: nat)
    requires UsesShorter(p) && Sized(p, score, info) && x < |info|
    requires NodeOk(p, score, info, settled, x) && info[x].distance < U32_MAX
    ensures score[x] / TWO_32 == info[x].distance
  {
    hide ScoreShorter, MsatAddFee;
    if x != p.start {
      assert score[x] == InfoScore(p, info[x]);
      var i := info[x];
      assert score[x] == ScoreShorter(i.distance, i.cost, p.risk(i.cost, i.totalDelay));
    }
  }

  /** No usable path beats the distance found, and every node that has one is reached. */
  lemma {:induction false} HopLowerBound(p: Problem, score: seq<nat>, info: seq<Info>, settled: seq<nat>, w: seq<nat>)
    requires ValidProblem(p) && Finished(p, score, info, settled) && UsesShorter(p) && AmountBlind(p)
    requires NoFeeOverflow(p, info, settled) && HopPath(p, w)
    ensures Live(p.g, w[0]) && w[0] in settled && info[w[0]].distance <= |w| - 1
    decreases |w|
  {
    hide AllRelaxed, HopEdge, NoFeeOverflow, WellFormed;
    if |w| == 1 {
      assert NodeOk(p, score, info, settled, p.start);
    } else {
      assert forall j :: 0 <= j < |w[1..]| - 1 ==> HopEdge(p, w[1..][j], w[1..][j + 1]) by {
        forall j | 0 <= j < |w[1..]| - 1 ensures HopEdge(p, w[1..][j], w[1..][j + 1]) {
          assert HopEdge(p, w[j + 1], w[j + 1 + 1]);
        }
      }
      HopLowerBound(p, score, info, settled, w[1..]);
      assert HopEdge(p, w[0], w[0 + 1]);
      HopStep(p, score, info, settled, w[0], w[1]);
    }
  }

  /** A tree edge is a usable hop to the next node. */
  lemma TreeEdgeIsHop(p: Problem, score: seq<nat>, info: seq<Info>, x: nat)
    requires ValidProblem(p) && AmountBlind(p) && Sized(p, score, info) && x < |info|
    requires TreeEdge(p, score, info, x)
    ensures HopEdge(p, x, NextNode(p, x, info[x].bestChan))
  {
    hide MsatAddFee;
    var c := info[x].bestChan;
    var n := NextNode(p, x, c);
    assert n != x by { assert info[x].distance == info[n].distance + 1; }
    var i: nat :| i < |p.g.nodes[n].chanIdxs| && p.g.nodes[n].chanIdxs[i] == c;
    assert ListedOk(p.g, n, i);
    assert NeighborOf(p, n, i) == x && Usable(p, n, i);
  }

  /** The records themselves spell out a usable path of exactly the distance found. */
  lemma {:induction false} TreePath(p: Problem, score: seq<nat>, info: seq<Info>, settled: seq<nat>, x: nat)
      returns (w: seq<nat>)
    requires ValidProblem(p) && SearchOk(p, score, info, settled) && AmountBlind(p)
    requires Live(p.g, x) && info[x].distance < U32_MAX
    ensures HopPath(p, w) && w[0] == x && |w| == info[x].distance + 1
    decreases info[x].distance
  {
    hide ValidProblem, HopEdge, MsatAddFee, SearchOk, AmountBlind;
    RecordFacts(p, score, info, settled, x);
    if info[x].distance == 0 {
      w := [x];
    } else {
      TreeEdgeIsHop(p, score, info, x);
      var n := NextNode(p, x, info[x].bestChan);
      var v := TreePath(p, score, info, settled, n);
      w := [x] + v;
      forall j | 0 <= j < |w| - 1 ensures HopEdge(p, w[j], w[j + 1]) {
        if j > 0 {
          var k := j - 1;
          assert HopEdge(p, v[k], v[k + 1]);
        }
      }
    }
  }

  /** With route_score_shorter the distance found is the minimum hop count, and exactly the
      nodes with a usable path are reached. */
  lemma DistanceIsMinimumHops(p: Problem, score: seq<nat>, info: seq<Info>, settled: seq<nat>, x: nat)
    requires ValidProblem(p) && Finished(p, score, info, settled) && UsesShorter(p) && AmountBlind(p)
    requires NoFeeOverflow(p, info, settled) && Live(p.g, x)
    ensures info[x].distance < U32_MAX <==> exists w :: HopPath(p, w) && w[0] == x
    ensures info[x].distance < U32_MAX ==> exists w :: HopPath(p, w) && w[0] == x && |w| == info[x].distance + 1
    ensures forall w :: HopPath(p, w) && w[0] == x ==> info[x].distance + 1 <= |w|
  {
    hide HopEdge, NodeOk, AllRelaxed, NoFeeOverflow, AmountBlind, UsesShorter, ValidProblem, WellFormed;
    if info[x].distance < U32_MAX {
      var w := TreePath(p, score, info, settled, x);
    }
    forall w | HopPath(p, w) && w[0] == x ensures info[x].distance + 1 <= |w| && info[x].distance < U32_MAX {
      HopLowerBound(p, score, info, settled, w);
    }
  }

  // ---- Routes ----

  /** route_hop: the channel and direction taken, the node reached, and what is sent. */
  datatype Hop = Hop(chan: nat, direction: bool, node: nat, amount: nat, delay: nat)

  /** hops lead from cur to the search's start, each hop's amount and delay being what its
      far node must receive, with BOLT #7 fees compounding backwards from the final
      amount and cltv to what cur itself would have to be sent. */
  ghost predicate RouteOk(p: Problem, cur: nat, hops: seq<Hop>, finalAmount: nat, finalCltv: nat,
                          amount: nat, cltv: nat)
    decreases |hops|
  {
    if hops == [] then cur == p.start && amount == finalAmount && cltv == finalCltv
    else
      var h := hops[0];
      && h.chan < |p.g.chans|
      && var half := p.g.chans[h.chan].Half(h.direction);
      && half.nodeidx == cur && p.g.chans[h.chan].Half(!h.direction).nodeidx == h.node
      && RouteOk(p, h.node, hops[1..], finalAmount, finalCltv, h.amount, h.delay)
      && MsatAddFee(h.amount, half.baseFee, half.propFee) == Some(amount)
      && cltv == (h.delay + half.delay) % TWO_32
  }

  /** Each hop against the search's records. */
  ghost predicate HopsFollow(p: Problem, info: seq<Info>, hops: seq<Hop>, finalAmount: nat, finalCltv: nat) {
    forall j :: 0 <= j < |hops| ==> HopFollows(p, info, hops[j], finalAmount, finalCltv)
  }

  ghost predicate HopFollows(p: Problem, info: seq<Info>, h: Hop, finalAmount: nat, finalCltv: nat) {
    && h.node < |info| && h.amount <= info[h.node].cost
    && (finalAmount == p.amount ==>
          h.amount == info[h.node].cost && p.channelOk(h.chan, h.direction, h.amount))
    && h.delay == (finalCltv + info[h.node].totalDelay) % TWO_32
  }

  /** dijkstra_to_hops: the hops from cur, and the amount and cltv to send into the first. */
  method DijkstraToHops(p: Problem, info: seq<Info>, cur: nat, finalAmount: nat, finalCltv: nat,
                        ghost score: seq<nat>, ghost settled: seq<nat>)
      returns (r: Option<seq<Hop>>, amount: nat, cltv: nat)
    requires ValidProblem(p) && SearchOk(p, score, info, settled) && Live(p.g, cur)
    requires finalAmount <= p.amount && finalCltv <= U32_MAX
    ensures r.None? <==> info[cur].distance == U32_MAX
    ensures r.Some? ==>
      && |r.value| == info[cur].distance
      && RouteOk(p, cur, r.value, finalAmount, finalCltv, amount, cltv)
      && HopsFollow(p, info, r.value, finalAmount, finalCltv)
      && amount <= info[cur].cost && (finalAmount == p.amount ==> amount == info[cur].cost)
      && cltv == (finalCltv + info[cur].totalDelay) % TWO_32
    decreases info[cur].distance
  {
    hide ValidProblem, MsatAddFee, SearchOk, RouteOk, HopsFollow;
    RecordFacts(p, score, info, settled, cur);
    var dist := info[cur].distance;
    amount, cltv := finalAmount, finalCltv;
    if dist == 0 {
      EmptyRoute(p, info, finalAmount, finalCltv);
      return Some([]), amount, cltv;
    }
    if dist == U32_MAX {
      return None, amount, cltv;
    }
    var c := info[cur].bestChan;
    var direction := p.g.chans[c].half0.nodeidx != cur;
    var h := p.g.chans[c].Half(direction);
    assert h.nodeidx == cur;
    var next := p.g.chans[c].Half(!direction).nodeidx;
    assert next == NextNode(p, cur, c);
    var rest;
    rest, amount, cltv := DijkstraToHops(p, info, next, finalAmount, finalCltv, score, settled);
    if rest.None? {
      return None, amount, cltv;
    }
    var hop := Hop(c, direction, next, amount, cltv);
    RecordFacts(p, score, info, settled, next);
    HopIsSound(p, score, info, cur, hop, finalAmount, finalCltv);
    var sent := MsatAddFee(amount, h.baseFee, h.propFee);
    // The C aborts when this overflows.
    assert sent.Some?;
    amount := sent.value;
    cltv := (cltv + h.delay) % TWO_32;
    r := Some([hop] + rest.value);
    RouteExtends(p, info, cur, hop, rest.value, finalAmount, finalCltv, amount, cltv);
  }

  /** The hop over cur's best channel: its amount can be paid on, fits the search's records,
      and passes the channel check. */
  lemma HopIsSound(p: Problem, score: seq<nat>, info: seq<Info>, cur: nat, h: Hop, finalAmount: nat, finalCltv: nat)
    requires Sized(p, score, info) && cur < |info| && TreeEdge(p, score, info, cur)
    requires h.chan == info[cur].bestChan && h.direction == WhichHalf(p.g, cur, h.chan)
    requires h.node == NextNode(p, cur, h.chan)
    requires h.amount <= info[h.node].cost <= U64_MAX
    requires finalAmount == p.amount ==> h.amount == info[h.node].cost
    requires h.delay == (finalCltv + info[h.node].totalDelay) % TWO_32
    ensures HopFollows(p, info, h, finalAmount, finalCltv)
    ensures var half := p.g.chans[h.chan].Half(h.direction);
      && MsatAddFee(h.amount, half.baseFee, half.propFee).Some?
      && MsatAddFee(h.amount, half.baseFee, half.propFee).value <= info[cur].cost
      && (finalAmount == p.amount ==> MsatAddFee(h.amount, half.baseFee, half.propFee).value == info[cur].cost)
      && (h.delay + half.delay) % TWO_32 == (finalCltv + info[cur].totalDelay) % TWO_32
  {
    hide MsatAddFee, InfoScore;
    var half := p.g.chans[h.chan].Half(h.direction);
    AddFeeMonotone(h.amount, info[h.node].cost, half.baseFee, half.propFee);
  }

  lemma EmptyRoute(p: Problem, info: seq<Info>, finalAmount: nat, finalCltv: nat)
    ensures RouteOk(p, p.start, [], finalAmount, finalCltv, finalAmount, finalCltv)
    ensures HopsFollow(p, info, [], finalAmount, finalCltv)
  {
  }

  lemma RouteExtends(p: Problem, info: seq<Info>, cur: nat, h: Hop, rest: seq<Hop>,
                     finalAmount: nat, finalCltv: nat, amount: nat, cltv: nat)
    requires h.chan < |p.g.chans|
    requires p.g.chans[h.chan].Half(h.direction).nodeidx == cur
    requires p.g.chans[h.chan].Half(!h.direction).nodeidx == h.node
    requires RouteOk(p, h.node, rest, finalAmount, finalCltv, h.amount, h.delay)
    requires var half := p.g.chans[h.chan].Half(h.direction);
      MsatAddFee(h.amount, half.baseFee, half.propFee) == Some(amount)
    requires cltv == (h.delay + p.g.chans[h.chan].Half(h.direction).delay) % TWO_32
    requires HopFollows(p, info, h, finalAmount, finalCltv) && HopsFollow(p, info, rest, finalAmount, finalCltv)
    ensures RouteOk(p, cur, [h] + rest, finalAmount, finalCltv, amount, cltv)
    ensures HopsFollow(p, info, [h] + rest, finalAmount, finalCltv)
  {
    hide MsatAddFee, HopFollows;
    assert ([h] + rest)[1..] == rest;
  }

  /** route_from_dijkstra: NULL exactly when the source is unreached. */
  method RouteFromDijkstra(s: Search, src: nat, finalAmount: nat, finalCltv: nat) returns (r: Option<seq<Hop>>)
    requires s.Shape() && Finished(s.p, s.score[..], s.info[..], s.settled)
    requires Live(s.p.g, src) && finalAmount <= s.p.amount && finalCltv <= U32_MAX
    ensures r.None? <==> src !in s.settled
    ensures r.Some? ==>
      && |r.value| == s.info[src].distance
      && HopsFollow(s.p, s.info[..], r.value, finalAmount, finalCltv)
      && exists amount, cltv :: RouteOk(s.p, src, r.value, finalAmount, finalCltv, amount, cltv)
  {
    hide WellFormed, SearchOk, AllRelaxed, HopsFollow, RouteOk;
    RecordFacts(s.p, s.score[..], s.info[..], s.settled, src);
    var amount, cltv;
    r, amount, cltv := DijkstraToHops(s.p, s.info[..], src, finalAmount, finalCltv, s.score[..], s.settled);
  }
}
