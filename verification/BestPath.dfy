/** What a finished search has found, where there is no risk price: the best of all walks in the
    order of its score. */
module BestPath {
  import opened Wrappers
  import opened Numbers
  import opened Amount
  import opened Graph
  import opened Dijkstra
  import opened RouteScore
  import opened Route

  ghost predicate NoRisk(p: Problem) {
    forall cost, delay :: p.risk(cost, delay) == 0
  }

  lemma NoRiskfactor(p: Problem)
    requires UsesRiskPrice(p, 0)
    ensures NoRisk(p)
  {
    hide RiskPrice;
    forall cost, delay ensures p.risk(cost, delay) == 0 { RiskOfNothing(cost, delay); }
  }

  lemma RiskOfNothing(cost: nat, delay: nat)
    ensures RiskPrice(cost, 0, delay) == 0
  {
    assert cost * 0 * delay == 0;
  }

  // ---- Offers ----

  /** A walk costs at least the amount. */
  lemma {:induction false} WalkCost(p: Problem, w: seq<nat>)
    requires ValidProblem(p) && WalkEnd(p, w).Some?
    ensures p.amount <= WalkEnd(p, w).value.info.cost <= U64_MAX
    decreases |w|
  {
    hide OfferOf;
    if w != [] {
      var v, i := w[..|w| - 1], w[|w| - 1];
      WalkCost(p, v);
      CostGrows(p, WalkEnd(p, v).value.node, WalkEnd(p, v).value.info, i);
    }
  }

  lemma CostGrows(p: Problem, m: nat, mi: Info, i: nat)
    requires ValidProblem(p) && m < |p.g.nodes| && i < |p.g.nodes[m].chanIdxs| && mi.cost <= U64_MAX
    requires OfferOf(p, m, mi, i).Offer?
    ensures mi.cost <= OfferOf(p, m, mi, i).info.cost <= U64_MAX
  {
    hide MsatAddFee;
    var h := EdgeHalf(p, m, i);
    if MsatAddFee(mi.cost, h.baseFee, h.propFee).Some? {
      AddFeeMonotone(mi.cost, mi.cost, h.baseFee, h.propFee);
    }
  }

  /** Who has to send less can offer what the other offers, for less. */
  lemma LowerOffer(p: Problem, m: nat, mi: Info, mi': Info, i: nat)
    requires ValidProblem(p) && AmountBlind(p) && m < |p.g.nodes| && i < |p.g.nodes[m].chanIdxs|
    requires mi.cost <= mi'.cost <= U64_MAX && OfferOf(p, m, mi', i).Offer?
    ensures OfferOf(p, m, mi, i).Offer?
    ensures var o, o' := OfferOf(p, m, mi, i).info, OfferOf(p, m, mi', i).info;
      o.cost <= o'.cost <= U64_MAX && (mi.cost < mi'.cost ==> o.cost < o'.cost)
  {
    hide MsatAddFee;
    var h := EdgeHalf(p, m, i);
    if MsatAddFee(mi'.cost, h.baseFee, h.propFee).Some? {
      AddFeeMonotone(mi.cost, mi'.cost, h.baseFee, h.propFee);
      if mi.cost < mi'.cost { AddFeeStrict(mi.cost, mi'.cost, h.baseFee, h.propFee); }
    }
  }

  /** An offer of a settled node is taken, or beaten. */
  lemma OfferTaken(p: Problem, score: seq<nat>, info: seq<Info>, settled: seq<nat>, m: nat, i: nat)
    requires ValidProblem(p) && Finished(p, score, info, settled)
    requires m in settled && Live(p.g, m) && i < |p.g.nodes[m].chanIdxs| && OfferOf(p, m, info[m], i).Offer?
    requires InfoScore(p, OfferOf(p, m, info[m], i).info) < U64_MAX
    ensures var x, o := NeighborOf(p, m, i), OfferOf(p, m, info[m], i).info;
      && x in settled && info[x].distance < U32_MAX
      && (x == p.start || InfoScore(p, info[x]) <= InfoScore(p, o))
      && o.distance == info[m].distance + 1 < U32_MAX
  {
    NodeLimit(p);
    var j :| 0 <= j < |settled| && settled[j] == m;
    assert info[m].distance <= j < 0x7FFF_FFFF;
    OfferIsItsScore(p, m, info[m], i);
    hide WellFormed, MsatAddFee, TreeEdge, OfferOf, ValidProblem, InfoScore;
    assert NodeRelaxed(p, score, info, settled[j], |p.g.nodes[settled[j]].chanIdxs|);
    assert Relaxed(p, score, info, m, i);
    var x := NeighborOf(p, m, i);
    assert NodeOk(p, score, info, settled, x);
    if x != p.start { TreeScore(p, score, info, x); }
  }

  lemma OfferIsItsScore(p: Problem, m: nat, mi: Info, i: nat)
    requires ValidProblem(p) && m < |p.g.nodes| && i < |p.g.nodes[m].chanIdxs| && mi.distance < 0x7FFF_FFFF
    requires OfferOf(p, m, mi, i).Offer?
    ensures var o := OfferOf(p, m, mi, i); o.score == InfoScore(p, o.info) && o.info.distance == mi.distance + 1
  {
    hide MsatAddFee;
  }

  lemma TreeScore(p: Problem, score: seq<nat>, info: seq<Info>, x: nat)
    requires Sized(p, score, info) && x < |info| && TreeEdge(p, score, info, x)
    ensures score[x] == InfoScore(p, info[x])
  {
  }

  lemma StartRecord(p: Problem, score: seq<nat>, info: seq<Info>, settled: seq<nat>)
    requires ValidProblem(p) && Finished(p, score, info, settled)
    ensures p.start in settled && info[p.start].cost == p.amount && info[p.start].distance == 0
  {
    hide WellFormed, AllRelaxed, TreeEdge;
    assert NodeOk(p, score, info, settled, p.start);
  }

  // ---- By cost ----

  /** The record at the end of a walk of n steps, and that walk's own. */
  ghost predicate CostsLess(info: seq<Info>, settled: seq<nat>, s: Stop, n: nat)
    requires s.node < |info|
  {
    && (s.info.cost < U32_MAX ==>
          && s.node in settled
          && (info[s.node].cost < s.info.cost
              || (info[s.node].cost == s.info.cost && info[s.node].distance <= n)))
    && (s.node in settled ==> Capped(info[s.node].cost) <= Capped(s.info.cost))
  }

  /** With route_score_cheaper, no usable walk costs less than what was found, and none that costs
      the same is shorter, as far as 32 bits tell; a walk that costs less than 32 bits hold leads to
      a node that is reached. */
  lemma {:induction false} CostIsMinimum(p: Problem, score: seq<nat>, info: seq<Info>, settled: seq<nat>, w: seq<nat>)
    requires ValidProblem(p) && Finished(p, score, info, settled) && UsesCheaper(p) && NoRisk(p) && AmountBlind(p)
    requires WalkEnd(p, w).Some?
    ensures CostsLess(info, settled, WalkEnd(p, w).value, |w|)
    decreases |w|
  {
    hide ValidProblem, Finished, OfferOf, UsesCheaper, NoRisk, AmountBlind;
    if w == [] {
      StartRecord(p, score, info, settled);
    } else {
      hide CostsLess;
      var v, i := w[..|w| - 1], w[|w| - 1];
      CostIsMinimum(p, score, info, settled, v);
      WalkCost(p, v);
      CostStep(p, score, info, settled, WalkEnd(p, v).value, i, |v|);
    }
  }

  /** One more channel. */
  lemma CostStep(p: Problem, score: seq<nat>, info: seq<Info>, settled: seq<nat>, s: Stop, i: nat, n: nat)
    requires ValidProblem(p) && Finished(p, score, info, settled) && UsesCheaper(p) && NoRisk(p) && AmountBlind(p)
    requires Live(p.g, s.node) && i < |p.g.nodes[s.node].chanIdxs| && CostsLess(info, settled, s, n)
    requires p.amount <= s.info.cost <= U64_MAX && OfferOf(p, s.node, s.info, i).Offer?
    ensures CostsLess(info, settled, Stop(NeighborOf(p, s.node, i), OfferOf(p, s.node, s.info, i).info), n + 1)
  {
    hide ValidProblem, OfferOf, NoRisk, AmountBlind, UsesCheaper, SearchOk, AllRelaxed, InfoScore;
    var m, x, o := s.node, NeighborOf(p, s.node, i), OfferOf(p, s.node, s.info, i).info;
    CostGrows(p, m, s.info, i);
    RecordFacts(p, score, info, settled, m);
    RecordFacts(p, score, info, settled, x);
    if s.info.cost < U32_MAX {
      LowerOffer(p, m, info[m], s.info, i);
      var o' := OfferOf(p, m, info[m], i).info;
      Reached(p, score, info, settled, m, i);
      StartRecord(p, score, info, settled);
      if x != p.start { CheaperFirst(p, info[x], o'); }
    }
  }

  lemma CheaperFirst(p: Problem, a: Info, b: Info)
    requires UsesCheaper(p) && NoRisk(p) && InfoScore(p, a) <= InfoScore(p, b)
    requires a.cost <= U64_MAX && b.cost <= U64_MAX && a.distance <= U32_MAX && b.distance <= U32_MAX
    ensures Capped(a.cost) < Capped(b.cost) || (Capped(a.cost) == Capped(b.cost) && a.distance <= b.distance)
  {
    hide ScoreCheaper;
    CheaperOrder(b.distance, b.cost, 0, a.distance, a.cost, 0);
  }

  /** No score by cost or distance is the one of an unreached node. */
  lemma Reached(p: Problem, score: seq<nat>, info: seq<Info>, settled: seq<nat>, m: nat, i: nat)
    requires ValidProblem(p) && Finished(p, score, info, settled) && (UsesCheaper(p) || UsesShorter(p))
    requires m in settled && Live(p.g, m) && i < |p.g.nodes[m].chanIdxs| && OfferOf(p, m, info[m], i).Offer?
    ensures var x, o := NeighborOf(p, m, i), OfferOf(p, m, info[m], i).info;
      && x in settled && info[x].distance < U32_MAX
      && (x == p.start || InfoScore(p, info[x]) <= InfoScore(p, o))
      && o.distance == info[m].distance + 1 < U32_MAX
  {
    NodeLimit(p);
    var j :| 0 <= j < |settled| && settled[j] == m;
    assert info[m].distance <= j < 0x7FFF_FFFF;
    OfferIsItsScore(p, m, info[m], i);
    BelowUnreached(p, OfferOf(p, m, info[m], i).info);
    hide OfferOf, UsesCheaper, UsesShorter, Finished, ValidProblem, InfoScore;
    OfferTaken(p, score, info, settled, m, i);
  }

  lemma BelowUnreached(p: Problem, o: Info)
    requires (UsesCheaper(p) || UsesShorter(p)) && o.distance <= 0x7FFF_FFFF
    ensures InfoScore(p, o) < U64_MAX
  {
  }

  // ---- By hop count ----

  ghost predicate HopsLess(info: seq<Info>, settled: seq<nat>, s: Stop, n: nat)
    requires s.node < |info|
  {
    && s.node in settled
    && (info[s.node].distance < n
        || (info[s.node].distance == n && Capped(info[s.node].cost) <= Capped(s.info.cost)))
  }

  /** With route_score_shorter, no usable walk is shorter than what was found, and none of the same
      length costs less, as far as 32 bits tell. */
  lemma {:induction false} CostBreaksTies(p: Problem, score: seq<nat>, info: seq<Info>, settled: seq<nat>, w: seq<nat>)
    requires ValidProblem(p) && Finished(p, score, info, settled) && UsesShorter(p) && NoRisk(p) && AmountBlind(p)
    requires NoFeeOverflow(p, info, settled) && WalkEnd(p, w).Some?
    ensures HopsLess(info, settled, WalkEnd(p, w).value, |w|)
    decreases |w|
  {
    hide ValidProblem, Finished, OfferOf, UsesShorter, NoRisk, AmountBlind, NoFeeOverflow;
    if w == [] {
      StartRecord(p, score, info, settled);
    } else {
      hide HopsLess;
      var v, i := w[..|w| - 1], w[|w| - 1];
      CostBreaksTies(p, score, info, settled, v);
      WalkCost(p, v);
      TieStep(p, score, info, settled, WalkEnd(p, v).value, i, |v|);
    }
  }

  lemma TieStep(p: Problem, score: seq<nat>, info: seq<Info>, settled: seq<nat>, s: Stop, i: nat, n: nat)
    requires ValidProblem(p) && Finished(p, score, info, settled) && UsesShorter(p) && NoRisk(p) && AmountBlind(p)
    requires NoFeeOverflow(p, info, settled)
    requires Live(p.g, s.node) && i < |p.g.nodes[s.node].chanIdxs| && HopsLess(info, settled, s, n)
    requires p.amount <= s.info.cost <= U64_MAX && OfferOf(p, s.node, s.info, i).Offer?
    ensures HopsLess(info, settled, Stop(NeighborOf(p, s.node, i), OfferOf(p, s.node, s.info, i).info), n + 1)
  {
    hide ValidProblem, OfferOf, NoRisk, AmountBlind, UsesShorter, SearchOk, AllRelaxed, InfoScore, NoFeeOverflow,
         Usable;
    var m, x, o := s.node, NeighborOf(p, s.node, i), OfferOf(p, s.node, s.info, i).info;
    CostGrows(p, m, s.info, i);
    RecordFacts(p, score, info, settled, m);
    RecordFacts(p, score, info, settled, x);
    OfferedIsUsable(p, m, s.info, i);
    UsableIsOffered(p, info, settled, m, i);
    var o' := OfferOf(p, m, info[m], i).info;
    CostGrows(p, m, info[m], i);
    if info[m].cost <= s.info.cost { LowerOffer(p, m, info[m], s.info, i); }
    Reached(p, score, info, settled, m, i);
    StartRecord(p, score, info, settled);
    if x != p.start { ShorterFirst(p, info[x], o'); }
  }

  lemma OfferedIsUsable(p: Problem, m: nat, mi: Info, i: nat)
    requires ValidProblem(p) && AmountBlind(p) && m < |p.g.nodes| && i < |p.g.nodes[m].chanIdxs|
    requires OfferOf(p, m, mi, i).Offer?
    ensures Usable(p, m, i)
  {
  }

  lemma ShorterFirst(p: Problem, a: Info, b: Info)
    requires UsesShorter(p) && NoRisk(p) && InfoScore(p, a) <= InfoScore(p, b)
    requires a.cost <= U64_MAX && b.cost <= U64_MAX && a.distance <= U32_MAX && b.distance <= U32_MAX
    ensures a.distance < b.distance || (a.distance == b.distance && Capped(a.cost) <= Capped(b.cost))
  {
    hide ScoreShorter;
    ShorterOrder(b.distance, b.cost, 0, a.distance, a.cost, 0);
  }
}
