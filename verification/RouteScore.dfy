/** The two path scores of common/route.c, the risk price of common/dijkstra.c, and when a score
    never drops along an edge of a search. */
module RouteScore {
  import opened Wrappers
  import opened Numbers
  import opened Amount
  import opened Graph
  import opened Dijkstra

  /** costs_to_score: the wrapped 64-bit sum, capped to 32 bits. */
  function CostsToScore(cost: nat, risk: nat): (s: nat)
    ensures s <= U32_MAX
  {
    var costs := (cost + risk) % TWO_64;
    if costs > U32_MAX then U32_MAX else costs
  }

  /** route_score_shorter. */
  function ScoreShorter(distance: nat, cost: nat, risk: nat): (s: nat)
    ensures s <= U64_MAX
    ensures s / TWO_32 == distance % TWO_32
  {
    CostsToScore(cost, risk) + (distance % TWO_32) * TWO_32
  }

  /** route_score_cheaper. */
  function ScoreCheaper(distance: nat, cost: nat, risk: nat): (s: nat)
    ensures s <= U64_MAX
    ensures s / TWO_32 == CostsToScore(cost, risk)
  {
    CostsToScore(cost, risk) * TWO_32 + distance % TWO_32
  }

  ghost predicate UsesShorter(p: Problem) {
    forall d, cost, r, c :: p.pathScore(d, cost, r, c) == ScoreShorter(d, cost, r)
  }

  ghost predicate UsesCheaper(p: Problem) {
    forall d, cost, r, c :: p.pathScore(d, cost, r, c) == ScoreCheaper(d, cost, r)
  }

  /** A sum of cost and risk as the scores see it. */
  function Capped(costs: nat): nat {
    if costs > U32_MAX then U32_MAX else costs
  }

  /** "Prioritize distance over costs": costs decide among equal distances. */
  lemma ShorterOrder(d: nat, cost: nat, risk: nat, d': nat, cost': nat, risk': nat)
    requires d <= U32_MAX && d' <= U32_MAX && cost + risk <= U64_MAX && cost' + risk' <= U64_MAX
    ensures ScoreShorter(d, cost, risk) < ScoreShorter(d', cost', risk') <==>
      d < d' || (d == d' && Capped(cost + risk) < Capped(cost' + risk'))
  {
    CappedIs(cost, risk);
    CappedIs(cost', risk');
    hide CostsToScore;
  }

  /** "Prioritize costs over distance": the distance decides among equal costs. */
  lemma CheaperOrder(d: nat, cost: nat, risk: nat, d': nat, cost': nat, risk': nat)
    requires d <= U32_MAX && d' <= U32_MAX && cost + risk <= U64_MAX && cost' + risk' <= U64_MAX
    ensures ScoreCheaper(d, cost, risk) < ScoreCheaper(d', cost', risk') <==>
      Capped(cost + risk) < Capped(cost' + risk') || (Capped(cost + risk) == Capped(cost' + risk') && d < d')
  {
    CappedIs(cost, risk);
    CappedIs(cost', risk');
    hide CostsToScore;
  }

  lemma CappedIs(cost: nat, risk: nat)
    requires cost + risk <= U64_MAX
    ensures CostsToScore(cost, risk) == Capped(cost + risk)
  {
  }

  // ---- Edges a search can come to ----

  /** The values a reached node's record can have. */
  predicate InRange(mi: Info) {
    mi.distance < U32_MAX && mi.totalDelay <= U32_MAX && mi.cost <= U64_MAX
  }

  /** The end of w makes an offer over its i-th channel. */
  ghost predicate Offered(p: Problem, w: seq<nat>, i: nat)
    requires ValidProblem(p)
  {
    && WalkEnd(p, w).Some?
    && var s := WalkEnd(p, w).value;
    i < |p.g.nodes[s.node].chanIdxs| && OfferOf(p, s.node, s.info, i).Offer?
  }

  /** The record at the end of w... */
  ghost function From(p: Problem, w: seq<nat>, i: nat): Info
    requires ValidProblem(p) && Offered(p, w, i)
  {
    WalkEnd(p, w).value.info
  }

  /** ...the one it offers over channel i... */
  ghost function To(p: Problem, w: seq<nat>, i: nat): Info
    requires ValidProblem(p) && Offered(p, w, i)
  {
    OfferOf(p, WalkEnd(p, w).value.node, From(p, w, i), i).info
  }

  /** ...and the half whose fee and delay that adds. */
  ghost function HalfOf(p: Problem, w: seq<nat>, i: nat): (h: HalfChan)
    requires ValidProblem(p) && Offered(p, w, i)
    ensures HalfInRange(h)
  {
    EdgeHalf(p, WalkEnd(p, w).value.node, i)
  }

  function EdgeHalf(p: Problem, m: nat, i: nat): (h: HalfChan)
    requires ValidProblem(p) && m < |p.g.nodes| && i < |p.g.nodes[m].chanIdxs|
    ensures HalfInRange(h)
  {
    assert ListedOk(p.g, m, i);
    var c := p.g.nodes[m].chanIdxs[i];
    p.g.chans[c].Half(!WhichHalf(p.g, m, c))
  }

  /** An offer is one hop longer, adds the channel's fee and delay, and was tested for what it carries. */
  lemma OfferGrows(p: Problem, m: nat, mi: Info, i: nat)
    requires ValidProblem(p) && m < |p.g.nodes| && i < |p.g.nodes[m].chanIdxs| && InRange(mi)
    requires OfferOf(p, m, mi, i).Offer?
    ensures var o, h := OfferOf(p, m, mi, i), EdgeHalf(p, m, i);
      && o.score == InfoScore(p, o.info) && o.info.distance == mi.distance + 1
      && mi.cost <= o.info.cost <= U64_MAX && o.info.cost == mi.cost + ExactFee(mi.cost, h.baseFee, h.propFee)
      && o.info.totalDelay == (mi.totalDelay + h.delay) % TWO_32
      && exists c, dir :: p.channelOk(c, dir, mi.cost)
  {
    hide MsatAddFee, ExactFee;
    var h := EdgeHalf(p, m, i);
    if MsatAddFee(mi.cost, h.baseFee, h.propFee).Some? {
      AddFeeMonotone(mi.cost, mi.cost, h.baseFee, h.propFee);
      AddFeeExact(mi.cost, h.baseFee, h.propFee);
    }
  }

  /** A walk's record counts its hops and stays in range. */
  lemma {:induction false} WalkFacts(p: Problem, w: seq<nat>)
    requires ValidProblem(p) && |w| < U32_MAX && WalkEnd(p, w).Some?
    ensures var mi := WalkEnd(p, w).value.info; mi.distance == |w| && InRange(mi)
    decreases |w|
  {
    if w != [] {
      var v, i := w[..|w| - 1], w[|w| - 1];
      WalkFacts(p, v);
      hide OfferOf, ValidProblem, EdgeHalf, ExactFee;
      var s := WalkEnd(p, v).value;
      OfferGrows(p, s.node, s.info, i);
    }
  }

  /** An edge that a search comes to, by the records at its two ends. */
  lemma OfferedFacts(p: Problem, w: seq<nat>, i: nat)
    requires ValidProblem(p) && |w| < |p.g.nodes| && Offered(p, w, i)
    ensures var mi, o, h := From(p, w, i), To(p, w, i), HalfOf(p, w, i);
      && InRange(mi) && mi.distance == |w| && o.distance == |w| + 1
      && mi.cost <= o.cost <= U64_MAX && o.cost == mi.cost + ExactFee(mi.cost, h.baseFee, h.propFee)
      && o.totalDelay == (mi.totalDelay + h.delay) % TWO_32
      && exists c, dir :: p.channelOk(c, dir, mi.cost)
  {
    WalkFacts(p, w);
    hide OfferOf, ValidProblem, EdgeHalf, ExactFee, HalfInRange;
    var s := WalkEnd(p, w).value;
    OfferGrows(p, s.node, s.info, i);
  }

  /** When an edge keeps the score. */
  lemma EdgeKeepsWhen(p: Problem, w: seq<nat>, i: nat)
    requires ValidProblem(p) && |w| < |p.g.nodes|
    ensures EdgeKeeps(p, w, i) <==>
      (Offered(p, w, i) ==> InfoScore(p, From(p, w, i)) <= InfoScore(p, To(p, w, i)))
  {
    if Offered(p, w, i) {
      WalkFacts(p, w);
      hide OfferOf, ValidProblem, EdgeHalf, ExactFee, InfoScore;
      var s := WalkEnd(p, w).value;
      OfferGrows(p, s.node, s.info, i);
    }
  }

  // ---- route_score_shorter ----

  /** The shorter-path score grows along every edge, whatever the fees and risks. */
  lemma ShorterIsEdgeMonotone(p: Problem)
    requires ValidProblem(p) && UsesShorter(p)
    ensures EdgeMonotone(p)
  {
    hide ValidProblem, EdgeKeeps, UsesShorter;
    forall w: seq<nat>, i: nat | 0 < |w| < |p.g.nodes| ensures EdgeKeeps(p, w, i) {
      ShorterEdge(p, w, i);
    }
  }

  lemma ShorterEdge(p: Problem, w: seq<nat>, i: nat)
    requires ValidProblem(p) && UsesShorter(p) && |w| < |p.g.nodes|
    ensures EdgeKeeps(p, w, i)
  {
    NodeLimit(p);
    hide ValidProblem, ScoreShorter, EdgeKeeps, Offered, From, To, ExactFee;
    EdgeKeepsWhen(p, w, i);
    if Offered(p, w, i) {
      OfferedFacts(p, w, i);
      var mi, o := From(p, w, i), To(p, w, i);
      FurtherScoresMore(|w|, mi.cost, p.risk(mi.cost, mi.totalDelay), o.cost, p.risk(o.cost, o.totalDelay));
    }
  }

  lemma FurtherScoresMore(d: nat, cost: nat, risk: nat, cost': nat, risk': nat)
    requires d < U32_MAX
    ensures ScoreShorter(d, cost, risk) < ScoreShorter(d + 1, cost', risk')
  {
    hide CostsToScore;
  }

  lemma NodeLimit(p: Problem)
    requires ValidProblem(p)
    ensures |p.g.nodes| <= 0x7FFF_FFFF
  {
  }

  // ---- route_score_cheaper ----

  /** What costs_to_score is asked to add up, before it wraps. */
  function Costs(p: Problem, mi: Info): nat {
    mi.cost + p.risk(mi.cost, mi.totalDelay)
  }

  /** The 64-bit sum wraps around here, to below what it was and below the cap. */
  predicate Drops(costs: nat, costs': nat) {
    costs <= U64_MAX < costs' && costs' - TWO_64 < costs && costs' - TWO_64 < U32_MAX
  }

  /** Where neither cost nor risk drops, the cheaper-path score drops at exactly those wraps. */
  lemma CheaperEdge(d: nat, cost: nat, risk: nat, cost': nat, risk': nat)
    requires d < U32_MAX && cost <= cost' <= U64_MAX && risk <= risk' <= U64_MAX
    ensures ScoreCheaper(d, cost, risk) <= ScoreCheaper(d + 1, cost', risk') <==> !Drops(cost + risk, cost' + risk')
  {
    ScoreOrder(d, cost, risk, cost', risk');
    CappedOrder(cost + risk, cost' + risk');
  }

  /** The distance only breaks ties. */
  lemma ScoreOrder(d: nat, cost: nat, risk: nat, cost': nat, risk': nat)
    requires d < U32_MAX
    ensures ScoreCheaper(d, cost, risk) <= ScoreCheaper(d + 1, cost', risk')
      <==> CostsToScore(cost, risk) <= CostsToScore(cost', risk')
  {
    hide CostsToScore;
  }

  lemma CappedOrder(s: nat, s': nat)
    requires s <= s' <= 2 * U64_MAX
    ensures CostsToScore(s, 0) <= CostsToScore(s', 0) <==> !Drops(s, s')
  {
    assert s % TWO_64 == if s <= U64_MAX then s else s - TWO_64;
    assert s' % TWO_64 == if s' <= U64_MAX then s' else s' - TWO_64;
  }

  /** The risk price fits 64 bits and grows with the amount and the delay. */
  ghost predicate RiskGrows(p: Problem) {
    && (forall cost, delay :: p.risk(cost, delay) <= U64_MAX)
    && (forall cost, delay, cost', delay' ::
          cost <= cost' && delay <= delay' ==> p.risk(cost, delay) <= p.risk(cost', delay'))
  }

  /** total_delay does not wrap at 32 bits. */
  ghost predicate DelaysFit(p: Problem)
    requires ValidProblem(p)
  {
    forall w: seq<nat>, i: nat :: 0 < |w| < |p.g.nodes| && Offered(p, w, i) ==>
      From(p, w, i).totalDelay + HalfOf(p, w, i).delay <= U32_MAX
  }

  ghost predicate EdgeDrops(p: Problem, w: seq<nat>, i: nat)
    requires ValidProblem(p)
  {
    Offered(p, w, i) && Drops(Costs(p, From(p, w, i)), Costs(p, To(p, w, i)))
  }

  /** A search ordered by cost sees its scores grow exactly when no edge makes the sum of cost
      and risk wrap to below what it was. */
  lemma CheaperIsEdgeMonotone(p: Problem)
    requires ValidProblem(p) && UsesCheaper(p) && RiskGrows(p) && DelaysFit(p)
    ensures EdgeMonotone(p) <==> forall w: seq<nat>, i: nat :: 0 < |w| < |p.g.nodes| ==> !EdgeDrops(p, w, i)
  {
    hide ValidProblem, EdgeKeeps, EdgeDrops, UsesCheaper, RiskGrows, DelaysFit;
    forall w: seq<nat>, i: nat | 0 < |w| < |p.g.nodes| ensures EdgeKeeps(p, w, i) <==> !EdgeDrops(p, w, i) {
      CheaperWalkEdge(p, w, i);
    }
  }

  lemma CheaperWalkEdge(p: Problem, w: seq<nat>, i: nat)
    requires ValidProblem(p) && UsesCheaper(p) && RiskGrows(p) && DelaysFit(p) && 0 < |w| < |p.g.nodes|
    ensures EdgeKeeps(p, w, i) <==> !EdgeDrops(p, w, i)
  {
    NodeLimit(p);
    hide ValidProblem, ScoreCheaper, EdgeKeeps, Offered, From, To, HalfOf, ExactFee, Drops;
    EdgeKeepsWhen(p, w, i);
    if Offered(p, w, i) {
      OfferedFacts(p, w, i);
      var mi, o := From(p, w, i), To(p, w, i);
      assert o.totalDelay == mi.totalDelay + HalfOf(p, w, i).delay;
      CheaperEdge(mi.distance, mi.cost, p.risk(mi.cost, mi.totalDelay), o.cost, p.risk(o.cost, o.totalDelay));
    }
  }

  // ---- When delays cannot wrap ----

  ghost predicate DelaysUpTo(p: Problem, most: nat)
    requires ValidProblem(p)
  {
    forall m: nat, i: nat ::
      m < |p.g.nodes| && i < |p.g.nodes[m].chanIdxs| ==> EdgeHalf(p, m, i).delay <= most
  }

  /** The most delay that n channels add up to. */
  function MostDelay(n: nat, most: nat): nat {
    MulNonNegative(n, most);
    n * most
  }

  lemma MostDelayGrows(n: nat, k: nat, most: nat)
    requires n < k
    ensures MostDelay(n, most) + most == MostDelay(n + 1, most) <= MostDelay(k, most)
  {
    MulNonNegative(k - n - 1, most);
    assert (k - n - 1) * most == k * most - (n + 1) * most;
  }

  lemma {:induction false} WalkDelay(p: Problem, w: seq<nat>, most: nat)
    requires ValidProblem(p) && DelaysUpTo(p, most) && |w| < U32_MAX && WalkEnd(p, w).Some?
    requires MostDelay(|w|, most) <= U32_MAX
    ensures WalkEnd(p, w).value.info.totalDelay <= MostDelay(|w|, most)
    decreases |w|
  {
    if w != [] {
      var v, i := w[..|w| - 1], w[|w| - 1];
      MostDelayGrows(|v|, |w|, most);
      hide OfferOf, ValidProblem, EdgeHalf, ExactFee, MostDelay;
      WalkDelay(p, v, most);
      WalkFacts(p, v);
      var s := WalkEnd(p, v).value;
      OfferGrows(p, s.node, s.info, i);
      assert EdgeHalf(p, s.node, i).delay <= most;
    }
  }

  lemma DelayAt(p: Problem, w: seq<nat>, i: nat, most: nat)
    requires ValidProblem(p) && DelaysUpTo(p, most) && MostDelay(|p.g.nodes|, most) <= U32_MAX
    requires |w| < |p.g.nodes| && Offered(p, w, i)
    ensures From(p, w, i).totalDelay + HalfOf(p, w, i).delay <= MostDelay(|p.g.nodes|, most)
  {
    NodeLimit(p);
    hide ValidProblem, OfferOf, EdgeHalf, MostDelay;
    MostDelayGrows(|w|, |p.g.nodes|, most);
    WalkDelay(p, w, most);
    assert EdgeHalf(p, WalkEnd(p, w).value.node, i).delay <= most;
  }

  /** Delays cannot wrap when a path through every node does not reach 32 bits. */
  lemma ShortDelaysFit(p: Problem, most: nat)
    requires ValidProblem(p) && DelaysUpTo(p, most) && |p.g.nodes| * most <= U32_MAX
    ensures DelaysFit(p)
    ensures forall w: seq<nat>, i: nat :: 0 < |w| < |p.g.nodes| && Offered(p, w, i) ==>
      To(p, w, i).totalDelay <= |p.g.nodes| * most
  {
    NodeLimit(p);
    var total := MostDelay(|p.g.nodes|, most);
    hide ValidProblem, Offered, From, To, HalfOf, ExactFee, EdgeHalf, MostDelay, DelaysUpTo;
    forall w: seq<nat>, i: nat | 0 < |w| < |p.g.nodes| && Offered(p, w, i)
      ensures From(p, w, i).totalDelay + HalfOf(p, w, i).delay <= total
      ensures To(p, w, i).totalDelay <= total
    {
      DelayAt(p, w, i, most);
      OfferedFacts(p, w, i);
    }
  }

  /** With the 20 bits that a delay has, 4096 nodes are too few to wrap total_delay. */
  lemma FewNodesFit(p: Problem)
    requires ValidProblem(p) && |p.g.nodes| <= 4096
    ensures DelaysFit(p)
  {
    hide ValidProblem, EdgeHalf, DelaysFit, Offered, From, To;
    ShortDelaysFit(p, 0xF_FFFF);
  }

  // ---- risk_price ----

  const BLOCKS_PER_YEAR: nat := 52596

  /** risk_price: riskfactor percent per year of the amount, with amount_msat_scale failing at
      2^64.  The C computes the factor in floating point. */
  function RiskPrice(amount: nat, riskfactor: nat, delay: nat): (r: nat)
    ensures r <= U64_MAX
  {
    var fee := Product(amount, riskfactor, delay) / (100 * BLOCKS_PER_YEAR);
    if fee > U64_MAX then U64_MAX else fee
  }

  function Product(a: nat, b: nat, c: nat): nat {
    MulNonNegative(a, b);
    MulNonNegative(a * b, c);
    a * b * c
  }

  lemma ProductGrows(a: nat, b: nat, c: nat, a': nat, b': nat, c': nat)
    requires a <= a' && b * c <= b' * c'
    ensures Product(a, b, c) <= Product(a', b', c')
  {
    MulNonNegative(b, c);
    MulNonNegative(a' - a, b * c);
    MulNonNegative(a', b' * c' - b * c);
    assert a' * b' * c' == a' * (b' * c') && a * b * c == a * (b * c);
    assert (a' - a) * (b * c) == a' * (b * c) - a * (b * c);
    assert a' * (b' * c' - b * c) == a' * (b' * c') - a' * (b * c);
  }

  /** It grows with the amount and the delay. */
  lemma RiskPriceGrows(a: nat, a': nat, riskfactor: nat, d: nat, d': nat)
    requires a <= a' && d <= d'
    ensures RiskPrice(a, riskfactor, d) <= RiskPrice(a', riskfactor, d')
  {
    MulNonNegative(riskfactor, d' - d);
    assert riskfactor * (d' - d) == riskfactor * d' - riskfactor * d;
    ProductGrows(a, riskfactor, d, a', riskfactor, d');
    hide Product;
  }

  /** A riskfactor is percent per year: over the 52596 blocks of one, 100 of it are the amount. */
  lemma YearlyRisk(amount: nat, riskfactor: nat)
    requires amount <= U64_MAX
    ensures RiskPrice(amount, 100, 52596) == amount && RiskPrice(amount, 0, 52596) == 0
    ensures amount * riskfactor / 100 <= U64_MAX ==> RiskPrice(amount, riskfactor, 52596) == amount * riskfactor / 100
  {
    assert Product(amount, 100, 52596) == amount * 5259600;
    YearlyQuotient(amount, riskfactor);
  }

  lemma YearlyQuotient(amount: nat, riskfactor: nat)
    ensures Product(amount, riskfactor, 52596) / 5259600 == amount * riskfactor / 100
  {
    var x := amount * riskfactor;
    MulNonNegative(amount, riskfactor);
    assert x * 52596 / 5259600 == x / 100;
  }

  ghost predicate UsesRiskPrice(p: Problem, riskfactor: nat) {
    forall cost, delay :: p.risk(cost, delay) == RiskPrice(cost, riskfactor, delay)
  }

  lemma RiskPriceIsRisk(p: Problem, riskfactor: nat)
    requires UsesRiskPrice(p, riskfactor)
    ensures RiskGrows(p)
  {
    hide RiskPrice;
    forall cost, delay, cost', delay' | cost <= cost' && delay <= delay'
      ensures p.risk(cost, delay) <= p.risk(cost', delay')
    {
      RiskPriceGrows(cost, cost', riskfactor, delay, delay');
    }
  }

  // ---- A score that drops ----

  /** Seven nodes in a row, each channel free of charge and with the largest delay. */
  function LineHalf(n: nat): HalfChan { HalfChan(true, n, 0, 0xFFFF, 0, 0, 0xF_FFFF) }

  function LineGraph(): Graph {
    Graph(seq(7, n requires 0 <= n => Node(0, if n == 0 then [0] else if n == 6 then [5] else [n - 1, n])),
          seq(6, c requires 0 <= c => Chan(1, 1, false, 1, 1, LineHalf(c), LineHalf(c + 1))))
  }

  const LINE_AMOUNT: nat := 4_000_000_000

  function LineProblem(): Problem {
    Problem(LineGraph(), 0, LINE_AMOUNT, (c: nat, dir: bool, amt: nat) => true,
            (cost: nat, delay: nat) => RiskPrice(cost, U32_MAX, delay),
            (d: nat, cost: nat, rk: nat, c: nat) => ScoreCheaper(d, cost, rk))
  }

  lemma LineIsValid()
    ensures ValidProblem(LineProblem()) && UsesCheaper(LineProblem()) && UsesRiskPrice(LineProblem(), U32_MAX)
  {
    var g := LineGraph();
    hide RiskPrice, ScoreCheaper;
    forall n, i | 0 <= n < |g.nodes| && 0 <= i < |g.nodes[n].chanIdxs| ensures ListedOk(g, n, i) {
    }
  }

  /** One hop down the line. */
  lemma LineOffer(k: nat, mi: Info)
    requires ValidProblem(LineProblem()) && k < 6 && InRange(mi) && mi.totalDelay < 0x1000_0000
    ensures var p, i := LineProblem(), if k == 0 then 0 else 1;
      && i < |p.g.nodes[k].chanIdxs| && NeighborOf(p, k, i) == k + 1
      && OfferOf(p, k, mi, i).Offer?
      && OfferOf(p, k, mi, i).info == Info(mi.distance + 1, mi.totalDelay + 0xF_FFFF, mi.cost, k)
  {
    hide RiskPrice, ScoreCheaper;
    AddFeeExact(mi.cost, 0, 0);
    hide MsatAddFee;
  }

  function LineWalk(k: nat): (w: seq<nat>)
    ensures |w| == k
  {
    if k == 0 then [] else LineWalk(k - 1) + [if k == 1 then 0 else 1]
  }

  lemma {:induction false} LineRecord(k: nat)
    requires ValidProblem(LineProblem()) && k <= 6
    ensures WalkEnd(LineProblem(), LineWalk(k)).Some?
    ensures var s := WalkEnd(LineProblem(), LineWalk(k)).value;
      s.node == k && s.info.distance == k && s.info.totalDelay == k * 0xF_FFFF && s.info.cost == LINE_AMOUNT
  {
    if k > 0 {
      LineRecord(k - 1);
      var w := LineWalk(k);
      assert w[..|w| - 1] == LineWalk(k - 1) && w[|w| - 1] == if k == 1 then 0 else 1;
      LineOffer(k - 1, WalkEnd(LineProblem(), LineWalk(k - 1)).value.info);
      hide OfferOf, ValidProblem, LineProblem, NeighborOf;
    }
  }

  /** Five such delays leave the risk price below its limit, six do not. */
  lemma LineRisk()
    ensures RiskPrice(LINE_AMOUNT, U32_MAX, 5 * 0xF_FFFF) < U64_MAX - LINE_AMOUNT
    ensures RiskPrice(LINE_AMOUNT, U32_MAX, 6 * 0xF_FFFF) == U64_MAX
  {
  }

  lemma LineDrops()
    requires ValidProblem(LineProblem())
    ensures EdgeDrops(LineProblem(), LineWalk(5), 1)
  {
    LineRecord(5);
    LineOffer(5, WalkEnd(LineProblem(), LineWalk(5)).value.info);
    LineRisk();
    var p := LineProblem();
    assert UsesRiskPrice(p, U32_MAX);
    hide ValidProblem, OfferOf, RiskPrice, LineProblem, LineWalk, WalkEnd;
  }

  /** The cheaper-path score can drop: four million satoshi down a line of six channels with the
      largest delay and riskfactor.  The sixth saturates the risk price, and the sum wraps to
      just below the amount. */
  lemma CheaperCanDrop()
    ensures ValidProblem(LineProblem()) && UsesCheaper(LineProblem()) && UsesRiskPrice(LineProblem(), U32_MAX)
    ensures DelaysFit(LineProblem()) && !EdgeMonotone(LineProblem())
  {
    LineIsValid();
    var p := LineProblem();
    assert |p.g.nodes| == 7;
    hide ValidProblem, DelaysFit, EdgeMonotone, EdgeDrops, LineProblem, RiskGrows, UsesRiskPrice, UsesCheaper;
    FewNodesFit(p);
    RiskPriceIsRisk(p, U32_MAX);
    CheaperIsEdgeMonotone(p);
    LineDrops();
    assert EdgeDrops(p, LineWalk(5), 1);
  }
}
