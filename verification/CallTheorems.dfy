/** What one `update_nftables` call makes of the numbers it is given, in terms of those numbers: who is
    routed to, with what portion, and when the call stops early. */
module CallTheorems {
  import opened Collections
  import opened Float64
  import opened SlotMap
  import opened SlotAllocator
  import opened SlotShares
  import opened UpdateNftables
  import opened Scores
  import opened RoutingTheorems
  import opened TrafficTheorems

  // ----- portions

  /** The powers behind the portions: free cpu over latency, raised to the configured exponent. */
  function Powers(cfg: Config, cands: seq<Candidate>): (powers: seq<real>)
    requires AllReported(cands) && PowfPositive(cfg)
    ensures |powers| == |cands|
  {
    seq(|cands|, k requires 0 <= k < |cands| =>
      assert PositiveInput(Fin((1.0 - cands[k].datapoint.cpu.v) / cands[k].datapoint.latency.v)) by {
        FreeOverLatency(cands[k]);
      }
      cfg.powf(Fin((1.0 - cands[k].datapoint.cpu.v) / cands[k].datapoint.latency.v), cfg.scoreExponent).v)
  }

  lemma FreeOverLatency(c: Candidate)
    requires Eligible(c) && c.datapoint.latency.v > 0.0
    ensures (1.0 - c.datapoint.cpu.v) / c.datapoint.latency.v > 0.0
  {
    QuotientPositive(1.0 - c.datapoint.cpu.v, c.datapoint.latency.v);
  }

  lemma ScoreIsPower(cfg: Config, cands: seq<Candidate>, k: nat)
    requires AllReported(cands) && PowfPositive(cfg) && k < |cands|
    ensures Score(cfg, cands[k]) == Fin(Powers(cfg, cands)[k]) && Powers(cfg, cands)[k] > 0.0
  {
    var c := cands[k];
    FreeOverLatency(c);
    assert PositiveInput(Fin((1.0 - c.datapoint.cpu.v) / c.datapoint.latency.v));
  }

  lemma {:induction false} TotalIsSum(cfg: Config, cands: seq<Candidate>)
    requires AllReported(cands) && PowfPositive(cfg)
    ensures TotalScore(cfg, cands) == Fin(Sum(Powers(cfg, cands)))
    ensures cands != [] ==> Sum(Powers(cfg, cands)) > 0.0
    decreases |cands|
  {
    if cands != [] {
      var n := |cands| - 1;
      TotalIsSum(cfg, cands[..n]);
      ScoreIsPower(cfg, cands, n);
      assert Powers(cfg, cands)[..n] == Powers(cfg, cands[..n]);
      hide Powers;
    }
  }

  /** The node's part of the cap, rounded to nearest. */
  ghost predicate RoundsShare(portion: nat, powers: seq<real>, i: nat, cap: nat)
    requires i < |powers|
  {
    Sum(powers) > 0.0 && portion == RoundReal(powers[i] / Sum(powers) * cap as real)
  }

  /** With all latencies positive, a node is planned `p / Σp * cap` slots, rounded to nearest, where `p` is
      the power of its own cpu and latency. */
  lemma PortionValue(cfg: Config, cands: seq<Candidate>, i: nat)
    requires AllReported(cands) && PowfPositive(cfg) && i < |cands|
    ensures Plan(cfg, cands)[i].node == cands[i].node && Plan(cfg, cands)[i].endpoints == cands[i].endpoints
    ensures RoundsShare(Plan(cfg, cands)[i].portion, Powers(cfg, cands), i, cfg.probabilityCap)
  {
    hide Powers, Portion, Exact, RoundReal, Sum, TotalScore, PerformanceScore, RoundsShare;
    var powers, cap := Powers(cfg, cands), cfg.probabilityCap;
    TotalIsSum(cfg, cands);
    ScoreIsPower(cfg, cands, i);
    PowersAddUp(cfg, cands, i);
    PortionRoundsExact(cap, Fin(powers[i]), Fin(Sum(powers)));
    ExactRounds(Plan(cfg, cands)[i].portion, powers, i, cap);
  }

  lemma ExactRounds(portion: nat, powers: seq<real>, i: nat, cap: U32)
    requires i < |powers| && Sum(powers) > 0.0
    requires portion == RoundReal(Exact(cap, Fin(powers[i]), Fin(Sum(powers))))
    ensures RoundsShare(portion, powers, i, cap)
  {
    hide Sum, RoundReal;
    var x := powers[i] / Sum(powers) * cap as real;
    assert x == Exact(cap, Fin(powers[i]), Fin(Sum(powers)));
    assert RoundReal(x) == portion;
  }

  lemma {:induction false} PowersAddUp(cfg: Config, cands: seq<Candidate>, i: nat)
    requires AllReported(cands) && PowfPositive(cfg) && i < |cands|
    ensures 0.0 < Powers(cfg, cands)[i] <= Sum(Powers(cfg, cands))
    decreases |cands|
  {
    var n := |cands| - 1;
    ScoreIsPower(cfg, cands, n);
    TotalIsSum(cfg, cands[..n]);
    assert Powers(cfg, cands)[..n] == Powers(cfg, cands[..n]);
    hide Powers;
    if i < n {
      PowersAddUp(cfg, cands[..n], i);
    } else if n == 0 {
      assert Sum(Powers(cfg, cands[..n])) == 0.0;
    }
  }

  // ----- who is routed to

  /** The filter: a known cpu usage strictly between 0% and 95%. */
  predicate Passes(dps: Datapoints, node: string) {
    && node in dps && dps[node].Some? && dps[node].value.cpu.Fin?
    && 0.0 < dps[node].value.cpu.v && dps[node].value.cpu.v < 0.95
  }

  /** A node becomes a candidate exactly when it passes, with its own endpoints and datapoint. */
  lemma CandidateIff(service: Service, dps: Datapoints, order: seq<string>, c: Candidate)
    requires Enumerates(order, service.endpointsByNodename.Keys)
    ensures c in Survivors(service, dps, order) <==>
      && c.node in service.endpointsByNodename && Passes(dps, c.node)
      && c.endpoints == service.endpointsByNodename[c.node] && c.datapoint == dps[c.node].value
  {
    SurvivorsAre(service, dps, order, c);
    hide Survivors;
  }

  /** Two endpoints on nodes that pass: on two nodes, or both on one. */
  ghost predicate TwoEndpoints(service: Service, dps: Datapoints) {
    exists a, b | a in service.endpointsByNodename && b in service.endpointsByNodename ::
      && Passes(dps, a) && Passes(dps, b)
      && (if a == b then |service.endpointsByNodename[a]| >= 2
          else service.endpointsByNodename[a] != [] && service.endpointsByNodename[b] != [])
  }

  /** The two early returns: fewer than two nodes, and fewer than two endpoints on nodes that pass. */
  lemma StopsEarlyIff(cfg: Config, service: Service, dps: Datapoints, order: seq<string>)
    requires Enumerates(order, service.endpointsByNodename.Keys)
    ensures OutcomeFor(cfg, service, dps, order) == TooFewNodes <==> |service.endpointsByNodename| < 2
    ensures OutcomeFor(cfg, service, dps, order) == TooFewEndpoints <==>
      |service.endpointsByNodename| >= 2 && !TwoEndpoints(service, dps)
  {
    EnumerationLength(order, service.endpointsByNodename.Keys);
    var cands := Survivors(service, dps, order);
    TwoOrMoreIff(cands);
    hide TotalEndpoints, Survivors, Plan, Panics, Lay, Design, TwoOf, TwoEndpoints;
    if TwoOf(cands) {
      PairEndpoints(service, dps, order);
    }
    if TwoEndpoints(service, dps) {
      EndpointsPair(service, dps, order);
    }
  }

  lemma PairEndpoints(service: Service, dps: Datapoints, order: seq<string>)
    requires Enumerates(order, service.endpointsByNodename.Keys) && TwoOf(Survivors(service, dps, order))
    ensures TwoEndpoints(service, dps)
  {
    hide Survivors, Passes;
    DistinctCandidates(service, dps, order);
    var cands := Survivors(service, dps, order);
    var i, j :| 0 <= i <= j < |cands| && PairOf(cands, i, j);
    CandidateIff(service, dps, order, cands[i]);
    CandidateIff(service, dps, order, cands[j]);
    assert cands[i] in cands && cands[j] in cands;
  }

  lemma EndpointsPair(service: Service, dps: Datapoints, order: seq<string>)
    requires Enumerates(order, service.endpointsByNodename.Keys) && TwoEndpoints(service, dps)
    ensures TwoOf(Survivors(service, dps, order))
  {
    var cands := Survivors(service, dps, order);
    var a, b :| a in service.endpointsByNodename && b in service.endpointsByNodename
      && Passes(dps, a) && Passes(dps, b)
      && (if a == b then |service.endpointsByNodename[a]| >= 2
          else service.endpointsByNodename[a] != [] && service.endpointsByNodename[b] != []);
    var c := Candidate(a, service.endpointsByNodename[a], dps[a].value);
    var d := Candidate(b, service.endpointsByNodename[b], dps[b].value);
    CandidateIff(service, dps, order, c);
    CandidateIff(service, dps, order, d);
    hide Survivors, Passes;
    var i :| 0 <= i < |cands| && cands[i] == c;
    var j :| 0 <= j < |cands| && cands[j] == d;
    assert if i <= j then PairOf(cands, i, j) else PairOf(cands, j, i);
  }

  predicate PairOf(cands: seq<Candidate>, i: nat, j: nat)
    requires i <= j < |cands|
  {
    if i == j then |cands[i].endpoints| >= 2 else cands[i].endpoints != [] && cands[j].endpoints != []
  }

  ghost predicate TwoOf(cands: seq<Candidate>) {
    exists i, j | 0 <= i <= j < |cands| :: PairOf(cands, i, j)
  }

  lemma {:induction false} SomeEndpoint(cands: seq<Candidate>)
    ensures TotalEndpoints(cands) >= 1 <==> exists i | 0 <= i < |cands| :: cands[i].endpoints != []
    decreases |cands|
  {
    if cands != [] {
      var init := cands[..|cands| - 1];
      SomeEndpoint(init);
      assert forall i | 0 <= i < |init| :: init[i] == cands[i];
    }
  }

  lemma {:induction false} TwoOrMoreIff(cands: seq<Candidate>)
    ensures TotalEndpoints(cands) >= 2 <==> TwoOf(cands)
    decreases |cands|
  {
    if cands != [] {
      var n := |cands| - 1;
      var init := cands[..n];
      TwoOrMoreIff(init);
      SomeEndpoint(init);
      assert TotalEndpoints(cands) == TotalEndpoints(init) + |cands[n].endpoints|;
      hide TotalEndpoints;
      forall i, j | 0 <= i <= j < n ensures PairOf(cands, i, j) <==> PairOf(init, i, j) {
      }
      if TwoOf(init) {
        var i, j :| 0 <= i <= j < n && PairOf(init, i, j);
        assert PairOf(cands, i, j);
      }
      if |cands[n].endpoints| >= 2 {
        assert PairOf(cands, n, n);
      }
      if i :| 0 <= i < n && init[i].endpoints != [] && cands[n].endpoints != [] {
        assert PairOf(cands, i, n);
      }
      if TwoOf(cands) {
        var i, j :| 0 <= i <= j < |cands| && PairOf(cands, i, j);
        if j < n {
          assert PairOf(init, i, j);
        } else if i < n {
          assert init[i].endpoints != [];
        }
      }
    }
  }

  ghost predicate DistinctNodes(cands: seq<Candidate>) {
    forall i, j | 0 <= i < j < |cands| :: cands[i].node != cands[j].node
  }

  /** Every node is a candidate once. */
  lemma {:induction false} DistinctCandidates(service: Service, dps: Datapoints, order: seq<string>)
    requires forall i, j | 0 <= i < j < |order| :: order[i] != order[j]
    ensures DistinctNodes(Survivors(service, dps, order))
    decreases |order|
  {
    if order != [] {
      var init := order[..|order| - 1];
      DistinctCandidates(service, dps, init);
      var before := Survivors(service, dps, init);
      forall i | 0 <= i < |before| ensures before[i].node != order[|order| - 1] {
        assert before[i] in before;
        SurvivorsAre(service, dps, init, before[i]);
        var k :| 0 <= k < |init| && init[k] == before[i].node;
        assert order[k] == before[i].node;
      }
      var cands := Survivors(service, dps, order);
      assert cands == before + Retained(service, dps, order[|order| - 1]);
      forall i, j | 0 <= i < j < |cands| ensures cands[i].node != cands[j].node {
        assert cands[i] == before[i];
        if j < |before| {
          assert cands[j] == before[j] && before[i].node != before[j].node;
        } else {
          assert cands[j].node == order[|order| - 1];
        }
      }
    }
  }

  // ----- a call with a power that matters

  /** The powers of exponents 1 and 2. */
  function Square(cap: U32, exponent: real): Config {
    Config(cap, exponent, (x: F64, e: real) => if e == 2.0 then Mul(x, x) else x)
  }

  const QUICK := Candidate("quick", [Ipv4(1)], ScorePair(Fin(2.0), Fin(0.5)))
  const SLOW := Candidate("slow", [Ipv4(2)], ScorePair(Fin(8.0), Fin(0.5)))

  /** Two nodes whose latencies differ by a factor of four: an exponent of 1 gives the quick one 80 slots of
      100, an exponent of 2 gives it 94. */
  lemma ExponentMatters()
    ensures RouteTo(Square(100, 1.0), [QUICK, SLOW]) == Install([Slot(0, 79, Ipv4(1)), Slot(80, 99, Ipv4(2))], 99)
    ensures RouteTo(Square(100, 2.0), [QUICK, SLOW]) == Install([Slot(0, 93, Ipv4(1)), Slot(94, 99, Ipv4(2))], 99)
  {
    SquarePlan();
    hide Plan, Design, Lay, Total, TotalEndpoints, Panics;
    Hundred(Block("quick", [Ipv4(1)], 80), Block("slow", [Ipv4(2)], 20));
    Hundred(Block("quick", [Ipv4(1)], 94), Block("slow", [Ipv4(2)], 6));
  }

  lemma SquarePlan()
    ensures Plan(Square(100, 1.0), [QUICK, SLOW]) == [Block("quick", [Ipv4(1)], 80), Block("slow", [Ipv4(2)], 20)]
    ensures Plan(Square(100, 2.0), [QUICK, SLOW]) == [Block("quick", [Ipv4(1)], 94), Block("slow", [Ipv4(2)], 6)]
    ensures TotalEndpoints([QUICK, SLOW]) == 2
  {
    hide Portion, PerformanceScore, TotalScore, TotalEndpoints;
    PairTotals(Square(100, 1.0), QUICK, SLOW);
    PairTotals(Square(100, 2.0), QUICK, SLOW);
    LinearScores();
    SquareScores();
  }

  lemma LinearScores()
    ensures PerformanceScore(Square(100, 1.0), QUICK.datapoint) == Fin(0.25)
    ensures PerformanceScore(Square(100, 1.0), SLOW.datapoint) == Fin(0.0625)
    ensures Portion(100, Fin(0.25), Add(Add(Fin(0.0), Fin(0.25)), Fin(0.0625))) == 80
    ensures Portion(100, Fin(0.0625), Add(Add(Fin(0.0), Fin(0.25)), Fin(0.0625))) == 20
  {
    assert Quotient(0.5, 2.0) == 0.25 && Quotient(0.5, 8.0) == 0.0625;
    assert Times(Quotient(0.25, 0.3125), 100.0) == 80.0 && Times(Quotient(0.0625, 0.3125), 100.0) == 20.0;
    hide Times, Quotient;
  }

  lemma SquareScores()
    ensures PerformanceScore(Square(100, 2.0), QUICK.datapoint) == Fin(0.0625)
    ensures PerformanceScore(Square(100, 2.0), SLOW.datapoint) == Fin(0.00390625)
    ensures Portion(100, Fin(0.0625), Add(Add(Fin(0.0), Fin(0.0625)), Fin(0.00390625))) == 94
    ensures Portion(100, Fin(0.00390625), Add(Add(Fin(0.0), Fin(0.0625)), Fin(0.00390625))) == 6
  {
    assert Quotient(0.5, 2.0) == 0.25 && Quotient(0.5, 8.0) == 0.0625;
    assert Times(0.25, 0.25) == 0.0625 && Times(0.0625, 0.0625) == 0.00390625;
    assert 94.1 < Times(Quotient(0.0625, 0.06640625), 100.0) < 94.2;
    assert 5.8 < Times(Quotient(0.00390625, 0.06640625), 100.0) < 5.9;
    hide Times, Quotient;
  }

  lemma Hundred(a: Block, b: Block)
    requires |a.endpoints| == |b.endpoints| == 1 && a.portion >= 1 && b.portion >= 1 && a.portion + b.portion == 100
    ensures Lay(0, Design([a, b]), 100) == [Slot(0, a.portion - 1, a.endpoints[0]), Slot(a.portion, 99, b.endpoints[0])]
    ensures Total(Design([a, b])) == 100 && !Panics([a, b], 100)
  {
    assert [a, b][..1] == [a] && [a][..0] == [];
    var c, d := Cell(a.endpoints[0], a.portion), Cell(b.endpoints[0], b.portion);
    assert Cells(a) == [c] && Cells(b) == [d];
    assert Design([a]) == [c] && Design([a, b]) == [c, d];
    assert !SomeDivisionByZero([a]) && !SomeDivisionByZero([a, b]);
    hide Cells, Design, SomeDivisionByZero;
    assert [c, d][1..] == [d] && [d][1..] == [];
    assert Total([d]) == d.width;
    assert Lay(100, [], 100) == [] && Lay(c.width, [d], 100) == [Slot(c.width, 99, d.endpoint)];
    assert !Overflows(100, [], 100) && !Overflows(c.width, [d], 100);
  }
}
