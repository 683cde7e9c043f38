/** When a call installs a rule at all, and what the installed rule does to each node's traffic. */
module InstallTheorems {
  import opened Collections
  import opened Float64
  import opened SlotAllocator
  import opened SlotShares
  import opened UpdateNftables
  import opened Scores
  import opened RoutingTheorems

  // ----- the exact condition of the zero-latency freeze

  ghost predicate BucketsNonEmpty(cands: seq<Candidate>) {
    forall i | 0 <= i < |cands| :: cands[i].endpoints != []
  }

  /** The cap is worth more slots than there are endpoints, give or take half a slot per node. */
  predicate Roomy(cap: nat, cands: seq<Candidate>) {
    2 * cap + |cands| > 2 * TotalEndpoints(cands)
  }

  lemma {:induction false} SlackWithinEndpoints(cfg: Config, cands: seq<Candidate>, total: F64)
    requires BucketsNonEmpty(cands)
    ensures SkippedSlack(Blocks(cfg, cands, total)) + |cands| <= TotalEndpoints(cands)
    decreases |cands|
  {
    hide Portion, PerformanceScore;
    if cands != [] {
      var n := |cands| - 1;
      SlackWithinEndpoints(cfg, cands[..n], total);
      assert Blocks(cfg, cands, total)[..n] == Blocks(cfg, cands[..n], total);
    }
  }

  /** With all latencies positive and room for the endpoints, some slot is always handed out. */
  lemma PositiveLatenciesServe(cfg: Config, cands: seq<Candidate>)
    requires PowfNonNegative(cfg) && PowfPositive(cfg) && AllReported(cands)
    requires cands != [] && BucketsNonEmpty(cands) && Roomy(cfg.probabilityCap, cands)
    ensures Total(Design(Plan(cfg, cands))) > 0
  {
    CapNearlyUsed(cfg, cands);
    SlackWithinEndpoints(cfg, cands, TotalScore(cfg, cands));
    hide TotalScore, Blocks, Design, Total, SkippedSlack, TotalEndpoints;
  }

  lemma SomeCellLaid(cells: seq<Cell>, cap: nat)
    requires cap > 0
    ensures Lay(0, cells, cap) != [] <==> cells != []
  {
  }

  predicate SomeServed(blocks: seq<Block>) {
    exists i | 0 <= i < |blocks| :: Served(blocks[i])
  }

  /** For any cap: a call with at least two endpoints that does not panic installs a rule exactly when
      some node's portion reaches its number of endpoints. */
  lemma InstallsIffServed(cfg: Config, cands: seq<Candidate>)
    requires PowfNonNegative(cfg) && AllEligible(cands) && BucketsNonEmpty(cands) && TotalEndpoints(cands) >= 2
    requires cfg.probabilityCap + |cands| / 2 <= U32_MAX
    ensures RouteTo(cfg, cands).Install? <==> SomeServed(Plan(cfg, cands))
  {
    var blocks, cap := Plan(cfg, cands), cfg.probabilityCap;
    PlanSafe(cfg, cands);
    PlanRounds(cfg, cands);
    ServedIff(blocks);
    assert cap == 0 ==> Lay(0, Design(blocks), cap) == [];
    hide Plan, Panics, Shares, Served;
    if cap == 0 {
      forall i | 0 <= i < |blocks| ensures !Served(blocks[i]) {
        PortionWithinCap(blocks, Shares(cfg, cands), cap, i);
      }
    } else {
      SomeCellLaid(Design(blocks), cap);
    }
    hide Design, Lay, TotalEndpoints;
  }

  lemma {:induction false} ServedIff(blocks: seq<Block>)
    ensures Design(blocks) != [] <==> SomeServed(blocks)
    decreases |blocks|
  {
    if blocks != [] {
      var n := |blocks| - 1;
      ServedIff(blocks[..n]);
      CellsTotal(blocks[n]);
      SomeServedNext(blocks);
      hide Cells, Served, SomeServed;
    }
  }

  lemma SomeServedNext(blocks: seq<Block>)
    requires blocks != []
    ensures SomeServed(blocks) <==> SomeServed(blocks[..|blocks| - 1]) || Served(blocks[|blocks| - 1])
  {
    hide Served;
    var n := |blocks| - 1;
    assert forall i | 0 <= i < n :: blocks[..n][i] == blocks[i];
    if SomeServed(blocks[..n]) {
      var i :| 0 <= i < n && Served(blocks[..n][i]);
      assert Served(blocks[i]);
    }
  }

  lemma PortionWithinCap(blocks: seq<Block>, exact: seq<real>, cap: nat, i: nat)
    requires Rounds(blocks, exact, cap) && cap == 0 && i < |blocks|
    ensures !Served(blocks[i])
  {
    MemberAtMostSum(exact, i);
  }

  lemma {:induction false} MemberAtMostSum(xs: seq<real>, i: nat)
    requires i < |xs| && forall k | 0 <= k < |xs| :: xs[k] >= 0.0
    ensures 0.0 <= xs[i] <= Sum(xs)
    decreases |xs|
  {
    var n := |xs| - 1;
    PrefixSumAtMost(xs, n);
    if i < n {
      MemberAtMostSum(xs[..n], i);
    } else {
      NonNegativeSum(xs[..n]);
    }
  }

  lemma {:induction false} NonNegativeSum(xs: seq<real>)
    requires forall k | 0 <= k < |xs| :: xs[k] >= 0.0
    ensures Sum(xs) >= 0.0
    decreases |xs|
  {
    if xs != [] {
      NonNegativeSum(xs[..|xs| - 1]);
    }
  }

  /** A call with at least two endpoints and room for them installs a rule exactly when every candidate
      has a positive latency: one zero freezes everything, and nothing else does. */
  lemma {:induction false} InstallsIff(cfg: Config, cands: seq<Candidate>)
    requires PowfNonNegative(cfg) && PowfPositive(cfg) && PowfAtInfinity(cfg) && cfg.scoreExponent > 0.0
    requires AllEligible(cands) && BucketsNonEmpty(cands) && TotalEndpoints(cands) >= 2
    requires cfg.probabilityCap + |cands| / 2 <= U32_MAX && Roomy(cfg.probabilityCap, cands)
    ensures RouteTo(cfg, cands).Install? <==> AllReported(cands)
  {
    InstallsIffServed(cfg, cands);
    ServedIff(Plan(cfg, cands));
    hide Plan, Design, Total, RouteTo, Roomy, TotalEndpoints;
    if AllReported(cands) {
      assert cands != [] by { EndpointsNeedCandidates(cands); }
      PositiveLatenciesServe(cfg, cands);
      NothingDesigned(Design(Plan(cfg, cands)));
    } else {
      var i :| 0 <= i < |cands| && cands[i].datapoint.latency.v == 0.0;
      forall k | 0 <= k < |cands| ensures !Served(Plan(cfg, cands)[k]) {
        ZeroLatencyZeroesAll(cfg, cands, i, k);
      }
    }
  }

  lemma EndpointsNeedCandidates(cands: seq<Candidate>)
    requires TotalEndpoints(cands) >= 2
    ensures cands != []
  {
  }

  lemma NothingDesigned(cells: seq<Cell>)
    ensures Total(cells) > 0 ==> cells != []
  {
  }

  /** The same for a whole call, in any visiting order: with two nodes, two surviving endpoints and room
      for them, it installs exactly when every surviving node of the service has a positive latency. */
  lemma CallInstallsIff(cfg: Config, service: Service, dps: Datapoints, order: seq<string>)
    requires PowfNonNegative(cfg) && PowfPositive(cfg) && PowfAtInfinity(cfg) && cfg.scoreExponent > 0.0
    requires LatenciesMeasured(dps) && BucketsFilled(service) && cfg.probabilityCap + |order| / 2 <= U32_MAX
    requires Enumerates(order, service.endpointsByNodename.Keys) && |order| >= 2
    requires var cands := Survivors(service, dps, order);
      TotalEndpoints(cands) >= 2 && Roomy(cfg.probabilityCap, cands)
    ensures OutcomeFor(cfg, service, dps, order).Install? <==>
      forall n | n in service.endpointsByNodename && Survives(dps, n) :: dps[n].value.latency.v > 0.0
  {
    var cands := Survivors(service, dps, order);
    SurvivorsEligible(service, dps, order);
    SurvivorsAre(service, dps, order, Candidate("", [], ScorePair(NaN, NaN)));
    forall n | n in service.endpointsByNodename && Survives(dps, n)
      ensures exists i | 0 <= i < |cands| :: cands[i].node == n && cands[i].datapoint == dps[n].value
    {
      var c := Candidate(n, service.endpointsByNodename[n], dps[n].value);
      SurvivorsAre(service, dps, order, c);
      var i :| 0 <= i < |cands| && cands[i] == c;
    }
    forall i | 0 <= i < |cands|
      ensures cands[i].node in service.endpointsByNodename && Survives(dps, cands[i].node)
      ensures cands[i].datapoint == dps[cands[i].node].value
    {
      SurvivorsAre(service, dps, order, cands[i]);
    }
    hide Survivors, RouteTo, TotalEndpoints, Survives;
    InstallsIff(cfg, cands);
  }
}
