/** What one `update_nftables` call guarantees, for every visiting order of the hash maps. */
module RoutingTheorems {
  import opened Collections
  import opened Float64
  import opened SlotMap
  import opened SlotAllocator
  import opened SlotShares
  import opened UpdateNftables
  import opened Scores

  // ----- the candidates behind a call

  /** Latencies are finite and not negative; a probe that never reported leaves the default 0. */
  ghost predicate LatenciesMeasured(dps: Datapoints) {
    forall n | n in dps && dps[n].Some? :: dps[n].value.latency.Fin? && dps[n].value.latency.v >= 0.0
  }

  /** No bucket of the service is empty: what the endpoint grouping guarantees. */
  ghost predicate BucketsFilled(service: Service) {
    forall n | n in service.endpointsByNodename :: service.endpointsByNodename[n] != []
  }

  /** The candidates are exactly the surviving nodes of the service with their current data. */
  lemma {:induction false} SurvivorsAre(service: Service, dps: Datapoints, order: seq<string>, c: Candidate)
    ensures c in Survivors(service, dps, order) <==>
      && c.node in order && c.node in service.endpointsByNodename && Survives(dps, c.node)
      && c.endpoints == service.endpointsByNodename[c.node] && c.datapoint == dps[c.node].value
    ensures |Survivors(service, dps, order)| <= |order|
    decreases |order|
  {
    if order != [] {
      SurvivorsAre(service, dps, order[..|order| - 1], c);
      assert order == order[..|order| - 1] + [order[|order| - 1]];
    }
  }

  lemma SurvivorsEligible(service: Service, dps: Datapoints, order: seq<string>)
    requires LatenciesMeasured(dps) && BucketsFilled(service)
    ensures AllEligible(Survivors(service, dps, order))
    ensures forall i | 0 <= i < |Survivors(service, dps, order)| :: Survivors(service, dps, order)[i].endpoints != []
  {
    var cands := Survivors(service, dps, order);
    forall i | 0 <= i < |cands| ensures Eligible(cands[i]) && cands[i].endpoints != [] {
      SurvivorsAre(service, dps, order, cands[i]);
      hide Survivors;
    }
  }

  lemma {:induction false} SurvivorsPermute(service: Service, dps: Datapoints, a: seq<string>, b: seq<string>)
    requires multiset(a) == multiset(b)
    ensures multiset(Survivors(service, dps, a)) == multiset(Survivors(service, dps, b))
    decreases |a|
  {
    assert |multiset(a)| == |a| && |multiset(b)| == |b|;
    if a != [] {
      var j := MatchLast(a, b);
      var rest := b[..j] + b[j + 1..];
      SurvivorsPermute(service, dps, a[..|a| - 1], rest);
      SurvivorsWithout(service, dps, b, j);
      SurvivorsWithout(service, dps, a, |a| - 1);
      assert a[..|a| - 1] + a[|a|..] == a[..|a| - 1];
    }
  }

  lemma {:induction false} SurvivorsConcat(service: Service, dps: Datapoints, a: seq<string>, b: seq<string>)
    ensures Survivors(service, dps, a + b) == Survivors(service, dps, a) + Survivors(service, dps, b)
    decreases |b|
  {
    hide Retained;
    if b == [] {
      assert a + b == a;
    } else {
      assert (a + b)[..|a + b| - 1] == a + b[..|b| - 1];
      SurvivorsConcat(service, dps, a, b[..|b| - 1]);
      Associative(Survivors(service, dps, a), Survivors(service, dps, b[..|b| - 1]),
                  Retained(service, dps, b[|b| - 1]));
    }
  }

  lemma SurvivorsWithout(service: Service, dps: Datapoints, order: seq<string>, j: nat)
    requires j < |order|
    ensures multiset(Survivors(service, dps, order))
         == multiset(Survivors(service, dps, order[..j] + order[j + 1..]))
            + multiset(Survivors(service, dps, [order[j]]))
  {
    var before, after := order[..j], order[j + 1..];
    assert order == (before + [order[j]]) + after;
    SurvivorsConcat(service, dps, before + [order[j]], after);
    SurvivorsConcat(service, dps, before, [order[j]]);
    SurvivorsConcat(service, dps, before, after);
    hide Survivors;
  }

  /** Two visiting orders of the same maps produce the same candidates in another order. */
  lemma OrdersPermute(service: Service, dps: Datapoints, a: seq<string>, b: seq<string>)
    requires Enumerates(a, service.endpointsByNodename.Keys) && Enumerates(b, service.endpointsByNodename.Keys)
    ensures multiset(Survivors(service, dps, a)) == multiset(Survivors(service, dps, b))
  {
    EnumerationMultiset(a, b, service.endpointsByNodename.Keys);
    SurvivorsPermute(service, dps, a, b);
  }

  // ----- safety

  /** No division by zero and no `u32` overflow, as long as the cap leaves room for half a slot per node. */
  lemma NeverPanics(cfg: Config, service: Service, dps: Datapoints, order: seq<string>)
    requires PowfNonNegative(cfg) && LatenciesMeasured(dps) && BucketsFilled(service)
    requires cfg.probabilityCap + |order| / 2 <= U32_MAX
    ensures OutcomeFor(cfg, service, dps, order) != Panicked
  {
    var cands := Survivors(service, dps, order);
    SurvivorsEligible(service, dps, order);
    SurvivorsAre(service, dps, order, Candidate("", [], ScorePair(NaN, NaN)));
    hide Survivors;
    PlanSafe(cfg, cands);
  }

  lemma PlanSafe(cfg: Config, cands: seq<Candidate>)
    requires PowfNonNegative(cfg) && AllEligible(cands)
    requires forall i | 0 <= i < |cands| :: cands[i].endpoints != []
    requires cfg.probabilityCap + |cands| / 2 <= U32_MAX
    ensures !Panics(Plan(cfg, cands), cfg.probabilityCap)
  {
    var blocks, cap := Plan(cfg, cands), cfg.probabilityCap;
    FilledMeansNoZeroDivision(blocks);
    hide Plan, Design, Total;
    PlanRounds(cfg, cands);
    OvershootBounded(blocks, Shares(cfg, cands), cap, |blocks|);
    assert blocks[..|blocks|] == blocks;
    DesignTotal(blocks);
    SmallTotalFits(0, Design(blocks), cap);
  }

  lemma {:induction false} SmallTotalFits(start: nat, cells: seq<Cell>, cap: nat)
    requires start + Total(cells) <= U32_MAX
    ensures !Overflows(start, cells, cap)
    decreases |cells|
  {
    if cells != [] {
      SmallTotalFits(start + cells[0].width, cells[1..], cap);
    }
  }

  lemma {:induction false} FilledMeansNoZeroDivision(blocks: seq<Block>)
    requires forall i | 0 <= i < |blocks| :: blocks[i].endpoints != []
    ensures !SomeDivisionByZero(blocks)
    decreases |blocks|
  {
    if blocks != [] {
      FilledMeansNoZeroDivision(blocks[..|blocks| - 1]);
    }
  }

  // ----- fairness

  /** With `n` nodes in play, a served node's slot count is at most 1/2 above and at most
      max(1, n-1)/2 below `score / total * cap`. */
  lemma FairShare(cfg: Config, cands: seq<Candidate>, i: nat)
    requires PowfNonNegative(cfg) && PowfPositive(cfg) && AllReported(cands)
    requires i < |cands| && Served(Plan(cfg, cands)[i])
    ensures Score(cfg, cands[i]).Fin? && TotalScore(cfg, cands).Fin? && TotalScore(cfg, cands).v > 0.0
    ensures var share := ShareOf(Score(cfg, cands[i]).v, TotalScore(cfg, cands).v, cfg.probabilityCap as real);
      var slots, n := |NodeSlots(Plan(cfg, cands), i, cfg.probabilityCap)| as real, |cands|;
      share - 0.5 * (if n >= 2 then n - 1 else 1) as real <= slots <= share + 0.5
  {
    hide ShareOf, PerformanceScore, TotalScore, Plan;
    TotalPositive(cfg, cands);
    ScorePositive(cfg, cands[i]);
    assert Shares(cfg, cands)[i] ==
      ShareOf(Score(cfg, cands[i]).v, TotalScore(cfg, cands).v, cfg.probabilityCap as real);
    hide Shares, Score;
    PlanRounds(cfg, cands);
    ShareError(Plan(cfg, cands), Shares(cfg, cands), cfg.probabilityCap, i);
    NodeSlotsCount(Plan(cfg, cands), i, cfg.probabilityCap);
  }

  /** Little of the cap stays unallocated: half a slot per node and one per endpoint of a skipped node. */
  lemma CapNearlyUsed(cfg: Config, cands: seq<Candidate>)
    requires PowfNonNegative(cfg) && PowfPositive(cfg) && AllReported(cands) && cands != []
    requires forall i | 0 <= i < |cands| :: cands[i].endpoints != []
    ensures var blocks, cap := Plan(cfg, cands), cfg.probabilityCap;
      2 * (cap - Min(Total(Design(blocks)), cap)) <= |cands| + 2 * SkippedSlack(blocks)
  {
    var blocks := Plan(cfg, cands);
    assert forall k | 0 <= k < |blocks| :: !DividesByZero(blocks[k]);
    hide Plan, TotalScore, Shares, Design, Total, SkippedSlack, Sum;
    TotalPositive(cfg, cands);
    PlanRounds(cfg, cands);
    SharesFillCap(cfg, cands);
    UnallocatedBounded(blocks, Shares(cfg, cands), cfg.probabilityCap);
  }

  /** Two visiting orders give the same served node slot counts that differ by at most one per two nodes. */
  lemma OrderMattersLittle(cfg: Config, a: seq<Candidate>, b: seq<Candidate>, i: nat, j: nat)
    requires PowfNonNegative(cfg) && AllEligible(a) && AllEligible(b) && multiset(a) == multiset(b)
    requires i < |a| && j < |b| && a[i] == b[j] && Served(Plan(cfg, a)[i])
    ensures var cap := cfg.probabilityCap;
      -(|a| / 2) <= |NodeSlots(Plan(cfg, a), i, cap)| - |NodeSlots(Plan(cfg, b), j, cap)| <= |a| / 2
  {
    TotalOfPermutation(cfg, a, b);
    assert Plan(cfg, a)[i] == Plan(cfg, b)[j];
    hide Plan, TotalScore, Shares;
    PlanRounds(cfg, a);
    PlanRounds(cfg, b);
    OrderChangesLittle(Plan(cfg, a), Shares(cfg, a), Plan(cfg, b), Shares(cfg, b), cfg.probabilityCap, i, j);
    NodeSlotsCount(Plan(cfg, a), i, cfg.probabilityCap);
    NodeSlotsCount(Plan(cfg, b), j, cfg.probabilityCap);
  }

  /** A node that is no busier and no farther than another is granted a portion at least as large,
      whatever the other nodes report.  When its own latency is 0, so are all portions. */
  lemma Dominance(cfg: Config, cands: seq<Candidate>, better: nat, worse: nat)
    requires PowfNonNegative(cfg) && PowfPositive(cfg) && PowfMonotone(cfg) && AllEligible(cands)
    requires better < |cands| && worse < |cands| && NoWorse(cands[better].datapoint, cands[worse].datapoint)
    requires cands[better].datapoint.latency.v > 0.0 || (PowfAtInfinity(cfg) && cfg.scoreExponent > 0.0)
    ensures Plan(cfg, cands)[better].portion >= Plan(cfg, cands)[worse].portion
  {
    HeadroomPositive(cands[better]);
    assert cands[better].datapoint.latency.v == 0.0 ==> Score(cfg, cands[better]) == PosInf;
    hide PerformanceScore, Portion, TotalScore, Headroom;
    var total := TotalScore(cfg, cands);
    ScoresPartOfTotal(cfg, cands, better);
    ScoresPartOfTotal(cfg, cands, worse);
    if total.Fin? && total.v > 0.0 {
      ScoreMonotone(cfg, cands[better], cands[worse]);
      PortionMonotone(cfg.probabilityCap, Score(cfg, cands[worse]), Score(cfg, cands[better]), total);
    } else {
      PortionOfNothing(cfg.probabilityCap, Score(cfg, cands[worse]), total);
    }
  }

  // ----- the zero-latency freeze

  /** One candidate without a latency turns every portion into 0, for any number of nodes. */
  lemma ZeroLatencyZeroesAll(cfg: Config, cands: seq<Candidate>, i: nat, k: nat)
    requires PowfNonNegative(cfg) && PowfAtInfinity(cfg) && cfg.scoreExponent > 0.0 && AllEligible(cands)
    requires i < |cands| && cands[i].datapoint.latency.v == 0.0 && k < |cands|
    ensures Plan(cfg, cands)[k].portion == 0
  {
    HeadroomPositive(cands[i]);
    assert Score(cfg, cands[i]) == PosInf;
    hide Portion, TotalScore, Score;
    ScoresPartOfTotal(cfg, cands, i);
    ScoresPartOfTotal(cfg, cands, k);
    PortionOfNothing(cfg.probabilityCap, Score(cfg, cands[k]), TotalScore(cfg, cands));
  }

  lemma {:induction false} NothingServed(blocks: seq<Block>)
    requires forall i | 0 <= i < |blocks| :: blocks[i].portion == 0
    ensures Design(blocks) == [] && !SomeDivisionByZero(blocks)
    decreases |blocks|
  {
    if blocks != [] {
      NothingServed(blocks[..|blocks| - 1]);
    }
  }

  /** A surviving node of the service without a latency freezes the service: the call installs nothing
      and the previous rules stay. */
  lemma ZeroLatencyFreezes(cfg: Config, service: Service, dps: Datapoints, order: seq<string>, node: string)
    requires PowfNonNegative(cfg) && PowfAtInfinity(cfg) && cfg.scoreExponent > 0.0
    requires LatenciesMeasured(dps) && BucketsFilled(service)
    requires node in order && node in service.endpointsByNodename && Survives(dps, node)
    requires dps[node].value.latency == Fin(0.0)
    ensures OutcomeFor(cfg, service, dps, order) in {TooFewNodes, TooFewEndpoints, NoVerdictPairs}
  {
    var cands := Survivors(service, dps, order);
    var c := Candidate(node, service.endpointsByNodename[node], dps[node].value);
    SurvivorsEligible(service, dps, order);
    SurvivorsAre(service, dps, order, c);
    hide Survivors;
    var i :| 0 <= i < |cands| && cands[i] == c;
    forall k | 0 <= k < |cands| ensures Plan(cfg, cands)[k].portion == 0 {
      ZeroLatencyZeroesAll(cfg, cands, i, k);
    }
    hide Plan;
    NothingServed(Plan(cfg, cands));
  }

  // ----- what an installed rule does to the traffic

  /** An installed map covers `[0, ngMod]`, and the generator draws from `[0, ngMod)`: every draw is
      forwarded to exactly one endpoint, every endpoint but the last is drawn as often as its range is
      wide, the last once less, and it is never drawn iff its range holds a single slot. */
  lemma InstalledRule(cfg: Config, cands: seq<Candidate>, x: int, k: nat)
    requires RouteTo(cfg, cands).Install? && k < |RouteTo(cfg, cands).pairs|
    ensures var rule := RouteTo(cfg, cands);
      && 0 <= rule.ngMod < cfg.probabilityCap
      && Partitions(rule.pairs, rule.ngMod + 1)
      && (0 <= x < rule.ngMod ==> exists j :: OwnedBy(rule.pairs, x, j))
      && rule.pairs[|rule.pairs| - 1].Contains(rule.ngMod)
    ensures var rule := RouteTo(cfg, cands);
      var last := k == |rule.pairs| - 1;
      && |Draws(rule.pairs[k], rule.ngMod)| == rule.pairs[k].Width() - (if last then 1 else 0)
      && (Draws(rule.pairs[k], rule.ngMod) == {} <==> last && rule.pairs[k].Width() == 1)
  {
    hide Plan, Design, Lay, Total;
    LaidOutRule(Plan(cfg, cands), cfg.probabilityCap, x, k);
  }

  lemma LaidOutRule(blocks: seq<Block>, cap: nat, x: int, k: nat)
    requires k < |Lay(0, Design(blocks), cap)|
    ensures var pairs, ngMod := Lay(0, Design(blocks), cap), Min(Total(Design(blocks)), cap) - 1;
      && 0 <= ngMod < cap
      && Partitions(pairs, ngMod + 1)
      && (0 <= x < ngMod ==> exists j :: OwnedBy(pairs, x, j))
      && pairs[|pairs| - 1].Contains(ngMod)
      && |Draws(pairs[k], ngMod)| == pairs[k].Width() - (if k == |pairs| - 1 then 1 else 0)
      && (Draws(pairs[k], ngMod) == {} <==> k == |pairs| - 1 && pairs[k].Width() == 1)
  {
    hide Lay, Design, Total;
    var pairs, ngMod := Lay(0, Design(blocks), cap), Min(Total(Design(blocks)), cap) - 1;
    DesignPositive(blocks);
    LayPartitions(Design(blocks), cap);
    EmittedMeansAdvanced(blocks, cap);
    PartitionOwner(pairs, ngMod + 1, x);
    ShortModulusDraws(pairs, ngMod + 1, k);
  }

  /** Endpoints of one node get equally wide ranges up to one slot, first ones first; only the very last
      range of the map can be cut short. */
  lemma EvenWithinNode(blocks: seq<Block>, cap: nat, i: nat, j: nat, k: nat)
    requires i < |blocks| && |Design(blocks[..i])| <= j <= k < |Design(blocks[..i + 1])|
    requires k < |Lay(0, Design(blocks), cap)|
    ensures var pairs, b, first := Lay(0, Design(blocks), cap), blocks[i], |Design(blocks[..i])|;
      && k - first < |b.endpoints|
      && pairs[j].target == b.endpoints[j - first] && pairs[k].target == b.endpoints[k - first]
      && pairs[j].Width() >= pairs[k].Width()
      && (k + 1 < |pairs| ==> pairs[j].Width() <= pairs[k].Width() + 1)
  {
    hide Cells, Lay, Design;
    CellOfNode(blocks, i, j);
    CellOfNode(blocks, i, k);
    CellsTotal(blocks[i]);
    LayLength(0, Design(blocks), cap);
    EvenCells(Design(blocks), cap, j, k);
  }

  lemma CellOfNode(blocks: seq<Block>, i: nat, j: nat)
    requires i < |blocks| && |Design(blocks[..i])| <= j < |Design(blocks[..i + 1])|
    ensures var first := |Design(blocks[..i])|;
      && j - first < |Cells(blocks[i])| && j < |Design(blocks)|
      && Design(blocks)[j] == Cells(blocks[i])[j - first]
  {
    hide Cells;
    assert blocks[..i + 1][..i] == blocks[..i];
    DesignSplits(blocks, i + 1);
  }

  lemma EvenCells(cells: seq<Cell>, cap: nat, j: nat, k: nat)
    requires j <= k < |Lay(0, cells, cap)| <= |cells| && 0 <= cells[j].width - cells[k].width <= 1
    ensures var pairs := Lay(0, cells, cap);
      && pairs[j].target == cells[j].endpoint && pairs[k].target == cells[k].endpoint
      && pairs[j].Width() >= pairs[k].Width()
      && (k + 1 < |pairs| ==> pairs[j].Width() <= pairs[k].Width() + 1)
  {
    OnlyLastIsCut(cells, cap, j);
    OnlyLastIsCut(cells, cap, k);
    hide Lay, Total;
  }
}
