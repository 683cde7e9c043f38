/** Who receives the traffic of an installed rule: which endpoint starves, and how far a node's part of
    the draws is from its part of the scores. */
module TrafficTheorems {
  import opened Collections
  import opened Float64
  import opened SlotMap
  import opened SlotAllocator
  import opened SlotShares
  import opened UpdateNftables
  import opened Scores
  import opened RoutingTheorems

  // ----- the endpoint that starves

  /** The last node that is served. */
  function LastServed(blocks: seq<Block>): Option<Block> {
    if blocks == [] then None
    else if Served(blocks[|blocks| - 1]) then Some(blocks[|blocks| - 1])
    else LastServed(blocks[..|blocks| - 1])
  }

  /** Some endpoint's designed slots begin at `x`. */
  ghost predicate CellBeginsAt(cells: seq<Cell>, x: int) {
    exists k | 0 <= k < |cells| :: Total(cells[..k]) == x
  }

  lemma {:induction false} LastCell(blocks: seq<Block>)
    ensures Design(blocks) != [] <==> LastServed(blocks).Some?
    ensures Design(blocks) != [] ==>
      var cells, b := Design(blocks), LastServed(blocks).value;
      b.endpoints != [] && cells[|cells| - 1].width == b.portion / |b.endpoints|
    decreases |blocks|
  {
    if blocks != [] {
      var b := blocks[|blocks| - 1];
      LastCell(blocks[..|blocks| - 1]);
      var before, cells := Design(blocks[..|blocks| - 1]), Cells(b);
      assert Design(blocks) == before + cells;
      LastOfServed(b);
      hide Cells, Design, Served;
    }
  }

  lemma LastOfServed(b: Block)
    ensures Served(b) ==>
      b.endpoints != [] && Cells(b) != [] && Cells(b)[|Cells(b)| - 1].width == b.portion / |b.endpoints|
    ensures !Served(b) ==> Cells(b) == []
  {
  }

  lemma {:induction false} PrefixTotals(cells: seq<Cell>, j: nat, k: nat)
    requires Positive(cells) && j <= k <= |cells|
    ensures Total(cells[..k]) >= Total(cells[..j]) + (k - j)
    decreases k - j
  {
    if j < k {
      PrefixTotals(cells, j, k - 1);
      assert cells[..k] == cells[..k - 1] + [cells[k - 1]];
      TotalConcat(cells[..k - 1], [cells[k - 1]]);
    }
  }

  /** Where the last range begins and how wide it is. */
  lemma LastRange(cells: seq<Cell>, cap: nat) returns (k: nat)
    requires Positive(cells) && Lay(0, cells, cap) != []
    ensures k == |Lay(0, cells, cap)| - 1 < |cells| && Total(cells[..k]) < cap
    ensures Lay(0, cells, cap)[k].Width() ==
      if Total(cells) <= cap then cells[|cells| - 1].width else cap - Total(cells[..k])
    ensures Total(cells) > cap ==> forall j | 0 <= j < |cells| && Total(cells[..j]) < cap :: j <= k
    ensures k + 1 < |cells| ==> Total(cells[..k + 1]) >= cap
  {
    var m := |Lay(0, cells, cap)|;
    k := m - 1;
    LayLength(0, cells, cap);
    LayAt(0, cells, cap, k);
    OnlyLastIsCut(cells, cap, k);
    assert cells[..|cells|] == cells;
    assert cells[..k + 1] == cells[..k] + [cells[k]];
    TotalConcat(cells[..k], [cells[k]]);
    assert Total([cells[k]]) == cells[k].width;
    hide Lay, Total;
    if m < |cells| {
      LayAt(0, cells, cap, m);
      PrefixTotals(cells, m, |cells|);
    }
    forall j | 0 <= j < |cells| && Total(cells[..j]) < cap ensures j <= k {
      LayAt(0, cells, cap, j);
    }
  }

  /** The last endpoint of a plan is never drawn exactly when the plan fits the cap and the last served
      node has fewer than two slots per endpoint, or does not fit and an endpoint's slots begin at the
      very last slot below the cap. */
  lemma StarvedIff(blocks: seq<Block>, cap: nat)
    requires Lay(0, Design(blocks), cap) != []
    ensures LastServed(blocks).Some? && LastServed(blocks).value.endpoints != []
    ensures var pairs, b := Lay(0, Design(blocks), cap), LastServed(blocks).value;
      Draws(pairs[|pairs| - 1], Min(Total(Design(blocks)), cap) - 1) == {} <==>
        if ServedPortions(blocks) <= cap then b.portion / |b.endpoints| == 1
        else CellBeginsAt(Design(blocks), cap - 1)
  {
    var cells := Design(blocks);
    DesignPositive(blocks);
    DesignTotal(blocks);
    LastCell(blocks);
    var k := LastRange(cells, cap);
    LaidOutRule(blocks, cap, 0, k);
    hide Lay, Design, Total, LastServed, Draws;
    if Total(cells) > cap {
      if j: nat :| j < |cells| && Total(cells[..j]) == cap - 1 {
        PrefixTotals(cells, j, k);
      }
    }
  }

  /** The same for a call. */
  lemma LastEndpointStarvesIff(cfg: Config, cands: seq<Candidate>)
    requires RouteTo(cfg, cands).Install?
    ensures var rule, plan, cap := RouteTo(cfg, cands), Plan(cfg, cands), cfg.probabilityCap;
      && rule.pairs != [] && LastServed(plan).Some? && LastServed(plan).value.endpoints != []
      && (Draws(rule.pairs[|rule.pairs| - 1], rule.ngMod) == {} <==>
        var b := LastServed(plan).value;
        if ServedPortions(plan) <= cap then b.portion / |b.endpoints| == 1
        else CellBeginsAt(Design(plan), cap - 1))
  {
    hide Plan, Design, Lay, Total, LastServed, Draws, ServedPortions, CellBeginsAt, Panics, TotalEndpoints;
    StarvedIff(Plan(cfg, cands), cfg.probabilityCap);
  }

  // ----- a node's part of the draws

  /** The drawn numbers that select an endpoint of node `i`. */
  ghost function NodeDraws(blocks: seq<Block>, i: nat, cap: nat, m: int): set<int>
    requires i < |blocks|
  {
    set x | x in NodeSlots(blocks, i, cap) && x < m
  }

  lemma {:induction false} NodeDrawsCount(blocks: seq<Block>, i: nat, cap: nat)
    requires i < |blocks|
    ensures var m := Min(Total(Design(blocks)), cap) - 1;
      Realised(blocks, i, cap) - 1 <= |NodeDraws(blocks, i, cap, m)| <= Realised(blocks, i, cap)
  {
    var total := Min(Total(Design(blocks)), cap);
    var lo, hi := Min(NodeStart(blocks, i), cap), Min(NodeStart(blocks, i + 1), cap);
    assert Realised(blocks, i, cap) == hi - lo;
    assert lo <= hi <= total by {
      NodeStartMonotone(blocks, i, i + 1);
      NodeStartMonotone(blocks, i + 1, |blocks|);
      assert blocks[..|blocks|] == blocks;
      DesignTotal(blocks);
    }
    NodeDrawsInterval(blocks, i, cap, total - 1);
    hide *;
    IntervalSize(lo, Min(hi, total - 1));
    assert Min(hi, total - 1) == if hi <= total - 1 then hi else total - 1 by { MinIs(hi, total - 1); }
  }

  lemma MinIs(a: int, b: int)
    ensures Min(a, b) == if a <= b then a else b
  {
  }

  lemma NodeDrawsInterval(blocks: seq<Block>, i: nat, cap: nat, m: int)
    requires i < |blocks|
    ensures var lo, hi := Min(NodeStart(blocks, i), cap), Min(NodeStart(blocks, i + 1), cap);
      NodeDraws(blocks, i, cap, m) == Interval(lo, Min(hi, m))
  {
    var lo, hi := Min(NodeStart(blocks, i), cap), Min(NodeStart(blocks, i + 1), cap);
    assert lo >= 0;
    hide NodeStart, InNode, Interval;
    IntervalSize(lo, Min(hi, m));
    forall x ensures x in NodeDraws(blocks, i, cap, m) <==> lo <= x < Min(hi, m) {
      InNodeIff(blocks, i, cap, x);
    }
  }

  /** Out of the draws of an installed rule, a served node receives its part of the scores up to a
      number of draws that depends only on the number of nodes and the skipped endpoints. */
  lemma {:induction false} TrafficShare(cfg: Config, cands: seq<Candidate>, i: nat)
    requires PowfNonNegative(cfg) && PowfPositive(cfg) && AllReported(cands)
    requires forall k | 0 <= k < |cands| :: cands[k].endpoints != []
    requires i < |cands| && Served(Plan(cfg, cands)[i])
    ensures Score(cfg, cands[i]).Fin? && TotalScore(cfg, cands).Fin? && TotalScore(cfg, cands).v > 0.0
    ensures var blocks, cap := Plan(cfg, cands), cfg.probabilityCap;
      var m, n := Min(Total(Design(blocks)), cap) - 1, |cands|;
      var part := ShareOf(Score(cfg, cands[i]).v, TotalScore(cfg, cands).v, m as real);
      var draws := |NodeDraws(blocks, i, cap, m)| as real;
      && part - 0.5 * (if n >= 2 then n - 1 else 1) as real - 1.0 <= draws
      && draws <= part + 1.5 + 0.5 * n as real + SkippedSlack(blocks) as real
  {
    hide Plan, Design, Total, TotalScore, PerformanceScore, ShareOf, SkippedSlack, NodeDraws, NodeSlots, Score,
      Realised, NodeStart, PowfNonNegative, PowfPositive;
    var blocks, cap := Plan(cfg, cands), cfg.probabilityCap;
    var m := Min(Total(Design(blocks)), cap) - 1;
    FairShare(cfg, cands, i);
    CapNearlyUsed(cfg, cands);
    NodeDrawsCount(blocks, i, cap);
    NodeSlotsCount(blocks, i, cap);
    ScoresPartOfTotal(cfg, cands, i);
    var s, t := Score(cfg, cands[i]).v, TotalScore(cfg, cands).v;
    hide *;
    assert m <= cap - 1;
    SmallerWhole(s, t, m as real, cap as real);
  }

  lemma SmallerWhole(s: real, t: real, m: real, c: real)
    requires 0.0 <= s <= t && t > 0.0 && m <= c
    ensures ShareOf(s, t, m) <= ShareOf(s, t, c) <= ShareOf(s, t, m) + (c - m)
  {
    ShareWithinWhole(s, t, c - m);
    var f := Quotient(s, t);
    hide Quotient;
    assert f * c == f * m + f * (c - m);
  }

  /** A rule whose only range holds a single slot hands the generator an empty interval. */
  lemma NothingToDraw(cfg: Config, cands: seq<Candidate>)
    requires RouteTo(cfg, cands).Install?
    ensures var rule := RouteTo(cfg, cands);
      rule.ngMod == 0 <==> |rule.pairs| == 1 && rule.pairs[0].Width() == 1
    ensures RouteTo(cfg, cands).ngMod == 0 <==> Min(ServedPortions(Plan(cfg, cands)), cfg.probabilityCap) == 1
  {
    var rule := RouteTo(cfg, cands);
    DesignTotal(Plan(cfg, cands));
    hide Plan, Design, Lay, Total, Panics, TotalEndpoints;
    InstalledRule(cfg, cands, 0, 0);
    InstalledRule(cfg, cands, 0, |rule.pairs| - 1);
    RangesAscend(rule.pairs, rule.ngMod + 1, 0, |rule.pairs| - 1);
  }

  // ----- the visiting order decides who starves

  const NEAR := Candidate("near", [Ipv4(1)], ScorePair(Fin(1.0), Fin(0.5)))
  const FAR := Candidate("far", [Ipv4(2)], ScorePair(Fin(2.0), Fin(0.5)))

  function Linear(cap: U32): Config {
    Config(cap, 1.0, (x: F64, e: real) => x)
  }

  lemma NearFarScores(cfg: Config)
    requires cfg == Linear(3)
    ensures PerformanceScore(cfg, NEAR.datapoint) == Fin(0.5) && PerformanceScore(cfg, FAR.datapoint) == Fin(0.25)
    ensures Portion(3, Fin(0.5), Fin(0.75)) == 2 && Portion(3, Fin(0.25), Fin(0.75)) == 1
  {
    assert Quotient(0.5, 1.0) == 0.5 && Quotient(0.5, 2.0) == 0.25;
    assert Times(Quotient(0.5, 0.75), 3.0) == 2.0 && Times(Quotient(0.25, 0.75), 3.0) == 1.0;
    hide Times, Quotient;
  }

  lemma PairTotals(cfg: Config, a: Candidate, b: Candidate)
    ensures TotalScore(cfg, [a, b]) ==
      Add(Add(Fin(0.0), PerformanceScore(cfg, a.datapoint)), PerformanceScore(cfg, b.datapoint))
    ensures TotalEndpoints([a, b]) == |a.endpoints| + |b.endpoints|
  {
    hide PerformanceScore, Add;
    assert [a, b][..1] == [a] && [a][..0] == [];
    assert TotalScore(cfg, [a]) == Add(Fin(0.0), PerformanceScore(cfg, a.datapoint));
    assert TotalEndpoints([a]) == |a.endpoints|;
  }

  lemma NearFarPlan()
    ensures Plan(Linear(3), [NEAR, FAR]) == [Block("near", [Ipv4(1)], 2), Block("far", [Ipv4(2)], 1)]
    ensures Plan(Linear(3), [FAR, NEAR]) == [Block("far", [Ipv4(2)], 1), Block("near", [Ipv4(1)], 2)]
    ensures TotalEndpoints([NEAR, FAR]) == 2 && TotalEndpoints([FAR, NEAR]) == 2
  {
    var cfg := Linear(3);
    NearFarScores(cfg);
    PairTotals(cfg, NEAR, FAR);
    PairTotals(cfg, FAR, NEAR);
    hide Portion, PerformanceScore, TotalScore, TotalEndpoints;
  }

  lemma TwoSingles(a: Block, b: Block)
    requires |a.endpoints| == |b.endpoints| == 1 && a.portion >= 1 && b.portion >= 1 && a.portion + b.portion == 3
    ensures Lay(0, Design([a, b]), 3) == [Slot(0, a.portion - 1, a.endpoints[0]), Slot(a.portion, 2, b.endpoints[0])]
    ensures Total(Design([a, b])) == 3 && !Panics([a, b], 3)
  {
    assert [a, b][..1] == [a] && [a][..0] == [];
    var c, d := Cell(a.endpoints[0], a.portion), Cell(b.endpoints[0], b.portion);
    assert Cells(a) == [c] && Cells(b) == [d];
    assert Design([a]) == [c] && Design([a, b]) == [c, d];
    assert !SomeDivisionByZero([a]) && !SomeDivisionByZero([a, b]);
    hide Cells, Design, SomeDivisionByZero;
    TwoCells(c, d);
  }

  lemma TwoCells(c: Cell, d: Cell)
    requires c.width >= 1 && d.width >= 1 && c.width + d.width == 3
    ensures Lay(0, [c, d], 3) == [Slot(0, c.width - 1, c.endpoint), Slot(c.width, 2, d.endpoint)]
    ensures Total([c, d]) == 3 && !Overflows(0, [c, d], 3)
  {
    assert [c, d][1..] == [d] && [d][1..] == [];
    assert Total([d]) == d.width;
    assert Lay(3, [], 3) == [] && Lay(c.width, [d], 3) == [Slot(c.width, 2, d.endpoint)];
    assert !Overflows(3, [], 3) && !Overflows(c.width, [d], 3);
  }

  /** Two nodes, a cap of 3: the far node's one slot is never drawn when the far node is visited last,
      and is drawn half of the time when it is visited first. */
  lemma OrderDecidesWhoStarves()
    ensures RouteTo(Linear(3), [NEAR, FAR]) == Install([Slot(0, 1, Ipv4(1)), Slot(2, 2, Ipv4(2))], 2)
    ensures RouteTo(Linear(3), [FAR, NEAR]) == Install([Slot(0, 0, Ipv4(2)), Slot(1, 2, Ipv4(1))], 2)
    ensures Draws(Slot(2, 2, Ipv4(2)), 2) == {} && Draws(Slot(0, 0, Ipv4(2)), 2) == {0}
  {
    NearFarPlan();
    TwoSingles(Block("near", [Ipv4(1)], 2), Block("far", [Ipv4(2)], 1));
    TwoSingles(Block("far", [Ipv4(2)], 1), Block("near", [Ipv4(1)], 2));
    hide Plan, Design, Lay, Total, TotalEndpoints, Panics;
  }
}
