/** `update_nftables`: filter the nodes, score them, turn scores into slot portions and lay them out. */
module UpdateNftables {
  import opened Collections
  import opened Float64
  import opened SlotMap
  import opened SlotAllocator

  datatype ScorePair = ScorePair(latency: F64, cpu: F64)

  datatype Service = Service(name: string, nodeport: int, targetport: int,
                             endpointsByNodename: map<string, seq<Ipv4>>)

  type Datapoints = map<string, Option<ScorePair>>

  /** The part of the configuration that routing reads; `powf` is the platform's power function. */
  datatype Config = Config(probabilityCap: U32, scoreExponent: real, powf: (F64, real) -> F64)

  /** How a call ends.  `Install` carries the verdict map and the modulus of the random generator. */
  datatype Outcome =
    | TooFewNodes
    | TooFewEndpoints
    | NoVerdictPairs
    | Panicked
    | Install(pairs: seq<Slot<Ipv4>>, ngMod: int)

  /** A node that passed the filter, with what the call reads about it. */
  datatype Candidate = Candidate(node: string, endpoints: seq<Ipv4>, datapoint: ScorePair)

  /** The `retain` filter: a datapoint exists and its cpu usage is strictly between 0% and 95%. */
  predicate Survives(dps: Datapoints, node: string) {
    node in dps && dps[node].Some? && Between(0.0, dps[node].value.cpu, 0.95)
  }

  /** The surviving nodes in the order in which the map is visited. */
  function Survivors(service: Service, dps: Datapoints, order: seq<string>): seq<Candidate> {
    if order == [] then []
    else Survivors(service, dps, order[..|order| - 1]) + Retained(service, dps, order[|order| - 1])
  }

  function Retained(service: Service, dps: Datapoints, node: string): seq<Candidate> {
    if node in service.endpointsByNodename && Survives(dps, node)
    then [Candidate(node, service.endpointsByNodename[node], dps[node].value)] else []
  }

  function PerformanceScore(cfg: Config, dp: ScorePair): F64 {
    cfg.powf(Div(OneMinus(dp.cpu), dp.latency), cfg.scoreExponent)
  }

  function TotalScore(cfg: Config, cands: seq<Candidate>): F64 {
    if cands == [] then Fin(0.0)
    else Add(TotalScore(cfg, cands[..|cands| - 1]), PerformanceScore(cfg, cands[|cands| - 1].datapoint))
  }

  function TotalEndpoints(cands: seq<Candidate>): nat {
    if cands == [] then 0
    else TotalEndpoints(cands[..|cands| - 1]) + |cands[|cands| - 1].endpoints|
  }

  function Portion(cap: U32, score: F64, total: F64): nat {
    CastU32(Round(Mul(Div(score, total), Fin(cap as real))))
  }

  function Blocks(cfg: Config, cands: seq<Candidate>, total: F64): (blocks: seq<Block>)
    ensures |blocks| == |cands|
  {
    seq(|cands|, i requires 0 <= i < |cands| =>
      Block(cands[i].node, cands[i].endpoints,
            Portion(cfg.probabilityCap, PerformanceScore(cfg, cands[i].datapoint), total)))
  }

  /** The surviving nodes with their portions of the cap. */
  function Plan(cfg: Config, cands: seq<Candidate>): (blocks: seq<Block>)
    ensures |blocks| == |cands|
  {
    Blocks(cfg, cands, TotalScore(cfg, cands))
  }

  predicate SomeDivisionByZero(blocks: seq<Block>) {
    blocks != [] && (SomeDivisionByZero(blocks[..|blocks| - 1]) || DividesByZero(blocks[|blocks| - 1]))
  }

  predicate Panics(blocks: seq<Block>, cap: nat) {
    SomeDivisionByZero(blocks) || Overflows(0, Design(blocks), cap)
  }

  /** The result of the whole call for a given visiting order. */
  function OutcomeFor(cfg: Config, service: Service, dps: Datapoints, order: seq<string>): Outcome {
    if |order| < 2 then TooFewNodes else RouteTo(cfg, Survivors(service, dps, order))
  }

  function RouteTo(cfg: Config, cands: seq<Candidate>): Outcome {
    var blocks, cap := Plan(cfg, cands), cfg.probabilityCap;
    if TotalEndpoints(cands) < 2 then TooFewEndpoints
    else if Panics(blocks, cap) then Panicked
    else if Lay(0, Design(blocks), cap) == [] then NoVerdictPairs
    else Install(Lay(0, Design(blocks), cap), Min(Total(Design(blocks)), cap) - 1)
  }

  /** The call ends this way for some visiting order of the service's map. */
  ghost predicate PossibleOutcome(cfg: Config, service: Service, dps: Datapoints, out: Outcome) {
    exists order :: Enumerates(order, service.endpointsByNodename.Keys) && out == OutcomeFor(cfg, service, dps, order)
  }

  method UpdateNftables(cfg: Config, service: Service, dps: Datapoints) returns (out: Outcome)
    ensures PossibleOutcome(cfg, service, dps, out)
  {
    var nodes := HashOrder(service.endpointsByNodename.Keys);
    out := RouteInOrder(cfg, service, dps, nodes);
  }

  method RouteInOrder(cfg: Config, service: Service, dps: Datapoints, nodes: seq<string>) returns (out: Outcome)
    requires forall i | 0 <= i < |nodes| :: nodes[i] in service.endpointsByNodename
    ensures out == OutcomeFor(cfg, service, dps, nodes)
  {
    if |nodes| < 2 {
      return TooFewNodes;
    }
    var kept := RetainNodes(service, dps, nodes);
    ghost var cands := Survivors(service, dps, nodes);
    var totalEndpoints, totalScore := SumUp(cfg, service, dps, kept, cands);
    if totalEndpoints < 2 {
      return TooFewEndpoints;
    }
    var blocks := ComputePortions(cfg, service, dps, kept, totalScore, cands);
    var panicked, pairs, starting := AllocateAll(blocks, cfg.probabilityCap);
    if panicked {
      return Panicked;
    }
    if pairs == [] {
      return NoVerdictPairs;
    }
    EmittedMeansAdvanced(blocks, cfg.probabilityCap);
    var ngMod := if starting > 0 then starting - 1 else cfg.probabilityCap - 1;
    return Install(pairs, ngMod);
  }

  /** The names kept by the filter can be looked up again: the two `unwrap`s of the source are safe. */
  ghost predicate Names(service: Service, dps: Datapoints, kept: seq<string>, cands: seq<Candidate>) {
    && |kept| == |cands|
    && forall i | 0 <= i < |kept| ::
      && kept[i] in dps && dps[kept[i]].Some? && kept[i] in service.endpointsByNodename
      && cands[i] == Candidate(kept[i], service.endpointsByNodename[kept[i]], dps[kept[i]].value)
  }

  method RetainNodes(service: Service, dps: Datapoints, nodes: seq<string>) returns (kept: seq<string>)
    requires forall i | 0 <= i < |nodes| :: nodes[i] in service.endpointsByNodename
    ensures Names(service, dps, kept, Survivors(service, dps, nodes))
  {
    kept := [];
    for i := 0 to |nodes|
      invariant Names(service, dps, kept, Survivors(service, dps, nodes[..i]))
    {
      assert nodes[..i + 1][..i] == nodes[..i];
      if nodes[i] in dps && dps[nodes[i]].Some? && Between(0.0, dps[nodes[i]].value.cpu, 0.95) {
        kept := kept + [nodes[i]];
      }
    }
    assert nodes[..|nodes|] == nodes;
  }

  method SumUp(cfg: Config, service: Service, dps: Datapoints, kept: seq<string>, ghost cands: seq<Candidate>)
    returns (totalEndpoints: nat, totalScore: F64)
    requires Names(service, dps, kept, cands)
    ensures totalEndpoints == TotalEndpoints(cands)
    ensures totalScore == TotalScore(cfg, cands)
  {
    totalEndpoints, totalScore := 0, Fin(0.0);
    for i := 0 to |kept|
      invariant totalEndpoints == TotalEndpoints(cands[..i])
      invariant totalScore == TotalScore(cfg, cands[..i])
    {
      assert cands[..i + 1][..i] == cands[..i];
      totalEndpoints := totalEndpoints + |service.endpointsByNodename[kept[i]]|;
      totalScore := Add(totalScore, PerformanceScore(cfg, dps[kept[i]].value));
    }
    assert cands[..|kept|] == cands;
  }

  /** The first half of the allocation loop's body: score and portion of every surviving node. */
  method ComputePortions(cfg: Config, service: Service, dps: Datapoints, kept: seq<string>,
                         totalScore: F64, ghost cands: seq<Candidate>)
    returns (blocks: seq<Block>)
    requires Names(service, dps, kept, cands)
    ensures blocks == Blocks(cfg, cands, totalScore)
  {
    blocks := [];
    for i := 0 to |kept|
      invariant blocks == Blocks(cfg, cands, totalScore)[..i]
    {
      var score := PerformanceScore(cfg, dps[kept[i]].value);
      var nodePortion := Portion(cfg.probabilityCap, score, totalScore);
      blocks := blocks + [Block(kept[i], service.endpointsByNodename[kept[i]], nodePortion)];
    }
  }

  /** The second half: laying out the portions one node after the other. */
  method AllocateAll(blocks: seq<Block>, cap: U32)
    returns (panicked: bool, pairs: seq<Slot<Ipv4>>, starting: nat)
    ensures panicked <==> Panics(blocks, cap)
    ensures !panicked ==> pairs == Lay(0, Design(blocks), cap) && starting == Min(Total(Design(blocks)), cap)
  {
    panicked, pairs, starting := false, [], 0;
    LaidOutEnds(blocks, cap);
    hide LaidOut, Design, Lay, Total, Overflows, Cells, Panics;
    for i := 0 to |blocks|
      invariant !panicked && LaidOut(blocks, i, cap, pairs, starting)
    {
      ghost var before, start := pairs, starting;
      assert start == Min(Total(Design(blocks[..i])), cap) by { LaidOutStart(blocks, i, cap, pairs, starting); }
      if blocks[i].portion == 0 {
        SkipNode(blocks, i, cap, pairs, starting);
      } else {
        panicked, pairs, starting := AllocateNode(blocks[i], pairs, starting, cap);
        if panicked {
          PanicAtNode(blocks, i, cap, start);
          return;
        }
        PlaceNode(blocks, i, cap, before, start);
      }
    }
  }

  /** The first `i` nodes have been laid out without a panic. */
  ghost predicate LaidOut(blocks: seq<Block>, i: nat, cap: nat, pairs: seq<Slot<Ipv4>>, starting: nat) {
    && i <= |blocks| && !Panics(blocks[..i], cap)
    && starting == Min(Total(Design(blocks[..i])), cap)
    && pairs == Lay(0, Design(blocks[..i]), cap)
  }

  lemma LaidOutStart(blocks: seq<Block>, i: nat, cap: nat, pairs: seq<Slot<Ipv4>>, starting: nat)
    requires LaidOut(blocks, i, cap, pairs, starting)
    ensures i <= |blocks| && starting == Min(Total(Design(blocks[..i])), cap)
  {
  }

  lemma LaidOutEnds(blocks: seq<Block>, cap: nat)
    ensures LaidOut(blocks, 0, cap, [], 0)
    ensures forall pairs, starting: nat | LaidOut(blocks, |blocks|, cap, pairs, starting) ::
      && !Panics(blocks, cap)
      && pairs == Lay(0, Design(blocks), cap) && starting == Min(Total(Design(blocks)), cap)
  {
    assert blocks[..|blocks|] == blocks;
  }

  lemma SkipNode(blocks: seq<Block>, i: nat, cap: nat, pairs: seq<Slot<Ipv4>>, starting: nat)
    requires i < |blocks| && LaidOut(blocks, i, cap, pairs, starting) && blocks[i].portion == 0
    ensures LaidOut(blocks, i + 1, cap, pairs, starting)
  {
    hide Design, Lay, Total, Overflows, Cells, Panics;
    NextBlock(blocks, i, starting, cap);
  }

  lemma PanicAtNode(blocks: seq<Block>, i: nat, cap: nat, starting: nat)
    requires i < |blocks| && starting == Min(Total(Design(blocks[..i])), cap)
    requires DividesByZero(blocks[i]) || Overflows(starting, Cells(blocks[i]), cap)
    ensures Panics(blocks, cap)
  {
    hide Design, Lay, Total, Overflows, Cells, Panics;
    NextBlock(blocks, i, starting, cap);
  }

  lemma PlaceNode(blocks: seq<Block>, i: nat, cap: nat, pairs: seq<Slot<Ipv4>>, starting: nat)
    requires i < |blocks| && LaidOut(blocks, i, cap, pairs, starting)
    requires !DividesByZero(blocks[i]) && !Overflows(starting, Cells(blocks[i]), cap)
    ensures LaidOut(blocks, i + 1, cap,
      pairs + Lay(starting, Cells(blocks[i]), cap), Min(starting + Total(Cells(blocks[i])), cap))
  {
    hide Design, Lay, Total, Overflows, Cells, Panics;
    NextBlock(blocks, i, starting, cap);
  }

  /** One turn of the allocation loop: laying out one more node after those already laid out. */
  lemma NextBlock(blocks: seq<Block>, i: nat, starting: nat, cap: nat)
    requires i < |blocks| && starting == Min(Total(Design(blocks[..i])), cap)
    ensures Min(Total(Design(blocks[..i + 1])), cap) == Min(starting + Total(Cells(blocks[i])), cap)
    ensures Lay(0, Design(blocks[..i + 1]), cap)
         == Lay(0, Design(blocks[..i]), cap) + Lay(starting, Cells(blocks[i]), cap)
    ensures Panics(blocks[..i + 1], cap) <==>
      Panics(blocks[..i], cap) || DividesByZero(blocks[i]) || Overflows(starting, Cells(blocks[i]), cap)
    ensures Panics(blocks[..i + 1], cap) ==> Panics(blocks, cap)
    ensures blocks[i].portion == 0 ==>
      && Lay(0, Design(blocks[..i + 1]), cap) == Lay(0, Design(blocks[..i]), cap)
      && Min(Total(Design(blocks[..i + 1])), cap) == starting
      && (Panics(blocks[..i + 1], cap) <==> Panics(blocks[..i], cap))
  {
    assert blocks[..i + 1][..i] == blocks[..i];
    var done, cells := Design(blocks[..i]), Cells(blocks[i]);
    assert Design(blocks[..i + 1]) == done + cells;
    assert blocks[i].portion == 0 ==> cells == [] && done + cells == done && !DividesByZero(blocks[i]);
    assert SomeDivisionByZero(blocks[..i + 1]) <==> SomeDivisionByZero(blocks[..i]) || DividesByZero(blocks[i]);
    hide Design, Cells, Lay, Total, Overflows, SomeDivisionByZero;
    LayNext(done, cells, starting, cap);
    PanicsOfPrefix(blocks, i + 1, cap);
  }

  lemma {:induction false} PanicsOfPrefix(blocks: seq<Block>, i: nat, cap: nat)
    requires i <= |blocks|
    ensures Panics(blocks[..i], cap) ==> Panics(blocks, cap)
    decreases |blocks|
  {
    if i == |blocks| {
      assert blocks[..i] == blocks;
    } else {
      var init := blocks[..|blocks| - 1];
      assert init[..i] == blocks[..i];
      PanicsOfPrefix(init, i, cap);
      OverflowsConcat(0, Design(init), Cells(blocks[|blocks| - 1]), cap);
    }
  }

  lemma LayNext(done: seq<Cell>, cells: seq<Cell>, starting: nat, cap: nat)
    requires starting == Min(Total(done), cap)
    ensures Min(Total(done + cells), cap) == Min(starting + Total(cells), cap)
    ensures Lay(0, done + cells, cap) == Lay(0, done, cap) + Lay(starting, cells, cap)
    ensures Overflows(0, done + cells, cap) <==> Overflows(0, done, cap) || Overflows(starting, cells, cap)
  {
    LayConcat(0, done, cells, cap);
    OverflowsConcat(0, done, cells, cap);
    TotalConcat(done, cells);
    LayFromCap(Total(done), starting, cells, cap);
  }

  /** A non-empty verdict map means a positive cursor: the `else` of the modulus is never taken. */
  lemma EmittedMeansAdvanced(blocks: seq<Block>, cap: nat)
    requires Lay(0, Design(blocks), cap) != []
    ensures Min(Total(Design(blocks)), cap) >= 1
  {
    DesignPositive(blocks);
    LayPartitions(Design(blocks), cap);
  }
}
