/** The k6 script as a compiler from a list of segments to ramping stages, and what the compiled
    stages make k6 do at every moment of the run. */
module Stages {
  import opened Collections
  import opened Mulberry32
  import opened Poisson

  /** Mean rates per node, held for a parsed duration. */
  datatype Segment = Segment(lambdas: seq<real>, seconds: real)

  datatype Stage = Stage(target: int, seconds: real)

  datatype Scenario = Scenario(startRate: int, stages: seq<Stage>, vus: int)

  /** The other options of the script, and the sampler it runs on. */
  datatype Setup = Setup(seed: int, tick: real, vuFactor: real, sampler: Sampler)

  ghost predicate Usable(setup: Setup) {
    setup.tick > 0.0 && Proper(setup.sampler)
  }

  /** `Math.round`: halves go up. */
  function JsRound(x: real): int {
    (x + 0.5).Floor
  }

  function Ceil(x: real): int {
    -((-x).Floor)
  }

  function Max(a: int, b: int): int {
    if a >= b then a else b
  }

  function Per(x: real, tick: real): real
    requires tick > 0.0
  {
    x / tick
  }

  /** Ticks of one segment. */
  function Ticks(seconds: real, tick: real): (n: nat)
    requires tick > 0.0
    ensures n >= 1
  {
    Max(1, JsRound(Per(seconds, tick)))
  }

  function TotalTicks(segments: seq<Segment>, tick: real): (n: nat)
    requires tick > 0.0
    ensures n >= |segments|
  {
    if segments == [] then 0
    else TotalTicks(segments[..|segments| - 1], tick) + Ticks(segments[|segments| - 1].seconds, tick)
  }

  function SampledRate(sample: nat, tick: real): int
    requires tick > 0.0
  {
    JsRound(Per(sample as real, tick))
  }

  /** The rate of a tick is its count per second, rounded to nearest, halves up. */
  lemma RateOfCount(sample: nat, tick: real)
    requires tick > 0.0
    ensures -tick <= 2.0 * (sample as real - SampledRate(sample, tick) as real * tick) < tick
  {
    var p, rate := Per(sample as real, tick), SampledRate(sample, tick) as real;
    assert p * tick == sample as real;
    assert rate <= p + 0.5 < rate + 1.0;
    hide *;
    Nearest(p, rate, tick, sample as real);
  }

  lemma Nearest(p: real, rate: real, tick: real, sample: real)
    requires tick > 0.0 && p * tick == sample && rate <= p + 0.5 < rate + 1.0
    ensures -tick <= 2.0 * (sample - rate * tick) < tick
  {
    var d := p - rate;
    Halved(d, tick);
    assert d * tick == sample - rate * tick;
  }

  lemma Halved(d: real, tick: real)
    requires -0.5 <= d < 0.5 && tick > 0.0
    ensures -tick <= 2.0 * (d * tick) < tick
  {
    assert (d + 0.5) * tick >= 0.0;
    assert (0.5 - d) * tick > 0.0;
  }

  /** Every segment names a rate for the node. */
  predicate Names(segments: seq<Segment>, node: nat) {
    forall s | 0 <= s < |segments| :: node < |segments[s].lambdas|
  }

  /** Segments that all name the same nodes. */
  ghost predicate Uniform(segments: seq<Segment>, nodes: nat) {
    forall s | 0 <= s < |segments| :: |segments[s].lambdas| == nodes
  }

  function TickMean(segment: Segment, node: nat, tick: real): real
    requires node < |segment.lambdas|
  {
    segment.lambdas[node] * tick
  }

  /** The mean number of arrivals of every tick of the run. */
  function Means(segments: seq<Segment>, node: nat, tick: real): (means: seq<real>)
    requires tick > 0.0 && Names(segments, node)
    ensures |means| == TotalTicks(segments, tick)
  {
    if segments == [] then []
    else
      var last := segments[|segments| - 1];
      Means(segments[..|segments| - 1], node, tick)
      + seq(Ticks(last.seconds, tick), _ => TickMean(last, node, tick))
  }

  /** Calls to the generator made for the first ticks of a run. */
  ghost function Calls(sampler: Sampler, seed: int, means: seq<real>): nat
    requires Proper(sampler)
  {
    if means == [] then 0
    else
      var before := Calls(sampler, seed, means[..|means| - 1]);
      before + Sample(sampler, StateAfter(seed, before), means[|means| - 1]).calls
  }

  /** The draw of tick `j`: from the state that the earlier ticks leave behind. */
  ghost function DrawAt(sampler: Sampler, seed: int, means: seq<real>, j: nat): Draw
    requires Proper(sampler) && j < |means|
  {
    Sample(sampler, StateAfter(seed, Calls(sampler, seed, means[..j])), means[j])
  }

  function NodeSeed(setup: Setup, node: nat): int {
    setup.seed + node * NODE_GAP
  }

  /** The arrival rates of a node, one for every tick of the run. */
  ghost function Rates(segments: seq<Segment>, node: nat, setup: Setup): (rates: seq<int>)
    requires Usable(setup) && Names(segments, node)
    ensures |rates| == TotalTicks(segments, setup.tick)
  {
    var means := Means(segments, node, setup.tick);
    seq(|means|, j requires 0 <= j < |means| =>
      SampledRate(DrawAt(setup.sampler, NodeSeed(setup, node), means, j).count, setup.tick))
  }

  lemma TicksNext(segments: seq<Segment>, s: nat, tick: real)
    requires tick > 0.0 && s < |segments|
    ensures TotalTicks(segments[..s + 1], tick) == TotalTicks(segments[..s], tick) + Ticks(segments[s].seconds, tick)
  {
    assert segments[..s + 1][..s] == segments[..s];
  }

  lemma {:induction false} TicksMonotone(segments: seq<Segment>, s: nat, t: nat, tick: real)
    requires tick > 0.0 && s <= t <= |segments|
    ensures TotalTicks(segments[..s], tick) <= TotalTicks(segments[..t], tick)
    decreases t
  {
    if s < t {
      TicksNext(segments, t - 1, tick);
      TicksMonotone(segments, s, t - 1, tick);
    }
  }

  /** The means of a segment's ticks stand where the ticks of the segments before it end. */
  lemma {:induction false} MeanOfTick(segments: seq<Segment>, node: nat, tick: real, s: nat, j: nat)
    requires tick > 0.0 && Names(segments, node) && s < |segments|
    requires TotalTicks(segments[..s], tick) <= j < TotalTicks(segments[..s + 1], tick)
    ensures j < |Means(segments, node, tick)| && Means(segments, node, tick)[j] == TickMean(segments[s], node, tick)
    decreases |segments|
  {
    hide Ticks, TickMean, TotalTicks, Means;
    var n := |segments| - 1;
    TicksMonotone(segments, s + 1, |segments|, tick);
    assert segments[..n + 1] == segments;
    TicksNext(segments, n, tick);
    MeansNext(segments, node, tick);
    if s < n {
      assert segments[..n][..s] == segments[..s] && segments[..n][..s + 1] == segments[..s + 1];
      MeanOfTick(segments[..n], node, tick, s, j);
    }
  }

  lemma MeansNext(segments: seq<Segment>, node: nat, tick: real)
    requires tick > 0.0 && Names(segments, node) && segments != []
    ensures var n := |segments| - 1;
      Means(segments, node, tick) == Means(segments[..n], node, tick)
        + seq(Ticks(segments[n].seconds, tick), _ => TickMean(segments[n], node, tick))
  {
    hide Ticks, TickMean, TotalTicks;
  }

  lemma CallsNext(sampler: Sampler, seed: int, means: seq<real>, j: nat)
    requires Proper(sampler) && j < |means|
    ensures Calls(sampler, seed, means[..j + 1])
      == Calls(sampler, seed, means[..j]) + DrawAt(sampler, seed, means, j).calls
  {
    hide Sample, StateAfter, Proper;
    assert means[..j + 1][..j] == means[..j];
  }

  /** The rates so far, and the generator where they leave it. */
  ghost predicate DrawnSoFar(rates: seq<int>, segments: seq<Segment>, node: nat, setup: Setup, state: nat)
    requires Usable(setup) && Names(segments, node)
  {
    var means := Means(segments, node, setup.tick);
    && rates <= Rates(segments, node, setup)
    && state == StateAfter(NodeSeed(setup, node), Calls(setup.sampler, NodeSeed(setup, node), means[..|rates|]))
  }

  /** One tick: the sample of its mean from the current state. */
  lemma DrawnNext(rates: seq<int>, segments: seq<Segment>, node: nat, setup: Setup, state: nat, s: nat)
    requires Usable(setup) && Names(segments, node) && DrawnSoFar(rates, segments, node, setup, state)
    requires s < |segments|
    requires TotalTicks(segments[..s], setup.tick) <= |rates| < TotalTicks(segments[..s + 1], setup.tick)
    ensures var draw := Sample(setup.sampler, state, TickMean(segments[s], node, setup.tick));
      DrawnSoFar(rates + [SampledRate(draw.count, setup.tick)], segments, node, setup, StateAfter(state, draw.calls))
  {
    hide Sample, StateAfter, Proper, SampledRate, TotalTicks, Means, Calls;
    var seed, means, j := NodeSeed(setup, node), Means(segments, node, setup.tick), |rates|;
    MeanOfTick(segments, node, setup.tick, s, j);
    CallsNext(setup.sampler, seed, means, j);
    AfterAfter(seed, Calls(setup.sampler, seed, means[..j]), DrawAt(setup.sampler, seed, means, j).calls);
    var all := Rates(segments, node, setup);
    assert all[j] == SampledRate(DrawAt(setup.sampler, seed, means, j).count, setup.tick);
    assert all[..j + 1] == rates + [all[j]];
  }

  lemma NothingDrawn(segments: seq<Segment>, node: nat, setup: Setup)
    requires Usable(setup) && Names(segments, node)
    ensures DrawnSoFar([], segments, node, setup, ToUint32(NodeSeed(setup, node)))
  {
    hide Sample, Proper, Means, Rates;
    assert Means(segments, node, setup.tick)[..0] == [];
  }

  method DrawRates(segments: seq<Segment>, node: nat, setup: Setup) returns (rates: seq<int>)
    requires Usable(setup) && Names(segments, node)
    ensures rates == Rates(segments, node, setup)
  {
    hide DrawnSoFar, Rates, TotalTicks, Ticks, SampledRate, Scramble, Mixed, ToUint32, StateAfter, Sample, Proper;
    var rand := new Stream(NodeSeed(setup, node));
    rates := [];
    NothingDrawn(segments, node, setup);
    NoTicks(setup.tick);
    assert segments[..0] == [];
    for s := 0 to |segments|
      invariant |rates| == TotalTicks(segments[..s], setup.tick)
      invariant DrawnSoFar(rates, segments, node, setup, rand.a)
    {
      TicksNext(segments, s, setup.tick);
      ghost var before := |rates|;
      for t := 0 to Ticks(segments[s].seconds, setup.tick)
        invariant |rates| == before + t
        invariant DrawnSoFar(rates, segments, node, setup, rand.a)
      {
        DrawnNext(rates, segments, node, setup, rand.a, s);
        var sample := SamplePoisson(setup.sampler, rand, TickMean(segments[s], node, setup.tick));
        rates := rates + [SampledRate(sample, setup.tick)];
      }
    }
    assert segments[..|segments|] == segments;
    AllDrawn(rates, segments, node, setup, rand.a);
  }

  lemma NoTicks(tick: real)
    requires tick > 0.0
    ensures TotalTicks([], tick) == 0
  {
  }

  lemma AllDrawn(rates: seq<int>, segments: seq<Segment>, node: nat, setup: Setup, state: nat)
    requires Usable(setup) && Names(segments, node) && DrawnSoFar(rates, segments, node, setup, state)
    requires |rates| == TotalTicks(segments, setup.tick)
    ensures rates == Rates(segments, node, setup)
  {
    hide Rates, TotalTicks, StateAfter, Calls;
  }

  /** A jump and a hold for every further rate. */
  function Holds(rates: seq<int>, i: nat, tick: real): seq<Stage>
    requires i <= |rates|
    decreases |rates| - i
  {
    if i == |rates| then [] else [Stage(rates[i], 0.0), Stage(rates[i], tick)] + Holds(rates, i + 1, tick)
  }

  function StagesFor(rates: seq<int>, tick: real): seq<Stage>
    requires rates != []
  {
    [Stage(rates[0], tick)] + Holds(rates, 1, tick)
  }

  method BuildStages(rates: seq<int>, tick: real) returns (stages: seq<Stage>)
    requires rates != []
    ensures stages == StagesFor(rates, tick)
  {
    stages := [Stage(rates[0], tick)];
    for t := 1 to |rates|
      invariant stages + Holds(rates, t, tick) == StagesFor(rates, tick)
    {
      assert stages + Holds(rates, t, tick)
          == stages + [Stage(rates[t], 0.0)] + [Stage(rates[t], tick)] + Holds(rates, t + 1, tick);
      stages := stages + [Stage(rates[t], 0.0)];
      stages := stages + [Stage(rates[t], tick)];
    }
  }

  ghost predicate IsPeakRate(rates: seq<int>, peak: int) {
    && peak >= 0
    && (forall j | 0 <= j < |rates| :: rates[j] <= peak)
    && (peak == 0 || peak in rates)
  }

  method PeakRate(rates: seq<int>) returns (maxRate: int)
    ensures IsPeakRate(rates, maxRate)
  {
    maxRate := 0;
    for t := 0 to |rates|
      invariant IsPeakRate(rates[..t], maxRate)
    {
      if rates[t] > maxRate {
        maxRate := rates[t];
      }
      assert rates[..t + 1] == rates[..t] + [rates[t]];
    }
    assert rates[..|rates|] == rates;
  }

  ghost predicate AllZero(segments: seq<Segment>) {
    forall s, i | 0 <= s < |segments| && 0 <= i < |segments[s].lambdas| :: segments[s].lambdas[i] <= 0.0
  }

  /** The scenario compiled from one node's rates. */
  ghost predicate Compiled(scenario: Scenario, segments: seq<Segment>, node: nat, setup: Setup)
    requires Usable(setup) && Names(segments, node)
  {
    FromRates(scenario, Rates(segments, node, setup), setup.tick, setup.vuFactor)
  }

  /** The size of the pool of virtual users. */
  function Pool(maxRate: int, vuFactor: real): int {
    Max(1, Ceil(maxRate as real * vuFactor))
  }

  ghost predicate FromRates(scenario: Scenario, rates: seq<int>, tick: real, vuFactor: real) {
    && rates != [] && scenario.startRate == rates[0] && scenario.stages == StagesFor(rates, tick)
    && exists peak :: IsPeakRate(rates, peak) && scenario.vus == Pool(peak, vuFactor)
  }

  lemma CompiledStages(scenario: Scenario, segments: seq<Segment>, node: nat, setup: Setup)
    requires Usable(setup) && Names(segments, node) && Compiled(scenario, segments, node, setup)
    ensures var rates := Rates(segments, node, setup);
      rates != [] && scenario.startRate == rates[0] && scenario.stages == StagesFor(rates, setup.tick)
  {
    hide Rates, StagesFor, IsPeakRate, Usable, Names;
  }

  method Busiest(segments: seq<Segment>) returns (busiest: real)
    ensures busiest <= 0.0 <==> AllZero(segments)
  {
    busiest := 0.0;
    for s := 0 to |segments|
      invariant busiest >= 0.0
      invariant busiest <= 0.0 <==> AllZero(segments[..s])
    {
      var lambdas := segments[s].lambdas;
      ghost var before := busiest;
      for i := 0 to |lambdas|
        invariant busiest >= 0.0
        invariant busiest <= 0.0 <==> before <= 0.0 && forall j | 0 <= j < i :: lambdas[j] <= 0.0
      {
        if lambdas[i] > busiest {
          busiest := lambdas[i];
        }
      }
      assert segments[..s + 1] == segments[..s] + [segments[s]];
      assert AllZero(segments[..s + 1]) ==> AllZero(segments[..s]) by {
        assert forall k | 0 <= k < s :: segments[..s + 1][k] == segments[..s][k];
      }
      assert segments[..s + 1][s].lambdas == lambdas;
    }
    assert segments[..|segments|] == segments;
  }

  /** `None` is a thrown error: no load at all, or a VU factor that is not positive. */
  method BuildScenarios(segments: seq<Segment>, nodes: nat, setup: Setup) returns (scenarios: Option<seq<Scenario>>)
    requires Usable(setup) && segments != [] && Uniform(segments, nodes)
    ensures scenarios == None <==> AllZero(segments) || setup.vuFactor <= 0.0
    ensures scenarios.Some? ==> |scenarios.value| == nodes
    ensures scenarios.Some? ==>
      forall i | 0 <= i < nodes :: Names(segments, i) && Compiled(scenarios.value[i], segments, i, setup)
  {
    hide Rates, TotalTicks, StagesFor, Proper;
    var busiest := Busiest(segments);
    if busiest <= 0.0 {
      return None;
    }
    if !(setup.vuFactor > 0.0) {
      return None;
    }
    var built: seq<Scenario> := [];
    for i := 0 to nodes
      invariant |built| == i
      invariant forall k | 0 <= k < i :: Names(segments, k) && Compiled(built[k], segments, k, setup)
    {
      var rates := DrawRates(segments, i, setup);
      assert rates != [];
      var stages := BuildStages(rates, setup.tick);
      var maxRate := PeakRate(rates);
      var vus := Pool(maxRate, setup.vuFactor);
      var scenario := Scenario(rates[0], stages, vus);
      assert FromRates(scenario, rates, setup.tick, setup.vuFactor);
      built := built + [scenario];
    }
    return Some(built);
  }

  // ----- what the stages mean

  /** The arrival rate `t` seconds into a list of stages that starts at rate `from`: every stage moves
      linearly from the previous target to its own. */
  function RateAt(from: int, stages: seq<Stage>, t: real): real
    decreases |stages|
  {
    if stages == [] then from as real
    else if t < stages[0].seconds then Ramp(from as real, stages[0].target as real, t, stages[0].seconds)
    else RateAt(stages[0].target, stages[1..], t - stages[0].seconds)
  }

  function Ramp(a: real, b: real, t: real, seconds: real): real {
    if seconds == 0.0 then b else a + (b - a) * (t / seconds)
  }

  lemma FlatRamp(a: real, t: real, seconds: real)
    ensures Ramp(a, a, t, seconds) == a
  {
    if seconds != 0.0 {
      assert (a - a) * (t / seconds) == 0.0;
    }
  }

  /** From the hold of rate `i` onwards the stages produce the rates one tick each. */
  lemma {:induction false} HoldsMeanRates(rates: seq<int>, i: nat, tick: real, t: real, j: nat)
    requires i <= j < |rates| && tick > 0.0
    requires (j - i) as real * tick <= t < (j - i + 1) as real * tick
    ensures RateAt(rates[i], [Stage(rates[i], tick)] + Holds(rates, i + 1, tick), t) == rates[j] as real
    decreases j - i
  {
    var stages := [Stage(rates[i], tick)] + Holds(rates, i + 1, tick);
    assert stages[1..] == Holds(rates, i + 1, tick);
    if i == j {
      FlatRamp(rates[i] as real, t, tick);
    } else {
      var rest := t - tick;
      assert (j - i) as real * tick == (j - i - 1) as real * tick + tick;
      assert (j - i + 1) as real * tick == (j - i) as real * tick + tick;
      assert (j - i - 1) as real * tick >= 0.0;
      var hold := [Stage(rates[i + 1], tick)] + Holds(rates, i + 2, tick);
      assert Holds(rates, i + 1, tick)[0] == Stage(rates[i + 1], 0.0) && Holds(rates, i + 1, tick)[1..] == hold;
      HoldsMeanRates(rates, i + 1, tick, rest, j);
      assert RateAt(rates[i], Holds(rates, i + 1, tick), rest) == RateAt(rates[i + 1], hold, rest - 0.0);
    }
  }

  /** The stages denote the step function that has rate `j` from `j * tick` to `(j + 1) * tick`. */
  lemma StagesMeanRates(rates: seq<int>, tick: real, t: real, j: nat)
    requires j < |rates| && tick > 0.0 && j as real * tick <= t < (j + 1) as real * tick
    ensures RateAt(rates[0], StagesFor(rates, tick), t) == rates[j] as real
  {
    HoldsMeanRates(rates, 0, tick, t, j);
  }

  /** The pool is large enough for the rate of every moment of the run. */
  lemma VusCoverRun(scenario: Scenario, rates: seq<int>, tick: real, vuFactor: real, t: real, j: nat)
    requires FromRates(scenario, rates, tick, vuFactor) && vuFactor > 0.0
    requires j < |rates| && tick > 0.0 && j as real * tick <= t < (j + 1) as real * tick
    ensures RateAt(scenario.startRate, scenario.stages, t) * vuFactor <= scenario.vus as real
  {
    StagesMeanRates(rates, tick, t, j);
    var peak :| IsPeakRate(rates, peak) && scenario.vus == Pool(peak, vuFactor);
    hide RateAt, StagesFor, FromRates;
    assert (peak - rates[j]) as real * vuFactor >= 0.0;
    assert peak as real * vuFactor - rates[j] as real * vuFactor == (peak - rates[j]) as real * vuFactor;
  }

  /** And it is the smallest such pool: at least one user, and one fewer would not do for some tick. */
  lemma PoolIsLeast(scenario: Scenario, rates: seq<int>, tick: real, vuFactor: real)
    requires FromRates(scenario, rates, tick, vuFactor) && vuFactor > 0.0
    ensures scenario.vus >= 1
    ensures scenario.vus > 1 ==>
      exists j | 0 <= j < |rates| :: Outgrows(rates[j], vuFactor, scenario.vus - 1)
  {
    hide StagesFor;
    var peak :| IsPeakRate(rates, peak) && scenario.vus == Pool(peak, vuFactor);
    hide FromRates;
    if scenario.vus > 1 {
      var x := peak as real * vuFactor;
      assert scenario.vus == Ceil(x) && x > (scenario.vus - 1) as real;
      assert peak == 0 ==> x == 0.0;
      var j :| 0 <= j < |rates| && rates[j] == peak;
      assert Outgrows(rates[j], vuFactor, scenario.vus - 1);
    }
  }

  predicate Outgrows(rate: int, vuFactor: real, vus: int) {
    rate as real * vuFactor > vus as real
  }
}
