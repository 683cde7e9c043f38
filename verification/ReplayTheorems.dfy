/** What the seeded generator means for a whole run: the same options replay the same trace, later steps
    do not disturb earlier ones, and no number is used twice. */
module ReplayTheorems {
  import opened Mulberry32
  import opened Poisson
  import opened Stages

  // ----- no load

  /** The run is refused exactly when no segment lists a positive rate. */
  lemma LoadedIff(segments: seq<Segment>)
    ensures !AllZero(segments) <==> exists s | 0 <= s < |segments| :: Loaded(segments[s])
  {
    if s, i :| 0 <= s < |segments| && 0 <= i < |segments[s].lambdas| && segments[s].lambdas[i] > 0.0 {
      assert Loaded(segments[s]);
    }
  }

  predicate Loaded(segment: Segment) {
    exists i | 0 <= i < |segment.lambdas| :: segment.lambdas[i] > 0.0
  }

  // ----- replay

  /** The same seed, segments and tick give the same scenario. */
  lemma SameTrace(a: Scenario, b: Scenario, segments: seq<Segment>, node: nat, setup: Setup)
    requires Usable(setup) && Names(segments, node)
    requires Compiled(a, segments, node, setup) && Compiled(b, segments, node, setup)
    ensures a == b
  {
    hide Rates, StagesFor, Usable, Names, Pool, IsPeakRate;
    var rates := Rates(segments, node, setup);
    SameScenario(a, b, rates, setup.tick, setup.vuFactor);
  }

  lemma SameScenario(a: Scenario, b: Scenario, rates: seq<int>, tick: real, vuFactor: real)
    requires FromRates(a, rates, tick, vuFactor) && FromRates(b, rates, tick, vuFactor)
    ensures a == b
  {
    hide Pool;
    var p :| IsPeakRate(rates, p) && a.vus == Pool(p, vuFactor);
    var q :| IsPeakRate(rates, q) && b.vus == Pool(q, vuFactor);
    hide IsPeakRate;
    OnePeak(rates, p, q);
  }

  lemma OnePeak(rates: seq<int>, p: int, q: int)
    requires IsPeakRate(rates, p) && IsPeakRate(rates, q)
    ensures p == q
  {
  }

  lemma {:induction false} MeansPrefix(segments: seq<Segment>, later: seq<Segment>, node: nat, tick: real)
    requires tick > 0.0 && Names(segments + later, node) && Names(segments, node)
    ensures Means(segments, node, tick) <= Means(segments + later, node, tick)
    decreases |later|
  {
    if later == [] {
      assert segments + later == segments;
    } else {
      var n := |later| - 1;
      assert (segments + later)[..|segments| + n] == segments + later[..n];
      hide Ticks, TickMean;
      MeansPrefix(segments, later[..n], node, tick);
    }
  }

  /** Segments added at the end leave the rates of the earlier ones as they are. */
  lemma EarlierRatesStay(segments: seq<Segment>, later: seq<Segment>, node: nat, setup: Setup)
    requires Usable(setup) && Names(segments + later, node) && Names(segments, node)
    ensures Rates(segments, node, setup) <= Rates(segments + later, node, setup)
  {
    hide Sample, Proper, Calls, StateAfter, SampledRate;
    MeansPrefix(segments, later, node, setup.tick);
    var few, all := Means(segments, node, setup.tick), Means(segments + later, node, setup.tick);
    var seed := NodeSeed(setup, node);
    hide Means, TotalTicks;
    forall j | 0 <= j < |few|
      ensures DrawAt(setup.sampler, seed, few, j) == DrawAt(setup.sampler, seed, all, j)
    {
      assert few[..j] == all[..j];
    }
    var xs, ys := Rates(segments, node, setup), Rates(segments + later, node, setup);
    assert forall j | 0 <= j < |xs| :: xs[j] == ys[j];
    assert ys[..|xs|] == xs;
  }

  /** As long as the shorter run lasts, both runs drive the node at the same rate. */
  lemma EarlierStepsReplay(short: Scenario, long: Scenario, segments: seq<Segment>, later: seq<Segment>, node: nat,
                           setup: Setup, t: real, j: nat)
    requires Usable(setup) && Names(segments + later, node) && Names(segments, node)
    requires Compiled(short, segments, node, setup) && Compiled(long, segments + later, node, setup)
    requires j < TotalTicks(segments, setup.tick)
    requires j as real * setup.tick <= t < (j + 1) as real * setup.tick
    ensures RateAt(short.startRate, short.stages, t) == RateAt(long.startRate, long.stages, t)
  {
    hide Rates, RateAt, StagesFor, Names, TotalTicks;
    EarlierRatesStay(segments, later, node, setup);
    StagesMeanRates(Rates(segments, node, setup), setup.tick, t, j);
    StagesMeanRates(Rates(segments + later, node, setup), setup.tick, t, j);
  }

  // ----- fresh numbers

  lemma {:induction false} CallsGrow(sampler: Sampler, seed: int, means: seq<real>, j: nat, k: nat)
    requires Proper(sampler) && j <= k <= |means|
    ensures Calls(sampler, seed, means[..j]) <= Calls(sampler, seed, means[..k])
    decreases k
  {
    hide Sample, Proper, StateAfter, Calls;
    if j < k {
      CallsNext(sampler, seed, means, k - 1);
      CallsGrow(sampler, seed, means, j, k - 1);
    }
  }

  /** The `m`-th number of a node's stream is one that tick `j` takes. */
  ghost predicate Takes(sampler: Sampler, seed: int, means: seq<real>, j: nat, m: nat)
    requires Proper(sampler) && j < |means|
  {
    Calls(sampler, seed, means[..j]) < m <= Calls(sampler, seed, means[..j + 1])
  }

  /** A level that is revisited is drawn anew: no two ticks of a node use the same state of its generator,
      unless the run takes more numbers than the generator has states. */
  lemma RevisitsDrawAnew(sampler: Sampler, seed: int, means: seq<real>, j: nat, k: nat, m: nat, n: nat)
    requires Proper(sampler) && j < k < |means| && Calls(sampler, seed, means) <= MODULUS
    requires Takes(sampler, seed, means, j, m) && Takes(sampler, seed, means, k, n)
    ensures StateAfter(seed, m) != StateAfter(seed, n)
  {
    hide Proper, StateAfter, Calls;
    assert means[..|means|] == means;
    CallsGrow(sampler, seed, means, j + 1, k);
    CallsGrow(sampler, seed, means, k + 1, |means|);
    FullPeriod(seed, n, m);
    assert 0 < n - m < MODULUS;
  }

  /** Up to four nodes never use the same state either, while each takes fewer than 982 762 009 numbers. */
  lemma NodesDrawApart(setup: Setup, a: nat, means: seq<real>, b: nat, others: seq<real>, j: nat, k: nat, m: nat,
                       n: nat)
    requires Usable(setup) && a < b < 4 && j < |means| && k < |others|
    requires Calls(setup.sampler, NodeSeed(setup, a), means) < 982_762_009
    requires Calls(setup.sampler, NodeSeed(setup, b), others) < 982_762_009
    requires Takes(setup.sampler, NodeSeed(setup, a), means, j, m)
    requires Takes(setup.sampler, NodeSeed(setup, b), others, k, n)
    ensures StateAfter(NodeSeed(setup, a), m) != StateAfter(NodeSeed(setup, b), n)
  {
    hide Proper, StateAfter, Calls;
    assert means[..|means|] == means && others[..|others|] == others;
    CallsGrow(setup.sampler, NodeSeed(setup, a), means, j + 1, |means|);
    CallsGrow(setup.sampler, NodeSeed(setup, b), others, k + 1, |others|);
    FourNodesApart(setup.seed, a, b, m, n);
  }
}
