/** One run of proberv2 in two versions: whether a service is routed depends on nothing but whether a
    node answered in less than a millisecond. */
module Proberv2Freeze {
  import opened Collections
  import opened Float64
  import opened SlotAllocator
  import opened UpdateNftables
  import opened Scores
  import opened RoutingTheorems
  import opened InstallTheorems
  import opened ActorModel
  import opened EndpointsWatch
  import opened Probes
  import opened Proberv2System
  import opened Proberv2Runs

  const ALICE := WorkerNode("a", Ipv4(8))
  const BOB := WorkerNode("b", Ipv4(9))

  /** Two nodes join, a service on both is announced and probed: a answers after `ms` whole milliseconds,
      b after five, and both are half busy. */
  function Measuring(ms: nat): seq<Action> {
    [Join(ALICE), Join(BOB), Two(), LatencyReceive(2), LatencyMeasure("a", ms), LatencyMeasure("b", 5),
     CpuReceive(0), CpuReceive(1), CpuMeasure(ALICE, Fin(0.5)), CpuMeasure(BOB, Fin(0.5))]
  }

  /** The actor misses nothing. */
  function Receipts(): seq<Action> {
    seq(7, k requires 0 <= k => ActorReceive(k))
  }

  function Log(ms: nat): seq<Event> {
    [NodeJoined(ALICE), NodeJoined(BOB), ServiceChanged(Web()),
     EwmaCalculated("a", Latency(Fin(ms as real))), EwmaCalculated("b", Latency(Fin(5.0))),
     EwmaCalculated("a", Cpu(Fin(0.5))), EwmaCalculated("b", Cpu(Fin(0.5)))]
  }

  /** The actor has not moved yet. */
  predicate Untouched(s: System) {
    s.actorNext == 0 && s.actor == INITIAL && s.delivered == []
  }

  lemma Probed(p: Params, ms: nat)
    ensures var s := Next(p, Next(p, Next(p, Next(p, START, Join(ALICE)), Join(BOB)), Two()), LatencyReceive(2));
      && s.log == Log(ms)[..3] && "a" in s.endpoints && "b" in s.endpoints && Untouched(s)
      && s.latency == map[] && s.cpu == map[] && s.nodes == {} && s.cpuNext == 0
  {
    var s2 := Next(p, Next(p, START, Join(ALICE)), Join(BOB));
    TwoStep(p, s2);
    hide Changed, Groups, LatencyMeasured, CpuMeasured, ActorReceived;
    var s3 := Next(p, s2, Two());
    assert s3.log == [NodeJoined(ALICE), NodeJoined(BOB), ServiceChanged(Web())] == Log(ms)[..3];
  }

  lemma Timed(p: Params, s: System, ms: nat)
    requires s.log == Log(ms)[..3] && "a" in s.endpoints && "b" in s.endpoints && s.latency == map[]
    ensures var t := Next(p, Next(p, s, LatencyMeasure("a", ms)), LatencyMeasure("b", 5));
      t == s.(latency := t.latency, history := t.history, log := Log(ms)[..5], covers := t.covers)
  {
    hide ActorReceived, CpuMeasured, Changed, HistoryOf;
    var t := Next(p, s, LatencyMeasure("a", ms));
    assert t.log == Log(ms)[..3] + [EwmaCalculated("a", Latency(Fin(ms as real)))];
    assert "b" !in t.latency;
    var u := Next(p, t, LatencyMeasure("b", 5));
    assert u.log == t.log + [EwmaCalculated("b", Latency(Fin(5.0)))];
    assert Log(ms)[..5] == Log(ms)[..3] + [Log(ms)[3]] + [Log(ms)[4]];
  }

  lemma Heard(p: Params, s: System, ms: nat)
    requires s.log == Log(ms)[..5] && s.nodes == {} && s.cpuNext == 0
    ensures var t := Next(p, Next(p, s, CpuReceive(0)), CpuReceive(1));
      && ALICE in t.nodes && BOB in t.nodes
      && t == s.(cpuNext := 2, nodes := t.nodes)
  {
    hide ActorReceived, LatencyMeasured, CpuMeasured, Changed;
    assert s.log[0] == NodeJoined(ALICE) && s.log[1] == NodeJoined(BOB);
    OneJoined(s.nodes, ALICE);
    OneJoined(s.nodes + {ALICE}, BOB);
    hide JoinedNodes;
  }

  lemma OneJoined(nodes: set<WorkerNode>, worker: WorkerNode)
    ensures JoinedNodes(nodes, [NodeJoined(worker)]) == nodes + {worker}
  {
    assert [NodeJoined(worker)][0].worker == worker;
  }

  lemma Loaded(p: Params, s: System, ms: nat)
    requires s.log == Log(ms)[..5] && s.cpu == map[] && ALICE in s.nodes && BOB in s.nodes && Untouched(s)
    ensures var t := Next(p, Next(p, s, CpuMeasure(ALICE, Fin(0.5))), CpuMeasure(BOB, Fin(0.5)));
      t.log == Log(ms) && Untouched(t)
  {
    hide ActorReceived, LatencyMeasured, Changed;
    var t := Next(p, s, CpuMeasure(ALICE, Fin(0.5)));
    assert t.log == Log(ms)[..5] + [EwmaCalculated("a", Cpu(Fin(0.5)))];
    assert "b" !in t.cpu;
    var u := Next(p, t, CpuMeasure(BOB, Fin(0.5)));
    assert u.log == t.log + [EwmaCalculated("b", Cpu(Fin(0.5)))];
    assert Log(ms) == Log(ms)[..5] + [Log(ms)[5]] + [Log(ms)[6]];
  }

  lemma TheActions(ms: nat, acts: seq<Action>)
    requires Measuring(ms) <= acts
    ensures |acts| >= 10
    ensures acts[0] == Join(ALICE) && acts[1] == Join(BOB) && acts[2] == Two() && acts[3] == LatencyReceive(2)
    ensures acts[4] == LatencyMeasure("a", ms) && acts[5] == LatencyMeasure("b", 5)
    ensures acts[6] == CpuReceive(0) && acts[7] == CpuReceive(1)
    ensures acts[8] == CpuMeasure(ALICE, Fin(0.5)) && acts[9] == CpuMeasure(BOB, Fin(0.5))
  {
    hide Two;
    assert forall k | 0 <= k < 10 :: acts[k] == Measuring(ms)[k];
  }

  lemma ServiceLogged(p: Params, ms: nat, acts: seq<Action>)
    requires Measuring(ms) <= acts
    ensures var s := Exec(p, acts[..4]);
      && s.log == Log(ms)[..3] && "a" in s.endpoints && "b" in s.endpoints && Untouched(s)
      && s.latency == map[] && s.cpu == map[] && s.nodes == {} && s.cpuNext == 0
  {
    hide Next, Log, Exec, Two, Untouched, Measuring;
    TheActions(ms, acts);
    StartOf(p, acts);
    ExecPrefix(p, acts, 0);
    ExecPrefix(p, acts, 1);
    ExecPrefix(p, acts, 2);
    ExecPrefix(p, acts, 3);
    Probed(p, ms);
  }

  lemma ReportsLogged(p: Params, ms: nat, acts: seq<Action>)
    requires Measuring(ms) <= acts
    ensures var s := Exec(p, acts[..6]);
      && s.log == Log(ms)[..5] && Untouched(s) && s.cpu == map[] && s.nodes == {} && s.cpuNext == 0
  {
    hide Next, Log, Exec, Two, Measuring;
    TheActions(ms, acts);
    ServiceLogged(p, ms, acts);
    ExecPrefix(p, acts, 4);
    ExecPrefix(p, acts, 5);
    Timed(p, Exec(p, acts[..4]), ms);
  }

  lemma Logged(p: Params, ms: nat, acts: seq<Action>)
    requires Measuring(ms) <= acts
    ensures var s := Exec(p, acts[..10]); s.log == Log(ms) && Untouched(s)
  {
    hide Next, Log, Exec, Two, Measuring;
    TheActions(ms, acts);
    ReportsLogged(p, ms, acts);
    ExecPrefix(p, acts, 6);
    ExecPrefix(p, acts, 7);
    Heard(p, Exec(p, acts[..6]), ms);
    ExecPrefix(p, acts, 8);
    ExecPrefix(p, acts, 9);
    Loaded(p, Exec(p, acts[..8]), ms);
  }

  /** Receiving the next event in line. */
  lemma Receive(p: Params, s: System, ms: nat, k: nat)
    requires s.log == Log(ms) && s.actorNext == k < 7 && s.delivered == Log(ms)[..k]
    ensures var t := Next(p, s, ActorReceive(k));
      && t.log == Log(ms) && t.actorNext == k + 1 && t.delivered == Log(ms)[..k + 1]
      && t.actor == Step(s.actor, Log(ms)[k])
  {
    hide CpuMeasured, LatencyMeasured, Changed, Step;
    assert Log(ms)[..k + 1] == Log(ms)[..k] + [Log(ms)[k]];
  }

  /** The actor's state after the first `k` events of the run. */
  function Steps(ms: nat, k: nat): State
    requires k <= 7
  {
    if k == 0 then INITIAL else Step(Steps(ms, k - 1), Log(ms)[k - 1])
  }

  function Held(ms: nat): State {
    State(map["a" := Some(ScorePair(Fin(ms as real), Fin(0.5))), "b" := Some(ScorePair(Fin(5.0), Fin(0.5)))],
          map[30000 := Web()])
  }

  lemma FirstSteps(ms: nat)
    ensures Steps(ms, 3) == State(map["a" := None, "b" := None], map[30000 := Web()])
  {
    assert Steps(ms, 0) == INITIAL;
    assert Steps(ms, 1) == State(map["a" := None], map[]);
    assert Steps(ms, 2) == State(map["a" := None, "b" := None], map[]);
  }

  lemma LastSteps(ms: nat)
    ensures Steps(ms, 7) == Held(ms)
  {
    FirstSteps(ms);
    var a, b := Fin(ms as real), Fin(5.0);
    assert Steps(ms, 4).datapoints == map["a" := Some(ScorePair(a, Fin(0.0))), "b" := None];
    assert Steps(ms, 5).datapoints == map["a" := Some(ScorePair(a, Fin(0.0))), "b" := Some(ScorePair(b, Fin(0.0)))];
    assert Steps(ms, 6).datapoints == map["a" := Some(ScorePair(a, Fin(0.5))), "b" := Some(ScorePair(b, Fin(0.0)))];
  }

  lemma RunEnds(p: Params, ms: nat)
    ensures var s := Exec(p, Measuring(ms) + Receipts());
      s.delivered == s.log == Log(ms) && s.actor == Held(ms)
  {
    var acts := Measuring(ms) + Receipts();
    assert forall k | 0 <= k < 7 :: acts[10 + k] == ActorReceive(k);
    assert Measuring(ms) <= acts;
    assert Log(ms)[..0] == [] && Log(ms)[..7] == Log(ms) && acts[..17] == acts;
    hide Next, Step, Exec, Measuring, Receipts, Log;
    Logged(p, ms, acts);
    for k := 0 to 7
      invariant var s := Exec(p, acts[..10 + k]);
        && s.log == Log(ms) && s.actorNext == k && s.delivered == Log(ms)[..k]
        && s.actor == Steps(ms, k)
    {
      ExecPrefix(p, acts, 10 + k);
      Receive(p, Exec(p, acts[..10 + k]), ms, k);
    }
    LastSteps(ms);
  }

  /** Both nodes pass the filter, in any order. */
  lemma TwoSurvivors(ms: nat, order: seq<string>)
    requires Enumerates(order, Web().endpointsByNodename.Keys)
    ensures |order| == 2 && |Survivors(Web(), Held(ms).datapoints, order)| == 2
    ensures TotalEndpoints(Survivors(Web(), Held(ms).datapoints, order)) == 2
  {
    assert Web().endpointsByNodename.Keys == {"a", "b"};
    EnumerationLength(order, {"a", "b"});
    assert order == [order[0], order[1]] && order[0] in order && order[1] in order;
    PairSurvives(ms, order[0], order[1]);
  }

  lemma PairSurvives(ms: nat, x: string, y: string)
    requires x in {"a", "b"} && y in {"a", "b"}
    ensures var cands := Survivors(Web(), Held(ms).datapoints, [x, y]); |cands| == 2 && TotalEndpoints(cands) == 2
  {
    OneSurvives(ms, x);
    OneSurvives(ms, y);
    hide Retained, Web, Held;
    var dps := Held(ms).datapoints;
    assert [x, y][..1] == [x] && [x][..0] == [];
    assert Survivors(Web(), dps, [x]) == Retained(Web(), dps, x);
    var c, d := Retained(Web(), dps, x)[0], Retained(Web(), dps, y)[0];
    assert Survivors(Web(), dps, [x, y]) == [c, d];
    hide Survivors;
    assert [c, d][..1] == [c] && [c][..0] == [];
    assert TotalEndpoints([c]) == 1;
  }

  lemma OneSurvives(ms: nat, x: string)
    requires x in {"a", "b"}
    ensures |Retained(Web(), Held(ms).datapoints, x)| == 1
    ensures |Retained(Web(), Held(ms).datapoints, x)[0].endpoints| == 1
  {
  }

  /** Everything is delivered, both nodes survive the filter, and the cap has room: a call installs a rule in
      any visiting order when a answered after at least one whole millisecond, and in none when it answered
      faster. */
  lemma QuickAnswerFreezes(p: Params, ms: nat, order: seq<string>)
    requires PowfNonNegative(p.cfg) && PowfPositive(p.cfg) && PowfAtInfinity(p.cfg) && p.cfg.scoreExponent > 0.0
    requires 2 <= p.cfg.probabilityCap < U32_MAX && Enumerates(order, Web().endpointsByNodename.Keys)
    ensures var s := Exec(p, Measuring(ms) + Receipts());
      && s.delivered == s.log && !NoSample(s.delivered, "a", true) && Known(s.actor, Web())
      && (ms == 0 ==> OutcomeFor(p.cfg, Web(), s.actor.datapoints, order) == NoVerdictPairs)
      && (ms > 0 ==> OutcomeFor(p.cfg, Web(), s.actor.datapoints, order).Install?)
  {
    RunEnds(p, ms);
    ReportArrives(ms);
    assert Held(ms).services[30000] == Web();
    hide Exec, OutcomeFor, PowfNonNegative, PowfPositive, PowfAtInfinity;
    HeldRoutes(p.cfg, ms, order);
  }

  lemma HeldRoutes(cfg: Config, ms: nat, order: seq<string>)
    requires PowfNonNegative(cfg) && PowfPositive(cfg) && PowfAtInfinity(cfg) && cfg.scoreExponent > 0.0
    requires 2 <= cfg.probabilityCap < U32_MAX && Enumerates(order, Web().endpointsByNodename.Keys)
    ensures var out := OutcomeFor(cfg, Web(), Held(ms).datapoints, order);
      if ms == 0 then out == NoVerdictPairs else out.Install?
  {
    var dps := Held(ms).datapoints;
    TwoSurvivors(ms, order);
    HeldIsMeasured(ms);
    hide PowfNonNegative, PowfPositive, PowfAtInfinity, Survivors, TotalEndpoints, Plan, Panics, Held, Web, Survives;
    NeverPanics(cfg, Web(), dps, order);
    CallInstallsIff(cfg, Web(), dps, order);
  }

  lemma HeldIsMeasured(ms: nat)
    ensures LatenciesMeasured(Held(ms).datapoints) && BucketsFilled(Web())
    ensures var dps := Held(ms).datapoints;
      ms > 0 <==> forall n | n in Web().endpointsByNodename && Survives(dps, n) :: dps[n].value.latency.v > 0.0
  {
    assert "a" in Web().endpointsByNodename && Survives(Held(ms).datapoints, "a");
  }

  lemma ReportArrives(ms: nat)
    ensures !NoSample(Log(ms), "a", true)
  {
    assert Log(ms)[0].NodeJoined? && Log(ms)[0].worker.name == "a";
    assert Joined(Log(ms), "a", 3);
    assert Sample(Log(ms), "a", true, 3);
  }
}
