/** The probes' loops inside the system: whatever the other tasks do in between, the steps of a probe
    amount to its `Drain` and its `Round`. */
module Proberv2Rounds {
  import opened Collections
  import opened Float64
  import opened SlotAllocator
  import opened ActorModel
  import opened EndpointsWatch
  import opened Probes
  import opened Proberv2System

  lemma ExecAppend(p: Params, acts: seq<Action>, during: seq<Action>)
    requires during != []
    ensures Exec(p, acts + during) == Next(p, Exec(p, acts + during[..|during| - 1]), during[|during| - 1])
  {
    assert (acts + during)[..|acts + during| - 1] == acts + during[..|during| - 1];
  }

  // ----- a round of requests

  /** The answered requests of a round. */
  function Answers(results: seq<(string, Option<nat>)>): seq<(string, Option<nat>)> {
    if results == [] then []
    else
      var last := results[|results| - 1];
      Answers(results[..|results| - 1]) + (if last.1.Some? then [last] else [])
  }

  /** Requests without an answer leave no trace. */
  lemma {:induction false} OnlyAnswersCount(alpha: real, stored: map<string, real>, results: seq<(string, Option<nat>)>)
    ensures LatencyRound(alpha, stored, Answers(results)) == LatencyRound(alpha, stored, results)
    ensures LatencyReports(alpha, stored, Answers(results)) == LatencyReports(alpha, stored, results)
    decreases |results|
  {
    hide NextLatency;
    if results != [] {
      var init, last, answers := results[..|results| - 1], results[|results| - 1], Answers(results);
      assert answers == if last.1.Some? then Answers(init) + [last] else Answers(init);
      hide Answers;
      OnlyAnswersCount(alpha, stored, init);
      assert last.1.Some? ==> answers[..|answers| - 1] == Answers(init);
    }
  }

  /** The response times that the steps of the latency probe measure. */
  function Timed(during: seq<Action>): seq<(string, Option<nat>)> {
    if during == [] then []
    else
      var last := during[|during| - 1];
      Timed(during[..|during| - 1]) + (if last.LatencyMeasure? then [(last.node, Some(last.ms))] else [])
  }

  predicate IsLatency(e: Event) {
    e.EwmaCalculated? && e.datapoint.Latency?
  }

  /** The latency reports among some events. */
  function LatencyOnly(events: seq<Event>): seq<Event> {
    if events == [] then []
    else
      var last := events[|events| - 1];
      LatencyOnly(events[..|events| - 1]) + (if IsLatency(last) then [last] else [])
  }

  /** Every node that is measured is one that the probe knows. */
  predicate AllKnown(s: System, results: seq<(string, Option<nat>)>) {
    forall i | 0 <= i < |results| :: results[i].0 in s.endpoints
  }

  /** What the latency probe has done after `s`, on the way to `t`. */
  ghost predicate LatencyDone(p: Params, s: System, t: System, results: seq<(string, Option<nat>)>) {
    && t.endpoints == s.endpoints
    && t.latency == LatencyRound(p.ewmaLatency, s.latency, results)
    && LatencyOnly(t.log) == LatencyOnly(s.log) + LatencyReports(p.ewmaLatency, s.latency, results)
  }

  lemma LatencyOnlyNext(log: seq<Event>, e: Event)
    ensures LatencyOnly(log + [e]) == LatencyOnly(log) + if IsLatency(e) then [e] else []
  {
    assert (log + [e])[..|log|] == log;
  }

  predicate SameLatency(s: System, t: System) {
    t.endpoints == s.endpoints && t.latency == s.latency && LatencyOnly(t.log) == LatencyOnly(s.log)
  }

  lemma OtherReport(s: System, e: Event)
    requires !IsLatency(e)
    ensures SameLatency(s, Send(s, e, 0))
  {
    LatencyOnlyNext(s.log, e);
    hide LatencyOnly;
  }

  /** Any other step leaves the latency probe alone. */
  lemma OtherStep(p: Params, s: System, a: Action)
    requires !a.LatencyMeasure? && !a.LatencyReceive?
    ensures SameLatency(s, Next(p, s, a))
  {
    hide LatencyOnly, SameLatency, Send, CpuMeasured, LatencyMeasured, Groups, Announced;
    match a {
      case Join(worker) => OtherReport(s, NodeJoined(worker));
      case Change(_, _, _, _, _) => OtherChange(s, a);
      case CpuMeasure(worker, usage) => OtherProbe(p, s, worker, usage);
      case _ =>
    }
    SameLog(s, Next(p, s, a));
  }

  lemma SameLog(s: System, t: System)
    ensures t.log == s.log && t.endpoints == s.endpoints && t.latency == s.latency ==> SameLatency(s, t)
  {
  }

  lemma OtherChange(s: System, a: Action)
    requires a.Change?
    ensures SameLatency(s, Changed(s, a))
  {
    hide LatencyOnly, Groups, Announced;
    var t := s.(current := s.current[a.nodeport := Groups(a.addresses)]);
    var announcement := Announcement(a.name, a.nodeport, a.targetport, a.found, a.addresses);
    if announcement.Some? {
      OtherReport(t, ServiceChanged(announcement.value));
    }
  }

  lemma OtherProbe(p: Params, s: System, worker: WorkerNode, usage: F64)
    ensures SameLatency(s, CpuMeasured(p, s, worker, usage))
  {
    hide LatencyOnly, NextCpu;
    var v := NextCpu(p.ewmaCpu, s.cpu, worker.name, usage);
    OtherReport(s.(cpu := s.cpu[worker.name := v]), EwmaCalculated(worker.name, Cpu(v)));
  }

  lemma MeasuredStep(p: Params, s: System, t: System, results: seq<(string, Option<nat>)>, node: string, ms: nat)
    requires LatencyDone(p, s, t, results) && node in s.endpoints
    ensures LatencyDone(p, s, Next(p, t, LatencyMeasure(node, ms)), results + [(node, Some(ms))])
  {
    var more := results + [(node, Some(ms))];
    assert more[..|more| - 1] == results;
    var e := EwmaCalculated(node, Latency(Fin(NextLatency(p.ewmaLatency, t.latency, node, ms))));
    LatencyOnlyNext(t.log, e);
    assert LatencyReports(p.ewmaLatency, s.latency, more) == LatencyReports(p.ewmaLatency, s.latency, results) + [e];
    hide LatencyOnly, NextLatency, LatencyReports;
  }

  /** The latency probe's `Round`: while it waits for a round of answers it receives nothing, and however
      the other tasks interleave with its steps, they store and report what `Round` does. */
  lemma LatencyRoundInSystem(p: Params, acts: seq<Action>, during: seq<Action>,
                             results: seq<(string, Option<nat>)>)
    requires forall i | 0 <= i < |during| :: !during[i].LatencyReceive?
    requires Timed(during) == Answers(results) && AllKnown(Exec(p, acts), Answers(results))
    ensures LatencyDone(p, Exec(p, acts), Exec(p, acts + during), results)
  {
    LatencySteps(p, acts, during);
    OnlyAnswersCount(p.ewmaLatency, Exec(p, acts).latency, results);
    hide Exec, LatencyRound, LatencyReports, LatencyOnly;
  }

  lemma {:induction false} LatencySteps(p: Params, acts: seq<Action>, during: seq<Action>)
    requires forall i | 0 <= i < |during| :: !during[i].LatencyReceive?
    requires AllKnown(Exec(p, acts), Timed(during))
    ensures LatencyDone(p, Exec(p, acts), Exec(p, acts + during), Timed(during))
    decreases |during|
  {
    if during == [] {
      assert acts + during == acts;
    } else {
      var init, last := during[..|during| - 1], during[|during| - 1];
      ExecAppend(p, acts, during);
      KnownBefore(Exec(p, acts), during);
      hide Exec, Next, LatencyDone, Timed;
      LatencySteps(p, acts, init);
      LatencyStep(p, Exec(p, acts), Exec(p, acts + init), during);
    }
  }

  lemma KnownBefore(s: System, during: seq<Action>)
    requires during != [] && AllKnown(s, Timed(during))
    ensures AllKnown(s, Timed(during[..|during| - 1]))
  {
    var before := Timed(during[..|during| - 1]);
    assert before <= Timed(during);
    forall i | 0 <= i < |before| ensures before[i] == Timed(during)[i] {
    }
  }

  lemma LatencyStep(p: Params, s: System, t: System, during: seq<Action>)
    requires during != [] && !during[|during| - 1].LatencyReceive? && AllKnown(s, Timed(during))
    requires LatencyDone(p, s, t, Timed(during[..|during| - 1]))
    ensures LatencyDone(p, s, Next(p, t, during[|during| - 1]), Timed(during))
  {
    var init, last := during[..|during| - 1], during[|during| - 1];
    if last.LatencyMeasure? {
      assert Timed(during)[|Timed(init)|] == (last.node, Some(last.ms));
      hide LatencyDone, Next;
      MeasuredStep(p, s, t, Timed(init), last.node, last.ms);
    } else {
      assert Timed(during) == Timed(init);
      OtherStep(p, t, last);
      hide LatencyDone, SameLatency, Next, Timed;
      StillDone(p, s, t, Next(p, t, last), Timed(init));
    }
  }

  lemma StillDone(p: Params, s: System, t: System, u: System, results: seq<(string, Option<nat>)>)
    requires LatencyDone(p, s, t, results)
    requires SameLatency(t, u)
    ensures LatencyDone(p, s, u, results)
  {
    hide LatencyOnly, LatencyRound, LatencyReports;
  }

  // ----- a round of cpu queries

  function CpuAnswers(results: seq<(WorkerNode, Option<F64>)>): seq<(WorkerNode, Option<F64>)> {
    if results == [] then []
    else
      var last := results[|results| - 1];
      CpuAnswers(results[..|results| - 1]) + (if last.1.Some? then [last] else [])
  }

  lemma {:induction false} OnlyCpuAnswersCount(alpha: real, stored: map<string, F64>,
                                               results: seq<(WorkerNode, Option<F64>)>)
    ensures CpuRound(alpha, stored, CpuAnswers(results)) == CpuRound(alpha, stored, results)
    ensures CpuReports(alpha, stored, CpuAnswers(results)) == CpuReports(alpha, stored, results)
    decreases |results|
  {
    hide NextCpu;
    if results != [] {
      var init, last, answers := results[..|results| - 1], results[|results| - 1], CpuAnswers(results);
      assert answers == if last.1.Some? then CpuAnswers(init) + [last] else CpuAnswers(init);
      hide CpuAnswers;
      OnlyCpuAnswersCount(alpha, stored, init);
      assert last.1.Some? ==> answers[..|answers| - 1] == CpuAnswers(init);
    }
  }

  function Sampled(during: seq<Action>): seq<(WorkerNode, Option<F64>)> {
    if during == [] then []
    else
      var last := during[|during| - 1];
      Sampled(during[..|during| - 1]) + (if last.CpuMeasure? then [(last.worker, Some(last.usage))] else [])
  }

  predicate IsCpu(e: Event) {
    e.EwmaCalculated? && e.datapoint.Cpu?
  }

  function CpuOnly(events: seq<Event>): seq<Event> {
    if events == [] then []
    else
      var last := events[|events| - 1];
      CpuOnly(events[..|events| - 1]) + (if IsCpu(last) then [last] else [])
  }

  predicate AllJoined(s: System, results: seq<(WorkerNode, Option<F64>)>) {
    forall i | 0 <= i < |results| :: results[i].0 in s.nodes
  }

  ghost predicate CpuDone(p: Params, s: System, t: System, results: seq<(WorkerNode, Option<F64>)>) {
    && t.nodes == s.nodes
    && t.cpu == CpuRound(p.ewmaCpu, s.cpu, results)
    && CpuOnly(t.log) == CpuOnly(s.log) + CpuReports(p.ewmaCpu, s.cpu, results)
  }

  lemma CpuOnlyNext(log: seq<Event>, e: Event)
    ensures CpuOnly(log + [e]) == CpuOnly(log) + if IsCpu(e) then [e] else []
  {
    assert (log + [e])[..|log|] == log;
  }

  predicate SameCpu(s: System, t: System) {
    t.nodes == s.nodes && t.cpu == s.cpu && CpuOnly(t.log) == CpuOnly(s.log)
  }

  lemma OtherCpuReport(s: System, e: Event, covered: nat)
    requires !IsCpu(e)
    ensures SameCpu(s, Send(s, e, covered))
  {
    CpuOnlyNext(s.log, e);
    hide CpuOnly;
  }

  lemma OtherCpuStep(p: Params, s: System, a: Action)
    requires !a.CpuMeasure? && !a.CpuReceive?
    ensures SameCpu(s, Next(p, s, a))
  {
    hide CpuOnly, SameCpu, Send, CpuMeasured, LatencyMeasured, Groups, Announced, LastAnnounced;
    match a {
      case Join(worker) => OtherCpuReport(s, NodeJoined(worker), 0);
      case Change(_, _, _, _, _) => OtherCpuChange(s, a);
      case LatencyMeasure(node, ms) => OtherCpuProbe(p, s, node, ms);
      case _ =>
    }
    SameCpuLog(s, Next(p, s, a));
  }

  lemma SameCpuLog(s: System, t: System)
    ensures t.log == s.log && t.nodes == s.nodes && t.cpu == s.cpu ==> SameCpu(s, t)
  {
  }

  lemma OtherCpuChange(s: System, a: Action)
    requires a.Change?
    ensures SameCpu(s, Changed(s, a))
  {
    hide CpuOnly, Groups, Announced;
    var t := s.(current := s.current[a.nodeport := Groups(a.addresses)]);
    var announcement := Announcement(a.name, a.nodeport, a.targetport, a.found, a.addresses);
    if announcement.Some? {
      OtherCpuReport(t, ServiceChanged(announcement.value), 0);
    }
  }

  lemma OtherCpuProbe(p: Params, s: System, node: string, ms: nat)
    ensures SameCpu(s, LatencyMeasured(p, s, node, ms))
  {
    hide CpuOnly, NextLatency;
    var v, xs := NextLatency(p.ewmaLatency, s.latency, node, ms), HistoryOf(s, node) + [ms as real];
    var t := s.(latency := s.latency[node := v], history := s.history[node := xs]);
    OtherCpuReport(t, EwmaCalculated(node, Latency(Fin(v))), |xs|);
  }

  lemma CpuMeasuredStep(p: Params, s: System, t: System, results: seq<(WorkerNode, Option<F64>)>, worker: WorkerNode,
                        usage: F64)
    requires CpuDone(p, s, t, results) && worker in s.nodes
    ensures CpuDone(p, s, Next(p, t, CpuMeasure(worker, usage)), results + [(worker, Some(usage))])
  {
    hide NextCpu;
    var more := results + [(worker, Some(usage))];
    assert more[..|more| - 1] == results;
    var e := EwmaCalculated(worker.name, Cpu(NextCpu(p.ewmaCpu, t.cpu, worker.name, usage)));
    CpuOnlyNext(t.log, e);
    assert CpuReports(p.ewmaCpu, s.cpu, more) == CpuReports(p.ewmaCpu, s.cpu, results) + [e];
    hide CpuOnly, CpuReports;
  }

  /** The same for the cpu probe's `Round`. */
  lemma CpuRoundInSystem(p: Params, acts: seq<Action>, during: seq<Action>,
                         results: seq<(WorkerNode, Option<F64>)>)
    requires forall i | 0 <= i < |during| :: !during[i].CpuReceive?
    requires Sampled(during) == CpuAnswers(results) && AllJoined(Exec(p, acts), CpuAnswers(results))
    ensures CpuDone(p, Exec(p, acts), Exec(p, acts + during), results)
  {
    CpuSteps(p, acts, during);
    OnlyCpuAnswersCount(p.ewmaCpu, Exec(p, acts).cpu, results);
    hide Exec, CpuRound, CpuReports, CpuOnly;
  }

  lemma {:induction false} CpuSteps(p: Params, acts: seq<Action>, during: seq<Action>)
    requires forall i | 0 <= i < |during| :: !during[i].CpuReceive?
    requires AllJoined(Exec(p, acts), Sampled(during))
    ensures CpuDone(p, Exec(p, acts), Exec(p, acts + during), Sampled(during))
    decreases |during|
  {
    if during == [] {
      assert acts + during == acts;
    } else {
      var init, last := during[..|during| - 1], during[|during| - 1];
      ExecAppend(p, acts, during);
      JoinedBefore(Exec(p, acts), during);
      hide Exec, Next, CpuDone, Sampled;
      CpuSteps(p, acts, init);
      CpuStepOn(p, Exec(p, acts), Exec(p, acts + init), during);
    }
  }

  lemma JoinedBefore(s: System, during: seq<Action>)
    requires during != [] && AllJoined(s, Sampled(during))
    ensures AllJoined(s, Sampled(during[..|during| - 1]))
  {
    var before := Sampled(during[..|during| - 1]);
    assert before <= Sampled(during);
    forall i | 0 <= i < |before| ensures before[i] == Sampled(during)[i] {
    }
  }

  lemma CpuStepOn(p: Params, s: System, t: System, during: seq<Action>)
    requires during != [] && !during[|during| - 1].CpuReceive? && AllJoined(s, Sampled(during))
    requires CpuDone(p, s, t, Sampled(during[..|during| - 1]))
    ensures CpuDone(p, s, Next(p, t, during[|during| - 1]), Sampled(during))
  {
    var init, last := during[..|during| - 1], during[|during| - 1];
    if last.CpuMeasure? {
      assert Sampled(during)[|Sampled(init)|] == (last.worker, Some(last.usage));
      hide CpuDone, Next;
      CpuMeasuredStep(p, s, t, Sampled(init), last.worker, last.usage);
    } else {
      assert Sampled(during) == Sampled(init);
      OtherCpuStep(p, t, last);
      hide CpuDone, SameCpu, Next, Sampled;
      StillCpuDone(p, s, t, Next(p, t, last), Sampled(init));
    }
  }

  lemma StillCpuDone(p: Params, s: System, t: System, u: System, results: seq<(WorkerNode, Option<F64>)>)
    requires CpuDone(p, s, t, results)
    requires SameCpu(t, u)
    ensures CpuDone(p, s, u, results)
  {
    hide CpuOnly, CpuRound, CpuReports;
  }

  // ----- draining the channel

  /** The event that an action hands to the latency probe. */
  function Heard(s: System, a: Action): seq<Event> {
    if a.LatencyReceive? && s.latencyNext <= a.k < |s.log| then [s.log[a.k]] else []
  }

  function AllHeard(p: Params, acts: seq<Action>, during: seq<Action>): seq<Event> {
    if during == [] then []
    else
      var init := during[..|during| - 1];
      AllHeard(p, acts, init) + Heard(Exec(p, acts + init), during[|during| - 1])
  }

  function CpuHeard(s: System, a: Action): seq<Event> {
    if a.CpuReceive? && s.cpuNext <= a.k < |s.log| then [s.log[a.k]] else []
  }

  function AllCpuHeard(p: Params, acts: seq<Action>, during: seq<Action>): seq<Event> {
    if during == [] then []
    else
      var init := during[..|during| - 1];
      AllCpuHeard(p, acts, init) + CpuHeard(Exec(p, acts + init), during[|during| - 1])
  }

  /** Between any two moments both probes' knowledge changes as `Drain` changes it on what they received. */
  lemma {:induction false} DrainsInSystem(p: Params, acts: seq<Action>, during: seq<Action>)
    ensures Exec(p, acts + during).endpoints == LastAnnounced(Exec(p, acts).endpoints, AllHeard(p, acts, during))
    ensures Exec(p, acts + during).nodes == JoinedNodes(Exec(p, acts).nodes, AllCpuHeard(p, acts, during))
    decreases |during|
  {
    if during == [] {
      assert acts + during == acts;
    } else {
      var init, last := during[..|during| - 1], during[|during| - 1];
      DrainsInSystem(p, acts, init);
      ExecAppend(p, acts, during);
      var s := Exec(p, acts + init);
      DrainStep(p, s, last);
      LastAnnouncedOn(Exec(p, acts).endpoints, AllHeard(p, acts, init), Heard(s, last));
      JoinedNodesOn(Exec(p, acts).nodes, AllCpuHeard(p, acts, init), CpuHeard(s, last));
      hide Exec, Next, Heard, CpuHeard, LastAnnounced, JoinedNodes;
    }
  }

  lemma DrainStep(p: Params, s: System, a: Action)
    ensures Next(p, s, a).endpoints == LastAnnounced(s.endpoints, Heard(s, a))
    ensures Next(p, s, a).nodes == JoinedNodes(s.nodes, CpuHeard(s, a))
  {
    assert JoinedNodes(s.nodes, []) == s.nodes && LastAnnounced(s.endpoints, []) == s.endpoints;
    hide JoinedNodes, LastAnnounced, Groups, Announced, NextLatency, NextCpu;
    match a {
      case LatencyReceive(k) =>
      case CpuReceive(k) =>
      case _ => assert Heard(s, a) == [] && CpuHeard(s, a) == [];
    }
  }

  lemma LastAnnouncedOn(endpoints: map<string, seq<Ipv4>>, first: seq<Event>, more: seq<Event>)
    requires |more| <= 1
    ensures LastAnnounced(endpoints, first + more) == LastAnnounced(LastAnnounced(endpoints, first), more)
  {
    if more == [] {
      assert first + more == first;
    } else {
      assert (first + more)[..|first|] == first && more[..0] == [];
    }
  }

  lemma JoinedNodesOn(nodes: set<WorkerNode>, first: seq<Event>, more: seq<Event>)
    ensures JoinedNodes(nodes, first + more) == JoinedNodes(JoinedNodes(nodes, first), more)
  {
    var all := first + more;
    forall w | w in JoinedNodes(JoinedNodes(nodes, first), more) ensures w in JoinedNodes(nodes, all) {
      if i :| 0 <= i < |first| && first[i].NodeJoined? && first[i].worker == w {
        assert all[i] == first[i];
      } else if i :| 0 <= i < |more| && more[i].NodeJoined? && more[i].worker == w {
        assert all[|first| + i] == more[i];
      }
    }
  }
}
