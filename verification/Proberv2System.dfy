/** All tasks of proberv2 together: watchers and probes broadcast events, every receiver may miss some
    of them, and the actor routes on what it received. */
module Proberv2System {
  import opened Collections
  import opened Float64
  import opened SlotAllocator
  import opened UpdateNftables
  import opened Scores
  import opened RoutingTheorems
  import opened InstallTheorems
  import opened ActorModel
  import opened Ewma
  import opened EndpointsWatch
  import opened Probes

  datatype Params = Params(cfg: Config, ewmaLatency: real, ewmaCpu: real)

  /** `log` is everything ever broadcast; each receiver has a position in it and may skip ahead.
      The rest only records what happened: `covers` how many response times a latency report averages,
      `delivered` and `taken` what the actor received and where it stands in the log, `history` what was
      measured, and `current` the groups that the Endpoints object of each node port has now. */
  datatype System = System(
    log: seq<Event>, covers: seq<nat>,
    actorNext: nat, actor: State, delivered: seq<Event>, taken: seq<nat>,
    latencyNext: nat, endpoints: map<string, seq<Ipv4>>, latency: map<string, real>, history: map<string, seq<real>>,
    cpuNext: nat, nodes: set<WorkerNode>, cpu: map<string, F64>,
    current: map<int, map<string, seq<Ipv4>>>)

  /** One step of one task. */
  datatype Action =
    | Join(worker: WorkerNode)
    | Change(name: string, nodeport: int, targetport: int, found: bool, addresses: Option<seq<Address>>)
    | LatencyReceive(k: nat)
    | LatencyMeasure(node: string, ms: nat)
    | CpuReceive(k: nat)
    | CpuMeasure(worker: WorkerNode, usage: F64)
    | ActorReceive(k: nat)
    | ActorTick

  const START := System([], [], 0, INITIAL, [], [], 0, map[], map[], map[], 0, {}, map[], map[])

  function HistoryOf(s: System, node: string): seq<real> {
    if node in s.history then s.history[node] else []
  }

  /** Only the actor's own receipts move the actor, and the log only grows. */
  predicate SameActor(t: System, s: System) {
    && s.log <= t.log && t.actor == s.actor && t.actorNext == s.actorNext
    && t.delivered == s.delivered && t.taken == s.taken
  }

  function Send(s: System, e: Event, covered: nat): (t: System)
    ensures SameActor(t, s)
  {
    s.(log := s.log + [e], covers := s.covers + [covered])
  }

  /** A change of the Endpoints object, announced or not. */
  function Changed(s: System, a: Action): (t: System)
    requires a.Change?
    ensures SameActor(t, s)
  {
    var t := s.(current := s.current[a.nodeport := Groups(a.addresses)]);
    var announcement := Announcement(a.name, a.nodeport, a.targetport, a.found, a.addresses);
    if announcement.None? then t else Send(t, ServiceChanged(announcement.value), 0)
  }

  function LatencyMeasured(p: Params, s: System, node: string, ms: nat): (t: System)
    ensures SameActor(t, s)
  {
    var v, xs := NextLatency(p.ewmaLatency, s.latency, node, ms), HistoryOf(s, node) + [ms as real];
    var t := s.(latency := s.latency[node := v], history := s.history[node := xs]);
    Send(t, EwmaCalculated(node, Latency(Fin(v))), |xs|)
  }

  function CpuMeasured(p: Params, s: System, worker: WorkerNode, usage: F64): (t: System)
    ensures SameActor(t, s)
  {
    var v := NextCpu(p.ewmaCpu, s.cpu, worker.name, usage);
    Send(s.(cpu := s.cpu[worker.name := v]), EwmaCalculated(worker.name, Cpu(v)), 0)
  }

  function ActorReceived(s: System, k: nat): System
    requires k < |s.log|
  {
    s.(actorNext := k + 1, actor := Step(s.actor, s.log[k]),
       delivered := s.delivered + [s.log[k]], taken := s.taken + [k])
  }

  /** The effect of an action; one that is not possible in `s` changes nothing.  A receiver takes any
      event at or after its position: what lies between was lost to lag. */
  function Next(p: Params, s: System, a: Action): System {
    match a
    case Join(worker) => Send(s, NodeJoined(worker), 0)
    case Change(_, _, _, _, _) => Changed(s, a)
    case LatencyReceive(k) =>
      if s.latencyNext <= k < |s.log| then
        s.(latencyNext := k + 1, endpoints := LastAnnounced(s.endpoints, [s.log[k]]))
      else s
    case LatencyMeasure(node, ms) => if node in s.endpoints then LatencyMeasured(p, s, node, ms) else s
    case CpuReceive(k) =>
      if s.cpuNext <= k < |s.log| then s.(cpuNext := k + 1, nodes := JoinedNodes(s.nodes, [s.log[k]])) else s
    case CpuMeasure(worker, usage) => if worker in s.nodes then CpuMeasured(p, s, worker, usage) else s
    case ActorReceive(k) => if s.actorNext <= k < |s.log| then ActorReceived(s, k) else s
    case ActorTick => s
  }

  /** The state after any interleaving of steps. */
  function Exec(p: Params, acts: seq<Action>): System {
    if acts == [] then START else Next(p, Exec(p, acts[..|acts| - 1]), acts[|acts| - 1])
  }

  ghost predicate Sane(p: Params) {
    PowfNonNegative(p.cfg) && 0.0 <= p.ewmaLatency <= 1.0
  }

  /** An announcement leaves room for half a slot per node above the cap. */
  predicate Fits(p: Params, a: Action) {
    a.Change? && a.addresses.Some? ==> p.cfg.probabilityCap + |a.addresses.value| / 2 <= U32_MAX
  }

  ghost predicate AllFit(p: Params, acts: seq<Action>) {
    forall i | 0 <= i < |acts| :: Fits(p, acts[i])
  }

  /** `v` is the average of the first `k` response times. */
  ghost predicate IsAverage(p: Params, xs: seq<real>, k: nat, v: F64) {
    1 <= k <= |xs| && v == Fin(Average(p.ewmaLatency, xs[..k]))
  }

  /** Entry `j` of the log is safe to receive, and a latency report is the average it is recorded to be. */
  ghost predicate GoodEntry(p: Params, s: System, j: nat)
    requires j < |s.log| == |s.covers|
  {
    && SafeEvent(p.cfg, s.log[j])
    && (s.log[j].EwmaCalculated? && s.log[j].datapoint.Latency? ==>
      IsAverage(p, HistoryOf(s, s.log[j].node), s.covers[j], s.log[j].datapoint.v))
  }

  ghost predicate GoodLog(p: Params, s: System) {
    |s.covers| == |s.log| && forall j | 0 <= j < |s.log| :: GoodEntry(p, s, j)
  }

  ghost predicate GoodHistory(p: Params, s: System) {
    forall n :: Tracks(p.ewmaLatency, s.latency, n, HistoryOf(s, n)) && NonNegatives(HistoryOf(s, n))
  }

  ghost predicate NonNegatives(xs: seq<real>) {
    forall i | 0 <= i < |xs| :: xs[i] >= 0.0
  }

  /** The delivered events stand in the log at strictly increasing places before the actor's position. */
  ghost predicate InOrder(s: System) {
    && s.actorNext <= |s.log| && |s.taken| == |s.delivered|
    && (forall i | 0 <= i < |s.taken| :: s.taken[i] < s.actorNext && s.delivered[i] == s.log[s.taken[i]])
    && (forall i, j | 0 <= i < j < |s.taken| :: s.taken[i] < s.taken[j])
  }

  ghost predicate Inv(p: Params, s: System) {
    GoodLog(p, s) && GoodHistory(p, s) && Safe(p.cfg, s.actor) && s.actor == Run(s.delivered) && InOrder(s)
  }

  // ----- the invariant

  /** Response times are only ever added, so a recorded average stays one. */
  lemma AverageStays(p: Params, xs: seq<real>, ys: seq<real>, k: nat, v: F64)
    requires IsAverage(p, xs, k, v) && xs <= ys
    ensures IsAverage(p, ys, k, v)
  {
    assert ys[..k] == xs[..k];
  }

  /** The old entries of a log stay good when it and the histories grow. */
  lemma EntriesStay(p: Params, s: System, t: System)
    requires GoodLog(p, s) && s.log <= t.log && s.covers <= t.covers && |t.log| == |t.covers|
    requires forall n :: HistoryOf(s, n) <= HistoryOf(t, n)
    ensures forall j | 0 <= j < |s.log| :: GoodEntry(p, t, j)
  {
    hide SafeEvent, IsAverage, HistoryOf;
    forall j | 0 <= j < |s.log| ensures GoodEntry(p, t, j) {
      assert GoodEntry(p, s, j);
      assert t.log[j] == s.log[j] && t.covers[j] == s.covers[j];
      var e := s.log[j];
      if e.EwmaCalculated? && e.datapoint.Latency? {
        AverageStays(p, HistoryOf(s, e.node), HistoryOf(t, e.node), s.covers[j], e.datapoint.v);
      }
    }
  }

  lemma InOrderStays(s: System, t: System)
    requires InOrder(s) && s.log <= t.log && t.actorNext == s.actorNext
    requires t.delivered == s.delivered && t.taken == s.taken
    ensures InOrder(t)
  {
    forall i | 0 <= i < |s.taken| ensures t.log[s.taken[i]] == s.log[s.taken[i]] {
    }
  }

  lemma AverageNonNegative(p: Params, xs: seq<real>)
    requires Sane(p) && xs != [] && NonNegatives(xs)
    ensures Average(p.ewmaLatency, xs) >= 0.0
  {
    var hi := UpperBound(xs);
    AverageWithin(p.ewmaLatency, xs, 0.0, hi);
  }

  lemma {:induction false} UpperBound(xs: seq<real>) returns (hi: real)
    ensures forall i | 0 <= i < |xs| :: xs[i] <= hi
    decreases |xs|
  {
    if xs == [] {
      hi := 0.0;
    } else {
      hi := UpperBound(xs[..|xs| - 1]);
      if xs[|xs| - 1] > hi { hi := xs[|xs| - 1]; }
      assert forall i | 0 <= i < |xs| - 1 :: xs[..|xs| - 1][i] == xs[i];
    }
  }

  lemma AnnouncementSafe(p: Params, a: Action)
    requires a.Change? && Fits(p, a)
    ensures var announced := Announcement(a.name, a.nodeport, a.targetport, a.found, a.addresses);
      announced.Some? ==> SafeEvent(p.cfg, ServiceChanged(announced.value))
  {
    hide Grouped;
    if a.addresses.Some? {
      GroupingFillsBuckets(a.addresses.value, a.name, a.nodeport, a.targetport);
    }
  }

  /** Broadcasting a safe event that is not a latency report. */
  lemma SendStep(p: Params, s: System, e: Event)
    requires Inv(p, s) && SafeEvent(p.cfg, e) && !(e.EwmaCalculated? && e.datapoint.Latency?)
    ensures Inv(p, Send(s, e, 0))
  {
    var t := Send(s, e, 0);
    assert forall n :: HistoryOf(t, n) == HistoryOf(s, n);
    hide Safe, Run, Tracks, SafeEvent, IsAverage, HistoryOf, NonNegatives, InOrder;
    EntriesStay(p, s, t);
    assert GoodEntry(p, t, |s.log|);
    InOrderStays(s, t);
  }

  /** A step that touches neither the log, nor the actor, nor the latency probe's history. */
  lemma SameButProbes(p: Params, s: System, t: System)
    requires Inv(p, s) && t.log == s.log && t.covers == s.covers && t.history == s.history && t.latency == s.latency
    requires t.actor == s.actor && t.actorNext == s.actorNext && t.delivered == s.delivered && t.taken == s.taken
    ensures Inv(p, t)
  {
    assert forall n :: HistoryOf(t, n) == HistoryOf(s, n);
    hide Safe, Run, Tracks, SafeEvent, IsAverage, HistoryOf, NonNegatives, InOrder;
    EntriesStay(p, s, t);
    InOrderStays(s, t);
  }

  lemma ChangeStep(p: Params, s: System, a: Action)
    requires Inv(p, s) && a.Change? && Fits(p, a)
    ensures Inv(p, Changed(s, a))
  {
    AnnouncementSafe(p, a);
    hide Inv, Announced, Groups, SafeEvent;
    var t := s.(current := s.current[a.nodeport := Groups(a.addresses)]);
    SameButProbes(p, s, t);
    var announcement := Announcement(a.name, a.nodeport, a.targetport, a.found, a.addresses);
    if announcement.Some? {
      SendStep(p, t, ServiceChanged(announcement.value));
    }
  }

  lemma CpuStep(p: Params, s: System, worker: WorkerNode, usage: F64)
    requires Inv(p, s)
    ensures Inv(p, CpuMeasured(p, s, worker, usage))
  {
    hide Inv, NextCpu;
    var v := NextCpu(p.ewmaCpu, s.cpu, worker.name, usage);
    var t := s.(cpu := s.cpu[worker.name := v]);
    SameButProbes(p, s, t);
    SendStep(p, t, EwmaCalculated(worker.name, Cpu(v)));
  }

  /** A measurement keeps the stored value the average of the history, and reports that average. */
  lemma MeasureStep(p: Params, s: System, node: string, ms: nat)
    requires Sane(p) && Inv(p, s)
    ensures Inv(p, LatencyMeasured(p, s, node, ms))
  {
    var t := LatencyMeasured(p, s, node, ms);
    var v, xs := NextLatency(p.ewmaLatency, s.latency, node, ms), HistoryOf(s, node) + [ms as real];
    assert forall n :: HistoryOf(t, n) == if n == node then xs else HistoryOf(s, n);
    HistoryGrows(p, s, node, ms);
    assert GoodHistory(p, t);
    assert Tracks(p.ewmaLatency, t.latency, node, xs) && NonNegatives(xs);
    assert v == Average(p.ewmaLatency, xs);
    AverageNonNegative(p, xs);
    assert xs[..|xs|] == xs;
    hide Safe, Run, Tracks, NonNegatives, NextLatency, InOrder, Average, HistoryOf;
    EntriesStay(p, s, t);
    assert GoodEntry(p, t, |s.log|);
    InOrderStays(s, t);
  }

  lemma HistoryGrows(p: Params, s: System, node: string, ms: nat)
    requires GoodHistory(p, s)
    ensures GoodHistory(p, LatencyMeasured(p, s, node, ms))
  {
    var t := LatencyMeasured(p, s, node, ms);
    hide NextLatency, Average;
    forall n ensures Tracks(p.ewmaLatency, t.latency, n, HistoryOf(t, n)) && NonNegatives(HistoryOf(t, n)) {
      assert Tracks(p.ewmaLatency, s.latency, n, HistoryOf(s, n)) && NonNegatives(HistoryOf(s, n));
      SampleTracks(p.ewmaLatency, s.latency, n, HistoryOf(s, n), node, ms);
    }
  }

  lemma ReceiveStep(p: Params, s: System, k: nat)
    requires Inv(p, s) && s.actorNext <= k < |s.log|
    ensures Inv(p, ActorReceived(s, k))
  {
    var t, e := ActorReceived(s, k), s.log[k];
    assert GoodEntry(p, s, k);
    StepSafe(p.cfg, s.actor, Received(e));
    assert t.delivered[..|t.delivered| - 1] == s.delivered;
    assert t.actor == Run(t.delivered);
    assert forall n :: HistoryOf(t, n) == HistoryOf(s, n);
    hide Safe, Run, Tracks, SafeEvent, IsAverage, Step, HistoryOf, NonNegatives;
    EntriesStay(p, s, t);
  }

  lemma InvStep(p: Params, s: System, a: Action)
    requires Sane(p) && Inv(p, s) && Fits(p, a)
    ensures Inv(p, Next(p, s, a))
  {
    hide Inv, Changed, LatencyMeasured, CpuMeasured, ActorReceived, Send, Fits, Sane, LastAnnounced, JoinedNodes;
    match a {
      case Join(worker) => JoinStep(p, s, worker);
      case Change(_, _, _, _, _) => ChangeStep(p, s, a);
      case LatencyMeasure(node, ms) => MeasureStep(p, s, node, ms);
      case CpuMeasure(worker, usage) => CpuStep(p, s, worker, usage);
      case ActorReceive(k) => if s.actorNext <= k < |s.log| { ReceiveStep(p, s, k); }
      case LatencyReceive(k) => SameButProbes(p, s, Next(p, s, a));
      case CpuReceive(k) => SameButProbes(p, s, Next(p, s, a));
      case ActorTick =>
    }
  }

  lemma JoinStep(p: Params, s: System, worker: WorkerNode)
    requires Inv(p, s)
    ensures Inv(p, Send(s, NodeJoined(worker), 0))
  {
    hide Inv, Send;
    SendStep(p, s, NodeJoined(worker));
  }

  lemma {:induction false} Reachable(p: Params, acts: seq<Action>)
    requires Sane(p) && AllFit(p, acts)
    ensures Inv(p, Exec(p, acts))
    decreases |acts|
  {
    if acts != [] {
      hide Next, Inv;
      Reachable(p, acts[..|acts| - 1]);
      InvStep(p, Exec(p, acts[..|acts| - 1]), acts[|acts| - 1]);
    } else {
      StartIsGood(p);
    }
  }

  lemma StartIsGood(p: Params)
    requires Sane(p)
    ensures Inv(p, START)
  {
  }

  // ----- what holds in every reachable state

  ghost predicate Known(st: State, service: Service) {
    exists port | port in st.services :: st.services[port] == service
  }

  /** No call of `update_nftables` panics: neither on a tick, for a known service, nor on the arrival of
      any service that was ever broadcast. */
  lemma RoutingNeverPanics(p: Params, acts: seq<Action>, service: Service, out: Outcome)
    requires Sane(p) && AllFit(p, acts)
    requires var s := Exec(p, acts);
      Known(s.actor, service) || ServiceChanged(service) in s.log
    requires PossibleOutcome(p.cfg, service, Exec(p, acts).actor.datapoints, out)
    ensures out != Panicked
  {
    Reachable(p, acts);
    var s := Exec(p, acts);
    hide Exec, PossibleOutcome;
    if Known(s.actor, service) {
      var port :| port in s.actor.services && s.actor.services[port] == service;
      KnownServiceSafe(p.cfg, s.actor, port);
    } else {
      var i :| 0 <= i < |s.log| && s.log[i] == ServiceChanged(service);
      assert GoodEntry(p, s, i);
    }
    PossiblySafe(p.cfg, s.actor, service, out);
  }

  ghost predicate Follows(s: System) {
    s.actor == Run(s.delivered) && InOrder(s)
  }

  lemma ActorUntouched(p: Params, s: System, a: Action)
    requires !a.ActorReceive?
    ensures SameActor(Next(p, s, a), s)
  {
    hide Send, Changed, LatencyMeasured, CpuMeasured, LastAnnounced, JoinedNodes;
  }

  lemma ReceiveFollows(s: System, k: nat)
    requires Follows(s) && s.actorNext <= k < |s.log|
    ensures Follows(ActorReceived(s, k))
  {
    hide Step;
    var t := ActorReceived(s, k);
    assert t.delivered[..|t.delivered| - 1] == s.delivered;
    assert t.actor == Run(t.delivered);
    hide Run;
  }

  lemma FollowStep(p: Params, s: System, a: Action)
    requires Follows(s)
    ensures Follows(Next(p, s, a))
  {
    if a.ActorReceive? {
      hide Follows, ActorReceived;
      if s.actorNext <= a.k < |s.log| {
        ReceiveFollows(s, a.k);
      }
    } else {
      hide Next, Run;
      ActorUntouched(p, s, a);
      InOrderStays(s, Next(p, s, a));
    }
  }

  lemma {:induction false} AlwaysFollows(p: Params, acts: seq<Action>)
    ensures Follows(Exec(p, acts))
    decreases |acts|
  {
    if acts != [] {
      AlwaysFollows(p, acts[..|acts| - 1]);
      hide Follows, Next;
      FollowStep(p, Exec(p, acts[..|acts| - 1]), acts[|acts| - 1]);
    }
  }

  /** The actor's state is the history state of an in-order, possibly lossy selection of the broadcast
      events, for every node and every port. */
  lemma ActorFollowsDeliveries(p: Params, acts: seq<Action>, n: string, port: int)
    ensures var s := Exec(p, acts);
      InOrder(s) && MeetsNode(s.delivered, s.actor, n) && MeetsPort(s.delivered, s.actor, port)
  {
    AlwaysFollows(p, acts);
    var s := Exec(p, acts);
    hide Exec, MeetsNode, MeetsPort, InOrder;
    ActorHistory(s.delivered, n, port);
  }

  // ----- held latencies

  /** Delivered event `i` is the last latency report of the node that counts, and this is what it averages. */
  ghost predicate LastReport(s: System, n: string, i: nat) {
    LastAt(s.delivered, n, true, i)
  }

  function Reported(s: System, n: string, i: nat): seq<real> {
    if i < |s.taken| && s.taken[i] < |s.covers| && s.covers[s.taken[i]] <= |HistoryOf(s, n)|
    then HistoryOf(s, n)[..s.covers[s.taken[i]]] else []
  }

  /** `v` is the average of a non-empty prefix of the node's history, the one that report `i` covers. */
  ghost predicate ReportedAverage(p: Params, s: System, n: string, i: nat, v: F64) {
    && LastReport(s, n, i) && Reported(s, n, i) != [] && Reported(s, n, i) <= HistoryOf(s, n)
    && v == Fin(Average(p.ewmaLatency, Reported(s, n, i)))
  }

  ghost predicate Holds(s: System, n: string) {
    n in s.actor.datapoints && s.actor.datapoints[n].Some?
  }

  /** The latency the actor holds for a node is the average of exactly the response times that the last
      delivered report covers, or the default 0 when none was delivered after the node joined. */
  lemma HeldLatency(p: Params, acts: seq<Action>, n: string)
    requires Sane(p) && AllFit(p, acts) && Holds(Exec(p, acts), n)
    ensures var s := Exec(p, acts);
      var v := s.actor.datapoints[n].value.latency;
      if NoSample(s.delivered, n, true) then v == Fin(0.0)
      else exists i: nat :: ReportedAverage(p, s, n, i, v)
  {
    Reachable(p, acts);
    ActorFollowsDeliveries(p, acts, n, 0);
    var s := Exec(p, acts);
    var v := s.actor.datapoints[n].value.latency;
    assert LastSample(s.delivered, n, true, v);
    hide Exec, MeetsNode, MeetsPort, Safe, GoodHistory, Run, NoSample;
    if !NoSample(s.delivered, n, true) {
      var i: nat :| LastAt(s.delivered, n, true, i) && s.delivered[i].datapoint.v == v;
      hide GoodEntry;
      ReportIsAverage(p, s, n, i);
      hide LastAt, Reported, HistoryOf, Average, InOrder;
      assert ReportedAverage(p, s, n, i, v);
    }
  }

  lemma ReportIsAverage(p: Params, s: System, n: string, i: nat)
    requires GoodLog(p, s) && InOrder(s) && LastReport(s, n, i)
    ensures Reported(s, n, i) != [] && Reported(s, n, i) <= HistoryOf(s, n)
    ensures s.delivered[i].datapoint.v == Fin(Average(p.ewmaLatency, Reported(s, n, i)))
  {
    assert GoodEntry(p, s, s.taken[i]);
    hide HistoryOf, Average, Joined;
  }

  /** So it stays between the smallest and the largest response time ever measured there. */
  lemma HeldLatencyWithin(p: Params, acts: seq<Action>, n: string, lo: real, hi: real)
    requires Sane(p) && AllFit(p, acts) && Holds(Exec(p, acts), n)
    requires Within(HistoryOf(Exec(p, acts), n), lo, hi)
    requires !NoSample(Exec(p, acts).delivered, n, true)
    ensures var v := Exec(p, acts).actor.datapoints[n].value.latency; v.Fin? && lo <= v.v <= hi
  {
    HeldLatency(p, acts, n);
    var s := Exec(p, acts);
    hide Exec, NoSample, HistoryOf, LastReport;
    var i: nat :| ReportedAverage(p, s, n, i, s.actor.datapoints[n].value.latency);
    var xs := Reported(s, n, i);
    hide Reported;
    assert Within(xs, lo, hi) by {
      forall k | 0 <= k < |xs| ensures lo <= xs[k] <= hi {
        assert xs[k] == HistoryOf(s, n)[k];
      }
    }
    AverageWithin(p.ewmaLatency, xs, lo, hi);
  }

  /** No latency report of the node counts, or all the response times that the last one covers were 0:
      they are whole milliseconds, so every answer took less than one. */
  ghost predicate Unmeasured(s: System, n: string) {
    NoSample(s.delivered, n, true) || exists i: nat :: LastReport(s, n, i) && AllZero(Reported(s, n, i))
  }

  /** Exactly then the actor holds a latency of 0 for the node. */
  lemma HeldLatencyZeroIff(p: Params, acts: seq<Action>, n: string)
    requires Sane(p) && AllFit(p, acts) && Holds(Exec(p, acts), n) && 0.0 < p.ewmaLatency < 1.0
    ensures Exec(p, acts).actor.datapoints[n].value.latency == Fin(0.0) <==> Unmeasured(Exec(p, acts), n)
  {
    HeldLatency(p, acts, n);
    Reachable(p, acts);
    var s := Exec(p, acts);
    hide Exec;
    if !NoSample(s.delivered, n, true) {
      var i: nat :| ReportedAverage(p, s, n, i, s.actor.datapoints[n].value.latency);
      assert NonNegatives(HistoryOf(s, n));
      hide Reported, HistoryOf, NoSample, Safe, GoodLog, InOrder;
      PrefixNonNegative(Reported(s, n, i), HistoryOf(s, n));
      AverageZeroIff(p.ewmaLatency, Reported(s, n, i));
      OnlyLastReport(s, n, i);
      hide LastReport;
    }
  }

  lemma PrefixNonNegative(xs: seq<real>, ys: seq<real>)
    requires xs <= ys && NonNegatives(ys)
    ensures NonNegatives(xs)
  {
    forall i | 0 <= i < |xs| ensures xs[i] >= 0.0 {
      assert xs[i] == ys[i];
    }
  }

  lemma OnlyLastReport(s: System, n: string, i: nat)
    requires LastReport(s, n, i)
    ensures forall j: nat :: LastReport(s, n, j) ==> j == i
  {
    hide Joined;
  }

  // ----- the freeze, exactly

  /** In every reachable state, for every visiting order: a known service on two nodes or more, with two
      surviving endpoints and a cap that has room for them, is routed exactly when no surviving node of it
      is unmeasured.  Until then nothing is installed and its old rules stay. */
  lemma RoutedIffMeasured(p: Params, acts: seq<Action>, service: Service, order: seq<string>)
    requires Sane(p) && AllFit(p, acts) && 0.0 < p.ewmaLatency < 1.0
    requires PowfPositive(p.cfg) && PowfAtInfinity(p.cfg) && p.cfg.scoreExponent > 0.0
    requires Known(Exec(p, acts).actor, service)
    requires Enumerates(order, service.endpointsByNodename.Keys) && |order| >= 2
    requires var cands := Survivors(service, Exec(p, acts).actor.datapoints, order);
      TotalEndpoints(cands) >= 2 && Roomy(p.cfg.probabilityCap, cands)
    ensures var s := Exec(p, acts);
      OutcomeFor(p.cfg, service, s.actor.datapoints, order).Install? <==>
        forall n | n in service.endpointsByNodename && Survives(s.actor.datapoints, n) :: !Unmeasured(s, n)
  {
    var s := Exec(p, acts);
    Reachable(p, acts);
    forall n | n in service.endpointsByNodename && Survives(s.actor.datapoints, n)
      ensures s.actor.datapoints[n].value.latency.v > 0.0 <==> !Unmeasured(s, n)
    {
      HeldLatencyZeroIff(p, acts, n);
    }
    hide Exec, Survivors, TotalEndpoints, Unmeasured, Survives, OutcomeFor;
    var port :| port in s.actor.services && s.actor.services[port] == service;
    KnownServiceSafe(p.cfg, s.actor, port);
    EnumerationLength(order, service.endpointsByNodename.Keys);
    CallInstallsIff(p.cfg, service, s.actor.datapoints, order);
  }

  /** Without any such hypotheses on the cap: one unmeasured surviving node is enough to freeze. */
  lemma FrozenWhileUnmeasured(p: Params, acts: seq<Action>, n: string, service: Service,
                              order: seq<string>)
    requires Sane(p) && AllFit(p, acts) && PowfAtInfinity(p.cfg) && p.cfg.scoreExponent > 0.0
    requires 0.0 < p.ewmaLatency < 1.0 && Known(Exec(p, acts).actor, service)
    requires Enumerates(order, service.endpointsByNodename.Keys) && n in service.endpointsByNodename
    requires Survives(Exec(p, acts).actor.datapoints, n) && Unmeasured(Exec(p, acts), n)
    ensures OutcomeFor(p.cfg, service, Exec(p, acts).actor.datapoints, order)
      in {TooFewNodes, TooFewEndpoints, NoVerdictPairs}
  {
    Reachable(p, acts);
    HeldLatencyZeroIff(p, acts, n);
    var s := Exec(p, acts);
    hide Exec, Unmeasured, OutcomeFor;
    var port :| port in s.actor.services && s.actor.services[port] == service;
    KnownServiceSafe(p.cfg, s.actor, port);
    ZeroLatencyFreezes(p.cfg, service, s.actor.datapoints, order, n);
  }
}
