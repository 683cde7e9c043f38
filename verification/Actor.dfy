/** The actor of proberv2: an event loop that keeps the last scores per node and the last announced
    service per node port, and rewrites the rules on every service change and on every tick. */
module ActorModel {
  import opened Collections
  import opened Float64
  import opened SlotAllocator
  import opened UpdateNftables
  import opened Scores
  import opened RoutingTheorems

  datatype WorkerNode = WorkerNode(name: string, ip: Ipv4)

  datatype EwmaDatapoint = Latency(v: F64) | Cpu(v: F64)

  datatype Event =
    | ServiceChanged(service: Service)
    | EwmaCalculated(node: string, datapoint: EwmaDatapoint)
    | NodeJoined(worker: WorkerNode)

  /** What `select!` can hand to one turn of the loop. */
  datatype Input = Received(event: Event) | Lagged | Tick

  /** The two maps the actor owns. */
  datatype State = State(datapoints: Datapoints, services: map<int, Service>)

  const INITIAL := State(map[], map[])

  function Store(sp: Option<ScorePair>, dp: EwmaDatapoint): ScorePair {
    var known := if sp.Some? then sp.value else ScorePair(Fin(0.0), Fin(0.0));
    match dp
    case Latency(v) => known.(latency := v)
    case Cpu(v) => known.(cpu := v)
  }

  function Step(s: State, e: Event): State {
    match e
    case ServiceChanged(service) => s.(services := s.services[service.nodeport := service])
    case EwmaCalculated(node, dp) =>
      if node !in s.datapoints then s
      else s.(datapoints := s.datapoints[node := Some(Store(s.datapoints[node], dp))])
    case NodeJoined(worker) =>
      if worker.name in s.datapoints then s else s.(datapoints := s.datapoints[worker.name := None])
  }

  function StepInput(s: State, i: Input): State {
    if i.Received? then Step(s, i.event) else s
  }

  function RunInputs(s: State, inputs: seq<Input>): State {
    if inputs == [] then s else StepInput(RunInputs(s, inputs[..|inputs| - 1]), inputs[|inputs| - 1])
  }

  // ----- the event loop

  /** Everything the actor holds keeps `update_nftables` from panicking. */
  ghost predicate Safe(cfg: Config, s: State) {
    && PowfNonNegative(cfg)
    && LatenciesMeasured(s.datapoints)
    && forall p | p in s.services :: SafeService(cfg, s.services[p])
  }

  ghost predicate SafeService(cfg: Config, service: Service) {
    BucketsFilled(service) && cfg.probabilityCap + |service.endpointsByNodename.Keys| / 2 <= U32_MAX
  }

  ghost predicate SafeEvent(cfg: Config, e: Event) {
    match e
    case ServiceChanged(service) => SafeService(cfg, service)
    case EwmaCalculated(_, Latency(v)) => v.Fin? && v.v >= 0.0
    case _ => true
  }

  ghost predicate SafeInput(cfg: Config, i: Input) {
    i.Received? ==> SafeEvent(cfg, i.event)
  }

  lemma StepSafe(cfg: Config, s: State, i: Input)
    requires Safe(cfg, s) && SafeInput(cfg, i)
    ensures Safe(cfg, StepInput(s, i))
  {
  }

  lemma KnownServiceSafe(cfg: Config, s: State, port: int)
    requires Safe(cfg, s) && port in s.services
    ensures SafeService(cfg, s.services[port])
  {
  }

  lemma PossiblySafe(cfg: Config, s: State, service: Service, out: Outcome)
    requires Safe(cfg, s) && SafeService(cfg, service)
    requires PossibleOutcome(cfg, service, s.datapoints, out)
    ensures out != Panicked
  {
    var order :| Enumerates(order, service.endpointsByNodename.Keys)
      && out == OutcomeFor(cfg, service, s.datapoints, order);
    EnumerationLength(order, service.endpointsByNodename.Keys);
    NeverPanics(cfg, service, s.datapoints, order);
  }

  class Actor {
    const config: Config
    var datapointByNodename: Datapoints
    var serviceByNodeport: map<int, Service>

    constructor (config: Config)
      ensures Abstract() == INITIAL && this.config == config
    {
      this.config := config;
      datapointByNodename, serviceByNodeport := map[], map[];
    }

    function Abstract(): State
      reads this
    {
      State(datapointByNodename, serviceByNodeport)
    }

    /** One turn of the loop. */
    method Handle(input: Input) returns (outs: seq<Outcome>)
      modifies this
      ensures Abstract() == StepInput(old(Abstract()), input)
      ensures input.Received? && input.event.ServiceChanged? ==>
        |outs| == 1 && PossibleOutcome(config, input.event.service, Abstract().datapoints, outs[0])
      ensures input.Lagged? || (input.Received? && !input.event.ServiceChanged?) ==> outs == []
      ensures input.Tick? ==> Refreshed(outs)
      ensures Safe(config, old(Abstract())) && SafeInput(config, input) ==> Panicked !in outs
    {
      outs := [];
      ghost var before := Abstract();
      match input {
        case Lagged =>
        case Tick =>
          outs := Refresh();
        case Received(ServiceChanged(service)) =>
          serviceByNodeport := serviceByNodeport[service.nodeport := service];
          var out := UpdateNftables.UpdateNftables(config, service, datapointByNodename);
          outs := [out];
          if Safe(config, before) && SafeInput(config, input) {
            StepSafe(config, before, input);
            PossiblySafe(config, Abstract(), service, out);
          }
        case Received(EwmaCalculated(node, dp)) =>
          if node in datapointByNodename {
            var sp := datapointByNodename[node];
            var score := if sp.Some? then sp.value else ScorePair(Fin(0.0), Fin(0.0));
            match dp {
              case Latency(v) => score := score.(latency := v);
              case Cpu(v) => score := score.(cpu := v);
            }
            datapointByNodename := datapointByNodename[node := Some(score)];
          }
        case Received(NodeJoined(worker)) =>
          if worker.name !in datapointByNodename {
            datapointByNodename := datapointByNodename[worker.name := None];
          }
      }
    }

    /** One outcome per known service, up to and including a panic. */
    ghost predicate Refreshed(outs: seq<Outcome>)
      reads this
    {
      exists ports :: Enumerates(ports, serviceByNodeport.Keys) && |outs| <= |ports|
        && (|outs| < |ports| ==> outs != [] && outs[|outs| - 1] == Panicked)
        && forall i | 0 <= i < |outs| :: ServedAt(ports[i], outs[i])
    }

    ghost predicate ServedAt(port: int, out: Outcome)
      reads this
    {
      port in serviceByNodeport
      && PossibleOutcome(config, serviceByNodeport[port], datapointByNodename, out)
    }

    method Refresh() returns (outs: seq<Outcome>)
      ensures Refreshed(outs)
      ensures Safe(config, Abstract()) ==> Panicked !in outs
    {
      hide PossibleOutcome, LatenciesMeasured, PowfNonNegative, BucketsFilled;
      var ports := HashOrder(serviceByNodeport.Keys);
      outs := [];
      for i := 0 to |ports|
        invariant |outs| == i
        invariant forall k | 0 <= k < i :: ServedAt(ports[k], outs[k])
        invariant Panicked !in outs
      {
        assert ports[i] in serviceByNodeport.Keys;
        var service := serviceByNodeport[ports[i]];
        var out := UpdateNftables.UpdateNftables(config, service, datapointByNodename);
        outs := outs + [out];
        if Safe(config, Abstract()) {
          KnownServiceSafe(config, Abstract(), ports[i]);
          PossiblySafe(config, Abstract(), service, out);
        }
        if out == Panicked {
          return;
        }
      }
    }

    /** The whole loop on the inputs it gets before it is cancelled; a panic ends the task early. */
    method Dispatch(inputs: seq<Input>) returns (handled: nat, outs: seq<Outcome>)
      modifies this
      ensures handled <= |inputs| && Abstract() == RunInputs(old(Abstract()), inputs[..handled])
      ensures handled < |inputs| ==> Panicked in outs
      ensures Safe(config, old(Abstract())) && (forall i | 0 <= i < |inputs| :: SafeInput(config, inputs[i])) ==>
        handled == |inputs| && Panicked !in outs && Safe(config, Abstract())
    {
      handled, outs := 0, [];
      while handled < |inputs|
        invariant handled <= |inputs| && Panicked !in outs
        invariant Abstract() == RunInputs(old(Abstract()), inputs[..handled])
        invariant Safe(config, old(Abstract())) && (forall i | 0 <= i < handled :: SafeInput(config, inputs[i]))
          ==> Safe(config, Abstract())
        decreases |inputs| - handled
      {
        assert inputs[..handled + 1][..handled] == inputs[..handled];
        ghost var before := Abstract();
        var more := Handle(inputs[handled]);
        outs := outs + more;
        if Safe(config, before) && SafeInput(config, inputs[handled]) {
          StepSafe(config, before, inputs[handled]);
        }
        handled := handled + 1;
        if Panicked in more {
          return;
        }
      }
    }
  }

  // ----- the history specification

  /** The state after the delivered events `h`, from an empty start. */
  function Run(h: seq<Event>): State {
    if h == [] then INITIAL else Step(Run(h[..|h| - 1]), h[|h| - 1])
  }

  /** The node joined among the first `i` delivered events. */
  ghost predicate Joined(h: seq<Event>, n: string, i: nat)
    requires i <= |h|
  {
    exists j | 0 <= j < i :: h[j].NodeJoined? && h[j].worker.name == n
  }

  /** Event `i` reports a latency (or a cpu usage) of a node that had joined by then. */
  ghost predicate Sample(h: seq<Event>, n: string, latency: bool, i: nat) {
    && i < |h| && h[i].EwmaCalculated? && h[i].node == n
    && h[i].datapoint.Latency? == latency && Joined(h, n, i)
  }

  ghost predicate NoSample(h: seq<Event>, n: string, latency: bool) {
    forall k: nat :: !Sample(h, n, latency, k)
  }

  /** Event `i` is the last such report. */
  ghost predicate LastAt(h: seq<Event>, n: string, latency: bool, i: nat) {
    Sample(h, n, latency, i) && forall k: nat | i < k :: !Sample(h, n, latency, k)
  }

  /** `v` is the last sample delivered after the node joined, or 0 when there is none. */
  ghost predicate LastSample(h: seq<Event>, n: string, latency: bool, v: F64) {
    || (v == Fin(0.0) && NoSample(h, n, latency))
    || (exists i: nat :: LastAt(h, n, latency, i) && h[i].datapoint.v == v)
  }

  ghost predicate Announces(h: seq<Event>, p: int, i: nat) {
    i < |h| && h[i].ServiceChanged? && h[i].service.nodeport == p
  }

  ghost predicate LastAnnouncement(h: seq<Event>, p: int, i: nat) {
    Announces(h, p, i) && forall k: nat | i < k :: !Announces(h, p, k)
  }

  /** What the actor must know of a node and of a node port after `h`. */
  ghost predicate MeetsNode(h: seq<Event>, s: State, n: string) {
    && (n in s.datapoints <==> Joined(h, n, |h|))
    && (n in s.datapoints ==>
      && (s.datapoints[n] == None <==> NoSample(h, n, true) && NoSample(h, n, false))
      && (s.datapoints[n].Some? ==>
        LastSample(h, n, true, s.datapoints[n].value.latency) && LastSample(h, n, false, s.datapoints[n].value.cpu)))
  }

  ghost predicate MeetsPort(h: seq<Event>, s: State, p: int) {
    && (p in s.services <==> exists i: nat :: Announces(h, p, i))
    && (p in s.services ==> exists i: nat :: LastAnnouncement(h, p, i) && h[i].service == s.services[p])
  }

  lemma SampleOfPrefix(h: seq<Event>, n: string, latency: bool, k: nat)
    requires h != []
    ensures Sample(h, n, latency, k) <==>
      Sample(h[..|h| - 1], n, latency, k) || (k == |h| - 1 && Sample(h, n, latency, k))
    ensures Sample(h, n, latency, |h| - 1) <==>
      && h[|h| - 1].EwmaCalculated? && h[|h| - 1].node == n
      && h[|h| - 1].datapoint.Latency? == latency && Joined(h[..|h| - 1], n, |h| - 1)
  {
    var init := h[..|h| - 1];
    if k < |init| {
      assert Joined(h, n, k) <==> Joined(init, n, k) by {
        assert forall j | 0 <= j < k :: init[j] == h[j];
      }
    }
    assert Joined(h, n, |init|) <==> Joined(init, n, |init|) by {
      assert forall j | 0 <= j < |init| :: init[j] == h[j];
    }
  }

  /** One more event changes the last sample exactly when it is itself a sample. */
  lemma LastSampleStep(h: seq<Event>, n: string, latency: bool)
    requires h != []
    ensures NoSample(h, n, latency) <==> NoSample(h[..|h| - 1], n, latency) && !Sample(h, n, latency, |h| - 1)
    ensures Sample(h, n, latency, |h| - 1) ==> LastSample(h, n, latency, h[|h| - 1].datapoint.v)
    ensures !Sample(h, n, latency, |h| - 1) ==>
      forall v | LastSample(h[..|h| - 1], n, latency, v) :: LastSample(h, n, latency, v)
  {
    var init := h[..|h| - 1];
    forall k: nat ensures Sample(h, n, latency, k) <==>
      Sample(init, n, latency, k) || (k == |init| && Sample(h, n, latency, k))
    {
      SampleOfPrefix(h, n, latency, k);
    }
    if Sample(h, n, latency, |init|) {
      assert LastAt(h, n, latency, |init|);
    } else {
      assert forall i: nat | LastAt(init, n, latency, i) :: LastAt(h, n, latency, i) && h[i] == init[i];
    }
  }

  /** For every history of delivered events, however lossy, the actor knows a node iff it joined, holds
      the last latency and cpu delivered since its first join, and the last service announced per port. */
  lemma {:induction false} ActorHistory(h: seq<Event>, n: string, p: int)
    ensures MeetsNode(h, Run(h), n)
    ensures MeetsPort(h, Run(h), p)
    decreases |h|
  {
    if h != [] {
      var init, e := h[..|h| - 1], h[|h| - 1];
      ActorHistory(init, n, p);
      NodeHistoryStep(h, n);
      PortHistoryStep(h, p);
    }
  }

  lemma NodeHistoryStep(h: seq<Event>, n: string)
    requires h != [] && MeetsNode(h[..|h| - 1], Run(h[..|h| - 1]), n)
    ensures MeetsNode(h, Run(h), n)
  {
    var init, e := h[..|h| - 1], h[|h| - 1];
    var s, t := Run(init), Run(h);
    assert t == Step(s, e);
    StepAtNode(s, e, n);
    hide Run, Step, Joined, NoSample, LastSample, Sample;
    JoinedStep(h, n);
    LastSampleStep(h, n, true);
    LastSampleStep(h, n, false);
    SampleOfPrefix(h, n, true, |init|);
    SampleOfPrefix(h, n, false, |init|);
    NotJoinedNoSample(init, n, true);
    NotJoinedNoSample(init, n, false);
  }

  /** What one event does to one node's entry. */
  lemma StepAtNode(s: State, e: Event, n: string)
    ensures var t := Step(s, e);
      && (n in t.datapoints <==> n in s.datapoints || (e.NodeJoined? && e.worker.name == n))
      && (n in t.datapoints && n !in s.datapoints ==> t.datapoints[n] == None)
      && (n in s.datapoints && !(e.EwmaCalculated? && e.node == n) ==> t.datapoints[n] == s.datapoints[n])
    ensures e.EwmaCalculated? && e.node == n && n in s.datapoints ==>
      var a, b := s.datapoints[n], Step(s, e).datapoints[n];
      && b.Some?
      && (if e.datapoint.Latency? then b.value.latency == e.datapoint.v else b.value.cpu == e.datapoint.v)
      && (a.Some? && e.datapoint.Latency? ==> b.value.cpu == a.value.cpu)
      && (a.Some? && e.datapoint.Cpu? ==> b.value.latency == a.value.latency)
      && (a.None? && e.datapoint.Latency? ==> b.value.cpu == Fin(0.0))
      && (a.None? && e.datapoint.Cpu? ==> b.value.latency == Fin(0.0))
  {
  }

  /** Reports about a node that has not joined are not samples; without samples the value is 0. */
  lemma NotJoinedNoSample(h: seq<Event>, n: string, latency: bool)
    ensures !Joined(h, n, |h|) ==> NoSample(h, n, latency)
    ensures NoSample(h, n, latency) ==> LastSample(h, n, latency, Fin(0.0))
  {
  }

  lemma JoinedStep(h: seq<Event>, n: string)
    requires h != []
    ensures Joined(h, n, |h|) <==>
      Joined(h[..|h| - 1], n, |h| - 1) || (h[|h| - 1].NodeJoined? && h[|h| - 1].worker.name == n)
  {
    assert forall j | 0 <= j < |h| - 1 :: h[..|h| - 1][j] == h[j];
  }

  lemma PortHistoryStep(h: seq<Event>, p: int)
    requires h != [] && MeetsPort(h[..|h| - 1], Run(h[..|h| - 1]), p)
    ensures MeetsPort(h, Run(h), p)
  {
    var init, e := h[..|h| - 1], h[|h| - 1];
    var s, t := Run(init), Run(h);
    assert t == Step(s, e);
    assert p !in t.services <==> p !in s.services && !(e.ServiceChanged? && e.service.nodeport == p);
    assert p in t.services ==>
      t.services[p] == if e.ServiceChanged? && e.service.nodeport == p then e.service else s.services[p];
    hide Run, Step;
    if e.ServiceChanged? && e.service.nodeport == p {
      assert LastAnnouncement(h, p, |init|);
    } else {
      SameAnnouncements(h, p);
      hide Announces, LastAnnouncement;
    }
  }

  lemma SameAnnouncements(h: seq<Event>, p: int)
    requires h != [] && !Announces(h, p, |h| - 1)
    ensures forall i: nat :: Announces(h, p, i) <==> Announces(h[..|h| - 1], p, i)
    ensures forall i: nat | LastAnnouncement(h[..|h| - 1], p, i) ::
      LastAnnouncement(h, p, i) && h[i] == h[..|h| - 1][i]
  {
    assert forall i | 0 <= i < |h| - 1 :: h[..|h| - 1][i] == h[i];
  }

  /** The history determines the state: nothing else is remembered, and nothing is forgotten. */
  lemma HistoryDetermines(h: seq<Event>, s: State, t: State)
    requires forall n :: MeetsNode(h, s, n) && MeetsNode(h, t, n)
    requires forall p :: MeetsPort(h, s, p) && MeetsPort(h, t, p)
    ensures s == t
  {
    forall n ensures n in s.datapoints <==> n in t.datapoints {
      assert MeetsNode(h, s, n) && MeetsNode(h, t, n);
    }
    forall n | n in s.datapoints ensures s.datapoints[n] == t.datapoints[n] {
      assert MeetsNode(h, s, n) && MeetsNode(h, t, n);
      if s.datapoints[n].Some? {
        OneLastSample(h, n, true, s.datapoints[n].value.latency, t.datapoints[n].value.latency);
        OneLastSample(h, n, false, s.datapoints[n].value.cpu, t.datapoints[n].value.cpu);
      }
    }
    assert s.datapoints == t.datapoints;
    forall p ensures p in s.services <==> p in t.services {
      assert MeetsPort(h, s, p) && MeetsPort(h, t, p);
    }
    forall p | p in s.services ensures s.services[p] == t.services[p] {
      assert MeetsPort(h, s, p) && MeetsPort(h, t, p);
    }
    assert s.services == t.services;
  }

  lemma OneLastSample(h: seq<Event>, n: string, latency: bool, v: F64, w: F64)
    requires LastSample(h, n, latency, v) && LastSample(h, n, latency, w)
    ensures v == w
  {
  }

  /** The loop's state is the history state of the events it received; ticks and lag leave no trace. */
  lemma {:induction false} InputsAreHistory(inputs: seq<Input>)
    ensures RunInputs(INITIAL, inputs) == Run(EventsOf(inputs))
    decreases |inputs|
  {
    if inputs != [] {
      InputsAreHistory(inputs[..|inputs| - 1]);
      var h, before := EventsOf(inputs), EventsOf(inputs[..|inputs| - 1]);
      if inputs[|inputs| - 1].Received? {
        assert h[..|h| - 1] == before;
      } else {
        assert h == before;
      }
    }
  }

  function EventsOf(inputs: seq<Input>): seq<Event> {
    if inputs == [] then []
    else
      var last := inputs[|inputs| - 1];
      EventsOf(inputs[..|inputs| - 1]) + (if last.Received? then [last.event] else [])
  }
}
