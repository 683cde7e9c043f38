/** Runs of proberv2 that end with outdated endpoints, and exactly when runs do. */
module Proberv2Runs {
  import opened Collections
  import opened Float64
  import opened SlotAllocator
  import opened UpdateNftables
  import opened ActorModel
  import opened EndpointsWatch
  import opened Probes
  import opened Proberv2System

  // ----- which endpoints the actor holds

  predicate Changes(a: Action, port: int) {
    a.Change? && a.nodeport == port
  }

  predicate Announces(a: Action, port: int) {
    Changes(a, port) && Announced(a.found, a.addresses)
  }

  /** Index of the last change of a port's endpoints, -1 if there is none. */
  function LastChange(acts: seq<Action>, port: int): (i: int)
    ensures -1 <= i < |acts|
  {
    LastTrue(seq(|acts|, i requires 0 <= i < |acts| => Changes(acts[i], port)))
  }

  /** Index of the last change that got past the early returns. */
  function LastAnnounced(acts: seq<Action>, port: int): (i: int)
    ensures -1 <= i < |acts|
  {
    LastTrue(seq(|acts|, i requires 0 <= i < |acts| => Announces(acts[i], port)))
  }

  lemma LastNext(acts: seq<Action>, port: int)
    requires acts != []
    ensures var n := |acts| - 1;
      && LastChange(acts, port) == (if Changes(acts[n], port) then n else LastChange(acts[..n], port))
      && LastAnnounced(acts, port) == (if Announces(acts[n], port) then n else LastAnnounced(acts[..n], port))
  {
    hide Changes, Announces;
    var n := |acts| - 1;
    assert seq(|acts|, i requires 0 <= i < |acts| => Changes(acts[i], port))[..n]
        == seq(n, i requires 0 <= i < n => Changes(acts[..n][i], port));
    assert seq(|acts|, i requires 0 <= i < |acts| => Announces(acts[i], port))[..n]
        == seq(n, i requires 0 <= i < n => Announces(acts[..n][i], port));
  }

  /** They really are changes of the port, and no later action is. */
  lemma {:induction false} LastOnes(acts: seq<Action>, port: int)
    ensures LastChange(acts, port) >= 0 ==> Changes(acts[LastChange(acts, port)], port)
    ensures LastAnnounced(acts, port) >= 0 ==> Announces(acts[LastAnnounced(acts, port)], port)
    ensures LastAnnounced(acts, port) <= LastChange(acts, port)
    ensures LastChange(acts, port) >= 0 && Announces(acts[LastChange(acts, port)], port) ==>
      LastAnnounced(acts, port) == LastChange(acts, port)
    decreases |acts|
  {
    if acts != [] {
      LastOnes(acts[..|acts| - 1], port);
      LastNext(acts, port);
      hide LastChange, LastAnnounced, Announced;
    }
  }

  lemma ExecNext(p: Params, acts: seq<Action>)
    requires acts != []
    ensures Exec(p, acts) == Next(p, Exec(p, acts[..|acts| - 1]), acts[|acts| - 1])
  {
  }

  lemma RunAppend(log: seq<Event>, e: Event)
    ensures Run(log + [e]) == Step(Run(log), e)
  {
    assert (log + [e])[..|log|] == log;
  }

  /** The broadcast services of a port, and its current groups, after and before one action. */
  ghost predicate PortAfter(t: System, s: System, a: Action, port: int) {
    && (if Announces(a, port) then Serves(t, port, a.addresses) else SameService(t, s, port))
    && (if Changes(a, port) then HasGroups(t, port, a.addresses) else SameGroups(t, s, port))
  }

  predicate HasGroups(t: System, port: int, addresses: Option<seq<Address>>) {
    port in t.current && t.current[port] == Groups(addresses)
  }

  ghost predicate Serves(t: System, port: int, addresses: Option<seq<Address>>) {
    port in Run(t.log).services && Run(t.log).services[port].endpointsByNodename == Groups(addresses)
  }

  ghost predicate SameService(t: System, s: System, port: int) {
    && (port in Run(t.log).services <==> port in Run(s.log).services)
    && (port in Run(t.log).services ==> Run(t.log).services[port] == Run(s.log).services[port])
  }

  ghost predicate SameGroups(t: System, s: System, port: int) {
    && (port in t.current <==> port in s.current)
    && (port in t.current ==> t.current[port] == s.current[port])
  }

  lemma SendKeepsServices(s: System, e: Event, covered: nat, port: int)
    requires !(e.ServiceChanged? && e.service.nodeport == port)
    ensures SameService(Send(s, e, covered), s, port) && SameGroups(Send(s, e, covered), s, port)
  {
    RunAppend(s.log, e);
    hide Run;
  }

  lemma SameLog(t: System, s: System, port: int)
    requires t.log == s.log
    ensures SameService(t, s, port)
    ensures t.current == s.current ==> SameGroups(t, s, port)
  {
  }

  lemma ChangedPort(s: System, a: Action, port: int)
    requires a.Change?
    ensures PortAfter(Changed(s, a), s, a, port)
  {
    var t := s.(current := s.current[a.nodeport := Groups(a.addresses)]);
    SameLog(t, s, port);
    assert Announced(a.found, a.addresses) ==> a.addresses.Some? && Groups(a.addresses) == Grouped(a.addresses.value);
    hide Announced, Grouped, Groups, Run;
    if Announced(a.found, a.addresses) {
      AnnouncedPort(t, Service(a.name, a.nodeport, a.targetport, Grouped(a.addresses.value)), port);
    }
  }

  lemma AnnouncedPort(t: System, service: Service, port: int)
    ensures var u := Send(t, ServiceChanged(service), 0);
      if port == service.nodeport
      then port in Run(u.log).services && Run(u.log).services[port] == service
      else SameService(u, t, port)
  {
    RunAppend(t.log, ServiceChanged(service));
    hide Run;
  }

  lemma PortStep(p: Params, s: System, a: Action, port: int)
    ensures PortAfter(Next(p, s, a), s, a, port)
  {
    hide Run, Changed, Send, LatencyMeasured, CpuMeasured, Announced, LastAnnounced, JoinedNodes, Groups, Serves,
      SameService, SameGroups;
    match a {
      case Change(_, _, _, _, _) => ChangedPort(s, a, port);
      case Join(worker) => SendKeepsServices(s, NodeJoined(worker), 0, port);
      case LatencyMeasure(node, ms) =>
        LatencyKeepsServices(p, s, node, ms, port);
        SameLog(s, s, port);
      case CpuMeasure(worker, usage) =>
        CpuKeepsServices(p, s, worker, usage, port);
        SameLog(s, s, port);
      case _ => SameLog(Next(p, s, a), s, port);
    }
  }

  lemma LatencyKeepsServices(p: Params, s: System, node: string, ms: nat, port: int)
    ensures var t := LatencyMeasured(p, s, node, ms); SameService(t, s, port) && SameGroups(t, s, port)
  {
    var v := NextLatency(p.ewmaLatency, s.latency, node, ms);
    RunAppend(s.log, EwmaCalculated(node, Latency(Fin(v))));
    hide Run, NextLatency;
  }

  lemma CpuKeepsServices(p: Params, s: System, worker: WorkerNode, usage: F64, port: int)
    ensures var t := CpuMeasured(p, s, worker, usage); SameService(t, s, port) && SameGroups(t, s, port)
  {
    var v := NextCpu(p.ewmaCpu, s.cpu, worker.name, usage);
    RunAppend(s.log, EwmaCalculated(worker.name, Cpu(v)));
    hide Run, NextCpu;
  }

  lemma {:induction false} PortHistory(p: Params, acts: seq<Action>, port: int)
    ensures var s, c, l := Exec(p, acts), LastChange(acts, port), LastAnnounced(acts, port);
      && (port in s.current <==> c >= 0)
      && (c >= 0 ==> Changes(acts[c], port) && s.current[port] == Groups(acts[c].addresses))
      && (port in Run(s.log).services <==> l >= 0)
      && (l >= 0 ==> Announces(acts[l], port) && Serves(s, port, acts[l].addresses))
    decreases |acts|
  {
    LastOnes(acts, port);
    if acts != [] {
      var init := acts[..|acts| - 1];
      PortHistory(p, init, port);
      LastNext(acts, port);
      ExecNext(p, acts);
      PortStep(p, Exec(p, init), acts[|acts| - 1], port);
      hide Exec, Run, Next, Groups, Announced, LastChange, LastAnnounced;
    }
  }

  /** When everything broadcast has been delivered, the actor routes a port to its current endpoints
      exactly when the last change of the port was announced, or brought the groups back to what was
      announced last: had addresses, a readable node port, and more than one node, or no node at all. */
  lemma CurrentEndpointsIff(p: Params, acts: seq<Action>, port: int)
    requires LastChange(acts, port) >= 0
    requires Exec(p, acts).delivered == Exec(p, acts).log
    ensures port in Exec(p, acts).current
    ensures var s, c, l := Exec(p, acts), LastChange(acts, port), LastAnnounced(acts, port);
      port in s.actor.services && s.actor.services[port].endpointsByNodename == s.current[port] <==>
        Announces(acts[c], port) || (l >= 0 && LastGroups(acts[l]) == LastGroups(acts[c]))
  {
    AlwaysFollows(p, acts);
    assert Exec(p, acts).actor == Run(Exec(p, acts).log);
    hide Follows, Exec, Groups, Announced, LastChange, LastAnnounced;
    PortHistory(p, acts, port);
    LastOnes(acts, port);
    hide Run, Changes, Announces;
  }

  /** The groups after a change. */
  function LastGroups(a: Action): map<string, seq<Ipv4>> {
    if a.Change? then Groups(a.addresses) else map[]
  }

  // ----- a service that shrinks

  const ON_A := Address(Some(Ipv4(1)), Some("a"))
  const ON_B := Address(Some(Ipv4(2)), Some("b"))

  function Two(): Action {
    Change("web", 30000, 80, true, Some([ON_A, ON_B]))
  }

  lemma FirstGroup(rest: seq<Address>)
    ensures Grouped(([ON_A] + rest)[..1]) == map["a" := [Ipv4(1)]]
  {
    var addresses := [ON_A] + rest;
    assert addresses[..0] == [] && addresses[0] == ON_A;
    assert Grouped([]) == map[];
    GroupNext(addresses, 0);
    hide Grouped;
    var none: seq<Ipv4> := [];
    assert none + [Ipv4(1)] == [Ipv4(1)];
    assert addresses[0].ip.Some? && addresses[0].nodename == Some("a");
  }

  lemma TwoGroups()
    ensures Groups(Some([ON_A, ON_B])) == map["a" := [Ipv4(1)], "b" := [Ipv4(2)]]
    ensures Groups(Some([ON_A])) == map["a" := [Ipv4(1)]] && Groups(None) == map[]
    ensures Announced(true, Some([ON_A, ON_B])) && !Announced(true, Some([ON_A])) && !Announced(true, None)
  {
    var addresses := [ON_A] + [ON_B];
    FirstGroup([]);
    FirstGroup([ON_B]);
    assert ([ON_A] + [])[..1] == [ON_A] && addresses == [ON_A, ON_B] && addresses[..2] == addresses;
    GroupNext(addresses, 1);
    hide Grouped;
    assert addresses[1] == ON_B && "b" !in map["a" := [Ipv4(1)]];
    var none: seq<Ipv4> := [];
    assert none + [Ipv4(2)] == [Ipv4(2)];
    assert Grouped(addresses) == map["a" := [Ipv4(1)]]["b" := [Ipv4(2)]];
    assert Grouped(addresses) == map["a" := [Ipv4(1)], "b" := [Ipv4(2)]];
    assert |map["a" := [Ipv4(1)]]| == 1;
    assert |map["a" := [Ipv4(1)], "b" := [Ipv4(2)]]| == 2;
  }

  function Web(): Service {
    Service("web", 30000, 80, map["a" := [Ipv4(1)], "b" := [Ipv4(2)]])
  }

  lemma ExecPrefix(p: Params, acts: seq<Action>, k: nat)
    requires k < |acts|
    ensures Exec(p, acts[..k + 1]) == Next(p, Exec(p, acts[..k]), acts[k])
  {
    assert acts[..k + 1][..k] == acts[..k];
    ExecNext(p, acts[..k + 1]);
    hide Exec, Next;
  }

  lemma StartOf(p: Params, acts: seq<Action>)
    ensures Exec(p, acts[..0]) == START
  {
  }

  lemma TwoStep(p: Params, s: System)
    ensures Next(p, s, Two()) ==
      Send(s.(current := s.current[30000 := Web().endpointsByNodename]), ServiceChanged(Web()), 0)
  {
    TwoGroups();
    assert Grouped([ON_A, ON_B]) == Web().endpointsByNodename;
    hide Grouped, Announced, Send;
  }

  lemma FewerStep(p: Params, s: System, fewer: Option<seq<Address>>)
    requires fewer == Some([ON_A]) || fewer == None
    ensures Next(p, s, Change("web", 30000, 80, true, fewer)) == s.(current := s.current[30000 := Groups(fewer)])
    ensures "b" !in Groups(fewer)
  {
    TwoGroups();
    hide Groups, Announced, Send;
  }

  /** A service that loses its second node, or all of its pods, keeps its old endpoints in the actor,
      although nothing was lost on the way. */
  lemma ShrinkingKeepsOldEndpoints(p: Params, fewer: Option<seq<Address>>)
    requires fewer == Some([ON_A]) || fewer == None
    ensures var s := Exec(p, [Two(), ActorReceive(0), Change("web", 30000, 80, true, fewer)]);
      && s.delivered == s.log && 30000 in s.actor.services && s.actor.services[30000] == Web()
      && 30000 in s.current && s.current[30000] == Groups(fewer) != Web().endpointsByNodename
  {
    hide Exec, Next, Groups, Send;
    var acts := [Two(), ActorReceive(0), Change("web", 30000, 80, true, fewer)];
    StartOf(p, acts);
    ExecPrefix(p, acts, 0);
    ExecPrefix(p, acts, 1);
    ExecPrefix(p, acts, 2);
    AnnouncedAndReceived(p);
    FewerStep(p, Exec(p, acts[..2]), fewer);
    assert acts[..3] == acts;
  }

  lemma AnnouncedAndReceived(p: Params)
    ensures var t := Next(p, Next(p, START, Two()), ActorReceive(0));
      t.log == t.delivered == [ServiceChanged(Web())] && t.actor.services == map[30000 := Web()]
  {
    TwoStep(p, START);
    hide Changed, LatencyMeasured, CpuMeasured, Groups;
    assert Next(p, START, Two()).log == [ServiceChanged(Web())];
  }
}
