/** What one pass of the first prober sends, in terms of the snapshots and averages it is given. */
module ReconcilerBatch {
  import opened Collections
  import opened Float64
  import opened SlotMap
  import opened SlotShares
  import opened Reconciler
  import opened ReconcilerProtocol

  // ----- which services are sent

  /** A service that runs on exactly one host needs three backends there; one on several hosts needs a scored
      host with a backend. */
  ghost predicate WorthSending(hosts: map<string, set<string>>, scored: set<string>) {
    if |hosts| == 1 then exists h | h in hosts :: h in scored && |hosts[h]| >= 3
    else exists h | h in hosts :: h in scored && |hosts[h]| >= 1
  }

  lemma OneHost(hosts: map<string, set<string>>, h: string)
    requires |hosts| == 1 && h in hosts
    ensures hosts.Keys == {h}
  {
    var rest := hosts.Keys - {h};
    assert |rest| == 0;
    assert hosts.Keys == rest + {h};
  }

  lemma EmitsIff(service: NftablesService, scored: set<string>)
    ensures Emits(service, scored) <==> !service.applied && WorthSending(service.endpointsByHost, scored)
  {
    var hosts := service.endpointsByHost;
    if |hosts| == 1 {
      if h :| h in hosts {
        OneHost(hosts, h);
      }
      assert hosts.Keys != {};
    }
    assert forall h | h in hosts :: hosts[h] != {} <==> |hosts[h]| >= 1;
  }

  /** A service is in the batch of a pass exactly when its snapshot is not applied yet and worth sending. */
  lemma BatchedIff(services: Services, lookup: map<string, F64>, batch: seq<RulePair>, name: string)
    requires BatchOf(services, lookup, batch) && name in services
    ensures (exists i | 0 <= i < |batch| :: batch[i].name == name) <==>
      !services[name].applied && WorthSending(services[name].endpointsByHost, lookup.Keys)
  {
    EmitsIff(services[name], lookup.Keys);
    hide Emits, WorthSending, RangesOf;
    assert InBatch(batch, name) <==> exists i | 0 <= i < |batch| :: batch[i].name == name;
    if i :| 0 <= i < |batch| && batch[i].name == name {
      assert PairOf(services, lookup, batch[i]);
    }
  }

  /** An accepted pass sends the snapshot inserted at step `i` exactly when it is the first one since, no newer
      snapshot came, and the snapshot is worth sending. */
  lemma SentIff(acts: seq<Act>, i: int, k: int)
    requires 0 <= i < k < |acts| && acts[i].Insert?
    ensures Contributes(acts, i, k) <==>
      && FirstEffective(acts, i, k) && StillHeld(acts, i, k)
      && WorthSending(acts[i].hosts, Scored(After(acts[..k]), acts[k].cpu, acts[k].latency))
  {
    ContributesIff(acts, i, k);
    if acts[k].Reconcile? {
      EmitsIff(NftablesService("", 0, false, acts[i].hosts), Scored(After(acts[..k]), acts[k].cpu, acts[k].latency));
    }
    hide Contributes, StillHeld, Scored, After, WorthSending, Emits;
  }

  /** The smallest service that is sent: two backends on its only host are left alone, three are not. */
  lemma ThreeBackendsNeeded(lookup: map<string, F64>, two: seq<RulePair>, three: seq<RulePair>)
    requires "a" in lookup
    requires BatchOf(map["web" := NftablesService("", 0, false, map["a" := {"x", "y"}])], lookup, two)
    requires BatchOf(map["web" := NftablesService("", 0, false, map["a" := {"x", "y", "z"}])], lookup, three)
    ensures two == [] && |three| == 1 && three[0].name == "web"
  {
    hide RangesOf, Emits, WorthSending;
    var small := map["web" := NftablesService("", 0, false, map["a" := {"x", "y"}])];
    var large := map["web" := NftablesService("", 0, false, map["a" := {"x", "y", "z"}])];
    SingleHost("a", {"x", "y"}, lookup);
    SingleHost("a", {"x", "y", "z"}, lookup);
    assert |{"x", "y"}| == 2 && |{"x", "y", "z"}| == 3;
    OnlyService(small, "web", lookup, two);
    OnlyService(large, "web", lookup, three);
  }

  /** A pass over a single service. */
  lemma OnlyService(services: Services, name: string, lookup: map<string, F64>, batch: seq<RulePair>)
    requires services.Keys == {name} && BatchOf(services, lookup, batch)
    ensures |batch| <= 1 && forall i | 0 <= i < |batch| :: batch[i].name == name
    ensures |batch| == 1 <==> !services[name].applied && WorthSending(services[name].endpointsByHost, lookup.Keys)
  {
    hide RangesOf, Emits, WorthSending;
    forall i | 0 <= i < |batch| ensures batch[i].name == name {
      assert PairOf(services, lookup, batch[i]);
    }
    if batch != [] {
      var names := seq(|batch|, i requires 0 <= i < |batch| => batch[i].name);
      assert names[0] == name;
      EnumerationLength(names, {name});
    }
    BatchedIff(services, lookup, batch, name);
  }

  lemma SingleHost(h: string, backends: set<string>, lookup: map<string, F64>)
    requires h in lookup
    ensures WorthSending(map[h := backends], lookup.Keys) <==> |backends| >= 3
  {
    assert map[h := backends].Keys == {h};
  }

  // ----- when a pass builds nothing, and what overflows

  /** A host of some service. */
  ghost predicate Known(services: Services, h: string) {
    exists n | n in services :: h in services[n].endpointsByHost
  }

  /** A pass is skipped when no known host has a cpu average, or none has a latency average. */
  lemma SkippedIff(services: Services, cpu: map<string, real>, latency: map<string, real>)
    ensures NothingMeasured(services, cpu, latency) <==>
      || (forall h | h in cpu :: !Known(services, h))
      || (forall h | h in latency :: !Known(services, h))
  {
    forall h ensures Known(services, h) <==> h in Hostnames(services) {
    }
    assert forall h | h in Hostnames(services) * cpu.Keys :: h in cpu && Known(services, h);
    assert forall h | h in cpu && Known(services, h) :: h in Hostnames(services) * cpu.Keys;
    assert forall h | h in Hostnames(services) * latency.Keys :: h in latency && Known(services, h);
    assert forall h | h in latency && Known(services, h) :: h in Hostnames(services) * latency.Keys;
  }

  predicate Tiny(service: NftablesService) {
    |service.endpointsByHost| == 1 && exists h | h in service.endpointsByHost :: |service.endpointsByHost[h]| <= 2
  }

  /** An overflow comes from a service that is not applied, and not on a single host with fewer than three
      backends. */
  lemma OverflowOrigin(services: Services, lookup: map<string, F64>)
    ensures SomeOverflow(services, lookup) <==>
      exists n | n in services :: !services[n].applied && !Tiny(services[n]) && MayOverflow(services[n], lookup)
  {
    forall n | n in services ensures TooSmall(services[n]) <==> Tiny(services[n]) {
    }
    hide MayOverflow, TooSmall, Tiny;
  }

  // ----- scores

  /** The sums of both averages, host by host. */
  function Averages(hosts: seq<string>, cpu: map<string, real>, latency: map<string, real>): (sums: seq<real>)
    requires forall k | 0 <= k < |hosts| :: hosts[k] in cpu && hosts[k] in latency
    ensures |sums| == |hosts|
  {
    seq(|hosts|, k requires 0 <= k < |hosts| => cpu[hosts[k]] + latency[hosts[k]])
  }

  lemma {:induction false} OrderedSumIs(hosts: seq<string>, cpu: map<string, real>, latency: map<string, real>)
    requires forall k | 0 <= k < |hosts| :: hosts[k] in cpu && hosts[k] in latency
    ensures OrderedSum(hosts, cpu, latency) == Sum(Averages(hosts, cpu, latency))
    decreases |hosts|
  {
    if hosts != [] {
      var n := |hosts| - 1;
      OrderedSumIs(hosts[..n], cpu, latency);
      assert Averages(hosts, cpu, latency)[..n] == Averages(hosts[..n], cpu, latency);
    }
  }

  /** Exactly the known hosts with both averages are scored, each with the sum of its averages divided by the sum
      over all of them. */
  lemma ScoresOfPass(services: Services, cpu: map<string, real>, latency: map<string, real>, lookup: map<string, F64>,
                     hosts: seq<string>, h: string)
    requires LookupOf(services, cpu, latency, lookup) && Enumerates(hosts, lookup.Keys)
    ensures h in lookup <==> Known(services, h) && h in cpu && h in latency
    ensures forall k | 0 <= k < |hosts| :: hosts[k] in cpu && hosts[k] in latency
    ensures h in lookup && Sum(Averages(hosts, cpu, latency)) != 0.0 ==>
      lookup[h] == Fin((cpu[h] + latency[h]) / Sum(Averages(hosts, cpu, latency)))
  {
    assert h in Scored(services, cpu, latency) <==> Known(services, h) && h in cpu && h in latency;
    forall k | 0 <= k < |hosts| ensures hosts[k] in cpu && hosts[k] in latency {
      assert hosts[k] in lookup;
    }
    OrderedSumIs(hosts, cpu, latency);
    SumInAnyOrder(hosts, lookup.Keys, cpu, latency);
    var total := Sum(Averages(hosts, cpu, latency));
    hide Averages, Sum, ScoreSum, OrderedSum, Scored, Known;
    if h in lookup && total != 0.0 {
      QuotientOf(cpu[h] + latency[h], total);
    }
  }

  lemma QuotientOf(x: real, y: real)
    requires y != 0.0
    ensures Div(Fin(x), Fin(y)) == Fin(x / y)
  {
  }

  /** The slots of each of `n` backends of a host with share `s`: its percentage divided among them, rounded down. */
  lemma SlotsEach(s: real, n: nat)
    requires n >= 1 && 0.0 <= s && s * 100.0 / n as real < 4294967296.0
    ensures PortionEach(Fin(s), n) == (s * 100.0 / n as real).Floor
  {
    var x := s * 100.0 / n as real;
    assert x >= 0.0;
    assert Div(Mul(Fin(s), Fin(100.0)), Fin(n as real)) == Fin(x);
    hide Div, Mul;
    FloorCast(x);
  }

  lemma FloorCast(x: real)
    requires 0.0 <= x < 4294967296.0
    ensures CastU32(Floor(Fin(x))) == x.Floor
  {
    assert 0 <= x.Floor < 4294967296;
    assert (x.Floor as real).Floor == x.Floor;
  }

  /** The modulus of a rule is a `u32`, and its first range is not empty. */
  lemma RuleFits(service: NftablesService, lookup: map<string, F64>, verdicts: seq<Slot<string>>, modulo: nat)
    requires RangesOf(service, lookup, verdicts, modulo)
    ensures modulo <= 4294967295
    ensures verdicts != [] ==> verdicts[0].lo == 0 <= verdicts[0].hi
  {
    var hosts: seq<HostRow> :| VisitsHosts(service, hosts) && RangesAlong(hosts, lookup, verdicts, modulo);
    hide VisitsHosts;
    FirstRange(Rows(hosts, lookup));
  }

  lemma {:induction false} FirstRange(rows: seq<Row>)
    ensures rows != [] ==> Ranges(rows) != [] && Ranges(rows)[0].lo == 0 && Ranges(rows)[0].hi == rows[0].width - 1
    ensures rows == [] ==> Ranges(rows) == []
    decreases |rows|
  {
    if |rows| == 1 {
      assert rows[..0] == [];
    } else if rows != [] {
      FirstRange(rows[..|rows| - 1]);
    }
  }
}
