/** The first prober's reconciler: unapplied service snapshots become Delete+Add rule pairs whose
    verdict maps give every backend a share of 100 slots proportional to its host's score. */
module Reconciler {
  import opened Collections
  import opened Float64
  import opened SlotMap

  /** What the watcher stores for a service; `applied` is cleared by every insert. */
  datatype NftablesService = NftablesService(id: string, vmapHandle: nat, applied: bool,
                                             endpointsByHost: map<string, set<string>>)

  type Services = map<string, NftablesService>

  /** A Delete command and the Add command that replaces the rule. */
  datatype RulePair = RulePair(name: string, id: string, handle: nat, modulo: nat, verdicts: seq<Slot<string>>)

  /** How a pass ends.  `Overflowed` is `u32` arithmetic leaving its range: a panic with overflow checks,
      a wrap-around without. */
  datatype Result = Skipped | Overflowed | Attempted(batch: seq<RulePair>, applied: bool)

  // ----- one service's ranges

  datatype HostRow = HostRow(host: string, backends: seq<string>)

  datatype Row = Row(backend: string, width: nat)

  /** `(percentage * 100 / backends).floor() as u32`. */
  function PortionEach(percentage: F64, backends: nat): nat {
    CastU32(Floor(Div(Mul(percentage, Fin(100.0)), Fin(backends as real))))
  }

  /** Slots of a whole host. */
  function HostTotal(percentage: F64, backends: nat): nat {
    PortionEach(percentage, backends) * backends
  }

  /** The backends of scored hosts with the width of their ranges; other hosts are left out. */
  function Rows(hosts: seq<HostRow>, lookup: map<string, F64>): seq<Row> {
    if hosts == [] then []
    else Rows(hosts[..|hosts| - 1], lookup) + HostRows(hosts[|hosts| - 1], lookup)
  }

  function HostRows(h: HostRow, lookup: map<string, F64>): seq<Row> {
    if h.host in lookup then EqualRows(h.backends, PortionEach(lookup[h.host], |h.backends|)) else []
  }

  function EqualRows(backends: seq<string>, each: nat): seq<Row> {
    seq(|backends|, i requires 0 <= i < |backends| => Row(backends[i], each))
  }

  function Total(rows: seq<Row>): nat {
    if rows == [] then 0 else Total(rows[..|rows| - 1]) + rows[|rows| - 1].width
  }

  /** The upper bound `start + width - 1` of the first range falls below 0. */
  predicate Underflows(rows: seq<Row>) {
    rows != [] && rows[0].width == 0
  }

  /** Some `u32` operation on the way does not fit. */
  predicate Overflows(rows: seq<Row>) {
    Underflows(rows) || Total(rows) > U32_MAX
  }

  /** The verdict map; a width of 0 makes the upper bound fall below the lower one. */
  function Ranges(rows: seq<Row>): seq<Slot<string>> {
    if rows == [] then []
    else
      var init, last := rows[..|rows| - 1], rows[|rows| - 1];
      Ranges(init) + [Slot(Total(init), Total(init) + last.width - 1, last.backend)]
  }

  ghost predicate VisitsHosts(service: NftablesService, hosts: seq<HostRow>) {
    && |hosts| == |service.endpointsByHost.Keys|
    && Enumerates(HostNames(hosts), service.endpointsByHost.Keys)
    && forall i | 0 <= i < |hosts| :: BackendsOf(service, hosts[i])
  }

  ghost predicate BackendsOf(service: NftablesService, h: HostRow) {
    h.host in service.endpointsByHost && Enumerates(h.backends, service.endpointsByHost[h.host])
  }

  function HostNames(hosts: seq<HostRow>): (names: seq<string>)
    ensures |names| == |hosts|
  {
    seq(|hosts|, i requires 0 <= i < |hosts| => hosts[i].host)
  }

  /** These are the ranges of the service for some order of its hosts and of their backends. */
  ghost predicate RangesOf(service: NftablesService, lookup: map<string, F64>, verdicts: seq<Slot<string>>,
                           modulo: nat) {
    exists hosts :: VisitsHosts(service, hosts) && RangesAlong(hosts, lookup, verdicts, modulo)
  }

  ghost predicate RangesAlong(hosts: seq<HostRow>, lookup: map<string, F64>, verdicts: seq<Slot<string>>, modulo: nat) {
    var rows := Rows(hosts, lookup);
    !Overflows(rows) && verdicts == Ranges(rows) && modulo == Total(rows)
  }

  /** For some order of its hosts the arithmetic of the service overflows. */
  ghost predicate MayOverflow(service: NftablesService, lookup: map<string, F64>) {
    exists hosts :: VisitsHosts(service, hosts) && Overflows(Rows(hosts, lookup))
  }

  /** The first hosts of an order, visited. */
  ghost predicate VisitsFirst(service: NftablesService, names: seq<string>, hosts: seq<HostRow>) {
    && |hosts| <= |names| && HostNames(hosts) == names[..|hosts|]
    && forall k | 0 <= k < |hosts| :: BackendsOf(service, hosts[k])
  }

  /** The hosts not visited yet, in the given order, with their backends in any order. */
  ghost function RestOf(service: NftablesService, names: seq<string>): (hosts: seq<HostRow>)
    requires forall k | 0 <= k < |names| :: names[k] in service.endpointsByHost
    ensures HostNames(hosts) == names && forall k | 0 <= k < |hosts| :: BackendsOf(service, hosts[k])
  {
    seq(|names|, k requires 0 <= k < |names| => HostRow(names[k], AnOrder(service.endpointsByHost[names[k]])))
  }

  lemma CompleteVisit(service: NftablesService, names: seq<string>, hosts: seq<HostRow>)
    returns (all: seq<HostRow>)
    requires Enumerates(names, service.endpointsByHost.Keys) && VisitsFirst(service, names, hosts)
    ensures VisitsHosts(service, all) && hosts <= all
  {
    var rest := names[|hosts|..];
    forall k | 0 <= k < |rest| ensures rest[k] in service.endpointsByHost {
      assert names[|hosts| + k] in names;
    }
    all := hosts + RestOf(service, rest);
    assert HostNames(all) == names;
    EnumerationLength(names, service.endpointsByHost.Keys);
  }

  /** What has overflowed stays so. */
  lemma {:induction false} OverflowsOn(hosts: seq<HostRow>, all: seq<HostRow>, lookup: map<string, F64>)
    requires hosts <= all && Overflows(Rows(hosts, lookup))
    ensures Overflows(Rows(all, lookup))
    decreases |all|
  {
    if hosts != all {
      var init := all[..|all| - 1];
      OverflowsOn(hosts, init, lookup);
      RowsConcat(Rows(init, lookup), HostRows(all[|all| - 1], lookup));
    }
  }

  lemma OverflowsNow(service: NftablesService, names: seq<string>, hosts: seq<HostRow>,
                     lookup: map<string, F64>)
    requires Enumerates(names, service.endpointsByHost.Keys) && VisitsFirst(service, names, hosts)
    requires Overflows(Rows(hosts, lookup))
    ensures MayOverflow(service, lookup)
  {
    var all := CompleteVisit(service, names, hosts);
    hide Rows, Overflows, VisitsHosts, VisitsFirst;
    OverflowsOn(hosts, all, lookup);
  }

  /** The host loop: all `u32` operations are checked where the source performs them. */
  method DistributeService(service: NftablesService, lookup: map<string, F64>)
    returns (overflowed: bool, verdicts: seq<Slot<string>>, modulo: nat)
    ensures overflowed ==> MayOverflow(service, lookup)
    ensures !overflowed ==> RangesOf(service, lookup, verdicts, modulo)
  {
    var names := HashOrder(service.endpointsByHost.Keys);
    EnumerationLength(names, service.endpointsByHost.Keys);
    overflowed, verdicts, modulo := false, [], 0;
    ghost var hosts: seq<HostRow> := [];
    var startRange := 0;
    for i := 0 to |names|
      invariant |hosts| == i && VisitsFirst(service, names, hosts)
      invariant RangesAlong(hosts, lookup, verdicts, modulo) && modulo == startRange
    {
      assert names[i] in service.endpointsByHost.Keys;
      var backends := HashOrder(service.endpointsByHost[names[i]]);
      ghost var h := HostRow(names[i], backends);
      NextHost(service, names, hosts, h);
      HostAdded(hosts, h, lookup);
      hide Rows, VisitsFirst, MayOverflow, Ranges, Total, Enumerates;
      if names[i] in lookup {
        var portionEach := PortionEach(lookup[names[i]], |backends|);
        if modulo + portionEach * |backends| > U32_MAX {
          OverflowsNow(service, names, hosts + [h], lookup);
          return true, verdicts, modulo;
        }
        var under, more, next := DistributeHost(backends, portionEach, startRange, Rows(hosts, lookup));
        if under {
          OverflowsNow(service, names, hosts + [h], lookup);
          return true, verdicts, modulo;
        }
        verdicts, startRange := verdicts + more, next;
        modulo := modulo + portionEach * |backends|;
      }
      hosts := hosts + [h];
    }
    assert VisitsHosts(service, hosts) by {
      assert names[..|names|] == names;
    }
  }

  lemma NextHost(service: NftablesService, names: seq<string>, hosts: seq<HostRow>, h: HostRow)
    requires VisitsFirst(service, names, hosts) && |hosts| < |names|
    requires h.host == names[|hosts|] && BackendsOf(service, h)
    ensures VisitsFirst(service, names, hosts + [h])
  {
    assert HostNames(hosts + [h]) == HostNames(hosts) + [h.host];
    assert names[..|hosts| + 1] == names[..|hosts|] + [h.host];
  }

  /** What one more host adds to the rows and to their total. */
  lemma HostAdded(hosts: seq<HostRow>, h: HostRow, lookup: map<string, F64>)
    ensures h.host in lookup ==>
      var each := PortionEach(lookup[h.host], |h.backends|);
      && Rows(hosts + [h], lookup) == Rows(hosts, lookup) + EqualRows(h.backends, each)
      && Total(Rows(hosts + [h], lookup)) == Total(Rows(hosts, lookup)) + HostTotal(lookup[h.host], |h.backends|)
    ensures h.host !in lookup ==> Rows(hosts + [h], lookup) == Rows(hosts, lookup)
  {
    assert (hosts + [h])[..|hosts|] == hosts;
    if h.host in lookup {
      var each := PortionEach(lookup[h.host], |h.backends|);
      RowsConcat(Rows(hosts, lookup), EqualRows(h.backends, each));
      EqualRowsTotal(h.backends, each);
    }
  }

  lemma NextRow(before: seq<Row>, rows: seq<Row>, i: nat)
    requires i < |rows|
    ensures Total(before + rows[..i + 1]) == Total(before + rows[..i]) + rows[i].width
    ensures Ranges(before + rows[..i + 1]) == Ranges(before + rows[..i])
      + [Slot(Total(before + rows[..i]), Total(before + rows[..i]) + rows[i].width - 1, rows[i].backend)]
  {
    var next := before + rows[..i + 1];
    assert next[..|next| - 1] == before + rows[..i] && next[|next| - 1] == rows[i];
  }

  lemma {:induction false} EqualRowsTotal(backends: seq<string>, each: nat)
    ensures Total(EqualRows(backends, each)) == each * |backends|
    decreases |backends|
  {
    if backends != [] {
      EqualRowsTotal(backends[..|backends| - 1], each);
      assert EqualRows(backends, each)[..|backends| - 1] == EqualRows(backends[..|backends| - 1], each);
      assert each * |backends| == each * (|backends| - 1) + each;
    }
  }

  lemma {:induction false} NothingYet(rows: seq<Row>)
    requires !Underflows(rows)
    ensures Total(rows) == 0 <==> rows == []
    decreases |rows|
  {
    if |rows| > 1 {
      NothingYet(rows[..|rows| - 1]);
    } else if |rows| == 1 {
      assert rows[..0] == [];
    }
  }

  /** The innermost loop: one range per backend of a host, unless the upper bound of one falls below 0. */
  method DistributeHost(backends: seq<string>, portionEach: nat, start: nat, ghost before: seq<Row>)
    returns (under: bool, more: seq<Slot<string>>, next: nat)
    requires start == Total(before) && !Underflows(before)
    ensures under <==> Underflows(before + EqualRows(backends, portionEach))
    ensures !under ==> Ranges(before + EqualRows(backends, portionEach)) == Ranges(before) + more
    ensures !under ==> next == Total(before + EqualRows(backends, portionEach))
  {
    under, more, next := false, [], start;
    ghost var rows := EqualRows(backends, portionEach);
    NothingYet(before);
    assert before + rows[..0] == before;
    assert rows[..|backends|] == rows;
    hide Ranges, Total, EqualRows;
    for i := 0 to |backends|
      invariant i == 0 || portionEach > 0 || start > 0
      invariant Ranges(before + rows[..i]) == Ranges(before) + more
      invariant next == Total(before + rows[..i]) && next >= start
    {
      NextRow(before, rows, i);
      if next + portionEach == 0 {
        return true, more, next;
      }
      more := more + [Slot(next, next + portionEach - 1, backends[i])];
      next := next + portionEach;
    }
  }

  lemma {:induction false} RowsConcat(a: seq<Row>, b: seq<Row>)
    ensures Total(a + b) == Total(a) + Total(b)
    ensures Ranges(a) <= Ranges(a + b)
    decreases |b|
  {
    if b == [] {
      assert a + b == a;
    } else {
      assert (a + b)[..|a + b| - 1] == a + b[..|b| - 1];
      RowsConcat(a, b[..|b| - 1]);
    }
  }

  // ----- the reconcile pass

  function Hostnames(services: Services): set<string> {
    set n, h | n in services && h in services[n].endpointsByHost :: h
  }

  /** Hosts of some service that have both averages. */
  function Scored(services: Services, cpu: map<string, real>, latency: map<string, real>): set<string> {
    set h | h in Hostnames(services) && h in cpu && h in latency
  }

  /** One of the two averages is unknown for every host: the pass ends before building a batch. */
  predicate NothingMeasured(services: Services, cpu: map<string, real>, latency: map<string, real>) {
    Hostnames(services) * cpu.Keys == {} || Hostnames(services) * latency.Keys == {}
  }

  /** A service on a single host with fewer than three backends is left alone. */
  predicate TooSmall(service: NftablesService) {
    |service.endpointsByHost| == 1
    && exists h | h in service.endpointsByHost :: |service.endpointsByHost[h]| < 3
  }

  /** The pass builds a rule pair for this service. */
  predicate Emits(service: NftablesService, scored: set<string>) {
    && !service.applied && !TooSmall(service)
    && exists h | h in service.endpointsByHost :: h in scored && service.endpointsByHost[h] != {}
  }

  function AllApplied(services: Services): Services {
    map n | n in services :: services[n].(applied := true)
  }

  function Inserted(services: Services, name: string, id: string, handle: nat,
                    hosts: map<string, set<string>>): Services {
    services[name := NftablesService(id, handle, false, hosts)]
  }

  function Reconciled(services: Services, cpu: map<string, real>, latency: map<string, real>, applyOk: bool): Services {
    if !NothingMeasured(services, cpu, latency) && applyOk then AllApplied(services) else services
  }

  /** Exactly the emitting services, once each, with their current rule handle and ranges. */
  ghost predicate BatchOf(services: Services, lookup: map<string, F64>, batch: seq<RulePair>) {
    && (forall i, j | 0 <= i < j < |batch| :: batch[i].name != batch[j].name)
    && (forall i | 0 <= i < |batch| :: PairOf(services, lookup, batch[i]))
    && (forall n | n in services && Emits(services[n], lookup.Keys) :: InBatch(batch, n))
  }

  /** The arithmetic of some service that is neither applied nor small can overflow. */
  ghost predicate SomeOverflow(services: Services, lookup: map<string, F64>) {
    exists n | n in services :: !services[n].applied && !TooSmall(services[n]) && MayOverflow(services[n], lookup)
  }

  predicate InBatch(batch: seq<RulePair>, name: string) {
    exists i | 0 <= i < |batch| :: batch[i].name == name
  }

  ghost predicate PairOf(services: Services, lookup: map<string, F64>, pair: RulePair) {
    && pair.name in services && Emits(services[pair.name], lookup.Keys)
    && pair.id == services[pair.name].id && pair.handle == services[pair.name].vmapHandle
    && pair.verdicts != [] && RangesOf(services[pair.name], lookup, pair.verdicts, pair.modulo)
  }

  /** The batch after the first `i` services of the visiting order. */
  ghost predicate BatchUpTo(services: Services, lookup: map<string, F64>, names: seq<string>, i: nat,
                            batch: seq<RulePair>) {
    && i <= |names|
    && (forall j, k | 0 <= j < k < |batch| :: batch[j].name != batch[k].name)
    && (forall k | 0 <= k < |batch| :: PairOf(services, lookup, batch[k]) && batch[k].name in names[..i])
    && (forall j | 0 <= j < i ::
      names[j] in services && Emits(services[names[j]], lookup.Keys) ==> InBatch(batch, names[j]))
  }

  lemma BatchPasses(services: Services, lookup: map<string, F64>, names: seq<string>, i: nat, batch: seq<RulePair>)
    requires BatchUpTo(services, lookup, names, i, batch) && i < |names| && names[i] in services
    requires !Emits(services[names[i]], lookup.Keys)
    ensures BatchUpTo(services, lookup, names, i + 1, batch)
  {
    hide Emits, PairOf, InBatch;
    assert names[..i + 1] == names[..i] + [names[i]];
  }

  lemma BatchTakes(services: Services, lookup: map<string, F64>, names: seq<string>, i: nat, batch: seq<RulePair>,
                   pair: RulePair)
    requires BatchUpTo(services, lookup, names, i, batch) && i < |names|
    requires forall j, k | 0 <= j < k < |names| :: names[j] != names[k]
    requires pair.name == names[i] && PairOf(services, lookup, pair)
    ensures BatchUpTo(services, lookup, names, i + 1, batch + [pair])
  {
    hide Emits, PairOf, RangesOf;
    assert names[..i + 1] == names[..i] + [names[i]];
    var more := batch + [pair];
    assert more[|batch|].name == names[i];
    forall j | 0 <= j < i && InBatch(batch, names[j]) ensures InBatch(more, names[j]) {
      var k :| 0 <= k < |batch| && batch[k].name == names[j];
      assert more[k].name == names[j];
    }
  }

  lemma BatchComplete(services: Services, lookup: map<string, F64>, names: seq<string>, batch: seq<RulePair>)
    requires BatchUpTo(services, lookup, names, |names|, batch) && Enumerates(names, services.Keys)
    ensures BatchOf(services, lookup, batch)
  {
    hide Emits, PairOf, InBatch;
    forall n | n in services && Emits(services[n], lookup.Keys) ensures InBatch(batch, n) {
      assert n in names;
      var j :| 0 <= j < |names| && names[j] == n;
    }
  }

  /** A verdict map is empty exactly when no scored host of the service has a backend. */
  lemma RangesEmpty(service: NftablesService, lookup: map<string, F64>,
                    verdicts: seq<Slot<string>>, modulo: nat)
    requires RangesOf(service, lookup, verdicts, modulo)
    ensures verdicts != [] <==>
      exists h | h in service.endpointsByHost :: h in lookup.Keys && service.endpointsByHost[h] != {}
  {
    var hosts: seq<HostRow> :| VisitsHosts(service, hosts) && RangesAlong(hosts, lookup, verdicts, modulo);
    hide Ranges, Rows, Total, Overflows;
    RowsNonEmpty(hosts, lookup);
    forall i | 0 <= i < |hosts|
      ensures BackendsOf(service, hosts[i])
      ensures hosts[i].backends != [] <==> service.endpointsByHost[hosts[i].host] != {}
    {
      EnumerationLength(hosts[i].backends, service.endpointsByHost[hosts[i].host]);
    }
    if h :| h in service.endpointsByHost && h in lookup.Keys && service.endpointsByHost[h] != {} {
      assert h in HostNames(hosts);
      var i :| 0 <= i < |hosts| && HostNames(hosts)[i] == h;
      assert hosts[i].host == h;
    }
  }

  lemma {:induction false} RowsNonEmpty(hosts: seq<HostRow>, lookup: map<string, F64>)
    ensures Ranges(Rows(hosts, lookup)) != [] <==>
      exists i | 0 <= i < |hosts| :: hosts[i].host in lookup && hosts[i].backends != []
    decreases |hosts|
  {
    if hosts != [] {
      var init := hosts[..|hosts| - 1];
      RowsNonEmpty(init, lookup);
      RowsConcat(Rows(init, lookup), HostRows(hosts[|hosts| - 1], lookup));
      RangesLength(Rows(hosts, lookup));
      RangesLength(Rows(init, lookup));
      assert forall i | 0 <= i < |init| :: init[i] == hosts[i];
    }
  }

  lemma {:induction false} RangesLength(rows: seq<Row>)
    ensures |Ranges(rows)| == |rows|
    decreases |rows|
  {
    if rows != [] {
      RangesLength(rows[..|rows| - 1]);
    }
  }

  /** The shared, locked map of service snapshots, and the two tasks that use it. */
  class SharedServices {
    var services: Services

    constructor ()
      ensures services == map[]
    {
      services := map[];
    }

    /** The watcher's insert of a freshly read service chain. */
    method Insert(name: string, id: string, handle: nat, hosts: map<string, set<string>>)
      modifies this
      ensures services == Inserted(old(services), name, id, handle, hosts)
    {
      services := services[name := NftablesService(id, handle, false, hosts)];
    }

    /** One `reconcile` under the lock; `applyOk` tells whether nftables accepted the batch. */
    method Reconcile(cpu: map<string, real>, latency: map<string, real>, applyOk: bool) returns (result: Result)
      modifies this
      ensures result == Skipped <==> NothingMeasured(old(services), cpu, latency)
      ensures result.Attempted? ==> result.applied == applyOk
      ensures result.Attempted? ==> exists lookup ::
        LookupOf(old(services), cpu, latency, lookup) && BatchOf(old(services), lookup, result.batch)
      ensures result == Overflowed ==> exists lookup ::
        LookupOf(old(services), cpu, latency, lookup) && SomeOverflow(old(services), lookup)
      ensures services == Reconciled(old(services), cpu, latency, applyOk && result != Overflowed)
    {
      var measured, lookup := MeasureHosts(cpu, latency);
      if !measured {
        return Skipped;
      }
      hide SomeOverflow, BatchOf, NothingMeasured, LookupOf;
      var overflowed, batch := BuildBatch(lookup);
      if overflowed {
        return Overflowed;
      }
      if applyOk {
        services := map n | n in services :: services[n].(applied := true);
      }
      return Attempted(batch, applyOk);
    }

    /** The averages of the known hosts, and their normalised scores unless one kind is missing altogether. */
    method MeasureHosts(cpu: map<string, real>, latency: map<string, real>)
      returns (measured: bool, lookup: map<string, F64>)
      ensures measured <==> !NothingMeasured(services, cpu, latency)
      ensures measured ==> LookupOf(services, cpu, latency, lookup)
    {
      var hostnames := CollectHostnames();
      var cpuByHost := map h | h in cpu && h in hostnames :: cpu[h];
      var latencyByHost := map h | h in latency && h in hostnames :: latency[h];
      assert cpuByHost.Keys == hostnames * cpu.Keys && latencyByHost.Keys == hostnames * latency.Keys;
      if cpuByHost == map[] || latencyByHost == map[] {
        return false, map[];
      }
      assert cpuByHost.Keys != {} && latencyByHost.Keys != {};
      lookup := ScoreHosts(hostnames, cpuByHost, latencyByHost);
      measured := true;
      assert lookup.Keys == Scored(services, cpu, latency);
      RetainedScores(lookup, cpu, latency, cpuByHost, latencyByHost);
    }

    method CollectHostnames() returns (hostnames: set<string>)
      ensures hostnames == Hostnames(services)
    {
      hostnames := {};
      var names := HashOrder(services.Keys);
      for i := 0 to |names|
        invariant forall h :: h in hostnames <==>
          exists k | 0 <= k < i :: names[k] in services && h in services[names[k]].endpointsByHost
      {
        assert names[i] in services.Keys;
        hostnames := hostnames + services[names[i]].endpointsByHost.Keys;
      }
      assert hostnames == Hostnames(services) by {
        forall n, h | n in services && h in services[n].endpointsByHost ensures h in hostnames {
          assert n in names;
        }
      }
    }

    /** The loop over all services: skip the applied, the small and the unscored; batch the rest. */
    method BuildBatch(lookup: map<string, F64>) returns (overflowed: bool, batch: seq<RulePair>)
      ensures overflowed ==> SomeOverflow(services, lookup)
      ensures !overflowed ==> BatchOf(services, lookup, batch)
    {
      overflowed, batch := false, [];
      var names := HashOrder(services.Keys);
      assert BatchUpTo(services, lookup, names, 0, []);
      for i := 0 to |names|
        invariant BatchUpTo(services, lookup, names, i, batch)
      {
        hide BatchUpTo, RangesOf, MayOverflow;
        assert names[i] in services.Keys;
        var service := services[names[i]];
        var emitted := false;
        if !service.applied && !TooSmall(service) {
          var over, verdicts, modulo := DistributeService(service, lookup);
          if over {
            return true, batch;
          }
          RangesEmpty(service, lookup, verdicts, modulo);
          if verdicts != [] {
            emitted := true;
            var pair := RulePair(names[i], service.id, service.vmapHandle, modulo, verdicts);
            BatchTakes(services, lookup, names, i, batch, pair);
            batch := batch + [pair];
          }
        }
        if !emitted {
          BatchPasses(services, lookup, names, i, batch);
        }
      }
      BatchComplete(services, lookup, names, batch);
    }
  }

  /** Sum and normalisation of the host scores. */
  method ScoreHosts(hostnames: set<string>, cpu: map<string, real>, latency: map<string, real>)
    returns (lookup: map<string, F64>)
    ensures lookup.Keys == set h | h in hostnames && h in cpu && h in latency
    ensures Normalised(lookup, cpu, latency)
  {
    hide Div, ScoreSum;
    var scores: map<string, real> := map h | h in hostnames && h in cpu && h in latency :: HostScore(h, cpu, latency);
    var total := SumScores(scores, cpu, latency);
    lookup := map h | h in scores :: Div(Fin(scores[h]), Fin(total));
    assert lookup.Keys == scores.Keys;
  }

  method SumScores(scores: map<string, real>, ghost cpu: map<string, real>, ghost latency: map<string, real>)
    returns (total: real)
    requires forall h | h in scores :: scores[h] == HostScore(h, cpu, latency)
    ensures total == ScoreSum(scores.Keys, cpu, latency)
  {
    hide HostScore;
    var order := HashOrder(scores.Keys);
    total := 0.0;
    for i := 0 to |order|
      invariant total == OrderedSum(order[..i], cpu, latency)
    {
      assert order[..i + 1][..i] == order[..i];
      assert order[i] in scores.Keys;
      total := total + scores[order[i]];
    }
    assert order[..|order|] == order;
    SumInAnyOrder(order, scores.Keys, cpu, latency);
  }

  function HostScore(h: string, cpu: map<string, real>, latency: map<string, real>): real {
    (if h in cpu then cpu[h] else 0.0) + (if h in latency then latency[h] else 0.0)
  }

  function OrderedSum(order: seq<string>, cpu: map<string, real>, latency: map<string, real>): real {
    if order == [] then 0.0
    else OrderedSum(order[..|order| - 1], cpu, latency) + HostScore(order[|order| - 1], cpu, latency)
  }

  /** The total score of a set of hosts. */
  ghost function ScoreSum(hosts: set<string>, cpu: map<string, real>, latency: map<string, real>): real {
    if hosts == {} then 0.0
    else
      var h :| h in hosts;
      ScoreSum(hosts - {h}, cpu, latency) + HostScore(h, cpu, latency)
  }

  lemma {:induction false} SumWithout(hosts: set<string>, x: string, cpu: map<string, real>, latency: map<string, real>)
    requires x in hosts
    ensures ScoreSum(hosts, cpu, latency) == ScoreSum(hosts - {x}, cpu, latency) + HostScore(x, cpu, latency)
    decreases hosts
  {
    var h :| h in hosts
      && ScoreSum(hosts, cpu, latency) == ScoreSum(hosts - {h}, cpu, latency) + HostScore(h, cpu, latency);
    if h != x {
      SumWithout(hosts - {h}, x, cpu, latency);
      SumWithout(hosts - {x}, h, cpu, latency);
      assert hosts - {h} - {x} == hosts - {x} - {h};
    }
  }

  /** The total does not depend on the order in which the map is visited. */
  lemma {:induction false} SumInAnyOrder(order: seq<string>, hosts: set<string>, cpu: map<string, real>,
                                         latency: map<string, real>)
    requires Enumerates(order, hosts)
    ensures OrderedSum(order, cpu, latency) == ScoreSum(hosts, cpu, latency)
    decreases |order|
  {
    if order == [] {
      assert hosts == {};
    } else {
      var init, last := order[..|order| - 1], order[|order| - 1];
      assert order == init + [last];
      assert Enumerates(init, hosts - {last});
      SumInAnyOrder(init, hosts - {last}, cpu, latency);
      SumWithout(hosts, last, cpu, latency);
    }
  }

  /** The normalised scores of one pass. */
  ghost predicate LookupOf(services: Services, cpu: map<string, real>, latency: map<string, real>,
                           lookup: map<string, F64>) {
    lookup.Keys == Scored(services, cpu, latency) && Normalised(lookup, cpu, latency)
  }

  ghost predicate Normalised(lookup: map<string, F64>, cpu: map<string, real>, latency: map<string, real>) {
    var total := ScoreSum(lookup.Keys, cpu, latency);
    forall h | h in lookup :: lookup[h] == Div(Fin(HostScore(h, cpu, latency)), Fin(total))
  }

  lemma {:induction false} SumAgrees(hosts: set<string>, cpu: map<string, real>, latency: map<string, real>,
                                     cpu': map<string, real>, latency': map<string, real>)
    requires forall h | h in hosts :: HostScore(h, cpu, latency) == HostScore(h, cpu', latency')
    ensures ScoreSum(hosts, cpu, latency) == ScoreSum(hosts, cpu', latency')
    decreases hosts
  {
    if hosts != {} {
      var h :| h in hosts;
      SumWithout(hosts, h, cpu, latency);
      SumWithout(hosts, h, cpu', latency');
      SumAgrees(hosts - {h}, cpu, latency, cpu', latency');
    }
  }

  /** Dropping the averages of foreign hosts first, as the pass does, changes no score. */
  lemma RetainedScores(lookup: map<string, F64>, cpu: map<string, real>, latency: map<string, real>,
                       cpu': map<string, real>, latency': map<string, real>)
    requires Normalised(lookup, cpu', latency')
    requires forall h | h in lookup :: HostScore(h, cpu, latency) == HostScore(h, cpu', latency')
    ensures Normalised(lookup, cpu, latency)
  {
    SumAgrees(lookup.Keys, cpu, latency, cpu', latency');
    hide Div, HostScore, ScoreSum;
  }
}
