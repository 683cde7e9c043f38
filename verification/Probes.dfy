/** The two probes of proberv2: each drains the broadcast channel, measures, smooths and reports. */
module Probes {
  import opened Collections
  import opened Float64
  import opened SlotAllocator
  import opened ActorModel
  import opened Ewma

  /** The endpoints of the last announced service; every other event is skipped. */
  function LastAnnounced(endpoints: map<string, seq<Ipv4>>, events: seq<Event>): map<string, seq<Ipv4>> {
    if events == [] then endpoints
    else
      var last := events[|events| - 1];
      if last.ServiceChanged? then last.service.endpointsByNodename
      else LastAnnounced(endpoints, events[..|events| - 1])
  }

  function JoinedNodes(nodes: set<WorkerNode>, events: seq<Event>): set<WorkerNode> {
    nodes + set i | 0 <= i < |events| && events[i].NodeJoined? :: events[i].worker
  }

  /** The value stored for a node after one more response time, in milliseconds. */
  function NextLatency(alpha: real, stored: map<string, real>, node: string, ms: nat): real {
    if node in stored then Smooth(alpha, ms as real, stored[node]) else ms as real
  }

  function NextCpu(alpha: real, stored: map<string, F64>, node: string, usage: F64): F64 {
    if node in stored then Add(Mul(Fin(alpha), usage), Mul(OneMinus(Fin(alpha)), stored[node])) else usage
  }

  /** The stored values after a round of results, `None` for a node without an answer. */
  function LatencyRound(alpha: real, stored: map<string, real>,
                        results: seq<(string, Option<nat>)>): map<string, real> {
    if results == [] then stored
    else
      var before, last := LatencyRound(alpha, stored, results[..|results| - 1]), results[|results| - 1];
      if last.1.None? then before else before[last.0 := NextLatency(alpha, before, last.0, last.1.value)]
  }

  function LatencyReports(alpha: real, stored: map<string, real>, results: seq<(string, Option<nat>)>): seq<Event> {
    if results == [] then []
    else
      var init, last := results[..|results| - 1], results[|results| - 1];
      var before := LatencyRound(alpha, stored, init);
      LatencyReports(alpha, stored, init) +
      (if last.1.None? then [] else
        [EwmaCalculated(last.0, Latency(Fin(NextLatency(alpha, before, last.0, last.1.value))))])
  }

  class LatencyProbe {
    const alpha: real
    var endpointsByNodename: map<string, seq<Ipv4>>
    var datapointByNodename: map<string, real>

    constructor (alpha: real)
      ensures this.alpha == alpha && endpointsByNodename == map[] && datapointByNodename == map[]
    {
      this.alpha := alpha;
      endpointsByNodename, datapointByNodename := map[], map[];
    }

    method Drain(events: seq<Event>)
      modifies this`endpointsByNodename
      ensures endpointsByNodename == LastAnnounced(old(endpointsByNodename), events)
    {
      for i := 0 to |events|
        invariant endpointsByNodename == LastAnnounced(old(endpointsByNodename), events[..i])
      {
        assert events[..i + 1][..i] == events[..i];
        if events[i].ServiceChanged? {
          endpointsByNodename := events[i].service.endpointsByNodename;
        }
      }
      assert events[..|events|] == events;
    }

    method Round(results: seq<(string, Option<nat>)>) returns (sent: seq<Event>)
      modifies this`datapointByNodename
      ensures datapointByNodename == LatencyRound(alpha, old(datapointByNodename), results)
      ensures sent == LatencyReports(alpha, old(datapointByNodename), results)
    {
      sent := [];
      for i := 0 to |results|
        invariant datapointByNodename == LatencyRound(alpha, old(datapointByNodename), results[..i])
        invariant sent == LatencyReports(alpha, old(datapointByNodename), results[..i])
      {
        assert results[..i + 1][..i] == results[..i];
        var (nodename, responseTime) := results[i];
        if responseTime.Some? {
          var elapsedMs := responseTime.value as real;
          var datapoint := elapsedMs;
          if nodename in datapointByNodename {
            datapoint := Smooth(alpha, elapsedMs, datapointByNodename[nodename]);
          }
          datapointByNodename := datapointByNodename[nodename := datapoint];
          sent := sent + [EwmaCalculated(nodename, Latency(Fin(datapoint)))];
        }
      }
      assert results[..|results|] == results;
    }
  }

  function CpuRound(alpha: real, stored: map<string, F64>, results: seq<(WorkerNode, Option<F64>)>): map<string, F64> {
    if results == [] then stored
    else
      var before, last := CpuRound(alpha, stored, results[..|results| - 1]), results[|results| - 1];
      if last.1.None? then before
      else before[last.0.name := NextCpu(alpha, before, last.0.name, last.1.value)]
  }

  function CpuReports(alpha: real, stored: map<string, F64>, results: seq<(WorkerNode, Option<F64>)>): seq<Event> {
    if results == [] then []
    else
      var init, last := results[..|results| - 1], results[|results| - 1];
      CpuReports(alpha, stored, init) +
      (if last.1.None? then [] else
        [EwmaCalculated(last.0.name, Cpu(NextCpu(alpha, CpuRound(alpha, stored, init), last.0.name, last.1.value)))])
  }

  class CpuUsageProbe {
    const alpha: real
    var nodes: set<WorkerNode>
    var datapointByNodename: map<string, F64>

    constructor (alpha: real)
      ensures this.alpha == alpha && nodes == {} && datapointByNodename == map[]
    {
      this.alpha := alpha;
      nodes, datapointByNodename := {}, map[];
    }

    method Drain(events: seq<Event>)
      modifies this`nodes
      ensures nodes == JoinedNodes(old(nodes), events)
    {
      for i := 0 to |events|
        invariant nodes == JoinedNodes(old(nodes), events[..i])
      {
        assert forall k | 0 <= k < i :: events[..i + 1][k] == events[..i][k];
        if events[i].NodeJoined? {
          assert events[..i + 1][i] == events[i];
          nodes := nodes + {events[i].worker};
        }
      }
      assert events[..|events|] == events;
    }

    method Round(results: seq<(WorkerNode, Option<F64>)>) returns (sent: seq<Event>)
      modifies this`datapointByNodename
      ensures datapointByNodename == CpuRound(alpha, old(datapointByNodename), results)
      ensures sent == CpuReports(alpha, old(datapointByNodename), results)
    {
      sent := [];
      for i := 0 to |results|
        invariant datapointByNodename == CpuRound(alpha, old(datapointByNodename), results[..i])
        invariant sent == CpuReports(alpha, old(datapointByNodename), results[..i])
      {
        hide Add, Mul;
        assert results[..i + 1][..i] == results[..i];
        var (worker, response) := results[i];
        if response.Some? {
          var datapoint := response.value;
          if worker.name in datapointByNodename {
            datapoint := Add(Mul(Fin(alpha), response.value),
                             Mul(OneMinus(Fin(alpha)), datapointByNodename[worker.name]));
          }
          datapointByNodename := datapointByNodename[worker.name := datapoint];
          sent := sent + [EwmaCalculated(worker.name, Cpu(datapoint))];
        }
      }
      assert results[..|results|] == results;
    }
  }

  // ----- what the stored latencies are

  /** The response times of one node in a round, oldest first. */
  function Measured(results: seq<(string, Option<nat>)>, node: string): seq<real> {
    if results == [] then []
    else
      var last := results[|results| - 1];
      Measured(results[..|results| - 1], node) + (if last.0 == node && last.1.Some? then [last.1.value as real] else [])
  }

  /** The stored value is the moving average of everything measured so far for the node. */
  predicate Tracks(alpha: real, stored: map<string, real>, node: string, history: seq<real>) {
    (node in stored <==> history != []) && (node in stored ==> stored[node] == Average(alpha, history))
  }

  lemma SampleTracks(alpha: real, stored: map<string, real>, node: string, history: seq<real>, measured: string,
                     ms: nat)
    requires Tracks(alpha, stored, node, history)
    ensures Tracks(alpha, stored[measured := NextLatency(alpha, stored, measured, ms)], node,
                   if measured == node then history + [ms as real] else history)
  {
    hide Smooth;
    var after := history + [ms as real];
    assert after[..|after| - 1] == history;
  }

  /** Over any number of rounds the stored value stays the average of the node's whole history. */
  lemma {:induction false} RoundTracks(alpha: real, stored: map<string, real>, results: seq<(string, Option<nat>)>,
                                       node: string, history: seq<real>)
    requires Tracks(alpha, stored, node, history)
    ensures Tracks(alpha, LatencyRound(alpha, stored, results), node, history + Measured(results, node))
    decreases |results|
  {
    hide Smooth, Tracks, NextLatency;
    if results == [] {
      assert history + [] == history;
    } else {
      var init, last := results[..|results| - 1], results[|results| - 1];
      RoundTracks(alpha, stored, init, node, history);
      var before := history + Measured(init, node);
      if last.1.Some? {
        SampleTracks(alpha, LatencyRound(alpha, stored, init), node, before, last.0, last.1.value);
      }
      assert history + Measured(results, node) ==
        if last.0 == node && last.1.Some? then before + [last.1.value as real] else before;
    }
  }

  /** The report of a measurement is the average of everything measured so far for its node. */
  lemma LastReportIs(alpha: real, stored: map<string, real>, results: seq<(string, Option<nat>)>, history: seq<real>)
    requires results != [] && Tracks(alpha, stored, results[|results| - 1].0, history)
    ensures var init, node, ms := results[..|results| - 1], results[|results| - 1].0, results[|results| - 1].1;
      LatencyReports(alpha, stored, results) == LatencyReports(alpha, stored, init) + if ms.None? then []
        else [EwmaCalculated(node, Latency(Fin(Average(alpha, history + Measured(init, node) + [ms.value as real]))))]
  {
    hide Smooth, NextLatency, Tracks;
    var init, node, ms := results[..|results| - 1], results[|results| - 1].0, results[|results| - 1].1;
    RoundTracks(alpha, stored, init, node, history);
    if ms.Some? {
      var before := LatencyRound(alpha, stored, init);
      SampleTracks(alpha, before, node, history + Measured(init, node), node, ms.value);
      StoredIs(alpha, before[node := NextLatency(alpha, before, node, ms.value)], node,
               history + Measured(init, node) + [ms.value as real]);
    }
  }

  lemma StoredIs(alpha: real, stored: map<string, real>, node: string, history: seq<real>)
    requires Tracks(alpha, stored, node, history) && history != []
    ensures node in stored && stored[node] == Average(alpha, history)
  {
  }

  // ----- what the stored cpu usages are

  /** The finite samples of one node in a round, oldest first. */
  function Used(results: seq<(WorkerNode, Option<F64>)>, node: string): seq<real> {
    if results == [] then []
    else
      var last := results[|results| - 1];
      Used(results[..|results| - 1], node)
      + (if last.0.name == node && last.1.Some? && last.1.value.Fin? then [last.1.value.v] else [])
  }

  predicate CpuTracks(alpha: real, stored: map<string, F64>, node: string, history: seq<real>) {
    && (node in stored <==> history != [])
    && (node in stored ==> stored[node] == Fin(Average(alpha, history)))
  }

  lemma UsageTracks(alpha: real, stored: map<string, F64>, node: string, history: seq<real>, measured: string,
                    usage: real)
    requires CpuTracks(alpha, stored, node, history)
    ensures CpuTracks(alpha, stored[measured := NextCpu(alpha, stored, measured, Fin(usage))], node,
                      if measured == node then history + [usage] else history)
  {
    hide Times;
    var after := history + [usage];
    assert after[..|after| - 1] == history;
  }

  /** As for latencies: with finite samples the stored usage stays the average of the node's whole history. */
  lemma {:induction false} CpuRoundTracks(alpha: real, stored: map<string, F64>,
                                          results: seq<(WorkerNode, Option<F64>)>, node: string, history: seq<real>)
    requires CpuTracks(alpha, stored, node, history)
    requires forall i | 0 <= i < |results| && results[i].1.Some? :: results[i].1.value.Fin?
    ensures CpuTracks(alpha, CpuRound(alpha, stored, results), node, history + Used(results, node))
    decreases |results|
  {
    hide Times, CpuTracks, NextCpu;
    if results == [] {
      assert history + [] == history;
    } else {
      var init, last := results[..|results| - 1], results[|results| - 1];
      CpuRoundTracks(alpha, stored, init, node, history);
      var before := history + Used(init, node);
      if last.1.Some? {
        UsageTracks(alpha, CpuRound(alpha, stored, init), node, before, last.0.name, last.1.value.v);
      }
      assert history + Used(results, node) ==
        if last.0.name == node && last.1.Some? then before + [last.1.value.v] else before;
    }
  }

  // ----- what draining keeps

  /** Event `i` is the last announcement. */
  ghost predicate LastChange(events: seq<Event>, i: nat) {
    i < |events| && events[i].ServiceChanged? && forall j | i < j < |events| :: !events[j].ServiceChanged?
  }

  /** The endpoints are those of the last announcement, if there was one. */
  lemma {:induction false} DrainedEndpoints(endpoints: map<string, seq<Ipv4>>, events: seq<Event>, i: nat)
    ensures (forall j | 0 <= j < |events| :: !events[j].ServiceChanged?) ==>
      LastAnnounced(endpoints, events) == endpoints
    ensures LastChange(events, i) ==> LastAnnounced(endpoints, events) == events[i].service.endpointsByNodename
    decreases |events|
  {
    if events != [] && !events[|events| - 1].ServiceChanged? {
      var init := events[..|events| - 1];
      DrainedEndpoints(endpoints, init, i);
      assert forall j | 0 <= j < |init| :: init[j] == events[j];
    }
  }

  /** The nodes are those known before and those that joined. */
  lemma DrainedNodes(nodes: set<WorkerNode>, events: seq<Event>, w: WorkerNode)
    ensures w in JoinedNodes(nodes, events) <==> w in nodes || NodeJoined(w) in events
  {
    if i :| 0 <= i < |events| && events[i].NodeJoined? && events[i].worker == w {
      assert events[i] == NodeJoined(w);
    }
  }
}
