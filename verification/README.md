# Verified model of latency-aware load balancing

A Dafny model of the parts of this repository that turn measurements into decisions, and proofs of
what those decisions guarantee: over every input, every iteration order of a hash map, every
interleaving of the concurrent tasks, and every run.

## What is modelled

**The second prober** (`proberv2/`). `UpdateNftables` and `SlotAllocator` follow the routing call loop
by loop: filter, scores, rounded portions of `probability_cap`, the split of a node's portion over its
endpoints, the cap, and the modulus of `numgen`. `Float64` gives `f64` its special values (division by
zero, infinities, NaN, saturating casts), `Scores` the laws of scores and portions, `SlotShares` the
distance between slots and exact shares, `CallTheorems` what a call makes of its numbers,
`RoutingTheorems` the guarantees of one call, `InstallTheorems` when a call installs anything,
`TrafficTheorems` who receives the traffic. `Actor` (module `ActorModel`), `Probes`, `Ewma` and
`EndpointsWatch` model the tasks around it, and `Proberv2System` puts all tasks on one lossy broadcast
channel and proves invariants of every reachable state; `Proberv2Rounds` finds the probes' loops in it,
`Proberv2Runs` says which runs end with outdated endpoints, and `Proberv2Freeze` shows a run that
freezes. A Rust panic is an outcome of the model, not a precondition; its absence is proved for every
cap but the very largest, and `PanicTheorems` says exactly when one occurs.

**The first prober** (`prober/`). `Reconciler` and `NftablesWatcher` follow the two tasks that share the
locked service map, with `u32` overflow as an outcome; `ReconcilerAllocation` says what the floor-based
verdict maps mean and exactly when they are well formed, `ReconcilerBatch` which services a pass sends
and with what scores, `ReconcilerExtremes` when the arithmetic leaves its range; `ReconcilerProtocol`
treats every interleaving of inserts with successful and failed passes.

**The staircase experiment**. `Durations` holds both duration parsers, `DurationGrammar` the texts they
read, `Schedule` the generated schedule and its reader, `Mulberry32` the random streams, `Poisson` the
arrival sampler that consumes them, `Stages` the compilation of a step list to k6 stages, `Hysteresis`
the pairing of the two legs. `HysteresisOrder` fixes the order of the table, and `HysteresisTheorems`
and `StaircaseTheorems` join the parts: the load that k6 produces in the slices that the analysis reads.
`ReplayTheorems` says what the seed fixes.

**The scheduler**. `Extender` models scoring and the CPU-penalty cache one critical section at a time
under a clock, `ExtenderTheorems` says what its scores and penalties are; `Descheduler` models the
reaction to a moving top node.

Objects that the source mutates are classes whose methods are proved against functions on values; the
theorems are about those functions and the runs built from them. Hash-map iteration is an arbitrary
duplicate-free order (`Collections.HashOrder`), so every statement holds for all orders.

## Where the code and its documentation part

- `ng_mod` is `starting - 1` although the slots are `[0, starting)`: slot `starting - 1` is never drawn
  (`RoutingTheorems.InstalledRule`). Whether an endpoint gets no traffic at all for that reason is
  decided by the portions and by the visiting order (`TrafficTheorems.LastEndpointStarvesIff`,
  `TrafficTheorems.OrderDecidesWhoStarves`).
- The filter looks at cpu only, and a latency of 0 makes a score infinite. A surviving node without a
  latency report, or whose answers all took less than a millisecond, freezes every service it serves:
  response times are truncated to whole milliseconds, so a delivered report can be 0. Given room under
  the cap nothing else freezes a service (`InstallTheorems.InstallsIff`,
  `Proberv2System.RoutedIffMeasured`, `Proberv2Freeze.QuickAnswerFreezes`).
- A change of a service's endpoints is not announced when it leaves one node, no addresses at all, or no
  readable node port. Even if nothing is lost, the actor then routes to outdated endpoints until a
  later change is announced (`Proberv2Runs.CurrentEndpointsIff`,
  `Proberv2Runs.ShrinkingKeepsOldEndpoints`).
- The settling time that the analysis relies on holds from the tenth sample on at alpha 0.3
  (`Ewma.SettledAfterTen`), 50 seconds at its interval of 5 seconds; the example configuration has
  alpha 0.2 and an interval of 10 seconds, for which that claim is not made.
- In the first prober a host whose percentage is below its backend count gets an inverted range, unless
  it is visited first: then the upper bound underflows, which panics with overflow checks and becomes
  4294967295 without (`ReconcilerAllocation.DrawsAreWidths`, `ReconcilerExtremes.UnderflowIff`). With
  all scores 0 every order underflows (`ReconcilerExtremes.ZeroScoresUnderflow`).
- The first prober's latency average is negative for a host slower than its target. The percentages of
  the other hosts then exceed 100 together, and so can a modulus (`ReconcilerExtremes.ExceedsHundredIff`,
  `ReconcilerExtremes.SlowHostExceedsHundred`).
- A snapshot that the first accepted pass of the first prober skips is marked applied and never sent
  (`ReconcilerProtocol.SkippedIsLost`).
- The analysis expects the warmup to absorb the offset between the run's start and its first request.
  That protects the start of a window; with any offset the last seconds of every window but the last
  belong to the next step, so that labels are wrong unless the run has one step or the offset leaves no
  later step to be mistaken for (`StaircaseTheorems.LabelsCorrectIff`).
- The per-node random streams are called independent; they are one cycle of states at different
  positions, which do not overlap for the first 982 762 009 draws of up to four nodes
  (`Mulberry32.SharedStateIff`, `Mulberry32.FourNodesApart`).

## Model

| member | source | states |
|---|---|---|
| `SlotAllocator.AllocateNode` | proberv2/src/update_nftables.rs:141-186 | One node of the allocation loop: it panics exactly on an empty bucket with a positive portion or on a `u32` overflow of `starting + this_portion`; otherwise the emitted ranges are the layout of the node's cells from the cursor and the cursor moves to the end of them or to the cap |
| `SlotAllocator.PlaceEndpoints` | proberv2/src/update_nftables.rs:153-186 | The inner loop with its two cap checks and its `break` emits the layout of the remaining cells, appended to what was there |
| `SlotAllocator.LayAt` | proberv2/src/update_nftables.rs:153-186 | Closed form of the layout: cell k is emitted iff the cells before it leave room below the cap, begins where they end, and only the cap can shorten it |
| `SlotAllocator.LayConcat` | proberv2/src/update_nftables.rs:109-187 | Laying out one node after another is laying out their cells as one list |
| `SlotAllocator.LayIsContiguous` | proberv2/src/update_nftables.rs:153-186 | Emitted ranges are non-empty and consecutive from the start up to the cap or the end of the design |
| `SlotAllocator.LayPartitions` | proberv2/src/update_nftables.rs:153-186 | The ranges exactly partition `[0, starting)`, and `starting` is the smaller of the cap and the designed total |
| `SlotAllocator.OnlyLastIsCut` | proberv2/src/update_nftables.rs:170-185 | Every emitted range but the last has its designed width; the last loses exactly what the cap cuts |
| `SlotAllocator.CellsTotal` | proberv2/src/update_nftables.rs:141-159 | A node with at least as many slots as endpoints is designed exactly its portion, widths differing by at most one with the larger first; any other node gets nothing |
| `SlotAllocator.DesignTotal` | proberv2/src/update_nftables.rs:109-187 | The designed total is the sum of the portions of the nodes whose portion is at least their endpoint count |
| `SlotMap.PartitionOwner` | proberv2/src/update_nftables.rs:198-202 | A partition maps every number below its total, and no other number, to exactly one range |
| `SlotMap.ShortModulusDraws` | proberv2/src/update_nftables.rs:198-202 | Drawing modulo one less than the partitioned total gives every range its width except the last, which loses one; a range is never drawn iff it is the last and one slot wide |
| `SlotMap.FullModulusDraws` | prober/src/nftables_reconciler.rs:167-172 | Drawing modulo the partitioned total gives every range exactly its width |
| `SlotShares.InNodeIff` | proberv2/src/update_nftables.rs:109-187 | The slots of a node are exactly the interval between the clamped portion sums before and after it |
| `SlotShares.NodeSlotsCount` | proberv2/src/update_nftables.rs:109-187 | So the number of slots a node really gets is the difference of those two sums |
| `SlotShares.SlotHasOneNode` | proberv2/src/update_nftables.rs:109-187 | Every slot below the final cursor, and no other slot, belongs to exactly one node |
| `SlotShares.OvershootBounded` | proberv2/src/update_nftables.rs:123-181 | Rounding makes the first i nodes together exceed the cap by at most i/2 slots |
| `SlotShares.ShareError` | proberv2/src/update_nftables.rs:123-181 | A served node gets at most 1/2 slot more than its exact share and at most max(1, n-1)/2 less |
| `SlotShares.OrderChangesLittle` | proberv2/src/update_nftables.rs:109-187 | Two visiting orders give a served node slot counts that differ by at most floor(n/2) |
| `SlotShares.UnallocatedBounded` | proberv2/src/update_nftables.rs:123-151 | The cap minus the final cursor is at most n/2 plus, for every skipped node, its endpoint count minus one |
| `UpdateNftables.UpdateNftables` | proberv2/src/update_nftables.rs:25-209 | The outcome of a call is the specified one for some visiting order of the service map: too few nodes, too few endpoints, no verdict pairs, a panic, or an installed map with its modulus |
| `UpdateNftables.RouteInOrder` | proberv2/src/update_nftables.rs:25-209 | The same for one given visiting order: filter, sums, portions, layout, the three early returns and `ng_mod` follow the specification exactly |
| `UpdateNftables.RetainNodes` | proberv2/src/update_nftables.rs:57-65 | Exactly the nodes with a datapoint and a cpu usage strictly between 0 and 0.95 stay, so both later `unwrap`s succeed |
| `UpdateNftables.SumUp` | proberv2/src/update_nftables.rs:68-81 | Endpoint count and score total over the surviving nodes |
| `UpdateNftables.ComputePortions` | proberv2/src/update_nftables.rs:119-123 | The rounded, saturated portion of every surviving node |
| `UpdateNftables.AllocateAll` | proberv2/src/update_nftables.rs:109-187 | The node loop panics iff some node divides by zero or some addition overflows before the cap stops the layout; otherwise pairs and cursor are the layout of all designed cells |
| `UpdateNftables.EmittedMeansAdvanced` | proberv2/src/update_nftables.rs:198-202 | Verdict pairs imply a positive cursor, so the `else` of the modulus and the underflow of `starting - 1` are unreachable |
| `CallTheorems.PortionValue` | proberv2/src/update_nftables.rs:21-23 | With positive latencies a node is planned its part p/sum(p) of the cap, rounded to nearest, where p is `((1 - cpu)/latency)` raised to the configured exponent by the power function |
| `CallTheorems.ExponentMatters` | proberv2/src/update_nftables.rs:21-209 | Two nodes with latencies 2 and 8 share 100 slots 80 to 20 under the exponent 1, and 94 to 6 under the exponent 2 |
| `CallTheorems.CandidateIff` | proberv2/src/update_nftables.rs:57-65 | A node is routed to iff it has endpoints in the service and a known cpu usage strictly between 0 and 0.95 |
| `CallTheorems.StopsEarlyIff` | proberv2/src/update_nftables.rs:30-89 | The call stops early iff the service has fewer than two nodes, or fewer than two endpoints sit on nodes that pass the filter |
| `Scores.TotalOfPermutation` | proberv2/src/update_nftables.rs:68-81 | The score total does not depend on the visiting order, infinities included |
| `Scores.PortionRoundsExact` | proberv2/src/update_nftables.rs:120-123 | Whatever the IEEE special cases, a portion is the rounding of some exact share between 0 and the cap |
| `Scores.SharesFillCap` | proberv2/src/update_nftables.rs:119-123 | With all scores positive and finite the exact shares add up to the cap |
| `Scores.ScoreMonotone` | proberv2/src/update_nftables.rs:21-23 | With a monotone power function a node that is no busier and no farther scores at least as high |
| `Scores.PortionMonotone` | proberv2/src/update_nftables.rs:119-123 | Normalising, scaling, rounding and casting preserve the order of scores |
| `RoutingTheorems.SurvivorsAre` | proberv2/src/update_nftables.rs:57-65 | The candidates of a call are exactly the surviving nodes of the service with their current endpoints and scores |
| `RoutingTheorems.OrdersPermute` | proberv2/src/update_nftables.rs:54-71 | Two visiting orders produce the same candidates in another order |
| `RoutingTheorems.NeverPanics` | proberv2/src/update_nftables.rs:67-186 | With filled buckets and measured latencies no call panics, provided the cap leaves room for half a slot per node in a `u32` |
| `PanicTheorems.PanicsIff` | proberv2/src/update_nftables.rs:67-186 | For any cap: a call with two endpoints panics iff a node without endpoints is granted slots, or some designed range begins below the cap and ends beyond the largest `u32` |
| `PanicTheorems.OverflowsIff` | proberv2/src/update_nftables.rs:153-181 | The same for any list of cells laid out from any start |
| `PanicTheorems.LargestCapPanics` | proberv2/src/update_nftables.rs:119-181 | Two equal nodes with one endpoint each and the largest cap: both halves are rounded up and the second addition overflows, with the cap plus half the nodes one above the bound of `NeverPanics` |
| `RoutingTheorems.FairShare` | proberv2/src/update_nftables.rs:109-187 | For every order, a served node's slot count is at most 1/2 above and at most max(1, n-1)/2 below `score / total * cap` |
| `RoutingTheorems.CapNearlyUsed` | proberv2/src/update_nftables.rs:123-151 | At most n/2 slots plus one per endpoint beyond the first of each skipped node stay unallocated |
| `RoutingTheorems.OrderMattersLittle` | proberv2/src/update_nftables.rs:109-187 | The same served node's slot count changes by at most floor(n/2) between two visiting orders of the same maps |
| `RoutingTheorems.Dominance` | proberv2/src/update_nftables.rs:119-123 | A node with cpu and latency both no larger than another's is granted a portion at least as large, for any monotone power function and whatever the other nodes report, latencies of 0 included |
| `RoutingTheorems.ZeroLatencyZeroesAll` | proberv2/src/update_nftables.rs:57-136 | One surviving node without a latency turns every node's portion into 0 |
| `RoutingTheorems.ZeroLatencyFreezes` | proberv2/src/update_nftables.rs:57-196 | So the call installs nothing and the previous rules stay, for any number of nodes |
| `InstallTheorems.InstallsIffServed` | proberv2/src/update_nftables.rs:67-196 | For any cap: a call with two endpoints that does not overflow installs a rule iff some node's portion reaches its number of endpoints |
| `InstallTheorems.InstallsIff` | proberv2/src/update_nftables.rs:57-196 | With two endpoints and a cap above the endpoints less half the nodes, a call installs a rule iff every surviving node has a positive latency: one zero freezes everything, and nothing else does |
| `InstallTheorems.CallInstallsIff` | proberv2/src/update_nftables.rs:30-196 | The same for a whole call in any visiting order, stated on the datapoints of the surviving nodes |
| `RoutingTheorems.InstalledRule` | proberv2/src/update_nftables.rs:198-202 | An installed map partitions `[0, ng_mod]` while draws come from `[0, ng_mod)`: each draw has one endpoint, each endpoint is drawn as often as its range is wide, the last once less |
| `RoutingTheorems.LaidOutRule` | proberv2/src/update_nftables.rs:140-202 | The same for any portions, whatever scores they come from |
| `TrafficTheorems.StarvedIff` | proberv2/src/update_nftables.rs:140-202 | On the plan: the last endpoint is never drawn iff the served portions fit the cap and the last served node has fewer than two slots per endpoint, or they do not fit and an endpoint's slots begin at the last slot below the cap |
| `TrafficTheorems.LastEndpointStarvesIff` | proberv2/src/update_nftables.rs:140-202 | The same condition on the portions of a call, for the rule it installs |
| `TrafficTheorems.OrderDecidesWhoStarves` | proberv2/src/update_nftables.rs:109-202 | Two nodes under a cap of 3: the far one's only slot is never drawn in one visiting order and half of the time in the other |
| `TrafficTheorems.TrafficShare` | proberv2/src/update_nftables.rs:109-202 | Of the draws of a rule a served node receives its part of the scores up to max(1, n-1)/2 + 1 draws below and n/2 + 3/2 draws above, and the slack of skipped nodes |
| `TrafficTheorems.NothingToDraw` | proberv2/src/update_nftables.rs:198-202 | The generator's modulus is 0 iff the rule has a single range of one slot, that is iff a single slot is handed out |
| `RoutingTheorems.EvenWithinNode` | proberv2/src/update_nftables.rs:153-186 | Endpoints of one node get their ranges in order with widths that differ by at most one; only the very last range of the map can be cut short |
| `EndpointsWatch.GroupByNode` | proberv2/src/endpoints_watch.rs:91-113 | The grouping loop produces exactly the usable addresses of each node in their order |
| `EndpointsWatch.GroupingFillsBuckets` | proberv2/src/endpoints_watch.rs:91-113 | No bucket is empty and there are no more nodes than addresses |
| `EndpointsWatch.GroupingKeepsAddresses` | proberv2/src/endpoints_watch.rs:95-113 | Each usable address is in its node's bucket as often as it occurs; unparsable ips and missing node names are dropped |
| `EndpointsWatch.AnnouncementIff` | proberv2/src/endpoints_watch.rs:52-126 | A change is announced unless there are no addresses, the service or its node port cannot be read, or all usable addresses sit on exactly one node; the announcement has the service's name, both ports and the usable addresses of every node |
| `EndpointsWatch.OnNodeConcat` | proberv2/src/endpoints_watch.rs:95-113 | The addresses of a node keep their order |
| `ActorModel.Actor.constructor` | proberv2/src/actor.rs:18-22 | A new actor knows no node and no service |
| `ActorModel.Actor.Handle` | proberv2/src/actor.rs:81-146 | One turn of the event loop is the specified step; a service change routes that service with the current datapoints, a lag is skipped, and nothing panics from a safe state |
| `ActorModel.Actor.Refresh` | proberv2/src/actor.rs:88-99 | A tick routes every known service once, in any order |
| `ActorModel.Actor.Dispatch` | proberv2/src/actor.rs:58-148 | The loop folds the step over its inputs and ends early only in a panic, which safe inputs exclude |
| `ActorModel.PossiblySafe` | proberv2/src/actor.rs:88-122 | From a safe state no visiting order of the service map makes a routing call panic |
| `ActorModel.ActorHistory` | proberv2/src/actor.rs:81-146 | For every history of delivered events a node is known iff it joined, its latency and cpu are the last ones delivered after its first join or 0, joins never erase scores, ghost reports change nothing, and each node port has its last announced service |
| `ActorModel.HistoryDetermines` | proberv2/src/actor.rs:81-146 | Two states that meet that history specification agree on every node and port: the specification is complete |
| `ActorModel.InputsAreHistory` | proberv2/src/actor.rs:81-107 | Ticks and lags do not change what is remembered |
| `Ewma.ClosedForm` | proberv2/src/latency_probe.rs:100-112 | The stored value is the exponentially weighted sum of the whole sample history |
| `Ewma.WeightsSumToOne` | proberv2/src/latency_probe.rs:100-112 | The weights of any history add up to 1 |
| `Ewma.AverageWithin` | proberv2/src/latency_probe.rs:100-112 | The average stays between the smallest and the largest sample |
| `Ewma.AverageZeroIff` | proberv2/src/latency_probe.rs:100-112 | For 0 < alpha < 1 an average of non-negative samples is 0 iff every sample is |
| `Ewma.Settling` | analysis/staircase_evaluation.py:37-40 | After k samples of a constant the distance to it is exactly (1-alpha)^k of the old distance |
| `Ewma.SettledAfterTen` | analysis/staircase_evaluation.py:37-40 | With alpha 0.3 less than 3% of a disturbance remains after k samples iff k >= 10 |
| `Probes.LatencyProbe.Drain` | proberv2/src/latency_probe.rs:32-37 | Draining keeps the endpoints of the last announced service |
| `Probes.LatencyProbe.Round` | proberv2/src/latency_probe.rs:82-126 | A round stores and reports one smoothed value per answered node, in order; unanswered nodes change nothing |
| `Probes.CpuUsageProbe.Drain` | proberv2/src/cpu_usage_probe.rs:33-39 | Draining adds every joined node |
| `Probes.CpuUsageProbe.Round` | proberv2/src/cpu_usage_probe.rs:41-111 | A round stores and reports one smoothed value per node with a sample |
| `Probes.RoundTracks` | proberv2/src/latency_probe.rs:82-126 | What is stored for a node is the average of all its response times so far, round after round |
| `Probes.LastReportIs` | proberv2/src/latency_probe.rs:95-122 | Each reported latency is the average of all the node's response times up to that one |
| `Probes.CpuRoundTracks` | proberv2/src/cpu_usage_probe.rs:86-97 | With finite samples the cpu usage stored for a node is the average of all its samples with the cpu alpha, round after round |
| `Probes.DrainedEndpoints` | proberv2/src/latency_probe.rs:32-37 | Draining leaves the endpoints of the last announcement among the events, or the old ones if there is none |
| `Probes.DrainedNodes` | proberv2/src/cpu_usage_probe.rs:33-39 | Draining leaves the nodes known before and those that joined |
| `Proberv2Rounds.LatencyRoundInSystem` | proberv2/src/latency_probe.rs:60-126 | However the other tasks interleave with its steps, what the latency probe stores and broadcasts while it works off a round of answers is what `LatencyProbe.Round` computes |
| `Proberv2Rounds.CpuRoundInSystem` | proberv2/src/cpu_usage_probe.rs:41-111 | The same for the cpu probe and `CpuUsageProbe.Round` |
| `Proberv2Rounds.DrainsInSystem` | proberv2/src/latency_probe.rs:32-37 | Between any two moments of a run the endpoints of the latency probe and the nodes of the cpu probe change as `Drain` changes them on the events they received |
| `Proberv2System.Reachable` | proberv2/src/actor.rs:58-148 | In every reachable state of watchers, probes, channel and actor: every event ever sent is safe, every latency report is the average of exactly the response times measured before it, and the actor followed an in-order selection of the channel |
| `Proberv2System.RoutingNeverPanics` | proberv2/src/update_nftables.rs:67-186 | In every reachable state no `update_nftables` call panics, for any known or broadcast service and any visiting order |
| `Proberv2System.ActorFollowsDeliveries` | proberv2/src/actor.rs:62-107 | With any lossy delivery the actor state is the history state of events that stand in the channel at increasing places |
| `Proberv2System.HeldLatency` | proberv2/src/latency_probe.rs:82-126 | The latency the actor holds is the average of exactly the response times its last delivered report covers, or the default 0 without one |
| `Proberv2System.HeldLatencyWithin` | proberv2/src/latency_probe.rs:100-112 | So it lies between the smallest and the largest response time ever measured |
| `Proberv2System.HeldLatencyZeroIff` | proberv2/src/latency_probe.rs:53-122 | The held latency is 0 iff no report counts, or every response time the last delivered one covers was 0 whole milliseconds |
| `Proberv2System.RoutedIffMeasured` | proberv2/src/update_nftables.rs:57-196 | In every reachable state and visiting order, a known service with two nodes, two surviving endpoints and room under the cap is routed iff none of its surviving nodes is unmeasured in that sense |
| `Proberv2System.FrozenWhileUnmeasured` | proberv2/src/update_nftables.rs:57-136 | Whatever the cap, one unmeasured surviving node keeps every call from installing anything |
| `Proberv2Freeze.QuickAnswerFreezes` | proberv2/src/latency_probe.rs:60-122 | A run of two nodes in which every event is delivered and both nodes survive the filter: if one of them answered in less than a millisecond the call ends without verdict pairs in every visiting order, and if it took a whole millisecond or more the call installs a rule in every order |
| `Proberv2Runs.PortHistory` | proberv2/src/endpoints_watch.rs:52-126 | After any run a port's current groups are those of its last change, and its last broadcast service that of its last announced change |
| `Proberv2Runs.CurrentEndpointsIff` | proberv2/src/endpoints_watch.rs:52-126 | When everything sent was delivered, the actor holds the current endpoints of a port iff its last change got past the early returns or brought the groups back to the last announced ones |
| `Proberv2Runs.ShrinkingKeepsOldEndpoints` | proberv2/src/endpoints_watch.rs:52-121 | A service that shrinks to one node, or to no pods at all, keeps its old endpoints in the actor although nothing was lost |
| `NftablesWatcher.HostnameByIpv4` | prober/src/nftables_watcher.rs:97-102 | The address loop maps an ip to the last node name given for it |
| `NftablesWatcher.NodeOfIs` | prober/src/nftables_watcher.rs:97-102 | The node of an ip is the one named by the last address that has this ip and names a node |
| `NftablesWatcher.MapEndpointsToHosts` | prober/src/nftables_watcher.rs:219-245 | Exactly the chains whose ip has a known node, each under its node, and no host without chains |
| `NftablesWatcher.ChainIsListed` | prober/src/nftables_watcher.rs:226-241 | A chain is a backend of a host iff the address in its name belongs to that host |
| `NftablesWatcher.SnapshotShape` | prober/src/nftables_watcher.rs:219-245 | So in a snapshot every host has a backend and no backend has two hosts |
| `Reconciler.SharedServices.Insert` | prober/src/nftables_watcher.rs:120-122 | An insert replaces the snapshot of its service with `applied` cleared |
| `Reconciler.SharedServices.Reconcile` | prober/src/nftables_reconciler.rs:64-186 | One pass: skipped iff one of the two averages is unknown for every host; overflowed only if some service's arithmetic can; otherwise the batch holds exactly the emitting services; all flags are set iff the batch was built and accepted |
| `Reconciler.SharedServices.MeasureHosts` | prober/src/nftables_reconciler.rs:70-97 | The averages of known hosts, and their normalised scores unless one kind is missing altogether |
| `Reconciler.SharedServices.BuildBatch` | prober/src/nftables_reconciler.rs:99-176 | The service loop ends in an overflow or emits one Delete+Add pair for each service that is unapplied, not small, and has a backend on a scored host, and for no other |
| `Reconciler.ScoreHosts` | prober/src/nftables_reconciler.rs:83-97 | Hosts with both averages get their score divided by the total over all scored hosts |
| `Reconciler.SumScores` | prober/src/nftables_reconciler.rs:94 | The total is the set sum of the host scores in any order |
| `Reconciler.DistributeService` | prober/src/nftables_reconciler.rs:117-149 | Either some order of the hosts overflows, or ranges and modulus are the specified ones for some order of hosts and backends, with every `u32` operation in range |
| `Reconciler.DistributeHost` | prober/src/nftables_reconciler.rs:132-148 | The innermost loop underflows iff the very first range of the service has width 0; otherwise it emits consecutive ranges of the host's equal width |
| `Reconciler.RangesEmpty` | prober/src/nftables_reconciler.rs:151-153 | The verdict map is empty iff no scored host of the service has a backend |
| `Reconciler.RetainedScores` | prober/src/nftables_reconciler.rs:75-92 | Dropping foreign hosts' averages first changes no score |
| `ReconcilerBatch.ScoresOfPass` | prober/src/nftables_reconciler.rs:83-97 | Exactly the hosts of some service with both averages are scored, each with the sum of its averages over the sum for all of them |
| `ReconcilerBatch.SlotsEach` | prober/src/nftables_reconciler.rs:128-129 | A backend gets the floor of 100 times its host's score over the number of backends |
| `ReconcilerBatch.SkippedIff` | prober/src/nftables_reconciler.rs:75-81 | A pass is skipped iff no host of any service has a cpu average, or none has a latency average |
| `ReconcilerBatch.BatchedIff` | prober/src/nftables_reconciler.rs:99-153 | A service is in the batch iff its snapshot is unapplied and has a scored host with a backend, three backends if it is the only host |
| `ReconcilerBatch.ThreeBackendsNeeded` | prober/src/nftables_reconciler.rs:104-115 | On a single scored host two backends are left alone and three are sent |
| `ReconcilerBatch.OverflowOrigin` | prober/src/nftables_reconciler.rs:99-149 | Only an unapplied service that is not on a single host with at most two backends can overflow |
| `ReconcilerBatch.RuleFits` | prober/src/nftables_reconciler.rs:120-149 | A rule has a modulus within `u32` and a non-empty first range from 0 |
| `ReconcilerAllocation.PartitionIff` | prober/src/nftables_reconciler.rs:132-148 | The ranges partition the modulus iff every width is at least 1 |
| `ReconcilerAllocation.FloorLoss` | prober/src/nftables_reconciler.rs:128-130 | For a percentage of either sign and any size: a host loses everything iff its percentage is below its backend count, never gains, and loses less than one slot per backend within the range of `u32` |
| `ReconcilerAllocation.ModulusNearShare` | prober/src/nftables_reconciler.rs:94-149 | With no negative score the modulus is at most 100 times the service's score share, itself at most 100, and falls short of it by less than one slot per backend on scored hosts |
| `ReconcilerAllocation.RangePerBackend` | prober/src/nftables_reconciler.rs:132-148 | Every backend of a scored host has a range of its host's equal width, and every range is of this kind |
| `ReconcilerAllocation.OneRangeEach` | prober/src/nftables_reconciler.rs:132-148 | A backend listed under one host has only one range |
| `ReconcilerAllocation.DrawsAreWidths` | prober/src/nftables_reconciler.rs:94-172 | For every total but 0 and scores of either sign, the ranges partition the modulus iff every scored host's percentage is at least its backend count; then each backend is drawn exactly as often as its range is wide |
| `ReconcilerExtremes.UnderflowIff` | prober/src/nftables_reconciler.rs:132-141 | Some visiting order ends its first range below 0 iff some scored host's percentage is below its backend count |
| `ReconcilerExtremes.OverflowIff` | prober/src/nftables_reconciler.rs:117-149 | With no negative score that is the only way in which the arithmetic of a service can leave `u32` |
| `ReconcilerExtremes.ZeroScoresUnderflow` | prober/src/nftables_reconciler.rs:94-141 | When all scores are 0, every order of a service that has anything to distribute underflows at its first range |
| `ReconcilerExtremes.ModulusIsTotals` | prober/src/nftables_reconciler.rs:129-130 | The modulus is the sum of the scored hosts' slots, whatever the visiting order |
| `ReconcilerExtremes.ExceedsHundredIff` | prober/src/nftables_reconciler.rs:94-130 | With given averages and scores, some pass over snapshots of the watcher's shape batches a rule with a modulus above 100 iff the whole positive percents of the scored hosts add up to more than 100 |
| `ReconcilerExtremes.ExceedingNeedsNegative` | prober/src/nftables_reconciler.rs:94-130 | And then some host's percentage is negative |
| `ReconcilerExtremes.SlowHostExceedsHundred` | prober/src/latency_prober.rs:92-107 | A host slower than its target has a negative average: cpu 0.9 and 0.5 with latency 0.9 and -1.5 are a pass whose batch holds a rule with widths 225 and 0, modulus 225 and an inverted range |
| `ReconcilerProtocol.ServicesHistory` | prober/src/nftables_reconciler.rs:64-186 | After any interleaving a service holds its latest snapshot, and is applied iff an effective pass came after it |
| `ReconcilerProtocol.ContributesIff` | prober/src/nftables_reconciler.rs:99-183 | A snapshot is sent successfully by pass k iff k is the first effective pass after its insert, no newer snapshot replaced it, and it is eligible under that pass's measurements |
| `ReconcilerBatch.SentIff` | prober/src/nftables_reconciler.rs:99-183 | A pass sends a snapshot iff it is the first effective one since the insert, still holds it, and some scored host has a backend, three if it is the only host |
| `ReconcilerProtocol.ContributionIsInBatch` | prober/src/nftables_reconciler.rs:99-176 | That notion of being sent is membership in any batch the reconcile contract allows, with the snapshot's own chain and rule handle |
| `ReconcilerProtocol.AtMostOnce` | prober/src/nftables_reconciler.rs:99-183 | Each inserted snapshot contributes at most one successful Delete+Add pair, whatever fails or is retried |
| `ReconcilerProtocol.QuietPassIsEmpty` | prober/src/nftables_reconciler.rs:99-183 | A pass with no insert since the last effective one builds an empty batch |
| `ReconcilerProtocol.SkippedIsLost` | prober/src/nftables_reconciler.rs:105-114 | A snapshot skipped by its first effective pass is marked applied and never sent later |
| `ReconcilerProtocol.RuleOrigin` | prober/src/nftables_reconciler.rs:94-176 | In every run whose snapshots come from the watcher, every rule of an attempted batch belongs to a snapshot with populated, disjoint hosts |
| `ReconcilerProtocol.RunPartition` | prober/src/nftables_reconciler.rs:94-176 | In every such run, for every total but 0, each rule has one range per backend and partitions its modulus iff every scored host is covered |
| `ReconcilerProtocol.RunShare` | prober/src/nftables_reconciler.rs:94-176 | While no score is negative each rule hands out at most its service's share of 100 and less than one slot per backend below that |
| `Durations.DurationSeconds` | scripts/traffic-suite.sh:101-119 | The awk loop accepts exactly number-unit sequences with a positive total and returns that total |
| `Durations.Exec` | scripts/traffic-load-poisson.js:118-122 | One global-regex `exec` returns the leftmost match at or after the cursor |
| `Durations.ParseDurationSeconds` | scripts/traffic-load-poisson.js:113-128 | The search loop with its consumed-length comparison is a parser for contiguous parts: gaps, leftovers and a zero total are errors, a bare number is seconds |
| `Durations.PartsAgree` | scripts/traffic-suite.sh:101-119 | Part by part both parsers read the same value unless an `ms` lies ahead, which the shell rejects |
| `Durations.ParsersAgree` | scripts/traffic-suite.sh:101-132 | The suite accepts a text as n seconds iff the text passes validation, contains no `ms`, and the k6 script reads it as n |
| `Durations.WholePart` | scripts/traffic-suite.sh:107-115 | A positive number with one of the units h, m, s means its hours, minutes or seconds to both parsers |
| `Durations.MillisecondPart` | scripts/traffic-load-poisson.js:117-125 | A number of milliseconds is refused by the suite and read as thousandths by the script |
| `DurationGrammar.ShellReadsSpellings` | scripts/traffic-suite.sh:101-132 | The suite accepts a text as n seconds iff it spells a list of numbers with units h, m, s worth n > 0 seconds together |
| `DurationGrammar.ScriptReadsSpellings` | scripts/traffic-load-poisson.js:113-128 | The script reads every such spelling as the same number |
| `DurationGrammar.NinetyMinutes` | scripts/traffic-suite.sh:101-119 | `1h30m` is 5400 seconds to both |
| `DurationGrammar.NatLaws` | scripts/traffic-suite.sh:107-113 | Digits are read as a decimal number |
| `DurationGrammar.BareNumber` | scripts/traffic-load-poisson.js:114-115 | The script reads digits without a unit as seconds |
| `DurationGrammar.DecimalPart` | scripts/traffic-load-poisson.js:117-125 | The script reads digits after a point as a decimal fraction of the unit |
| `DurationGrammar.SecondAndAQuarter` | scripts/traffic-load-poisson.js:117-125 | `1.25s` is one second and a quarter |
| `DurationGrammar.Padded` | scripts/traffic-load-poisson.js:114 | White space before or after a text changes nothing for the script |
| `Schedule.ReadStep` | scripts/traffic-suite.sh:160-172 | Total and colon-joined spelling of one step |
| `Schedule.StepLaws` | scripts/traffic-suite.sh:160-172 | The total of a step is the sum of its rates, and a colon separates the spellings of its rates |
| `Schedule.RatioInjective` | scripts/traffic-suite.sh:164-169 | Different rate vectors have different spellings |
| `Schedule.FindPeak` | scripts/traffic-suite.sh:174-176 | The peak is the first step of the highest positive load, 0 if there is none |
| `Schedule.GenerateSchedule` | scripts/traffic-suite.sh:156-185 | Every row has its step's number, leg, spelling, total, time slice and warmup |
| `Schedule.ReadSchedule` | analysis/staircase_evaluation.py:109-141 | Reading fails iff there are no rows or some window is not positive; otherwise every row yields its window |
| `Schedule.ReadableIff` | analysis/staircase_evaluation.py:114-127 | A generated schedule is readable iff it has steps and the warmup is shorter than a step |
| `Schedule.ReadBack` | analysis/staircase_evaluation.py:109-141 | What the analysis reads back of step i: its number, load and spelling, and its time slice less the warmup |
| `Schedule.ReadLegs` | scripts/traffic-suite.sh:174-183 | The peak is the first step of the highest positive load, steps before it climb, and the analysis reads the same leg |
| `Schedule.SampleStep` | analysis/staircase_evaluation.py:245-250 | A sample is counted for step i iff i is the step running at its offset and the step's warmup has passed; so never twice |
| `Hysteresis.CollectLegs` | analysis/staircase_evaluation.py:323-328 | The two dictionaries of a configuration after the row loop |
| `Hysteresis.PairConfiguration` | analysis/staircase_evaluation.py:322-358 | The body of the configuration loop yields the specified pairs |
| `Hysteresis.SortedNames` | analysis/staircase_evaluation.py:322 | The configurations in code point order, each once |
| `Hysteresis.BuildHysteresisRows` | analysis/staircase_evaluation.py:314-359 | The output is the pairs of all configurations, in alphabetical order of the configurations |
| `Hysteresis.TablesUnique` | analysis/staircase_evaluation.py:314-359 | So the output is determined by the rows |
| `Hysteresis.SortFacts` | analysis/staircase_evaluation.py:330-332 | Sorting by offered load permutes the rows into ascending order |
| `Hysteresis.UpsAreLastVisits` | analysis/staircase_evaluation.py:323-328 | The up dictionary holds, for each level, its last climbing row, and nothing else |
| `Hysteresis.DownsAreLastVisits` | analysis/staircase_evaluation.py:323-333 | A down lookup finds the last descending row of the level iff there is one |
| `HysteresisTheorems.PairsCharacterised` | analysis/staircase_evaluation.py:314-359 | For any rows: one pair per level visited on both legs, each column taken from the last climbing or the last descending visit of the level, deltas down minus up, with distinct levels in ascending order of load |
| `HysteresisTheorems.MirrorVisits` | scripts/traffic-suite.sh:176-183 | In a mirrored staircase step i is the only climbing visit of its level and its mirror image the only descending one |
| `HysteresisTheorems.StaircasePairs` | analysis/staircase_evaluation.py:314-359 | A mirrored staircase of 2k-1 steps with one row per step yields exactly k-1 pairs, each joining climbing step i with step 2k-i column by column, ascending in load, and in step order if the climb rises strictly |
| `HysteresisOrder.PairsInOrder` | analysis/staircase_evaluation.py:323-332 | Pairs of equal load stand in the order in which their levels were first climbed |
| `HysteresisOrder.TableOrder` | analysis/staircase_evaluation.py:321-359 | The table lists the configurations by name, and holds for each of them exactly its own pairs in their own order |
| `HysteresisOrder.OfConcat` | analysis/staircase_evaluation.py:324-326 | The rows of a configuration are picked one by one, in order |
| `HysteresisOrder.PrecedesIff` | analysis/staircase_evaluation.py:322 | One name sorts before another iff after a common beginning it ends or has the smaller character |
| `Stages.DrawRates` | scripts/traffic-load-poisson.js:218-227 | Every tick of a node has the rate rounded from the sample of its segment's mean, drawn from the node's stream where the earlier ticks left it |
| `Stages.RateOfCount` | scripts/traffic-load-poisson.js:226 | The rate of a tick is its count divided by the tick length, to nearest, halves up |
| `Stages.MeanOfTick` | scripts/traffic-load-poisson.js:223-226 | The ticks of segment s, and no others, are sampled at the mean of segment s |
| `Poisson.SamplePoisson` | scripts/traffic-load-poisson.js:79-111 | The sampler returns the specified count and leaves the stream as many calls further on as the sample took; a mean of 0 takes none |
| `Poisson.Multiply` | scripts/traffic-load-poisson.js:82-91 | The multiplication loop ends for every limit and stream, and computes the specified count |
| `Poisson.CountsArrivals` | scripts/traffic-load-poisson.js:82-91 | Below a mean of 30 the count n is the one for which the product of n+1 outputs is at most exp(-mean) while all shorter products are above it, and n+1 outputs are taken |
| `Poisson.OtherBranches` | scripts/traffic-load-poisson.js:79-99 | A mean of 0 gives no arrivals and takes no outputs, and from 30 on the rejection method decides |
| `Poisson.MoreLoadMoreArrivals` | scripts/traffic-load-poisson.js:82-91 | From the same generator state a larger mean never gives fewer arrivals |
| `Stages.BuildStages` | scripts/traffic-load-poisson.js:229-234 | The stage loop emits the first hold and then a jump and a hold per further rate |
| `Stages.PeakRate` | scripts/traffic-load-poisson.js:236-238 | The largest rate of the run, at least 0 |
| `Stages.Busiest` | scripts/traffic-load-poisson.js:205-207 | The peak mean is positive iff some rate of some segment is |
| `Stages.BuildScenarios` | scripts/traffic-load-poisson.js:192-274 | Building fails iff every rate is zero or the VU factor is not positive; otherwise each node's scenario is compiled from the rates that its own stream gives for the listed rates |
| `ReplayTheorems.LoadedIff` | scripts/traffic-load-poisson.js:203-208 | There is load iff some segment lists a positive rate for some node |
| `Stages.StagesMeanRates` | scripts/traffic-load-poisson.js:229-262 | Under linear ramps the stages denote the step function with rate j on `[j*tick, (j+1)*tick)` |
| `Stages.VusCoverRun` | scripts/traffic-load-poisson.js:240-253 | The VU pool covers rate times VU factor at every moment of the run |
| `Stages.PoolIsLeast` | scripts/traffic-load-poisson.js:240-253 | No smaller pool with at least one user covers the peak rate times the VU factor |
| `StaircaseTheorems.TicksFillIff` | scripts/traffic-load-poisson.js:199-201 | The ticks of a segment fill its duration iff the tick divides it |
| `StaircaseTheorems.TicksDrift` | scripts/traffic-load-poisson.js:199-201 | Otherwise a segment is off by at most half a tick, unless it is shorter than that |
| `StaircaseTheorems.ScheduledRate` | scripts/traffic-load-poisson.js:199-234 | When the tick divides the step duration, the ticks of segment s times the tick length are exactly the time slice that the schedule gives to step s, and throughout the slice a node runs at the rates sampled for the rate listed for step s: at 0 if that is 0 |
| `ReplayTheorems.SameTrace` | scripts/traffic-load-poisson.js:27-30 | The same seed, segments, tick and VU factor give the same scenario |
| `ReplayTheorems.EarlierRatesStay` | scripts/traffic-load-poisson.js:218-227 | Segments added at the end leave the rates of all earlier ticks as they are |
| `ReplayTheorems.EarlierStepsReplay` | scripts/traffic-load-poisson.js:27-30 | So as long as the shorter run lasts, both runs drive the node at the same rate at every moment |
| `ReplayTheorems.RevisitsDrawAnew` | scripts/traffic-load-poisson.js:23-25 | A level that is revisited is drawn anew: no two ticks of a node use the same generator state, unless the run takes more than 2^32 outputs |
| `StaircaseTheorems.DefaultTickAligned` | scripts/traffic-suite.sh:297-306 | Every step duration the suite accepts is read as the same number by the k6 script and is a whole number of default ticks |
| `StaircaseTheorems.LabelsCorrectIff` | analysis/staircase_evaluation.py:201-250 | Every counted sample of the run was produced by the step it is counted for iff the first request came without delay, or there is a single step, or delay and warmup together outlast the run |
| `Mulberry32.Scramble` | scripts/traffic-load-poisson.js:51-60 | The output lies between 0 and 1 - 2^-32 |
| `Mulberry32.FirstWords` | scripts/traffic-load-poisson.js:51-60 | The first two output words for the default seed 42 and the first for seed 0 |
| `Mulberry32.WordOverRange` | scripts/traffic-load-poisson.js:58 | An output is its word over 2^32 |
| `Mulberry32.Stream.Next` | scripts/traffic-load-poisson.js:51-60 | One call advances the captured state by the increment modulo 2^32 and returns its scrambled value |
| `Mulberry32.FullPeriod` | scripts/traffic-load-poisson.js:51-60 | A stream repeats a state only after all 2^32 states |
| `Mulberry32.SharedStateIff` | scripts/traffic-load-poisson.js:218-220 | Two nodes' streams are in the same state iff their call counts differ by the lag between them: all nodes draw from one cycle |
| `Mulberry32.FourNodesApart` | scripts/traffic-load-poisson.js:218-220 | Up to four nodes share no state within their first 982762009 calls each |
| `ReplayTheorems.NodesDrawApart` | scripts/traffic-load-poisson.js:218-226 | So no tick of one of up to four nodes uses a state that a tick of another uses, while each node takes fewer than 982762009 outputs |
| `Extender.ClampScore` | scheduler/pkg/extender/score-node.go:37-45 | A score is between 0 and 100 |
| `ExtenderTheorems.ScoreValue` | scheduler/pkg/extender/score-node.go:10-45 | A known node scores its own weighted and scaled latency, cpu and traffic, clamped to [0, 100] and rounded; without traffic data traffic counts 0, and an unknown node scores 0 |
| `ExtenderTheorems.ScoreMoves` | scheduler/pkg/extender/score-node.go:16-21 | Away from the clamps a change of an input moves the score by its own weight times the scale, up to one point |
| `ExtenderTheorems.SeventyOne` | scheduler/pkg/extender/score-node.go:10-22 | Three scores under weights 0.6, 0.3 and 0.1 |
| `Extender.SchedulerExtender.RefreshProberData` | scheduler/pkg/extender/routes.go:75-107 | A failed query or fetch changes nothing; otherwise the loop keeps fresh penalties, deletes expired ones and stores every score |
| `ExtenderTheorems.RefreshValue` | scheduler/pkg/extender/routes.go:93-104 | Less than 15 seconds after a penalty a refresh keeps the penalised cpu score; otherwise it takes the measured one and forgets the penalty |
| `Extender.SchedulerExtender.RefreshTrafficData` | scheduler/pkg/extender/routes.go:110-129 | The two traffic maps are replaced together if both queries succeed, and neither otherwise |
| `Extender.SchedulerExtender.ApplyPenalty` | scheduler/pkg/extender/score.go:79-102 | The picked node's cached CPU score is reduced, at least to 0, and remembered with the time |
| `ExtenderTheorems.PenaltyValue` | scheduler/pkg/extender/score.go:83-99 | A penalty takes the amount of the node's kind, by `vm` in its name, from its cpu score down to 0, and is remembered with its time |
| `Extender.SchedulerExtender.ScoreNodes` | scheduler/pkg/extender/score.go:37-56 | The loop returns the positively scored nodes in order and the first of the best |
| `ExtenderTheorems.PrioritiesConcat` | scheduler/pkg/extender/score.go:37-56 | Node by node: the answer lists the nodes that score at least 1, in request order |
| `ExtenderTheorems.PriorityOf` | scheduler/pkg/extender/score.go:45-50 | A single node is listed with its score iff that is at least 1 |
| `Extender.SchedulerExtender.HandleScore` | scheduler/pkg/extender/score.go:11-76 | An uninterrupted request refreshes, scores and penalises exactly the best node |
| `ExtenderTheorems.PenaltyTarget` | scheduler/pkg/extender/score.go:50-68 | The first entry of the highest score is penalised, and nothing if no node scored or that entry has no name |
| `Extender.AlwaysConsistent` | scheduler/pkg/extender/routes.go:90-104 | After every critical section of every run, the node of each remembered penalty is cached with exactly the penalised CPU score |
| `Extender.PenaltiesAddUp` | scheduler/pkg/extender/score.go:79-102 | k penalties of a node, each less than 15 s after the one before, turn a CPU score c into max(0, c - k*penalty), whatever other requests fetch or penalise in between |
| `Extender.ExpiryRestores` | scheduler/pkg/extender/routes.go:94-103 | A refresh 15 s or more after the penalty forgets it and takes over the last measured score; a refresh that does not mention the node changes nothing for it |
| `Extender.PenaltyLowersScore` | scheduler/pkg/extender/score-node.go:20-35 | A penalty never raises the score of the penalised node, changes no other score, and away from the clamps costs the CPU weight times the reduction up to one point of rounding |
| `Descheduler.AdaptiveDescheduler.ScoreReports` | scheduler/pkg/descheduler/evaluate.go:77-81 | Each reported node is scored by its latest report |
| `Descheduler.AdaptiveDescheduler.WorstNode` | scheduler/pkg/descheduler/evaluate.go:84-89 | The scan finds a lowest score for every iteration order |
| `Descheduler.AdaptiveDescheduler.EvaluateCycle` | scheduler/pkg/descheduler/evaluate.go:30-108 | One cycle follows the specified transition of the remembered top node and attempts an eviction only on a worst node after a real shift |
| `Descheduler.QuietCycle` | scheduler/pkg/descheduler/evaluate.go:31-68 | No top node, traffic below the warmup threshold, an unchanged top node or no fetched report: no attempt and the same memory; the first busy top node is remembered |
| `Descheduler.ShiftCycle` | scheduler/pkg/descheduler/evaluate.go:62-107 | A new busy top node with reports of named nodes: an attempt on a node whose latest report scores lowest, and the new top node is remembered |
| `Descheduler.AttemptsBound` | scheduler/pkg/descheduler/evaluate.go:30-108 | Attempts plus a shift still waiting for its reaction never exceed the changes of the busy top node |
| `Descheduler.AttemptsAtMostShifts` | scheduler/pkg/descheduler/evaluate.go:30-108 | In any run, with arbitrary fetch failures, eviction attempts are at most the adjacent changes among top nodes seen above the threshold |
| `Descheduler.AttemptsEqualShifts` | scheduler/pkg/descheduler/evaluate.go:64-107 | With usable fetches every change causes exactly one attempt |

## Left out

- `UpdateNftables.UpdateNftables`: stops before the nftables calls (lines 211-306); that they succeed or fail changes no state of the prober. A bucket is taken to have fewer than 2^32 endpoints, so that `endpoints.len() as u32` does not truncate, and the metric gauges are not modelled.
- `SlotAllocator.AllocateNode`: an overflowing `u32` addition counts as a panic, as in a build with overflow checks; a build without them would wrap, but under the bound of `RoutingTheorems.NeverPanics` no addition overflows.
- `RoutingTheorems.NeverPanics`: assumes that the cap plus half the number of nodes fits a `u32`, which every cap up to 2^31 does for fewer than 2^32 nodes; `PanicTheorems.PanicsIff` has the exact condition for any cap, and `PanicTheorems.LargestCapPanics` a call just above the bound that overflows.
- `RoutingTheorems.FairShare`: speaks of positive, finite scores; `InstallTheorems.InstallsIff` covers a zero latency.
- `Float64.Round`: finite arithmetic is exact real arithmetic, so rounding errors of single operations are not modelled; zero stands for +0.0.
- `Scores.ScoreMonotone`: the power function is a parameter assumed non-negative, positive on positive inputs, monotone, and infinite at infinity for a positive exponent; its internals are not modelled.
- `ActorModel.Actor.Dispatch`: the inputs are what `select!` delivers; cancellation ends the input list, and the ring buffer of the broadcast channel is any in-order, possibly lossy delivery.
- `Probes.LatencyProbe.Round`: HTTP requests are their results, and a failed send that ends the task is not modelled.
- `Probes.CpuUsageProbe.Round`: Prometheus queries are their results, any float included.
- `Reconciler.SharedServices.Reconcile`: `apply_ruleset` is a yes-or-no input and the averages are reals. An arithmetic overflow ends the pass, as in a build with overflow checks; what a wrapping build would send instead is not modelled. A host is taken to have fewer than 2^32 backends.
- `NftablesWatcher.MapEndpointsToHosts`: the regular expression is a function from chain names to addresses, and reading the chains from nftables is not modelled.
- `try_reconcile`: its retry loop is one of the sequences of passes that the protocol theorems quantify over.
- `ReconcilerExtremes.ExceedsHundredIff`: quantifies over the snapshots that a pass with the given averages can meet, and a pass may overflow in another visiting order; for one given snapshot `ReconcilerExtremes.ModulusIsTotals` gives the modulus.
- `Proberv2System.RoutedIffMeasured`: is for 0 < alpha < 1 and a cap with room for the endpoints; `InstallTheorems.InstallsIffServed` has the exact condition for any cap.
- `Proberv2Runs.CurrentEndpointsIff`: the node port of a service is taken as known to the watcher's caller even when the watcher cannot read it.
- `Durations.DurationSeconds`: numbers are unbounded, so that texts beyond 2^53 seconds are read exactly. For the empty text awk reads no record and exits with 0 and no output, where the model gives `None`; `validate_duration` stops the script on it before.
- `Schedule.GenerateSchedule`: starts from the step list split at `;` and `,`; rates are the digit strings that `validate_rate_list` lets through.
- `Schedule.ReadSchedule`: CSV reading is not modelled; of the SQL only the window join is, not the aggregates.
- `Hysteresis.BuildHysteresisRows`: every row has a mean response time.
- `Stages.BuildScenarios`: takes parsed, equally long segments and a positive tick; a tick of 0 makes the original loop forever. `parseLambdas` is not part of this model.
- `Poisson.SamplePoisson`: the exponential function and, for means from 30 on, the result of the rejection method and the number of outputs it takes are parameters, functions of the generator's state and the mean; its loop, logarithms and `logGamma` are not modelled.
- `Poisson.Multiply`: products are exact reals, while the original's doubles are rounded.
- `Stages.DrawRates`: the seed is an integer, and `seed + i * 0x9e3779b1` is exact.
- `Stages.StagesMeanRates`: k6 is represented by linear interpolation between stage targets.
- `Extender.SchedulerExtender.HandleScore`: is one uninterrupted request; the original scores from the live map outside the lock, so a concurrent refresh can change scores between two nodes. The run theorems interleave critical sections freely and do not depend on it.
- `Extender.AlwaysConsistent`: starts without penalties, as after `Warmup`, which runs before the server listens; `Warmup` itself is not modelled.
- `Extender.ClampScore`: scores are reals; NaN and infinite measurements are not modelled.
- `Descheduler.AdaptiveDescheduler.EvaluateCycle`: ends with the attempt; eviction, its outcome and the pod choice are not modelled, nor is starting and stopping the loop.
- Out of scope: the scheduler's filter and bind handlers (threshold checks per node, one API call), the InfluxDB queries, node watching and table set-up, the first prober's own measurements, plotting, and the sample web server.
