# Verified models of gem5/NVMain tooling

This project models, in Dafny, the parts of the gem5 and NVMain tree that carry the most state and the
most arithmetic: how a mesh network is built, weighted, routed and kept free of deadlock; and the
configuration and trace tools around the simulator. The modules are:

| module | what it models |
|---|---|
| `MeshGeometry`, `MeshTopology` | the `Mesh_XY` and `Mesh_westfirst` topology builders |
| `ShortestPath`, `RoutingTable`, `MeshRouting`, `MeshFabric` | the all-pairs analysis of `Topology`, the routing tables, and `RoutingUnit` working on a mesh |
| `MeshDeadlock`, `ChannelOrder`, `NetworkRun`, `EqualWeights` | the routing discipline the link weights enforce, the order of the channels, packets moving through bounded link buffers, and exactly which weights deadlock |
| `Pipeview`, `PipeviewTrace` | the reordering print queue of the O3 pipeline viewer |
| `CptUpgrader`, `CptOrder` | the checkpoint migration loop and exactly when it finishes |
| `BindPorts`, `BindOrder`, `BindAnyOrder` | the greedy port binder of the config reader, exactly when it succeeds, and when any order exists |
| `Protolib`, `InstDepTrace`, `TraceFiles` | varints, message framing, and the two converters of instruction dependency traces |
| `QuickSort` | the in-place Hoare quicksort benchmark |
| `CheckpointAggregator` | merging single-core checkpoints into one memory image |
| `ClusterTopology`, `MemtestTree` | two recursive system builders |
| `CopyrightDates` | the year-range compressor and its parser |
| `Simulation` | the checkpoint schedule and the CPU switching loop |
| `Arithmetic`, `Bits`, `Options`, `StableSort`, `Text` | shared vocabulary: two's-complement bit operations, Python's stable sort, split/join/decimal |

Code that works by updating variables, arrays or objects is a `method` or a `class` proved against a
specification function or predicate; what the code promises is proved about that specification.
`dafny verify dfyconfig.toml` checks everything.

## What the code does beyond, or against, its comments

The models follow the code.

- The route tables only work within a range: `Topology.cc` stands for "no path" with the weight 10000, so a
  controller further away than that has no route and `lookupRoutingTable` is fatal.
  `MeshRouting.RouteExistsExactlyWithinRange` says exactly when, and `MeshRouting.LongRowUnroutable` gives meshes on
  which it happens.
- The link weights are what keeps the tables free of deadlock, as the comment in `RoutingUnit.cc` says:
  `EqualWeights.DeadlocksExactlyWhenProne` says exactly which meshes can deadlock. Any difference between the four weights
  is enough to prevent it; with equal weights `EqualWeights.EqualWeightsDeadlock` leads to a state in which no packet can
  move.
- `o3-pipeview.py` line 134 calls `print_insts` with an argument missing, so a trace that runs past the stop
  point ends in a TypeError (`PipeviewTrace.ViewTrace`; `PipeviewTrace.FetchPastStopRaises` is one such trace).
- `cpt_upgrader.py` lines 60-65 say that depending on a downgraded tag waits for its removal. `ready` waits for its
  presence. `CptUpgrader.ReadyAsDocumented` gives the exact condition under which the two agree.
- The abort message of `cpt_upgrader.py` says the dependencies cannot be resolved. `CptOrder.AbortsThoughOrderExists`
  is a registry where they can, and `CptOrder.FinishesExactlyWhenLayered` says exactly when the loop finishes.
- The comment in `bind_ports` says that one direction of every connection is bindable because the list is
  sorted. `BindOrder.CrossedPairsFail` is a well-formed list that cannot be bound, `BindOrder.FailsThoughOrderExists` one
  that can be bound but not by a single pass over the sorted list, and `BindOrder.BoundExactlyWhenOrderable` says
  exactly when the pass succeeds. `BindAnyOrder.OrderExistsExactlyWhenUnblocked` says when the bindings can be ordered at
  all.
- The example in that comment has a.b[1] bound before a.b[0], which cannot happen; `BindOrder.DocumentedBinds` gives the
  bindings that are made.
- A message with an empty payload ends the stream for `decodeMessage` (`Protolib.MessagesRoundTrip`, `Protolib.EmptyPayloadEndsStream`).
- `process_dates` reads a year range only if both of its years have four digits (`CopyrightDates.YearsRoundTrip`,
  `CopyrightDates.ThreeDigitRunLost`).
- The aggregator pads with the character `0`, not with zero bytes, and a store shorter than its announced pages shifts
  every later checkpoint away from its relocated addresses (`CheckpointAggregator.RelocationPreservesMemory`,
  `CheckpointAggregator.ShortStoreMisplaces`).
- `scriptCheckpoints` does not refresh `exit_cause` after skipping guest checkpoints, so its series ends early
  (`Simulation.GuestCheckpointEndsSeries`, `Simulation.OneGuestCheckpoint`). A first checkpoint past `maxtick` is taken, and
  then a negative number of ticks is simulated (`Simulation.ScriptCheckpoints`).

## Model

| member | source | states |
|---|---|---|
| `MeshTopology.HorizontalLinks` | gem5/configs/topologies/Mesh_XY.py:112-140 | one loop over the grid builds exactly the links of one horizontal direction: every east (or west) neighbour pair once, with that direction's weight and port names, numbered on from the given id |
| `MeshTopology.VerticalLinks` | gem5/configs/topologies/Mesh_XY.py:142-170 | the same for north and south, whose loop runs column by column |
| `MeshTopology.MakeIntLinks` | gem5/configs/topologies/Mesh_XY.py:109-173 | after the four loops the internal links are exactly the ordered pairs of grid neighbours, each once, with consecutive ids |
| `MeshTopology.MakeExtLinks` | gem5/configs/topologies/Mesh_XY.py:77-107 | controllers are dealt out in whole rounds, one to each router in order, and the remaining ones hang off router 0; it succeeds iff all of the remaining ones are DMA controllers, and then every controller is attached exactly once |
| `MeshTopology.EvenShare` | gem5/configs/topologies/Mesh_XY.py:59-91 | every router gets the same number of controllers, their number divided by the number of routers, apart from the remainder |
| `MeshTopology.MakeTopology` | gem5/configs/topologies/Mesh_XY.py:50-173 | the builder succeeds exactly for 0 < rows <= routers with rows dividing routers and a DMA-only remainder; each failure is characterised; the result is the full mesh with the controllers dealt out round by round |
| `MeshTopology.LinkLabels` | gem5/configs/topologies/Mesh_XY.py:109-173 | every internal link joins two neighbours, and its weight, port names, latency and id follow from the difference of their coordinates, for both meshes |
| `MeshTopology.LinkIdsContiguous` | gem5/configs/topologies/Mesh_XY.py:86-140 | external and internal link ids together are 0, 1, 2, ... without gap or repetition |
| `ShortestPath.BestDetour` | gem5/src/mem/ruby/network/Topology.cc:233-243 | the inner minimisation returns a value realised by a walk and below every one-stop detour |
| `ShortestPath.Sweep` | gem5/src/mem/ruby/network/Topology.cc:228-253 | one in-place sweep keeps every entry realised by a walk; a change strictly lowers the total, no change means the triangle inequality holds everywhere |
| `ShortestPath.TriangleBoundsWalks` | gem5/src/mem/ruby/network/Topology.cc:219-264 | once the triangle inequality holds, an entry is at most the weight of any walk of any length |
| `ShortestPath.ExtendShortestPath` | gem5/src/mem/ruby/network/Topology.cc:219-264 | the loop terminates and its matrix holds, for every pair, the least weight over all walks, and that weight is attained |
| `ShortestPath.LeastWeightsUnique` | gem5/src/mem/ruby/network/Topology.cc:219-264 | a matrix of least walk weights is determined by the link weights alone, so the sweep order does not matter |
| `RoutingTable.CollectLinks` | gem5/src/mem/ruby/network/Topology.cc:51-105 | the link map holds exactly the pairs that a link joins, external links in both directions, each with the weight of the last link that joins it |
| `RoutingTable.MaxSwitch` | gem5/src/mem/ruby/network/Topology.cc:110-117 | the greatest switch number that occurs in the link map |
| `RoutingTable.WeightMatrix` | gem5/src/mem/ruby/network/Topology.cc:119-142 | entry (x, y) is the weight of the last link from x to y, otherwise 0 on the diagonal and 10000 elsewhere; the matrix is exactly as large as the highest switch needs |
| `RoutingTable.PortsOf` | gem5/src/mem/ruby/network/Topology.cc:148-157 | a switch gets exactly one port per real link, in order of the far switch, and a port lists machine e iff the link starts a least-weight walk to e |
| `RoutingTable.LookupRoutingTable` | gem5/src/mem/ruby/network/garnet2.0/RoutingUnit.cc:67-115 | the candidates are exactly the least-weight ports that list one of the destinations; the first is taken on an ordered network, the random one otherwise; no port is fatal |
| `MeshRouting.WalkAbovePotential` | gem5/src/mem/ruby/network/Topology.cc:266-309 | no walk over the links of a mesh is lighter than the weighted grid distance, capped at 10000 |
| `MeshRouting.DistanceOnMesh` | gem5/src/mem/ruby/network/Topology.cc:219-264 | on a mesh the computed distance is the closed-form weighted grid distance plus the exit link, capped at 10000 |
| `MeshRouting.RouteExistsExactlyWithinRange` | gem5/src/mem/ruby/network/Topology.cc:266-309 | a router has a candidate port for a controller iff the weighted distance is at most 10000, and then the candidates are exactly the exit link or the links that bring the packet closer |
| `MeshRouting.NoRouteFromAfar` | gem5/src/mem/ruby/network/Topology.cc:42 | from 10000 hops away on, no router has a port towards a controller |
| `MeshRouting.LongRowUnroutable` | gem5/src/mem/ruby/network/Topology.cc:42 | on every mesh of more than 10000 columns with a controller per router, the first router has no route to the end of its row |
| `MeshRouting.TakesIsAllowed` | gem5/src/mem/ruby/network/garnet2.0/RoutingUnit.cc:67-115 | every hop that the routing unit may choose is productive and lightest among the productive directions |
| `MeshRouting.AllowedIsTaken` | gem5/src/mem/ruby/network/garnet2.0/RoutingUnit.cc:67-115 | conversely every lightest productive direction may be chosen by the routing unit |
| `MeshFabric.MatrixSize` | gem5/src/mem/ruby/network/Topology.cc:110-122 | for a mesh the matrix has one row per machine input, machine output and router |
| `MeshFabric.BuildFabric` | gem5/src/mem/ruby/network/Topology.cc:51-157 | topology builder, weight matrix and all-pairs analysis composed, for any positive weights below 10000: exactly when they succeed, and that the result is a valid fabric |
| `MeshFabric.OutportCompute` | gem5/src/mem/ruby/network/garnet2.0/RoutingUnit.cc:138-172 | at any router, for any virtual network and random number: no route iff the destination is beyond weight 10000; at the home router the packet leaves; elsewhere it moves by an allowed hop |
| `EqualWeights.TurnTaken` | gem5/src/mem/ruby/network/garnet2.0/RoutingUnit.cc:60-65 | with equal weights a packet may go around every corner to the router behind it |
| `EqualWeights.EqualWeightsDeadlock` | gem5/src/mem/ruby/network/garnet2.0/RoutingUnit.cc:60-65 | on every mesh of at least two by two routers with a controller on each, equal weights and two hops within range, for every buffer capacity, injections alone lead to a state in which no packet can move |
| `EqualWeights.DeadlocksExactlyWhenProne` | gem5/src/mem/ruby/network/garnet2.0/RoutingUnit.cc:60-65 | for any positive weights, mesh size, controllers and capacity: some run from the empty network gets stuck iff there are two rows, two columns, a controller on every router, four equal weights, and 2 * weight + 1 <= 10000 |
| `MeshDeadlock.XYDiscipline` | gem5/configs/topologies/Mesh_XY.py:36-39 | the Mesh_XY weights allow exactly the productive hops that finish all horizontal ones first |
| `MeshDeadlock.WestFirstDiscipline` | gem5/configs/topologies/Mesh_westfirst.py:36-44 | the Mesh_westfirst weights allow exactly the productive hops that finish all west ones first |
| `MeshDeadlock.XYHopUnique` | gem5/configs/topologies/Mesh_XY.py:36-39 | under the Mesh_XY weights there is one choice at each hop |
| `MeshDeadlock.RouteLength` | gem5/src/mem/ruby/network/garnet2.0/RoutingUnit.cc:67-115 | for any weights, every hop of every table route reduces the Manhattan distance by one |
| `MeshDeadlock.MaximalRouteArrives` | gem5/src/mem/ruby/network/garnet2.0/RoutingUnit.cc:67-115 | a route that cannot be extended has arrived, in exactly the Manhattan distance |
| `MeshDeadlock.XYOrder` | gem5/configs/topologies/Mesh_XY.py:36-39 | on a Mesh_XY route no horizontal hop follows a vertical one |
| `MeshDeadlock.WestFirstOrder` | gem5/configs/topologies/Mesh_westfirst.py:36-44 | on a Mesh_westfirst route no west hop follows a hop in another direction |
| `ChannelOrder.RankClimbs` | gem5/configs/topologies/Mesh_westfirst.py:116-167 | for any weights that are not all equal, any mesh size and any tie-breaking, a channel rank strictly increases along any two consecutive hops of a packet; the same if the mesh is a single line, has fewer controllers than routers, or no two hops within range |
| `ChannelOrder.NoCyclicWait` | gem5/configs/topologies/Mesh_westfirst.py:36-44 | on every such mesh no chain of channel dependencies of any length closes into a cycle |
| `ChannelOrder.StylesAreSafe` | gem5/configs/topologies/Mesh_westfirst.py:36-44 | the weights of both meshes are of this kind, for every size |
| `NetworkRun.StepKeepsLegit` | gem5/src/mem/ruby/network/garnet2.0/RoutingUnit.cc:138-172 | injecting, advancing and ejecting keep buffers within capacity and every packet on a link its table allows |
| `NetworkRun.DeadlockFree` | gem5/configs/topologies/Mesh_westfirst.py:36-44 | in every legitimate state of a mesh that is not prone to deadlock, a packet in flight means that some packet is not blocked |
| `NetworkRun.MovePaysOne` | gem5/src/mem/ruby/network/garnet2.0/RoutingUnit.cc:138-172 | every advance or ejection reduces the remaining hop count of the network by exactly one |
| `NetworkRun.RunsStayLegit` | gem5/src/mem/ruby/network/garnet2.0/RoutingUnit.cc:138-172 | every state of every run from the empty network is legitimate |
| `NetworkRun.NoRunDeadlocks` | gem5/configs/topologies/Mesh_westfirst.py:36-44 | after any run from the empty network of such a mesh, with any buffer capacity of at least one, a packet in flight means a move is possible |
| `NetworkRun.NetworkDrains` | gem5/configs/topologies/Mesh_westfirst.py:36-44 | on such a mesh, without new packets, every run ends within the remaining hop count, and a run that cannot continue has delivered every packet |
| `Pipeview.OutputIsFilteredInput` | gem5/util/o3-pipeview.py:157-188 | whatever the thresholds and the order of arrival, an instruction is printed as often as it was queued if its sequence number and fetch tick lie within the bounds, which are inclusive and ignored unless positive, and it was committed if that is asked for; otherwise never |
| `Pipeview.InTimeExactly` | gem5/util/o3-pipeview.py:47-52 | an arrival belongs behind everything printed so far iff at most as many larger sequence numbers came before it as the queue holds |
| `Pipeview.EnqueueStaysInStep` | gem5/util/o3-pipeview.py:157-164 | one such arrival keeps printed plus queued equal to the stable sort of everything seen |
| `Pipeview.QueueLengthIs` | gem5/util/o3-pipeview.py:157-164 | the length of the queue depends on the number of arrivals only |
| `Pipeview.QueueLengthClosed` | gem5/util/o3-pipeview.py:157-188 | it grows to the larger threshold once and from then on goes back and forth between the thresholds, in closed form |
| `Pipeview.StreamingIsSorting` | gem5/util/o3-pipeview.py:157-188 | if nothing is out of order by more than min_threshold places, the streamed output is the stable sort of the whole trace, filtered |
| `Pipeview.OutputSorted` | gem5/util/o3-pipeview.py:47-52 | hence the output is in sequence-number order |
| `Pipeview.OutputStable` | gem5/util/o3-pipeview.py:153-188 | within the bound, instructions with equal sequence numbers are printed in order of arrival |
| `Pipeview.SortedExactlyWhenTimely` | gem5/util/o3-pipeview.py:47-52 | with no window filter set, the output is in order iff no instruction is preceded by more larger sequence numbers than the queue holds at its arrival |
| `Pipeview.BoundIsTight` | gem5/util/o3-pipeview.py:47-52 | for all thresholds, with no window filter set, a trace one place more out of order is printed out of order |
| `PipeviewTrace.Viewer.PrintInsts` | gem5/util/o3-pipeview.py:166-188 | the sort-and-pop loop takes the smallest sequence numbers off the queue until the threshold, and prints of what was taken exactly the instructions within the inclusive bounds |
| `PipeviewTrace.Viewer.QueueInst` | gem5/util/o3-pipeview.py:157-164 | appending with overflow refines the enqueue of the specification |
| `PipeviewTrace.Viewer.ProcessTrace` | gem5/util/o3-pipeview.py:70-150 | skipping to the region of interest and the main loop: the TypeError happens iff the trace runs past the stop point, and then what overflowed the queue before is all that was printed; otherwise everything retired is printed as specified |
| `PipeviewTrace.ViewTrace` | gem5/util/o3-pipeview.py:70-188 | end to end: the TypeError happens iff some fetch past the stop point by more than the drift follows the start, and what is printed before it; otherwise an instruction is printed as often as it retired if its recorded sequence number, fetch tick and retire tick are within the bounds, and never else; in order exactly for the traces above, and when the disorder is bounded sorted with equal sequence numbers in order of arrival |
| `PipeviewTrace.SkippingHidesNothing` | gem5/util/o3-pipeview.py:83-107 | the lines skipped in front of the region of interest only belong to instructions that the bounds hide: reading from the first fetch on shows the same instructions |
| `PipeviewTrace.CompleteTraceRecorded` | gem5/util/o3-pipeview.py:126-144 | for a trace that lists all stages of every instruction, each one is queued once, in order of retirement, with its own text and the tick of each stage, a squashed one marked |
| `CptUpgrader.ApplyRound` | gem5/util/cpt_upgrader.py:146-154 | applying the ready set in any iteration order gives the same tags and folds each script into the checkpoint once |
| `CptUpgrader.Migrate` | gem5/util/cpt_upgrader.py:240-252 | the loop runs at most as many rounds as there are needed scripts and stops at a state where nothing is ready, either finished or with the stuck set |
| `CptUpgrader.StopsAtLeastFixedPoint` | gem5/util/cpt_upgrader.py:240-252 | with upgraders only, the final tags are the least set that contains the initial tags and is closed under the dependencies |
| `CptUpgrader.FinishesExactlyWhenObtainable` | gem5/util/cpt_upgrader.py:240-252 | with upgraders only, the stuck set is exactly the tags outside every derivation, and is empty iff all are obtainable |
| `CptUpgrader.AbortsExactlyOnDeadlock` | gem5/util/cpt_upgrader.py:240-246 | with upgraders only, the loop aborts iff there is a set of missing tags that wait for each other or for an unknown tag |
| `CptUpgrader.FinalTags` | gem5/util/cpt_upgrader.py:239-258 | for any mix, a normal exit leaves (initial tags plus tag_set) minus untag_set, and a second run has nothing to apply |
| `CptUpgrader.AppliedExactlyOnce` | gem5/util/cpt_upgrader.py:240-252 | for any mix, the run applies each script that left the pending set exactly once and nothing else |
| `CptUpgrader.DependenciesFirst` | gem5/util/cpt_upgrader.py:140-144 | for any mix, everything a script depends on was there initially or was applied before it |
| `CptUpgrader.OrderIrrelevant` | gem5/util/cpt_upgrader.py:248-252 | two runs stop in the same round whatever the set iteration order, with the same checkpoint if the scripts commute |
| `CptUpgrader.ReadyAsDocumented` | gem5/util/cpt_upgrader.py:60-65 | ready agrees with the header comment iff the script depends on no downgraded tag |
| `CptUpgrader.AbsentDependencyBlocks` | gem5/util/cpt_upgrader.py:140-144 | a script that depends on an absent tag without an upgrader is never applied |
| `CptUpgrader.ConvertLegacy` | gem5/util/cpt_upgrader.py:211-222 | a tag is in the result iff it is the tag of a version from 2 up to the given one; it fails iff one of these versions has no script |
| `CptUpgrader.ProcessFile` | gem5/util/cpt_upgrader.py:187-262 | each outcome of a whole file and exactly when it occurs; only scripts are applied that add a tag the file lacks or remove one it carries, each once, and all of them unless it aborts; a file with a version number carries the tags of versions 2 up to it; what is written back has no version number and exactly the tags carried or added and not removed, and would be left alone next time |
| `CptUpgrader.LinkLegacy` | gem5/util/cpt_upgrader.py:167-171 | the gapless legacy versions from 3 on depend on exactly the version before, other scripts are unchanged, and the KeyError happens iff version 3 exists without version 2 |
| `CptUpgrader.VersionsInOrder` | gem5/util/cpt_upgrader.py:167-252 | the scripts of the chained versions are applied in order: the version before was carried by the file or applied earlier |
| `CptOrder.RoundsAreLayers` | gem5/util/cpt_upgrader.py:240-252 | round n of the loop applies exactly layer n of any layering of the dependencies |
| `CptOrder.FinishesExactlyWhenLayered` | gem5/util/cpt_upgrader.py:239-252 | for any mix, the loop finishes iff the needed scripts can be layered: each in the earliest layer after the upgrades it waits for, with no downgrade it depends on in an earlier layer |
| `CptOrder.AbortsThoughOrderExists` | gem5/util/cpt_upgrader.py:243-246 | a registry whose scripts can be applied one by one with all dependencies present, on which the loop aborts |
| `QuickSort.Scan` | benchmarks/quicksort.c:12-13 | the unguarded scans stop within the bounds, at elements not below and not above the pivot |
| `QuickSort.Partition` | benchmarks/quicksort.c:6-17 | Hoare partition: a permutation of the range, no index outside it, small left of i, large right of j, the indices crossed by at most one |
| `QuickSort.Assembled` | benchmarks/quicksort.c:5-22 | a partition followed by two sorted halves is a sorted permutation of the original |
| `QuickSort.QuickSort` | benchmarks/quicksort.c:5-22 | in place: the range is sorted, permuted, and nothing outside it changes |
| `BindPorts.BindPorts` | gem5/configs/example/read_config.py:290-336 | the two loops compute the specified result, including the missing-key failure and the final count check |
| `BindPorts.ConnectionOrder` | gem5/configs/example/read_config.py:148-150 | connections are visited by their first port, then by the second; ports by object, name and index, with strings in dictionary order |
| `BindPorts.BoundIsPerfect` | gem5/configs/example/read_config.py:308-336 | when it does not raise, exactly one direction of every connection is made, none within one vector, and the k-th binding of every port vector is index k |
| `BindPorts.BoundNeedsWellNumbered` | gem5/configs/example/read_config.py:290-336 | it can only succeed if every port is in one connection and no vector has a gap |
| `BindOrder.CrossedPairsFail` | gem5/configs/example/read_config.py:308-318 | two vectors joined crosswise are well numbered and listed from both ends, yet cannot be bound |
| `BindOrder.StarBinds` | gem5/configs/example/read_config.py:308-336 | a well-numbered list in which every connection has a scalar end is always bound completely |
| `BindOrder.SelectionSuffices` | gem5/configs/example/read_config.py:318-336 | if every connection can be given one of its ends such that its predecessors in both vectors have theirs sooner in the sort order, the greedy pass makes every connection |
| `BindOrder.BoundExactlyWhenOrderable` | gem5/configs/example/read_config.py:308-336 | it succeeds iff the list is well numbered and every connection can be given one of its ends such that its predecessors in both vectors have theirs sooner in the sort order |
| `BindOrder.FailsThoughOrderExists` | gem5/configs/example/read_config.py:318-336 | a list of three connections that can be bound in index order one after the other, for which the pass raises |
| `BindOrder.DocumentedBinds` | gem5/configs/example/read_config.py:314-320 | the connections of the example in the comment are bound, from d.f[0] on, in another order than it shows |
| `BindAnyOrder.OrderExistsExactlyWhenUnblocked` | gem5/configs/example/read_config.py:333-336 | the bindings can be ordered at all iff the list is well numbered and there is no set of connections each of which has a predecessor in the set |
| `BindAnyOrder.CrossedUnorderable` | gem5/configs/example/read_config.py:333-336 | the crossed pairs cannot be bound in any order |
| `Protolib.DecodeVarint32` | gem5/util/protolib.py:101-129 | on any stream: the value, end of file or the IOError of the specification, and exactly the bytes of the varint consumed |
| `Protolib.EncodeVarint32` | gem5/util/protolib.py:146-158 | appends the shortest base-128 form of the value |
| `Protolib.VarintRoundTrip` | gem5/util/protolib.py:101-158 | every value below 2^32 takes its minimal one to five bytes and reads back exactly, leaving the rest |
| `Protolib.VarintLength` | gem5/util/protolib.py:146-158 | for every value, n bytes suffice iff it is below 2^(7n) |
| `Protolib.AnyVarint` | gem5/util/protolib.py:101-129 | on any bytes at most ten are read, and a completed value is within 33 signed bits, congruent modulo 2^32 to the base-128 number, and negative iff that number is at least 2^63 |
| `Protolib.VarintOutcome` | gem5/util/protolib.py:112-129 | the IOError happens iff the first ten bytes all announce another, end of file iff all of fewer than ten do, and otherwise the varint ends at the first byte that does not |
| `Protolib.EncodeMessage` | gem5/util/protolib.py:160-166 | appends one length-prefixed frame |
| `Protolib.DecodeMessage` | gem5/util/protolib.py:131-144 | reads one frame off the stream as specified, or reports the end |
| `Protolib.TruncatedFrame` | gem5/util/protolib.py:131-144 | a frame that is cut off in its payload is delivered as far as it goes |
| `Protolib.FramesRead` | gem5/util/protolib.py:131-166 | reading back any list of framed payloads gives the payloads up to the first empty one |
| `Protolib.MessagesRoundTrip` | gem5/util/protolib.py:131-166 | reading back gives the whole list iff no payload is empty |
| `InstDepTrace.PrintRecord` | gem5/util/decode_inst_dep_trace.py:157-206 | the field-by-field printer produces the specified line |
| `InstDepTrace.LineLayout` | gem5/util/decode_inst_dep_trace.py:157-206 | two colons separate the fields from the order and the register dependencies, and a newline ends the line |
| `InstDepTrace.ComputationInfo` | gem5/util/decode_inst_dep_trace.py:161-191 | the fields of a computation in documented order, with 0 for a missing pc and 1 for a missing weight |
| `InstDepTrace.AccessInfo` | gem5/util/decode_inst_dep_trace.py:161-191 | the fields of a load or store, with address, size and flags between type and delay |
| `InstDepTrace.DepTextLayout` | gem5/util/decode_inst_dep_trace.py:194-205 | a dependency list has a comma in front of every element and is empty without one |
| `InstDepTrace.ParseLine` | gem5/util/encode_inst_dep_trace.py:150-198 | the parser loop computes the specified record or the specified failure |
| `InstDepTrace.TwoColons` | gem5/util/encode_inst_dep_trace.py:150-151 | a line is rejected for its shape iff it does not have exactly two colons |
| `InstDepTrace.BlanksIgnored` | gem5/util/encode_inst_dep_trace.py:151 | blanks around a line do not change what it means |
| `InstDepTrace.ExtraFieldsIgnored` | gem5/util/encode_inst_dep_trace.py:152-180 | fields behind the last one used do not change an accepted line |
| `InstDepTrace.EmptyItemsIgnored` | gem5/util/encode_inst_dep_trace.py:184-195 | empty items of a dependency list do not change what it means |
| `InstDepTrace.LineRoundTrip` | gem5/util/encode_inst_dep_trace.py:150-198 | parsing a printed record returns it, with pc and weight defaults filled in and all dependencies in order, iff the record is a computation without or a load/store with address, size and flags |
| `InstDepTrace.NormalisedPrintsTheSame` | gem5/util/decode_inst_dep_trace.py:157-206 | filling in the defaults does not change the printed line |
| `TraceFiles.EncodeTrace` | gem5/util/encode_inst_dep_trace.py:114-203 | the whole encoder: it fails iff a line is rejected, and otherwise writes the magic number, the header frame and the frame of the record of every line, in order |
| `TraceFiles.LinesOfText` | gem5/util/encode_inst_dep_trace.py:150 | the lines joined are the text; none is empty, a newline is only at the end of a line, and only the last one may lack it |
| `TraceFiles.FinalNewlineOptional` | gem5/util/encode_inst_dep_trace.py:150-151 | a text without a final newline is encoded like the same text with one |
| `TraceFiles.DecodeTrace` | gem5/util/decode_inst_dep_trace.py:112-214 | the whole decoder, which fails iff the file does not begin with the magic number |
| `TraceFiles.TraceRoundTrip` | gem5/util/decode_inst_dep_trace.py:112-214 | encoding the printed text of well-formed records and decoding the file gives the same text, for every serialisation that can read back the messages of these records |
| `CheckpointAggregator.UnrenameRename` | gem5/util/checkpoint_aggregator.py:67-70 | renaming can be undone, keeps the number recoverable and keeps the section a cpu section |
| `CheckpointAggregator.HasCpuExactly` | gem5/util/checkpoint_aggregator.py:68 | a section is a cpu section iff "cpu" occurs in its name |
| `CheckpointAggregator.RenameFirst` | gem5/util/checkpoint_aggregator.py:69 | the number goes right behind every "cpu", from the first one on |
| `CheckpointAggregator.NamesFdMapExactly` | gem5/util/checkpoint_aggregator.py:79 | a file descriptor map is a section whose name ends in "workload", any character and "FdMap256" |
| `CheckpointAggregator.RenamedSectionsDiffer` | gem5/util/checkpoint_aggregator.py:59-70 | renamed cpu sections of different checkpoints, or different sections of one, never collide, nor do they collide with other sections |
| `CheckpointAggregator.WrittenDistinct` | gem5/util/checkpoint_aggregator.py:67-92 | if no checkpoint repeats a section name, the merged configuration repeats none |
| `CheckpointAggregator.CopyPages` | gem5/util/checkpoint_aggregator.py:97-112 | the page loop appends the announced pages, or all that a shorter store has |
| `CheckpointAggregator.RelocationPreservesMemory` | gem5/util/checkpoint_aggregator.py:74-112 | every copied byte is in the merged image behind the earlier checkpoints, and at its relocated address iff every earlier store is complete |
| `CheckpointAggregator.RegionsDisjoint` | gem5/util/checkpoint_aggregator.py:74-112 | relocated addresses of different checkpoints never coincide |
| `CheckpointAggregator.AlignedExactlyWhenFull` | gem5/util/checkpoint_aggregator.py:97-116 | the image grows in step with the page pointer iff every store so far is complete |
| `CheckpointAggregator.Pad` | gem5/util/checkpoint_aggregator.py:121-129 | padding adds whole pages until the memory size rounded up, and nothing if that is reached |
| `CheckpointAggregator.WriteSections` | gem5/util/checkpoint_aggregator.py:67-92 | per checkpoint: its part of the merged configuration, which `WrittenIsMerged` describes, and the latest tick |
| `CheckpointAggregator.WrittenIsMerged` | gem5/util/checkpoint_aggregator.py:67-92 | every cpu section of every checkpoint is written under its new name, its address leading to the same byte of the merged image as before if no earlier store is short, its entries kept except that a file descriptor map gets the number of the checkpoint as process id; the shared sections of the last checkpoint are written unchanged; nothing else is |
| `CheckpointAggregator.AggregateAll` | gem5/util/checkpoint_aggregator.py:44-145 | the merged checkpoint: every cpu section with its address leading to the same memory and its entries kept, the last checkpoint's shared sections, distinct names, the latest tick, the total of pages, the image with its padding and the range size; the image has that size iff every store is complete |
| `ClusterTopology.Network.MakeTopology` | gem5/configs/topologies/Cluster.py:76-124 | the recursive builder with its class-wide counters appends exactly what the tree describes and advances the counters accordingly |
| `ClusterTopology.Network.AddCluster` | gem5/configs/topologies/Cluster.py:91-112 | a sub-cluster is built and joined to the router in both directions with the overridden bandwidth and latency |
| `ClusterTopology.LengthCountsControllers` | gem5/configs/topologies/Cluster.py:126-128 | __len__ counts exactly the controllers in the tree |
| `ClusterTopology.ClusterTopologyConnected` | gem5/configs/topologies/Cluster.py:43-128 | for every tree: one router per cluster, 2 * (clusters - 1) internal links, one external link per controller, consecutive ids per kind, and a directed path between any two routers |
| `ClusterTopology.LinksInPlace` | gem5/configs/topologies/Cluster.py:58-124 | every controller hangs off the router of the cluster that lists it and every internal link joins a cluster and a sub-cluster of it; bandwidth and latency are the internal ones of the cluster unless the sub-cluster has external ones, and a zero gives none |
| `MemtestTree.NumTesters` | gem5/configs/example/memtest.py:118-129 | the accumulating loop computes the recursive count of testers |
| `MemtestTree.WeightedSumIsTesters` | gem5/configs/example/memtest.py:118-129 | the weighted sum of the loop equals the count over the recursive tree, also for lists of unequal length |
| `MemtestTree.CheckSpec` | gem5/configs/example/memtest.py:154-179 | the checks pass iff the spec is valid, including the block-size limit, and which error is reported for which spec |
| `MemtestTree.MakePrototypes` | gem5/configs/example/memtest.py:192-216 | the cloning loop builds one prototype per level: size, associativity and MSHRs are those of the L1 cache times the product of the counts on the way, latencies ten times as long per level, inclusivity alternating |
| `MemtestTree.PrototypeLevels` | gem5/configs/example/memtest.py:192-216 | the last prototype is the L1 cache, and each one before it has the scaled parameters and the opposite inclusivity of the next |
| `MemtestTree.System.MakeCacheLevel` | gem5/configs/example/memtest.py:238-299 | the recursion adds exactly the counted testers and, at each level, one subsystem per path of caches; every index handed out belongs to one subsystem that exists |
| `MemtestTree.MakeTree` | gem5/configs/example/memtest.py:234-302 | the whole tree has numtesters testers, at most one per byte of a block; the subsystems of a level are exactly the indices below the product of the cache counts on the way to it; no name occurs twice |
| `MemtestTree.SubsysNameInjective` | gem5/configs/example/memtest.py:247-250 | a subsystem name determines its level and index |
| `CopyrightDates.CompressRuns` | gem5/util/find_copyrights.py:186-199 | the pop loop emits the texts of the maximal runs of the years, increasing and not mergeable |
| `CopyrightDates.Datestr` | gem5/util/find_copyrights.py:175-199 | whatever order the set is listed in, the output is the decomposition of the set into maximal runs; the empty set is the pop error |
| `CopyrightDates.MaximalUnique` | gem5/util/find_copyrights.py:186-199 | a set of years has exactly one decomposition into maximal runs, so the output is a function of the set |
| `CopyrightDates.ProcessDates` | gem5/util/find_copyrights.py:98-116 | a year is in the result iff it is among the years of some comma-separated item, ranges included |
| `CopyrightDates.RangeFound` | gem5/util/find_copyrights.py:98-104 | four digits, a dash with any blanks around it and four digits are a range, whatever follows |
| `CopyrightDates.RangeParts` | gem5/util/find_copyrights.py:98-104 | nothing else is a range |
| `CopyrightDates.RunBack` | gem5/util/find_copyrights.py:98-116 | a printed run never reads back as more years, and reads back completely iff it is one year or both ends have four digits |
| `CopyrightDates.YearsRoundTrip` | gem5/util/find_copyrights.py:98-199 | printing and parsing a set of years gives the set iff every run of several years has four-digit ends |
| `CopyrightDates.FourDigitRuns` | gem5/util/find_copyrights.py:98-199 | every set of four-digit years meets that condition |
| `CopyrightDates.PrintAndRead` | gem5/util/find_copyrights.py:98-199 | datestr followed by process_dates, on any listing of a non-empty set: the set comes back iff its maximal runs are readable, in particular if all years have four digits |
| `Simulation.RunUntil` | gem5/configs/common/Simulation.py:230-239 | the first wait goes on after every guest checkpoint; it ends at the requested tick unless something else stops it |
| `Simulation.RunPeriod` | gem5/configs/common/Simulation.py:247-258 | one period of the loop, and that the cause the loop looks at is the limit only if no guest checkpoint was skipped |
| `Simulation.ScriptCheckpoints` | gem5/configs/common/Simulation.py:230-265 | for any arguments: the k-th checkpoint is taken at when + k * period, none past maxtick if the first is not, how many there are for any sequence of interruptions, and when a negative limit is requested; an undisturbed run ends at maxtick if fewer fit than are wanted and at the last checkpoint otherwise |
| `Simulation.SeriesComplete` | gem5/configs/common/Simulation.py:247-263 | the series is complete iff every period but the last is free of guest checkpoints and cut short by nothing, and the last reaches its end |
| `Simulation.GuestCheckpointEndsSeries` | gem5/configs/common/Simulation.py:253-263 | the checkpoint of the first period with a guest checkpoint is the last one |
| `Simulation.TakenWithin` | gem5/configs/common/Simulation.py:230-265 | never more checkpoints than wanted and fitting before maxtick, and exactly those without interruptions |
| `Simulation.RepeatSwitch` | gem5/configs/common/Simulation.py:411-429 | every switch leaves the active CPUs for the others and switches are at least switch_freq apart; if the first interval fits, never past maxtick, and undisturbed to the end with exactly one switch per interval that leaves ticks to run, at least one; otherwise at most one switch and then a negative limit |
| `Simulation.AlternatedIs` | gem5/configs/common/Simulation.py:421-424 | the pair lists alternate between the given one and its swap |

## Left out

- Flits, virtual channels, credits and pipeline stages of garnet: `NetworkRun` has one bounded first-in first-out buffer per link and moves whole packets, so it shows freedom from routing deadlock, not from protocol deadlock.
- The simple network, `outportComputeXY` and custom routing: the model covers the table-based routing unit only.
- Latencies and inter-switch counts of the all-pairs analysis: they are recorded beside the weights and do not influence the routes.
- Router, link and controller objects, bandwidths of the mesh, and the other topologies (`Crossbar`, `Pt2Pt`, `MeshDirCorners_XY`): they would only add easy members.
- MeshFabric.BuildFabric: requires positive link weights below 10000, as both meshes have, and controllers numbered 0 up to their count, which in the source is the job of the generated machine-type tables.
- Drawing of the timeline rows and the printed header of the pipeline viewer, and splitting its lines into fields: an instruction is its sequence number, the ticks of its stages and its text.
- PipeviewTrace.SkippingHidesNothing: requires start points that are not negative, as `validate_range` does, and that no stage but the fetch writes the fetch tick; ticks of stages that a trace leaves out are not compared.
- Reading script files, `fwd_depends` and the audit in `load_all` of the checkpoint upgrader: the registry is a parameter, and so is what a script does to a checkpoint.
- CptUpgrader.LinkLegacy: requires every legacy version to be that of a registered script of its own, as loading the scripts ensures when no tag is used twice.
- CptUpgrader.StopsAtLeastFixedPoint: stated for registries without downgraders, since with them the tags do not grow; the result for any mix is `CptOrder.FinishesExactlyWhenLayered`.
- CptUpgrader.FinishesExactlyWhenObtainable: stated for registries without downgraders, for the same reason.
- CptUpgrader.AbortsExactlyOnDeadlock: stated for registries without downgraders, for the same reason.
- QuickSort.QuickSort: requires right to be at most 2^30, so that the midpoint sum does not overflow; the elements are unbounded integers, which are only compared and moved.
- Parsing of the port names and the attribute assignments that carry the bindings out in the config reader.
- BindPorts.BoundIsPerfect: requires a list that names every connection from both ends, as the docstring demands of the caller.
- The fields of protobuf messages: serialisation is a pair of functions that have to be inverse on the records of the trace, and field ranges are not modelled.
- InstDepTrace.ParseLine: accepts numbers made of digits only, which is what the printer emits; Python's `long` also accepts signs, blanks and a trailing L.
- CopyrightDates.ProcessDates: likewise ignores items that are not made of digits; Python's `int` also accepts a sign.
- Protolib.EncodeVarint32: does not model negative values, on which the source would not terminate.
- Compression, file system access, and sections or options missing from a checkpoint, in the aggregator: a checkpoint is its sections, tick, page count and store.
- Connecting caches, crossbars and testers to each other, and random trees, in the memory test: the tree is counted, not wired.
- The instruction-count path of `scriptCheckpoints`, the other checkpoint functions, and CPU construction in `Simulation.py`.
- Simulation.ScriptCheckpoints: ends at a call with a negative limit, whatever the simulator does with it; a simulator step stops at its limit or earlier for one of finitely many reasons.
- Simulation.RepeatSwitch: requires a positive switch_freq, for which alone the caller invokes it; it also ends at a call with a negative limit; switching and checkpointing take no ticks.
- Everything else in the tree, such as CPU, cache and memory timing models: the properties above do not depend on it.
