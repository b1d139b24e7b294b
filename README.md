# Road network routing core, in Dafny

This project models the routing core of a small Rust library for OpenStreetMap road
graphs (`src/lib.rs`, modules `road_network` and `road_dijkstras`):

- `options.dfy` — `Option`, and module `SetFacts`: the predicate `Distinct` (no repeated
  id), the function `SeqOfSet` (a set listed in some order, each element once) and the
  lemma `EmptyOrMember`.
- `road_network.dfy` — module `RoadNetworks`. It holds the node, way and graph records, the
  speed table `speed_calc`, the segment travel time, and `RoadNetwork::new`. The builder
  walks every way segment by segment. It writes each usable segment into the adjacency map
  `tail -> head -> (cost, arc flag)` in both directions, then drops the nodes that received
  no entry.
- `road_dijkstras.dfy` — module `RoadDijkstras`. It holds the search records and
  `get_path`, the A* heuristic table, and the `RoadDijkstra` engine: `new`, the two bound
  setters, `get_neighbors`, `dijkstra`, `get_unvisted_node_id` and `reset_all_flags`.
- `components.dfy` — module `Components`, with `reduce_to_largest_connected_component`.
  It is a module of its own because the two Rust modules import each other and Dafny
  modules cannot.

The model follows the code's own form:
- `RoadNetwork::new`, the search loop, the neighbour loop, `get_path`, `reset_all_flags`
  and the component rounds are methods with loops.
  - The builder, the neighbour loop, `get_path` and `reset_all_flags` are proved equal to a
    specification function: a left fold of segment steps, a relaxation function, a
    parent-chain function and a flag-rewriting function.
  - The search loop is proved against invariant predicates. `Running` holds at each pop, and
    `SearchOutcome` describes how a run ends.
  - The component rounds are proved against the invariant predicate `Tagging`.
- The engine is a class whose methods update its fields.
- `speed_calc` and `a_star_heuristic` are functions.
- The search records form an arena. A record names its parent by index, in place of the
  source's shared parent reference.

Properties proved:
- **Builder.** These results hold when each input node is stored under its own id. The
  adjacency map is symmetric with equal costs and every flag false. An edge exists exactly
  when some way has a segment joining the two ids with both ends known nodes, and it costs
  what the last such segment charges. A node is kept exactly when it has an entry, and
  every edge end is a kept node.
- **Search.**
  - Every record is a real walk from the source whose edge costs add up to its distance.
  - A best-known distance only ever drops.
  - The predecessor map names only usable edges. Each entry is the parent of a least record
    at its node.
  - A found record is at the target.
  - Without a heuristic, a found record's distance is least. No walk from the source to
    the target over edges the filter allows costs less, among walks whose cost stays below
    `u64::MAX`.
  - A stop without a found record is caused by a bound, or else the queue ran empty.
  - When the queue runs empty, the settled map is closed under the edges the filter allows.
    The exception is an edge whose end would reach `u64::MAX`, the value the code reads for
    an unknown node.
  - Every settled node is reachable from the source.
- **Heuristic.** The estimate for a node never exceeds the cost of a direct segment to the
  target at any listed speed.
- **Component reduction.**
  - The round bookkeeping, the stop condition and the choice of the earliest largest round
    are proved.
  - Each round's settled nodes are reachable from the round's start.
  - Take a full round. It settles no node with id `-1` (the search's stand-in target)
    and at most `u64::MAX` nodes, and each distance, plus the cost of any edge out of its
    node, stays below `u64::MAX`. On a symmetric map, its settled set is closed under
    edges, and so it is the connected component of its start. The kept group is then
    exactly that component.

## Model

| member | source | states |
|---|---|---|
| RoadNetworks.SpeedCalc | src/lib.rs:34-53 | every listed class has a speed from 5 to 110 km/h, so its m/s divisor is from 1 to 30; a motorway is 110 km/h |
| RoadNetworks.SpeedDivisorMonotone | src/lib.rs:82 | a faster road never has a smaller speed divisor |
| RoadNetworks.ISqrtIsRoot | src/lib.rs:81 | the truncated square root is the largest `r` with `r * r <= n` |
| RoadNetworks.Dist | src/lib.rs:77-81 | two points with the same coordinates are at distance 0 |
| RoadNetworks.DistSymmetric | src/lib.rs:77-81 | the segment length is the same in both directions |
| RoadNetworks.Get | src/lib.rs:68-74 | a node lookup finds a node exactly when the id is a key, and finds that key's node |
| RoadNetworks.Upsert | src/lib.rs:84-93 | the entry write adds `tail` to the keys, adds `head` to `tail`'s map, and stores the entry there |
| RoadNetworks.UpsertElsewhere | src/lib.rs:84-93 | the write adds exactly the pair `tail -> head` and keeps every other pair with its entry |
| RoadNetworks.UpsertBothWaysAt | src/lib.rs:84-103 | after both writes of one segment, each pair of a symmetric unflagged map has its reverse at the same cost, unflagged |
| RoadNetworks.UpsertEndpoints | src/lib.rs:84-93 | writing a pair of known ids keeps every endpoint known |
| RoadNetworks.UpsertBothWays | src/lib.rs:84-103 | both writes of one segment keep the map symmetric, unflagged and within the known ids |
| RoadNetworks.SegmentStepShape | src/lib.rs:64-106 | one segment keeps that shape |
| RoadNetworks.AddSegmentsShape | src/lib.rs:63-107 | the segments of one way keep that shape |
| RoadNetworks.AddWaysShape | src/lib.rs:60-108 | all ways keep that shape |
| RoadNetworks.BuildEdgesShape | src/lib.rs:60-108 | for nodes stored under their own id, the built map is symmetric with equal costs, every flag is false, and every endpoint is an input node |
| RoadNetworks.SegmentStepEdges | src/lib.rs:64-103 | segment `i` adds an edge `u -> v` exactly when it joins `u` and `v` (either way round) and both ends are input nodes |
| RoadNetworks.SegmentsJoinMeans | src/lib.rs:63 | the segments from index `i` on join `u` and `v` exactly when some usable segment at or after `i` does |
| RoadNetworks.AddSegmentsEdges | src/lib.rs:63-107 | a way's segments add exactly the pairs its usable segments join |
| RoadNetworks.WaysJoinMeans | src/lib.rs:60 | the ways join `u` and `v` exactly when one of them does |
| RoadNetworks.AddWaysEdges | src/lib.rs:60-108 | all ways add exactly the pairs some way joins |
| RoadNetworks.BuildEdgesExactly | src/lib.rs:60-108 | for nodes stored under their own id, `u -> v` is an edge exactly when some way has a usable segment joining `u` and `v` |
| RoadNetworks.SegmentStepCost | src/lib.rs:64-103 | a segment sets the pair it joins to its `SegmentCost` in both directions, and keeps every other entry |
| RoadNetworks.AddSegmentsCost | src/lib.rs:63-107 | after a way's segments, a pair they join costs what the last joining segment writes; any other pair keeps its entry |
| RoadNetworks.AddWaysCost | src/lib.rs:60-108 | after the ways, a pair they join costs what the last joining segment of the last joining way writes; any other pair keeps its entry |
| RoadNetworks.BuildEdgesCost | src/lib.rs:60-108 | for nodes stored under their own id, every built edge costs `SegmentCost` of the last usable segment, over all ways in order, that joins its two ends |
| RoadNetworks.AddWay | src/lib.rs:61-107 | the per-way loop, with its reuse of the previous head as the next tail, equals the fold of segment steps |
| RoadNetworks.RemoveNodesWithoutEdges | src/lib.rs:109-116 | a node is kept exactly when it is an input node and a key of the map, with its record unchanged |
| RoadNetworks.KeptNodesShape | src/lib.rs:109-122 | the kept nodes are exactly the map's keys, every edge end is a kept node, and each node stays under its id |
| RoadNetworks.KeysInSomeOrder | src/lib.rs:121 | `raw_nodes` lists each kept id exactly once |
| RoadNetworks.NewRoadNetwork | src/lib.rs:57-124 | the result is built from the inputs (its map is the fold of all ways, `raw_ways` is the input, `raw_nodes` is the kept ids); with well-keyed nodes, the map is symmetric and unflagged, and its keys are the kept nodes |
| RoadDijkstras.Root | src/lib.rs:253-257 | the parent chain of a record ends at a record without a parent, no later in the arena |
| RoadDijkstras.LineageEnds | src/lib.rs:248-259 | a chain has one node or more, starts at its record's node and ends at its root's node |
| RoadDijkstras.GetPath | src/lib.rs:248-259 | the path is the record's parent chain, from its node back to the root's node, and the total is the record's distance |
| RoadDijkstras.AStarHeuristic | src/lib.rs:262-281 | the table has an entry for every node and none for other ids, and the target's entry is 0 |
| RoadDijkstras.HeuristicBelowDirectSegment | src/lib.rs:262-281 | a node's estimate is at most the travel time the builder charges for a direct segment to the target, at any listed speed |
| RoadDijkstras.LineageIsWalk | src/lib.rs:399-410 | read backwards, every record's chain is a walk from the source over edges the run may use, whose costs sum to the record's distance |
| RoadDijkstras.PotentialDrops | src/lib.rs:403-404 | lowering one node's best-known distance lowers the sum over all nodes, which bounds the pushes |
| RoadDijkstras.PopMin | src/lib.rs:375 | the popped entry has the least f-score, and the queue loses exactly that entry |
| RoadDijkstras.RelaxAllGrows | src/lib.rs:399-420 | relaxing keeps the old records and queue entries, queues each new record once, and pays for it with a lower best-known distance |
| RoadDijkstras.RelaxOneSound | src/lib.rs:399-420 | one relaxation keeps records, queue, scores and predecessors sound |
| RoadDijkstras.RelaxAllSound | src/lib.rs:399-420 | the whole neighbour loop keeps them sound |
| RoadDijkstras.RelaxAllRelaxes | src/lib.rs:400-404 | no best-known distance rises, and none of the neighbours' exceeds the distance through the current record |
| RoadDijkstras.Relax | src/lib.rs:399-421 | the neighbour loop computes exactly the relaxation function's state |
| RoadDijkstras.AllRecordsOfMeans | src/lib.rs:375 | every settled record is a record of the run |
| RoadDijkstras.AllRecordsOfGrow | src/lib.rs:405-418 | records stay records when the arena grows at its end |
| RoadDijkstras.PopsWithinMeans | src/lib.rs:382-392 | every pop counted as going on was not at the target and within the cost bound |
| RoadDijkstras.SettleOne | src/lib.rs:375-392 | settling a record sets its node's settled distance and extends the pop log; the log still goes on exactly when the new pop is not the target and is within the bound |
| RoadDijkstras.Neighbors | src/lib.rs:309-324 | the neighbours are exactly the heads of the edges out of the node that are unsettled and pass the arc-flag filter, each once, with its node and edge cost |
| RoadDijkstras.Expand | src/lib.rs:399-421 | expanding a record keeps the run sound, loses no record, never raises a best-known distance, pays for each new record, and leaves every settled node queued at its best distance or expanded; without a heuristic it keeps the distance order and leaves the expanded node tight |
| RoadDijkstras.RelaxOneCovers | src/lib.rs:400-419 | an improving relaxation keeps every best-known distance held by a queued or expanded record, and records the parent's node as predecessor |
| RoadDijkstras.RelaxAllCovers | src/lib.rs:399-420 | the neighbour loop keeps those coverage facts, and leaves the current record and the settled nodes' scores in place |
| RoadDijkstras.ExpandCovers | src/lib.rs:399-421 | after a node at its best distance is expanded, each usable edge out of it reaches a node with a best-known distance, unless the distance through it would reach `u64::MAX` |
| RoadDijkstras.PopCovers | src/lib.rs:375-397 | popping and settling an entry keeps the coverage facts for every other settled node; a stale pop (above the best-known distance) keeps them for the popped node too |
| RoadDijkstras.RelaxOneOrdered | src/lib.rs:400-419 | without a heuristic, an improving relaxation queues its record keyed by its distance, not below the last pop, and keeps settled nodes queued or tight |
| RoadDijkstras.RelaxAllOrdered | src/lib.rs:399-420 | the neighbour loop keeps those order facts and the current record |
| RoadDijkstras.ExpandOrdered | src/lib.rs:399-421 | without a heuristic, after a node is expanded at its best distance, every usable edge out of it reaches a node whose best-known distance is at most the distance through it, unless that reaches `u64::MAX` |
| RoadDijkstras.PopOrdered | src/lib.rs:375-397 | without a heuristic, the popped distance is the least key and never below the previous pop; the order facts hold for every other settled node, and for the popped node too when the pop is stale |
| RoadDijkstras.QueueBelowWalk | src/lib.rs:374-421 | along any usable walk from the source below `u64::MAX`, some queued key is at most its cost, or its end already has a best-known distance at most its cost |
| RoadDijkstras.FirstPopShortest | src/lib.rs:375-382 | without a heuristic, the first pop of a node costs no more than any usable walk to it from the source below `u64::MAX` |
| RoadDijkstras.FoundShortest | src/lib.rs:375-386 | without a heuristic, the pop that finds the target is its first, so no usable walk from the source to the target below `u64::MAX` costs less |
| RoadDijkstras.PredecessorsBest | src/lib.rs:403-418 | each predecessor entry names the parent of a least record at its node |
| RoadDijkstras.EmptyQueueClosed | src/lib.rs:374-424 | with an empty queue, every usable edge out of a settled node reaches a settled node, unless the distance through it reaches `u64::MAX` |
| RoadDijkstras.SettledMapFrom | src/lib.rs:375-379 | each settled entry comes from a pop of a record at that node with that distance |
| RoadDijkstras.SettledAreReached | src/lib.rs:374-424 | every settled node is the start of a walk, read backwards, to the source over edges the run may use |
| RoadDijkstras.ClosedUnderEdges | src/lib.rs:374-424 | when the queue ran empty and no settled distance plus the cost of an edge out of its node reaches `u64::MAX`, every usable edge out of a settled node reaches a settled node |
| RoadDijkstras.SearchStep | src/lib.rs:374-421 | one pop either stops with the run's outcome (the target found, or a bound exceeded) or leaves the run sound with a smaller termination measure; without a heuristic it keeps the distance order, and a found target has no cheaper walk |
| RoadDijkstras.Start | src/lib.rs:347-357 | before the first pop the only record is the source's, at distance 0, in the queue with f-score 0, which is in distance order |
| RoadDijkstras.Exhausted | src/lib.rs:374-424 | when the queue runs empty, nothing was found, every pop let the search go on, and the settled map is closed under usable edges up to the `u64::MAX` sentinel |
| RoadDijkstras.Search | src/lib.rs:335-424 | a run from the source ends in a sound outcome. A found record is at the target. Otherwise a bound stopped the run, or the queue ran empty and left the settled map closed under usable edges up to the sentinel. Predecessors name parents of least records. Without a heuristic, no usable walk from the source to the target below `u64::MAX` costs less than the found distance |
| RoadDijkstras.RoadDijkstra.constructor | src/lib.rs:285-293 | a new engine has the graph, nothing settled, and both bounds at `u64::MAX` |
| RoadDijkstras.RoadDijkstra.SetCostUpperBound | src/lib.rs:295-297 | sets the cost bound |
| RoadDijkstras.RoadDijkstra.SetMaxSettledNodes | src/lib.rs:299-301 | sets the settle bound |
| RoadDijkstras.RoadDijkstra.GetNeighbors | src/lib.rs:303-325 | the expandable neighbours of the record's node, given the engine's settled map |
| RoadDijkstras.RoadDijkstra.Dijkstra | src/lib.rs:327-425 | a run from the engine's graph and bounds reaches a sound outcome (`SearchOutcome`, as for `Search`, including closure of the settled map when the queue runs empty, and without a heuristic no cheaper usable walk to the target), and the engine's settled map is that run's |
| RoadDijkstras.RoadDijkstra.GetUnvisitedNodeId | src/lib.rs:461-481 | a returned id is a graph node without a positive tag; none is returned exactly when the tag map is as large as the node map or every node has a positive tag |
| RoadDijkstras.RoadDijkstra.ResetAllFlags | src/lib.rs:484-490 | the graph's edges become every edge with flag `state`, and nothing else changes |
| RoadDijkstras.SetAllFlags | src/lib.rs:485-489 | the outer loop produces every adjacency map with its flags rewritten |
| RoadDijkstras.SetFlags | src/lib.rs:486-488 | the inner loop gives every edge of one map flag `state` |
| RoadDijkstras.WithFlag | src/lib.rs:486-488 | same heads and costs, every flag `state` |
| RoadDijkstras.WithAllFlags | src/lib.rs:484-490 | same tails, heads and costs, every flag `state`; symmetry and endpoint sets are kept |
| Components.TagAll | src/lib.rs:176-178 | every settled id is tagged with the round, and every other tag is kept |
| Components.TaggedAfterRound | src/lib.rs:176-178 | after a round's tags, each tag still names the last round that settled its node |
| Components.TagRound | src/lib.rs:174-178 | a round searches from a node on a fresh engine with target `-1` and both bounds at `u64::MAX`; its settled map is that run's outcome, sound (`RoundSound`), contains the node and only graph nodes, and is tagged with the round |
| Components.RoundOutcome | src/lib.rs:174-175 | a round's settled nodes are reachable from its start, and a full round's settled set has no edge leaving it |
| Components.WalkStaysIn | src/lib.rs:174-175 | on a symmetric map, a walk that starts inside an edge-closed set stays inside it |
| Components.RoundsDisjoint | src/lib.rs:171-178 | on a symmetric map, no later round settles a node of a full round |
| Components.GroupIsRound | src/lib.rs:176-199 | on a symmetric map, the nodes tagged with a full round are exactly that round's settled nodes |
| Components.KeptRoundIsComponent | src/lib.rs:164-204 | on a symmetric map, a full round's group is closed under edges and reachable from its start, so it is a connected component |
| Components.RoundsAppended | src/lib.rs:171-178 | appending a sound round keeps every round sound and within the graph |
| Components.FreshSource | src/lib.rs:171-173 | a start with no tag lies in no earlier round |
| Components.TaggingGrows | src/lib.rs:171-178 | a round from an untagged node keeps the round bookkeeping true |
| Components.FewerUntagged | src/lib.rs:171-178 | tagging an untagged node leaves fewer untagged nodes, so the rounds end |
| Components.AllTagged | src/lib.rs:171-172 | the engine finds no untagged node only once every node is tagged, hence after a round when the graph has a node |
| Components.NextRound | src/lib.rs:171-183 | one turn either stops (every node tagged, or more than half) or runs a round and leaves fewer nodes untagged |
| Components.TagRounds | src/lib.rs:166-183 | after the rounds, each tag names the last round that settled its node, each round started at a node no earlier round had settled, and more than half the nodes, or all of them, are tagged |
| Components.SelectLargest | src/lib.rs:185-199 | the chosen group is a largest round group, no earlier round has one as large, and it is empty only when there are no tags |
| Components.NonEmptyWhenRun | src/lib.rs:171-178 | after a round some node is tagged; with no nodes nothing is |
| Components.GroupWithin | src/lib.rs:201-204 | a round's group contains only graph nodes, so every lookup of its ids succeeds |
| Components.ReduceToLargestConnectedComponent | src/lib.rs:164-207 | the result is built from the original ways and the nodes of the earliest largest round group, which is empty only for an empty graph; on a symmetric map, when that round is full, the group is the connected component of its start |
| Components.RebuildOn | src/lib.rs:201-206 | the kept nodes, looked up in the graph, and all of the original ways are given to the builder |

## Left out

- Reading the map file (`read_from_osm_file`) is left out. The builder takes the reader's
  node map and way list as inputs.
- The random node pickers (`get_random_node_id`, `get_random_node_area_id`) are left out.
  They depend on a random generator, and their rejection loop need not terminate.
- Floating point is left out:
  - `Dist` is an exact integer model of the segment length: squares, division by 10^14,
    then a truncated square root. The source computes this in `f64`, adding the two
    quotients before `sqrt`, so its result can differ by rounding.
  - The speed divisor is `speed * 5 / 18` in integers, where the source truncates an `f64`.
- `Dist`: only the zero-length and symmetry facts are proved. Admissibility of the
  heuristic is not claimed: per-segment truncation means a sum of segment times can be
  smaller than the estimate.
- Integer widths are left out. Costs and distances are unbounded naturals, so the `u64`
  overflow of `temp_distance + h` and the `i32` round counter are not modelled.
- Panics are preconditions. These are a missing source or target node, a way with no refs
  (`len() - 1` underflows), and a speed whose divisor is 0. The search also requires that
  nodes are stored under their own id and every edge end is a node (`Routable`), as the
  builder guarantees.
- The builder's results assume that each input node is stored under its own id, as the
  map reader guarantees. `RoadNetwork::new` itself does not check this. This covers the
  symmetry and key-set results (`NewRoadNetwork`, `BuildEdgesShape`), the edge set
  (`BuildEdgesExactly`) and the edge costs (`BuildEdgesCost`). Without it the reverse entry
  is written under the head node's stored id (src/lib.rs:95). For example, a node with
  id 7 stored under key 5, on a segment from node 4, gives edges 4 -> 5 and 7 -> 4 but
  no 5 -> 4.
- Hash map and heap iteration order are left open:
  - `raw_nodes`, the neighbour list and `get_unvisted_node_id`'s choice take any order or
    any qualifying id.
  - `PopMin` returns any entry of least f-score, where the source's heap breaks ties by the
    derived order on records.
- The shared parent references (`Rc`, `extract_parent`) are replaced by an arena of records
  linked by index.
- RoadDijkstras.RoadDijkstra.Dijkstra: the settled map is computed as a value by `Search`
  and assigned to the engine's field at the end. The source inserts into the field at each
  pop. The unused `counter` and the console message of `get_unvisted_node_id` are dropped.
  Optimality of the returned distance is claimed as for `Search`.
- RoadDijkstras.Search: optimality of the found distance is proved only without a
  heuristic, and only against walks whose cost stays below `u64::MAX`.
  - With a heuristic it is not claimed, because the heuristic is not admissible (see
    `Dist` above).
  - Walks that reach `u64::MAX` are left out because the code reads that value for an
    unknown node, and the model does not model `u64` overflow.
  - The settled map's distances are not claimed to be least. A stale pop overwrites the
    node's settled cost with a larger one before the stale test skips it
    (src/lib.rs:376-390), so the map holds the last pop's distance.
- The target test comes before the bound test in the code. So a target popped above the
  cost bound is still returned, and the model follows the code here.
- Components.SelectLargest: the source sorts the tag entries by round and cuts them into
  runs of equal rounds. The model scans rounds 1, 2, ... in the same increasing order. A
  round whose tags were all overwritten later is an empty group and, by the strict `>`,
  never chosen, just as the source has no run for it.
- Components.ReduceToLargestConnectedComponent: the kept group is proved to be a connected
  component only for a symmetric map, as the builder makes it, and a full round. Two kinds
  of round are only proved reachable from their start, not closed:
  - A round whose distance through some edge reaches `u64::MAX` stops spreading at that
    edge, as in the code.
  - A round that reaches a node whose id is `-1` stops there. Each round searches with
    target `-1` (src/lib.rs:175). The target test (src/lib.rs:382) matches any node with
    that id, since only the target lookup checks for an id above 0 (src/lib.rs:364). Map
    ids are positive, so this does not arise for real map data.
