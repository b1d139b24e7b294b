/**
 * The search engine: bounded Dijkstra/A* over a `RoadNetwork` with lazy deletion, an
 * arc-flag filter, a predecessor map, and path reconstruction from the search records.
 *
 * The source links each search record to its parent by a shared reference. Here the records
 * live in an arena (a sequence) and a record names its parent by index; a parent is always
 * created before its children, so every parent index is smaller than the child's.
 */
module RoadDijkstras {
  import opened Options
  import opened SetFacts
  import opened RoadNetworks

  /** A search record: the node reached, its distance from the source, and its parent record. */
  datatype PathedNode = PathedNode(node: Node, distanceFromStart: nat, parent: Option<nat>)

  ghost predicate Linked(arena: seq<PathedNode>)
  {
    forall j :: 0 <= j < |arena| && arena[j].parent.Some? ==> arena[j].parent.value < j
  }

  /** The nodes on the parent chain of record `last`, from `last` back to the chain's root. */
  ghost function Lineage(arena: seq<PathedNode>, last: nat): seq<Node>
    requires Linked(arena) && last < |arena|
    decreases last
  {
    match arena[last].parent
    case None => [arena[last].node]
    case Some(p) => [arena[last].node] + Lineage(arena, p)
  }

  /** The record at the end of the parent chain of `last`: the one without a parent. */
  ghost function Root(arena: seq<PathedNode>, last: nat): (r: nat)
    requires Linked(arena) && last < |arena|
    ensures r <= last && arena[r].parent.None?
    decreases last
  {
    match arena[last].parent
    case None => last
    case Some(p) => Root(arena, p)
  }

  /** A lineage starts at its own record's node, ends at its root's node, one node per record. */
  lemma {:induction false} LineageEnds(arena: seq<PathedNode>, last: nat)
    requires Linked(arena) && last < |arena|
    ensures |Lineage(arena, last)| >= 1
    ensures Lineage(arena, last)[0] == arena[last].node
    ensures Lineage(arena, last)[|Lineage(arena, last)| - 1] == arena[Root(arena, last)].node
    decreases last
  {
    if arena[last].parent.Some? {
      LineageEnds(arena, arena[last].parent.value);
    }
  }

  /**
   * `RoadPathedNode::get_path`: the nodes from record `last` back to the record without a
   * parent, and the distance stored in `last`.
   */
  method GetPath(arena: seq<PathedNode>, last: nat) returns (shortestPath: seq<Node>, totalDistance: nat)
    requires Linked(arena) && last < |arena|
    ensures totalDistance == arena[last].distanceFromStart
    ensures shortestPath == Lineage(arena, last)
    ensures |shortestPath| >= 1 && shortestPath[0] == arena[last].node
    ensures shortestPath[|shortestPath| - 1] == arena[Root(arena, last)].node
  {
    shortestPath := [];
    totalDistance := arena[last].distanceFromStart;
    var current: nat := last;
    while arena[current].parent.Some?
      invariant current < |arena|
      invariant shortestPath + Lineage(arena, current) == Lineage(arena, last)
      decreases current
    {
      shortestPath := shortestPath + [arena[current].node];
      current := arena[current].parent.value;
    }
    shortestPath := shortestPath + [arena[current].node];
    LineageEnds(arena, last);
  }

  // ---------------------------------------------------------------------------
  // Heuristic
  // ---------------------------------------------------------------------------

  /**
   * `a_star_heuristic`: for every node, the distance to `target` divided by the whole
   * metres per second of the fastest road class (110 km/h). The target must be a node.
   */
  function AStarHeuristic(graph: RoadNetwork, target: int): (h: map<int, nat>)
    requires target in graph.nodes
    ensures h.Keys == graph.nodes.Keys
    ensures h[target] == 0
  {
    var tail := graph.nodes[target];
    var divisor := SpeedDivisor(110);
    assert divisor == 30 && Dist(tail, tail) == 0;
    map id | id in graph.nodes :: Dist(tail, graph.nodes[id]) / divisor
  }

  /**
   * The estimate for a node never exceeds what the builder charges for a direct segment
   * between that node and the target, whatever road class the segment has.
   */
  lemma HeuristicBelowDirectSegment(graph: RoadNetwork, target: int, id: int, highway: string)
    requires target in graph.nodes && id in graph.nodes && SpeedCalc(highway).Some?
    ensures AStarHeuristic(graph, target)[id]
      <= SegmentCost(graph.nodes[id], graph.nodes[target], SpeedCalc(highway).value)
  {
    var speed := SpeedCalc(highway).value;
    DistSymmetric(graph.nodes[target], graph.nodes[id]);
    SpeedDivisorMonotone(speed, 110);
    DivAntitone(Dist(graph.nodes[id], graph.nodes[target]), SpeedDivisor(speed), SpeedDivisor(110));
  }

  // ---------------------------------------------------------------------------
  // What a search run builds
  // ---------------------------------------------------------------------------

  /** The edge `u -> v` exists and, under the arc-flag filter, has its flag set. */
  ghost predicate FlagEdge(edges: Edges, considerArcFlags: bool, u: int, v: int)
  {
    HasEdge(edges, u, v) && (considerArcFlags ==> edges[u][v].1)
  }

  /** `child` extends `parent` by the edge `parent.node -> child.node`, paying that edge's cost. */
  ghost predicate Step(edges: Edges, considerArcFlags: bool, parent: PathedNode, child: PathedNode)
  {
    var u, v := parent.node.id, child.node.id;
    FlagEdge(edges, considerArcFlags, u, v)
    && child.distanceFromStart == parent.distanceFromStart + edges[u][v].0
  }

  /**
   * The records of a run from `source`: record 0 is the source at distance 0 and is the only
   * record without a parent; every other record is one `Step` from its parent.
   */
  ghost predicate ArenaValid(arena: seq<PathedNode>, edges: Edges, source: Node, considerArcFlags: bool)
  {
    && Linked(arena)
    && |arena| >= 1 && arena[0] == PathedNode(source, 0, None)
    && forall j :: 0 < j < |arena| ==> StepFromParent(arena, j, edges, considerArcFlags)
  }

  /** Record `j` has a parent, and is one `Step` from it. */
  ghost predicate StepFromParent(arena: seq<PathedNode>, j: int, edges: Edges, considerArcFlags: bool)
  {
    0 <= j < |arena| && arena[j].parent.Some? && arena[j].parent.value < |arena|
    && Step(edges, considerArcFlags, arena[arena[j].parent.value], arena[j])
  }

  ghost predicate RecordsInGraph(arena: seq<PathedNode>, nodes: map<int, Node>)
  {
    forall j :: 0 <= j < |arena| ==> arena[j].node.id in nodes && nodes[arena[j].node.id] == arena[j].node
  }
  /** The edge `tail -> head` exists (with its flag set, if `flagged`). */
  ghost predicate Link(edges: Edges, tail: Node, head: Node, flagged: bool)
  {
    FlagEdge(edges, flagged, tail.id, head.id)
  }

  /** Read backwards, `path` is a walk: each `path[k + 1] -> path[k]` is a `Link`. */
  ghost predicate BackWalk(edges: Edges, path: seq<Node>, flagged: bool)
    decreases |path|
  {
    |path| < 2 || (Link(edges, path[1], path[0], flagged) && BackWalk(edges, path[1..], flagged))
  }

  ghost function BackWalkCost(edges: Edges, path: seq<Node>, flagged: bool): nat
    requires BackWalk(edges, path, flagged)
    decreases |path|
  {
    if |path| < 2 then 0
    else edges[path[1].id][path[0].id].0 + BackWalkCost(edges, path[1..], flagged)
  }

  /**
   * Every record of a run stands for a real route: its lineage, read backwards, is a walk
   * from the source along graph edges (flagged ones, under the arc-flag filter) whose costs
   * add up to the record's distance.
   */
  lemma {:induction false} LineageIsWalk(arena: seq<PathedNode>, edges: Edges, source: Node,
                                         considerArcFlags: bool, last: nat)
    requires ArenaValid(arena, edges, source, considerArcFlags) && last < |arena|
    ensures BackWalk(edges, Lineage(arena, last), considerArcFlags)
    ensures BackWalkCost(edges, Lineage(arena, last), considerArcFlags) == arena[last].distanceFromStart
    ensures Lineage(arena, last)[|Lineage(arena, last)| - 1] == source
    decreases last
  {
    LineageEnds(arena, last);
    if last > 0 {
      assert StepFromParent(arena, last, edges, considerArcFlags);
      var p := arena[last].parent.value;
      LineageIsWalk(arena, edges, source, considerArcFlags, p);
      LineageEnds(arena, p);
      var path := Lineage(arena, last);
      assert path[1..] == Lineage(arena, p);
    } else {
      assert Root(arena, last) == 0;
    }
  }

  /** The best known distance to `id`, `u64::MAX` when there is none yet. */
  function GScore(gscore: map<int, nat>, id: int): nat
  {
    if id in gscore then gscore[id] else U64Max
  }

  /** The heuristic value for `id`: 0 without a table or for an id the table lacks. */
  function HeuristicOf(heuristics: Option<map<int, nat>>, id: int): nat
  {
    match heuristics
    case Some(h) => if id in h then h[id] else 0
    case None => 0
  }

  /**
   * Termination measure of the search: the sum of the best known distances over all node
   * ids. Every push lowers one of them, so there can be only finitely many pushes.
   */
  ghost function Potential(keys: seq<int>, gscore: map<int, nat>): nat
  {
    if keys == [] then 0 else GScore(gscore, keys[0]) + Potential(keys[1..], gscore)
  }

  lemma {:induction false} PotentialFrame(keys: seq<int>, gscore: map<int, nat>, id: int, x: nat)
    requires id !in keys
    ensures Potential(keys, gscore[id := x]) == Potential(keys, gscore)
  {
    if keys != [] {
      PotentialFrame(keys[1..], gscore, id, x);
    }
  }

  lemma {:induction false} PotentialDrops(keys: seq<int>, gscore: map<int, nat>, id: int, x: nat)
    requires Distinct(keys) && id in keys && x < GScore(gscore, id)
    ensures Potential(keys, gscore[id := x]) < Potential(keys, gscore)
  {
    if keys[0] == id {
      assert id !in keys[1..];
      PotentialFrame(keys[1..], gscore, id, x);
    } else {
      PotentialDrops(keys[1..], gscore, id, x);
    }
  }

  predicate IsMinAt(queue: seq<(nat, nat)>, m: int)
  {
    0 <= m < |queue| && forall k :: 0 <= k < |queue| ==> queue[m].0 <= queue[k].0
  }

  lemma {:induction false} MinExists(queue: seq<(nat, nat)>)
    requires queue != []
    ensures exists m :: IsMinAt(queue, m)
  {
    if |queue| == 1 {
      assert IsMinAt(queue, 0);
    } else {
      MinExists(queue[1..]);
      var m :| IsMinAt(queue[1..], m);
      if queue[0].0 <= queue[m + 1].0 {
        assert IsMinAt(queue, 0);
      } else {
        assert IsMinAt(queue, m + 1);
      }
    }
  }

  /**
   * `BinaryHeap::pop` on the min-heap of (f-score, record) pairs: some entry of least
   * f-score, and the queue without that one entry. Which of several least entries comes out
   * is the heap's business and is left open.
   */
  method PopMin(queue: seq<(nat, nat)>) returns (entry: (nat, nat), rest: seq<(nat, nat)>)
    requires queue != []
    ensures entry in queue && forall e :: e in queue ==> entry.0 <= e.0
    ensures multiset(rest) + multiset{entry} == multiset(queue)
    ensures |rest| == |queue| - 1 && forall e :: e in rest ==> e in queue
  {
    MinExists(queue);
    var m :| IsMinAt(queue, m);
    entry := queue[m];
    rest := queue[..m] + queue[m + 1..];
    assert queue == queue[..m] + [entry] + queue[m + 1..];
  }

  /** `neighbor` is the head of an edge out of `u`, with that edge's cost, allowed by the filter. */
  ghost predicate OutEdge(edges: Edges, considerArcFlags: bool, u: int, neighbor: (Node, nat))
  {
    FlagEdge(edges, considerArcFlags, u, neighbor.0.id) && neighbor.1 == edges[u][neighbor.0.id].0
  }

  /** Each entry `v -> u` of the predecessor map is an edge `u -> v` the run was allowed to use. */
  ghost predicate PredecessorEdges(previous: map<int, int>, edges: Edges, considerArcFlags: bool)
  {
    forall v :: v in previous ==> FlagEdge(edges, considerArcFlags, previous[v], v)
  }

  /** The mutable state of one `dijkstra` run besides the settled map. */
  datatype Frontier = Frontier(arena: seq<PathedNode>, gscore: map<int, nat>,
                               queue: seq<(nat, nat)>, previous: map<int, int>)

  /** What a run keeps true of its state: records, queue, scores and predecessors are all sound. */
  ghost predicate SearchInvariant(f: Frontier, graph: RoadNetwork, source: Node, considerArcFlags: bool)
  {
    && ArenaValid(f.arena, graph.edges, source, considerArcFlags)
    && RecordsInGraph(f.arena, graph.nodes)
    && (forall e :: e in f.queue ==> e.1 < |f.arena|)
    && f.gscore.Keys <= graph.nodes.Keys
    && PredecessorEdges(f.previous, graph.edges, considerArcFlags)
  }

  /**
   * One iteration of the neighbour loop of `dijkstra`, from record `current` (whose value is
   * `from`): if the distance through `from` beats the neighbour's best known distance, that
   * distance is recorded, a record with parent `current` is pushed keyed by distance plus
   * heuristic, and `from`'s node becomes the neighbour's predecessor.
   */
  function RelaxOne(f: Frontier, current: nat, from: PathedNode, neighbor: (Node, nat),
                    heuristics: Option<map<int, nat>>): Frontier
  {
    var tempDistance := from.distanceFromStart + neighbor.1;
    var id := neighbor.0.id;
    if tempDistance < GScore(f.gscore, id) then
      Frontier(f.arena + [PathedNode(neighbor.0, tempDistance, Some(current))],
               f.gscore[id := tempDistance],
               f.queue + [(tempDistance + HeuristicOf(heuristics, id), |f.arena|)],
               f.previous[id := from.node.id])
    else f
  }

  /** The whole neighbour loop: `RelaxOne` for each neighbour in order. */
  function RelaxAll(f: Frontier, current: nat, from: PathedNode, neighbors: seq<(Node, nat)>,
                    heuristics: Option<map<int, nat>>): Frontier
    decreases |neighbors|
  {
    if neighbors == [] then f
    else
      var g := RelaxAll(f, current, from, neighbors[..|neighbors| - 1], heuristics);
      RelaxOne(g, current, from, neighbors[|neighbors| - 1], heuristics)
  }

  /**
   * Relaxing keeps the old records and queue entries, adds one queue entry per new record,
   * and pays for every new record with a strictly lower best-known distance.
   */
  lemma {:induction false} RelaxAllGrows(f: Frontier, current: nat, from: PathedNode,
                                         neighbors: seq<(Node, nat)>, heuristics: Option<map<int, nat>>,
                                         keys: seq<int>)
    requires Distinct(keys) && forall k :: 0 <= k < |neighbors| ==> neighbors[k].0.id in keys
    ensures var r := RelaxAll(f, current, from, neighbors, heuristics);
      && |r.arena| >= |f.arena| && r.arena[..|f.arena|] == f.arena
      && |r.queue| == |f.queue| + (|r.arena| - |f.arena|) && r.queue[..|f.queue|] == f.queue
      && Potential(keys, r.gscore) + (|r.arena| - |f.arena|) <= Potential(keys, f.gscore)
    decreases |neighbors|
  {
    if neighbors != [] {
      var init := neighbors[..|neighbors| - 1];
      var last := neighbors[|neighbors| - 1];
      assert forall k :: 0 <= k < |init| ==> init[k] == neighbors[k];
      RelaxAllGrows(f, current, from, init, heuristics, keys);
      var g := RelaxAll(f, current, from, init, heuristics);
      var tempDistance := from.distanceFromStart + last.1;
      if tempDistance < GScore(g.gscore, last.0.id) {
        PotentialDrops(keys, g.gscore, last.0.id, tempDistance);
        var r := RelaxOne(g, current, from, last, heuristics);
        assert r.arena[..|g.arena|] == g.arena;
        assert r.arena[..|f.arena|] == g.arena[..|f.arena|];
        assert r.queue[..|f.queue|] == g.queue[..|f.queue|];
      }
    }
  }

  /** One relaxation step from a record of the run keeps the run's state sound. */
  lemma RelaxOneSound(g: Frontier, graph: RoadNetwork, source: Node, considerArcFlags: bool,
                      current: nat, neighbor: (Node, nat), heuristics: Option<map<int, nat>>)
    requires SearchInvariant(g, graph, source, considerArcFlags) && current < |g.arena|
    requires OutEdge(graph.edges, considerArcFlags, g.arena[current].node.id, neighbor)
    requires neighbor.0.id in graph.nodes && graph.nodes[neighbor.0.id] == neighbor.0
    ensures var r := RelaxOne(g, current, g.arena[current], neighbor, heuristics);
      SearchInvariant(r, graph, source, considerArcFlags) && |r.arena| >= |g.arena|
      && r.arena[current] == g.arena[current]
  {
    var from := g.arena[current];
    var tempDistance := from.distanceFromStart + neighbor.1;
    if tempDistance < GScore(g.gscore, neighbor.0.id) {
      var r := RelaxOne(g, current, from, neighbor, heuristics);
      var child := PathedNode(neighbor.0, tempDistance, Some(current));
      assert r.arena == g.arena + [child];
      assert Step(graph.edges, considerArcFlags, from, child);
      forall j | 0 < j < |r.arena|
        ensures StepFromParent(r.arena, j, graph.edges, considerArcFlags)
      {
        if j < |g.arena| {
          assert StepFromParent(g.arena, j, graph.edges, considerArcFlags);
        }
      }
    }
  }

  /** Relaxing from a record of the run keeps the run's state sound. */
  lemma {:induction false} RelaxAllSound(f: Frontier, graph: RoadNetwork, source: Node, considerArcFlags: bool,
                                         current: nat, neighbors: seq<(Node, nat)>,
                                         heuristics: Option<map<int, nat>>)
    requires SearchInvariant(f, graph, source, considerArcFlags) && current < |f.arena|
    requires forall k :: 0 <= k < |neighbors| ==>
      OutEdge(graph.edges, considerArcFlags, f.arena[current].node.id, neighbors[k])
      && neighbors[k].0.id in graph.nodes && graph.nodes[neighbors[k].0.id] == neighbors[k].0
    ensures var r := RelaxAll(f, current, f.arena[current], neighbors, heuristics);
      SearchInvariant(r, graph, source, considerArcFlags) && |r.arena| >= |f.arena|
      && r.arena[current] == f.arena[current]
    decreases |neighbors|
  {
    if neighbors != [] {
      var init := neighbors[..|neighbors| - 1];
      var last := neighbors[|neighbors| - 1];
      assert forall k :: 0 <= k < |init| ==> init[k] == neighbors[k];
      RelaxAllSound(f, graph, source, considerArcFlags, current, init, heuristics);
      var g := RelaxAll(f, current, f.arena[current], init, heuristics);
      RelaxOneSound(g, graph, source, considerArcFlags, current, last, heuristics);
    }
  }

  /**
   * Relaxing never raises a best-known distance, and afterwards no neighbour's best-known
   * distance exceeds the distance through `from`.
   */
  lemma {:induction false} RelaxAllRelaxes(f: Frontier, current: nat, from: PathedNode,
                                           neighbors: seq<(Node, nat)>, heuristics: Option<map<int, nat>>)
    ensures var r := RelaxAll(f, current, from, neighbors, heuristics);
      && (forall v :: GScore(r.gscore, v) <= GScore(f.gscore, v))
      && forall k :: 0 <= k < |neighbors| ==>
        GScore(r.gscore, neighbors[k].0.id) <= from.distanceFromStart + neighbors[k].1
    decreases |neighbors|
  {
    if neighbors != [] {
      var init := neighbors[..|neighbors| - 1];
      var last := neighbors[|neighbors| - 1];
      assert forall k :: 0 <= k < |init| ==> init[k] == neighbors[k];
      RelaxAllRelaxes(f, current, from, init, heuristics);
    }
  }

  // ---------------------------------------------------------------------------
  // Coverage: what the queue still owes the search
  // ---------------------------------------------------------------------------

  /** Queue entry `e` holds a record at `id` whose distance is `id`'s best known one. */
  ghost predicate HoldsBest(f: Frontier, e: (nat, nat), id: int)
  {
    e.1 < |f.arena| && f.arena[e.1].node.id == id && id in f.gscore
    && f.arena[e.1].distanceFromStart == f.gscore[id]
  }

  /** A record at `id` with `id`'s best known distance is still queued. */
  ghost predicate QueuedAt(f: Frontier, id: int)
  {
    exists e :: e in f.queue && HoldsBest(f, e, id)
  }

  /**
   * `u` has been expanded at its best known distance: every edge out of `u` that the filter
   * allows leads to a node with a best known distance, unless the distance through `u`
   * reaches `u64::MAX`, the value `dijkstra` reads for an unknown node.
   */
  ghost predicate ExpandedAt(edges: Edges, considerArcFlags: bool, gscore: map<int, nat>, u: int)
  {
    u in gscore
    && forall w :: FlagEdge(edges, considerArcFlags, u, w) ==>
      w in gscore || gscore[u] + edges[u][w].0 >= U64Max
  }

  /** Every record's node has a best known distance, at most the record's. */
  ghost predicate RecordScores(f: Frontier)
  {
    forall j :: 0 <= j < |f.arena| ==>
      f.arena[j].node.id in f.gscore && f.gscore[f.arena[j].node.id] <= f.arena[j].distanceFromStart
  }

  /** Every unsettled node with a best known distance still has that distance queued. */
  ghost predicate UnsettledQueued(f: Frontier, visited: map<int, nat>)
  {
    forall w :: w in f.gscore && w !in visited ==> QueuedAt(f, w)
  }

  /**
   * Every node of `ids` is settled, its best known distance is at most its settled one,
   * and it is either still queued at that distance or expanded at it.
   */
  ghost predicate SettledCovered(f: Frontier, edges: Edges, considerArcFlags: bool,
                                 visited: map<int, nat>, ids: set<int>)
  {
    forall u :: u in ids ==>
      u in visited && u in f.gscore && f.gscore[u] <= visited[u]
      && (QueuedAt(f, u) || ExpandedAt(edges, considerArcFlags, f.gscore, u))
  }

  /**
   * `previous[v]` is the node of the parent of a record at `v` holding `v`'s best known
   * distance: the predecessor entry is written together with the improvement.
   */
  ghost predicate ParentRecord(f: Frontier, j: int, v: int)
  {
    0 <= j < |f.arena| && f.arena[j].node.id == v && v in f.gscore && v in f.previous
    && f.arena[j].distanceFromStart == f.gscore[v]
    && f.arena[j].parent.Some? && f.arena[j].parent.value < |f.arena|
    && f.arena[f.arena[j].parent.value].node.id == f.previous[v]
  }

  ghost predicate PredecessorRecords(f: Frontier)
  {
    forall v :: v in f.previous ==> exists j :: ParentRecord(f, j, v)
  }

  /** The coverage facts, with the settled-node part for the settled nodes in `ids`. */
  ghost predicate CoveredOn(f: Frontier, edges: Edges, considerArcFlags: bool, visited: map<int, nat>, ids: set<int>)
  {
    RecordScores(f) && UnsettledQueued(f, visited)
    && SettledCovered(f, edges, considerArcFlags, visited, ids) && PredecessorRecords(f)
  }

  ghost predicate Covered(f: Frontier, edges: Edges, considerArcFlags: bool, visited: map<int, nat>)
  {
    CoveredOn(f, edges, considerArcFlags, visited, visited.Keys)
  }

  /** The frontier after an improving relaxation of `node` to `distance` through record `current`. */
  ghost function Pushed(f: Frontier, current: nat, node: Node, distance: nat, fscore: nat): Frontier
    requires current < |f.arena|
  {
    Frontier(f.arena + [PathedNode(node, distance, Some(current))], f.gscore[node.id := distance],
             f.queue + [(fscore, |f.arena|)], f.previous[node.id := f.arena[current].node.id])
  }

  lemma PushedScores(f: Frontier, current: nat, node: Node, distance: nat, fscore: nat)
    requires current < |f.arena| && RecordScores(f) && distance < GScore(f.gscore, node.id)
    ensures RecordScores(Pushed(f, current, node, distance, fscore))
  {
  }

  lemma PushedQueued(f: Frontier, edges: Edges, considerArcFlags: bool, visited: map<int, nat>, ids: set<int>,
                     current: nat, node: Node, distance: nat, fscore: nat)
    requires current < |f.arena| && UnsettledQueued(f, visited)
    requires SettledCovered(f, edges, considerArcFlags, visited, ids) && node.id !in visited
    ensures var r := Pushed(f, current, node, distance, fscore);
      UnsettledQueued(r, visited) && SettledCovered(r, edges, considerArcFlags, visited, ids)
  {
    var r := Pushed(f, current, node, distance, fscore);
    assert HoldsBest(r, (fscore, |f.arena|), node.id) && (fscore, |f.arena|) in r.queue;
    forall x | x in f.gscore && x != node.id && QueuedAt(f, x) ensures QueuedAt(r, x) {
      var e :| e in f.queue && HoldsBest(f, e, x);
      assert e in r.queue && HoldsBest(r, e, x);
    }
    forall x | x in ids ensures QueuedAt(r, x) || ExpandedAt(edges, considerArcFlags, r.gscore, x) {
      if !QueuedAt(f, x) {
        assert ExpandedAt(edges, considerArcFlags, f.gscore, x);
      }
    }
  }

  lemma PushedPredecessors(f: Frontier, current: nat, node: Node, distance: nat, fscore: nat)
    requires current < |f.arena| && PredecessorRecords(f)
    ensures PredecessorRecords(Pushed(f, current, node, distance, fscore))
  {
    var r := Pushed(f, current, node, distance, fscore);
    assert ParentRecord(r, |f.arena|, node.id);
    forall v | v in r.previous && v != node.id ensures exists j :: ParentRecord(r, j, v) {
      var j :| ParentRecord(f, j, v);
      assert ParentRecord(r, j, v);
    }
  }

  /** One relaxation towards an unsettled neighbour keeps the coverage facts. */
  lemma RelaxOneCovers(f: Frontier, edges: Edges, considerArcFlags: bool, visited: map<int, nat>, ids: set<int>,
                       current: nat, neighbor: (Node, nat), heuristics: Option<map<int, nat>>)
    requires CoveredOn(f, edges, considerArcFlags, visited, ids) && current < |f.arena|
    requires neighbor.0.id !in visited
    ensures var r := RelaxOne(f, current, f.arena[current], neighbor, heuristics);
      && CoveredOn(r, edges, considerArcFlags, visited, ids)
      && r.arena[current] == f.arena[current]
      && forall u :: u in f.gscore ==> u in r.gscore && (u in visited ==> r.gscore[u] == f.gscore[u])
  {
    var w := neighbor.0.id;
    var distance := f.arena[current].distanceFromStart + neighbor.1;
    if distance < GScore(f.gscore, w) {
      var fscore := distance + HeuristicOf(heuristics, w);
      assert RelaxOne(f, current, f.arena[current], neighbor, heuristics)
        == Pushed(f, current, neighbor.0, distance, fscore);
      PushedScores(f, current, neighbor.0, distance, fscore);
      PushedQueued(f, edges, considerArcFlags, visited, ids, current, neighbor.0, distance, fscore);
      PushedPredecessors(f, current, neighbor.0, distance, fscore);
    }
  }

  /** Relaxing a list of unsettled neighbours keeps the coverage facts. */
  lemma {:induction false} RelaxAllCovers(f: Frontier, edges: Edges, considerArcFlags: bool, visited: map<int, nat>,
                                          ids: set<int>, current: nat, neighbors: seq<(Node, nat)>,
                                          heuristics: Option<map<int, nat>>)
    requires CoveredOn(f, edges, considerArcFlags, visited, ids) && current < |f.arena|
    requires forall k :: 0 <= k < |neighbors| ==> neighbors[k].0.id !in visited
    ensures var r := RelaxAll(f, current, f.arena[current], neighbors, heuristics);
      && CoveredOn(r, edges, considerArcFlags, visited, ids)
      && |r.arena| > current && r.arena[current] == f.arena[current]
      && forall u :: u in f.gscore ==> u in r.gscore && (u in visited ==> r.gscore[u] == f.gscore[u])
    decreases |neighbors|
  {
    if neighbors != [] {
      var init := neighbors[..|neighbors| - 1];
      assert forall k :: 0 <= k < |init| ==> init[k] == neighbors[k];
      RelaxAllCovers(f, edges, considerArcFlags, visited, ids, current, init, heuristics);
      var g := RelaxAll(f, current, f.arena[current], init, heuristics);
      RelaxOneCovers(g, edges, considerArcFlags, visited, ids, current, neighbors[|neighbors| - 1], heuristics);
    }
  }

  /**
   * Expanding settled node `x` at its best known distance relaxes all of its unsettled
   * neighbours, after which `x` counts as expanded and the coverage facts hold for every
   * settled node.
   */
  lemma ExpandCovers(f: Frontier, graph: RoadNetwork, considerArcFlags: bool, visited: map<int, nat>,
                     current: nat, neighbors: seq<(Node, nat)>, heuristics: Option<map<int, nat>>)
    requires Routable(graph) && current < |f.arena|
    requires var x := f.arena[current].node.id;
      && CoveredOn(f, graph.edges, considerArcFlags, visited, visited.Keys - {x})
      && x in visited && x in f.gscore && f.gscore[x] == f.arena[current].distanceFromStart <= visited[x]
      && NeighborList(graph, visited, x, considerArcFlags, neighbors)
    ensures Covered(RelaxAll(f, current, f.arena[current], neighbors, heuristics), graph.edges, considerArcFlags, visited)
  {
    var x := f.arena[current].node.id;
    var cost := f.arena[current].distanceFromStart;
    var ids := visited.Keys - {x};
    RelaxAllCovers(f, graph.edges, considerArcFlags, visited, ids, current, neighbors, heuristics);
    RelaxAllRelaxes(f, current, f.arena[current], neighbors, heuristics);
    var r := RelaxAll(f, current, f.arena[current], neighbors, heuristics);
    forall w | FlagEdge(graph.edges, considerArcFlags, x, w)
      ensures w in r.gscore || r.gscore[x] + graph.edges[x][w].0 >= U64Max
    {
      if w in visited {
        assert w in f.gscore;
      } else {
        assert Expandable(graph, visited, x, w, considerArcFlags);
        var k :| 0 <= k < |neighbors| && neighbors[k].0.id == w;
        assert GScore(r.gscore, w) <= cost + graph.edges[x][w].0;
      }
    }
    assert ExpandedAt(graph.edges, considerArcFlags, r.gscore, x);
  }

  /**
   * Popping a queue entry and settling its record keeps the coverage facts for every other
   * settled node; for the popped node they hold too unless the record carries the node's
   * best known distance, in which case the node is about to be expanded.
   */
  lemma PopCovers(f: Frontier, edges: Edges, considerArcFlags: bool, visited: map<int, nat>,
                  entry: (nat, nat), rest: seq<(nat, nat)>)
    requires Covered(f, edges, considerArcFlags, visited)
    requires entry in f.queue && entry.1 < |f.arena| && multiset(rest) + multiset{entry} == multiset(f.queue)
    ensures var x, cost := f.arena[entry.1].node.id, f.arena[entry.1].distanceFromStart;
      var visited' := visited[x := cost];
      && CoveredOn(f.(queue := rest), edges, considerArcFlags, visited', visited'.Keys - {x})
      && x in f.gscore && f.gscore[x] <= cost
      && (cost != f.gscore[x] ==> Covered(f.(queue := rest), edges, considerArcFlags, visited'))
  {
    var x, cost := f.arena[entry.1].node.id, f.arena[entry.1].distanceFromStart;
    var visited' := visited[x := cost];
    var f' := f.(queue := rest);
    forall e | e in f.queue && e != entry ensures e in rest {
      assert multiset(f.queue)[e] == multiset(rest)[e];
    }
    forall id | id in f.gscore && QueuedAt(f, id) && (id != x || cost != f.gscore[x])
      ensures QueuedAt(f', id)
    {
      var e :| e in f.queue && HoldsBest(f, e, id);
      assert e != entry;
      assert e in rest && HoldsBest(f', e, id);
    }
    forall v | v in f.previous ensures exists j :: ParentRecord(f', j, v) {
      var j :| ParentRecord(f, j, v);
      assert ParentRecord(f', j, v);
    }
    assert x in f.gscore;
    if cost != f.gscore[x] && x !in visited {
      assert QueuedAt(f, x);
    }
  }

  /** The predecessor facts, stated on the records alone: `previous[v]` is the parent of a least record at `v`. */
  ghost predicate BestPredecessors(arena: seq<PathedNode>, previous: map<int, int>)
  {
    forall v :: v in previous ==> exists j :: BestParent(arena, previous, j, v)
  }

  ghost predicate BestParent(arena: seq<PathedNode>, previous: map<int, int>, j: int, v: int)
  {
    && 0 <= j < |arena| && arena[j].node.id == v && v in previous
    && arena[j].parent.Some? && arena[j].parent.value < |arena|
    && arena[arena[j].parent.value].node.id == previous[v]
    && forall i :: 0 <= i < |arena| && arena[i].node.id == v ==> arena[j].distanceFromStart <= arena[i].distanceFromStart
  }

  lemma PredecessorsBest(f: Frontier)
    requires RecordScores(f) && PredecessorRecords(f)
    ensures BestPredecessors(f.arena, f.previous)
  {
    forall v | v in f.previous ensures exists j :: BestParent(f.arena, f.previous, j, v) {
      var j :| ParentRecord(f, j, v);
      assert BestParent(f.arena, f.previous, j, v);
    }
  }

  /**
   * The settled map is closed under the edges the filter allows: every such edge out of a
   * settled node leads to a settled node, unless the distance through it reaches `u64::MAX`.
   */
  ghost predicate SettledClosed(graph: RoadNetwork, visited: map<int, nat>, considerArcFlags: bool)
  {
    forall u, w :: u in visited && FlagEdge(graph.edges, considerArcFlags, u, w) ==>
      w in visited || visited[u] + graph.edges[u][w].0 >= U64Max
  }

  /** With nothing queued, every settled node has been expanded, so the settled map is closed. */
  lemma EmptyQueueClosed(f: Frontier, graph: RoadNetwork, considerArcFlags: bool, visited: map<int, nat>)
    requires Covered(f, graph.edges, considerArcFlags, visited) && f.queue == []
    ensures SettledClosed(graph, visited, considerArcFlags)
  {
    forall u, w | u in visited && FlagEdge(graph.edges, considerArcFlags, u, w)
      ensures w in visited || visited[u] + graph.edges[u][w].0 >= U64Max
    {
      assert !QueuedAt(f, u) && ExpandedAt(graph.edges, considerArcFlags, f.gscore, u);
      assert !QueuedAt(f, w);
    }
  }

  // ---------------------------------------------------------------------------
  // Order: without a heuristic, records come out of the queue by distance
  // ---------------------------------------------------------------------------

  /** Every queue entry is keyed by its record's distance, as it is without a heuristic. */
  ghost predicate KeyedByDistance(f: Frontier)
  {
    forall e :: e in f.queue ==> e.1 < |f.arena| && e.0 == f.arena[e.1].distanceFromStart
  }

  /**
   * `u` has been expanded at its best known distance and every edge out of `u` that the
   * filter allows leads to a node whose best known distance is at most the distance
   * through `u`, unless that distance reaches `u64::MAX`.
   */
  ghost predicate ExpandedTight(edges: Edges, considerArcFlags: bool, gscore: map<int, nat>, u: int)
  {
    u in gscore
    && forall w :: FlagEdge(edges, considerArcFlags, u, w) ==>
      (w in gscore && gscore[w] <= gscore[u] + edges[u][w].0) || gscore[u] + edges[u][w].0 >= U64Max
  }

  /** Each node of `ids` is queued at its best known distance or tightly expanded. */
  ghost predicate TightOn(f: Frontier, edges: Edges, considerArcFlags: bool, ids: set<int>)
  {
    forall u :: u in ids ==> QueuedAt(f, u) || ExpandedTight(edges, considerArcFlags, f.gscore, u)
  }

  /**
   * The order facts of a run without a heuristic, for the last popped distance `floor`:
   * entries are keyed by distance, none below `floor`, no settled distance above it, and
   * the settled nodes of `ids` are queued or tightly expanded.
   */
  ghost predicate OrderedOn(f: Frontier, edges: Edges, considerArcFlags: bool, visited: map<int, nat>,
                            floor: nat, ids: set<int>)
  {
    && KeyedByDistance(f)
    && (forall e :: e in f.queue ==> floor <= e.0)
    && (forall u :: u in visited ==> visited[u] <= floor)
    && TightOn(f, edges, considerArcFlags, ids)
  }

  ghost predicate Ordered(f: Frontier, edges: Edges, considerArcFlags: bool, visited: map<int, nat>, floor: nat)
  {
    OrderedOn(f, edges, considerArcFlags, visited, floor, visited.Keys)
  }

  /** The distance of the last pop, 0 before the first. */
  ghost function Floor(settled: seq<PathedNode>): nat
  {
    if settled == [] then 0 else settled[|settled| - 1].distanceFromStart
  }

  /**
   * One relaxation without a heuristic, through a record at or above `floor`, keys its entry
   * by distance, at or above `floor`, and keeps every settled node of `ids` queued or tight.
   */
  lemma RelaxOneOrdered(f: Frontier, edges: Edges, considerArcFlags: bool, visited: map<int, nat>, ids: set<int>,
                        floor: nat, current: nat, neighbor: (Node, nat))
    requires current < |f.arena| && floor <= f.arena[current].distanceFromStart
    requires KeyedByDistance(f) && (forall e :: e in f.queue ==> floor <= e.0)
    requires TightOn(f, edges, considerArcFlags, ids) && (forall u :: u in ids ==> u in visited)
    requires neighbor.0.id !in visited
    ensures var r := RelaxOne(f, current, f.arena[current], neighbor, None);
      && KeyedByDistance(r) && (forall e :: e in r.queue ==> floor <= e.0)
      && TightOn(r, edges, considerArcFlags, ids)
      && |r.arena| > current && r.arena[current] == f.arena[current]
  {
    var w := neighbor.0.id;
    var distance := f.arena[current].distanceFromStart + neighbor.1;
    if distance < GScore(f.gscore, w) {
      var r := Pushed(f, current, neighbor.0, distance, distance);
      assert RelaxOne(f, current, f.arena[current], neighbor, None) == r;
      forall e | e in r.queue ensures e.1 < |r.arena| && e.0 == r.arena[e.1].distanceFromStart {
        if e in f.queue {
          assert r.arena[e.1] == f.arena[e.1];
        }
      }
      forall u | u in ids ensures QueuedAt(r, u) || ExpandedTight(edges, considerArcFlags, r.gscore, u) {
        if QueuedAt(f, u) {
          var e :| e in f.queue && HoldsBest(f, e, u);
          assert e in r.queue && HoldsBest(r, e, u);
        } else {
          assert ExpandedTight(edges, considerArcFlags, f.gscore, u);
        }
      }
    }
  }

  /** The whole neighbour loop without a heuristic keeps those facts. */
  lemma {:induction false} RelaxAllOrdered(f: Frontier, edges: Edges, considerArcFlags: bool, visited: map<int, nat>,
                                           ids: set<int>, floor: nat, current: nat, neighbors: seq<(Node, nat)>)
    requires current < |f.arena| && floor <= f.arena[current].distanceFromStart
    requires KeyedByDistance(f) && (forall e :: e in f.queue ==> floor <= e.0)
    requires TightOn(f, edges, considerArcFlags, ids) && (forall u :: u in ids ==> u in visited)
    requires forall k :: 0 <= k < |neighbors| ==> neighbors[k].0.id !in visited
    ensures var r := RelaxAll(f, current, f.arena[current], neighbors, None);
      && KeyedByDistance(r) && (forall e :: e in r.queue ==> floor <= e.0)
      && TightOn(r, edges, considerArcFlags, ids)
      && |r.arena| > current && r.arena[current] == f.arena[current]
    decreases |neighbors|
  {
    if neighbors != [] {
      var init := neighbors[..|neighbors| - 1];
      assert forall k :: 0 <= k < |init| ==> init[k] == neighbors[k];
      RelaxAllOrdered(f, edges, considerArcFlags, visited, ids, floor, current, init);
      var g := RelaxAll(f, current, f.arena[current], init, None);
      RelaxOneOrdered(g, edges, considerArcFlags, visited, ids, floor, current, neighbors[|neighbors| - 1]);
    }
  }

  /**
   * Expanding node `x`, popped at its best known distance `d`, without a heuristic leaves
   * `x` tightly expanded: a settled head was popped at most at `d`, and an unsettled one is
   * relaxed to at most the distance through `x`.
   */
  lemma ExpandOrdered(f: Frontier, graph: RoadNetwork, considerArcFlags: bool, visited: map<int, nat>,
                      current: nat, neighbors: seq<(Node, nat)>)
    requires Routable(graph) && current < |f.arena|
    requires var x, d := f.arena[current].node.id, f.arena[current].distanceFromStart;
      && CoveredOn(f, graph.edges, considerArcFlags, visited, visited.Keys - {x})
      && x in visited && visited[x] == d && x in f.gscore && f.gscore[x] == d
      && OrderedOn(f, graph.edges, considerArcFlags, visited, d, visited.Keys - {x})
      && NeighborList(graph, visited, x, considerArcFlags, neighbors)
    ensures Ordered(RelaxAll(f, current, f.arena[current], neighbors, None), graph.edges, considerArcFlags,
                    visited, f.arena[current].distanceFromStart)
  {
    var x, d := f.arena[current].node.id, f.arena[current].distanceFromStart;
    var ids := visited.Keys - {x};
    RelaxAllOrdered(f, graph.edges, considerArcFlags, visited, ids, d, current, neighbors);
    RelaxAllCovers(f, graph.edges, considerArcFlags, visited, ids, current, neighbors, None);
    RelaxAllRelaxes(f, current, f.arena[current], neighbors, None);
    var r := RelaxAll(f, current, f.arena[current], neighbors, None);
    forall w | FlagEdge(graph.edges, considerArcFlags, x, w)
      ensures (w in r.gscore && r.gscore[w] <= r.gscore[x] + graph.edges[x][w].0)
              || r.gscore[x] + graph.edges[x][w].0 >= U64Max
    {
      if w in visited {
        assert w in f.gscore && f.gscore[w] <= visited[w] <= d;
      } else {
        assert Expandable(graph, visited, x, w, considerArcFlags);
        var k :| 0 <= k < |neighbors| && neighbors[k].0.id == w;
        assert GScore(r.gscore, w) <= d + graph.edges[x][w].0;
      }
    }
    assert ExpandedTight(graph.edges, considerArcFlags, r.gscore, x);
  }

  /**
   * Popping a least entry without a heuristic raises the floor to its distance and keeps
   * the order facts for every other settled node; for the popped node too when it is stale.
   */
  lemma PopOrdered(f: Frontier, edges: Edges, considerArcFlags: bool, visited: map<int, nat>, floor: nat,
                   entry: (nat, nat), rest: seq<(nat, nat)>)
    requires Ordered(f, edges, considerArcFlags, visited, floor) && Covered(f, edges, considerArcFlags, visited)
    requires entry in f.queue && (forall e :: e in f.queue ==> entry.0 <= e.0)
    requires multiset(rest) + multiset{entry} == multiset(f.queue)
    ensures entry.1 < |f.arena|
    ensures var x, cost := f.arena[entry.1].node.id, f.arena[entry.1].distanceFromStart;
      var visited' := visited[x := cost];
      && cost == entry.0 && floor <= cost && x in f.gscore
      && OrderedOn(f.(queue := rest), edges, considerArcFlags, visited', cost, visited'.Keys - {x})
      && (cost != f.gscore[x] ==> Ordered(f.(queue := rest), edges, considerArcFlags, visited', cost))
  {
    var x, cost := f.arena[entry.1].node.id, f.arena[entry.1].distanceFromStart;
    var visited' := visited[x := cost];
    var f' := f.(queue := rest);
    forall e | e in rest ensures e in f.queue {
      assert multiset(rest)[e] <= multiset(f.queue)[e];
    }
    forall e | e in f.queue && e != entry ensures e in rest {
      assert multiset(f.queue)[e] == multiset(rest)[e];
    }
    forall u | u in visited' && (u != x || cost != f.gscore[x])
      ensures QueuedAt(f', u) || ExpandedTight(edges, considerArcFlags, f'.gscore, u)
    {
      if QueuedAt(f, u) {
        var e :| e in f.queue && HoldsBest(f, e, u);
        assert e != entry;
        assert e in rest && HoldsBest(f', e, u);
      } else {
        assert ExpandedTight(edges, considerArcFlags, f.gscore, u);
      }
    }
  }

  /** Some queue entry is keyed at most `bound`. */
  ghost predicate QueueBelow(f: Frontier, bound: nat)
  {
    exists e :: e in f.queue && e.0 <= bound
  }

  /**
   * Without a heuristic, along any walk from the source that stays below `u64::MAX`, either
   * some entry is queued at most at the walk's cost, or the walk's last node already has a
   * best known distance at most that cost.
   */
  lemma {:induction false} QueueBelowWalk(f: Frontier, edges: Edges, considerArcFlags: bool, visited: map<int, nat>,
                                          sourceId: int, path: seq<Node>)
    requires KeyedByDistance(f) && TightOn(f, edges, considerArcFlags, visited.Keys)
    requires UnsettledQueued(f, visited) && sourceId in f.gscore && f.gscore[sourceId] == 0
    requires |path| >= 1 && path[|path| - 1].id == sourceId && BackWalk(edges, path, considerArcFlags)
    requires BackWalkCost(edges, path, considerArcFlags) < U64Max
    ensures QueueBelow(f, BackWalkCost(edges, path, considerArcFlags))
            || (path[0].id in f.gscore && f.gscore[path[0].id] <= BackWalkCost(edges, path, considerArcFlags))
    decreases |path|
  {
    if |path| >= 2 {
      var rest := path[1..];
      var cost := BackWalkCost(edges, path, considerArcFlags);
      var c := edges[path[1].id][path[0].id].0;
      QueueBelowWalk(f, edges, considerArcFlags, visited, sourceId, rest);
      var v := path[1].id;
      if !QueueBelow(f, BackWalkCost(edges, rest, considerArcFlags)) && !QueuedAt(f, v) {
        assert v in visited;
        assert ExpandedTight(edges, considerArcFlags, f.gscore, v);
        assert FlagEdge(edges, considerArcFlags, v, path[0].id);
      }
    }
  }

  /**
   * Without a heuristic, the first pop of a node costs no more than any walk to it from
   * the source that stays below `u64::MAX`.
   */
  lemma FirstPopShortest(f: Frontier, edges: Edges, considerArcFlags: bool, visited: map<int, nat>, floor: nat,
                         sourceId: int, entry: (nat, nat), path: seq<Node>)
    requires Ordered(f, edges, considerArcFlags, visited, floor) && Covered(f, edges, considerArcFlags, visited)
    requires sourceId in f.gscore && f.gscore[sourceId] == 0
    requires entry in f.queue && (forall e :: e in f.queue ==> entry.0 <= e.0)
    requires entry.1 < |f.arena| && f.arena[entry.1].node.id !in visited
    requires WalkFrom(edges, considerArcFlags, sourceId, f.arena[entry.1].node.id, path)
    requires BackWalkCost(edges, path, considerArcFlags) < U64Max
    ensures f.arena[entry.1].distanceFromStart <= BackWalkCost(edges, path, considerArcFlags)
  {
    var cost := BackWalkCost(edges, path, considerArcFlags);
    var x := f.arena[entry.1].node.id;
    QueueBelowWalk(f, edges, considerArcFlags, visited, sourceId, path);
  }

  /** `distance` is no more than the cost of any walk from `sourceId` to `id` below `u64::MAX`. */
  ghost predicate NoCheaperWalk(edges: Edges, considerArcFlags: bool, sourceId: int, id: int, distance: nat)
  {
    forall path :: WalkFrom(edges, considerArcFlags, sourceId, id, path)
                   && BackWalkCost(edges, path, considerArcFlags) < U64Max
                   ==> distance <= BackWalkCost(edges, path, considerArcFlags)
  }

  /**
   * Without a heuristic, a pop at the target that ends the run is its first, so its distance
   * is no more than that of any walk from the source to the target below `u64::MAX`.
   */
  lemma FoundShortest(graph: RoadNetwork, sourceId: int, targetId: int, considerArcFlags: bool,
                      costUpperBound: nat, maxSettledNodes: nat, f: Frontier, visited: map<int, nat>,
                      settled: seq<PathedNode>, entry: (nat, nat))
    requires Routable(graph) && sourceId in graph.nodes
    requires Running(graph, sourceId, targetId, considerArcFlags, costUpperBound, maxSettledNodes, f, visited, settled)
    requires Ordered(f, graph.edges, considerArcFlags, visited, Floor(settled))
    requires entry in f.queue && (forall e :: e in f.queue ==> entry.0 <= e.0)
    requires entry.1 < |f.arena| && f.arena[entry.1].node.id == targetId
    ensures NoCheaperWalk(graph.edges, considerArcFlags, sourceId, targetId, f.arena[entry.1].distanceFromStart)
  {
    SettledMapFrom(settled);
    PopsWithinMeans(settled, targetId, costUpperBound);
    assert targetId !in visited;
    assert f.arena[0].node.id == sourceId;
    forall path | WalkFrom(graph.edges, considerArcFlags, sourceId, targetId, path)
                  && BackWalkCost(graph.edges, path, considerArcFlags) < U64Max
      ensures f.arena[entry.1].distanceFromStart <= BackWalkCost(graph.edges, path, considerArcFlags)
    {
      FirstPopShortest(f, graph.edges, considerArcFlags, visited, Floor(settled), sourceId, entry, path);
    }
  }

  /**
   * The neighbour loop of `dijkstra`, on the state of the run: each neighbour in turn is
   * relaxed through record `current`.
   */
  method Relax(current: nat, neighbors: seq<(Node, nat)>, arena0: seq<PathedNode>,
               gscore0: map<int, nat>, queue0: seq<(nat, nat)>, previous0: map<int, int>,
               heuristics: Option<map<int, nat>>)
    returns (arena: seq<PathedNode>, gscore: map<int, nat>, queue: seq<(nat, nat)>, previous: map<int, int>)
    requires current < |arena0|
    ensures Frontier(arena, gscore, queue, previous)
      == RelaxAll(Frontier(arena0, gscore0, queue0, previous0), current, arena0[current], neighbors, heuristics)
  {
    arena, gscore, queue, previous := arena0, gscore0, queue0, previous0;
    var pathedCurrentNode := arena0[current];
    for k := 0 to |neighbors|
      invariant Frontier(arena, gscore, queue, previous)
        == RelaxAll(Frontier(arena0, gscore0, queue0, previous0), current, pathedCurrentNode,
                    neighbors[..k], heuristics)
    {
      assert neighbors[..k + 1][..k] == neighbors[..k];
      var neighbor := neighbors[k];
      var tempDistance := pathedCurrentNode.distanceFromStart + neighbor.1;
      var nextDistance := GScore(gscore, neighbor.0.id);
      if tempDistance < nextDistance {
        gscore := gscore[neighbor.0.id := tempDistance];
        var tentativeNewNode := PathedNode(neighbor.0, tempDistance, Some(current));
        var h := HeuristicOf(heuristics, neighbor.0.id);
        queue := queue + [(tempDistance + h, |arena|)];
        arena := arena + [tentativeNewNode];
        previous := previous[neighbor.0.id := pathedCurrentNode.node.id];
      }
    }
    assert neighbors[..|neighbors|] == neighbors;
  }

  /** Every record of `settled` is a record of `arena`. */
  ghost predicate AllRecordsOf(settled: seq<PathedNode>, arena: seq<PathedNode>)
    decreases |settled|
  {
    settled == [] || (settled[|settled| - 1] in arena && AllRecordsOf(settled[..|settled| - 1], arena))
  }

  lemma {:induction false} AllRecordsOfMeans(settled: seq<PathedNode>, arena: seq<PathedNode>)
    requires AllRecordsOf(settled, arena)
    ensures forall k :: 0 <= k < |settled| ==> settled[k] in arena
    decreases |settled|
  {
    if settled != [] {
      var init := settled[..|settled| - 1];
      AllRecordsOfMeans(init, arena);
      assert forall k :: 0 <= k < |init| ==> settled[k] == init[k];
    }
  }

  /** A record of an arena stays one when the arena grows at its end. */
  lemma {:induction false} AllRecordsOfGrow(settled: seq<PathedNode>, arena: seq<PathedNode>, grown: seq<PathedNode>)
    requires AllRecordsOf(settled, arena) && |arena| <= |grown| && grown[..|arena|] == arena
    ensures AllRecordsOf(settled, grown)
    decreases |settled|
  {
    if settled != [] {
      AllRecordsOfGrow(settled[..|settled| - 1], arena, grown);
      var j :| 0 <= j < |arena| && arena[j] == settled[|settled| - 1];
      assert grown[j] == grown[..|arena|][j];
    }
  }

  /** No record in `pops` is at the target or above the cost bound. */
  ghost predicate PopsWithin(pops: seq<PathedNode>, targetId: int, costUpperBound: nat)
    decreases |pops|
  {
    pops == []
    || (&& pops[|pops| - 1].node.id != targetId
        && pops[|pops| - 1].distanceFromStart <= costUpperBound
        && PopsWithin(pops[..|pops| - 1], targetId, costUpperBound))
  }

  lemma {:induction false} PopsWithinMeans(pops: seq<PathedNode>, targetId: int, costUpperBound: nat)
    requires PopsWithin(pops, targetId, costUpperBound)
    ensures forall k :: 0 <= k < |pops| ==>
      pops[k].node.id != targetId && pops[k].distanceFromStart <= costUpperBound
    decreases |pops|
  {
    if pops != [] {
      var init := pops[..|pops| - 1];
      PopsWithinMeans(init, targetId, costUpperBound);
      assert forall k :: 0 <= k < |init| ==> pops[k] == init[k];
    }
  }

  /** What settling one more record `x` of the arena does to the log of settled records. */
  lemma SettleOne(settled: seq<PathedNode>, x: PathedNode, arena: seq<PathedNode>,
                  targetId: int, costUpperBound: nat)
    requires AllRecordsOf(settled, arena) && x in arena
    ensures var s := settled + [x];
      && s[..|s| - 1] == settled
      && SettledMap(s) == SettledMap(settled)[x.node.id := x.distanceFromStart]
      && AllRecordsOf(s, arena)
      && s[0] == (if settled == [] then x else settled[0])
      && (PopsWithin(s, targetId, costUpperBound) <==>
          PopsWithin(settled, targetId, costUpperBound) && x.node.id != targetId
          && x.distanceFromStart <= costUpperBound)
  {
    assert (settled + [x])[..|settled|] == settled;
  }

  /** The settled-distance map after popping `settled` in order: a later pop overwrites. */
  ghost function SettledMap(settled: seq<PathedNode>): map<int, nat>
  {
    if settled == [] then map[]
    else
      var last := settled[|settled| - 1];
      SettledMap(settled[..|settled| - 1])[last.node.id := last.distanceFromStart]
  }

  // ---------------------------------------------------------------------------
  // The search, on the engine's graph, bounds and settled map as values
  // ---------------------------------------------------------------------------

  /** An edge `u -> v` the search may follow now: `v` is unsettled and the filter allows it. */
  ghost predicate Expandable(graph: RoadNetwork, visited: map<int, nat>, u: int, v: int, considerArcFlags: bool)
  {
    FlagEdge(graph.edges, considerArcFlags, u, v) && v !in visited
  }

  /**
   * What `get_neighbors` returns for node `u`: the heads of the expandable edges out of `u`,
   * each once, with its node and the edge's cost.
   */
  ghost predicate NeighborList(graph: RoadNetwork, visited: map<int, nat>, u: int, considerArcFlags: bool,
                               paths: seq<(Node, nat)>)
    requires Routable(graph)
  {
    && (forall k :: 0 <= k < |paths| ==>
         Expandable(graph, visited, u, paths[k].0.id, considerArcFlags)
         && paths[k].0 == graph.nodes[paths[k].0.id]
         && paths[k].1 == graph.edges[u][paths[k].0.id].0)
    && (forall v :: Expandable(graph, visited, u, v, considerArcFlags) ==>
         exists k :: 0 <= k < |paths| && paths[k].0.id == v)
    && (forall i, j :: 0 <= i < j < |paths| ==> paths[i].0.id != paths[j].0.id)
  }

  /**
   * The body of `get_neighbors`: walks the adjacency entries of `current`'s node (in the
   * inner map's iteration order), skips settled heads and, under the arc-flag filter, edges
   * whose flag is false, and collects the rest with their head node and cost.
   */
  method Neighbors(graph: RoadNetwork, visited: map<int, nat>, current: PathedNode, considerArcFlags: bool)
    returns (paths: seq<(Node, nat)>)
    requires Routable(graph)
    ensures NeighborList(graph, visited, current.node.id, considerArcFlags, paths)
  {
    paths := [];
    ghost var heads: seq<int> := [];
    var u := current.node.id;
    var nextNodeEdges: map<int, (nat, bool)> := if u in graph.edges then graph.edges[u] else map[];
    var rest := nextNodeEdges.Keys;
    while rest != {}
      invariant rest <= nextNodeEdges.Keys
      invariant |heads| == |paths| && forall k :: 0 <= k < |paths| ==> heads[k] == paths[k].0.id
      invariant forall k :: 0 <= k < |paths| ==>
        paths[k].0.id !in rest
        && Expandable(graph, visited, u, paths[k].0.id, considerArcFlags)
        && paths[k].0 == graph.nodes[paths[k].0.id]
        && paths[k].1 == graph.edges[u][paths[k].0.id].0
      invariant forall v :: Expandable(graph, visited, u, v, considerArcFlags) && v !in rest ==> v in heads
      invariant forall i, j :: 0 <= i < j < |paths| ==> paths[i].0.id != paths[j].0.id
      decreases rest
    {
      EmptyOrMember(rest);
      var head :| head in rest;
      rest := rest - {head};
      if head in visited {
        continue;
      }
      if considerArcFlags && !nextNodeEdges[head].1 {
        continue;
      }
      paths := paths + [(graph.nodes[head], nextNodeEdges[head].0)];
      heads := heads + [head];
    }
    forall v | Expandable(graph, visited, u, v, considerArcFlags)
      ensures exists k :: 0 <= k < |paths| && paths[k].0.id == v
    {
      var k :| 0 <= k < |heads| && heads[k] == v;
      assert paths[k].0.id == v;
    }
  }

  /**
   * One expansion: the neighbours of record `current` that `Neighbors` yields are relaxed
   * through it. The run's state stays sound, nothing recorded before is lost, and each new
   * record is paid for by a strictly lower best-known distance.
   */
  method Expand(graph: RoadNetwork, visited: map<int, nat>, ghost source: Node, ghost keys: seq<int>,
                current: nat, f: Frontier, heuristics: Option<map<int, nat>>, considerArcFlags: bool)
    returns (r: Frontier)
    requires Routable(graph) && Distinct(keys) && forall v :: v in graph.nodes ==> v in keys
    requires SearchInvariant(f, graph, source, considerArcFlags) && current < |f.arena|
    requires var x := f.arena[current].node.id;
      && CoveredOn(f, graph.edges, considerArcFlags, visited, visited.Keys - {x})
      && x in visited && x in f.gscore && f.gscore[x] == f.arena[current].distanceFromStart <= visited[x]
    requires heuristics.None? ==>
      var x, d := f.arena[current].node.id, f.arena[current].distanceFromStart;
      visited[x] == d && OrderedOn(f, graph.edges, considerArcFlags, visited, d, visited.Keys - {x})
    ensures SearchInvariant(r, graph, source, considerArcFlags)
    ensures Covered(r, graph.edges, considerArcFlags, visited)
    ensures |r.arena| >= |f.arena| && r.arena[..|f.arena|] == f.arena
    ensures |r.queue| == |f.queue| + (|r.arena| - |f.arena|)
    ensures Potential(keys, r.gscore) + (|r.arena| - |f.arena|) <= Potential(keys, f.gscore)
    ensures forall v :: GScore(r.gscore, v) <= GScore(f.gscore, v)
    ensures heuristics.None? ==>
      Ordered(r, graph.edges, considerArcFlags, visited, f.arena[current].distanceFromStart)
  {
    var pathedCurrentNode := f.arena[current];
    var neighbors := Neighbors(graph, visited, pathedCurrentNode, considerArcFlags);
    RelaxAllSound(f, graph, source, considerArcFlags, current, neighbors, heuristics);
    RelaxAllGrows(f, current, pathedCurrentNode, neighbors, heuristics, keys);
    RelaxAllRelaxes(f, current, pathedCurrentNode, neighbors, heuristics);
    ExpandCovers(f, graph, considerArcFlags, visited, current, neighbors, heuristics);
    if heuristics.None? {
      ExpandOrdered(f, graph, considerArcFlags, visited, current, neighbors);
    }
    var arena, gscore, queue, previous :=
      Relax(current, neighbors, f.arena, f.gscore, f.queue, f.previous, heuristics);
    r := Frontier(arena, gscore, queue, previous);
  }

  /**
   * How a run of `dijkstra` from `sourceId` ended, given its records, predecessor map and
   * final settled map `visited`; `settled` lists the popped records in order, `exhausted`
   * says the queue ran empty.
   *  - The records are sound (`ArenaValid`, `RecordsInGraph`), the predecessor map only
   *    names edges the run could use, the first pop is the source's record, every pop is a
   *    record, and `visited` is the settled map of the pops.
   *  - Every pop before the last one let the search go on: not the target, within the cost
   *    bound, and the settled map within the settle bound at that time.
   *  - `found` is the last pop and is at the target; without it the last pop is not at the
   *    target, and either a bound stopped the run or the queue ran empty with the last pop
   *    also letting the search go on.
   *  - Each predecessor entry `previous[v]` is the node of the parent of a least record at `v`.
   *  - When the queue ran empty, the settled map is closed under the edges the filter allows,
   *    up to the `u64::MAX` sentinel (`SettledClosed`).
   */
  ghost predicate SearchOutcome(graph: RoadNetwork, sourceId: int, targetId: int, considerArcFlags: bool,
                                costUpperBound: nat, maxSettledNodes: nat,
                                found: Option<nat>, arena: seq<PathedNode>, previousNodes: map<int, int>,
                                visited: map<int, nat>, settled: seq<PathedNode>, exhausted: bool)
    requires sourceId in graph.nodes
  {
    && ArenaValid(arena, graph.edges, graph.nodes[sourceId], considerArcFlags)
    && RecordsInGraph(arena, graph.nodes)
    && PredecessorEdges(previousNodes, graph.edges, considerArcFlags)
    && |settled| >= 1 && settled[0] == arena[0]
    && AllRecordsOf(settled, arena)
    && visited == SettledMap(settled)
    && sourceId in visited && visited.Keys <= graph.nodes.Keys
    && PopsWithin(settled[..|settled| - 1], targetId, costUpperBound)
    && |SettledMap(settled[..|settled| - 1])| <= maxSettledNodes
    && (found.Some? ==>
         !exhausted && found.value < |arena| && arena[found.value] == settled[|settled| - 1]
         && arena[found.value].node.id == targetId)
    && (found.None? ==> settled[|settled| - 1].node.id != targetId)
    && (found.None? && !exhausted ==>
         settled[|settled| - 1].distanceFromStart > costUpperBound || |visited| > maxSettledNodes)
    && (exhausted ==>
         found.None? && PopsWithin(settled, targetId, costUpperBound) && |visited| <= maxSettledNodes)
    && BestPredecessors(arena, previousNodes)
    && (exhausted ==> SettledClosed(graph, visited, considerArcFlags))
  }

  /**
   * What holds between two pops of `dijkstra`'s loop: the frontier is sound, `visited` is
   * the settled map of the pops so far, every pop let the search go on, before the first
   * pop the queue holds only the source's record, and the queue covers what is still owed.
   */
  ghost predicate Running(graph: RoadNetwork, sourceId: int, targetId: int, considerArcFlags: bool,
                          costUpperBound: nat, maxSettledNodes: nat,
                          f: Frontier, visited: map<int, nat>, settled: seq<PathedNode>)
    requires sourceId in graph.nodes
  {
    && SearchInvariant(f, graph, graph.nodes[sourceId], considerArcFlags)
    && visited == SettledMap(settled)
    && visited.Keys <= graph.nodes.Keys
    && AllRecordsOf(settled, f.arena)
    && (settled == [] ==> f.queue == [(0, 0)])
    && (settled != [] ==> settled[0] == f.arena[0] && sourceId in visited)
    && PopsWithin(settled, targetId, costUpperBound)
    && |visited| <= maxSettledNodes
    && Covered(f, graph.edges, considerArcFlags, visited)
  }

  /**
   * One turn of `dijkstra`'s loop: pops the best entry and settles its record; stops with
   * the record when it is at the target, stops with nothing when a bound is exceeded,
   * skips a stale record, and otherwise relaxes the record's neighbours.
   */
  method SearchStep(graph: RoadNetwork, sourceId: int, targetId: int, heuristics: Option<map<int, nat>>,
                    considerArcFlags: bool, costUpperBound: nat, maxSettledNodes: nat, ghost keys: seq<int>,
                    f: Frontier, visited: map<int, nat>, ghost settled: seq<PathedNode>)
    returns (stop: bool, found: Option<nat>, r: Frontier, visited': map<int, nat>, ghost settled': seq<PathedNode>)
    requires Routable(graph) && sourceId in graph.nodes
    requires Distinct(keys) && forall v :: v in graph.nodes ==> v in keys
    requires Running(graph, sourceId, targetId, considerArcFlags, costUpperBound, maxSettledNodes, f, visited, settled)
    requires f.queue != []
    requires heuristics.None? ==> Ordered(f, graph.edges, considerArcFlags, visited, Floor(settled))
    ensures stop ==> SearchOutcome(graph, sourceId, targetId, considerArcFlags, costUpperBound, maxSettledNodes,
                                   found, r.arena, r.previous, visited', settled', false)
    ensures stop && heuristics.None? && found.Some? ==>
      NoCheaperWalk(graph.edges, considerArcFlags, sourceId, targetId, r.arena[found.value].distanceFromStart)
    ensures !stop ==> Running(graph, sourceId, targetId, considerArcFlags, costUpperBound, maxSettledNodes,
                              r, visited', settled')
    ensures !stop ==> Potential(keys, r.gscore) < Potential(keys, f.gscore)
                      || (Potential(keys, r.gscore) == Potential(keys, f.gscore) && |r.queue| < |f.queue|)
    ensures !stop && heuristics.None? ==> Ordered(r, graph.edges, considerArcFlags, visited', Floor(settled'))
  {
    var entry, queue := PopMin(f.queue);
    var current := entry.1;
    var pathedCurrentNode := f.arena[current];
    var cost := pathedCurrentNode.distanceFromStart;
    var idx := pathedCurrentNode.node.id;

    visited' := visited[idx := cost];
    PopCovers(f, graph.edges, considerArcFlags, visited, entry, queue);
    if heuristics.None? {
      PopOrdered(f, graph.edges, considerArcFlags, visited, Floor(settled), entry, queue);
    }
    SettleOne(settled, pathedCurrentNode, f.arena, targetId, costUpperBound);
    settled' := settled + [pathedCurrentNode];
    r := f.(queue := queue);
    found := None;

    if idx == targetId {
      found, stop := Some(current), true;
      PredecessorsBest(r);
      if heuristics.None? {
        FoundShortest(graph, sourceId, targetId, considerArcFlags, costUpperBound, maxSettledNodes,
                      f, visited, settled, entry);
      }
      return;
    }

    if cost > costUpperBound || |visited'| > maxSettledNodes {
      stop := true;
      PredecessorsBest(r);
      return;
    }

    stop := false;
    if cost > GScore(f.gscore, idx) {
      return;
    }

    r := Expand(graph, visited', graph.nodes[sourceId], keys, current, r, heuristics, considerArcFlags);
    AllRecordsOfGrow(settled', f.arena, r.arena);
  }

  /** Before the first pop: one record, the source's, at distance 0, and nothing settled. */
  lemma Start(graph: RoadNetwork, sourceId: int, targetId: int, considerArcFlags: bool,
              costUpperBound: nat, maxSettledNodes: nat)
    requires Routable(graph) && sourceId in graph.nodes
    ensures Running(graph, sourceId, targetId, considerArcFlags, costUpperBound, maxSettledNodes,
                    Frontier([PathedNode(graph.nodes[sourceId], 0, None)], map[sourceId := 0], [(0, 0)], map[]),
                    map[], [])
    ensures Ordered(Frontier([PathedNode(graph.nodes[sourceId], 0, None)], map[sourceId := 0], [(0, 0)], map[]),
                    graph.edges, considerArcFlags, map[], 0)
  {
    var f := Frontier([PathedNode(graph.nodes[sourceId], 0, None)], map[sourceId := 0], [(0, 0)], map[]);
    assert HoldsBest(f, (0, 0), sourceId);
  }

  /** When the queue runs empty, every pop let the search go on. */
  lemma Exhausted(graph: RoadNetwork, sourceId: int, targetId: int, considerArcFlags: bool,
                  costUpperBound: nat, maxSettledNodes: nat, f: Frontier, visited: map<int, nat>,
                  settled: seq<PathedNode>)
    requires sourceId in graph.nodes
    requires Running(graph, sourceId, targetId, considerArcFlags, costUpperBound, maxSettledNodes, f, visited, settled)
    requires f.queue == []
    ensures SearchOutcome(graph, sourceId, targetId, considerArcFlags, costUpperBound, maxSettledNodes,
                          None, f.arena, f.previous, visited, settled, true)
  {
    assert settled[..|settled|] == settled;
    EmptyQueueClosed(f, graph, considerArcFlags, visited);
    PredecessorsBest(f);
  }

  /**
   * The loop of `dijkstra`, with the settled map `visited` built from empty: pops records in
   * order of distance plus heuristic until a turn stops or the queue runs empty.
   */
  method Search(graph: RoadNetwork, sourceId: int, targetId: int, heuristics: Option<map<int, nat>>,
                considerArcFlags: bool, costUpperBound: nat, maxSettledNodes: nat)
    returns (found: Option<nat>, arena: seq<PathedNode>, previousNodes: map<int, int>,
             visited: map<int, nat>, ghost settled: seq<PathedNode>, ghost exhausted: bool)
    requires Routable(graph)
    requires sourceId in graph.nodes
    ensures SearchOutcome(graph, sourceId, targetId, considerArcFlags, costUpperBound, maxSettledNodes,
                          found, arena, previousNodes, visited, settled, exhausted)
    ensures heuristics.None? && found.Some? ==>
      NoCheaperWalk(graph.edges, considerArcFlags, sourceId, targetId, arena[found.value].distanceFromStart)
  {
    var source := graph.nodes[sourceId];
    var f := Frontier([PathedNode(source, 0, None)], map[sourceId := 0], [(0, 0)], map[]);
    visited := map[];
    settled := [];
    ghost var keys := SeqOfSet(graph.nodes.Keys);
    Start(graph, sourceId, targetId, considerArcFlags, costUpperBound, maxSettledNodes);

    while f.queue != []
      invariant Running(graph, sourceId, targetId, considerArcFlags, costUpperBound, maxSettledNodes,
                        f, visited, settled)
      invariant heuristics.None? ==> Ordered(f, graph.edges, considerArcFlags, visited, Floor(settled))
      decreases Potential(keys, f.gscore), |f.queue|
    {
      var stop;
      stop, found, f, visited, settled :=
        SearchStep(graph, sourceId, targetId, heuristics, considerArcFlags, costUpperBound, maxSettledNodes,
                   keys, f, visited, settled);
      if stop {
        arena, previousNodes, exhausted := f.arena, f.previous, false;
        return;
      }
    }
    found, arena, previousNodes, exhausted := None, f.arena, f.previous, true;
    Exhausted(graph, sourceId, targetId, considerArcFlags, costUpperBound, maxSettledNodes, f, visited, settled);
  }

  /** Each entry of the settled map comes from a pop of a record at that node with that distance. */
  lemma {:induction false} SettledMapFrom(settled: seq<PathedNode>)
    ensures forall id :: id in SettledMap(settled) ==>
      exists k :: 0 <= k < |settled| && settled[k].node.id == id
                  && SettledMap(settled)[id] == settled[k].distanceFromStart
    decreases |settled|
  {
    if settled != [] {
      var init := settled[..|settled| - 1];
      SettledMapFrom(init);
      forall id | id in SettledMap(settled)
        ensures exists k :: 0 <= k < |settled| && settled[k].node.id == id
                            && SettledMap(settled)[id] == settled[k].distanceFromStart
      {
        if id == settled[|settled| - 1].node.id {
          assert settled[|settled| - 1].node.id == id;
        } else {
          var k :| 0 <= k < |init| && init[k].node.id == id && SettledMap(init)[id] == init[k].distanceFromStart;
          assert settled[k] == init[k];
        }
      }
    }
  }

  /** Read backwards, `path` is a walk from node `sourceId` to node `id`. */
  ghost predicate WalkFrom(edges: Edges, flagged: bool, sourceId: int, id: int, path: seq<Node>)
  {
    |path| >= 1 && path[0].id == id && path[|path| - 1].id == sourceId && BackWalk(edges, path, flagged)
  }

  /** Every node a run settled is reachable from the source along the edges the run may use. */
  lemma SettledAreReached(graph: RoadNetwork, sourceId: int, targetId: int, considerArcFlags: bool,
                          costUpperBound: nat, maxSettledNodes: nat, found: Option<nat>, arena: seq<PathedNode>,
                          previousNodes: map<int, int>, visited: map<int, nat>, settled: seq<PathedNode>,
                          exhausted: bool)
    requires sourceId in graph.nodes && WellKeyed(graph.nodes)
    requires SearchOutcome(graph, sourceId, targetId, considerArcFlags, costUpperBound, maxSettledNodes,
                           found, arena, previousNodes, visited, settled, exhausted)
    ensures forall id :: id in visited ==> exists p :: WalkFrom(graph.edges, considerArcFlags, sourceId, id, p)
  {
    SettledMapFrom(settled);
    AllRecordsOfMeans(settled, arena);
    forall id | id in visited ensures exists p :: WalkFrom(graph.edges, considerArcFlags, sourceId, id, p) {
      var k :| 0 <= k < |settled| && settled[k].node.id == id
               && SettledMap(settled)[id] == settled[k].distanceFromStart;
      var j :| 0 <= j < |arena| && arena[j] == settled[k];
      var source := graph.nodes[sourceId];
      LineageIsWalk(arena, graph.edges, source, considerArcFlags, j);
      LineageEnds(arena, j);
      assert WalkFrom(graph.edges, considerArcFlags, sourceId, id, Lineage(arena, j));
    }
  }

  /**
   * When the queue ran empty and no settled distance plus the cost of an edge out of its
   * node reaches `u64::MAX`, the settled map is closed under the edges the filter allows:
   * every node reachable from the source that way is settled.
   */
  lemma ClosedUnderEdges(graph: RoadNetwork, sourceId: int, targetId: int, considerArcFlags: bool,
                         costUpperBound: nat, maxSettledNodes: nat, found: Option<nat>, arena: seq<PathedNode>,
                         previousNodes: map<int, int>, visited: map<int, nat>, settled: seq<PathedNode>)
    requires sourceId in graph.nodes
    requires SearchOutcome(graph, sourceId, targetId, considerArcFlags, costUpperBound, maxSettledNodes,
                           found, arena, previousNodes, visited, settled, true)
    requires forall u, w :: u in visited && HasEdge(graph.edges, u, w) ==> visited[u] + graph.edges[u][w].0 < U64Max
    ensures forall u, w :: u in visited && FlagEdge(graph.edges, considerArcFlags, u, w) ==> w in visited
  {
    forall u, w | u in visited && FlagEdge(graph.edges, considerArcFlags, u, w) ensures w in visited {
      assert HasEdge(graph.edges, u, w);
    }
  }

  // ---------------------------------------------------------------------------
  // The engine
  // ---------------------------------------------------------------------------

  /** `RoadDijkstra`: a private copy of the graph, the settled map of the last run, and two bounds. */
  class RoadDijkstra {
    var graph: RoadNetwork
    var visitedNodes: map<int, nat>
    var costUpperBound: U64
    var maxSettledNodes: U64

    /** `RoadDijkstra::new`: nothing settled, both bounds at `u64::MAX`. */
    constructor (graph: RoadNetwork)
      ensures this.graph == graph && visitedNodes == map[]
      ensures costUpperBound == U64Max && maxSettledNodes == U64Max
    {
      this.graph := graph;
      visitedNodes := map[];
      costUpperBound := U64Max;
      maxSettledNodes := U64Max;
    }

    method SetCostUpperBound(upperBound: U64)
      modifies this`costUpperBound
      ensures costUpperBound == upperBound
    {
      costUpperBound := upperBound;
    }

    method SetMaxSettledNodes(maxSettled: U64)
      modifies this`maxSettledNodes
      ensures maxSettledNodes == maxSettled
    {
      maxSettledNodes := maxSettled;
    }

    /** `get_neighbors`: the expandable neighbours of `current`'s node, given what is settled now. */
    method GetNeighbors(current: PathedNode, considerArcFlags: bool) returns (paths: seq<(Node, nat)>)
      requires Routable(graph)
      ensures NeighborList(graph, visitedNodes, current.node.id, considerArcFlags, paths)
    {
      paths := Neighbors(graph, visitedNodes, current, considerArcFlags);
    }

    /**
     * `dijkstra`: clears the settled map and runs `Search` from `sourceId` with this
     * engine's graph and bounds; the settled map the run builds is left in `visitedNodes`.
     * A positive `targetId` must be a node; a non-positive one is not looked up, and then
     * the search runs until the queue is empty or a bound stops it, unless a node has that id.
     */
    method Dijkstra(sourceId: int, targetId: int, heuristics: Option<map<int, nat>>, considerArcFlags: bool)
      returns (found: Option<nat>, arena: seq<PathedNode>, previousNodes: map<int, int>,
               ghost settled: seq<PathedNode>, ghost exhausted: bool)
      requires Routable(graph)
      requires sourceId in graph.nodes
      requires targetId > 0 ==> targetId in graph.nodes
      modifies this`visitedNodes
      ensures SearchOutcome(graph, sourceId, targetId, considerArcFlags, costUpperBound, maxSettledNodes,
                            found, arena, previousNodes, visitedNodes, settled, exhausted)
      ensures heuristics.None? && found.Some? ==>
        NoCheaperWalk(graph.edges, considerArcFlags, sourceId, targetId, arena[found.value].distanceFromStart)
    {
      visitedNodes := map[];
      var visited;
      found, arena, previousNodes, visited, settled, exhausted :=
        Search(graph, sourceId, targetId, heuristics, considerArcFlags, costUpperBound, maxSettledNodes);
      visitedNodes := visited;
    }

    /**
     * `get_unvisted_node_id`: none when the tag map has as many entries as the graph has
     * nodes; otherwise some graph node not tagged with a positive count, if there is one.
     */
    method GetUnvisitedNodeId(otherLocatedNodes: map<int, int>) returns (r: Option<int>)
      ensures r.Some? ==>
        r.value in graph.nodes && !(r.value in otherLocatedNodes && otherLocatedNodes[r.value] > 0)
      ensures r.None? <==>
        (|otherLocatedNodes| == |graph.nodes|
         || forall v :: v in graph.nodes ==> v in otherLocatedNodes && otherLocatedNodes[v] > 0)
    {
      if |otherLocatedNodes| == |graph.nodes| {
        return None;
      }
      var located := set id | id in otherLocatedNodes && otherLocatedNodes[id] > 0;
      var rest := graph.nodes.Keys;
      while rest != {}
        invariant rest <= graph.nodes.Keys
        invariant forall v :: v in graph.nodes && v !in rest ==> v in located
        decreases rest
      {
        EmptyOrMember(rest);
        var node :| node in rest;
        if node !in located {
          return Some(node);
        }
        rest := rest - {node};
      }
      return None;
    }

    /** `reset_all_flags`: every directed edge's flag becomes `state`; nothing else changes. */
    method ResetAllFlags(state: bool)
      modifies this`graph
      ensures graph == old(graph).(edges := WithAllFlags(old(graph).edges, state))
    {
      var edges := SetAllFlags(graph.edges, state);
      graph := graph.(edges := edges);
    }
  }

  /** The loops of `reset_all_flags`, over the adjacency maps one tail at a time. */
  method SetAllFlags(edges0: Edges, state: bool) returns (edges: Edges)
    ensures edges == WithAllFlags(edges0, state)
  {
    edges := edges0;
    var tails := edges.Keys;
    while tails != {}
      invariant tails <= edges.Keys && edges.Keys == edges0.Keys
      invariant forall t :: t in edges && t !in tails ==> edges[t] == WithFlag(edges0[t], state)
      invariant forall t :: t in tails ==> edges[t] == edges0[t]
      decreases tails
    {
      EmptyOrMember(tails);
      var tail :| tail in tails;
      var edgelist := SetFlags(edges[tail], state);
      edges := edges[tail := edgelist];
      tails := tails - {tail};
    }
    ghost var target := WithAllFlags(edges0, state);
    assert edges.Keys == target.Keys;
    assert forall t :: t in edges ==> edges[t] == target[t];
  }

  /** The inner loop of `reset_all_flags`: every edge of one adjacency map gets flag `state`. */
  method SetFlags(edgelist0: map<int, (nat, bool)>, state: bool) returns (edgelist: map<int, (nat, bool)>)
    ensures edgelist == WithFlag(edgelist0, state)
  {
    edgelist := edgelist0;
    var heads := edgelist.Keys;
    while heads != {}
      invariant heads <= edgelist.Keys && edgelist.Keys == edgelist0.Keys
      invariant forall h :: h in edgelist && h !in heads ==> edgelist[h] == (edgelist0[h].0, state)
      invariant forall h :: h in heads ==> edgelist[h] == edgelist0[h]
      decreases heads
    {
      EmptyOrMember(heads);
      var head :| head in heads;
      edgelist := edgelist[head := (edgelist[head].0, state)];
      heads := heads - {head};
    }
    ghost var target := WithFlag(edgelist0, state);
    assert edgelist.Keys == target.Keys;
    assert forall h :: h in edgelist ==> edgelist[h] == target[h];
  }

  /** One adjacency map with every flag set to `state`, costs and keys unchanged. */
  function WithFlag(edgelist: map<int, (nat, bool)>, state: bool): (r: map<int, (nat, bool)>)
    ensures r.Keys == edgelist.Keys
    ensures forall h :: h in r ==> r[h] == (edgelist[h].0, state)
  {
    map h | h in edgelist :: (edgelist[h].0, state)
  }

  /** Every directed edge with its flag set to `state`, costs and keys unchanged. */
  function WithAllFlags(edges: Edges, state: bool): (r: Edges)
    ensures r.Keys == edges.Keys
    ensures forall t :: t in r ==> r[t].Keys == edges[t].Keys
    ensures forall t, h :: t in r && h in r[t] ==> r[t][h] == (edges[t][h].0, state)
    ensures AllFlags(r, state)
    ensures Symmetric(edges) ==> Symmetric(r)
    ensures forall ids :: EndpointsIn(edges, ids) ==> EndpointsIn(r, ids)
  {
    map t | t in edges :: WithFlag(edges[t], state)
  }
}
