// `reduce_to_largest_connected_component`: repeated full searches tag the nodes they settle
// with a round number; the round that tagged the most nodes becomes the new graph.

module Components {
  import opened Options
  import opened SetFacts
  import opened RoadNetworks
  import opened RoadDijkstras

  /** The nodes whose tag is round `c`. */
  ghost function Group(tags: map<int, int>, c: int): set<int>
  {
    set id | id in tags && tags[id] == c
  }

  /**
   * The last round that settled `id` is `tags[id]`: `rounds[k]` is what round `k + 1` settled,
   * and a node is tagged exactly when some round settled it.
   */
  ghost predicate TaggedByLastRound(tags: map<int, int>, rounds: seq<map<int, nat>>)
  {
    && (forall id :: id in tags <==> exists k :: 0 <= k < |rounds| && id in rounds[k])
    && (forall id :: id in tags ==> 1 <= tags[id] <= |rounds| && id in rounds[tags[id] - 1])
    && (forall id, k :: id in tags && tags[id] <= k < |rounds| ==> id !in rounds[k])
  }

  /** The tag loop: every id of `ids` is (re)tagged with `round`, every other tag is kept. */
  method TagAll(tags0: map<int, int>, ids: set<int>, round: int) returns (tags: map<int, int>)
    ensures tags.Keys == tags0.Keys + ids
    ensures forall id :: id in tags ==> tags[id] == (if id in ids then round else tags0[id])
  {
    tags := tags0;
    var rest := ids;
    while rest != {}
      invariant rest <= ids
      invariant tags.Keys == tags0.Keys + (ids - rest)
      invariant forall id :: id in tags ==> tags[id] == (if id in ids - rest then round else tags0[id])
      decreases rest
    {
      EmptyOrMember(rest);
      var x :| x in rest;
      tags := tags[x := round];
      rest := rest - {x};
    }
  }

  /**
   * Grouping the tags by round and keeping a group only when it is strictly larger than the
   * best so far: the result is a largest group, and no earlier round has one as large.
   * The chunks of the tag list sorted by round are visited here as rounds `1 ..= rounds`
   * in increasing order; a round with no tag left is an empty group and never wins.
   */
  method SelectLargest(tags: map<int, int>, rounds: nat) returns (largest: set<int>, ghost round: int)
    requires forall id :: id in tags ==> 1 <= tags[id] <= rounds
    ensures largest == {} <==> tags == map[]
    ensures largest != {} ==> 1 <= round <= rounds && largest == Group(tags, round)
    ensures forall c :: 1 <= c <= rounds ==> |Group(tags, c)| <= |largest|
    ensures largest != {} ==> forall c :: 1 <= c < round ==> |Group(tags, c)| < |largest|
  {
    largest, round := {}, 0;
    var prevSetSize := 0;
    for c := 1 to rounds + 1
      invariant prevSetSize == |largest|
      invariant largest == {} <==> forall id :: id in tags ==> tags[id] >= c
      invariant largest != {} ==> 1 <= round < c && largest == Group(tags, round)
      invariant forall d :: 1 <= d < c ==> |Group(tags, d)| <= |largest|
      invariant largest != {} ==> forall d :: 1 <= d < round ==> |Group(tags, d)| < |largest|
    {
      var nodeSet := set id | id in tags && tags[id] == c;
      assert nodeSet == Group(tags, c);
      if |nodeSet| > prevSetSize {
        EmptyOrMember(nodeSet);
        largest, round := nodeSet, c;
        prevSetSize := |nodeSet|;
      } else if largest == {} {
        forall id | id in tags ensures tags[id] >= c + 1 {
          assert id !in nodeSet;
        }
      }
    }
    if tags != map[] {
      EmptyOrMember(tags.Keys);
    }
  }

  /** A subset of a finite set with as many elements is the whole set. */
  lemma {:induction false} SubsetOfSameSize(a: set<int>, b: set<int>)
    requires a <= b && |a| == |b|
    ensures a == b
  {
    assert b == a + (b - a);
    assert |b - a| == 0;
    assert b - a == {};
  }

  /** A subset is no larger than its superset. */
  lemma {:induction false} SubsetSize(a: set<int>, b: set<int>)
    requires a <= b
    ensures |a| <= |b|
    decreases |b|
  {
    if a != {} {
      EmptyOrMember(a);
      var x :| x in a;
      SubsetSize(a - {x}, b - {x});
    }
  }

  /** No edge leaves `ids`. */
  ghost predicate ClosedSet(edges: Edges, ids: set<int>)
  {
    forall u, w :: u in ids && HasEdge(edges, u, w) ==> w in ids
  }

  /**
   * A round's search ran to an empty queue without meeting a node `-1` (its target) and
   * without any distance, through any edge, reaching `u64::MAX`, the value it reads for
   * an unknown node; with both bounds at `u64::MAX` only these could end it earlier.
   */
  ghost predicate FullRound(g: RoadNetwork, run: map<int, nat>)
  {
    && -1 !in run && |run| <= U64Max
    && (forall u :: u in run ==> run[u] <= U64Max)
    && (forall u, w :: u in run && HasEdge(g.edges, u, w) ==> run[u] + g.edges[u][w].0 < U64Max)
  }

  /** Every node of `ids` is reachable from `source` over the graph's edges. */
  ghost predicate ReachedFrom(g: RoadNetwork, source: int, ids: set<int>)
  {
    forall id :: id in ids ==> exists p :: WalkFrom(g.edges, false, source, id, p)
  }

  /**
   * What a round's settled map `run` says about the graph: every node in it is reachable
   * from the round's start `source`, and a full round leaves no edge out of it.
   */
  ghost predicate RoundSound(g: RoadNetwork, source: int, run: map<int, nat>)
  {
    && ReachedFrom(g, source, run.Keys)
    && (FullRound(g, run) ==> ClosedSet(g.edges, run.Keys))
  }

  /**
   * What the rounds so far leave: `rounds[k]` is the settled map of round `k + 1`, whose
   * search started at `sources[k]`, a node that no earlier round had settled; every tag
   * names the last round that settled its node.
   */
  ghost predicate Tagging(g: RoadNetwork, tags: map<int, int>, rounds: seq<map<int, nat>>, sources: seq<int>)
  {
    && |sources| == |rounds|
    && tags.Keys <= g.nodes.Keys
    && (forall k :: 0 <= k < |rounds| ==>
         rounds[k].Keys <= g.nodes.Keys && sources[k] in rounds[k] && RoundSound(g, sources[k], rounds[k]))
    && (forall k, j :: 0 <= j < k < |rounds| ==> sources[k] !in rounds[j])
    && TaggedByLastRound(tags, rounds)
  }

  /**
   * A round with both bounds at `u64::MAX` and target `-1` is sound: its settled nodes are
   * reachable from its start and, when it is full, closed under the graph's edges.
   */
  lemma RoundOutcome(g: RoadNetwork, sourceId: int, found: Option<nat>, arena: seq<PathedNode>,
                     previousNodes: map<int, int>, visited: map<int, nat>, settled: seq<PathedNode>,
                     exhausted: bool)
    requires Routable(g) && sourceId in g.nodes
    requires SearchOutcome(g, sourceId, -1, false, U64Max, U64Max,
                           found, arena, previousNodes, visited, settled, exhausted)
    ensures RoundSound(g, sourceId, visited)
  {
    SettledAreReached(g, sourceId, -1, false, U64Max, U64Max, found, arena, previousNodes, visited, settled, exhausted);
    if FullRound(g, visited) {
      var last := settled[|settled| - 1];
      assert last.node.id in visited && visited[last.node.id] == last.distanceFromStart;
      assert exhausted;
      ClosedUnderEdges(g, sourceId, -1, false, U64Max, U64Max, found, arena, previousNodes, visited, settled);
      forall u, w | u in visited && HasEdge(g.edges, u, w) ensures w in visited {
        assert FlagEdge(g.edges, false, u, w);
      }
    }
  }

  /** Read backwards, a walk that starts inside a set closed under symmetric edges stays inside. */
  lemma {:induction false} WalkStaysIn(edges: Edges, ids: set<int>, path: seq<Node>)
    requires ClosedSet(edges, ids) && Symmetric(edges)
    requires |path| >= 1 && path[0].id in ids && BackWalk(edges, path, false)
    ensures path[|path| - 1].id in ids
    decreases |path|
  {
    if |path| >= 2 {
      assert HasEdge(edges, path[1].id, path[0].id);
      assert HasEdge(edges, path[0].id, path[1].id);
      WalkStaysIn(edges, ids, path[1..]);
    }
  }

  /**
   * On symmetric edges, no later round settles a node of a full round: its start would be
   * reachable from that node, hence inside the earlier round, which it is not.
   */
  lemma RoundsDisjoint(g: RoadNetwork, tags: map<int, int>, rounds: seq<map<int, nat>>, sources: seq<int>,
                       j: int, k: int)
    requires Tagging(g, tags, rounds, sources) && Symmetric(g.edges)
    requires 0 <= j < k < |rounds| && FullRound(g, rounds[j])
    ensures forall id :: id in rounds[k] ==> id !in rounds[j]
  {
    forall id | id in rounds[k] ensures id !in rounds[j] {
      assert RoundSound(g, sources[j], rounds[j]) && RoundSound(g, sources[k], rounds[k]);
      var p :| WalkFrom(g.edges, false, sources[k], id, p);
      if id in rounds[j] {
        WalkStaysIn(g.edges, rounds[j].Keys, p);
      }
    }
  }

  /** On symmetric edges, the nodes tagged with a full round are exactly that round's. */
  lemma GroupIsRound(g: RoadNetwork, tags: map<int, int>, rounds: seq<map<int, nat>>, sources: seq<int>, c: int)
    requires Tagging(g, tags, rounds, sources) && Symmetric(g.edges)
    requires 1 <= c <= |rounds| && FullRound(g, rounds[c - 1])
    ensures Group(tags, c) == rounds[c - 1].Keys
  {
    forall id | id in rounds[c - 1] ensures id in Group(tags, c) {
      assert id in tags;
      if tags[id] > c {
        RoundsDisjoint(g, tags, rounds, sources, c - 1, tags[id] - 1);
      }
    }
    forall id | id in Group(tags, c) ensures id in rounds[c - 1] {
      assert id in tags && tags[id] == c;
    }
  }

  /**
   * One round: a fresh engine on the graph runs a full search from `sourceId` (target `-1`,
   * no heuristic, arc flags off) and every node it settled is tagged with the round number.
   */
  method TagRound(g: RoadNetwork, sourceId: int, counter: int, tags: map<int, int>)
    returns (tags': map<int, int>, visited: map<int, nat>, ghost found: Option<nat>,
             ghost arena: seq<PathedNode>, ghost previousNodes: map<int, int>,
             ghost settled: seq<PathedNode>, ghost exhausted: bool)
    requires Routable(g) && sourceId in g.nodes
    ensures SearchOutcome(g, sourceId, -1, false, U64Max, U64Max,
                          found, arena, previousNodes, visited, settled, exhausted)
    ensures RoundSound(g, sourceId, visited)
    ensures visited.Keys <= g.nodes.Keys && sourceId in visited
    ensures tags'.Keys == tags.Keys + visited.Keys
    ensures forall id :: id in tags' ==> tags'[id] == (if id in visited then counter else tags[id])
  {
    var engine := new RoadDijkstra(g);
    var found', arena', previousNodes', settled', exhausted' := engine.Dijkstra(sourceId, -1, None, false);
    found, arena, previousNodes, settled, exhausted := found', arena', previousNodes', settled', exhausted';
    visited := engine.visitedNodes;
    RoundOutcome(g, sourceId, found, arena, previousNodes, visited, settled, exhausted);
    tags' := TagAll(tags, visited.Keys, counter);
  }

  /**
   * A round from an untagged node keeps the tagging account and tags one node more at
   * least, so the untagged nodes run out.
   */
  lemma TaggingGrows(g: RoadNetwork, tags: map<int, int>, rounds: seq<map<int, nat>>, sources: seq<int>,
                     sourceId: int, run: map<int, nat>, tags': map<int, int>)
    requires Tagging(g, tags, rounds, sources) && sourceId !in tags
    requires run.Keys <= g.nodes.Keys && sourceId in run && RoundSound(g, sourceId, run)
    requires tags'.Keys == tags.Keys + run.Keys
    requires forall id :: id in tags' ==> tags'[id] == (if id in run then |rounds| + 1 else tags[id])
    ensures Tagging(g, tags', rounds + [run], sources + [sourceId])
  {
    var rounds', sources' := rounds + [run], sources + [sourceId];
    TaggedAfterRound(tags, rounds, run, tags');
    RoundsAppended(g, rounds, sources, sourceId, run);
    FreshSource(tags, rounds, sources, sourceId, run);
  }

  /** Appending a sound round keeps every round sound and within the graph. */
  lemma RoundsAppended(g: RoadNetwork, rounds: seq<map<int, nat>>, sources: seq<int>, sourceId: int,
                       run: map<int, nat>)
    requires |sources| == |rounds|
    requires forall k :: 0 <= k < |rounds| ==>
      rounds[k].Keys <= g.nodes.Keys && sources[k] in rounds[k] && RoundSound(g, sources[k], rounds[k])
    requires run.Keys <= g.nodes.Keys && sourceId in run && RoundSound(g, sourceId, run)
    ensures forall k :: 0 <= k < |rounds| + 1 ==>
      && (rounds + [run])[k].Keys <= g.nodes.Keys && (sources + [sourceId])[k] in (rounds + [run])[k]
      && RoundSound(g, (sources + [sourceId])[k], (rounds + [run])[k])
  {
    forall k | 0 <= k < |rounds| + 1
      ensures (rounds + [run])[k].Keys <= g.nodes.Keys && (sources + [sourceId])[k] in (rounds + [run])[k]
      ensures RoundSound(g, (sources + [sourceId])[k], (rounds + [run])[k])
    {
      if k < |rounds| {
        assert (rounds + [run])[k] == rounds[k] && (sources + [sourceId])[k] == sources[k];
      }
    }
  }

  /** A start that no round has tagged is in no earlier round. */
  lemma FreshSource(tags: map<int, int>, rounds: seq<map<int, nat>>, sources: seq<int>, sourceId: int,
                    run: map<int, nat>)
    requires |sources| == |rounds| && TaggedByLastRound(tags, rounds) && sourceId !in tags
    requires forall k, j :: 0 <= j < k < |rounds| ==> sources[k] !in rounds[j]
    ensures forall k, j :: 0 <= j < k < |rounds| + 1 ==> (sources + [sourceId])[k] !in (rounds + [run])[j]
  {
    forall k, j | 0 <= j < k < |rounds| + 1 ensures (sources + [sourceId])[k] !in (rounds + [run])[j] {
      assert (rounds + [run])[j] == rounds[j];
      if k < |rounds| {
        assert (sources + [sourceId])[k] == sources[k];
      }
    }
  }

  /** Tagging a node that had no tag leaves fewer untagged nodes. */
  lemma FewerUntagged(ids: set<int>, tagged: set<int>, tagged': set<int>, x: int)
    requires x in ids && x !in tagged && tagged + {x} <= tagged'
    ensures |ids - tagged'| < |ids - tagged|
  {
    assert ids - tagged' <= ids - tagged - {x};
    SubsetSize(ids - tagged', ids - tagged - {x});
  }

  /**
   * One turn of the rounds' loop: asks the engine for a node with no positive tag; stops
   * when there is none, and otherwise runs a round from it and stops once more than half
   * the nodes are tagged.
   */
  method NextRound(g: RoadNetwork, shortestPathGraph: RoadDijkstra, tags: map<int, int>, counter: nat,
                   ghost rounds: seq<map<int, nat>>, ghost sources: seq<int>)
    returns (stop: bool, tags': map<int, int>, counter': nat, ghost rounds': seq<map<int, nat>>,
             ghost sources': seq<int>)
    requires Routable(g) && shortestPathGraph.graph == g
    requires Tagging(g, tags, rounds, sources) && counter == |rounds| && (counter == 0 ==> tags == map[])
    ensures Tagging(g, tags', rounds', sources') && counter' == |rounds'| && (counter' == 0 ==> tags' == map[])
    ensures stop ==> |tags'| > |g.nodes| / 2 || tags'.Keys == g.nodes.Keys
    ensures stop ==> g.nodes != map[] ==> counter' >= 1
    ensures !stop ==> |g.nodes.Keys - tags'.Keys| < |g.nodes.Keys - tags.Keys|
  {
    tags', counter', rounds', sources' := tags, counter, rounds, sources;
    var next := shortestPathGraph.GetUnvisitedNodeId(tags);
    if next.None? {
      AllTagged(g.nodes, tags, counter);
      return true, tags', counter', rounds', sources';
    }
    counter' := counter + 1;
    var visited;
    ghost var found, arena, previousNodes, settled, exhausted;
    tags', visited, found, arena, previousNodes, settled, exhausted := TagRound(g, next.value, counter', tags);
    TaggingGrows(g, tags, rounds, sources, next.value, visited, tags');
    FewerUntagged(g.nodes.Keys, tags.Keys, tags'.Keys, next.value);
    rounds', sources' := rounds + [visited], sources + [next.value];
    stop := |tags'| > |g.nodes| / 2;
  }

  /**
   * The rounds of `reduce_to_largest_connected_component`: while the engine finds a node
   * with no positive tag, a new round searches from it and tags what it settles; the rounds
   * stop early once more than half the nodes are tagged.
   */
  method TagRounds(g: RoadNetwork)
    returns (tags: map<int, int>, counter: nat, ghost rounds: seq<map<int, nat>>, ghost sources: seq<int>)
    requires Routable(g)
    ensures Tagging(g, tags, rounds, sources) && counter == |rounds|
    ensures |tags| > |g.nodes| / 2 || tags.Keys == g.nodes.Keys
    ensures g.nodes != map[] ==> counter >= 1
  {
    var shortestPathGraph := new RoadDijkstra(g);
    tags, rounds, sources := map[], [], [];
    counter := 0;
    var stop := false;
    while !stop
      invariant shortestPathGraph.graph == g
      invariant Tagging(g, tags, rounds, sources) && counter == |rounds| && (counter == 0 ==> tags == map[])
      invariant stop ==> |tags| > |g.nodes| / 2 || tags.Keys == g.nodes.Keys
      invariant stop ==> g.nodes != map[] ==> counter >= 1
      decreases !stop, |g.nodes.Keys - tags.Keys|
    {
      stop, tags, counter, rounds, sources := NextRound(g, shortestPathGraph, tags, counter, rounds, sources);
    }
  }

  /**
   * `reduce_to_largest_connected_component`: after the rounds, the round holding the most
   * tags (the earliest on a tie) gives the node set, and the network is rebuilt from those
   * nodes and the original ways.
   */
  method ReduceToLargestConnectedComponent(g: RoadNetwork)
    returns (r: RoadNetwork, tags: map<int, int>, ghost rounds: seq<map<int, nat>>,
             ghost sources: seq<int>, largest: set<int>, ghost round: int)
    requires Routable(g) && WaysWellFormed(g.rawWays)
    // what each round did
    ensures Tagging(g, tags, rounds, sources)
    // when the rounds stopped
    ensures |tags| > |g.nodes| / 2 || tags.Keys == g.nodes.Keys
    ensures g.nodes != map[] ==> |rounds| >= 1
    // which round was kept
    ensures largest == {} <==> g.nodes == map[]
    ensures largest != {} ==> 1 <= round <= |rounds| && largest == Group(tags, round)
    ensures forall c :: 1 <= c <= |rounds| ==> |Group(tags, c)| <= |largest|
    ensures largest != {} ==> forall c :: 1 <= c < round ==> |Group(tags, c)| < |largest|
    // on symmetric edges, a full round's group is the connected component of its start
    ensures largest != {} && Symmetric(g.edges) && FullRound(g, rounds[round - 1]) ==>
      && largest == rounds[round - 1].Keys && ClosedSet(g.edges, largest)
      && ReachedFrom(g, sources[round - 1], largest)
    // the rebuilt network
    ensures largest <= g.nodes.Keys
    ensures BuiltFrom(r, map id | id in largest :: g.nodes[id], g.rawWays)
    ensures Routable(r)
    ensures r.nodes.Keys <= largest
  {
    var counter;
    tags, counter, rounds, sources := TagRounds(g);
    largest, round := SelectLargest(tags, counter);
    NonEmptyWhenRun(g, tags, rounds, sources);
    GroupWithin(tags, round, g.nodes.Keys);
    if largest != {} && Symmetric(g.edges) && FullRound(g, rounds[round - 1]) {
      KeptRoundIsComponent(g, tags, rounds, sources, round);
    }
    r := RebuildOn(g, largest);
  }

  /** The network rebuilt from the kept nodes and all of the original ways. */
  method RebuildOn(g: RoadNetwork, largest: set<int>) returns (r: RoadNetwork)
    requires Routable(g) && WaysWellFormed(g.rawWays) && largest <= g.nodes.Keys
    ensures BuiltFrom(r, map id | id in largest :: g.nodes[id], g.rawWays)
    ensures Routable(r)
    ensures r.nodes.Keys <= largest
  {
    var lccNodes := map id | id in largest :: g.nodes[id];
    assert lccNodes.Keys == largest;
    assert WellKeyed(lccNodes);
    r := NewRoadNetwork(lccNodes, g.rawWays);
    assert forall k :: k in r.nodes ==> k in lccNodes;
  }

  /**
   * On symmetric edges, the group of a full round is a connected component: the nodes
   * reachable from the round's start, with no edge leaving them.
   */
  lemma KeptRoundIsComponent(g: RoadNetwork, tags: map<int, int>, rounds: seq<map<int, nat>>,
                             sources: seq<int>, c: int)
    requires Tagging(g, tags, rounds, sources) && Symmetric(g.edges)
    requires 1 <= c <= |rounds| && FullRound(g, rounds[c - 1])
    ensures Group(tags, c) == rounds[c - 1].Keys
    ensures ClosedSet(g.edges, Group(tags, c)) && ReachedFrom(g, sources[c - 1], Group(tags, c))
  {
    GroupIsRound(g, tags, rounds, sources, c);
    assert RoundSound(g, sources[c - 1], rounds[c - 1]);
  }

  /**
   * The engine finds no untagged node only once every node is tagged, and so, when the
   * graph has a node, only after a round.
   */
  lemma AllTagged(nodes: map<int, Node>, tags: map<int, int>, counter: nat)
    requires tags.Keys <= nodes.Keys && (counter == 0 ==> tags == map[])
    requires |tags| == |nodes| || forall v :: v in nodes ==> v in tags && tags[v] > 0
    ensures tags.Keys == nodes.Keys
    ensures nodes != map[] ==> counter >= 1
  {
    if |tags| == |nodes| {
      assert |tags.Keys| == |nodes.Keys|;
      SubsetOfSameSize(tags.Keys, nodes.Keys);
    } else {
      forall v | v in nodes ensures v in tags {
        assert v in tags && tags[v] > 0;
      }
    }
    if nodes != map[] {
      EmptyOrMember(nodes.Keys);
    }
  }

  /** After at least one round, some node is tagged; with none, no node is. */
  lemma NonEmptyWhenRun(g: RoadNetwork, tags: map<int, int>, rounds: seq<map<int, nat>>, sources: seq<int>)
    requires Tagging(g, tags, rounds, sources)
    ensures rounds != [] ==> tags != map[]
    ensures g.nodes == map[] ==> tags == map[]
  {
    if rounds != [] {
      var x := sources[0];
      assert x in rounds[0];
      assert exists k :: 0 <= k < |rounds| && x in rounds[k];
      assert x in tags;
    }
  }

  /** A round's group holds only tagged ids, so only graph nodes. */
  lemma GroupWithin(tags: map<int, int>, round: int, ids: set<int>)
    requires tags.Keys <= ids
    ensures Group(tags, round) <= ids
  {
  }

  /** Tagging round `|rounds| + 1`'s settled nodes keeps every tag equal to the last round that settled it. */
  lemma TaggedAfterRound(tags0: map<int, int>, rounds: seq<map<int, nat>>, ids: map<int, nat>, tags: map<int, int>)
    requires TaggedByLastRound(tags0, rounds)
    requires tags.Keys == tags0.Keys + ids.Keys
    requires forall id :: id in tags ==> tags[id] == (if id in ids then |rounds| + 1 else tags0[id])
    ensures TaggedByLastRound(tags, rounds + [ids])
  {
    var rounds' := rounds + [ids];
    forall id ensures id in tags <==> exists k :: 0 <= k < |rounds'| && id in rounds'[k] {
      if id in tags0 {
        var k :| 0 <= k < |rounds| && id in rounds[k];
        assert rounds'[k] == rounds[k];
      }
      if id in ids {
        assert rounds'[|rounds|] == ids;
      }
      if exists k :: 0 <= k < |rounds'| && id in rounds'[k] {
        var k :| 0 <= k < |rounds'| && id in rounds'[k];
        if k < |rounds| {
          assert rounds'[k] == rounds[k];
        }
      }
    }
    forall id | id in tags ensures 1 <= tags[id] <= |rounds'| && id in rounds'[tags[id] - 1] {
      if id !in ids {
        assert rounds'[tags0[id] - 1] == rounds[tags0[id] - 1];
      }
    }
    forall id, k | id in tags && tags[id] <= k < |rounds'| ensures id !in rounds'[k] {
      if id !in ids {
        if k < |rounds| {
          assert rounds'[k] == rounds[k];
        }
      }
    }
  }
}
