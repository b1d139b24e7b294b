/**
 * The road graph: raw node and way records, the speed table, the segment cost and
 * the builder that turns records into a symmetric adjacency map
 * `tail -> head -> (cost, arc flag)`.
 */
module RoadNetworks {
  import opened Options
  import opened SetFacts

  /** Largest value of Rust's `u64`: the "no bound" default of the search. */
  const U64Max: nat := 0xFFFF_FFFF_FFFF_FFFF

  type U64 = x: int | 0 <= x <= U64Max

  /** A map point; latitude and longitude are degrees times 10^7. */
  datatype Node = Node(id: int, lat: int, lon: int)

  /** A road: its speed class in km/h and the ordered node ids it runs through. */
  datatype Way = Way(id: int, speed: nat, refs: seq<int>)

  /** Adjacency map: tail id -> head id -> (cost in seconds, arc flag). */
  type Edges = map<int, map<int, (nat, bool)>>

  datatype RoadNetwork = RoadNetwork(
    nodes: map<int, Node>,
    edges: Edges,
    rawWays: seq<Way>,
    rawNodes: seq<int>)

  // ---------------------------------------------------------------------------
  // Speeds and costs
  // ---------------------------------------------------------------------------

  /** Speed in km/h of a highway class; unlisted classes have none. */
  function SpeedCalc(highway: string): (speed: Option<nat>)
    ensures speed.Some? ==> 5 <= speed.value <= 110
    ensures speed.Some? ==> 1 <= SpeedDivisor(speed.value) <= SpeedDivisor(110) == 30
    ensures highway == "motorway" ==> speed == Some(110)
  {
    match highway
    case "motorway" => Some(110)
    case "trunk" => Some(110)
    case "primary" => Some(70)
    case "secondary" => Some(60)
    case "tertiary" => Some(50)
    case "motorway_link" => Some(50)
    case "trunk_link" => Some(50)
    case "primary_link" => Some(50)
    case "secondary_link" => Some(50)
    case "road" => Some(40)
    case "unclassified" => Some(40)
    case "residential" => Some(30)
    case "unsurfaced" => Some(30)
    case "living_street" => Some(10)
    case "service" => Some(5)
    case _ => None
  }

  /** A speed in km/h converted to whole metres per second, truncated. */
  function SpeedDivisor(speed: nat): nat
  {
    speed * 5 / 18
  }

  lemma SpeedDivisorMonotone(slow: nat, fast: nat)
    requires slow <= fast
    ensures SpeedDivisor(slow) <= SpeedDivisor(fast)
  {
    assert slow * 5 <= fast * 5;
  }

  /** Integer square root, by halving the bit length: see `ISqrtIsRoot`. */
  function ISqrt(n: nat): nat
    decreases n
  {
    if n < 4 then (if n == 0 then 0 else 1)
    else
      var s := 2 * ISqrt(n / 4);
      if (s + 1) * (s + 1) <= n then s + 1 else s
  }

  /** `ISqrt(n)` is the largest `r` with `r * r <= n`. */
  lemma {:induction false} ISqrtIsRoot(n: nat)
    ensures ISqrt(n) * ISqrt(n) <= n < (ISqrt(n) + 1) * (ISqrt(n) + 1)
    decreases n
  {
    if n >= 4 {
      ISqrtIsRoot(n / 4);
      ISqrtStep(n, ISqrt(n / 4));
    }
  }

  lemma ISqrtStep(n: nat, half: nat)
    requires half * half <= n / 4 < (half + 1) * (half + 1)
    ensures (2 * half) * (2 * half) <= n < (2 * half + 2) * (2 * half + 2)
  {
    var q := n / 4;
    assert n == 4 * q + n % 4;
    assert (2 * half) * (2 * half) == 4 * (half * half);
    assert (2 * half + 2) * (2 * half + 2) == 4 * ((half + 1) * (half + 1));
    assert (half + 1) * (half + 1) >= q + 1;
  }

  function Square(x: int): nat
  {
    if x < 0 then (-x) * (-x) else x * x
  }

  /**
   * Planar distance in metres between two nodes: one degree of latitude is 111229 m and one
   * degree of longitude 71695 m, coordinates carry 10^7 per degree, and the square root is
   * truncated. Exact integer arithmetic stands for the source's floating-point evaluation.
   */
  function Dist(tail: Node, head: Node): (d: nat)
    ensures tail.lat == head.lat && tail.lon == head.lon ==> d == 0
  {
    var a := Square((head.lat - tail.lat) * 111229);
    var b := Square((head.lon - tail.lon) * 71695);
    ISqrt((a + b) / 100_000_000_000_000)
  }

  lemma DistSymmetric(x: Node, y: Node)
    ensures Dist(x, y) == Dist(y, x)
  {
    assert Square((y.lat - x.lat) * 111229) == Square((x.lat - y.lat) * 111229);
    assert Square((y.lon - x.lon) * 71695) == Square((x.lon - y.lon) * 71695);
  }

  /** Seconds needed to drive from `tail` to `head` at `speed` km/h. */
  function SegmentCost(tail: Node, head: Node, speed: nat): nat
    requires SpeedDivisor(speed) > 0
  {
    Dist(tail, head) / SpeedDivisor(speed)
  }

  lemma MulMonotone(q: nat, a: nat, b: nat)
    requires a <= b
    ensures q * a <= q * b
  {
  }

  lemma BelowNextMultiple(x: nat, d: nat)
    requires d > 0
    ensures x < (x / d + 1) * d
  {
    assert x == (x / d) * d + x % d;
  }

  lemma CancelFactor(a: nat, b: nat, c: nat)
    requires c > 0 && a * c < b * c
    ensures a < b
  {
  }

  /** Dividing by a larger divisor never gives a larger quotient. */
  lemma DivAntitone(x: nat, small: nat, large: nat)
    requires 0 < small <= large
    ensures x / large <= x / small
  {
    var q, m := x / large, x / small;
    MulMonotone(q, small, large);
    assert q * large <= x;
    BelowNextMultiple(x, small);
    CancelFactor(q, m + 1, small);
  }

  // ---------------------------------------------------------------------------
  // Building the adjacency map
  // ---------------------------------------------------------------------------

  /** A way the builder accepts: at least one ref (else `len() - 1` underflows) and a nonzero divisor. */
  ghost predicate WayWellFormed(way: Way)
  {
    |way.refs| > 0 && SpeedDivisor(way.speed) > 0
  }

  ghost predicate WaysWellFormed(ways: seq<Way>)
  {
    forall k :: 0 <= k < |ways| ==> WayWellFormed(ways[k])
  }

  /** Every node is stored under its own id, as the map reader produces them. */
  ghost predicate WellKeyed(nodes: map<int, Node>)
  {
    forall k :: k in nodes ==> nodes[k].id == k
  }

  ghost predicate Symmetric(edges: Edges)
  {
    forall u, v :: u in edges && v in edges[u] ==>
      v in edges && u in edges[v] && edges[v][u].0 == edges[u][v].0
  }

  ghost predicate AllFlags(edges: Edges, state: bool)
  {
    forall u, v :: u in edges && v in edges[u] ==> edges[u][v].1 == state
  }

  ghost predicate EndpointsIn(edges: Edges, ids: set<int>)
  {
    forall u :: u in edges ==> u in ids && forall v :: v in edges[u] ==> v in ids
  }

  /**
   * `edges.entry(tail).and_modify(|m| m.insert(head, e)).or_insert({head: e})`:
   * sets the entry `tail -> head` and leaves every other entry as it was.
   */
  function Upsert(edges: Edges, tail: int, head: int, entry: (nat, bool)): (r: Edges)
    ensures r.Keys == edges.Keys + {tail}
    ensures r[tail].Keys == (if tail in edges then edges[tail].Keys else {}) + {head}
    ensures r[tail][head] == entry
  {
    edges[tail := (if tail in edges then edges[tail] else map[])[head := entry]]
  }

  /** `Upsert` adds the pair `tail -> head` and keeps every other pair with its entry. */
  lemma UpsertElsewhere(edges: Edges, tail: int, head: int, entry: (nat, bool), t: int, h: int)
    ensures HasEdge(Upsert(edges, tail, head, entry), t, h) <==> HasEdge(edges, t, h) || (t == tail && h == head)
    ensures HasEdge(edges, t, h) && (t != tail || h != head) ==>
      Upsert(edges, tail, head, entry)[t][h] == edges[t][h]
  {
  }

  /** Segment `i` of `way` (from `refs[i]` to `refs[i + 1]`) applied to `edges`. */
  function SegmentStep(nodes: map<int, Node>, edges: Edges, way: Way, i: nat): Edges
    requires i + 1 < |way.refs| && SpeedDivisor(way.speed) > 0
  {
    var tailId, headId := way.refs[i], way.refs[i + 1];
    if tailId in nodes && headId in nodes then
      var cost := SegmentCost(nodes[tailId], nodes[headId], way.speed);
      Upsert(Upsert(edges, tailId, headId, (cost, false)), nodes[headId].id, tailId, (cost, false))
    else edges
  }

  /** Segments `i`, `i + 1`, ... of `way`, in order, applied to `edges`. */
  function AddSegments(nodes: map<int, Node>, edges: Edges, way: Way, i: nat): Edges
    requires i < |way.refs| && SpeedDivisor(way.speed) > 0
    decreases |way.refs| - i
  {
    if i == |way.refs| - 1 then edges
    else AddSegments(nodes, SegmentStep(nodes, edges, way, i), way, i + 1)
  }

  /** `ways`, in order, applied to `edges`, each segment by segment. */
  function AddWays(nodes: map<int, Node>, edges: Edges, ways: seq<Way>): Edges
    requires WaysWellFormed(ways)
    decreases |ways|
  {
    if ways == [] then edges
    else AddWays(nodes, AddSegments(nodes, edges, ways[0], 0), ways[1..])
  }

  /** The adjacency map that the builder computes from all ways, starting from an empty one. */
  function BuildEdges(nodes: map<int, Node>, ways: seq<Way>): Edges
    requires WaysWellFormed(ways)
  {
    AddWays(nodes, map[], ways)
  }

  /** Segment `i` of `way` joins `u` and `v` (either direction) and both ends are known nodes. */
  ghost predicate UsableSegment(nodes: map<int, Node>, way: Way, i: int, u: int, v: int)
  {
    0 <= i < |way.refs| - 1 && way.refs[i] in nodes && way.refs[i + 1] in nodes
    && ((u == way.refs[i] && v == way.refs[i + 1]) || (u == way.refs[i + 1] && v == way.refs[i]))
  }

  ghost predicate WayJoins(nodes: map<int, Node>, way: Way, u: int, v: int)
  {
    exists i :: UsableSegment(nodes, way, i, u, v)
  }

  /** As the builder leaves an adjacency map: symmetric, every flag false, every endpoint in `ids`. */
  ghost predicate BuilderShape(edges: Edges, ids: set<int>)
  {
    Symmetric(edges) && AllFlags(edges, false) && EndpointsIn(edges, ids)
  }

  ghost predicate HasEdge(edges: Edges, u: int, v: int)
  {
    u in edges && v in edges[u]
  }

  /** After writing one entry in both directions, pair `u -> v` has its reverse, at the same cost, unflagged. */
  lemma UpsertBothWaysAt(edges: Edges, a: int, b: int, cost: nat, u: int, v: int)
    requires Symmetric(edges) && AllFlags(edges, false)
    requires HasEdge(Upsert(Upsert(edges, a, b, (cost, false)), b, a, (cost, false)), u, v)
    ensures var r := Upsert(Upsert(edges, a, b, (cost, false)), b, a, (cost, false));
      HasEdge(r, v, u) && r[v][u].0 == r[u][v].0 && !r[u][v].1
  {
    var entry := (cost, false);
    var e1: Edges := Upsert(edges, a, b, entry);
    if (u == a && v == b) || (u == b && v == a) {
      if a != b {
        UpsertElsewhere(e1, b, a, entry, a, b);
      }
    } else {
      UpsertElsewhere(e1, b, a, entry, u, v);
      UpsertElsewhere(edges, a, b, entry, u, v);
      assert HasEdge(edges, v, u);
      UpsertElsewhere(e1, b, a, entry, v, u);
      UpsertElsewhere(edges, a, b, entry, v, u);
    }
  }

  /** Writing a pair between two known ids keeps every endpoint known. */
  lemma UpsertEndpoints(edges: Edges, tail: int, head: int, entry: (nat, bool), ids: set<int>)
    requires EndpointsIn(edges, ids) && tail in ids && head in ids
    ensures EndpointsIn(Upsert(edges, tail, head, entry), ids)
  {
    var r := Upsert(edges, tail, head, entry);
    forall u, v | u in r && v in r[u] ensures v in ids {
      UpsertElsewhere(edges, tail, head, entry, u, v);
    }
  }

  /** Writing one entry in both directions keeps the map symmetric, unflagged and within `ids`. */
  lemma UpsertBothWays(edges: Edges, a: int, b: int, cost: nat, ids: set<int>)
    requires BuilderShape(edges, ids)
    requires a in ids && b in ids
    ensures BuilderShape(Upsert(Upsert(edges, a, b, (cost, false)), b, a, (cost, false)), ids)
  {
    var entry := (cost, false);
    var e1: Edges := Upsert(edges, a, b, entry);
    var r: Edges := Upsert(e1, b, a, entry);
    forall u: int, v: int | u in r && v in r[u]
      ensures v in r && u in r[v] && r[v][u].0 == r[u][v].0
    {
      UpsertBothWaysAt(edges, a, b, cost, u, v);
    }
    forall u: int, v: int | u in r && v in r[u]
      ensures r[u][v].1 == false
    {
      UpsertBothWaysAt(edges, a, b, cost, u, v);
    }
    UpsertEndpoints(edges, a, b, entry, ids);
    UpsertEndpoints(e1, b, a, entry, ids);
  }

  /** Symmetry, all flags false and known endpoints survive one segment. */
  lemma SegmentStepShape(nodes: map<int, Node>, edges: Edges, way: Way, i: nat)
    requires i + 1 < |way.refs| && SpeedDivisor(way.speed) > 0 && WellKeyed(nodes)
    requires BuilderShape(edges, nodes.Keys)
    ensures BuilderShape(SegmentStep(nodes, edges, way, i), nodes.Keys)
  {
    var tailId, headId := way.refs[i], way.refs[i + 1];
    if tailId in nodes && headId in nodes {
      var cost := SegmentCost(nodes[tailId], nodes[headId], way.speed);
      UpsertBothWays(edges, tailId, headId, cost, nodes.Keys);
    }
  }

  lemma {:induction false} AddSegmentsShape(nodes: map<int, Node>, edges: Edges, way: Way, i: nat)
    requires i < |way.refs| && SpeedDivisor(way.speed) > 0 && WellKeyed(nodes)
    requires BuilderShape(edges, nodes.Keys)
    ensures BuilderShape(AddSegments(nodes, edges, way, i), nodes.Keys)
    decreases |way.refs| - i
  {
    if i < |way.refs| - 1 {
      SegmentStepShape(nodes, edges, way, i);
      AddSegmentsShape(nodes, SegmentStep(nodes, edges, way, i), way, i + 1);
    }
  }

  lemma {:induction false} AddWaysShape(nodes: map<int, Node>, edges: Edges, ways: seq<Way>)
    requires WaysWellFormed(ways) && WellKeyed(nodes)
    requires BuilderShape(edges, nodes.Keys)
    ensures BuilderShape(AddWays(nodes, edges, ways), nodes.Keys)
    decreases |ways|
  {
    if ways != [] {
      AddSegmentsShape(nodes, edges, ways[0], 0);
      AddWaysShape(nodes, AddSegments(nodes, edges, ways[0], 0), ways[1..]);
    }
  }

  /**
   * The built map is symmetric with equal costs both ways, every flag is false, and every
   * endpoint is a known node.
   */
  lemma BuildEdgesShape(nodes: map<int, Node>, ways: seq<Way>)
    requires WaysWellFormed(ways) && WellKeyed(nodes)
    ensures BuilderShape(BuildEdges(nodes, ways), nodes.Keys)
  {
    AddWaysShape(nodes, map[], ways);
  }

  /** One segment adds exactly the pair it joins (both directions), if both ends are known. */
  lemma SegmentStepEdges(nodes: map<int, Node>, edges: Edges, way: Way, i: nat, u: int, v: int)
    requires i + 1 < |way.refs| && SpeedDivisor(way.speed) > 0 && WellKeyed(nodes)
    ensures HasEdge(SegmentStep(nodes, edges, way, i), u, v)
      <==> HasEdge(edges, u, v) || UsableSegment(nodes, way, i, u, v)
  {
    var tailId, headId := way.refs[i], way.refs[i + 1];
    if tailId in nodes && headId in nodes {
      var entry := (SegmentCost(nodes[tailId], nodes[headId], way.speed), false);
      var e1 := Upsert(edges, tailId, headId, entry);
      assert nodes[headId].id == headId;
      UpsertElsewhere(edges, tailId, headId, entry, u, v);
      UpsertElsewhere(e1, headId, tailId, entry, u, v);
    }
  }

  /** Some segment from the `i`-th on of `way` is usable and joins `u` and `v`. */
  ghost predicate SegmentsJoin(nodes: map<int, Node>, way: Way, i: nat, u: int, v: int)
    decreases |way.refs| - i
  {
    i < |way.refs| - 1 && (UsableSegment(nodes, way, i, u, v) || SegmentsJoin(nodes, way, i + 1, u, v))
  }

  lemma {:induction false} SegmentsJoinMeans(nodes: map<int, Node>, way: Way, i: nat, u: int, v: int)
    ensures SegmentsJoin(nodes, way, i, u, v) <==> exists j :: i <= j && UsableSegment(nodes, way, j, u, v)
    decreases |way.refs| - i
  {
    if i < |way.refs| - 1 {
      SegmentsJoinMeans(nodes, way, i + 1, u, v);
      if exists j :: i <= j && UsableSegment(nodes, way, j, u, v) {
        var j :| i <= j && UsableSegment(nodes, way, j, u, v);
        if j > i {
          assert exists k :: i + 1 <= k && UsableSegment(nodes, way, k, u, v);
        }
      }
    }
  }

  lemma {:induction false} AddSegmentsEdges(nodes: map<int, Node>, edges: Edges, way: Way, i: nat, u: int, v: int)
    requires i < |way.refs| && SpeedDivisor(way.speed) > 0 && WellKeyed(nodes)
    ensures HasEdge(AddSegments(nodes, edges, way, i), u, v)
      <==> HasEdge(edges, u, v) || SegmentsJoin(nodes, way, i, u, v)
    decreases |way.refs| - i
  {
    if i < |way.refs| - 1 {
      SegmentStepEdges(nodes, edges, way, i, u, v);
      AddSegmentsEdges(nodes, SegmentStep(nodes, edges, way, i), way, i + 1, u, v);
    }
  }

  /** Some way of `ways` joins `u` and `v`. */
  ghost predicate WaysJoin(nodes: map<int, Node>, ways: seq<Way>, u: int, v: int)
  {
    ways != [] && (WayJoins(nodes, ways[0], u, v) || WaysJoin(nodes, ways[1..], u, v))
  }

  lemma {:induction false} WaysJoinMeans(nodes: map<int, Node>, ways: seq<Way>, u: int, v: int)
    ensures WaysJoin(nodes, ways, u, v) <==> exists k :: 0 <= k < |ways| && WayJoins(nodes, ways[k], u, v)
  {
    if ways != [] {
      var rest := ways[1..];
      WaysJoinMeans(nodes, rest, u, v);
      if exists k :: 0 <= k < |rest| && WayJoins(nodes, rest[k], u, v) {
        var k :| 0 <= k < |rest| && WayJoins(nodes, rest[k], u, v);
        assert ways[k + 1] == rest[k];
      }
      if exists k :: 0 <= k < |ways| && WayJoins(nodes, ways[k], u, v) {
        var k :| 0 <= k < |ways| && WayJoins(nodes, ways[k], u, v);
        if k > 0 {
          assert rest[k - 1] == ways[k];
        }
      }
    }
  }

  lemma {:induction false} AddWaysEdges(nodes: map<int, Node>, edges: Edges, ways: seq<Way>, u: int, v: int)
    requires WaysWellFormed(ways) && WellKeyed(nodes)
    ensures HasEdge(AddWays(nodes, edges, ways), u, v) <==> HasEdge(edges, u, v) || WaysJoin(nodes, ways, u, v)
    decreases |ways|
  {
    if ways != [] {
      var way := ways[0];
      AddSegmentsEdges(nodes, edges, way, 0, u, v);
      SegmentsJoinMeans(nodes, way, 0, u, v);
      AddWaysEdges(nodes, AddSegments(nodes, edges, way, 0), ways[1..], u, v);
    }
  }

  /**
   * An edge `u -> v` is in the built map exactly when some way has a segment joining `u` and
   * `v`, in either direction, whose two ends are both known nodes.
   */
  lemma BuildEdgesExactly(nodes: map<int, Node>, ways: seq<Way>, u: int, v: int)
    requires WaysWellFormed(ways) && WellKeyed(nodes)
    ensures HasEdge(BuildEdges(nodes, ways), u, v)
      <==> exists k :: 0 <= k < |ways| && WayJoins(nodes, ways[k], u, v)
  {
    AddWaysEdges(nodes, map[], ways, u, v);
    WaysJoinMeans(nodes, ways, u, v);
  }

  /** The cost the builder writes for segment `i` of `way`, in both directions. */
  function SegCost(nodes: map<int, Node>, way: Way, i: int): nat
    requires 0 <= i < |way.refs| - 1 && way.refs[i] in nodes && way.refs[i + 1] in nodes
    requires SpeedDivisor(way.speed) > 0
  {
    SegmentCost(nodes[way.refs[i]], nodes[way.refs[i + 1]], way.speed)
  }

  /**
   * `c` is the cost of the last usable segment, from the `i`-th on, of `way` that joins
   * `u` and `v`.
   */
  ghost predicate LastSegment(nodes: map<int, Node>, way: Way, i: nat, u: int, v: int, c: nat)
  {
    && SpeedDivisor(way.speed) > 0
    && exists j ::
         && i <= j && UsableSegment(nodes, way, j, u, v) && c == SegCost(nodes, way, j)
         && forall j' :: j < j' ==> !UsableSegment(nodes, way, j', u, v)
  }

  /**
   * `c` is the cost that the last segment joining `u` and `v` of the last way of `ways`
   * with such a segment writes.
   */
  ghost predicate LastWriter(nodes: map<int, Node>, ways: seq<Way>, u: int, v: int, c: nat)
  {
    exists k :: 0 <= k < |ways| && LastSegment(nodes, ways[k], 0, u, v, c)
      && forall k' :: k < k' < |ways| ==> !WayJoins(nodes, ways[k'], u, v)
  }

  /** One segment overwrites the cost of the pair it joins and keeps every other cost. */
  lemma SegmentStepCost(nodes: map<int, Node>, edges: Edges, way: Way, i: nat, u: int, v: int)
    requires i + 1 < |way.refs| && SpeedDivisor(way.speed) > 0 && WellKeyed(nodes)
    requires HasEdge(SegmentStep(nodes, edges, way, i), u, v)
    ensures if UsableSegment(nodes, way, i, u, v)
      then SegmentStep(nodes, edges, way, i)[u][v].0 == SegCost(nodes, way, i)
      else HasEdge(edges, u, v) && SegmentStep(nodes, edges, way, i)[u][v] == edges[u][v]
  {
    var tailId, headId := way.refs[i], way.refs[i + 1];
    if tailId in nodes && headId in nodes {
      var entry := (SegmentCost(nodes[tailId], nodes[headId], way.speed), false);
      var e1 := Upsert(edges, tailId, headId, entry);
      assert nodes[headId].id == headId;
      UpsertElsewhere(edges, tailId, headId, entry, u, v);
      UpsertElsewhere(e1, headId, tailId, entry, u, v);
    }
  }

  /**
   * After segments `i`, `i + 1`, ... of `way`, a pair one of them joins has the cost of
   * the last that does; any other pair keeps its cost.
   */
  lemma {:induction false} AddSegmentsCost(nodes: map<int, Node>, edges: Edges, way: Way, i: nat, u: int, v: int)
    requires i < |way.refs| && SpeedDivisor(way.speed) > 0 && WellKeyed(nodes)
    requires HasEdge(AddSegments(nodes, edges, way, i), u, v)
    ensures if SegmentsJoin(nodes, way, i, u, v)
      then LastSegment(nodes, way, i, u, v, AddSegments(nodes, edges, way, i)[u][v].0)
      else HasEdge(edges, u, v) && AddSegments(nodes, edges, way, i)[u][v] == edges[u][v]
    decreases |way.refs| - i
  {
    if i < |way.refs| - 1 {
      var step := SegmentStep(nodes, edges, way, i);
      var r: Edges := AddSegments(nodes, step, way, i + 1);
      SegmentsJoinMeans(nodes, way, i + 1, u, v);
      AddSegmentsEdges(nodes, step, way, i + 1, u, v);
      AddSegmentsCost(nodes, step, way, i + 1, u, v);
      if SegmentsJoin(nodes, way, i + 1, u, v) {
        var j :| i + 1 <= j && UsableSegment(nodes, way, j, u, v) && r[u][v].0 == SegCost(nodes, way, j)
          && forall j' :: j < j' ==> !UsableSegment(nodes, way, j', u, v);
        assert i <= j;
      } else {
        SegmentStepCost(nodes, edges, way, i, u, v);
        if UsableSegment(nodes, way, i, u, v) {
          assert forall j' :: i < j' ==> !UsableSegment(nodes, way, j', u, v);
          assert LastSegment(nodes, way, i, u, v, r[u][v].0);
        }
      }
    }
  }

  /**
   * After `ways`, a pair one of them joins has the cost the last such way's last joining
   * segment writes; any other pair keeps its cost.
   */
  lemma {:induction false} AddWaysCost(nodes: map<int, Node>, edges: Edges, ways: seq<Way>, u: int, v: int)
    requires WaysWellFormed(ways) && WellKeyed(nodes)
    requires HasEdge(AddWays(nodes, edges, ways), u, v)
    ensures if WaysJoin(nodes, ways, u, v)
      then LastWriter(nodes, ways, u, v, AddWays(nodes, edges, ways)[u][v].0)
      else HasEdge(edges, u, v) && AddWays(nodes, edges, ways)[u][v] == edges[u][v]
    decreases |ways|
  {
    if ways != [] {
      var way, rest := ways[0], ways[1..];
      var segs := AddSegments(nodes, edges, way, 0);
      var r: Edges := AddWays(nodes, segs, rest);
      assert WaysWellFormed(rest);
      WaysJoinMeans(nodes, rest, u, v);
      SegmentsJoinMeans(nodes, way, 0, u, v);
      AddWaysEdges(nodes, segs, rest, u, v);
      AddWaysCost(nodes, segs, rest, u, v);
      if WaysJoin(nodes, rest, u, v) {
        var k :| 0 <= k < |rest| && LastSegment(nodes, rest[k], 0, u, v, r[u][v].0)
          && forall k' :: k < k' < |rest| ==> !WayJoins(nodes, rest[k'], u, v);
        assert ways[k + 1] == rest[k];
        forall k' | k + 1 < k' < |ways| ensures !WayJoins(nodes, ways[k'], u, v) {
          assert ways[k'] == rest[k' - 1];
        }
      } else {
        AddSegmentsCost(nodes, edges, way, 0, u, v);
        if SegmentsJoin(nodes, way, 0, u, v) {
          forall k' | 0 < k' < |ways| ensures !WayJoins(nodes, ways[k'], u, v) {
            assert ways[k'] == rest[k' - 1];
          }
          assert LastWriter(nodes, ways, u, v, r[u][v].0);
        }
      }
    }
  }

  /**
   * Every edge of the built map costs what the last usable segment joining its two ends
   * writes: `SegmentCost` of that segment's tail and head at its way's speed.
   */
  lemma BuildEdgesCost(nodes: map<int, Node>, ways: seq<Way>, u: int, v: int)
    requires WaysWellFormed(ways) && WellKeyed(nodes)
    requires HasEdge(BuildEdges(nodes, ways), u, v)
    ensures LastWriter(nodes, ways, u, v, BuildEdges(nodes, ways)[u][v].0)
  {
    AddWaysCost(nodes, map[], ways, u, v);
  }

  /** The result of `RoadNetwork::new(nodes, ways)`. */
  ghost predicate BuiltFrom(g: RoadNetwork, nodes: map<int, Node>, ways: seq<Way>)
    requires WaysWellFormed(ways)
  {
    && g.edges == BuildEdges(nodes, ways)
    && (forall k :: k in g.nodes <==> k in nodes && k in g.edges)
    && (forall k :: k in g.nodes ==> g.nodes[k] == nodes[k])
    && g.rawWays == ways
    && Distinct(g.rawNodes)
    && (forall k :: k in g.rawNodes <==> k in g.nodes)
  }

  /** What the search relies on: nodes stored under their ids and every edge end a node. */
  ghost predicate Routable(g: RoadNetwork)
  {
    WellKeyed(g.nodes) && EndpointsIn(g.edges, g.nodes.Keys)
  }

  /** The ids of a node map, in whatever order its iteration yields them. */
  method KeysInSomeOrder(nodes: map<int, Node>) returns (ids: seq<int>)
    ensures Distinct(ids)
    ensures forall k :: k in ids <==> k in nodes
  {
    ids := [];
    var rest := nodes.Keys;
    while rest != {}
      invariant rest <= nodes.Keys
      invariant forall k :: k in ids <==> k in nodes && k !in rest
      invariant forall i, j :: 0 <= i < j < |ids| ==> ids[i] != ids[j]
      decreases rest
    {
      EmptyOrMember(rest);
      var x :| x in rest;
      ids := ids + [x];
      rest := rest - {x};
    }
  }

  /**
   * The body of the builder's loop over one way: each segment whose ends are both known
   * nodes is inserted in both directions at its travel time. The tail of a segment is the
   * head node of the previous inserted segment when that one ended at this ref, and a
   * fresh lookup otherwise.
   */
  method AddWay(nodes: map<int, Node>, edges0: Edges, way: Way) returns (edges: Edges)
    requires WayWellFormed(way)
    ensures edges == AddSegments(nodes, edges0, way, 0)
  {
    edges := edges0;
    var previousHead: Option<Node> := None;
    var previousHeadIndex: nat := 0;
    for i := 0 to |way.refs| - 1
      invariant AddSegments(nodes, edges, way, i) == AddSegments(nodes, edges0, way, 0)
      invariant previousHead.Some? ==>
        previousHeadIndex <= i && way.refs[previousHeadIndex] in nodes
        && previousHead.value == nodes[way.refs[previousHeadIndex]]
    {
      ghost var next := SegmentStep(nodes, edges, way, i);
      assert AddSegments(nodes, edges, way, i) == AddSegments(nodes, next, way, i + 1);
      var tailId := way.refs[i];
      var tail: Option<Node> :=
        match previousHead
        case Some(p) => if previousHeadIndex == i then Some(p) else Get(nodes, tailId)
        case None => Get(nodes, tailId);
      var headId := way.refs[i + 1];
      var head := Get(nodes, headId);
      if tail.Some? && head.Some? {
        var cost := Dist(tail.value, head.value) / SpeedDivisor(way.speed);
        edges := Upsert(edges, tailId, headId, (cost, false));
        edges := Upsert(edges, head.value.id, tailId, (cost, false));
        previousHead := head;
        previousHeadIndex := i + 1;
      }
      assert edges == next;
    }
  }

  /**
   * `RoadNetwork::new`: walks every way segment by segment, inserts each usable segment in
   * both directions, then drops the nodes that received no adjacency entry.
   */
  method NewRoadNetwork(nodes: map<int, Node>, ways: seq<Way>) returns (g: RoadNetwork)
    requires WaysWellFormed(ways)
    ensures BuiltFrom(g, nodes, ways)
    ensures WellKeyed(nodes) ==>
      Symmetric(g.edges) && AllFlags(g.edges, false) && EndpointsIn(g.edges, g.nodes.Keys)
      && g.edges.Keys == g.nodes.Keys && Routable(g)
  {
    var edges: Edges := map[];
    for w := 0 to |ways|
      invariant AddWays(nodes, edges, ways[w..]) == BuildEdges(nodes, ways)
    {
      assert ways[w..][0] == ways[w] && ways[w..][1..] == ways[w + 1..];
      edges := AddWay(nodes, edges, ways[w]);
    }

    var kept := RemoveNodesWithoutEdges(nodes, edges);
    var rawNodes := KeysInSomeOrder(kept);
    g := RoadNetwork(kept, edges, ways, rawNodes);

    if WellKeyed(nodes) {
      BuildEdgesShape(nodes, ways);
      KeptNodesShape(nodes, edges, kept);
    }
  }

  /** The builder's clean-up: every node that is no tail of the adjacency map is removed. */
  method RemoveNodesWithoutEdges(nodes: map<int, Node>, edges: Edges) returns (kept: map<int, Node>)
    ensures forall k :: k in kept <==> k in nodes && k in edges
    ensures forall k :: k in kept ==> kept[k] == nodes[k]
  {
    var nodeToRemove := set id | id in nodes && id !in edges;
    kept := nodes;
    var rest := nodeToRemove;
    while rest != {}
      invariant rest <= nodeToRemove
      invariant kept == nodes - (nodeToRemove - rest)
      decreases rest
    {
      EmptyOrMember(rest);
      var x :| x in rest;
      kept := kept - {x};
      rest := rest - {x};
    }
  }

  /**
   * In a symmetric map whose endpoints are all nodes, the nodes that are tails are exactly
   * the endpoints: after the clean-up the map's keys are the kept nodes.
   */
  lemma KeptNodesShape(nodes: map<int, Node>, edges: Edges, kept: map<int, Node>)
    requires WellKeyed(nodes) && Symmetric(edges) && EndpointsIn(edges, nodes.Keys)
    requires forall k :: k in kept <==> k in nodes && k in edges
    requires forall k :: k in kept ==> kept[k] == nodes[k]
    ensures edges.Keys == kept.Keys && EndpointsIn(edges, kept.Keys) && WellKeyed(kept)
  {
    forall u, v | u in edges && v in edges[u] ensures v in kept {
      assert v in edges && v in nodes;
    }
    forall k ensures k in edges.Keys <==> k in kept.Keys {
      assert k in edges ==> k in nodes;
    }
  }

  function Get(nodes: map<int, Node>, id: int): (r: Option<Node>)
    ensures r.Some? <==> id in nodes
    ensures r.Some? ==> r.value == nodes[id]
  {
    if id in nodes then Some(nodes[id]) else None
  }
}
