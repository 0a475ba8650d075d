/**
 * The lookup tables the viewer derives from a state graph
 * (RulesEngine/src/bevy_interface/graph_compute.rs): the node and edge
 * records with the largest on-target count, the symmetric neighbour lists,
 * the id-to-entity map and the id-to-vertex-slot table.
 */
module GraphCompute {
  import opened CoreModels
  import opened Enumerations
  import StateGraphs

  datatype GraphNodeData = GraphNodeData(id: nat, onTargets: nat)

  datatype GraphEdgeData = GraphEdgeData(from: nat, to: nat)

  datatype GraphData = GraphData(nodes: seq<GraphNodeData>, edges: seq<GraphEdgeData>, maxOnTargets: nat)

  /** A Bevy entity handle: only stored and looked up, never inspected. */
  datatype Entity = Entity(index: nat, generation: nat)

  /** A vertex position; positions are only copied, never computed with. */
  datatype Vec3 = Vec3(x: real, y: real, z: real)

  const ZERO := Vec3(0.0, 0.0, 0.0)

  // ---------------------------------------------------------------------
  // GraphData::from_state_graph
  // ---------------------------------------------------------------------

  /** The largest on-target count of the records, or 1 when there are none (`max().unwrap_or(1)`). */
  function MaxOnTargets(nodes: seq<GraphNodeData>): (r: nat)
    ensures |nodes| == 0 ==> r == 1
    ensures |nodes| > 0 ==> (exists k :: 0 <= k < |nodes| && r == nodes[k].onTargets) &&
                            forall k :: 0 <= k < |nodes| ==> nodes[k].onTargets <= r
  {
    if |nodes| == 0 then 1
    else if |nodes| == 1 then nodes[0].onTargets
    else
      var rest := MaxOnTargets(nodes[1..]);
      assert forall k :: 1 <= k < |nodes| ==> nodes[k] == nodes[1..][k - 1];
      if nodes[0].onTargets >= rest then nodes[0].onTargets else rest
  }

  /** One record per node, in the given iteration order of the node map. */
  function NodeData<S>(nodes: map<S, nat>, order: seq<S>, onTargets: S -> nat): (r: seq<GraphNodeData>)
    requires forall x :: x in order ==> x in nodes
    ensures |r| == |order|
    ensures forall k :: 0 <= k < |r| ==> r[k] == GraphNodeData(nodes[order[k]], onTargets(order[k]))
  {
    if order == [] then []
    else [GraphNodeData(nodes[order[0]], onTargets(order[0]))] + NodeData(nodes, order[1..], onTargets)
  }

  /** One record per edge, in the given iteration order of the edge set. */
  function EdgeData(order: seq<StateGraphs.Edge>): (r: seq<GraphEdgeData>)
    ensures |r| == |order|
    ensures forall k :: 0 <= k < |r| ==> r[k].from == order[k].from && r[k].to == order[k].to
  {
    if order == [] then []
    else [GraphEdgeData(order[0].from, order[0].to)] + EdgeData(order[1..])
  }

  /**
   * `from_state_graph`: the records of a graph's nodes and edges, visited
   * in the given iteration orders; `onTargets` stands for
   * `count_boxes_on_goals` of the node's environment.
   */
  function FromStateGraph<S(!new)>(nodes: map<S, nat>, edges: set<StateGraphs.Edge>, nodeOrder: seq<S>,
                                   edgeOrder: seq<StateGraphs.Edge>, onTargets: S -> nat): (r: GraphData)
    requires Enumerates(nodeOrder, nodes.Keys) && Enumerates(edgeOrder, edges)
    ensures |r.nodes| == |nodes| && |r.edges| == |edges|
    ensures r.maxOnTargets == MaxOnTargets(r.nodes)
  {
    EnumerationSize(nodeOrder, nodes.Keys);
    EnumerationSize(edgeOrder, edges);
    var ns := NodeData(nodes, nodeOrder, onTargets);
    GraphData(ns, EdgeData(edgeOrder), MaxOnTargets(ns))
  }

  /**
   * The records describe the graph exactly: every node has its record and
   * every record is a node's; every edge has its record and every record is
   * an edge's; the maximum is the largest node count, or 1 for no nodes.
   */
  lemma FromStateGraphExact<S(!new)>(nodes: map<S, nat>, edges: set<StateGraphs.Edge>, nodeOrder: seq<S>,
                                     edgeOrder: seq<StateGraphs.Edge>, onTargets: S -> nat)
    requires Enumerates(nodeOrder, nodes.Keys) && Enumerates(edgeOrder, edges)
    ensures var r := FromStateGraph(nodes, edges, nodeOrder, edgeOrder, onTargets);
            (forall n :: n in r.nodes <==> exists s :: s in nodes && n == GraphNodeData(nodes[s], onTargets(s))) &&
            (forall d :: d in r.edges <==> StateGraphs.Edge(d.from, d.to) in edges) &&
            (|nodes| == 0 ==> r.maxOnTargets == 1) &&
            (forall s :: s in nodes ==> onTargets(s) <= r.maxOnTargets) &&
            (|nodes| > 0 ==> exists s :: s in nodes && onTargets(s) == r.maxOnTargets)
  {
    var r := FromStateGraph(nodes, edges, nodeOrder, edgeOrder, onTargets);
    forall n
      ensures n in r.nodes <==> exists s :: s in nodes && n == GraphNodeData(nodes[s], onTargets(s))
    {
      if n in r.nodes {
        var k :| 0 <= k < |r.nodes| && r.nodes[k] == n;
        assert nodeOrder[k] in nodes;
      }
      if s :| s in nodes && n == GraphNodeData(nodes[s], onTargets(s)) {
        var k :| 0 <= k < |nodeOrder| && nodeOrder[k] == s;
        assert r.nodes[k] == n;
      }
    }
    forall d
      ensures d in r.edges <==> StateGraphs.Edge(d.from, d.to) in edges
    {
      if d in r.edges {
        var k :| 0 <= k < |r.edges| && r.edges[k] == d;
        assert edgeOrder[k] == StateGraphs.Edge(d.from, d.to);
      }
      if StateGraphs.Edge(d.from, d.to) in edges {
        var k :| 0 <= k < |edgeOrder| && edgeOrder[k] == StateGraphs.Edge(d.from, d.to);
        assert r.edges[k] == d;
      }
    }
    forall s | s in nodes
      ensures onTargets(s) <= r.maxOnTargets
    {
      var k :| 0 <= k < |nodeOrder| && nodeOrder[k] == s;
      assert r.nodes[k].onTargets == onTargets(s);
    }
    if |nodes| > 0 {
      var k :| 0 <= k < |r.nodes| && r.maxOnTargets == r.nodes[k].onTargets;
      assert nodeOrder[k] in nodes;
    }
  }

  // ---------------------------------------------------------------------
  // GraphComputeCache
  // ---------------------------------------------------------------------

  datatype GraphComputeCache = GraphComputeCache(neighborMap: map<nat, seq<nat>>, entityMap: map<nat, Entity>)

  /** The edge joins `u` and `v`, in either direction. */
  predicate Joins(e: GraphEdgeData, u: nat, v: nat) {
    (e.from == u && e.to == v) || (e.from == v && e.to == u)
  }

  /** Some edge of the list joins `u` and `v`, in either direction. */
  ghost predicate Adjacent(edges: seq<GraphEdgeData>, u: nat, v: nat)
    decreases |edges|
  {
    |edges| > 0 && (Adjacent(edges[..|edges| - 1], u, v) || Joins(edges[|edges| - 1], u, v))
  }

  /** Some edge of the list starts or ends at `u`. */
  ghost predicate Incident(edges: seq<GraphEdgeData>, u: nat)
    decreases |edges|
  {
    |edges| > 0 && (Incident(edges[..|edges| - 1], u) || edges[|edges| - 1].from == u || edges[|edges| - 1].to == u)
  }

  /** Adjacency does not depend on the direction of the edge. */
  lemma {:induction false} AdjacentSymmetric(edges: seq<GraphEdgeData>, u: nat, v: nat)
    ensures Adjacent(edges, u, v) <==> Adjacent(edges, v, u)
    decreases |edges|
  {
    if |edges| > 0 {
      AdjacentSymmetric(edges[..|edges| - 1], u, v);
    }
  }

  /** A node has an incident edge exactly when it has a neighbour. */
  lemma {:induction false} IncidentHasNeighbor(edges: seq<GraphEdgeData>, u: nat)
    ensures Incident(edges, u) <==> exists v :: Adjacent(edges, u, v)
    decreases |edges|
  {
    if |edges| > 0 {
      var init, e := edges[..|edges| - 1], edges[|edges| - 1];
      IncidentHasNeighbor(init, u);
      forall v | Adjacent(edges, u, v)
        ensures Incident(edges, u)
      {
        if Adjacent(init, u, v) {
          assert exists w :: Adjacent(init, u, w);
        }
      }
      if Incident(edges, u) {
        var v: nat;
        if e.from == u {
          v := e.to;
        } else if e.to == u {
          v := e.from;
        } else {
          v :| Adjacent(init, u, v);
        }
        assert Adjacent(edges, u, v);
        assert exists w :: Adjacent(edges, u, w);
      } else {
        assert !exists w :: Adjacent(edges, u, w);
      }
    }
  }

  /** `entry(u).or_default().push(v)`. */
  function Push(m: map<nat, seq<nat>>, u: nat, v: nat): (r: map<nat, seq<nat>>)
    ensures r.Keys == m.Keys + {u}
    ensures r[u] == (if u in m then m[u] else []) + [v]
    ensures forall w :: w in m && w != u ==> r[w] == m[w]
  {
    m[u := (if u in m then m[u] else []) + [v]]
  }

  /** After the edges `seen`, each incident node has a list holding exactly its neighbours. */
  ghost predicate NeighborsSoFar(m: map<nat, seq<nat>>, seen: seq<GraphEdgeData>) {
    (forall u :: u in m <==> Incident(seen, u)) &&
    (forall u, v :: u in m ==> (v in m[u] <==> Adjacent(seen, u, v)))
  }

  /** Pushing both ends of one more edge keeps the neighbour lists exact. */
  lemma PushBothEnds(m: map<nat, seq<nat>>, seen: seq<GraphEdgeData>, e: GraphEdgeData)
    requires NeighborsSoFar(m, seen)
    ensures NeighborsSoFar(Push(Push(m, e.from, e.to), e.to, e.from), seen + [e])
  {
    var seen' := seen + [e];
    assert seen'[..|seen'| - 1] == seen;
    var m' := Push(Push(m, e.from, e.to), e.to, e.from);
    assert forall u :: Incident(seen', u) <==> Incident(seen, u) || e.from == u || e.to == u;
    forall u, v | u in m'
      ensures v in m'[u] <==> Adjacent(seen', u, v)
    {
      assert Adjacent(seen', u, v) <==> Adjacent(seen, u, v) || Joins(e, u, v);
      IncidentHasNeighbor(seen, u);
      assert Adjacent(seen, u, v) <==> u in m && v in m[u];
      if u == e.to {
        if u == e.from {
          assert m'[u] == (if u in m then m[u] else []) + [e.to] + [e.from];
        }
        assert v in m'[u] <==> (u in m && v in m[u]) || (u == e.from && v == e.to) || v == e.from;
      } else if u == e.from {
        assert v in m'[u] <==> (u in m && v in m[u]) || v == e.to;
      }
    }
  }

  /** A strictly increasing sequence: sorted and without duplicates. */
  predicate StrictlySorted(s: seq<nat>) {
    forall i, j :: 0 <= i < j < |s| ==> s[i] < s[j]
  }

  /** There is only one strictly increasing list of a given set of elements. */
  lemma {:induction false} StrictlySortedUnique(s: seq<nat>, t: seq<nat>)
    requires StrictlySorted(s) && StrictlySorted(t)
    requires forall x :: x in s <==> x in t
    ensures s == t
    decreases |s|
  {
    assert |s| > 0 ==> s[0] in t;
    assert |t| > 0 ==> t[0] in s;
    if |s| > 0 && |t| > 0 {
      var i :| 0 <= i < |t| && t[i] == s[0];
      var j :| 0 <= j < |s| && s[j] == t[0];
      assert s[0] <= s[j] && t[0] <= t[i];
      forall x
        ensures x in s[1..] <==> x in t[1..]
      {
        if x in s[1..] {
          var k :| 1 <= k < |s| && s[k] == x;
          assert x in t && x != t[0];
        }
        if x in t[1..] {
          var k :| 1 <= k < |t| && t[k] == x;
          assert x in s && x != s[0];
        }
      }
      StrictlySortedUnique(s[1..], t[1..]);
    }
  }

  /** A strictly increasing list stays so behind an element below all of it. */
  lemma PrependSorted(a: nat, t: seq<nat>)
    requires StrictlySorted(t) && forall y :: y in t ==> a < y
    ensures StrictlySorted([a] + t)
  {
    var r := [a] + t;
    forall i, j | 0 <= i < j < |r|
      ensures r[i] < r[j]
    {
      assert r[j] == t[j - 1];
      if i > 0 {
        assert r[i] == t[i - 1];
      } else {
        assert t[j - 1] in t;
      }
    }
  }

  /** The tail of a strictly increasing list is strictly increasing and above its head. */
  lemma TailSorted(s: seq<nat>)
    requires StrictlySorted(s) && |s| > 0
    ensures StrictlySorted(s[1..]) && forall y :: y in s[1..] ==> s[0] < y
  {
    forall y | y in s[1..]
      ensures s[0] < y
    {
      var k :| 0 <= k < |s[1..]| && s[1..][k] == y;
      assert s[k + 1] == y;
    }
  }

  /** `x` put into its place in a strictly increasing list, unless it is already there. */
  function Insert(s: seq<nat>, x: nat): (r: seq<nat>)
    requires StrictlySorted(s)
    ensures StrictlySorted(r)
    ensures forall y :: y in r <==> y in s || y == x
  {
    if s == [] then [x]
    else if x == s[0] then s
    else
      TailSorted(s);
      if x < s[0] then
        PrependSorted(x, s);
        [x] + s
      else
        var rest := Insert(s[1..], x);
        PrependSorted(s[0], rest);
        assert s == [s[0]] + s[1..];
        [s[0]] + rest
  }

  /**
   * `sort_unstable` followed by `dedup`: the list's elements in strictly
   * increasing order, each once.
   */
  method SortDedup(s: seq<nat>) returns (r: seq<nat>)
    ensures StrictlySorted(r)
    ensures forall x :: x in r <==> x in s
  {
    r := [];
    for i := 0 to |s|
      invariant StrictlySorted(r)
      invariant forall x :: x in r <==> x in s[..i]
    {
      assert s[..i + 1] == s[..i] + [s[i]];
      r := Insert(r, s[i]);
    }
    assert s[..|s|] == s;
  }

  /**
   * The neighbour lists of the edges, before sorting: each edge pushes its
   * target onto its source's list and its source onto its target's list.
   */
  method CollectNeighbors(edges: seq<GraphEdgeData>) returns (m: map<nat, seq<nat>>)
    ensures NeighborsSoFar(m, edges)
  {
    m := map[];
    for i := 0 to |edges|
      invariant NeighborsSoFar(m, edges[..i])
    {
      var e := edges[i];
      PushBothEnds(m, edges[..i], e);
      assert edges[..i + 1] == edges[..i] + [e];
      m := Push(m, e.from, e.to);
      m := Push(m, e.to, e.from);
    }
    assert edges[..|edges|] == edges;
  }

  /** Every list of `m` sorted and deduplicated, in the map's own order; the keys stay. */
  method SortAll(m0: map<nat, seq<nat>>) returns (m: map<nat, seq<nat>>)
    ensures m.Keys == m0.Keys
    ensures forall u :: u in m ==> StrictlySorted(m[u]) && forall v :: v in m[u] <==> v in m0[u]
  {
    m := m0;
    var rest := m0.Keys;
    while rest != {}
      invariant rest <= m.Keys && m.Keys == m0.Keys
      invariant forall u :: u in m && u in rest ==> m[u] == m0[u]
      invariant forall u :: u in m && u !in rest ==> StrictlySorted(m[u]) && forall v :: v in m[u] <==> v in m0[u]
      decreases rest
    {
      var u :| u in rest;
      var sorted := SortDedup(m[u]);
      m := m[u := sorted];
      rest := rest - {u};
    }
  }

  /** `all_nodes.into_iter().collect()`: the pairs into a map, a later pair for an id replacing an earlier one. */
  function CollectEntities(pairs: seq<(nat, Entity)>): (r: map<nat, Entity>)
    ensures forall id :: id in r <==> exists k :: 0 <= k < |pairs| && pairs[k].0 == id
    decreases |pairs|
  {
    if pairs == [] then map[]
    else
      var init := pairs[..|pairs| - 1];
      assert forall k :: 0 <= k < |init| ==> init[k] == pairs[k];
      CollectEntities(init)[pairs[|pairs| - 1].0 := pairs[|pairs| - 1].1]
  }

  /** The entity of the last pair for `id` is the one the map keeps. */
  lemma {:induction false} CollectEntitiesLastWins(pairs: seq<(nat, Entity)>, k: nat)
    requires k < |pairs|
    requires forall l :: k < l < |pairs| ==> pairs[l].0 != pairs[k].0
    ensures pairs[k].0 in CollectEntities(pairs) && CollectEntities(pairs)[pairs[k].0] == pairs[k].1
    decreases |pairs|
  {
    if k < |pairs| - 1 {
      var init := pairs[..|pairs| - 1];
      assert init[k] == pairs[k];
      CollectEntitiesLastWins(init, k);
    }
  }

  /**
   * `from_graph`: the neighbour lists of every node with an incident edge,
   * sorted and without duplicates, and the id-to-entity map of `allNodes`.
   */
  method FromGraph(graph: GraphData, allNodes: seq<(nat, Entity)>) returns (cache: GraphComputeCache)
    ensures forall u :: u in cache.neighborMap <==> Incident(graph.edges, u)
    ensures forall u :: u in cache.neighborMap ==>
              StrictlySorted(cache.neighborMap[u]) &&
              forall v :: v in cache.neighborMap[u] <==> Adjacent(graph.edges, u, v)
    ensures cache.entityMap == CollectEntities(allNodes)
  {
    var pushed := CollectNeighbors(graph.edges);
    var neighborMap := SortAll(pushed);
    cache := GraphComputeCache(neighborMap, CollectEntities(allNodes));
  }

  /** The cache's neighbour lists are the sorted neighbour sets of `edges`. */
  ghost predicate NeighborsOf(cache: GraphComputeCache, edges: seq<GraphEdgeData>) {
    (forall u :: u in cache.neighborMap <==> Incident(edges, u)) &&
    (forall u :: u in cache.neighborMap ==>
       StrictlySorted(cache.neighborMap[u]) && forall v :: v in cache.neighborMap[u] <==> Adjacent(edges, u, v))
  }

  /** `iterate_neighbors`: the node's list, or nothing for a node without one. */
  function IterateNeighbors(cache: GraphComputeCache, nodeId: nat): (r: seq<nat>)
    ensures nodeId !in cache.neighborMap ==> r == []
  {
    if nodeId in cache.neighborMap then cache.neighborMap[nodeId] else []
  }

  /**
   * Over a cache built from `edges`, the neighbours of `u` are exactly the
   * nodes an edge joins it to, in either direction, listed in increasing
   * order, each once; so `v` is a neighbour of `u` exactly when `u` is one
   * of `v`, and a node with no edge has none.
   */
  lemma IterateNeighborsExact(cache: GraphComputeCache, edges: seq<GraphEdgeData>, u: nat, v: nat)
    requires NeighborsOf(cache, edges)
    ensures StrictlySorted(IterateNeighbors(cache, u))
    ensures v in IterateNeighbors(cache, u) <==> Adjacent(edges, u, v)
    ensures v in IterateNeighbors(cache, u) <==> u in IterateNeighbors(cache, v)
    ensures !Incident(edges, u) ==> IterateNeighbors(cache, u) == []
  {
    IncidentHasNeighbor(edges, u);
    IncidentHasNeighbor(edges, v);
    AdjacentSymmetric(edges, u, v);
  }

  /** `get_entity`: the entity stored for the id, if any. */
  function GetEntity(cache: GraphComputeCache, nodeId: nat): (r: Option<Entity>)
    ensures r.Some? <==> nodeId in cache.entityMap
    ensures r.Some? ==> r.value == cache.entityMap[nodeId]
  {
    if nodeId in cache.entityMap then Some(cache.entityMap[nodeId]) else None
  }

  /**
   * Over a cache built from `allNodes`, an id has an entity exactly when
   * some pair names it, and that entity is the one of its last pair.
   */
  lemma GetEntityLastWins(cache: GraphComputeCache, allNodes: seq<(nat, Entity)>, k: nat)
    requires cache.entityMap == CollectEntities(allNodes)
    requires k < |allNodes| && forall l :: k < l < |allNodes| ==> allNodes[l].0 != allNodes[k].0
    ensures GetEntity(cache, allNodes[k].0) == Some(allNodes[k].1)
  {
    CollectEntitiesLastWins(allNodes, k);
  }

  // ---------------------------------------------------------------------
  // NodeIdToIndex
  // ---------------------------------------------------------------------

  datatype NodeIdToIndex = NodeIdToIndex(indexOf: map<nat, nat>)

  /** `get_index`: the vertex slot of the id, if any. */
  function GetIndex(t: NodeIdToIndex, nodeId: nat): (r: Option<nat>)
    ensures r.Some? <==> nodeId in t.indexOf
    ensures r.Some? ==> r.value == t.indexOf[nodeId]
  {
    if nodeId in t.indexOf then Some(t.indexOf[nodeId]) else None
  }

  /**
   * `get_indexed_vertex_positions`: one slot per entry of the table; a slot
   * holds the position of an id mapped to it whose position is known, and
   * the zero vector when there is none (an index past the end is skipped).
   */
  method GetIndexedVertexPositions(t: NodeIdToIndex, positions: map<nat, Vec3>) returns (r: seq<Vec3>)
    ensures |r| == |t.indexOf|
    ensures forall k :: 0 <= k < |r| ==>
              (r[k] == ZERO && forall id :: id in t.indexOf && t.indexOf[id] == k ==> id !in positions) ||
              (exists id :: id in t.indexOf && t.indexOf[id] == k && id in positions && r[k] == positions[id])
  {
    var vertices := new Vec3[|t.indexOf|](_ => ZERO);
    var rest := t.indexOf.Keys;
    while rest != {}
      invariant rest <= t.indexOf.Keys
      invariant forall k :: 0 <= k < vertices.Length ==>
                  (vertices[k] == ZERO &&
                   forall id :: id in t.indexOf && id !in rest && t.indexOf[id] == k ==> id !in positions) ||
                  (exists id :: id in t.indexOf && id !in rest && t.indexOf[id] == k && id in positions &&
                                vertices[k] == positions[id])
      decreases rest
    {
      var nodeId :| nodeId in rest;
      var index := t.indexOf[nodeId];
      if nodeId in positions && index < vertices.Length {
        vertices[index] := positions[nodeId];
      }
      rest := rest - {nodeId};
    }
    r := vertices[..];
  }

  /**
   * When no two ids share a slot, every slot holds exactly the position of
   * its id, or zero when that position is unknown.
   */
  lemma VertexPositionsExact(t: NodeIdToIndex, positions: map<nat, Vec3>, r: seq<Vec3>, id: nat)
    requires |r| == |t.indexOf|
    requires forall k :: 0 <= k < |r| ==>
               (r[k] == ZERO && forall id :: id in t.indexOf && t.indexOf[id] == k ==> id !in positions) ||
               (exists id :: id in t.indexOf && t.indexOf[id] == k && id in positions && r[k] == positions[id])
    requires forall a, b :: a in t.indexOf && b in t.indexOf && t.indexOf[a] == t.indexOf[b] ==> a == b
    requires id in t.indexOf && t.indexOf[id] < |r|
    ensures r[t.indexOf[id]] == if id in positions then positions[id] else ZERO
  {
  }
}
