/**
 * The box-only graph (RulesEngine/src/state_graph/graph_compress.rs): nodes
 * that differ only in where the player is are merged into one node per box
 * configuration, numbered by the id of one of them, and every edge is
 * rewritten to those ids.
 */
module GraphCompress {
  import opened CoreModels
  import opened Environments
  import opened UniqueNodes
  import opened StateGraphs
  import Enumerations

  /** `BoxOnlyGameState`: just the boxes. */
  datatype BoxOnlyGameState = BoxOnlyGameState(boxes: seq<Vec2>)

  /** `BoxOnlyEdge`. */
  datatype BoxOnlyEdge = BoxOnlyEdge(from: nat, to: nat)

  /** `BoxOnlyStateGraph`. */
  datatype BoxOnlyStateGraph = BoxOnlyStateGraph(nodes: map<BoxOnlyGameState, nat>, edges: set<BoxOnlyEdge>)

  /** The box configuration of a node: its live boxes. */
  function BoxesOf(n: UniqueNode): BoxOnlyGameState {
    BoxOnlyGameState(IterBoxes(n.environment))
  }

  /** Every edge of the graph ends at ids that the rewrite map knows (`unwrap` panics otherwise). */
  predicate EndsKnown(edges: set<Edge>, rewrites: map<nat, nat>) {
    forall e :: e in edges ==> e.from in rewrites && e.to in rewrites
  }

  /**
   * The edge `filter_map`: each edge rewritten at both ends, dropped when
   * the rewritten source equals the ORIGINAL target, as the code compares.
   */
  function RewriteEdges(edges: set<Edge>, rewrites: map<nat, nat>): (r: set<BoxOnlyEdge>)
    requires EndsKnown(edges, rewrites)
    ensures forall f :: f in r <==>
              exists e :: e in edges && rewrites[e.from] != e.to && f == BoxOnlyEdge(rewrites[e.from], rewrites[e.to])
  {
    set e | e in edges && rewrites[e.from] != e.to :: BoxOnlyEdge(rewrites[e.from], rewrites[e.to])
  }

  /**
   * Because the test looks at the original target, a move between two
   * merged nodes survives as a loop: ids 1 and 2 both rewritten to 0 keep
   * the edge 1 -> 2 as 0 -> 0.
   */
  lemma MergedMoveBecomesLoop()
    ensures BoxOnlyEdge(0, 0) in RewriteEdges({Edge(1, 2)}, map[1 := 0, 2 := 0])
  {
    var e := Edge(1, 2);
    assert e in {Edge(1, 2)};
  }

  /** The edge count never grows: the rewrite is a map over a subset. */
  lemma {:induction false} RewriteEdgesBound(edges: set<Edge>, rewrites: map<nat, nat>)
    requires EndsKnown(edges, rewrites)
    ensures |RewriteEdges(edges, rewrites)| <= |edges|
    decreases |edges|
  {
    if edges != {} {
      var e :| e in edges;
      var rest := edges - {e};
      RewriteEdgesBound(rest, rewrites);
      var image := BoxOnlyEdge(rewrites[e.from], rewrites[e.to]);
      assert RewriteEdges(edges, rewrites) <= RewriteEdges(rest, rewrites) + {image};
      Enumerations.SubsetCard(RewriteEdges(edges, rewrites), RewriteEdges(rest, rewrites) + {image});
    }
  }

  /** `inv` undoes `nodes`, as the bimap's other direction does; so distinct nodes have distinct ids. */
  ghost predicate Inverted<K>(nodes: map<K, nat>, inv: map<nat, K>) {
    forall m :: m in nodes ==> nodes[m] in inv && inv[nodes[m]] == m
  }

  /**
   * What the node loop keeps about the groups after handling the nodes in
   * `done`, for a grouping `key` (the box configuration): `rep[b]` is the
   * handled node whose id group `b` kept, and every handled node's group
   * has an id.
   */
  ghost predicate GroupInv<K, B>(nodes: map<K, nat>, key: K -> B, done: set<K>,
                                 newNodes: map<B, nat>, rep: map<B, K>) {
    done <= nodes.Keys && rep.Keys == newNodes.Keys &&
    (forall b :: b in rep ==> rep[b] in done && key(rep[b]) == b && nodes[rep[b]] == newNodes[b]) &&
    (forall n :: n in done ==> key(n) in newNodes) &&
    |newNodes| <= |done|
  }

  /** What the node loop keeps about the rewrites: every handled node's id is rewritten to its group's id. */
  ghost predicate RewriteInv<K, B>(nodes: map<K, nat>, key: K -> B, inv: map<nat, K>, done: set<K>,
                                   newNodes: map<B, nat>, rewrites: map<nat, nat>) {
    done <= nodes.Keys && rewrites.Keys <= inv.Keys &&
    forall n :: n in done ==> key(n) in newNodes && nodes[n] in rewrites && rewrites[nodes[n]] == newNodes[key(n)]
  }

  /** Handling a node whose group is new: the group takes the node's id, with the node as its representative. */
  lemma GroupNew<K, B>(nodes: map<K, nat>, key: K -> B, done: set<K>, newNodes: map<B, nat>, rep: map<B, K>, n: K)
    requires n in nodes && n !in done && key(n) !in newNodes
    requires GroupInv(nodes, key, done, newNodes, rep)
    ensures GroupInv(nodes, key, done + {n}, newNodes[key(n) := nodes[n]], rep[key(n) := n])
  {
    var b := key(n);
    var newNodes', rep' := newNodes[b := nodes[n]], rep[b := n];
    assert |done + {n}| == |done| + 1;
    forall c | c in rep'
      ensures rep'[c] in done + {n} && key(rep'[c]) == c && nodes[rep'[c]] == newNodes'[c]
    {
      if c != b {
        assert rep'[c] == rep[c];
      }
    }
  }

  /** Handling a node whose group exists leaves the groups as they are. */
  lemma GroupOld<K, B>(nodes: map<K, nat>, key: K -> B, done: set<K>, newNodes: map<B, nat>, rep: map<B, K>, n: K)
    requires n in nodes && n !in done && key(n) in newNodes
    requires GroupInv(nodes, key, done, newNodes, rep)
    ensures GroupInv(nodes, key, done + {n}, newNodes, rep)
  {
    assert |done + {n}| == |done| + 1;
  }

  /**
   * Rewriting a node's id to its group's id keeps the rewrites of the
   * nodes handled before, as long as no group id they use changes.
   */
  lemma RewriteStep<K, B>(nodes: map<K, nat>, key: K -> B, inv: map<nat, K>, done: set<K>,
                          newNodes: map<B, nat>, newNodes': map<B, nat>, rewrites: map<nat, nat>, n: K)
    requires Inverted(nodes, inv) && n in nodes && n !in done
    requires RewriteInv(nodes, key, inv, done, newNodes, rewrites)
    requires key(n) in newNodes' && Extends(newNodes, newNodes')
    ensures RewriteInv(nodes, key, inv, done + {n}, newNodes', rewrites[nodes[n] := newNodes'[key(n)]])
  {
    forall m | m in done
      ensures nodes[m] != nodes[n]
    {
      assert inv[nodes[m]] == m;
    }
  }

  /** `m'` keeps every entry of `m`. */
  ghost predicate Extends<K, V>(m: map<K, V>, m': map<K, V>) {
    forall k :: k in m ==> k in m' && m'[k] == m[k]
  }

  /** A map extends itself, and adding a new key extends it. */
  lemma ExtendsByAdding<K, V>(m: map<K, V>, k: K, v: V)
    ensures Extends(m, m)
    ensures k !in m ==> Extends(m, m[k := v])
  {
  }

  /** Moving one element from `rest` to `done` keeps the two a partition of `all`. */
  lemma MoveOne<T>(done: set<T>, rest: set<T>, all: set<T>, x: T)
    requires done + rest == all && done !! rest && x in rest
    ensures (done + {x}) + (rest - {x}) == all && (done + {x}) !! (rest - {x})
  {
  }

  /** With every node handled, the invariants give the loop's postconditions. */
  lemma MergeResult<K, B>(nodes: map<K, nat>, key: K -> B, newNodes: map<B, nat>, rep: map<B, K>)
    requires GroupInv(nodes, key, nodes.Keys, newNodes, rep)
    ensures forall b :: b in newNodes <==> exists n :: n in nodes && key(n) == b
    ensures forall b :: b in newNodes ==> exists n :: n in nodes && key(n) == b && nodes[n] == newNodes[b]
    ensures |newNodes| <= |nodes|
  {
    forall b | b in newNodes
      ensures exists n :: n in nodes && key(n) == b && nodes[n] == newNodes[b]
    {
      assert rep[b] in nodes;
    }
  }

  /**
   * The node loop: for every node, in the map's own order, its box
   * configuration keeps the first id seen for it (`or_insert`), and the
   * node's id is rewritten to that id.
   */
  method MergeNodes(nodes: map<UniqueNode, nat>, ghost inv: map<nat, UniqueNode>)
    returns (newNodes: map<BoxOnlyGameState, nat>, rewrites: map<nat, nat>)
    requires Inverted(nodes, inv)
    ensures forall b :: b in newNodes <==> exists n :: n in nodes && BoxesOf(n) == b
    ensures forall b :: b in newNodes ==> exists n :: n in nodes && BoxesOf(n) == b && nodes[n] == newNodes[b]
    ensures rewrites.Keys <= inv.Keys
    ensures forall n :: n in nodes ==> nodes[n] in rewrites && rewrites[nodes[n]] == newNodes[BoxesOf(n)]
    ensures |newNodes| <= |nodes|
  {
    newNodes, rewrites := map[], map[];
    var rest := nodes.Keys;
    ghost var done: set<UniqueNode> := {};
    ghost var rep: map<BoxOnlyGameState, UniqueNode> := map[];
    while rest != {}
      invariant done + rest == nodes.Keys && done !! rest
      invariant GroupInv(nodes, BoxesOf, done, newNodes, rep)
      invariant RewriteInv(nodes, BoxesOf, inv, done, newNodes, rewrites)
      decreases rest
    {
      var n :| n in rest;
      var id := nodes[n];
      var boxes := BoxesOf(n);
      ghost var before := newNodes;
      ExtendsByAdding(newNodes, boxes, id);
      if boxes !in newNodes {
        GroupNew(nodes, BoxesOf, done, newNodes, rep, n);
        rep := rep[boxes := n];
        newNodes := newNodes[boxes := id];
      } else {
        GroupOld(nodes, BoxesOf, done, newNodes, rep, n);
      }
      RewriteStep(nodes, BoxesOf, inv, done, before, newNodes, rewrites, n);
      MoveOne(done, rest, nodes.Keys, n);
      rewrites := rewrites[id := newNodes[boxes]];
      rest := rest - {n};
      done := done + {n};
    }
    MergeResult(nodes, BoxesOf, newNodes, rep);
  }

  /**
   * `get_box_only_graph`: one node per box configuration, carrying the id
   * of a node with that configuration; every id is rewritten to its
   * configuration's id, and each representative to itself; the edges are
   * the rewritten edges.
   */
  method GetBoxOnlyGraph(g: StateGraph) returns (r: BoxOnlyStateGraph, ghost rewrites: map<nat, nat>)
    requires g.Valid()
    requires forall e :: e in g.edges ==> e.from in g.ids && e.to in g.ids
    ensures forall b :: b in r.nodes <==> exists n :: n in g.nodes && BoxesOf(n) == b
    ensures forall b :: b in r.nodes ==> exists n :: n in g.nodes && BoxesOf(n) == b && g.nodes[n] == r.nodes[b]
    ensures forall id :: id in rewrites <==> id in g.ids
    ensures forall n :: n in g.nodes ==> g.nodes[n] in rewrites && rewrites[g.nodes[n]] == r.nodes[BoxesOf(n)]
    ensures forall b :: b in r.nodes ==> r.nodes[b] in rewrites && rewrites[r.nodes[b]] == r.nodes[b]
    ensures EndsKnown(g.edges, rewrites) && r.edges == RewriteEdges(g.edges, rewrites)
    ensures |r.nodes| <= |g.nodes| && |r.edges| <= |g.edges|
  {
    var newNodes, rw := MergeNodes(g.nodes, g.ids);
    forall id | id in g.ids
      ensures id in rw
    {
      assert g.nodes[g.ids[id]] == id;
    }
    RewriteEdgesBound(g.edges, rw);
    r := BoxOnlyStateGraph(newNodes, RewriteEdges(g.edges, rw));
    rewrites := rw;
  }
}
