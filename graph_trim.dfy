/**
 * Trimming the state graph (RulesEngine/src/state_graph/graph_trim.rs):
 * the won nodes seed a backward search over the edges, and only the nodes
 * from which some won node can be reached, with the edges between them,
 * are kept.
 */
module GraphTrim {
  import opened UniqueNodes
  import opened StateGraphs
  import ModelHelpers
  import Enumerations

  /** `TrimStats`: node and edge counts before and after trimming. */
  datatype TrimStats = TrimStats(nodesBefore: nat, nodesAfter: nat, edgesBefore: nat, edgesAfter: nat)

  /** `nodes_removed`; the `usize` subtraction panics when more nodes are left than there were. */
  function NodesRemoved(s: TrimStats): (r: nat)
    requires s.nodesAfter <= s.nodesBefore
    ensures r + s.nodesAfter == s.nodesBefore
  {
    s.nodesBefore - s.nodesAfter
  }

  /** `edges_removed`, under the same condition. */
  function EdgesRemoved(s: TrimStats): (r: nat)
    requires s.edgesAfter <= s.edgesBefore
    ensures r + s.edgesAfter == s.edgesBefore
  {
    s.edgesBefore - s.edgesAfter
  }

  /** The ids of the nodes whose environment passes the won check. */
  function Seeds(nodes: map<UniqueNode, nat>, helper: ModelHelpers.WonCheckHelper): set<nat> {
    set n | n in nodes && ModelHelpers.HelperIsWon(helper, n.environment) :: nodes[n]
  }

  /** A walk along edges: consecutive ids are joined by an edge. */
  ghost predicate IsPath(edges: set<Edge>, p: seq<nat>)
    decreases |p|
  {
    |p| > 0 && (|p| == 1 || (Edge(p[0], p[1]) in edges && IsPath(edges, p[1..])))
  }

  /** Some seed can be reached from `id` along the edges. */
  ghost predicate Winning(edges: set<Edge>, seeds: set<nat>, id: nat) {
    exists p :: IsPath(edges, p) && p[0] == id && p[|p| - 1] in seeds
  }

  /** The sources of the edges. */
  function Sources(edges: set<Edge>): set<nat> {
    set e | e in edges :: e.from
  }

  /** The predecessor map: `u` is listed under `v` exactly when there is an edge from `u` to `v`. */
  ghost predicate PredecessorsOf(pred: map<nat, set<nat>>, edges: set<Edge>) {
    (forall u, v :: (v in pred && u in pred[v]) <==> Edge(u, v) in edges) &&
    (forall v :: v in pred ==> pred[v] != {})
  }

  /** Every seed is winning, along the one-node walk. */
  lemma SeedIsWinning(edges: set<Edge>, seeds: set<nat>, id: nat)
    requires id in seeds
    ensures Winning(edges, seeds, id)
  {
    assert IsPath(edges, [id]);
  }

  /** Closure: a node with an edge into a winning node is winning. */
  lemma PredecessorIsWinning(edges: set<Edge>, seeds: set<nat>, u: nat, v: nat)
    requires Edge(u, v) in edges && Winning(edges, seeds, v)
    ensures Winning(edges, seeds, u)
  {
    var p :| IsPath(edges, p) && p[0] == v && p[|p| - 1] in seeds;
    var q := [u] + p;
    assert q[1..] == p;
    assert IsPath(edges, q) && q[|q| - 1] == p[|p| - 1];
  }

  /**
   * A set that holds the seeds and every predecessor of its members holds
   * every winning node: walk back from the seed at the end of the path.
   */
  lemma {:induction false} ClosedHoldsWinning(edges: set<Edge>, seeds: set<nat>, w: set<nat>, p: seq<nat>)
    requires seeds <= w
    requires forall u, v :: v in w && Edge(u, v) in edges ==> u in w
    requires IsPath(edges, p) && p[|p| - 1] in seeds
    ensures p[0] in w
    decreases |p|
  {
    if |p| > 1 {
      ClosedHoldsWinning(edges, seeds, w, p[1..]);
    }
  }

  /** The winning nodes form exactly such a closed set. */
  lemma WinningIsLeastClosed(edges: set<Edge>, seeds: set<nat>, w: set<nat>)
    requires seeds <= w
    requires forall u, v :: v in w && Edge(u, v) in edges ==> u in w
    requires forall x :: x in w ==> Winning(edges, seeds, x)
    ensures forall x :: x in w <==> Winning(edges, seeds, x)
  {
    forall x | Winning(edges, seeds, x)
      ensures x in w
    {
      var p :| IsPath(edges, p) && p[0] == x && p[|p| - 1] in seeds;
      ClosedHoldsWinning(edges, seeds, w, p);
    }
  }

  /** `initial_winning_states`: the ids of the won nodes, in the map's own order. */
  method InitialWinningStates(nodes: map<UniqueNode, nat>, helper: ModelHelpers.WonCheckHelper) returns (seeds: seq<nat>)
    ensures forall id :: id in seeds <==> id in Seeds(nodes, helper)
  {
    seeds := [];
    var rest := nodes.Keys;
    while rest != {}
      invariant rest <= nodes.Keys
      invariant forall id :: id in seeds <==>
                  exists n :: n in nodes.Keys - rest && ModelHelpers.HelperIsWon(helper, n.environment) && nodes[n] == id
      decreases rest
    {
      var n :| n in rest;
      if ModelHelpers.HelperIsWon(helper, n.environment) {
        seeds := seeds + [nodes[n]];
      }
      rest := rest - {n};
    }
  }

  /** `edge_map_successor_to_predecessors`: each edge adds its source under its target. */
  method PredecessorMap(edges: set<Edge>) returns (pred: map<nat, set<nat>>)
    ensures PredecessorsOf(pred, edges)
  {
    pred := map[];
    var rest := edges;
    while rest != {}
      invariant rest <= edges
      invariant PredecessorsOf(pred, edges - rest)
      decreases rest
    {
      var e :| e in rest;
      var known := if e.to in pred then pred[e.to] else {};
      pred := pred[e.to := known + {e.from}];
      rest := rest - {e};
    }
  }

  /** Pushing a set of ids onto the stack, in the set's own order. */
  method PushAll(stack: seq<nat>, ids: set<nat>) returns (r: seq<nat>)
    ensures |r| == |stack| + |ids| && r[..|stack|] == stack
    ensures forall x :: x in r[|stack|..] <==> x in ids
  {
    r := stack;
    var rest := ids;
    while rest != {}
      invariant rest <= ids && |stack| <= |r| && |r| + |rest| == |stack| + |ids| && r[..|stack|] == stack
      invariant forall x :: x in r[|stack|..] <==> x in ids && x !in rest
      decreases rest
    {
      var x :| x in rest;
      ghost var pushed := r[|stack|..];
      r := r + [x];
      rest := rest - {x};
      assert r[|stack|..] == pushed + [x];
    }
  }

  /** Every predecessor of a member is a member. */
  ghost predicate BackClosed(edges: set<Edge>, w: set<nat>) {
    forall u, v :: v in w && Edge(u, v) in edges ==> u in w
  }

  /**
   * What the search keeps: everything added or on the stack lies in
   * `good`, every seed has been added or is on the stack, and every
   * predecessor of an added id has been added or is on the stack.
   */
  ghost predicate SearchInv(edges: set<Edge>, seeds: set<nat>, good: set<nat>, winning: set<nat>, stack: seq<nat>) {
    seeds <= good && winning <= good &&
    (forall k :: 0 <= k < |stack| ==> stack[k] in good) &&
    (forall x :: x in seeds ==> x in winning || x in stack) &&
    (forall u, v :: v in winning && Edge(u, v) in edges ==> u in winning || u in stack)
  }

  /** Popping an id that was already added keeps the search invariant. */
  lemma SkipKeeps(edges: set<Edge>, seeds: set<nat>, good: set<nat>, winning: set<nat>, stack: seq<nat>)
    requires SearchInv(edges, seeds, good, winning, stack)
    requires stack != [] && stack[|stack| - 1] in winning
    ensures SearchInv(edges, seeds, good, winning, stack[..|stack| - 1])
  {
    var rest := stack[..|stack| - 1];
    forall x | x in stack
      ensures x in winning || x in rest
    {
      var i :| 0 <= i < |stack| && stack[i] == x;
      if i < |rest| {
        assert rest[i] == x;
      }
    }
  }

  /** Popping a new id, adding it and pushing its predecessors keeps the search invariant. */
  lemma AddKeeps(edges: set<Edge>, seeds: set<nat>, good: set<nat>, pred: map<nat, set<nat>>,
                 winning: set<nat>, stack: seq<nat>, stack': seq<nat>)
    requires SearchInv(edges, seeds, good, winning, stack)
    requires BackClosed(edges, good) && PredecessorsOf(pred, edges)
    requires stack != [] && stack[|stack| - 1] !in winning
    requires var rest := stack[..|stack| - 1];
             |rest| <= |stack'| && stack'[..|rest|] == rest &&
             forall x :: x in stack'[|rest|..] <==>
               x in (if stack[|stack| - 1] in pred then pred[stack[|stack| - 1]] else {})
    ensures SearchInv(edges, seeds, good, winning + {stack[|stack| - 1]}, stack')
  {
    var next := stack[|stack| - 1];
    var rest := stack[..|stack| - 1];
    forall x | x in stack
      ensures x == next || x in stack'
    {
      var i :| 0 <= i < |stack| && stack[i] == x;
      if i < |rest| {
        assert stack'[i] == rest[i];
      }
    }
    forall k | 0 <= k < |stack'|
      ensures stack'[k] in good
    {
      if k < |rest| {
        assert stack'[k] == rest[k] == stack[k];
      } else {
        assert stack'[k] in stack'[|rest|..];
        assert Edge(stack'[k], next) in edges;
      }
    }
    forall u | Edge(u, next) in edges
      ensures u in stack'
    {
      assert u in stack'[|rest|..];
    }
  }

  /** The winning ids: those among the seeds and edge sources from which a seed can be reached. */
  ghost function WinningIds(edges: set<Edge>, seeds: set<nat>): set<nat> {
    set x | x in seeds + Sources(edges) && Winning(edges, seeds, x)
  }

  /** No winning id is missed by looking only at seeds and sources: a longer walk starts at a source. */
  lemma WinningIdsExact(edges: set<Edge>, seeds: set<nat>)
    ensures forall x :: x in WinningIds(edges, seeds) <==> Winning(edges, seeds, x)
  {
    forall x | Winning(edges, seeds, x)
      ensures x in seeds + Sources(edges)
    {
      var p :| IsPath(edges, p) && p[0] == x && p[|p| - 1] in seeds;
      if |p| > 1 {
        assert Edge(p[0], p[1]) in edges;
      }
    }
  }

  /** Every seed is a winning id, so trimming never removes a won node. */
  lemma SeedsAreWinningIds(edges: set<Edge>, seeds: set<nat>)
    ensures seeds <= WinningIds(edges, seeds)
  {
    forall x | x in seeds
      ensures x in WinningIds(edges, seeds)
    {
      SeedIsWinning(edges, seeds, x);
    }
  }

  /** The winning ids are closed under predecessors. */
  lemma WinningIdsBackClosed(edges: set<Edge>, seeds: set<nat>)
    ensures BackClosed(edges, WinningIds(edges, seeds))
  {
    var good := WinningIds(edges, seeds);
    forall u, v | v in good && Edge(u, v) in edges
      ensures u in good
    {
      PredecessorIsWinning(edges, seeds, u, v);
      assert u in Sources(edges);
    }
  }

  /** No id occurs twice. */
  predicate NoRepeats(s: seq<nat>) {
    forall i, j :: 0 <= i < j < |s| ==> s[i] != s[j]
  }

  /** Appending a new id keeps a sequence free of repeats. */
  lemma AppendKeepsNoRepeats(s: seq<nat>, x: nat)
    requires NoRepeats(s) && x !in s
    ensures NoRepeats(s + [x])
  {
  }

  /** Adding a member of `good` not yet added leaves fewer to add. */
  lemma FewerLeft(good: set<nat>, winning: set<nat>, next: nat)
    requires next in good && next !in winning
    ensures |good - (winning + {next})| < |good - winning|
  {
    assert good - winning == (good - (winning + {next})) + {next};
  }

  /**
   * The `while let` loop: pop an id; one already in `winning_states` is
   * skipped, a new one is added and its predecessors are pushed. The ids
   * added, in order, are returned as `processed`: each is added once.
   * Everything stays inside a predecessor-closed set `good` holding the
   * seeds, and what is added ends up holding the seeds and closed.
   */
  method Search(seeds: seq<nat>, edges: set<Edge>, pred: map<nat, set<nat>>, ghost good: set<nat>)
    returns (winning: set<nat>, ghost processed: seq<nat>)
    requires PredecessorsOf(pred, edges) && BackClosed(edges, good)
    requires forall k :: 0 <= k < |seeds| ==> seeds[k] in good
    ensures (set x | x in seeds) <= winning <= good && BackClosed(edges, winning)
    ensures NoRepeats(processed)
    ensures forall id :: id in processed <==> id in winning
  {
    ghost var s := set x | x in seeds;
    winning := {};
    processed := [];
    var stack := seeds;
    while stack != []
      invariant SearchInv(edges, s, good, winning, stack)
      invariant NoRepeats(processed)
      invariant forall id :: id in processed <==> id in winning
      decreases |good - winning|, |stack|
    {
      var next := stack[|stack| - 1];
      if next in winning {
        SkipKeeps(edges, s, good, winning, stack);
        stack := stack[..|stack| - 1];
        continue;
      }
      FewerLeft(good, winning, next);
      var preds := if next in pred then pred[next] else {};
      var stack' := PushAll(stack[..|stack| - 1], preds);
      AddKeeps(edges, s, good, pred, winning, stack, stack');
      assert next !in processed;
      AppendKeepsNoRepeats(processed, next);
      winning := winning + {next};
      processed := processed + [next];
      stack := stack';
    }
  }

  /** The search from the seeds finds exactly the winning ids. */
  method WinningStates(seeds: seq<nat>, edges: set<Edge>, pred: map<nat, set<nat>>)
    returns (winning: set<nat>, ghost processed: seq<nat>)
    requires PredecessorsOf(pred, edges)
    ensures winning == WinningIds(edges, set x | x in seeds)
    ensures NoRepeats(processed)
    ensures forall id :: id in processed <==> id in winning
  {
    ghost var s := set x | x in seeds;
    ghost var good := WinningIds(edges, s);
    WinningIdsBackClosed(edges, s);
    WinningIdsExact(edges, s);
    SeedsAreWinningIds(edges, s);
    assert forall k :: 0 <= k < |seeds| ==> seeds[k] in s;
    winning, processed := Search(seeds, edges, pred, good);
    WinningIsLeastClosed(edges, s, winning);
  }

  /** The nodes of a graph restricted to a set of ids. */
  function KeepNodes(nodes: map<UniqueNode, nat>, keep: set<nat>): (r: map<UniqueNode, nat>)
    ensures forall n :: n in r <==> n in nodes && nodes[n] in keep
    ensures forall n :: n in r ==> r[n] == nodes[n]
  {
    map n | n in nodes && nodes[n] in keep :: nodes[n]
  }

  /** The seeds, the predecessor map and the search, on the graph before trimming. */
  method FindWinning(nodes: map<UniqueNode, nat>, edges: set<Edge>, helper: ModelHelpers.WonCheckHelper)
    returns (winning: set<nat>)
    ensures winning == WinningIds(edges, Seeds(nodes, helper))
  {
    var seeds := InitialWinningStates(nodes, helper);
    assert (set s | s in seeds) == Seeds(nodes, helper);
    var pred := PredecessorMap(edges);
    ghost var processed;
    winning, processed := WinningStates(seeds, edges, pred);
  }

  /** The two `retain` calls: keep the nodes with their ids in `keep`, and the edges with both ends in it. */
  method Retain(g: StateGraph, keep: set<nat>)
    requires g.Valid()
    modifies g
    ensures g.Valid()
    ensures forall n :: n in g.nodes <==> n in old(g.nodes) && old(g.nodes)[n] in keep
    ensures forall n :: n in g.nodes ==> g.nodes[n] == old(g.nodes)[n]
    ensures forall id :: id in g.ids <==> id in old(g.ids) && id in keep
    ensures forall e :: e in g.edges <==> e in old(g.edges) && e.from in keep && e.to in keep
    ensures g.metadata == old(g.metadata) && g.unvisited == old(g.unvisited)
    ensures |g.nodes| <= old(|g.nodes|) && |g.edges| <= old(|g.edges|)
  {
    var keptNodes := KeepNodes(g.nodes, keep);
    var keptIds := map id | id in g.ids && id in keep :: g.ids[id];
    var keptEdges := set e | e in g.edges && e.from in keep && e.to in keep;
    assert Inverse(keptNodes, keptIds);
    assert keptNodes.Keys <= g.nodes.Keys;
    Enumerations.SubsetCard(keptNodes.Keys, g.nodes.Keys);
    Enumerations.SubsetCard(keptEdges, g.edges);
    g.nodes, g.ids, g.edges := keptNodes, keptIds, keptEdges;
  }

  /**
   * `trim_unwinnable`: a node is kept exactly when some won node can be
   * reached from it, an edge exactly when both its ends are kept; metadata
   * and the unvisited set are not touched, and the stats report the sizes
   * before and after.
   */
  method TrimUnwinnable(g: StateGraph, helper: ModelHelpers.WonCheckHelper) returns (stats: TrimStats)
    requires g.Valid()
    modifies g
    ensures g.Valid()
    ensures var w := WinningIds(old(g.edges), Seeds(old(g.nodes), helper));
            (forall n :: n in g.nodes <==> n in old(g.nodes) && old(g.nodes)[n] in w) &&
            (forall n :: n in g.nodes ==> g.nodes[n] == old(g.nodes)[n]) &&
            (forall id :: id in g.ids <==> id in old(g.ids) && id in w) &&
            (forall e :: e in g.edges <==> e in old(g.edges) && e.from in w && e.to in w)
    ensures g.metadata == old(g.metadata) && g.unvisited == old(g.unvisited)
    ensures stats == TrimStats(old(|g.nodes|), |g.nodes|, old(|g.edges|), |g.edges|)
    ensures stats.nodesAfter <= stats.nodesBefore && stats.edgesAfter <= stats.edgesBefore
  {
    var winning := FindWinning(g.nodes, g.edges, helper);
    var totalNodes := |g.nodes|;
    var totalEdges := |g.edges|;
    Retain(g, winning);
    stats := TrimStats(totalNodes, |g.nodes|, totalEdges, |g.edges|);
  }
}
