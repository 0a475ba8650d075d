/**
 * Growing the state graph (RulesEngine/src/state_graph/populate.rs): the
 * successors of a node are the canonical nodes reached by every box push
 * the player can walk up to, and populating a node adds them and marks the
 * node visited.
 */
module Populate {
  import opened CoreModels
  import opened Environments
  import opened ModelHelpers
  import opened UniqueNodes
  import opened StateGraphs
  import BoardUpdate

  datatype PopulateResult = AllVisited | Populated

  /** The push candidates: the four push positions and moves around each box, box after box (`flat_map`). */
  function Candidates(boxes: seq<Vec2>): (r: seq<(Vec2, UserAction)>)
    ensures |r| == 4 * |boxes|
    ensures forall c :: c in r <==> exists m :: 0 <= m < |boxes| && c in AllPushActionsAround(boxes[m])
  {
    if boxes == [] then []
    else
      var init := boxes[..|boxes| - 1];
      var r := Candidates(init) + AllPushActionsAround(boxes[|boxes| - 1]);
      assert forall m :: 0 <= m < |init| ==> boxes[m] == init[m];
      r
  }

  /** The state a node stands for: its least reachable position and its boxes. */
  function StartOf(node: UniqueNode): GameState {
    GameState(ToVec2(node.minimumReachablePlayerPosition), node.environment)
  }

  /** A node whose state is a consistent game on the board; every node the populate step creates is one. */
  ghost predicate Ready(b: Board, node: UniqueNode) {
    BoardUpdate.Consistent(b, StartOf(node)) && Height(b) <= I32_MAX
  }

  /** The candidates whose push position the player can reach (the `filter`). */
  ghost function Kept(b: Board, start: GameState, cands: seq<(Vec2, UserAction)>): (r: seq<(Vec2, UserAction)>)
    ensures |r| <= |cands|
    ensures forall c :: c in r <==> c in cands && Reachable(b, start, c.0)
  {
    if cands == [] then []
    else
      var init := cands[..|cands| - 1];
      var c := cands[|cands| - 1];
      assert cands == init + [c];
      Kept(b, start, init) + (if Reachable(b, start, c.0) then [c] else [])
  }

  /** The step of one candidate push from the environment. */
  function StepOf(b: Board, env: Environment, c: (Vec2, UserAction)): GameUpdate<GameState>
    requires BoardUpdate.Steppable(b, GameState(c.0, env))
  {
    BoardUpdate.Step(b, GameState(c.0, env), c.1)
  }

  /** The candidate succeeds and moves a box. */
  predicate Moves(b: Board, env: Environment, c: (Vec2, UserAction))
    requires BoardUpdate.Steppable(b, GameState(c.0, env))
  {
    StepOf(b, env, c).NextState? && DidBoxMove(StepOf(b, env, c).change)
  }

  /** The node one candidate contributes: the canonical node of its step when the step moves a box, else none. */
  ghost function Outcome(b: Board, env: Environment, c: (Vec2, UserAction)): seq<UniqueNode> {
    if BoardUpdate.Steppable(b, GameState(c.0, env)) && Moves(b, env, c) then [NodeOf(b, StepOf(b, env, c).state)]
    else []
  }

  /** The concatenation of `f` over `xs`. */
  ghost function FlatMap<X, Y>(f: X -> seq<Y>, xs: seq<X>): seq<Y> {
    if xs == [] then [] else FlatMap(f, xs[..|xs| - 1]) + f(xs[|xs| - 1])
  }

  /** A member of a concatenation belongs to the image of one of the elements. */
  lemma {:induction false} FlatMapMembership<X, Y>(f: X -> seq<Y>, xs: seq<X>, y: Y)
    ensures y in FlatMap(f, xs) <==> exists k :: 0 <= k < |xs| && y in f(xs[k])
    decreases |xs|
  {
    if xs != [] {
      var init := xs[..|xs| - 1];
      FlatMapMembership(f, init, y);
      assert forall k :: 0 <= k < |init| ==> xs[k] == init[k];
    }
  }

  /** The canonical nodes of the candidates that succeed and move a box (the `filter_map`). */
  ghost function Successors(b: Board, env: Environment, cands: seq<(Vec2, UserAction)>): seq<UniqueNode> {
    FlatMap(c => Outcome(b, env, c), cands)
  }

  /** Every successor comes from a candidate whose step moves a box, and every such candidate gives one. */
  lemma SuccessorsMembership(b: Board, env: Environment, cands: seq<(Vec2, UserAction)>, s: UniqueNode)
    ensures s in Successors(b, env, cands) <==> exists k :: 0 <= k < |cands| && s in Outcome(b, env, cands[k])
  {
    FlatMapMembership(c => Outcome(b, env, c), cands, s);
  }

  /** Each candidate gives at most one successor. */
  lemma {:induction false} SuccessorsBound(b: Board, env: Environment, cands: seq<(Vec2, UserAction)>)
    ensures |Successors(b, env, cands)| <= |cands|
    decreases |cands|
  {
    if cands != [] {
      SuccessorsBound(b, env, cands[..|cands| - 1]);
    }
  }

  /** What `get_all_adjacent_nodes` returns for a node. */
  ghost function AdjacentNodes(b: Board, node: UniqueNode): seq<UniqueNode>
    requires Ready(b, node)
  {
    var env := node.environment;
    Successors(b, env, Kept(b, StartOf(node), Candidates(IterBoxes(env))))
  }

  // ---------------------------------------------------------------------
  // Readiness of successors
  // ---------------------------------------------------------------------

  /** A storable position among the slots of a normal environment is a live box. */
  lemma SlotIsLive(env: Environment, p: Vec2)
    requires Normal(env) && p != EMPTY_BOX && p in env.slots
    ensures p in IterBoxes(env)
  {
    var k :| 0 <= k < |env.slots| && env.slots[k] == p;
    assert k < |IterBoxes(env)|;
    assert IterBoxes(env)[k] == p;
  }

  /** Moving the player to a reachable cell keeps the state consistent. */
  lemma ConsistentAtReachable(b: Board, s: GameState, p: Vec2)
    requires BoardUpdate.Consistent(b, s) && Reachable(b, s, p)
    ensures BoardUpdate.Consistent(b, GameState(p, s.environment))
  {
    ReachableIsOpenOrStart(b, s, p);
    if p != s.player {
      BoardUpdate.InsideIsStorable(b, p);
    }
  }

  /** The canonical node of a consistent state is ready. */
  lemma NodeOfReady(b: Board, s: GameState)
    requires BoardUpdate.Consistent(b, s) && Height(b) <= I32_MAX
    ensures Ready(b, NodeOf(b, s))
  {
    BoardUpdate.InsideIsStorable(b, s.player);
    if s.player in s.environment.slots {
      SlotIsLive(s.environment, s.player);
    }
    NodeAtMostPlayer(b, s);
    var m := ToVec2(NodeOf(b, s).minimumReachablePlayerPosition);
    ConsistentAtReachable(b, s, m);
    assert StartOf(NodeOf(b, s)) == GameState(m, s.environment);
  }

  /** The node a candidate contributes from a consistent state is ready. */
  lemma OutcomeReady(b: Board, env: Environment, c: (Vec2, UserAction), s: UniqueNode)
    requires BoardUpdate.Consistent(b, GameState(c.0, env)) && Height(b) <= I32_MAX
    requires s in Outcome(b, env, c)
    ensures Ready(b, s)
  {
    BoardUpdate.StepKeepsConsistent(b, GameState(c.0, env), c.1);
    NodeOfReady(b, StepOf(b, env, c).state);
  }

  /** Every successor of a ready node is ready. */
  lemma AdjacentReady(b: Board, node: UniqueNode)
    requires Ready(b, node)
    ensures forall s :: s in AdjacentNodes(b, node) ==> Ready(b, s)
  {
    var env := node.environment;
    var start := StartOf(node);
    var kept := Kept(b, start, Candidates(IterBoxes(env)));
    forall s | s in AdjacentNodes(b, node)
      ensures Ready(b, s)
    {
      SuccessorsMembership(b, env, kept, s);
      var k :| 0 <= k < |kept| && s in Outcome(b, env, kept[k]);
      assert kept[k] in kept;
      ConsistentAtReachable(b, start, kept[k].0);
      OutcomeReady(b, env, kept[k], s);
    }
  }

  /**
   * A node is a successor exactly when it is the outcome of a push of one
   * of the boxes, from a push position the player can reach.
   */
  lemma AdjacentMember(b: Board, node: UniqueNode, s: UniqueNode)
    requires Ready(b, node)
    ensures s in AdjacentNodes(b, node) <==>
              exists box, c :: box in IterBoxes(node.environment) && c in AllPushActionsAround(box) &&
                Reachable(b, StartOf(node), c.0) && s in Outcome(b, node.environment, c)
  {
    var env := node.environment;
    var boxes := IterBoxes(env);
    var kept := Kept(b, StartOf(node), Candidates(boxes));
    SuccessorsMembership(b, env, kept, s);
    if s in AdjacentNodes(b, node) {
      var k :| 0 <= k < |kept| && s in Outcome(b, env, kept[k]);
      assert kept[k] in kept;
      var m :| 0 <= m < |boxes| && kept[k] in AllPushActionsAround(boxes[m]);
      assert boxes[m] in boxes;
    }
    if exists box, c :: box in boxes && c in AllPushActionsAround(box) &&
         Reachable(b, StartOf(node), c.0) && s in Outcome(b, env, c) {
      var box, c :| box in boxes && c in AllPushActionsAround(box) &&
        Reachable(b, StartOf(node), c.0) && s in Outcome(b, env, c);
      var m :| 0 <= m < |boxes| && boxes[m] == box;
      assert c in kept;
      var k :| 0 <= k < |kept| && kept[k] == c;
    }
  }

  /** There are at most four successors per box. */
  lemma AdjacentBound(b: Board, node: UniqueNode)
    requires Ready(b, node)
    ensures |AdjacentNodes(b, node)| <= 4 * |IterBoxes(node.environment)|
  {
    var env := node.environment;
    SuccessorsBound(b, env, Kept(b, StartOf(node), Candidates(IterBoxes(env))));
  }

  // ---------------------------------------------------------------------
  // The populate step
  // ---------------------------------------------------------------------

  /** The `filter_map` of `get_all_adjacent_nodes`: step every kept candidate. */
  method StepCandidates(b: Board, env: Environment, kept: seq<(Vec2, UserAction)>) returns (next: seq<UniqueNode>)
    requires Rectangular(b) && BoardUpdate.SmallBoard(b) && Normal(env) && Height(b) <= I32_MAX
    ensures next == Successors(b, env, kept)
  {
    next := [];
    for k := 0 to |kept|
      invariant next == Successors(b, env, kept[..k])
    {
      assert kept[..k + 1][..k] == kept[..k];
      var c := kept[k];
      var update := StepOf(b, env, c);
      if update.NextState? && DidBoxMove(update.change) {
        BoardUpdate.StepCases(b, GameState(c.0, env), c.1);
        var n := FromGameState(b, update.state);
        next := next + [n];
      }
    }
    assert kept[..|kept|] == kept;
  }

  /** The `filter` of `get_all_adjacent_nodes`: keep the candidates whose push position is in the reachable list. */
  method KeepReachable(b: Board, start: GameState, reachable: seq<Vec2>, cands: seq<(Vec2, UserAction)>)
    returns (kept: seq<(Vec2, UserAction)>)
    requires forall p :: p in reachable <==> Reachable(b, start, p)
    ensures kept == Kept(b, start, cands)
  {
    kept := [];
    for k := 0 to |cands|
      invariant kept == Kept(b, start, cands[..k])
    {
      assert cands[..k + 1][..k] == cands[..k];
      if cands[k].0 in reachable {
        kept := kept + [cands[k]];
      }
    }
    assert cands[..|cands|] == cands;
  }

  /** `get_all_adjacent_nodes`. */
  method GetAllAdjacentNodes(b: Board, node: UniqueNode) returns (next: seq<UniqueNode>)
    requires Ready(b, node)
    ensures next == AdjacentNodes(b, node)
    ensures forall s :: s in next ==> Ready(b, s)
  {
    var env := node.environment;
    var start := StartOf(node);
    var reachable := ReachablePositions(b, start);
    var kept := KeepReachable(b, start, reachable, Candidates(IterBoxes(env)));
    next := StepCandidates(b, env, kept);
    AdjacentReady(b, node);
  }

  /** Every node of the graph is ready. */
  ghost predicate GraphReady(b: Board, g: StateGraph)
    reads g
  {
    forall s :: s in g.nodes ==> Ready(b, s)
  }

  /** The edges from `fromId` to the nodes of `succ`, one per element. */
  ghost function EdgesTo(fromId: nat, succ: seq<UniqueNode>, nodes: map<UniqueNode, nat>): set<Edge>
    requires forall s :: s in succ ==> s in nodes
  {
    if succ == [] then {}
    else
      var init := succ[..|succ| - 1];
      assert forall s :: s in init ==> s in succ;
      EdgesTo(fromId, init, nodes) + {Edge(fromId, nodes[succ[|succ| - 1]])}
  }

  /** An edge of `EdgesTo` leads from `fromId` to the id of an element. */
  lemma {:induction false} EdgesToMembership(fromId: nat, succ: seq<UniqueNode>, nodes: map<UniqueNode, nat>, e: Edge)
    requires forall s :: s in succ ==> s in nodes
    ensures e in EdgesTo(fromId, succ, nodes) <==> exists s :: s in succ && e == Edge(fromId, nodes[s])
    decreases |succ|
  {
    if succ != [] {
      var init := succ[..|succ| - 1];
      assert succ == init + [succ[|succ| - 1]];
      EdgesToMembership(fromId, init, nodes, e);
    }
  }

  /** `EdgesTo` only looks at the ids of the elements. */
  lemma {:induction false} EdgesToAgree(fromId: nat, succ: seq<UniqueNode>, nodes: map<UniqueNode, nat>, nodes': map<UniqueNode, nat>)
    requires forall s :: s in succ ==> s in nodes
    requires forall s :: s in nodes ==> s in nodes' && nodes'[s] == nodes[s]
    ensures EdgesTo(fromId, succ, nodes') == EdgesTo(fromId, succ, nodes)
    decreases |succ|
  {
    if succ != [] {
      var init := succ[..|succ| - 1];
      assert forall s :: s in init ==> s in succ;
      EdgesToAgree(fromId, init, nodes, nodes');
    }
  }

  /** Appending a node with an id adds one edge. */
  lemma EdgesToSnoc(fromId: nat, succ: seq<UniqueNode>, x: UniqueNode, nodes: map<UniqueNode, nat>, nodes': map<UniqueNode, nat>)
    requires forall s :: s in succ ==> s in nodes
    requires x in nodes' && forall s :: s in nodes ==> s in nodes' && nodes'[s] == nodes[s]
    ensures EdgesTo(fromId, succ + [x], nodes') == EdgesTo(fromId, succ, nodes) + {Edge(fromId, nodes'[x])}
  {
    var t := succ + [x];
    assert t[..|t| - 1] == succ;
    EdgesToAgree(fromId, succ, nodes, nodes');
  }

  /** One turn of the loop of `populate_node`: upsert a successor and add an edge to it. */
  method Link(g: StateGraph, fromId: nat, state: UniqueNode) returns (toId: nat)
    requires g.Valid() && g.Built() && fromId in g.ids
    modifies g
    ensures g.Valid() && g.Built() && fromId in g.ids && g.ids[fromId] == old(g.ids)[fromId]
    ensures forall s :: s in g.nodes <==> s in old(g.nodes) || s == state
    ensures forall s :: s in old(g.nodes) ==> g.nodes[s] == old(g.nodes)[s]
    ensures state in g.nodes && g.nodes[state] == toId
    ensures g.edges == old(g.edges) + {Edge(fromId, toId)}
    ensures forall id :: id in old(g.metadata) ==> id in g.metadata && g.metadata[id] == old(g.metadata)[id]
    ensures forall id :: id in g.metadata && id !in old(g.metadata) ==> g.metadata[id] == Unvisited
  {
    toId := g.UpsertState(state);
    g.AddEdge(Edge(fromId, toId));
  }

  /** The loop of `populate_node`: upsert each successor and add an edge to it from `fromId`. */
  method AddSuccessors(g: StateGraph, fromId: nat, succ: seq<UniqueNode>)
    requires g.Valid() && g.Built() && fromId in g.ids
    modifies g
    ensures g.Valid() && g.Built() && fromId in g.ids && g.ids[fromId] == old(g.ids)[fromId]
    ensures forall s :: s in g.nodes <==> s in old(g.nodes) || s in succ
    ensures forall s :: s in old(g.nodes) ==> g.nodes[s] == old(g.nodes)[s]
    ensures g.edges == old(g.edges) + EdgesTo(fromId, succ, g.nodes)
    ensures forall id :: id in old(g.metadata) ==> id in g.metadata && g.metadata[id] == old(g.metadata)[id]
    ensures forall id :: id in g.metadata && id !in old(g.metadata) ==> g.metadata[id] == Unvisited
  {
    for k := 0 to |succ|
      invariant g.Valid() && g.Built() && fromId in g.ids && g.ids[fromId] == old(g.ids)[fromId]
      invariant forall s :: s in g.nodes <==> s in old(g.nodes) || s in succ[..k]
      invariant forall s :: s in old(g.nodes) ==> g.nodes[s] == old(g.nodes)[s]
      invariant g.edges == old(g.edges) + EdgesTo(fromId, succ[..k], g.nodes)
      invariant forall id :: id in old(g.metadata) ==> id in g.metadata && g.metadata[id] == old(g.metadata)[id]
      invariant forall id :: id in g.metadata && id !in old(g.metadata) ==> g.metadata[id] == Unvisited
    {
      ghost var before := g.nodes;
      var toId := Link(g, fromId, succ[k]);
      assert succ[..k + 1] == succ[..k] + [succ[k]];
      assert forall s :: s in succ[..k + 1] <==> s in succ[..k] || s == succ[k];
      EdgesToSnoc(fromId, succ[..k], succ[k], before, g.nodes);
    }
    assert succ[..|succ|] == succ;
  }

  /**
   * The graph after expanding `fromId` into `succ`, against the node map,
   * edges and metadata before: the nodes gained are those of `succ`, old
   * ids are kept, one edge leads from `fromId` to each member of `succ`,
   * `fromId` is visited, other old metadata is kept and new ids are
   * unvisited.
   */
  ghost predicate Expanded(g: StateGraph, nodes0: map<UniqueNode, nat>, edges0: set<Edge>,
                           metadata0: map<nat, NodeState>, fromId: nat, succ: seq<UniqueNode>)
    reads g
  {
    (forall s :: s in g.nodes <==> s in nodes0 || s in succ) &&
    (forall s :: s in nodes0 ==> g.nodes[s] == nodes0[s]) &&
    g.edges == edges0 + EdgesTo(fromId, succ, g.nodes) &&
    fromId in g.metadata && g.metadata[fromId] == NodeState.Visited && fromId !in g.unvisited &&
    (forall id :: id in metadata0 && id != fromId ==> id in g.metadata && g.metadata[id] == metadata0[id]) &&
    (forall id :: id in g.metadata && id !in metadata0 ==> g.metadata[id] == Unvisited)
  }

  /** The body of `populate_node` once the successors are known. */
  method Expand(g: StateGraph, fromId: nat, succ: seq<UniqueNode>)
    requires g.Valid() && g.Built() && fromId in g.ids
    modifies g
    ensures g.Valid() && g.Built()
    ensures Expanded(g, old(g.nodes), old(g.edges), old(g.metadata), fromId, succ)
  {
    AddSuccessors(g, fromId, succ);
    g.MarkVisited(fromId);
  }

  /**
   * `populate_node`: for a known id, upsert every successor, add an edge
   * from the id to each and mark the id visited; an unknown id changes
   * nothing. Every node of the graph stays a consistent state.
   */
  method PopulateNode(g: StateGraph, fromId: nat, b: Board)
    requires g.Valid() && g.Built() && GraphReady(b, g)
    modifies g
    ensures g.Valid() && g.Built() && GraphReady(b, g)
    ensures fromId !in old(g.ids) ==>
              g.nodes == old(g.nodes) && g.ids == old(g.ids) && g.metadata == old(g.metadata) &&
              g.edges == old(g.edges) && g.unvisited == old(g.unvisited)
    ensures fromId in old(g.ids) ==>
              Expanded(g, old(g.nodes), old(g.edges), old(g.metadata), fromId, AdjacentNodes(b, old(g.ids)[fromId]))
  {
    var source := g.GetState(fromId);
    if source.None? {
      return;
    }
    var adjacent := GetAllAdjacentNodes(b, source.value);
    Expand(g, fromId, adjacent);
  }

  /**
   * `populate_step`: with no unvisited node the graph is complete and
   * `assert_all_visited` passes; otherwise exactly one unvisited node is
   * expanded into its successors and the set of visited ids grows.
   */
  method PopulateStep(g: StateGraph, b: Board) returns (r: PopulateResult)
    requires g.Valid() && g.Built() && GraphReady(b, g)
    modifies g
    ensures g.Valid() && g.Built() && GraphReady(b, g)
    ensures r == AllVisited <==> old(g.unvisited) == {}
    ensures r == AllVisited ==>
              g.AllVisitedPasses() && g.nodes == old(g.nodes) && g.edges == old(g.edges) &&
              g.metadata == old(g.metadata) && g.unvisited == old(g.unvisited)
    ensures r == Populated ==> old(g.VisitedIds()) < g.VisitedIds()
    ensures r == Populated ==>
              exists id :: id in old(g.unvisited) && id in old(g.ids) &&
                Expanded(g, old(g.nodes), old(g.edges), old(g.metadata), id, AdjacentNodes(b, old(g.ids)[id]))
  {
    var picked := g.GetUnvisitedNode();
    if picked.None? {
      return AllVisited;
    }
    var id := picked.value;
    PopulateNode(g, id, b);
    assert id in g.VisitedIds() && id !in old(g.VisitedIds());
    r := Populated;
  }
}
