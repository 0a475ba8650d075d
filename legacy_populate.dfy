/**
 * Growing the cell-grid graph (src/state_graph/populate.rs): every one of
 * the four moves that succeeds from a game adds the next game and an edge
 * to it, and the game is then marked visited.
 */
module LegacyPopulate {
  import opened CoreModels
  import opened CellModels
  import opened LegacyGraphs
  import StateGraphs
  import ModelHelpers
  import Update

  datatype PopulateResult = AllVisited | Populated(id: nat)

  /** A successful move: the action, the next game and what moved. */
  datatype Outcome = Outcome(action: UserAction, state: CellGame, change: GameChangeType)

  /** The outcome of one action: the move when its step succeeds, else nothing. */
  function Attempt(game: CellGame, a: UserAction): (r: seq<Outcome>)
    requires Update.Indexable(game)
    ensures |r| <= 1
  {
    var u := Update.Step(game, a);
    if u.NextState? then [Outcome(a, u.state, u.change)] else []
  }

  /** The successful moves among `actions`, in order. */
  function Successes(game: CellGame, actions: seq<UserAction>): (r: seq<Outcome>)
    requires Update.Indexable(game)
    ensures |r| <= |actions|
  {
    if actions == [] then []
    else Successes(game, actions[..|actions| - 1]) + Attempt(game, actions[|actions| - 1])
  }

  /** An outcome is listed exactly when its action is among `actions` and its step succeeds with that result. */
  lemma {:induction false} SuccessesMembership(game: CellGame, actions: seq<UserAction>, o: Outcome)
    requires Update.Indexable(game)
    ensures o in Successes(game, actions) <==>
              o.action in actions && Update.Step(game, o.action) == NextState(o.state, o.change)
    decreases |actions|
  {
    if actions != [] {
      var init := actions[..|actions| - 1];
      assert actions == init + [actions[|actions| - 1]];
      SuccessesMembership(game, init, o);
    }
  }

  /** The games of a list of outcomes. */
  function States(succ: seq<Outcome>): (r: seq<CellGame>)
    ensures |r| == |succ|
    ensures forall s :: s in r <==> exists o :: o in succ && o.state == s
  {
    if succ == [] then []
    else
      var init := succ[..|succ| - 1];
      assert succ == init + [succ[|succ| - 1]];
      States(init) + [succ[|succ| - 1].state]
  }

  /** The games of two lists are the games of the first followed by those of the second. */
  lemma {:induction false} StatesAppend(a: seq<Outcome>, b: seq<Outcome>)
    ensures States(a + b) == States(a) + States(b)
    decreases |b|
  {
    if b != [] {
      var init := b[..|b| - 1];
      assert (a + b)[..|a + b| - 1] == a + init;
      StatesAppend(a, init);
    } else {
      assert a + b == a;
    }
  }

  /** The edges from `fromId` along a list of outcomes. */
  ghost function EdgesFor(fromId: nat, succ: seq<Outcome>, nodes: map<CellGame, nat>): (r: set<MoveEdge>)
    requires forall o :: o in succ ==> o.state in nodes
    ensures forall e :: e in r <==> exists o :: o in succ && e == MoveEdge(fromId, nodes[o.state], o.action, o.change)
  {
    if succ == [] then {}
    else
      var init := succ[..|succ| - 1];
      var o := succ[|succ| - 1];
      assert succ == init + [o];
      EdgesFor(fromId, init, nodes) + {MoveEdge(fromId, nodes[o.state], o.action, o.change)}
  }

  /** The edges along two lists, the second one's games numbered by a larger map, are the edges along both. */
  lemma EdgesForAppend(fromId: nat, done: seq<Outcome>, att: seq<Outcome>, nodes: map<CellGame, nat>, nodes': map<CellGame, nat>)
    requires forall o :: o in done ==> o.state in nodes
    requires forall o :: o in att ==> o.state in nodes'
    requires forall s :: s in nodes ==> s in nodes' && nodes'[s] == nodes[s]
    ensures EdgesFor(fromId, done + att, nodes') == EdgesFor(fromId, done, nodes) + EdgesFor(fromId, att, nodes')
  {
    var l := EdgesFor(fromId, done + att, nodes');
    var r := EdgesFor(fromId, done, nodes) + EdgesFor(fromId, att, nodes');
    forall e | e in l
      ensures e in r
    {
      var o :| o in done + att && e == MoveEdge(fromId, nodes'[o.state], o.action, o.change);
      if o in done {
        assert e == MoveEdge(fromId, nodes[o.state], o.action, o.change);
      }
    }
  }

  /** Every game of the graph is well formed. */
  ghost predicate GraphWellFormed(g: StateGraph)
    reads g
  {
    forall s :: s in g.nodes ==> Update.WellFormed(s)
  }

  /** Every game a successful move reaches from a well-formed game is well formed. */
  lemma {:induction false} SuccessesWellFormed(game: CellGame, actions: seq<UserAction>)
    requires Update.WellFormed(game)
    ensures forall o :: o in Successes(game, actions) ==> Update.WellFormed(o.state)
    decreases |actions|
  {
    if actions != [] {
      var a := actions[|actions| - 1];
      SuccessesWellFormed(game, actions[..|actions| - 1]);
      if Update.Step(game, a).NextState? {
        Update.StepSuccess(game, a);
      }
    }
  }

  /**
   * A graph (node map, edges, metadata) grown from an earlier one along
   * `succ`: the games gained are those of `succ`, old ids are kept, there is
   * one edge per outcome, old metadata is kept and new ids are unvisited.
   */
  ghost predicate Grown(nodes: map<CellGame, nat>, edges: set<MoveEdge>, metadata: map<nat, StateGraphs.NodeState>,
                        nodes0: map<CellGame, nat>, edges0: set<MoveEdge>, metadata0: map<nat, StateGraphs.NodeState>,
                        fromId: nat, succ: seq<Outcome>)
  {
    (forall s :: s in nodes <==> s in nodes0 || s in States(succ)) &&
    (forall s :: s in nodes0 ==> s in nodes && nodes[s] == nodes0[s]) &&
    (forall o :: o in succ ==> o.state in nodes) &&
    edges == edges0 + EdgesFor(fromId, succ, nodes) &&
    (forall id :: id in metadata0 ==> id in metadata && metadata[id] == metadata0[id]) &&
    (forall id :: id in metadata && id !in metadata0 ==> metadata[id] == StateGraphs.Unvisited)
  }

  /** Growing along nothing leaves a graph as it is. */
  lemma GrownNothing(nodes: map<CellGame, nat>, edges: set<MoveEdge>, metadata: map<nat, StateGraphs.NodeState>, fromId: nat)
    ensures Grown(nodes, edges, metadata, nodes, edges, metadata, fromId, [])
  {
  }

  /** Growing along `a` and then along `b` is growing along `a + b`. */
  lemma GrownCompose(nodes0: map<CellGame, nat>, edges0: set<MoveEdge>, metadata0: map<nat, StateGraphs.NodeState>,
                     nodes1: map<CellGame, nat>, edges1: set<MoveEdge>, metadata1: map<nat, StateGraphs.NodeState>,
                     nodes2: map<CellGame, nat>, edges2: set<MoveEdge>, metadata2: map<nat, StateGraphs.NodeState>,
                     fromId: nat, a: seq<Outcome>, b: seq<Outcome>)
    requires Grown(nodes1, edges1, metadata1, nodes0, edges0, metadata0, fromId, a)
    requires Grown(nodes2, edges2, metadata2, nodes1, edges1, metadata1, fromId, b)
    ensures Grown(nodes2, edges2, metadata2, nodes0, edges0, metadata0, fromId, a + b)
  {
    StatesAppend(a, b);
    forall o | o in a + b
      ensures o.state in nodes2
    {
      if o in a {
        assert o.state in nodes1;
      }
    }
    EdgesForAppend(fromId, a, b, nodes1, nodes2);
  }

  /**
   * The graph after expanding `fromId` along `succ`, against the node map,
   * edges and metadata before: the games gained are those of `succ`, old
   * ids are kept, there is one edge per outcome, `fromId` is visited, other
   * old metadata is kept and new ids are unvisited.
   */
  ghost predicate Expanded(g: StateGraph, nodes0: map<CellGame, nat>, edges0: set<MoveEdge>,
                           metadata0: map<nat, StateGraphs.NodeState>, fromId: nat, succ: seq<Outcome>)
    reads g
  {
    (forall s :: s in g.nodes <==> s in nodes0 || s in States(succ)) &&
    (forall s :: s in nodes0 ==> g.nodes[s] == nodes0[s]) &&
    (forall o :: o in succ ==> o.state in g.nodes) &&
    g.edges == edges0 + EdgesFor(fromId, succ, g.nodes) &&
    fromId in g.metadata && g.metadata[fromId] == StateGraphs.Visited &&
    (forall id :: id in metadata0 && id != fromId ==> id in g.metadata && g.metadata[id] == metadata0[id]) &&
    (forall id :: id in g.metadata && id !in metadata0 ==> g.metadata[id] == StateGraphs.Unvisited)
  }

  /** One successful move: `get_id` of the next game, then the three-field `add_edge`. */
  method Link(g: StateGraph, fromId: nat, o: Outcome)
    requires g.Valid() && g.Built() && fromId in g.ids
    modifies g
    ensures g.Valid() && g.Built() && fromId in g.ids
    ensures Grown(g.nodes, g.edges, g.metadata, old(g.nodes), old(g.edges), old(g.metadata), fromId, [o])
  {
    var toId := g.UpsertState(o.state);
    g.AddEdge(MoveEdge(fromId, toId, o.action, o.change));
    assert EdgesFor(fromId, [o], g.nodes) == {MoveEdge(fromId, toId, o.action, o.change)};
  }

  /** One action of `populate_node`: step, and link the move when it succeeds. */
  method TryMove(g: StateGraph, fromId: nat, game: CellGame, a: UserAction)
    requires g.Valid() && g.Built() && fromId in g.ids && Update.Indexable(game)
    modifies g
    ensures g.Valid() && g.Built() && fromId in g.ids
    ensures Grown(g.nodes, g.edges, g.metadata, old(g.nodes), old(g.edges), old(g.metadata), fromId, Attempt(game, a))
  {
    var update := Update.Step(game, a);
    if update.NextState? {
      var o := Outcome(a, update.state, update.change);
      assert Attempt(game, a) == [o];
      Link(g, fromId, o);
    } else {
      assert Attempt(game, a) == [];
      GrownNothing(g.nodes, g.edges, g.metadata, fromId);
    }
  }

  /** One more action of the loop: the graph has grown along one more prefix of the actions. */
  lemma GrownStep(game: CellGame, actions: seq<UserAction>, k: nat, fromId: nat,
                  nodes0: map<CellGame, nat>, edges0: set<MoveEdge>, metadata0: map<nat, StateGraphs.NodeState>,
                  nodes1: map<CellGame, nat>, edges1: set<MoveEdge>, metadata1: map<nat, StateGraphs.NodeState>,
                  nodes2: map<CellGame, nat>, edges2: set<MoveEdge>, metadata2: map<nat, StateGraphs.NodeState>)
    requires Update.Indexable(game) && k < |actions|
    requires Grown(nodes1, edges1, metadata1, nodes0, edges0, metadata0, fromId, Successes(game, actions[..k]))
    requires Grown(nodes2, edges2, metadata2, nodes1, edges1, metadata1, fromId, Attempt(game, actions[k]))
    ensures Grown(nodes2, edges2, metadata2, nodes0, edges0, metadata0, fromId, Successes(game, actions[..k + 1]))
  {
    assert actions[..k + 1][..k] == actions[..k];
    GrownCompose(nodes0, edges0, metadata0, nodes1, edges1, metadata1, nodes2, edges2, metadata2,
                 fromId, Successes(game, actions[..k]), Attempt(game, actions[k]));
  }

  /** The `for` loop of `populate_node`: try each action in turn. */
  method AddMoves(g: StateGraph, fromId: nat, game: CellGame, actions: seq<UserAction>)
    requires g.Valid() && g.Built() && fromId in g.ids && Update.Indexable(game)
    modifies g
    ensures g.Valid() && g.Built() && fromId in g.ids
    ensures Grown(g.nodes, g.edges, g.metadata, old(g.nodes), old(g.edges), old(g.metadata), fromId, Successes(game, actions))
  {
    GrownNothing(g.nodes, g.edges, g.metadata, fromId);
    for k := 0 to |actions|
      invariant g.Valid() && g.Built() && fromId in g.ids
      invariant Grown(g.nodes, g.edges, g.metadata, old(g.nodes), old(g.edges), old(g.metadata), fromId, Successes(game, actions[..k]))
    {
      ghost var nodes1, edges1, metadata1 := g.nodes, g.edges, g.metadata;
      TryMove(g, fromId, game, actions[k]);
      GrownStep(game, actions, k, fromId, old(g.nodes), old(g.edges), old(g.metadata),
                nodes1, edges1, metadata1, g.nodes, g.edges, g.metadata);
    }
    assert actions[..|actions|] == actions;
  }

  /** Marking `fromId` visited after growing the graph along `succ` gives the expanded graph. */
  method Finish(g: StateGraph, fromId: nat, ghost nodes0: map<CellGame, nat>, ghost edges0: set<MoveEdge>,
                ghost metadata0: map<nat, StateGraphs.NodeState>, ghost succ: seq<Outcome>)
    requires g.Built() && fromId in g.ids && fromId in metadata0
    requires Grown(g.nodes, g.edges, g.metadata, nodes0, edges0, metadata0, fromId, succ)
    modifies g
    ensures g.Built() && g.nodes == old(g.nodes) && g.ids == old(g.ids) && g.edges == old(g.edges)
    ensures Expanded(g, nodes0, edges0, metadata0, fromId, succ)
  {
    g.GetNodeMetaMut(fromId);
    g.metadata := g.metadata[fromId := StateGraphs.Visited];
  }

  /**
   * `populate_node`: for a known id, try the four moves, add each
   * successful move's game and an edge to it, then mark the id visited; an
   * unknown id changes nothing.
   */
  method PopulateNode(g: StateGraph, fromId: nat)
    requires g.Valid() && g.Built() && GraphWellFormed(g)
    modifies g
    ensures g.Valid() && g.Built() && GraphWellFormed(g)
    ensures fromId !in old(g.ids) ==>
              g.nodes == old(g.nodes) && g.ids == old(g.ids) && g.metadata == old(g.metadata) && g.edges == old(g.edges)
    ensures fromId in old(g.ids) ==>
              Expanded(g, old(g.nodes), old(g.edges), old(g.metadata), fromId,
                       Successes(old(g.ids)[fromId], ModelHelpers.AllActions()))
  {
    var source := g.GetState(fromId);
    if source.None? {
      return;
    }
    var game := source.value;
    ghost var succ := Successes(game, ModelHelpers.AllActions());
    AddMoves(g, fromId, game, ModelHelpers.AllActions());
    Finish(g, fromId, old(g.nodes), old(g.edges), old(g.metadata), succ);
    SuccessesWellFormed(game, ModelHelpers.AllActions());
    forall s | s in g.nodes
      ensures Update.WellFormed(s)
    {
      if s !in old(g.nodes) {
        var o :| o in succ && o.state == s;
      }
    }
  }

  /**
   * `populate_step`: collect the ids whose metadata is unvisited, in the
   * map's own order; with none the graph is complete, otherwise the first
   * is populated and returned.
   */
  method PopulateStep(g: StateGraph) returns (r: PopulateResult)
    requires g.Valid() && g.Built() && GraphWellFormed(g)
    modifies g
    ensures g.Valid() && g.Built() && GraphWellFormed(g)
    ensures r.AllVisited? <==> forall id :: id in old(g.metadata) ==> old(g.metadata)[id] != StateGraphs.Unvisited
    ensures r.AllVisited? ==>
              g.nodes == old(g.nodes) && g.ids == old(g.ids) && g.metadata == old(g.metadata) && g.edges == old(g.edges)
    ensures r.Populated? ==>
              r.id in old(g.metadata) && old(g.metadata)[r.id] == StateGraphs.Unvisited &&
              r.id in g.metadata && g.metadata[r.id] == StateGraphs.Visited && old(g.VisitedIds()) < g.VisitedIds()
    ensures r.Populated? ==>
              r.id in old(g.ids) &&
              Expanded(g, old(g.nodes), old(g.edges), old(g.metadata), r.id,
                       Successes(old(g.ids)[r.id], ModelHelpers.AllActions()))
  {
    var unvisited := set id | id in g.metadata && g.metadata[id] == StateGraphs.Unvisited;
    if unvisited == {} {
      assert forall id :: id in g.metadata ==> id in unvisited || g.metadata[id] != StateGraphs.Unvisited;
      return AllVisited;
    }
    var id :| id in unvisited;
    PopulateNode(g, id);
    assert id in g.VisitedIds() && id !in old(g.VisitedIds());
    r := Populated(id);
  }
}
