/**
 * Canonical graph nodes (RulesEngine/src/state_graph/unique_node.rs): a
 * state is stored as its box environment together with the least position
 * the player can reach, so that every player position of one walkable
 * region gives the same node.
 */
module UniqueNodes {
  import opened CoreModels
  import opened Environments
  import opened ModelHelpers
  import Bounds

  datatype UniqueNode = UniqueNode(environment: Environment, minimumReachablePlayerPosition: Bounds.IVec2)

  /** The `Vec2` to `IVec2` conversion: x from the column, y from the row. */
  function ToIVec2(v: Vec2): (p: Bounds.IVec2)
    ensures ToVec2(p) == v
  {
    Bounds.IVec2(v.j, v.i)
  }

  /** The node of a state: its environment and its least reachable position. */
  ghost function NodeOf(b: Board, game: GameState): UniqueNode {
    UniqueNode(game.environment, ToIVec2(Least(ReachableSet(b, game))))
  }

  /** What `min_reachable_position` needs: a rectangular board with the player on it. */
  predicate OnBoard(b: Board, game: GameState) {
    Rectangular(b) && Inside(game.player, AreaOf(b)) && Height(b) <= I32_MAX
  }

  /** `from_game_state`. */
  method FromGameState(b: Board, game: GameState) returns (node: UniqueNode)
    requires OnBoard(b, game)
    ensures node == NodeOf(b, game)
    ensures node.environment == game.environment
    ensures !BlockedAt(b, game, game.player) ==>
              Reachable(b, game, ToVec2(node.minimumReachablePlayerPosition)) &&
              Le(ToVec2(node.minimumReachablePlayerPosition), game.player)
  {
    var m := MinReachablePosition(b, game);
    node := UniqueNode(game.environment, ToIVec2(m));
    if !BlockedAt(b, game, game.player) {
      NodeAtMostPlayer(b, game);
    }
  }

  /** The stored position is never after the player's own: the start is always reachable. */
  lemma NodeAtMostPlayer(b: Board, game: GameState)
    requires !BlockedAt(b, game, game.player)
    ensures var m := ToVec2(NodeOf(b, game).minimumReachablePlayerPosition);
            Reachable(b, game, m) && Le(m, game.player)
  {
    StartReachable(b, game);
    ReachableSetMembership(b, game);
    var s := ReachableSet(b, game);
    assert game.player in s;
    var m := Least(s);
    assert m in s && forall y :: y in s ==> Le(m, y);
  }

  /** A walk read backwards is a walk, when the cell it started on is open. */
  lemma ReversedWalk(b: Board, game: GameState, path: seq<Vec2>)
    requires IsWalk(b, game, path) && Open(b, game, path[0])
    ensures var rev := seq(|path|, k requires 0 <= k < |path| => path[|path| - 1 - k]);
            IsWalk(b, game, rev) && rev[0] == path[|path| - 1] && rev[|rev| - 1] == path[0]
  {
    var n := |path|;
    var rev := seq(n, k requires 0 <= k < n => path[n - 1 - k]);
    forall k | 1 <= k < n
      ensures Adjacent(rev[k - 1], rev[k]) && Open(b, game, rev[k])
    {
      var m := n - k;
      assert rev[k - 1] == path[m] && rev[k] == path[m - 1];
      assert Adjacent(path[m - 1], path[m]);
      NeighborsAreUnitSteps(path[m - 1], path[m]);
    }
  }

  /** A walk to q followed by a walk from q is a walk. */
  lemma JoinedWalk(b: Board, game: GameState, p1: seq<Vec2>, p2: seq<Vec2>)
    requires IsWalk(b, game, p1) && IsWalk(b, game, p2) && p1[|p1| - 1] == p2[0]
    ensures var w := p1 + p2[1..];
            IsWalk(b, game, w) && w[0] == p1[0] && w[|w| - 1] == p2[|p2| - 1]
  {
    var w := p1 + p2[1..];
    forall k | 1 <= k < |w|
      ensures Adjacent(w[k - 1], w[k]) && Open(b, game, w[k])
    {
      if k >= |p1| {
        assert w[k - 1] == p2[k - |p1|] && w[k] == p2[k - |p1| + 1];
      }
    }
  }

  /** The walks of a state depend on its environment only, not on where the player stands. */
  lemma WalkIgnoresPlayer(b: Board, g1: GameState, g2: GameState, path: seq<Vec2>)
    requires g1.environment == g2.environment && IsWalk(b, g1, path)
    ensures IsWalk(b, g2, path)
  {
    forall k | 1 <= k < |path|
      ensures Adjacent(path[k - 1], path[k]) && Open(b, g2, path[k])
    {
      assert Open(b, g1, path[k]);
    }
  }

  /** What is reachable from a cell reachable from the start is reachable from the start. */
  lemma ReachableThrough(b: Board, g1: GameState, g2: GameState, p: Vec2)
    requires g1.environment == g2.environment
    requires Reachable(b, g1, g2.player) && Reachable(b, g2, p)
    ensures Reachable(b, g1, p)
  {
    var w1 :| IsWalk(b, g1, w1) && w1[0] == g1.player && w1[|w1| - 1] == g2.player;
    var w2 :| IsWalk(b, g2, w2) && w2[0] == g2.player && w2[|w2| - 1] == p;
    WalkIgnoresPlayer(b, g2, g1, w2);
    JoinedWalk(b, g1, w1, w2);
  }

  /** Two players of one region, on open cells, can reach each other. */
  lemma ReachableBack(b: Board, g1: GameState, g2: GameState)
    requires g1.environment == g2.environment
    requires Open(b, g1, g1.player) && Reachable(b, g1, g2.player)
    ensures Reachable(b, g2, g1.player)
  {
    var w :| IsWalk(b, g1, w) && w[0] == g1.player && w[|w| - 1] == g2.player;
    ReversedWalk(b, g1, w);
    var rev := seq(|w|, k requires 0 <= k < |w| => w[|w| - 1 - k]);
    WalkIgnoresPlayer(b, g1, g2, rev);
    assert !BlockedAt(b, g2, g2.player) by {
      assert w[|w| - 1] == g2.player;
      if |w| > 1 {
        assert Open(b, g1, w[|w| - 1]);
      }
    }
  }

  /**
   * Equal environments, with the players on open cells of one reachable
   * region, give equal nodes.
   */
  lemma SameRegionSameNode(b: Board, g1: GameState, g2: GameState)
    requires g1.environment == g2.environment
    requires Open(b, g1, g1.player) && Reachable(b, g1, g2.player)
    ensures NodeOf(b, g1) == NodeOf(b, g2)
  {
    ReachableBack(b, g1, g2);
    ReachableSetMembership(b, g1);
    ReachableSetMembership(b, g2);
    forall p
      ensures Reachable(b, g1, p) <==> Reachable(b, g2, p)
    {
      if Reachable(b, g2, p) {
        ReachableThrough(b, g1, g2, p);
      }
      if Reachable(b, g1, p) {
        ReachableThrough(b, g2, g1, p);
      }
    }
    assert ReachableSet(b, g1) == ReachableSet(b, g2);
  }
}
