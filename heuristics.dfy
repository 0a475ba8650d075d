/**
 * The corner-deadlock heuristic (RulesEngine/src/core/heuristics.rs): a
 * box off every target with walls on two consecutive sides can never be
 * moved, and a level with fewer movable boxes than targets cannot be won.
 */
module Heuristics {
  import opened CoreModels
  import opened Environments
  import opened ModelHelpers

  datatype WinnableState = WinMaybePossible | WinImpossible

  /** `DIRECTIONS_AROUND`: down, right, up, left, so that neighbours in the list are at right angles. */
  const DIRECTIONS_AROUND: seq<Vec2> := [Vec2(1, 0), Vec2(0, 1), Vec2(-1, 0), Vec2(0, -1)]

  /** The board's `Index` does not panic at p. */
  predicate OnBoard(b: Board, p: Vec2) {
    0 <= p.i < |b.grid| && 0 <= p.j < |b.grid[p.i]|
  }

  /** The box and its four neighbours can all be indexed. */
  predicate Surrounded(b: Board, p: Vec2) {
    OnBoard(b, p) && forall k :: 0 <= k < 4 ==> OnBoard(b, Add(p, DIRECTIONS_AROUND[k]))
  }

  /** The side of p in direction d cannot be walked on. */
  predicate BlockedSide(b: Board, p: Vec2, d: Vec2) {
    !IsWalkable(TerrainAt(b, Add(p, d)))
  }

  /** The k-th and the cyclically next side are both blocked. */
  predicate CornerAt(b: Board, p: Vec2, k: int)
    requires 0 <= k < 4
  {
    BlockedSide(b, p, DIRECTIONS_AROUND[k]) && BlockedSide(b, p, DIRECTIONS_AROUND[(k + 1) % 4])
  }

  /** A box is trapped when it is off every target and sits in a corner. */
  ghost predicate Trapped(b: Board, p: Vec2) {
    TerrainAt(b, p) != Target && exists k :: 0 <= k < 4 && CornerAt(b, p, k)
  }

  /** `is_box_trapped`. */
  method IsBoxTrapped(b: Board, box: Vec2) returns (trapped: bool)
    requires Surrounded(b, box)
    ensures trapped <==> Trapped(b, box)
    ensures b.grid[box.i][box.j] == Target ==> !trapped
  {
    if b.grid[box.i][box.j] == Target {
      return false;
    }
    var blocked := seq(4, k requires 0 <= k < 4 =>
      var q := Add(box, DIRECTIONS_AROUND[k]);
      !IsWalkable(b.grid[q.i][q.j]));
    for i := 0 to 4
      invariant forall k :: 0 <= k < i ==> !CornerAt(b, box, k)
    {
      if blocked[i] && blocked[(i + 1) % 4] {
        assert CornerAt(b, box, i);
        return true;
      }
    }
    return false;
  }

  /**
   * The corners spelled out: a non-target box is trapped exactly when
   * down and right, right and up, up and left, or left and down are blocked.
   */
  lemma TrappedIffCorner(b: Board, p: Vec2)
    ensures var down := BlockedSide(b, p, Vec2(1, 0));
            var right := BlockedSide(b, p, Vec2(0, 1));
            var up := BlockedSide(b, p, Vec2(-1, 0));
            var left := BlockedSide(b, p, Vec2(0, -1));
            Trapped(b, p) <==>
              TerrainAt(b, p) != Target &&
              ((down && right) || (right && up) || (up && left) || (left && down))
  {
    assert CornerAt(b, p, 0) <==> BlockedSide(b, p, Vec2(1, 0)) && BlockedSide(b, p, Vec2(0, 1));
    assert CornerAt(b, p, 1) <==> BlockedSide(b, p, Vec2(0, 1)) && BlockedSide(b, p, Vec2(-1, 0));
    assert CornerAt(b, p, 2) <==> BlockedSide(b, p, Vec2(-1, 0)) && BlockedSide(b, p, Vec2(0, -1));
    assert CornerAt(b, p, 3) <==> BlockedSide(b, p, Vec2(0, -1)) && BlockedSide(b, p, Vec2(1, 0));
  }

  /** Walls on two opposite sides alone do not trap a box: it can still be pushed along the corridor. */
  lemma OppositeSidesDoNotTrap(b: Board, p: Vec2)
    requires !BlockedSide(b, p, Vec2(0, 1)) && !BlockedSide(b, p, Vec2(0, -1))
    ensures !Trapped(b, p)
  {
    TrappedIffCorner(b, p);
  }

  /** How many of the boxes are trapped. */
  ghost function TrappedCount(b: Board, boxes: seq<Vec2>): nat {
    if boxes == [] then 0
    else TrappedCount(b, boxes[..|boxes| - 1]) + (if Trapped(b, boxes[|boxes| - 1]) then 1 else 0)
  }

  /** Free and trapped boxes together make up every box: the free count never goes negative. */
  lemma {:induction false} TrappedCountBounded(b: Board, boxes: seq<Vec2>)
    ensures TrappedCount(b, boxes) <= |boxes|
    ensures TrappedCount(b, boxes) == |boxes| - FreeCount(b, boxes)
  {
    if boxes != [] {
      TrappedCountBounded(b, boxes[..|boxes| - 1]);
    }
  }

  /** How many of the boxes are not trapped, counted independently. */
  ghost function FreeCount(b: Board, boxes: seq<Vec2>): nat {
    if boxes == [] then 0
    else FreeCount(b, boxes[..|boxes| - 1]) + (if Trapped(b, boxes[|boxes| - 1]) then 0 else 1)
  }

  /** A trapped box among the boxes makes the trapped count positive. */
  lemma {:induction false} TrappedMemberCounts(b: Board, boxes: seq<Vec2>, k: int)
    requires 0 <= k < |boxes| && Trapped(b, boxes[k])
    ensures TrappedCount(b, boxes) >= 1
  {
    if k < |boxes| - 1 {
      TrappedMemberCounts(b, boxes[..|boxes| - 1], k);
    }
  }

  /** The heuristic's verdict on a list of boxes. */
  ghost function Verdict(b: Board, boxes: seq<Vec2>): WinnableState {
    if FreeCount(b, boxes) >= |Targets(b)| then WinMaybePossible else WinImpossible
  }

  /**
   * `total_targets`: the number of target cells, read off the sorted
   * target list of the won-check helper.
   */
  method TotalTargets(b: Board) returns (n: nat)
    ensures n == |Targets(b)|
  {
    var helper := GetWonCheckHelper(b);
    var s := helper.targetPositionsSorted;
    assert Distinct(s) by {
      forall x, y | 0 <= x < y < |s|
        ensures s[x] != s[y]
      {
        assert Lt(s[x], s[y]);
      }
    }
    DistinctCard(s);
    TargetsMembership(b);
    assert (set x | x in s) == Targets(b);
    n := |s|;
  }

  /**
   * `is_winnable`: count the trapped boxes; the level may still be won
   * exactly when the free boxes are at least as many as the targets.
   */
  method IsWinnable(b: Board, game: GameState) returns (w: WinnableState)
    requires forall k :: 0 <= k < |IterBoxes(game.environment)| ==> Surrounded(b, IterBoxes(game.environment)[k])
    ensures w == Verdict(b, IterBoxes(game.environment))
    ensures w == WinMaybePossible <==>
              |IterBoxes(game.environment)| - TrappedCount(b, IterBoxes(game.environment)) >= |Targets(b)|
  {
    var boxes := IterBoxes(game.environment);
    var totalTrappedBoxes := 0;
    for k := 0 to |boxes|
      invariant totalTrappedBoxes == TrappedCount(b, boxes[..k])
    {
      var trapped := IsBoxTrapped(b, boxes[k]);
      assert boxes[..k + 1][..k] == boxes[..k];
      if trapped {
        totalTrappedBoxes := totalTrappedBoxes + 1;
      }
    }
    assert boxes[..|boxes|] == boxes;
    TrappedCountBounded(b, boxes);
    var totalFreeBoxes := |boxes| - totalTrappedBoxes;
    var totalTargets := TotalTargets(b);
    if totalFreeBoxes >= totalTargets {
      w := WinMaybePossible;
    } else {
      w := WinImpossible;
    }
  }

  /**
   * A trapped box makes a level impossible once there are no more boxes
   * than targets (the one-box, one-target levels with a box in a corner).
   */
  lemma TrappedBoxDefeats(b: Board, boxes: seq<Vec2>, k: int)
    requires 0 <= k < |boxes| && Trapped(b, boxes[k]) && |boxes| <= |Targets(b)|
    ensures Verdict(b, boxes) == WinImpossible
  {
    TrappedMemberCounts(b, boxes, k);
    TrappedCountBounded(b, boxes);
  }
}
