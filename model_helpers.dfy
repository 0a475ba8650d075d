/**
 * Board queries of the board-plus-environment revision
 * (RulesEngine/src/core/model_helpers.rs): coordinate helpers, the win
 * checks, counting boxes on goals and the stack-based flood fill of the
 * region the player can walk to.
 */
module ModelHelpers {
  import opened CoreModels
  import opened Environments
  import Bounds
  import opened BoundedGrids
  import Enumerations

  /** The game state of this revision: the player and the box environment. */
  datatype GameState = GameState(player: Vec2, environment: Environment)

  // ---------------------------------------------------------------------
  // Vec2 helpers
  // ---------------------------------------------------------------------

  function Add(a: Vec2, b: Vec2): Vec2 {
    Vec2(a.i + b.i, a.j + b.j)
  }

  function Sub(a: Vec2, b: Vec2): Vec2 {
    Vec2(a.i - b.i, a.j - b.j)
  }

  lemma AddSubInverse(a: Vec2, b: Vec2)
    ensures Sub(Add(a, b), b) == a && Add(Sub(a, b), b) == a
  {
  }

  function Abs(x: int): nat {
    if x < 0 then -x else x
  }

  /** The four orthogonal neighbours, in the order up, down, left, right. */
  function Neighbors(p: Vec2): (r: seq<Vec2>)
    ensures |r| == 4 && forall k :: 0 <= k < 4 ==> Abs(r[k].i - p.i) + Abs(r[k].j - p.j) == 1
    ensures forall x, y :: 0 <= x < y < 4 ==> r[x] != r[y]
  {
    [Vec2(p.i - 1, p.j), Vec2(p.i + 1, p.j), Vec2(p.i, p.j - 1), Vec2(p.i, p.j + 1)]
  }

  predicate Adjacent(p: Vec2, q: Vec2) {
    q in Neighbors(p)
  }

  /** The neighbours are exactly the points at Manhattan distance one. */
  lemma NeighborsAreUnitSteps(p: Vec2, q: Vec2)
    ensures Adjacent(p, q) <==> Abs(q.i - p.i) + Abs(q.j - p.j) == 1
    ensures Adjacent(p, q) <==> Adjacent(q, p)
  {
  }

  /** `inside`: 0 <= i < area.i and 0 <= j < area.j. */
  predicate Inside(p: Vec2, area: Vec2)
    ensures Inside(p, area) ==> area.i > 0 && area.j > 0
  {
    p.i >= 0 && p.j >= 0 && p.i < area.i && p.j < area.j
  }

  predicate IsWalkable(t: Terrain)
    ensures IsWalkable(t) <==> t == Floor || t == Target
  {
    t != Wall
  }

  predicate DidBoxMove(c: GameChangeType) {
    c == PlayerAndBoxMove
  }

  /** `all_actions`: the four moves in the order up, down, left, right. */
  function AllActions(): (r: seq<UserAction>)
    ensures |r| == 4 && Move(Up) in r && Move(Down) in r && Move(Left) in r && Move(Right) in r
    ensures forall x, y :: 0 <= x < y < |r| ==> r[x] != r[y]
    ensures r[0] == Move(Up) && r[1] == Move(Down) && r[2] == Move(Left) && r[3] == Move(Right)
  {
    [Move(Up), Move(Down), Move(Left), Move(Right)]
  }

  /**
   * `all_push_actions_around`: for each side of `pos`, the cell the player
   * must stand on and the move that pushes a box at `pos` away from it.
   */
  function AllPushActionsAround(pos: Vec2): (r: seq<(Vec2, UserAction)>)
    ensures |r| == 4
    ensures forall k :: 0 <= k < 4 ==> Adjacent(pos, r[k].0)
  {
    [(Add(pos, Vec2(-1, 0)), Move(Down)),
     (Add(pos, Vec2(1, 0)), Move(Up)),
     (Add(pos, Vec2(0, -1)), Move(Right)),
     (Add(pos, Vec2(0, 1)), Move(Left))]
  }

  // ---------------------------------------------------------------------
  // Board geometry
  // ---------------------------------------------------------------------

  function Height(b: Board): nat {
    |b.grid|
  }

  /** The length of the first row, or 0 for an empty board. */
  function Width(b: Board): nat {
    if |b.grid| == 0 then 0 else |b.grid[0]|
  }

  function AreaOf(b: Board): (a: Vec2)
    ensures a.i == Height(b) && a.j == Width(b)
  {
    Vec2(Height(b), Width(b))
  }

  predicate Rectangular(b: Board) {
    forall r :: 0 <= r < |b.grid| ==> |b.grid[r]| == Width(b)
  }

  /** `Index` on the board: the terrain at (i, j); Wall for coordinates off the stored rows. */
  function TerrainAt(b: Board, p: Vec2): Terrain {
    if 0 <= p.i < |b.grid| && 0 <= p.j < |b.grid[p.i]| then b.grid[p.i][p.j] else Wall
  }

  predicate IsTargetAt(b: Board, p: Vec2) {
    0 <= p.i < |b.grid| && 0 <= p.j < |b.grid[p.i]| && b.grid[p.i][p.j] == Target
  }

  /** All target positions of the board. */
  ghost function Targets(b: Board): set<Vec2> {
    set i, j | 0 <= i < |b.grid| && 0 <= j < |b.grid[i]| && b.grid[i][j] == Target :: Vec2(i, j)
  }

  /** The target positions strictly before (i, j) in row-major order. */
  ghost function TargetsBefore(b: Board, i: int, j: int): set<Vec2> {
    set r, c | 0 <= r < |b.grid| && 0 <= c < |b.grid[r]| && b.grid[r][c] == Target &&
               (r < i || (r == i && c < j)) :: Vec2(r, c)
  }

  lemma TargetsMembership(b: Board)
    ensures forall p :: p in Targets(b) <==> IsTargetAt(b, p)
  {
    forall p | IsTargetAt(b, p)
      ensures p in Targets(b)
    {
      assert Vec2(p.i, p.j) == p;
    }
  }

  lemma TargetsBeforeMembership(b: Board, i: int, j: int)
    ensures forall p :: p in TargetsBefore(b, i, j) <==> IsTargetAt(b, p) && Lt(p, Vec2(i, j))
  {
    forall p | IsTargetAt(b, p) && Lt(p, Vec2(i, j))
      ensures p in TargetsBefore(b, i, j)
    {
      assert Vec2(p.i, p.j) == p;
    }
  }

  // ---------------------------------------------------------------------
  // Win checks
  // ---------------------------------------------------------------------

  /** Every target position is in the given box slots. */
  ghost predicate AllTargetsCovered(b: Board, slots: seq<Vec2>) {
    forall p :: IsTargetAt(b, p) ==> p in slots
  }

  datatype WonCheckHelper = WonCheckHelper(targetPositionsSorted: seq<Vec2>)

  /** `WonCheckHelper::is_won`: every stored target is in the environment's slot array. */
  function HelperIsWon(helper: WonCheckHelper, env: Environment): (won: bool)
    ensures won <==> forall k :: 0 <= k < |helper.targetPositionsSorted| ==>
                       helper.targetPositionsSorted[k] in env.slots
  {
    forall p :: p in helper.targetPositionsSorted ==> p in env.slots
  }

  predicate StrictlyIncreasing(s: seq<Vec2>) {
    forall x, y :: 0 <= x < y < |s| ==> Lt(s[x], s[y])
  }

  /**
   * `get_won_check_helper`: the target positions collected in row-major
   * order and then sorted; the list holds every target exactly once.
   */
  method GetWonCheckHelper(b: Board) returns (helper: WonCheckHelper)
    ensures forall p :: p in helper.targetPositionsSorted <==> IsTargetAt(b, p)
    ensures StrictlyIncreasing(helper.targetPositionsSorted)
    ensures forall env :: HelperIsWon(helper, env) <==> AllTargetsCovered(b, env.slots)
  {
    var targets: seq<Vec2> := [];
    for i := 0 to |b.grid|
      invariant forall p :: p in targets <==> IsTargetAt(b, p) && p.i < i
      invariant StrictlyIncreasing(targets)
      invariant forall k :: 0 <= k < |targets| ==> targets[k].i < i
    {
      var row := b.grid[i];
      for j := 0 to |row|
        invariant forall p :: p in targets <==> IsTargetAt(b, p) && Lt(p, Vec2(i, j))
        invariant StrictlyIncreasing(targets)
        invariant forall k :: 0 <= k < |targets| ==> Lt(targets[k], Vec2(i, j))
      {
        if row[j] == Target {
          targets := targets + [Vec2(i, j)];
        }
      }
    }
    var sorted := Sort(targets);
    SortKeepsStrictlyIncreasing(targets);
    assert forall p :: p in sorted <==> p in multiset(targets);
    helper := WonCheckHelper(sorted);
  }

  /** Sorting an already strictly increasing sequence changes nothing. */
  lemma SortKeepsStrictlyIncreasing(s: seq<Vec2>)
    requires StrictlyIncreasing(s)
    ensures Sort(s) == s
  {
    SortedPermutationUnique(Sort(s), s);
  }

  /** `SharedGameState::is_won`: false as soon as a target cell has no box slot on it. */
  method IsWon(b: Board, game: GameState) returns (won: bool)
    ensures won <==> AllTargetsCovered(b, game.environment.slots)
  {
    for i := 0 to |b.grid|
      invariant forall p :: IsTargetAt(b, p) && p.i < i ==> p in game.environment.slots
    {
      var row := b.grid[i];
      for j := 0 to |row|
        invariant forall p :: IsTargetAt(b, p) && Lt(p, Vec2(i, j)) ==> p in game.environment.slots
      {
        if row[j] == Target {
          var pos := Vec2(i, j);
          if pos !in game.environment.slots {
            return false;
          }
        }
      }
    }
    return true;
  }

  /** The target positions that appear in the box list. */
  ghost function GoalsCovered(b: Board, boxes: seq<Vec2>): set<Vec2> {
    set p | p in Targets(b) && p in boxes
  }

  /**
   * `count_boxes_on_goals`: the number of target cells whose position
   * occurs in the box list (a box listed twice still counts once).
   */
  method CountBoxesOnGoals(b: Board, boxes: seq<Vec2>) returns (count: nat)
    ensures count == |GoalsCovered(b, boxes)|
    ensures count <= |Targets(b)|
  {
    ghost var seen: set<Vec2> := {};
    count := 0;
    TargetsMembership(b);
    for i := 0 to |b.grid|
      invariant forall p :: p in seen <==> IsTargetAt(b, p) && p in boxes && p.i < i
      invariant count == |seen|
    {
      var row := b.grid[i];
      for j := 0 to |row|
        invariant forall p :: p in seen <==> IsTargetAt(b, p) && p in boxes && Lt(p, Vec2(i, j))
        invariant count == |seen|
      {
        if row[j] == Target {
          var pos := Vec2(i, j);
          if pos in boxes {
            seen := seen + {pos};
            count := count + 1;
          }
        }
      }
    }
    assert seen == GoalsCovered(b, boxes);
    assert GoalsCovered(b, boxes) <= Targets(b);
    Enumerations.SubsetCard(GoalsCovered(b, boxes), Targets(b));
  }

  // ---------------------------------------------------------------------
  // Flood fill
  // ---------------------------------------------------------------------

  datatype VisitationState = Walkable | Blocked | Visited

  /** The visitation grid's bounds: x runs along columns, y along rows. */
  function GridBounds(area: Vec2): Bounds.BoundsOriginRoot {
    Bounds.BoundsOriginRoot(Bounds.IVec2(area.j, area.i))
  }

  function ToIVec(p: Vec2): Bounds.IVec2 {
    Bounds.IVec2(p.j, p.i)
  }

  lemma InsideIsContained(area: Vec2, p: Vec2)
    ensures Inside(p, area) <==> Bounds.Contains(GridBounds(area), ToIVec(p))
  {
  }

  /** A box slot that lies on the board, as the fill marks it `Blocked`. */
  predicate BlockedAt(b: Board, game: GameState, p: Vec2) {
    p in game.environment.slots && Inside(p, AreaOf(b))
  }

  /** A cell the fill may step onto: on the board, not a wall, not a box. */
  predicate Open(b: Board, game: GameState, p: Vec2) {
    Inside(p, AreaOf(b)) && IsWalkable(TerrainAt(b, p)) && !BlockedAt(b, game, p)
  }

  /** A path of orthogonal steps onto open cells (its first cell is unconstrained). */
  ghost predicate IsWalk(b: Board, game: GameState, path: seq<Vec2>) {
    |path| >= 1 &&
    forall k :: 1 <= k < |path| ==> Adjacent(path[k - 1], path[k]) && Open(b, game, path[k])
  }

  /** p is 4-connected to the player through open cells, and the player is not on a box. */
  ghost predicate Reachable(b: Board, game: GameState, p: Vec2) {
    !BlockedAt(b, game, game.player) &&
    exists path :: IsWalk(b, game, path) && path[0] == game.player && path[|path| - 1] == p
  }

  lemma StartReachable(b: Board, game: GameState)
    requires !BlockedAt(b, game, game.player)
    ensures Reachable(b, game, game.player)
  {
    assert IsWalk(b, game, [game.player]);
  }

  lemma ReachableStep(b: Board, game: GameState, p: Vec2, q: Vec2)
    requires Reachable(b, game, p) && Adjacent(p, q) && Open(b, game, q)
    ensures Reachable(b, game, q)
  {
    var path :| IsWalk(b, game, path) && path[0] == game.player && path[|path| - 1] == p;
    var longer := path + [q];
    forall k | 1 <= k < |longer|
      ensures Adjacent(longer[k - 1], longer[k]) && Open(b, game, longer[k])
    {
      if k < |path| {
        assert longer[k - 1] == path[k - 1] && longer[k] == path[k];
      }
    }
    assert IsWalk(b, game, longer) && longer[0] == game.player && longer[|longer| - 1] == q;
  }

  /** A reachable cell is the start or an open cell. */
  lemma ReachableIsOpenOrStart(b: Board, game: GameState, p: Vec2)
    requires Reachable(b, game, p)
    ensures p == game.player || Open(b, game, p)
  {
    var path :| IsWalk(b, game, path) && path[0] == game.player && path[|path| - 1] == p;
  }

  /** A set containing the start and closed under open neighbours contains every reachable cell. */
  lemma {:induction false} ClosedSetHoldsWalk(b: Board, game: GameState, V: set<Vec2>, path: seq<Vec2>)
    requires IsWalk(b, game, path) && path[0] in V
    requires forall q, n :: q in V && Adjacent(q, n) && Open(b, game, n) ==> n in V
    ensures path[|path| - 1] in V
  {
    if |path| > 1 {
      var prefix := path[..|path| - 1];
      assert IsWalk(b, game, prefix);
      ClosedSetHoldsWalk(b, game, V, prefix);
      assert Adjacent(path[|path| - 2], path[|path| - 1]);
    }
  }

  /** The cells of the board. */
  ghost function Cells(area: Vec2): set<Vec2> {
    set i, j | 0 <= i < area.i && 0 <= j < area.j :: Vec2(i, j)
  }

  lemma CellsMembership(area: Vec2)
    ensures forall p :: p in Cells(area) <==> Inside(p, area)
  {
    forall p | Inside(p, area)
      ensures p in Cells(area)
    {
      assert Vec2(p.i, p.j) == p;
    }
  }

  /** The state the visitation grid holds for p, given the visited and blocked sets. */
  function ExpectedState(p: Vec2, visited: set<Vec2>, blocked: set<Vec2>): VisitationState {
    if p in visited then Visited else if p in blocked then Blocked else Walkable
  }

  ghost predicate GridMatches(grid: BoundedGrid<VisitationState>, area: Vec2,
                              visited: set<Vec2>, blocked: set<Vec2>)
    reads grid.cells
  {
    forall p :: Inside(p, area) ==>
      grid.Addressable(ToIVec(p)) && grid.At(ToIVec(p)) == ExpectedState(p, visited, blocked)
  }

  predicate Distinct(s: seq<Vec2>) {
    forall x, y :: 0 <= x < y < |s| ==> s[x] != s[y]
  }

  /** Mark every box slot that lies on the board as `Blocked`. */
  method MarkBoxes(b: Board, game: GameState, grid: BoundedGrid<VisitationState>)
      returns (ghost blocked: set<Vec2>)
    requires grid.Valid() && grid.bounds == GridBounds(AreaOf(b))
    requires GridMatches(grid, AreaOf(b), {}, {})
    modifies grid.cells
    ensures GridMatches(grid, AreaOf(b), {}, blocked)
    ensures forall p :: p in blocked <==> BlockedAt(b, game, p)
  {
    var area := AreaOf(b);
    var slots := game.environment.slots;
    blocked := {};
    for k := 0 to |slots|
      invariant GridMatches(grid, area, {}, blocked)
      invariant forall p :: p in blocked <==> p in slots[..k] && Inside(p, area)
    {
      var boxPos := slots[k];
      if Inside(boxPos, area) {
        InsideIsContained(area, boxPos);
        grid.Put(ToIVec(boxPos), Blocked);
        blocked := blocked + {boxPos};
      }
      assert slots[..k + 1] == slots[..k] + [boxPos];
    }
    assert slots[..|slots|] == slots;
  }

  /** Every stacked cell is on the board and is the start or reachable. */
  ghost predicate StackSound(b: Board, game: GameState, stack: seq<Vec2>) {
    forall k :: 0 <= k < |stack| ==>
      Inside(stack[k], AreaOf(b)) && (stack[k] == game.player || Reachable(b, game, stack[k]))
  }

  /** Every open neighbour of a visited cell is visited or still waiting on the stack. */
  ghost predicate Closed(b: Board, game: GameState, visited: set<Vec2>, stack: seq<Vec2>) {
    forall q, n :: q in visited && Adjacent(q, n) && Open(b, game, n) ==> n in visited || n in stack
  }

  /** Popping a cell that is already visited or blocked keeps the frontier closed. */
  lemma ClosedAfterSkip(b: Board, game: GameState, visited: set<Vec2>, before: seq<Vec2>,
                        stack: seq<Vec2>, pos: Vec2)
    requires Closed(b, game, visited, before) && before == stack + [pos]
    requires pos in visited || BlockedAt(b, game, pos)
    ensures Closed(b, game, visited, stack)
  {
  }

  /** Visiting the popped cell and pushing its open neighbours keeps the frontier closed. */
  lemma ClosedAfterVisit(b: Board, game: GameState, visited: set<Vec2>, before: seq<Vec2>,
                         stack: seq<Vec2>, pos: Vec2, stack': seq<Vec2>)
    requires Closed(b, game, visited, before) && before == stack + [pos]
    requires |stack'| >= |stack| && stack'[..|stack|] == stack
    requires forall n :: Adjacent(pos, n) && Open(b, game, n) ==> n in visited || n in stack'
    ensures Closed(b, game, visited + {pos}, stack')
  {
    forall q, n | q in visited + {pos} && Adjacent(q, n) && Open(b, game, n)
      ensures n in visited + {pos} || n in stack'
    {
      if q != pos && n !in visited && n != pos {
        assert n in stack;
        var k :| 0 <= k < |stack| && stack[k] == n;
        assert stack'[k] == n;
      }
    }
  }

  lemma DistinctAppend(s: seq<Vec2>, v: Vec2)
    requires Distinct(s) && v !in s
    ensures Distinct(s + [v])
  {
  }

  /** Mark an unvisited, unblocked cell as visited. */
  method MarkVisited(b: Board, grid: BoundedGrid<VisitationState>, pos: Vec2,
                     ghost visited: set<Vec2>, ghost blocked: set<Vec2>)
    requires grid.Valid() && grid.bounds == GridBounds(AreaOf(b))
    requires GridMatches(grid, AreaOf(b), visited, blocked)
    requires Inside(pos, AreaOf(b)) && pos !in visited && pos !in blocked
    modifies grid.cells
    ensures GridMatches(grid, AreaOf(b), visited + {pos}, blocked)
  {
    InsideIsContained(AreaOf(b), pos);
    grid.Put(ToIVec(pos), Visited);
    forall p | Inside(p, AreaOf(b))
      ensures grid.Addressable(ToIVec(p)) && grid.At(ToIVec(p)) == ExpectedState(p, visited + {pos}, blocked)
    {
      InsideIsContained(AreaOf(b), p);
    }
  }

  /** Push one neighbour of the popped cell when it is walkable and still unvisited. */
  method PushIfOpen(b: Board, game: GameState, grid: BoundedGrid<VisitationState>, pos: Vec2, next: Vec2,
                    stack: seq<Vec2>, ghost visited: set<Vec2>, ghost blocked: set<Vec2>)
      returns (stack': seq<Vec2>)
    requires Rectangular(b) && grid.Valid() && grid.bounds == GridBounds(AreaOf(b))
    requires GridMatches(grid, AreaOf(b), visited, blocked)
    requires forall p :: p in blocked <==> BlockedAt(b, game, p)
    requires Reachable(b, game, pos) && Adjacent(pos, next) && StackSound(b, game, stack)
    ensures stack' == stack || stack' == stack + [next]
    ensures StackSound(b, game, stack')
    ensures Open(b, game, next) ==> next in visited || next in stack'
  {
    stack' := stack;
    InsideIsContained(AreaOf(b), next);
    if grid.Contains(ToIVec(next)) {
      assert grid.At(ToIVec(next)) == ExpectedState(next, visited, blocked);
      if grid.At(ToIVec(next)) == Walkable && IsWalkable(b.grid[next.i][next.j]) {
        assert Open(b, game, next);
        ReachableStep(b, game, pos, next);
        stack' := stack + [next];
      }
    }
  }

  /** The neighbour loop of the fill: push every walkable neighbour that is still unvisited. */
  method PushOpenNeighbors(b: Board, game: GameState, grid: BoundedGrid<VisitationState>, pos: Vec2,
                           stack: seq<Vec2>, ghost visited: set<Vec2>, ghost blocked: set<Vec2>)
      returns (stack': seq<Vec2>)
    requires Rectangular(b) && grid.Valid() && grid.bounds == GridBounds(AreaOf(b))
    requires GridMatches(grid, AreaOf(b), visited, blocked)
    requires forall p :: p in blocked <==> BlockedAt(b, game, p)
    requires Reachable(b, game, pos) && StackSound(b, game, stack)
    ensures |stack'| >= |stack| && stack'[..|stack|] == stack
    ensures StackSound(b, game, stack')
    ensures forall n :: Adjacent(pos, n) && Open(b, game, n) ==> n in visited || n in stack'
  {
    var neighbors := Neighbors(pos);
    stack' := stack;
    for k := 0 to 4
      invariant |stack'| >= |stack| && stack'[..|stack|] == stack
      invariant StackSound(b, game, stack')
      invariant forall m :: 0 <= m < k && Open(b, game, neighbors[m]) ==>
                  neighbors[m] in visited || neighbors[m] in stack'
    {
      assert Adjacent(pos, neighbors[k]);
      ghost var before := stack';
      stack' := PushIfOpen(b, game, grid, pos, neighbors[k], stack', visited, blocked);
      assert forall n :: n in before ==> n in stack';
      assert stack'[..|stack|] == before[..|stack|];
      forall m | 0 <= m < k + 1 && Open(b, game, neighbors[m])
        ensures neighbors[m] in visited || neighbors[m] in stack'
      {
        if m < k {
          assert neighbors[m] in visited || neighbors[m] in before;
        }
      }
    }
  }

  /** The part of the loop invariant that does not depend on the visitation grid. */
  ghost predicate SearchInvariant(b: Board, game: GameState, blocked: set<Vec2>, visited: set<Vec2>,
                                  order: seq<Vec2>, stack: seq<Vec2>)
  {
    visited !! blocked && visited <= Cells(AreaOf(b)) &&
    (forall p :: p in order <==> p in visited) &&
    Distinct(order) &&
    (forall p :: p in visited ==> Reachable(b, game, p)) &&
    StackSound(b, game, stack) &&
    (game.player in visited || game.player in blocked || game.player in stack) &&
    Closed(b, game, visited, stack)
  }

  /** What holds between two iterations of the fill loop. */
  ghost predicate FillInvariant(b: Board, game: GameState, grid: BoundedGrid<VisitationState>,
                                blocked: set<Vec2>, visited: set<Vec2>, order: seq<Vec2>, stack: seq<Vec2>)
    reads grid.cells
  {
    grid.Valid() && grid.bounds == GridBounds(AreaOf(b)) &&
    GridMatches(grid, AreaOf(b), visited, blocked) &&
    SearchInvariant(b, game, blocked, visited, order, stack)
  }

  /** Skipping a popped cell that is visited or blocked keeps the search invariant. */
  lemma SkipKeepsInvariant(b: Board, game: GameState, blocked: set<Vec2>, visited: set<Vec2>,
                           order: seq<Vec2>, stack: seq<Vec2>, pos: Vec2, rest: seq<Vec2>)
    requires SearchInvariant(b, game, blocked, visited, order, stack)
    requires forall p :: p in blocked <==> BlockedAt(b, game, p)
    requires stack == rest + [pos] && (pos in visited || pos in blocked)
    ensures SearchInvariant(b, game, blocked, visited, order, rest)
  {
    ClosedAfterSkip(b, game, visited, stack, rest, pos);
    assert StackSound(b, game, rest) by {
      forall k | 0 <= k < |rest|
        ensures Inside(rest[k], AreaOf(b)) && (rest[k] == game.player || Reachable(b, game, rest[k]))
      {
        assert rest[k] == stack[k];
      }
    }
    if game.player !in visited && game.player !in blocked {
      var k :| 0 <= k < |stack| && stack[k] == game.player;
      assert k < |rest| ==> rest[k] == game.player;
      assert k == |rest| ==> pos == game.player;
    }
  }

  /** Visiting the popped cell and pushing its open neighbours keeps the search invariant. */
  lemma VisitKeepsInvariant(b: Board, game: GameState, blocked: set<Vec2>, visited: set<Vec2>,
                            order: seq<Vec2>, stack: seq<Vec2>, pos: Vec2, rest: seq<Vec2>,
                            pushed: seq<Vec2>)
    requires SearchInvariant(b, game, blocked, visited, order, stack)
    requires forall p :: p in blocked <==> BlockedAt(b, game, p)
    requires stack == rest + [pos] && pos !in visited && pos !in blocked
    requires |pushed| >= |rest| && pushed[..|rest|] == rest
    requires StackSound(b, game, pushed)
    requires forall n :: Adjacent(pos, n) && Open(b, game, n) ==> n in visited || n in pushed
    ensures SearchInvariant(b, game, blocked, visited + {pos}, order + [pos], pushed)
    ensures |Cells(AreaOf(b)) - (visited + {pos})| < |Cells(AreaOf(b)) - visited|
  {
    var area := AreaOf(b);
    assert stack[|rest|] == pos;
    assert Inside(pos, area);
    if pos == game.player {
      StartReachable(b, game);
    }
    assert Reachable(b, game, pos);
    CellsMembership(area);
    assert Cells(area) - (visited + {pos}) < Cells(area) - visited;
    DistinctAppend(order, pos);
    ClosedAfterVisit(b, game, visited, stack, rest, pos, pushed);
    if game.player != pos && game.player !in blocked && game.player !in visited {
      var k :| 0 <= k < |stack| && stack[k] == game.player;
      assert k < |rest| && rest[k] == game.player;
      assert pushed[k] == game.player;
    }
  }

  /** One iteration of the fill loop: pop a cell and, when it is still walkable, visit it. */
  method FillStep(b: Board, game: GameState, grid: BoundedGrid<VisitationState>, ghost blocked: set<Vec2>,
                  ghost visited: set<Vec2>, order: seq<Vec2>, stack: seq<Vec2>)
      returns (ghost visited': set<Vec2>, order': seq<Vec2>, stack': seq<Vec2>)
    requires Rectangular(b) && stack != []
    requires forall p :: p in blocked <==> BlockedAt(b, game, p)
    requires FillInvariant(b, game, grid, blocked, visited, order, stack)
    modifies grid.cells
    ensures FillInvariant(b, game, grid, blocked, visited', order', stack')
    ensures |Cells(AreaOf(b)) - visited'| < |Cells(AreaOf(b)) - visited| ||
            (visited' == visited && |stack'| < |stack|)
  {
    var area := AreaOf(b);
    var pos := stack[|stack| - 1];
    var rest := stack[..|stack| - 1];
    assert stack == rest + [pos];
    assert Inside(pos, area);
    assert grid.At(ToIVec(pos)) == ExpectedState(pos, visited, blocked);
    if grid.At(ToIVec(pos)) != Walkable {
      SkipKeepsInvariant(b, game, blocked, visited, order, stack, pos, rest);
      visited', order', stack' := visited, order, rest;
      return;
    }
    assert Reachable(b, game, pos) by {
      if pos == game.player {
        StartReachable(b, game);
      }
    }
    MarkVisited(b, grid, pos, visited, blocked);
    var pushed := PushOpenNeighbors(b, game, grid, pos, rest, visited + {pos}, blocked);
    VisitKeepsInvariant(b, game, blocked, visited, order, stack, pos, rest, pushed);
    visited', order', stack' := visited + {pos}, order + [pos], pushed;
  }

  /**
   * `visit_all_reachable_position`: depth-first flood fill from the player
   * with an explicit stack; returns the cells in the order the callback
   * sees them. Each reachable cell is reported exactly once.
   */
  method VisitAllReachablePositions(b: Board, game: GameState) returns (order: seq<Vec2>)
    requires Rectangular(b) && Inside(game.player, AreaOf(b))
    ensures forall p :: p in order <==> Reachable(b, game, p)
    ensures Distinct(order)
    ensures forall p :: p in order ==> p == game.player || Open(b, game, p)
  {
    var area := AreaOf(b);
    var grid := new BoundedGrid<VisitationState>(GridBounds(area), Walkable);
    forall p | Inside(p, area)
      ensures grid.Addressable(ToIVec(p)) && grid.At(ToIVec(p)) == ExpectedState(p, {}, {})
    {
      InsideIsContained(area, p);
      ContainedIndexInRange(grid.bounds, ToIVec(p));
    }
    ghost var blocked := MarkBoxes(b, game, grid);
    var stack := [game.player];
    order := [];
    ghost var visited: set<Vec2> := {};
    while stack != []
      invariant fresh(grid.cells)
      invariant FillInvariant(b, game, grid, blocked, visited, order, stack)
      decreases |Cells(area) - visited|, |stack|
    {
      visited, order, stack := FillStep(b, game, grid, blocked, visited, order, stack);
    }
    forall p | Reachable(b, game, p)
      ensures p in visited
    {
      var path :| IsWalk(b, game, path) && path[0] == game.player && path[|path| - 1] == p;
      ClosedSetHoldsWalk(b, game, visited, path);
    }
    forall p | p in order
      ensures p == game.player || Open(b, game, p)
    {
      ReachableIsOpenOrStart(b, game, p);
    }
  }

  /** The reachable cells as a set. */
  ghost function ReachableSet(b: Board, game: GameState): set<Vec2> {
    set p | p in Cells(AreaOf(b)) + {game.player} && Reachable(b, game, p)
  }

  lemma ReachableSetMembership(b: Board, game: GameState)
    ensures forall p :: p in ReachableSet(b, game) <==> Reachable(b, game, p)
  {
    CellsMembership(AreaOf(b));
    forall p | Reachable(b, game, p)
      ensures p in ReachableSet(b, game)
    {
      ReachableIsOpenOrStart(b, game, p);
    }
  }

  /** A duplicate-free sequence has as many elements as its set of members. */
  lemma {:induction false} DistinctCard(s: seq<Vec2>)
    requires Distinct(s)
    ensures |set x | x in s| == |s|
  {
    if s != [] {
      var init := s[..|s| - 1];
      assert Distinct(init);
      DistinctCard(init);
      assert (set x | x in s) == (set x | x in init) + {s[|s| - 1]};
      assert s[|s| - 1] !in init;
    }
  }

  /**
   * `reachable_positions`: the positions the flood fill reports, in visiting
   * order; every reachable cell appears exactly once.
   */
  method ReachablePositions(b: Board, game: GameState) returns (r: seq<Vec2>)
    requires Rectangular(b) && Inside(game.player, AreaOf(b))
    ensures forall p :: p in r <==> Reachable(b, game, p)
    ensures Distinct(r) && |r| == |ReachableSet(b, game)|
  {
    r := VisitAllReachablePositions(b, game);
    ReachableSetMembership(b, game);
    DistinctCard(r);
    assert (set x | x in r) == ReachableSet(b, game);
  }

  /** The start value of `min_reachable_position`: (i32::MAX, i32::MAX). */
  const NO_POSITION: Vec2 := Vec2(I32_MAX, I32_MAX)

  /** A finite non-empty set of positions has a least element in the lexicographic order. */
  lemma {:induction false} LeastExists(s: set<Vec2>)
    requires s != {}
    ensures exists x :: x in s && forall y :: y in s ==> Le(x, y)
    decreases |s|
  {
    var z :| z in s;
    if s == {z} {
      assert Le(z, z);
      assert forall y :: y in s ==> y == z;
    } else {
      var t := s - {z};
      LeastExists(t);
      var x :| x in t && forall y :: y in t ==> Le(x, y);
      var m := if Le(z, x) then z else x;
      forall y | y in s
        ensures Le(m, y)
      {
        if y != z {
          assert y in t;
          assert Le(x, y);
        }
      }
      assert m in s;
    }
  }

  /** The least position of s, or `NO_POSITION` when s is empty. */
  ghost function Least(s: set<Vec2>): Vec2 {
    if s == {} then NO_POSITION
    else
      LeastExists(s);
      var x :| x in s && forall y :: y in s ==> Le(x, y);
      x
  }

  /** Any least element of s is `Least(s)`. */
  lemma LeastUnique(s: set<Vec2>, m: Vec2)
    requires m in s && forall y :: y in s ==> Le(m, y)
    ensures Least(s) == m
  {
    var x := Least(s);
    assert Le(x, m) && Le(m, x);
  }

  /** The callback loop of `min_reachable_position`: keep the least position seen so far. */
  method LeastOf(s: seq<Vec2>) returns (m: Vec2)
    requires forall x :: x in s ==> Lt(x, NO_POSITION)
    ensures s == [] ==> m == NO_POSITION
    ensures s != [] ==> m in s && forall x :: x in s ==> Le(m, x)
  {
    m := NO_POSITION;
    for k := 0 to |s|
      invariant k == 0 ==> m == NO_POSITION
      invariant k > 0 ==> m in s[..k] && forall x :: 0 <= x < k ==> Le(m, s[x])
    {
      assert s[k] in s;
      if Lt(s[k], m) {
        m := s[k];
      }
    }
    assert s[..|s|] == s;
  }

  /**
   * `min_reachable_position`: the least reachable position in (i, j) order,
   * or (i32::MAX, i32::MAX) when the player stands on a box and nothing is
   * reachable.
   */
  method MinReachablePosition(b: Board, game: GameState) returns (m: Vec2)
    requires Rectangular(b) && Inside(game.player, AreaOf(b)) && Height(b) <= I32_MAX
    ensures m == Least(ReachableSet(b, game))
    ensures ReachableSet(b, game) == {} <==> m == NO_POSITION
    ensures m != NO_POSITION ==> Reachable(b, game, m) &&
                                 forall p :: Reachable(b, game, p) ==> Le(m, p)
  {
    var order := VisitAllReachablePositions(b, game);
    assert forall p :: p in order ==> Inside(p, AreaOf(b));
    m := LeastOf(order);
    ReachableSetMembership(b, game);
    if order == [] {
      assert ReachableSet(b, game) == {};
    } else {
      assert m in order;
      assert Lt(m, NO_POSITION) by { assert Inside(m, AreaOf(b)); }
      LeastUnique(ReachableSet(b, game), m);
    }
  }
}
