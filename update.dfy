/**
 * The move rule of the cell-grid engine (RulesEngine/src/core/update.rs):
 * `step` computes the next grid from a copy of the current one, or an error
 * message when the move is not allowed.
 */
module Update {
  import opened CoreModels
  import opened CellModels
  import LegacyHelpers

  /** `vec_from_dir`: the unit vector of a direction, with i growing downwards. */
  function VecFromDir(d: Direction): (v: Vec2)
    ensures (v.i == 0) != (v.j == 0)
    ensures -1 <= v.i <= 1 && -1 <= v.j <= 1
    ensures d == Up || d == Down <==> v.j == 0
    ensures d == Down || d == Right <==> v.i + v.j == 1
  {
    match d
    case Up => Vec2(-1, 0)
    case Down => Vec2(1, 0)
    case Left => Vec2(0, -1)
    case Right => Vec2(0, 1)
  }

  /** Different directions have different vectors. */
  lemma VecFromDirInjective(d: Direction, e: Direction)
    requires VecFromDir(d) == VecFromDir(e)
    ensures d == e
  {
  }

  /** What `step` needs of a game: rows of equal length and the player on the grid. */
  predicate Indexable(game: CellGame) {
    Rectangular(game.grid) && InGrid(game.grid, game.player.i, game.player.j)
  }

  predicate InBounds(game: CellGame, i: int, j: int) {
    0 <= i < LegacyHelpers.Height(game) && 0 <= j < LegacyHelpers.Width(game)
  }

  /** Where the player steps to, and where a box in that cell is pushed to. */
  function Dest(game: CellGame, dir: Vec2): Vec2 {
    Vec2(game.player.i + dir.i, game.player.j + dir.j)
  }

  function Beyond(game: CellGame, dir: Vec2): Vec2 {
    Vec2(game.player.i + 2 * dir.i, game.player.j + 2 * dir.j)
  }

  predicate IsFree(c: Cell) {
    c == Cell.Floor || c == Cell.Target
  }

  /**
   * The last two writes of `step`: the vacated player cell shows its
   * terrain again and the player appears on the destination.
   */
  function MovePlayer(g: Grid, player: Vec2, ni: int, nj: int, change: GameChangeType): (r: GameUpdate<CellGame>)
    requires InGrid(g, player.i, player.j) && InGrid(g, ni, nj)
    ensures r.NextState? && r.state.player == Vec2(ni, nj) && r.change == change
    ensures |r.state.grid| == |g| && forall i :: 0 <= i < |g| ==> |r.state.grid[i]| == |g[i]|
    ensures IsPlayer(r.state.grid[ni][nj])
  {
    var cur := g[player.i][player.j];
    var g1 := SetCell(g, player.i, player.j, if cur == PlayerOnTarget then Cell.Target else Cell.Floor);
    var destNow := g1[ni][nj];
    var g2 := SetCell(g1, ni, nj, if destNow == Cell.Target then PlayerOnTarget else PlayerOnFloor);
    NextState(CellGame(g2, Vec2(ni, nj)), change)
  }

  /** The body of `step` for an arbitrary displacement `dir`. */
  function Apply(game: CellGame, dir: Vec2): (r: GameUpdate<CellGame>)
    requires Indexable(game)
    ensures r.Error? ==>
              r.message in ["Cannot move out of bounds", "Cannot push block out of bounds",
                            "Cannot push block", "Cannot walk into a wall"]
    ensures r.NextState? ==> r.state.player == Dest(game, dir) && InBounds(game, r.state.player.i, r.state.player.j)
  {
    var n := Dest(game, dir);
    if !InBounds(game, n.i, n.j) then Error("Cannot move out of bounds")
    else
      var dest := game.grid[n.i][n.j];
      if IsBox(dest) then
        var bb := Beyond(game, dir);
        if !InBounds(game, bb.i, bb.j) then Error("Cannot push block out of bounds")
        else
          var beyond := game.grid[bb.i][bb.j];
          if !IsFree(beyond) then Error("Cannot push block")
          else
            MovePlayer(PushBox(game.grid, n, bb), game.player, n.i, n.j, PlayerAndBoxMove)
      else if !IsFree(dest) then Error("Cannot walk into a wall")
      else MovePlayer(game.grid, game.player, n.i, n.j, PlayerMove)
  }

  /** `step`: apply a move action to a game. */
  function Step(game: CellGame, action: UserAction): (r: GameUpdate<CellGame>)
    requires Indexable(game)
    ensures r.NextState? ==> r.state.player == Dest(game, VecFromDir(action.dir))
  {
    Apply(game, VecFromDir(action.dir))
  }

  // ---------------------------------------------------------------------
  // When a move fails
  // ---------------------------------------------------------------------

  /** The step is rejected exactly when the destination is off the grid, a blocked box or neither free nor a box. */
  lemma StepErrorCases(game: CellGame, action: UserAction)
    requires Indexable(game)
    ensures var dir := VecFromDir(action.dir);
            var n := Dest(game, dir);
            var bb := Beyond(game, dir);
            var r := Step(game, action);
            (r == Error("Cannot move out of bounds") <==> !InBounds(game, n.i, n.j)) &&
            (r == Error("Cannot push block out of bounds") <==>
               InBounds(game, n.i, n.j) && IsBox(game.grid[n.i][n.j]) && !InBounds(game, bb.i, bb.j)) &&
            (r == Error("Cannot push block") <==>
               InBounds(game, n.i, n.j) && IsBox(game.grid[n.i][n.j]) && InBounds(game, bb.i, bb.j) &&
               !IsFree(game.grid[bb.i][bb.j])) &&
            (r == Error("Cannot walk into a wall") <==>
               InBounds(game, n.i, n.j) && !IsBox(game.grid[n.i][n.j]) && !IsFree(game.grid[n.i][n.j]))
  {
  }

  /** Whether a step succeeds depends only on the destination and the cell beyond it. */
  predicate Allowed(game: CellGame, dir: Vec2)
    requires Indexable(game)
  {
    var n := Dest(game, dir);
    var bb := Beyond(game, dir);
    InBounds(game, n.i, n.j) &&
    (IsBox(game.grid[n.i][n.j]) ==> InBounds(game, bb.i, bb.j) && IsFree(game.grid[bb.i][bb.j])) &&
    (!IsBox(game.grid[n.i][n.j]) ==> IsFree(game.grid[n.i][n.j]))
  }

  lemma ApplySucceedsIffAllowed(game: CellGame, dir: Vec2)
    requires Indexable(game)
    ensures Apply(game, dir).NextState? <==> Allowed(game, dir)
  {
  }

  /** An allowed step is the push (when the destination holds a box) followed by the player's move. */
  lemma ApplyWhenAllowed(game: CellGame, dir: Vec2)
    requires Indexable(game) && Allowed(game, dir)
    ensures var n := Dest(game, dir);
            var bb := Beyond(game, dir);
            IsBox(game.grid[n.i][n.j]) ==>
              InGrid(game.grid, bb.i, bb.j) && n != bb &&
              Apply(game, dir) == MovePlayer(PushBox(game.grid, n, bb), game.player, n.i, n.j, PlayerAndBoxMove)
    ensures var n := Dest(game, dir);
            !IsBox(game.grid[n.i][n.j]) ==>
              Apply(game, dir) == MovePlayer(game.grid, game.player, n.i, n.j, PlayerMove)
  {
  }

  // ---------------------------------------------------------------------
  // What a successful move does
  // ---------------------------------------------------------------------

  /** A well-formed game: rectangular, and the player's cell is the only cell showing a player. */
  predicate WellFormed(game: CellGame) {
    Indexable(game) && IsPlayer(game.grid[game.player.i][game.player.j]) &&
    forall r, c :: 0 <= r < |game.grid| && 0 <= c < |game.grid[r]| && IsPlayer(game.grid[r][c]) ==>
      r == game.player.i && c == game.player.j
  }

  /**
   * The cell at (x, y) after a successful step, all writes taken together:
   * the player shows on the destination (on a target exactly when the
   * destination's terrain is a target), the vacated cell shows its terrain,
   * a pushed box lands on the cell beyond, and every other cell is kept.
   */
  function NewCell(game: CellGame, dir: Vec2, x: int, y: int): Cell
    requires Indexable(game) && Allowed(game, dir) && InGrid(game.grid, x, y)
  {
    var p := game.player;
    var n := Dest(game, dir);
    var bb := Beyond(game, dir);
    var g := game.grid;
    if (x, y) == (n.i, n.j) then
      (if Under(g[n.i][n.j]) == Terrain.Target then PlayerOnTarget else PlayerOnFloor)
    else if (x, y) == (p.i, p.j) then
      (if g[p.i][p.j] == PlayerOnTarget then Cell.Target else Cell.Floor)
    else if IsBox(g[n.i][n.j]) && (x, y) == (bb.i, bb.j) then
      (if g[bb.i][bb.j] == Cell.Target then BoxOnTarget else BoxOnFloor)
    else g[x][y]
  }

  /** A push puts the box on the cell beyond, which lies on the grid, on the terrain that cell had. */
  lemma NewCellBeyond(game: CellGame, dir: Vec2)
    requires Indexable(game) && Allowed(game, dir) && dir != Vec2(0, 0)
    requires IsBox(game.grid[Dest(game, dir).i][Dest(game, dir).j])
    ensures var bb := Beyond(game, dir);
            InGrid(game.grid, bb.i, bb.j) &&
            NewCell(game, dir, bb.i, bb.j) == (if game.grid[bb.i][bb.j] == Cell.Target then BoxOnTarget else BoxOnFloor)
  {
  }

  /** The two writes of a push: the box lands beyond and its old cell shows its terrain. */
  function PushBox(g: Grid, n: Vec2, bb: Vec2): (r: Grid)
    requires InGrid(g, n.i, n.j) && InGrid(g, bb.i, bb.j) && n != bb
    ensures |r| == |g| && forall k :: 0 <= k < |g| ==> |r[k]| == |g[k]|
    ensures r[bb.i][bb.j] == (if g[bb.i][bb.j] == Cell.Target then BoxOnTarget else BoxOnFloor)
    ensures r[n.i][n.j] == (if g[n.i][n.j] == BoxOnTarget then Cell.Target else Cell.Floor)
    ensures forall x, y :: InGrid(g, x, y) && (x, y) != (n.i, n.j) && (x, y) != (bb.i, bb.j) ==>
              r[x][y] == g[x][y]
  {
    var g1 := SetCell(g, bb.i, bb.j, if g[bb.i][bb.j] == Cell.Target then BoxOnTarget else BoxOnFloor);
    SetCell(g1, n.i, n.j, if g[n.i][n.j] == BoxOnTarget then Cell.Target else Cell.Floor)
  }

  /** The writes of `MovePlayer`, taken together. */
  lemma MovePlayerCells(g: Grid, p: Vec2, n: Vec2, change: GameChangeType)
    requires InGrid(g, p.i, p.j) && InGrid(g, n.i, n.j) && p != n
    ensures var r := MovePlayer(g, p, n.i, n.j, change);
            var g' := r.state.grid;
            r.NextState? && r.state.player == n && r.change == change &&
            |g'| == |g| && (forall k :: 0 <= k < |g| ==> |g'[k]| == |g[k]|) &&
            g'[n.i][n.j] == (if g[n.i][n.j] == Cell.Target then PlayerOnTarget else PlayerOnFloor) &&
            g'[p.i][p.j] == (if g[p.i][p.j] == PlayerOnTarget then Cell.Target else Cell.Floor) &&
            forall x, y :: InGrid(g, x, y) && (x, y) != (n.i, n.j) && (x, y) != (p.i, p.j) ==>
              g'[x][y] == g[x][y]
  {
    var g1 := SetCell(g, p.i, p.j, if g[p.i][p.j] == PlayerOnTarget then Cell.Target else Cell.Floor);
    assert g1[n.i][n.j] == g[n.i][n.j];
  }

  /** The sequence of writes in `step` yields `NewCell` everywhere. */
  lemma ApplyCells(game: CellGame, dir: Vec2)
    requires Indexable(game) && Allowed(game, dir) && dir != Vec2(0, 0)
    ensures var r := Apply(game, dir);
            var g' := r.state.grid;
            r.NextState? && r.state.player == Dest(game, dir) &&
            (r.change == PlayerAndBoxMove <==> IsBox(game.grid[Dest(game, dir).i][Dest(game, dir).j])) &&
            |g'| == |game.grid| && (forall k :: 0 <= k < |g'| ==> |g'[k]| == |game.grid[k]|) &&
            forall x, y :: InGrid(game.grid, x, y) ==> g'[x][y] == NewCell(game, dir, x, y)
  {
    var p := game.player;
    var n := Dest(game, dir);
    var bb := Beyond(game, dir);
    var g := game.grid;
    assert InGrid(g, n.i, n.j) && p != n;
    ApplyWhenAllowed(game, dir);
    if IsBox(g[n.i][n.j]) {
      assert bb != p;
      MovePlayerCells(PushBox(g, n, bb), p, n, PlayerAndBoxMove);
    } else {
      MovePlayerCells(g, p, n, PlayerMove);
    }
  }

  /**
   * A successful step moves the player by `dir`, reports a box move exactly
   * when the destination held a box, and rewrites only the old player cell,
   * the destination and (when pushing) the cell beyond: the player appears
   * on the destination, a pushed box lands on the cell beyond, and the
   * terrain under every cell is unchanged.
   */
  lemma ApplySuccess(game: CellGame, dir: Vec2)
    requires WellFormed(game) && dir != Vec2(0, 0)
    requires Apply(game, dir).NextState?
    ensures var r := Apply(game, dir);
            var p := game.player;
            var n := Dest(game, dir);
            var bb := Beyond(game, dir);
            var pushing := IsBox(game.grid[n.i][n.j]);
            var g := r.state.grid;
            r.state.player == n &&
            (r.change == PlayerAndBoxMove <==> pushing) &&
            |g| == |game.grid| && (forall k :: 0 <= k < |g| ==> |g[k]| == |game.grid[k]|) &&
            IsPlayer(g[n.i][n.j]) && !IsPlayer(g[p.i][p.j]) && !IsBox(g[p.i][p.j]) &&
            (pushing ==> IsBox(g[bb.i][bb.j])) &&
            (forall x, y :: InGrid(game.grid, x, y) ==> Under(g[x][y]) == Under(game.grid[x][y])) &&
            (forall x, y :: (InGrid(game.grid, x, y) && (x, y) != (p.i, p.j) && (x, y) != (n.i, n.j) &&
               (pushing ==> (x, y) != (bb.i, bb.j))) ==> g[x][y] == game.grid[x][y])
  {
    ApplySucceedsIffAllowed(game, dir);
    ApplyCells(game, dir);
  }

  /** g' has the shape of the game's grid and holds `NewCell` everywhere. */
  ghost predicate Describes(game: CellGame, dir: Vec2, g': Grid)
    requires Indexable(game) && Allowed(game, dir)
  {
    |g'| == |game.grid| && (forall k :: 0 <= k < |g'| ==> |g'[k]| == |game.grid[k]|) &&
    forall x, y :: InGrid(game.grid, x, y) ==> g'[x][y] == NewCell(game, dir, x, y)
  }

  lemma NewGridWellFormed(game: CellGame, dir: Vec2, g': Grid)
    requires WellFormed(game) && Allowed(game, dir) && dir != Vec2(0, 0) && Describes(game, dir, g')
    ensures WellFormed(CellGame(g', Dest(game, dir)))
  {
    var n := Dest(game, dir);
    assert InGrid(game.grid, n.i, n.j);
    assert IsPlayer(g'[n.i][n.j]);
  }

  /** A successful step keeps the game well formed. */
  lemma ApplyKeepsWellFormed(game: CellGame, dir: Vec2)
    requires WellFormed(game) && dir != Vec2(0, 0)
    requires Apply(game, dir).NextState?
    ensures WellFormed(Apply(game, dir).state)
  {
    ApplySucceedsIffAllowed(game, dir);
    ApplyCells(game, dir);
    NewGridWellFormed(game, dir, Apply(game, dir).state.grid);
  }

  /** The positions of the box cells of a grid. */
  ghost function BoxCells(g: Grid): set<(int, int)> {
    set r, c | 0 <= r < |g| && 0 <= c < |g[r]| && IsBox(g[r][c]) :: (r, c)
  }

  lemma NewGridBoxCells(game: CellGame, dir: Vec2, g': Grid)
    requires WellFormed(game) && Allowed(game, dir) && dir != Vec2(0, 0) && Describes(game, dir, g')
    ensures var n := Dest(game, dir);
            var bb := Beyond(game, dir);
            if IsBox(game.grid[n.i][n.j])
            then BoxCells(g') == BoxCells(game.grid) - {(n.i, n.j)} + {(bb.i, bb.j)} &&
                 (n.i, n.j) in BoxCells(game.grid) && (bb.i, bb.j) !in BoxCells(game.grid)
            else BoxCells(g') == BoxCells(game.grid)
  {
    var n := Dest(game, dir);
    var bb := Beyond(game, dir);
    var g := game.grid;
    assert InGrid(g, n.i, n.j);
    if IsBox(g[n.i][n.j]) {
      assert InGrid(g, bb.i, bb.j);
      assert IsBox(g'[bb.i][bb.j]);
    }
  }

  /** A successful step keeps the number of boxes: at most one box moves, onto a cell without one. */
  lemma ApplyKeepsBoxCount(game: CellGame, dir: Vec2)
    requires WellFormed(game) && dir != Vec2(0, 0)
    requires Apply(game, dir).NextState?
    ensures |BoxCells(Apply(game, dir).state.grid)| == |BoxCells(game.grid)|
  {
    ApplySucceedsIffAllowed(game, dir);
    ApplyCells(game, dir);
    NewGridBoxCells(game, dir, Apply(game, dir).state.grid);
  }

  /** `step` on a move action is the general rule with the direction's unit vector. */
  lemma StepSuccess(game: CellGame, action: UserAction)
    requires WellFormed(game) && Step(game, action).NextState?
    ensures var r := Step(game, action);
            var v := VecFromDir(action.dir);
            WellFormed(r.state) &&
            r.state.player == Vec2(game.player.i + v.i, game.player.j + v.j) &&
            (r.change == PlayerAndBoxMove <==> IsBox(game.grid[game.player.i + v.i][game.player.j + v.j])) &&
            |BoxCells(r.state.grid)| == |BoxCells(game.grid)|
  {
    var v := VecFromDir(action.dir);
    ApplySuccess(game, v);
    ApplyKeepsWellFormed(game, v);
    ApplyKeepsBoxCount(game, v);
  }
}
