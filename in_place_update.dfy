/**
 * The in-place move rule of the cell-grid revision (src/core/update.rs):
 * `step` rewrites the rows of the grid and the player's coordinate where
 * they are, and returns early, before any write, when the move is not
 * allowed.
 */
module InPlaceUpdate {
  import opened CoreModels
  import opened CellModels
  import Update

  /** `won`: scan the rows and stop at the first bare target. */
  method Won(grid: seq<seq<Cell>>) returns (won: bool)
    ensures won <==> NoBareTarget(grid)
  {
    for r := 0 to |grid|
      invariant forall x, c :: 0 <= x < r && 0 <= c < |grid[x]| ==>
                  grid[x][c] != Cell.Target && grid[x][c] != PlayerOnTarget
    {
      for c := 0 to |grid[r]|
        invariant forall y :: 0 <= y < c ==> grid[r][y] != Cell.Target && grid[r][y] != PlayerOnTarget
      {
        if grid[r][c] == Cell.Target || grid[r][c] == PlayerOnTarget {
          return false;
        }
      }
    }
    return true;
  }

  /** Overwrite one cell of the grid in place. */
  method Write(grid: array<seq<Cell>>, i: int, j: int, c: Cell)
    requires 0 <= i < grid.Length && 0 <= j < |grid[i]|
    modifies grid
    ensures grid[..] == SetCell(old(grid[..]), i, j, c)
  {
    grid[i] := grid[i][j := c];
  }

  /**
   * `step`: move the player by `dir`, pushing a box in the way. The grid
   * and the returned coordinate are exactly what the functional rule
   * computes on success, and are left as they were on every rejected move.
   */
  method Step(grid: array<seq<Cell>>, player: Vec2, dir: Vec2) returns (player': Vec2)
    requires grid.Length > 0 && Rectangular(grid[..]) && InGrid(grid[..], player.i, player.j)
    modifies grid
    ensures var r := Update.Apply(CellGame(old(grid[..]), player), dir);
            (r.NextState? ==> grid[..] == r.state.grid && player' == r.state.player) &&
            (r.Error? ==> grid[..] == old(grid[..]) && player' == player)
  {
    ghost var game := CellGame(grid[..], player);
    var h := grid.Length;
    var w := |grid[0]|;
    var ni := player.i + dir.i;
    var nj := player.j + dir.j;
    player' := player;
    if ni < 0 || nj < 0 || ni >= h || nj >= w {
      assert Update.Apply(game, dir) == Error("Cannot move out of bounds");
      return;
    }
    var dest := grid[ni][nj];
    var pushing := dest == BoxOnFloor || dest == BoxOnTarget;
    if pushing {
      var bi := ni + dir.i;
      var bj := nj + dir.j;
      if bi < 0 || bj < 0 || bi >= h || bj >= w {
        assert Update.Apply(game, dir) == Error("Cannot push block out of bounds");
        return;
      }
      var beyond := grid[bi][bj];
      if !(beyond == Cell.Floor || beyond == Cell.Target) {
        assert Update.Apply(game, dir) == Error("Cannot push block");
        return;
      }
      Write(grid, bi, bj, if beyond == Cell.Target then BoxOnTarget else BoxOnFloor);
      Write(grid, ni, nj, if dest == BoxOnTarget then Cell.Target else Cell.Floor);
      assert grid[..] == Update.PushBox(game.grid, Vec2(ni, nj), Vec2(bi, bj));
    } else {
      if !(dest == Cell.Floor || dest == Cell.Target) {
        assert Update.Apply(game, dir) == Error("Cannot walk into a wall");
        return;
      }
    }
    assert Update.Allowed(game, dir);
    Update.ApplyWhenAllowed(game, dir);
    player' := MovePlayer(grid, player, ni, nj);
  }

  /** The last two writes of `step`: vacate the player's cell and show the player on (ni, nj). */
  method MovePlayer(grid: array<seq<Cell>>, player: Vec2, ni: int, nj: int) returns (player': Vec2)
    requires InGrid(grid[..], player.i, player.j) && InGrid(grid[..], ni, nj)
    modifies grid
    ensures forall change :: Update.MovePlayer(old(grid[..]), player, ni, nj, change) ==
                             NextState(CellGame(grid[..], player'), change)
  {
    var cur := grid[player.i][player.j];
    Write(grid, player.i, player.j, if cur == PlayerOnTarget then Cell.Target else Cell.Floor);
    var destNow := grid[ni][nj];
    Write(grid, ni, nj, if destNow == Cell.Target then PlayerOnTarget else PlayerOnFloor);
    player' := Vec2(ni, nj);
  }

  /**
   * For a move action the in-place rule and the functional `step` agree:
   * the successes leave the same grid and player, and the failures leave
   * the game as it was.
   */
  method StepAction(grid: array<seq<Cell>>, player: Vec2, action: UserAction) returns (player': Vec2)
    requires grid.Length > 0 && Rectangular(grid[..]) && InGrid(grid[..], player.i, player.j)
    modifies grid
    ensures var r := Update.Step(CellGame(old(grid[..]), player), action);
            (r.NextState? ==> CellGame(grid[..], player') == r.state) &&
            (r.Error? ==> grid[..] == old(grid[..]) && player' == player)
  {
    player' := Step(grid, player, Update.VecFromDir(action.dir));
  }
}
