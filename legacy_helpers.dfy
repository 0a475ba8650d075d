/**
 * Queries of the cell-grid revision (src/core/model_helpers.rs): the win
 * check and the grid dimensions.
 */
module LegacyHelpers {
  import opened CoreModels
  import opened CellModels

  /** `height`: the number of rows. */
  function Height(game: CellGame): (h: nat)
    ensures h == |game.grid|
  {
    |game.grid|
  }

  /** `width`: the length of the first row, 0 for a grid without rows. */
  function Width(game: CellGame): (w: nat)
    ensures game.grid == [] ==> w == 0
    ensures game.grid != [] ==> w == |game.grid[0]|
    ensures Rectangular(game.grid) ==> forall r :: 0 <= r < |game.grid| ==> |game.grid[r]| == w
  {
    if game.grid == [] then 0 else |game.grid[0]|
  }

  /** `GameState::is_won`: scan the rows and stop at the first bare target. */
  method IsWon(game: CellGame) returns (won: bool)
    ensures won <==> NoBareTarget(game.grid)
  {
    var g := game.grid;
    for r := 0 to |g|
      invariant forall x, c :: 0 <= x < r && InGrid(g, x, c) ==> g[x][c] != Cell.Target && g[x][c] != PlayerOnTarget
    {
      for c := 0 to |g[r]|
        invariant forall y :: 0 <= y < c ==> g[r][y] != Cell.Target && g[r][y] != PlayerOnTarget
      {
        if g[r][c] == Cell.Target || g[r][c] == PlayerOnTarget {
          return false;
        }
      }
    }
    return true;
  }
}
