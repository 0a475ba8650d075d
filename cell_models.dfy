/**
 * The seven-variant cell of the cell-grid revision (src/core/models.rs):
 * every cell carries its terrain together with what stands on it.
 */
module CellModels {
  import opened CoreModels

  datatype Cell =
    | Wall
    | Floor
    | Target
    | BoxOnFloor
    | BoxOnTarget
    | PlayerOnFloor
    | PlayerOnTarget

  type Grid = seq<seq<Cell>>

  /** The game state of the cell-grid revision: the whole grid and the player's coordinate. */
  datatype CellGame = CellGame(grid: Grid, player: Vec2)

  predicate IsBox(c: Cell) {
    c == BoxOnFloor || c == BoxOnTarget
  }

  predicate IsPlayer(c: Cell) {
    c == PlayerOnFloor || c == PlayerOnTarget
  }

  /** The terrain underneath whatever stands on the cell. */
  function Under(c: Cell): Terrain {
    match c
    case Wall => Terrain.Wall
    case Floor | BoxOnFloor | PlayerOnFloor => Terrain.Floor
    case Target | BoxOnTarget | PlayerOnTarget => Terrain.Target
  }

  /** All rows have the length of the first row. */
  predicate Rectangular(g: Grid) {
    forall r :: 0 <= r < |g| ==> |g[r]| == |g[0]|
  }

  predicate InGrid(g: Grid, i: int, j: int) {
    0 <= i < |g| && 0 <= j < |g[i]|
  }

  /** The grid with the cell at (i, j) replaced by c. */
  function SetCell(g: Grid, i: int, j: int, c: Cell): (r: Grid)
    requires InGrid(g, i, j)
    ensures |r| == |g| && forall k :: 0 <= k < |g| ==> |r[k]| == |g[k]|
    ensures r[i][j] == c
    ensures forall x, y :: InGrid(g, x, y) && (x, y) != (i, j) ==> r[x][y] == g[x][y]
  {
    g[i := g[i][j := c]]
  }

  /** Grids with the same shape and the same cells are equal. */
  lemma SameCellsSameGrid(g: Grid, h: Grid)
    requires |g| == |h| && forall r :: 0 <= r < |g| ==> |g[r]| == |h[r]|
    requires forall r, c :: 0 <= r < |g| && 0 <= c < |g[r]| ==> g[r][c] == h[r][c]
    ensures g == h
  {
    forall r | 0 <= r < |g|
      ensures g[r] == h[r]
    {
      assert forall c :: 0 <= c < |g[r]| ==> g[r][c] == h[r][c];
    }
  }

  /** No cell shows a target without a box on it: neither `Target` nor `PlayerOnTarget`. */
  predicate NoBareTarget(g: Grid) {
    forall r, c :: 0 <= r < |g| && 0 <= c < |g[r]| ==> g[r][c] != Cell.Target && g[r][c] != PlayerOnTarget
  }

  /** The grid is won exactly when every target cell carries a box. */
  lemma NoBareTargetMeansTargetsCovered(g: Grid)
    ensures NoBareTarget(g) <==>
            forall r, c :: InGrid(g, r, c) && Under(g[r][c]) == Terrain.Target ==> g[r][c] == BoxOnTarget
  {
    if !NoBareTarget(g) {
      var r, c :| 0 <= r < |g| && 0 <= c < |g[r]| && (g[r][c] == Cell.Target || g[r][c] == PlayerOnTarget);
      assert Under(g[r][c]) == Terrain.Target && g[r][c] != BoxOnTarget;
    }
  }
}
