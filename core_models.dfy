/**
 * Value types shared by the rules engine: grid coordinates, directions,
 * user actions, change kinds and the static board of the
 * board-plus-box-list revision (RulesEngine/src/core/models.rs).
 */
module CoreModels {

  datatype Option<T> = None | Some(value: T)

  /** A grid coordinate: row `i`, column `j`. */
  datatype Vec2 = Vec2(i: int, j: int)

  /** The derived ordering of `Vec2`: lexicographic on (i, j), i.e. row-major reading order. */
  predicate Le(a: Vec2, b: Vec2) {
    a.i < b.i || (a.i == b.i && a.j <= b.j)
  }

  predicate Lt(a: Vec2, b: Vec2) {
    a.i < b.i || (a.i == b.i && a.j < b.j)
  }

  datatype Direction = Up | Down | Left | Right

  datatype UserAction = Move(dir: Direction)

  datatype GameChangeType = PlayerMove | PlayerAndBoxMove

  /** The outcome of one move: the next state and what moved, or a rejection message. */
  datatype GameUpdate<S> = NextState(state: S, change: GameChangeType) | Error(message: string)

  /** The static terrain of a board cell. */
  datatype Terrain = Wall | Floor | Target

  /** `SharedGameState`: the immutable board, row by row. */
  datatype Board = Board(grid: seq<seq<Terrain>>)

  /** The game state of the console revision: a list of boxes and the player. */
  datatype ListState = ListState(boxes: seq<Vec2>, player: Vec2)

  /** i32::MAX, the coordinate used as "no position". */
  const I32_MAX: int := 0x7fff_ffff
}
