# Sokoban state-space analyser, modelled in Dafny

This project models the discrete half of Sokobauto, a Sokoban analyser.
It covers the move rules, the level text format, the box-list state, and the
graph of every reachable state with its post-processing. The model is in
Dafny 4.11 and proofs are attached to it.

The repository has two revisions and the model keeps both.

- **The cell-grid revision** (`src/…`, and `RulesEngine/src/core/update.rs`).
  A game is a grid of seven-variant cells. Each cell says both what ground
  it is and what stands on it.
  - `Update` is the move rule that returns a new grid.
  - `InPlaceUpdate` is the move rule that rewrites the grid in place.
    A lemma shows the two agree.
  - `CellModels` and `LegacyHelpers` hold the cells and the win checks.
  - `LegacyConsole` is the older level parser, the cell-to-symbol table and
    the key decoder.
  - `LegacyGraphs` and `LegacyPopulate` are the older state graph, keyed by
    whole games.
- **The board-plus-environment revision** (`RulesEngine/src/…`).
  A static board of walls, floor and targets is paired with a
  `GameStateEnvironment`.
  - `GameStateEnvironment` is a fixed array of box slots, padded with a
    sentinel and kept sorted; it is modelled in `Environments`.
  - `CoreModels`, `Bounds` and `BoundedGrids` are the shared value types and
    grid containers.
  - `ModelHelpers` has the board queries and the flood fill of the player's
    region.
  - `Heuristics` is the corner-deadlock heuristic.
  - `BoardUpdate` is the move rule read against board and environment.
  - `ConsoleInterface` is the level parser and renderer, with their round
    trip.
  - `UniqueNodes` is the canonical node: boxes plus the least reachable
    player cell.
  - `StateGraphs` and `Populate` are the state graph and the successor
    search.
  - `GraphTrim` keeps only the states from which a win is reachable.
  - `GraphCompress` is the box-only graph.
  - `JsonExport` is the record mapping of the JSON export.
  - `GraphCompute` holds the viewer's neighbour and index tables.
  - `TileRender` is the viewer's tile container.
  - `Enumerations` is the iteration orders of hash collections.

How each kind of source code is modelled:

- **Imperative code.** Loops and in-place updates become methods with loop
  invariants, proved against specification functions. The state graphs and
  the tile container are classes whose methods keep the graph's invariants.
  One invariant is that an id is unvisited exactly when its metadata says
  so.
- **Pure code.** Matches and iterator pipelines become functions, with
  lemmas for the properties the code relies on.

Four behaviours of the source are modelled as written:

- `GameStateEnvironment::new` asserts at most 15 boxes, but its array has
  `BOX_COUNT` = 8 slots. The model requires at most `BOX_COUNT` boxes,
  which is what the code can actually hold.
- `get_box_only_graph` drops an edge when the rewritten source equals the
  edge's original target. It does not compare with the rewritten target.
  `GraphCompress.MergedMoveBecomesLoop` exhibits the resulting self-loop.
- The older `populate_step` expands the "first" unvisited id in hash-map
  order. The model expands some unvisited id.
- Both `parse_level`s pad every row to the widest line as `line.len()`
  measures it, in UTF-8 bytes, while a row holds one cell per character.
  A line with a character outside ASCII therefore widens every row
  (`ConsoleInterface.WideCharacterWidensRows`); for level text, which is
  ASCII, bytes and characters agree.

## Model

| member | source | states |
|---|---|---|
| Bounds.EmptyExtentContainsNothing | RulesEngine/src/core/bounds.rs:16-18 | with a zero or negative extent on either axis no point is contained |
| Bounds.RowSize | RulesEngine/src/core/bounds.rs:16-18 | one row of a box of width w holds exactly w integer points |
| Bounds.RowRectMembers | RulesEngine/src/core/bounds.rs:16-18 | a point is in the enumerated row or rectangle exactly when its coordinates are in range |
| Bounds.RectSplit | RulesEngine/src/core/bounds.rs:16-22 | a rectangle of height h is the rectangle of height h-1 plus its last row, and the two are disjoint |
| Bounds.RectSize | RulesEngine/src/core/bounds.rs:20-22 | a w by h rectangle holds exactly w*h integer points |
| Bounds.ContainedPointsNumberArea | RulesEngine/src/core/bounds.rs:16-22 | for a non-negative extent, the points `contains` accepts are exactly the rectangle's, and there are `area` of them |
| BoundedGrids.ContainedIndexInRange | RulesEngine/src/core/bounded_grid.rs:45-56 | a contained position's row-major index `y*extent.x + x` lies in [0, area) |
| BoundedGrids.ContainedIndexInjective | RulesEngine/src/core/bounded_grid.rs:45-56 | two contained positions with the same row-major index are equal |
| BoundedGrids.OtherCellsDistinct | RulesEngine/src/core/bounded_grid.rs:53-56 | every other contained position has an in-range index different from p's |
| BoundedGrids.BoundedGrid.constructor | RulesEngine/src/core/bounded_grid.rs:18-27 | `new` allocates exactly `area` cells, all equal to the default, and keeps the bounds |
| BoundedGrids.BoundedGrid.Size | RulesEngine/src/core/bounded_grid.rs:29-31 | definition: `size` returns the construction bounds |
| BoundedGrids.BoundedGrid.Get | RulesEngine/src/core/bounded_grid.rs:33-42 | `get` is `None` exactly for positions outside the bounds, and otherwise the cell at the position's index |
| BoundedGrids.BoundedGrid.Put | RulesEngine/src/core/bounded_grid.rs:53-56 | writing through `IndexMut` sets the cell at p and leaves every other contained cell as it was |
| CellModels.SetCell | src/core/update.rs:44-69 | a single cell write changes that cell, keeps the grid's shape and every other cell |
| CellModels.SameCellsSameGrid | src/core/models.rs:1-10 | two grids of the same shape with the same cells are equal |
| CellModels.NoBareTargetMeansTargetsCovered | src/core/update.rs:4-14 | no cell is `Target` or `PlayerOnTarget` exactly when every cell whose terrain is a target holds a box |
| Update.VecFromDir | RulesEngine/src/core/update.rs:74-81 | each direction gives a unit axis vector: Up/Down move along i, Left/Right along j, Down and Right are positive |
| Update.VecFromDirInjective | RulesEngine/src/core/update.rs:74-81 | distinct directions give distinct vectors |
| Update.StepErrorCases | RulesEngine/src/core/update.rs:12-47 | each of the four error messages is returned exactly under its own condition: destination out of bounds; box with the cell beyond out of bounds; box with the cell beyond not `Floor`/`Target`; no box and the destination not `Floor`/`Target` |
| Update.MovePlayer | RulesEngine/src/core/update.rs:49-71 | the player ends on the destination, shown as a player cell, with the given change type and the grid's shape kept |
| Update.Apply | RulesEngine/src/core/update.rs:12-71 | the body of `step` fails only with one of its four messages, and on success the player is on the in-bounds destination |
| Update.Step | RulesEngine/src/core/update.rs:4-72 | on success the player has moved by the action's unit vector |
| Update.ApplySucceedsIffAllowed | RulesEngine/src/core/update.rs:12-47 | the step succeeds exactly when none of the error conditions holds |
| Update.ApplyWhenAllowed | RulesEngine/src/core/update.rs:21-71 | an allowed push is the box write followed by the player move as `PlayerAndBoxMove`; an allowed walk is the player move alone as `PlayerMove` |
| Update.PushBox | RulesEngine/src/core/update.rs:34-42 | the box lands as `BoxOnTarget` exactly on a `Target`, the vacated box cell reverts to the terrain beneath it, nothing else changes |
| Update.MovePlayerCells | RulesEngine/src/core/update.rs:49-71 | the player lands as `PlayerOnTarget` exactly on a `Target`, the old player cell reverts to its terrain, nothing else changes, and the player field is the destination |
| Update.ApplyCells | RulesEngine/src/core/update.rs:18-71 | on success the player is at the destination, the change is `PlayerAndBoxMove` exactly when the destination held a box, and every cell is the one the rewrite rule gives |
| Update.ApplySuccess | RulesEngine/src/core/update.rs:18-71 | on success: terrain is unchanged everywhere, the player stands on the destination, the box (if pushed) is beyond it, and every cell other than the player, destination and beyond cells is unchanged |
| Update.NewGridWellFormed | RulesEngine/src/core/update.rs:34-59 | the rewritten grid of an allowed move is again rectangular with exactly one player, at the destination |
| Update.ApplyKeepsWellFormed | RulesEngine/src/core/update.rs:18-71 | a successful step maps a well-formed game to a well-formed game |
| Update.NewGridBoxCells | RulesEngine/src/core/update.rs:34-42 | a push moves one box cell from the destination to the cell beyond; a walk keeps the box cells |
| Update.ApplyKeepsBoxCount | RulesEngine/src/core/update.rs:34-42 | a successful step keeps the number of box cells |
| Update.StepSuccess | RulesEngine/src/core/update.rs:4-72 | a successful `step` leaves the player at old position plus `vec_from_dir`, reports `PlayerAndBoxMove` exactly for a push, keeps the box count and well-formedness |
| InPlaceUpdate.Won | src/core/update.rs:4-14 | `won` is true exactly when no cell is `Target` or `PlayerOnTarget` |
| InPlaceUpdate.Write | src/core/update.rs:44-69 | one in-place cell write is the single-cell update of the grid |
| InPlaceUpdate.Step | src/core/update.rs:16-73 | the in-place `step` leaves grid and player exactly as the functional step computes on success, and unchanged on every rejected move (out of bounds, failed push, wall) |
| InPlaceUpdate.MovePlayer | src/core/update.rs:59-72 | the in-place player move gives the same grid and player as the functional player move |
| InPlaceUpdate.StepAction | src/core/update.rs:16-73 | the in-place step for a key's direction agrees with the functional `step` (RulesEngine/src/core/update.rs:4-72) on the same game |
| LegacyHelpers.Height | src/core/model_helpers.rs:15-17 | definition: `height` is the number of rows |
| LegacyHelpers.Width | src/core/model_helpers.rs:19-25 | `width` is the length of the first row, 0 for an empty grid, and the length of every row of a rectangular grid |
| LegacyHelpers.IsWon | src/core/model_helpers.rs:4-13 | `is_won` is true exactly when no cell is `Target` or `PlayerOnTarget`, the same predicate `won` decides |
| ModelHelpers.AddSubInverse | RulesEngine/src/core/model_helpers.rs:182-201 | `Vec2` subtraction undoes addition and vice versa |
| ModelHelpers.NeighborsAreUnitSteps | RulesEngine/src/core/model_helpers.rs:168-175 | q is one of p's four `neighbors` exactly when it is one orthogonal step away, and the relation is symmetric |
| ModelHelpers.Neighbors | RulesEngine/src/core/model_helpers.rs:168-175 | `neighbors` gives four distinct positions, each one orthogonal step away |
| ModelHelpers.AllActions | RulesEngine/src/core/model_helpers.rs:142-149 | `all_actions` lists the four moves once each, in the order up, down, left, right |
| ModelHelpers.AllPushActionsAround | RulesEngine/src/core/model_helpers.rs:151-158 | four push actions, each standing the player on a neighbour of the box |
| BoardUpdate.PushActionsAim | RulesEngine/src/core/model_helpers.rs:151-158 | for each push action, the player's cell plus `vec_from_dir` of its move is the box position |
| ModelHelpers.AreaOf | RulesEngine/src/core/model_helpers.rs:28-33 | definition: `area` is (height, width) of the board |
| ModelHelpers.TargetsMembership | RulesEngine/src/core/model_helpers.rs:35-48 | the collected target positions are exactly the board's `Target` cells |
| ModelHelpers.TargetsBeforeMembership | RulesEngine/src/core/model_helpers.rs:38-45 | after the scan has reached (i, j), the positions collected are exactly the targets before it in reading order |
| ModelHelpers.HelperIsWon | RulesEngine/src/core/model_helpers.rs:10-12 | `WonCheckHelper::is_won` holds exactly when every stored target position is among the box slots |
| ModelHelpers.GetWonCheckHelper | RulesEngine/src/core/model_helpers.rs:35-48 | the helper's list holds exactly the `Target` cells, strictly increasing, and its win check agrees with "every target holds a box" for every environment |
| ModelHelpers.SortKeepsStrictlyIncreasing | RulesEngine/src/core/model_helpers.rs:46 | sorting the already increasing target list leaves it as it is |
| ModelHelpers.IsWon | RulesEngine/src/core/model_helpers.rs:50-62 | `is_won` is true exactly when every `Target` cell holds a box, so it agrees with the helper's check |
| ModelHelpers.CountBoxesOnGoals | RulesEngine/src/core/model_helpers.rs:64-77 | the count is the number of `Target` cells whose position is in the box list, so at most the number of targets |
| ModelHelpers.InsideIsContained | RulesEngine/src/core/model_helpers.rs:177-179 | `inside(area)` is `contains` of the bounds with that extent, after swapping (i, j) to (y, x) |
| ModelHelpers.Inside | RulesEngine/src/core/model_helpers.rs:177-179 | `inside` holds only for areas that are non-empty on both axes |
| ModelHelpers.IsWalkable | RulesEngine/src/core/model_helpers.rs:210-214 | a cell is walkable exactly when it is floor or a target |
| ModelHelpers.StartReachable | RulesEngine/src/core/model_helpers.rs:99-113 | the player's own cell, when open, is reachable |
| ModelHelpers.ReachableStep | RulesEngine/src/core/model_helpers.rs:107-122 | an open neighbour of a reachable cell is reachable |
| ModelHelpers.ReachableIsOpenOrStart | RulesEngine/src/core/model_helpers.rs:107-122 | every reachable cell is the start or an open (in bounds, walkable, box-free) cell |
| ModelHelpers.ClosedSetHoldsWalk | RulesEngine/src/core/model_helpers.rs:107-122 | a set closed under open neighbours that holds the start of a walk holds its end |
| ModelHelpers.CellsMembership | RulesEngine/src/core/model_helpers.rs:177-179 | the enumerated cells of an area are exactly the positions `inside` it |
| ModelHelpers.MarkBoxes | RulesEngine/src/core/model_helpers.rs:100-105 | after marking, the visitation grid flags exactly the box cells as blocked, nothing visited |
| ModelHelpers.PushIfOpen | RulesEngine/src/core/model_helpers.rs:114-121 | a neighbour is pushed only if not yet flagged; an open neighbour ends up visited or on the stack |
| ModelHelpers.PushOpenNeighbors | RulesEngine/src/core/model_helpers.rs:114-121 | the stack only grows, holds reachable cells, and every open neighbour of the popped cell is visited or on it |
| ModelHelpers.SkipKeepsInvariant | RulesEngine/src/core/model_helpers.rs:107-111 | popping an already visited or blocked cell keeps the search invariant |
| ModelHelpers.VisitKeepsInvariant | RulesEngine/src/core/model_helpers.rs:107-122 | visiting a fresh cell keeps the search invariant and leaves fewer unvisited cells |
| ModelHelpers.FillStep | RulesEngine/src/core/model_helpers.rs:107-122 | one iteration of the `while let` loop keeps the fill invariant and makes progress (fewer unvisited cells, or the same visits and a shorter stack) |
| ModelHelpers.VisitAllReachablePositions | RulesEngine/src/core/model_helpers.rs:97-123 | the flood fill reports each position at most once, and exactly the cells 4-connected to the player through open cells, start included |
| ModelHelpers.ReachableSetMembership | RulesEngine/src/core/model_helpers.rs:79-85 | the reachable set is exactly the reachable positions |
| ModelHelpers.DistinctCard | RulesEngine/src/core/model_helpers.rs:79-85 | a list without repeats has as many elements as its set |
| ModelHelpers.ReachablePositions | RulesEngine/src/core/model_helpers.rs:79-85 | `reachable_positions` lists exactly the reachable positions, without duplicates |
| ModelHelpers.LeastExists | RulesEngine/src/core/model_helpers.rs:87-95 | a non-empty set of positions has a least element in (i, j) order |
| ModelHelpers.LeastUnique | RulesEngine/src/core/model_helpers.rs:87-95 | that least element is unique |
| ModelHelpers.LeastOf | RulesEngine/src/core/model_helpers.rs:87-95 | folding with `min` from (MAX, MAX) gives (MAX, MAX) for an empty list and otherwise a member below or equal to all |
| ModelHelpers.MinReachablePosition | RulesEngine/src/core/model_helpers.rs:87-95 | `min_reachable_position` is the least reachable position, and the (MAX, MAX) sentinel exactly when nothing is reachable |
| Environments.ToVec2 | RulesEngine/src/core/game_state_environment.rs:20-22 | definition: converting an `IVec2` takes the row i from y and the column j from x |
| Environments.StorableBelowEmpty | RulesEngine/src/core/game_state_environment.rs:13 | every position in `i8` range other than the sentinel orders strictly before `EMPTY_BOX` |
| Environments.Insert | RulesEngine/src/core/game_state_environment.rs:55-59 | inserting adds exactly one occurrence of the element |
| Environments.InsertKeepsSorted | RulesEngine/src/core/game_state_environment.rs:55-59 | inserting into a sorted sequence keeps it sorted |
| Environments.Sort | RulesEngine/src/core/game_state_environment.rs:55-59 | the reference sort is sorted and a permutation of its input |
| Environments.HeadIsLeast | RulesEngine/src/core/game_state_environment.rs:55-59 | the head of a sorted sequence is at most every element |
| Environments.TailMultiset | RulesEngine/src/core/game_state_environment.rs:55-59 | dropping the head removes one occurrence of it |
| Environments.SortedPermutationUnique | RulesEngine/src/core/game_state_environment.rs:55-59 | two sorted permutations of each other are equal, so any sort gives the same array |
| Environments.Swap | RulesEngine/src/core/game_state_environment.rs:57 | exchanging two slots is a permutation that changes only those two slots |
| Environments.InsertInPlace | RulesEngine/src/core/game_state_environment.rs:57 | one insertion step extends the sorted prefix by one slot, keeps the rest and permutes the array |
| Environments.CompleteMoves | RulesEngine/src/core/game_state_environment.rs:55-59 | `complete_moves` sorts the slot array in place into a permutation of itself, equal to the reference sort |
| Environments.Filled | RulesEngine/src/core/game_state_environment.rs:19-22 | the filled array has `BOX_COUNT` slots, the boxes first and `EMPTY_BOX` in every other slot |
| Environments.Completed | RulesEngine/src/core/game_state_environment.rs:55-59 | the completed environment is sorted and holds the same slots |
| Environments.ConvertAll | RulesEngine/src/core/game_state_environment.rs:20-22 | each box is converted in place |
| Environments.FillSlots | RulesEngine/src/core/game_state_environment.rs:19-22 | the loop writes the converted boxes into a fresh array of sentinels |
| Environments.New | RulesEngine/src/core/game_state_environment.rs:16-28 | `new` is fill then sort; with boxes in `i8` range the result is sorted and padded and `iter_boxes` yields exactly the input boxes, in sorted order |
| Environments.FromBoxesFacts | RulesEngine/src/core/game_state_environment.rs:16-28 | the same facts about the value `new` computes, for use by functions |
| Environments.FromBoxes | RulesEngine/src/core/game_state_environment.rs:16-28 | the value `new` builds is `BOX_COUNT` sorted slots holding the boxes and the sentinel padding |
| Environments.IterBoxes | RulesEngine/src/core/game_state_environment.rs:36-38 | `iter_boxes` is the prefix of the slots before the first `EMPTY_BOX`, and holds no sentinel |
| Environments.NewEmpty | RulesEngine/src/core/game_state_environment.rs:30-34 | `new_empty` holds only sentinels and yields no boxes |
| Environments.TakeLive | RulesEngine/src/core/game_state_environment.rs:36-38 | `iter_boxes` is the longest sentinel-free prefix: it stops at the first `EMPTY_BOX` or the end |
| Environments.HasBoxAt | RulesEngine/src/core/game_state_environment.rs:40-43 | `has_box_at(p)` holds exactly when p sits in a slot with no sentinel before it; p may not be the sentinel |
| Environments.FirstIndex | RulesEngine/src/core/game_state_environment.rs:47 | `position` finds the first occurrence, and `None` exactly when there is none |
| Environments.IndexOfBoxAt | RulesEngine/src/core/game_state_environment.rs:45-48 | `index_of_box_at(p)` is `None` exactly when p is not a live box and otherwise the first live slot holding p |
| Environments.SetBox | RulesEngine/src/core/game_state_environment.rs:50-53 | `set_box(k, p)` writes p into slot k and changes no other slot, without re-sorting |
| Environments.TakeLiveOfPadded | RulesEngine/src/core/game_state_environment.rs:36-38 | the live boxes of sentinel-free boxes followed by padding are those boxes |
| Environments.SortOfFilled | RulesEngine/src/core/game_state_environment.rs:16-28 | sorting the filled array puts the sorted boxes first and the sentinels after them |
| Environments.SortedThenPadding | RulesEngine/src/core/game_state_environment.rs:13 | a sorted sequence below the sentinel followed by sentinels is sorted |
| Environments.SortedStorableHasNoSentinel | RulesEngine/src/core/game_state_environment.rs:13 | sorting boxes in range introduces no sentinel and keeps their number |
| Environments.NewYieldsSortedInput | RulesEngine/src/core/game_state_environment.rs:16-38 | after `new`, `iter_boxes` yields the input boxes, sorted, and the array is sorted and padded |
| Environments.HasBoxAtAfterNew | RulesEngine/src/core/game_state_environment.rs:16-43 | after `new`, `has_box_at(p)` holds exactly for the input boxes |
| Environments.OrderIndependent | RulesEngine/src/core/game_state_environment.rs:62-75 | environments built from permutations of the same boxes are equal, compare equal and feed the same values to the hasher |
| Environments.EqualityIgnoresTail | RulesEngine/src/core/game_state_environment.rs:62-75 | equality and hashing look only at the slots before the first `EMPTY_BOX` |
| Environments.EnvEq | RulesEngine/src/core/game_state_environment.rs:70-75 | `eq` is reflexive, and equal environments feed the hasher the same values, as `Hash` with `Eq` requires |
| Environments.HashFeed | RulesEngine/src/core/game_state_environment.rs:62-68 | `hash` feeds the live prefix of the slots, with no sentinel |
| Environments.LiveUpToFirstSentinel | RulesEngine/src/core/game_state_environment.rs:36-38 | the live boxes are exactly the slots before the first sentinel |
| Environments.NormalEqualityIsStructural | RulesEngine/src/core/game_state_environment.rs:70-75 | for sorted, padded environments, `eq` coincides with equality of the whole array |
| Environments.MoveBoxThenComplete | RulesEngine/src/core/game_state_environment.rs:50-59 | `set_box` followed by `complete_moves` gives the environment `new` builds from the updated box list |
| Heuristics.IsBoxTrapped | RulesEngine/src/core/heuristics.rs:42-61 | `is_box_trapped` is true exactly when the box is off every target and two cyclically consecutive sides (Down, Right, Up, Left) are not walkable; a box on a target is never trapped |
| Heuristics.TrappedIffCorner | RulesEngine/src/core/heuristics.rs:12-60 | trapped means off-target and blocked on Down+Right, Right+Up, Up+Left or Left+Down |
| Heuristics.OppositeSidesDoNotTrap | RulesEngine/src/core/heuristics.rs:49-60 | with walkable cells left and right, a box is not trapped, however up and down look |
| Heuristics.TrappedCountBounded | RulesEngine/src/core/heuristics.rs:24-31 | trapped boxes plus free boxes equal all boxes |
| Heuristics.TrappedMemberCounts | RulesEngine/src/core/heuristics.rs:24-29 | one trapped box makes the trapped count positive |
| Heuristics.TotalTargets | RulesEngine/src/core/heuristics.rs:32 | `total_targets` counts the `Target` cells of the board |
| Heuristics.IsWinnable | RulesEngine/src/core/heuristics.rs:20-39 | `is_winnable` is `WinMaybePossible` exactly when free boxes are at least the targets, and `WinImpossible` otherwise |
| Heuristics.TrappedBoxDefeats | RulesEngine/src/core/heuristics.rs:20-39 | with no more boxes than targets, one trapped box makes the level `WinImpossible` |
| BoardUpdate.InsideIsStorable | RulesEngine/src/core/game_state_environment.rs:13 | on a board of at most 127 rows and columns every cell fits the `i8` `Vec2` and differs from the sentinel |
| BoardUpdate.HasBoxAtIsMembership | RulesEngine/src/core/game_state_environment.rs:40-43 | `has_box_at` is membership among `iter_boxes` |
| BoardUpdate.StepErrorCases | RulesEngine/src/core/update.rs:12-47 | the board `step` returns each of the four error messages exactly in its situation, with boxes read from the environment and walls from the board |
| BoardUpdate.Step | RulesEngine/src/core/update.rs:4-72 | the board `step` moves the player by the action's vector onto the board, keeps the environment on a walk, and fails only with the four messages |
| BoardUpdate.StepCases | RulesEngine/src/core/update.rs:12-71 | the board `step` succeeds exactly when no rejection applies; a walk keeps the environment, a push moves the box with `set_box` then `complete_moves` |
| BoardUpdate.SortedEdit | RulesEngine/src/core/game_state_environment.rs:50-59 | re-sorting after one slot edit replaces one occurrence of the old box by the new one |
| BoardUpdate.PushedIsSortedEdit | RulesEngine/src/core/game_state_environment.rs:45-59 | the pushed environment's live boxes are the sorted, edited live boxes, and it stays sorted and padded |
| BoardUpdate.PushedBoxes | RulesEngine/src/core/game_state_environment.rs:45-59 | a push keeps the number of boxes and swaps the pushed box's old position for its new one |
| BoardUpdate.StepSuccess | RulesEngine/src/core/update.rs:18-71 | on success the player is at the destination, the change is `PlayerAndBoxMove` exactly for a push, and the box multiset changes by exactly the pushed box |
| BoardUpdate.Opposite | RulesEngine/src/core/update.rs:74-81 | the opposite direction has the negated vector |
| BoardUpdate.WalkBackRestores | RulesEngine/src/core/update.rs:12-71 | a walk followed by a walk in the opposite direction returns to the starting state |
| BoardUpdate.PlayerOn | RulesEngine/src/core/update.rs:55-59 | the cell-grid cell showing the player on a terrain |
| BoardUpdate.BoxOn | RulesEngine/src/core/update.rs:35-39 | the cell-grid cell showing a box on a terrain |
| BoardUpdate.Bare | RulesEngine/src/core/update.rs:42-52 | the cell-grid cell showing bare terrain |
| BoardUpdate.CellAt | RulesEngine/src/core/update.rs:18-19 | the cell-grid view of one position keeps its board terrain |
| BoardUpdate.Encode | RulesEngine/src/core/update.rs:4-6 | the cell grid of a board and state has the board's shape, the same player and each cell drawn from terrain, box and player |
| BoardUpdate.ConsistentIsIndexable | RulesEngine/src/core/update.rs:12-16 | the encoded grid is indexable, with the same bounds as the board |
| BoardUpdate.ConsistentBoxesStorable | RulesEngine/src/core/game_state_environment.rs:13 | the boxes of a consistent state are all in `i8` range |
| BoardUpdate.InspectedCells | RulesEngine/src/core/update.rs:12-47 | the destination and beyond cells the two steps inspect agree: same bounds, a box in the grid exactly when in the environment, free exactly when walkable and box-free |
| BoardUpdate.ErrorsAgree | RulesEngine/src/core/update.rs:12-47 | the board step and the cell-grid step reject the same moves with the same message |
| BoardUpdate.PushedMembership | RulesEngine/src/core/update.rs:23-42 | after a push the live boxes are the old ones without the destination, plus the beyond cell |
| BoardUpdate.StepKeepsConsistent | RulesEngine/src/core/update.rs:4-72 | a successful board step keeps the state consistent with its board |
| BoardUpdate.CellAgrees | RulesEngine/src/core/update.rs:34-59 | each cell of the encoded new state equals the cell the cell-grid rewrite writes |
| BoardUpdate.GridAgrees | RulesEngine/src/core/update.rs:34-59 | the whole rewritten grid equals the encoding of the new board state |
| BoardUpdate.BoardSuccess | RulesEngine/src/core/update.rs:18-71 | a successful board step moves the player to the destination and, for a push, moves exactly one box to the cell beyond |
| BoardUpdate.SuccessAgrees | RulesEngine/src/core/update.rs:4-72 | on success both steps give the same new state (after encoding) and the same change type |
| BoardUpdate.StepsAgree | RulesEngine/src/core/update.rs:4-72 | the board step and the cell-grid step agree on every consistent state: same rejections and messages, same successors |
| ConsoleInterface.NewlineAt | RulesEngine/src/console_interface.rs:23 | the first line ends at the first `\n`, or the end of the text |
| ConsoleInterface.Lines | RulesEngine/src/console_interface.rs:23 | `str::lines` gives lines without line feeds, and none exactly for the empty text |
| ConsoleInterface.MaxLen | RulesEngine/src/console_interface.rs:20 | `max_width` is at least every line's UTF-8 byte length (and so its character count), 0 without lines, and otherwise the byte length of some line |
| ConsoleInterface.Utf8Width | RulesEngine/src/console_interface.rs:20 | UTF-8 stores a character in one to four bytes by code point, and in one byte exactly when it is ASCII |
| ConsoleInterface.ByteLen | RulesEngine/src/console_interface.rs:20 | `line.len()`, the sum of the characters' UTF-8 widths, is at least the number of characters |
| ConsoleInterface.ByteLenIsLength | RulesEngine/src/console_interface.rs:20 | a line's byte length equals its character count exactly when every character is ASCII |
| ConsoleInterface.ParseRow | RulesEngine/src/console_interface.rs:29-66 | each character of a line gives one terrain cell by the character table |
| ConsoleInterface.ReadRow | RulesEngine/src/console_interface.rs:29-66 | the character loop builds the row, appends the line's boxes and takes the line's last player mark |
| ConsoleInterface.PadRow | RulesEngine/src/console_interface.rs:67-70 | the padding loop extends the row with `Floor` to the maximum width |
| ConsoleInterface.ParseLevel | RulesEngine/src/console_interface.rs:16-84 | `parse_level` computes the board and the state the line-by-line definition gives, padding to the widest line in UTF-8 bytes |
| ConsoleInterface.ParsedBoardShape | RulesEngine/src/console_interface.rs:20-72 | one row per non-blank line, each as long as the widest line in UTF-8 bytes (`MaxLen`), holding the parsed characters and then `Floor` |
| ConsoleInterface.WideCharacterWidensRows | RulesEngine/src/console_interface.rs:20-72 | a line holding one two-byte character, then a line `#`, parse to two rows of two cells: the byte width pads past the character count |
| ConsoleInterface.TwoLinesWidth | RulesEngine/src/console_interface.rs:20-26 | those two lines are both kept and their widest byte length is 2 |
| ConsoleInterface.TwoLinesGrid | RulesEngine/src/console_interface.rs:29-72 | padded to width 2 they give `[Floor, Floor]` and `[Wall, Floor]` |
| ConsoleInterface.LinesOfTwoLines | RulesEngine/src/console_interface.rs:23 | `lines` splits two lines joined by one line feed into those two lines |
| ConsoleInterface.NonEmptyAreLines | RulesEngine/src/console_interface.rs:23-27 | the kept rows are non-blank lines of the text |
| ConsoleInterface.RowBoxesMembership | RulesEngine/src/console_interface.rs:35-48 | a line's boxes are exactly its `$`/`*` positions, left to right |
| ConsoleInterface.BoxesMembership | RulesEngine/src/console_interface.rs:35-48 | the boxes are exactly the `$`/`*` positions, in strictly increasing reading order |
| ConsoleInterface.ParsedBoxes | RulesEngine/src/console_interface.rs:18-72 | after parsing, the box list holds exactly the `$`/`*` positions of the non-blank lines, in reading order |
| ConsoleInterface.RowPlayerIsLastMark | RulesEngine/src/console_interface.rs:49-62 | a line without `@`/`+` keeps the player; otherwise the player is its last mark |
| ConsoleInterface.PlayerIsLastMark | RulesEngine/src/console_interface.rs:18-62 | with no mark the player stays at the start; otherwise it is the last `@`/`+` in reading order |
| ConsoleInterface.RenderGameToString | RulesEngine/src/console_interface.rs:148-168 | the loop builds the rendered rows, each followed by `\n` |
| ConsoleInterface.RenderCharInverse | RulesEngine/src/console_interface.rs:158-162 | parsing a rendered character gives its terrain back; it is a player mark exactly for a non-wall player and a box mark exactly for a non-wall box without the player |
| ConsoleInterface.JoinCons | RulesEngine/src/console_interface.rs:163-165 | the rendered text of rows is the first row, `\n`, then the rest |
| ConsoleInterface.LinesCons | RulesEngine/src/console_interface.rs:23 | `lines` splits off a first line that ends at `\n` |
| ConsoleInterface.LinesOfJoin | RulesEngine/src/console_interface.rs:23 | the lines of `\n`-terminated rows are those rows |
| ConsoleInterface.NewlineAtPrefix | RulesEngine/src/console_interface.rs:23 | a line without `\n` ends where the newline starts |
| ConsoleInterface.LinesOfBlankPrefix | RulesEngine/src/console_interface.rs:23-27 | leading newlines give empty lines |
| ConsoleInterface.NonEmptyOfBlanks | RulesEngine/src/console_interface.rs:25-27 | skipping blank lines removes leading empty lines and keeps the rest |
| ConsoleInterface.BlanksVanish | RulesEngine/src/console_interface.rs:25-27 | only blank lines leave no rows |
| ConsoleInterface.RenderedRowIsRow | RulesEngine/src/console_interface.rs:148-168 | rendering one parsed row gives back the line it was parsed from |
| ConsoleInterface.LinesOfLevel | RulesEngine/src/console_interface.rs:20-27 | blank lines before a rectangular level are skipped and the width is its row length |
| ConsoleInterface.MaxLenOfPadded | RulesEngine/src/console_interface.rs:20 | empty lines do not change the maximum width of rows of one byte length |
| ConsoleInterface.RenderOfRows | RulesEngine/src/console_interface.rs:148-168 | rendering the board and state read from rectangular level rows gives those rows |
| ConsoleInterface.ParseThenRender | RulesEngine/src/test/test_moves.rs:41-53 | rendering a parsed rectangular level of level characters with exactly one player mark reproduces the level text without its leading blank lines |
| LegacyConsole.RenderCell | src/console_interface.rs:52-60 | `render`'s table draws every cell as one of the seven level symbols, and parsing that symbol gives the cell back |
| LegacyConsole.ParseCellInverse | src/console_interface.rs:13-34 | on the seven symbols the parse table is inverted by the render table; any other character parses as `Floor` and renders as a space; a cell shows the player exactly for `@`/`+` |
| LegacyConsole.ParseRow | src/console_interface.rs:12-36 | each character of a line gives one cell by the seven-symbol table |
| LegacyConsole.ReadRow | src/console_interface.rs:11-36 | the character loop builds the row and takes the line's last player mark |
| LegacyConsole.PadRow | src/console_interface.rs:37-40 | the padding loop extends the row with `Floor` to the maximum width |
| LegacyConsole.ParseLevel | src/console_interface.rs:6-45 | `parse_level` computes the grid and player the line-by-line definition gives, padding to the widest line in UTF-8 bytes |
| LegacyConsole.ParsedGridShape | src/console_interface.rs:9-42 | every line, blank ones included, becomes the row of its own index, padded with `Floor` to the widest line in UTF-8 bytes (`MaxLen`) |
| LegacyConsole.WideCharacterWidensRows | src/console_interface.rs:9-42 | a line holding one two-byte character, then a line `#`, give two rows of two cells each |
| LegacyConsole.TwoLinesGrid | src/console_interface.rs:10-42 | those two lines padded to width 2 are `[Floor, Floor]` and `[Wall, Floor]` |
| LegacyConsole.ParsedPlayerIsMarked | src/console_interface.rs:8-32 | with no `@`/`+` the player stays at (0,0); otherwise the player's cell shows the player |
| LegacyConsole.RenderedRows | src/console_interface.rs:50-64 | one rendered line per row, one character per cell |
| LegacyConsole.RenderedRowsAreSymbols | src/console_interface.rs:52-60 | rendered lines hold only level symbols, never a line break |
| LegacyConsole.MaxLenOfEqualRows | src/console_interface.rs:9 | the maximum width of equally long lines of level symbols is their length |
| LegacyConsole.SymbolRowByteLen | src/console_interface.rs:9 | a line of level symbols is one byte per symbol |
| LegacyConsole.ParsedGridOfJoin | src/console_interface.rs:6-45 | equally long symbol lines, each ended by a line feed, parse to their own rows without extra padding |
| LegacyConsole.ParseOfRender | src/console_interface.rs:6-64 | parsing the rendered text of a rectangular grid gives the grid back |
| LegacyConsole.RenderOfParse | src/console_interface.rs:6-64 | rendering the parsed grid of equally long symbol lines gives the lines back |
| LegacyConsole.DirFromInput | src/console_interface.rs:68-96 | empty input gives `None`, and every decoded result is a unit axis vector |
| LegacyConsole.KeysDecode | src/console_interface.rs:74-92 | w/s/a/d in either case and ESC `[` A/B/D/C decode to the vector of up/down/left/right, whatever follows |
| LegacyConsole.DecodedIsKey | src/console_interface.rs:74-95 | every decoded direction comes from its WASD key or its arrow sequence |
| LegacyConsole.UndecodedInputs | src/console_interface.rs:79-94 | q/Q, an ESC without `[` or shorter than three bytes, and an unknown arrow letter give `None` |
| LegacyGraphs.StateGraph.constructor | src/state_graph/graph.rs:6-12 | `new` is an empty graph |
| LegacyGraphs.StateGraph.GetState | src/state_graph/graph.rs:25-27 | `get_state(id)` is defined exactly for assigned ids, and gives the state numbered id |
| LegacyGraphs.StateGraph.UpsertState | src/state_graph/graph.rs:14-23 | a known state returns its id and changes nothing; a new one gets id = node count and default metadata; `get_state` of the result is the state |
| LegacyGraphs.StateGraph.AddEdge | src/state_graph/graph.rs:29-31 | `add_edge` is set insertion: idempotent, touching nothing else |
| LegacyGraphs.StateGraph.GetNodeMetaMut | src/state_graph/graph.rs:33-37 | afterwards the id has metadata; an existing entry is kept, a missing one is inserted as default |
| LegacyPopulate.Attempt | src/state_graph/populate.rs:13-17 | one action gives at most one successor |
| LegacyPopulate.Successes | src/state_graph/populate.rs:11-17 | at most one successor per action |
| LegacyPopulate.SuccessesMembership | src/state_graph/populate.rs:11-17 | a successor is listed exactly when its action is tried and `step` returns it |
| LegacyPopulate.States | src/state_graph/populate.rs:15 | the successor states, one per successor |
| LegacyPopulate.StatesAppend | src/state_graph/populate.rs:12-17 | the states of two runs of the loop concatenate |
| LegacyPopulate.EdgesFor | src/state_graph/populate.rs:16 | the loop's edges are exactly one edge per successor, from the node to the successor's id, with the action and change type |
| LegacyPopulate.EdgesForAppend | src/state_graph/populate.rs:12-17 | edges of two runs of the loop combine, ids of earlier states being kept |
| LegacyPopulate.SuccessesWellFormed | src/state_graph/populate.rs:13-16 | every successor of a well-formed game is well formed |
| LegacyPopulate.GrownNothing | src/state_graph/populate.rs:12-17 | no successors change nothing |
| LegacyPopulate.GrownCompose | src/state_graph/populate.rs:12-17 | the graph growth of successive loop iterations composes |
| LegacyPopulate.Link | src/state_graph/populate.rs:15-16 | one successor is numbered (`get_id`) and its edge added |
| LegacyPopulate.TryMove | src/state_graph/populate.rs:13-17 | one iteration adds the successor of its action if the step succeeds, and nothing otherwise |
| LegacyPopulate.GrownStep | src/state_graph/populate.rs:12-17 | the loop invariant advances by one action |
| LegacyPopulate.AddMoves | src/state_graph/populate.rs:11-17 | the loop over the actions numbers every successor and adds exactly one edge per successor |
| LegacyPopulate.PopulateNode | src/state_graph/populate.rs:4-21 | an unknown id changes nothing; otherwise every successful move of the four adds its state and edge, and the node is then `Visited` |
| LegacyPopulate.PopulateStep | src/state_graph/populate.rs:23-36 | `AllVisited` exactly when no metadata entry is `Unvisited`, with nothing changed; otherwise the returned id was unvisited, is populated (its successful moves added with one edge each) and becomes `Visited` |
| StateGraphs.InsertKeepsInverse | RulesEngine/src/state_graph/graph.rs:18-23 | inserting a fresh state into the two-way map keeps the two directions inverse |
| StateGraphs.InsertKeepsDense | RulesEngine/src/state_graph/graph.rs:18-23 | numbering a new state with the node count keeps the ids exactly 0..n-1 |
| StateGraphs.StateGraph.constructor | RulesEngine/src/state_graph/graph.rs:6-13 | `new` is an empty graph with nothing unvisited |
| StateGraphs.StateGraph.GetState | RulesEngine/src/state_graph/graph.rs:27-29 | `get_state(id)` is defined exactly for assigned ids, and gives the node numbered id |
| StateGraphs.StateGraph.UpsertState | RulesEngine/src/state_graph/graph.rs:15-25 | a known node returns its id and changes nothing; a new one gets id = node count, `Unvisited` metadata and joins `unvisited`; `get_state` of the result is the node |
| StateGraphs.StateGraph.AddEdge | RulesEngine/src/state_graph/graph.rs:31-33 | `add_edge` is set insertion: idempotent, touching nothing else |
| StateGraphs.StateGraph.MarkVisited | RulesEngine/src/state_graph/graph.rs:35-40 | the node's metadata becomes `Visited` (if it has any), it leaves `unvisited`, and nothing else changes |
| StateGraphs.StateGraph.GetUnvisitedNode | RulesEngine/src/state_graph/graph.rs:42-44 | `None` exactly when `unvisited` is empty, and otherwise a member of it |
| StateGraphs.StateGraph.AllVisitedPasses | RulesEngine/src/state_graph/graph.rs:46-60 | under the graph invariant (an id is in `unvisited` exactly when its metadata is `Unvisited`) `assert_all_visited` passes exactly when `unvisited` is empty |
| Populate.Candidates | RulesEngine/src/state_graph/populate.rs:11-12 | four push actions per live box, exactly those around some box |
| Populate.Kept | RulesEngine/src/state_graph/populate.rs:13-16 | the kept actions are exactly the candidates whose standing cell the player can reach |
| Populate.FlatMapMembership | RulesEngine/src/state_graph/populate.rs:11-12 | an element is in a `flat_map` exactly when it comes from one of the inputs |
| Populate.SuccessorsMembership | RulesEngine/src/state_graph/populate.rs:18-34 | a successor comes from exactly one of the kept actions' outcomes |
| Populate.SuccessorsBound | RulesEngine/src/state_graph/populate.rs:18-34 | there are at most as many successors as kept actions |
| Populate.SlotIsLive | RulesEngine/src/core/game_state_environment.rs:36-38 | in a sorted, padded environment every non-sentinel slot is a live box |
| Populate.ConsistentAtReachable | RulesEngine/src/state_graph/populate.rs:20-23 | moving the player to a reachable cell keeps the state consistent with the board |
| Populate.NodeOfReady | RulesEngine/src/state_graph/populate.rs:32 | a node built from a consistent state is ready for expansion |
| Populate.OutcomeReady | RulesEngine/src/state_graph/populate.rs:24-32 | every successor built from a consistent state is ready |
| Populate.AdjacentReady | RulesEngine/src/state_graph/populate.rs:6-37 | every successor of a ready node is ready |
| Populate.AdjacentMember | RulesEngine/src/state_graph/populate.rs:6-37 | a node is a successor exactly when some push action around some box, from a reachable standing cell, succeeds with a box move and gives that node |
| Populate.AdjacentBound | RulesEngine/src/state_graph/populate.rs:6-37 | a node has at most 4 × (box count) successors |
| Populate.StepCandidates | RulesEngine/src/state_graph/populate.rs:18-34 | the `filter_map` keeps exactly the successful box-moving steps, each as its canonical node |
| Populate.KeepReachable | RulesEngine/src/state_graph/populate.rs:13-16 | the loop keeps exactly the reachable candidates, in order |
| Populate.GetAllAdjacentNodes | RulesEngine/src/state_graph/populate.rs:6-37 | `get_all_adjacent_nodes` computes the successors the definition gives, all ready |
| Populate.EdgesToMembership | RulesEngine/src/state_graph/populate.rs:46-53 | the edges added are exactly one `Edge(from, id of s)` per successor s |
| Populate.EdgesToAgree | RulesEngine/src/state_graph/populate.rs:46-53 | later numbering keeps the ids of earlier successors, so their edges stay the same |
| Populate.EdgesToSnoc | RulesEngine/src/state_graph/populate.rs:46-53 | one more successor adds one more edge |
| Populate.Link | RulesEngine/src/state_graph/populate.rs:47-52 | upserting one successor and adding its edge: the node is numbered, ids of others are kept, one edge is added, new metadata is `Unvisited` |
| Populate.AddSuccessors | RulesEngine/src/state_graph/populate.rs:46-53 | the loop upserts every successor and adds exactly its edges, keeping existing ids and metadata |
| Populate.Expand | RulesEngine/src/state_graph/populate.rs:45-55 | adding the successors and then marking the node visited gives the expanded graph |
| Populate.PopulateNode | RulesEngine/src/state_graph/populate.rs:39-56 | an unknown id changes nothing; otherwise every successor is upserted, an edge from the node to each is added, and the node is marked visited |
| Populate.PopulateStep | RulesEngine/src/state_graph/populate.rs:58-67 | `AllVisited` exactly when nothing is unvisited, with the graph unchanged and `assert_all_visited` passing; otherwise some node that was unvisited is expanded into exactly its successors, and the visited set strictly grows |
| UniqueNodes.ToIVec2 | RulesEngine/src/state_graph/unique_node.rs:15 | the stored `IVec2` converts back to the position |
| UniqueNodes.FromGameState | RulesEngine/src/state_graph/unique_node.rs:11-17 | the node keeps the environment and stores the least reachable position, which is reachable and at most the player's own cell |
| UniqueNodes.NodeAtMostPlayer | RulesEngine/src/state_graph/unique_node.rs:12 | the stored position is reachable and at most the player's position |
| UniqueNodes.ReversedWalk | RulesEngine/src/core/model_helpers.rs:114-121 | a walk through open cells can be walked backwards |
| UniqueNodes.JoinedWalk | RulesEngine/src/core/model_helpers.rs:114-121 | two walks meeting end to start join into one |
| UniqueNodes.WalkIgnoresPlayer | RulesEngine/src/core/model_helpers.rs:100-105 | whether a walk is open depends on the boxes, not on where the player is |
| UniqueNodes.ReachableThrough | RulesEngine/src/core/model_helpers.rs:97-123 | reachability is transitive between states with the same boxes |
| UniqueNodes.ReachableBack | RulesEngine/src/core/model_helpers.rs:97-123 | reachability is symmetric between states with the same boxes |
| UniqueNodes.SameRegionSameNode | RulesEngine/src/state_graph/unique_node.rs:11-17 | two states with the same boxes whose players share a reachable region give the same node |
| GraphTrim.NodesRemoved | RulesEngine/src/state_graph/graph_trim.rs:14-16 | `nodes_removed` plus the remaining nodes is the count before |
| GraphTrim.EdgesRemoved | RulesEngine/src/state_graph/graph_trim.rs:26-28 | `edges_removed` plus the remaining edges is the count before |
| GraphTrim.SeedIsWinning | RulesEngine/src/state_graph/graph_trim.rs:59-72 | a won node is winning |
| GraphTrim.PredecessorIsWinning | RulesEngine/src/state_graph/graph_trim.rs:59-72 | the source of an edge into a winning node is winning |
| GraphTrim.ClosedHoldsWinning | RulesEngine/src/state_graph/graph_trim.rs:59-72 | a set holding the seeds and closed under predecessors holds the start of every path to a seed |
| GraphTrim.WinningIsLeastClosed | RulesEngine/src/state_graph/graph_trim.rs:59-72 | a predecessor-closed set of winning nodes holding the seeds is exactly the winning nodes |
| GraphTrim.InitialWinningStates | RulesEngine/src/state_graph/graph_trim.rs:42-53 | the seeds are exactly the ids of nodes whose environment passes the won check |
| GraphTrim.PredecessorMap | RulesEngine/src/state_graph/graph_trim.rs:55-58 | u is in pred[v] exactly when the graph has an edge u→v |
| GraphTrim.PushAll | RulesEngine/src/state_graph/graph_trim.rs:67-71 | pushing a predecessor set appends each of its members once |
| GraphTrim.SkipKeeps | RulesEngine/src/state_graph/graph_trim.rs:62-65 | popping an id already in `winning_states` keeps the search invariant |
| GraphTrim.AddKeeps | RulesEngine/src/state_graph/graph_trim.rs:62-71 | inserting a popped id and pushing its predecessors keeps the search invariant |
| GraphTrim.WinningIdsExact | RulesEngine/src/state_graph/graph_trim.rs:59-72 | the reference set holds exactly the nodes from which some seed is reachable along edges |
| GraphTrim.SeedsAreWinningIds | RulesEngine/src/state_graph/graph_trim.rs:61 | every seed is winning |
| GraphTrim.WinningIdsBackClosed | RulesEngine/src/state_graph/graph_trim.rs:67-71 | the winning set is closed under predecessors |
| GraphTrim.AppendKeepsNoRepeats | RulesEngine/src/state_graph/graph_trim.rs:63-65 | recording a fresh id keeps the processed list free of repeats |
| GraphTrim.FewerLeft | RulesEngine/src/state_graph/graph_trim.rs:62-72 | inserting a fresh id leaves fewer candidate ids, so the loop ends |
| GraphTrim.Search | RulesEngine/src/state_graph/graph_trim.rs:61-72 | the `while let` loop ends with a predecessor-closed set holding the seeds, processing each id once |
| GraphTrim.WinningStates | RulesEngine/src/state_graph/graph_trim.rs:59-72 | `winning_states` is exactly the set of nodes from which a seed is reachable, and each is processed once |
| GraphTrim.KeepNodes | RulesEngine/src/state_graph/graph_trim.rs:76 | `retain` keeps exactly the nodes whose id is kept, with their ids |
| GraphTrim.FindWinning | RulesEngine/src/state_graph/graph_trim.rs:42-72 | seeds, predecessor map and search together give the winning ids of the graph |
| GraphTrim.Retain | RulesEngine/src/state_graph/graph_trim.rs:76-77 | a node stays exactly when its id is kept, an edge exactly when both ends are kept; nothing grows |
| GraphTrim.TrimUnwinnable | RulesEngine/src/state_graph/graph_trim.rs:41-85 | after trimming a node remains exactly when some won node is reachable from it, an edge exactly when both ends remain; the stats are the counts before and after, after ≤ before |
| GraphCompress.RewriteEdges | RulesEngine/src/state_graph/graph_compress.rs:16-27 | each kept edge is (rewrite(from), rewrite(to)); an edge is dropped exactly when the rewritten source equals the original target id |
| GraphCompress.MergedMoveBecomesLoop | RulesEngine/src/state_graph/graph_compress.rs:21-25 | because the test compares with the original target, an edge between two merged nodes survives as a self-loop |
| GraphCompress.RewriteEdgesBound | RulesEngine/src/state_graph/graph_compress.rs:16-27 | there are no more rewritten edges than edges |
| GraphCompress.GroupNew | RulesEngine/src/state_graph/graph_compress.rs:12 | a first node of a box configuration becomes its representative |
| GraphCompress.GroupOld | RulesEngine/src/state_graph/graph_compress.rs:12 | a later node of a known configuration leaves the representatives alone |
| GraphCompress.RewriteStep | RulesEngine/src/state_graph/graph_compress.rs:12-13 | one loop iteration maps the node's id to its configuration's id |
| GraphCompress.MergeResult | RulesEngine/src/state_graph/graph_compress.rs:8-14 | after the loop, one node per box configuration, numbered by the id of one of its states, and no more nodes than before |
| GraphCompress.MergeNodes | RulesEngine/src/state_graph/graph_compress.rs:8-14 | the loop gives one node per configuration with the id of one of its states, and `id_rewrites` maps every original id to its configuration's id |
| GraphCompress.GetBoxOnlyGraph | RulesEngine/src/state_graph/graph_compress.rs:5-33 | one node per configuration, `id_rewrites` total on the ids and identity on representatives, the edges rewritten and filtered as written, and no more nodes or edges than before |
| JsonExport.DirectionRoundTrip | RulesEngine/src/state_graph/json_export.rs:39-48 | the direction conversion is a bijection: reading a JSON direction back gives the direction, and every JSON direction is reached |
| JsonExport.FromDirection | RulesEngine/src/state_graph/json_export.rs:39-48 | the exported JSON direction reads back as the direction |
| JsonExport.DirectionInjective | RulesEngine/src/state_graph/json_export.rs:39-48 | two directions export the same exactly when they are equal |
| JsonExport.ChangeTypeRoundTrip | RulesEngine/src/state_graph/json_export.rs:50-57 | the change-type conversion is a bijection |
| JsonExport.FromChangeType | RulesEngine/src/state_graph/json_export.rs:50-57 | the exported JSON edge type reads back as the change type |
| JsonExport.EdgeRecordRoundTrip | RulesEngine/src/state_graph/json_export.rs:72-84 | an edge record keeps the edge's ends, direction and change type: the edge is recovered from it |
| JsonExport.RecordRoundTrip | RulesEngine/src/state_graph/json_export.rs:72-84 | every edge record is the record of the edge it describes |
| JsonExport.NodeRecords | RulesEngine/src/state_graph/json_export.rs:60-70 | one record per visited node, holding its id and its count of boxes on goals |
| JsonExport.EdgeRecords | RulesEngine/src/state_graph/json_export.rs:72-84 | one record per visited edge, describing exactly that edge |
| JsonExport.GetJsonData | RulesEngine/src/state_graph/json_export.rs:59-88 | the document has as many node records as nodes and as many edge records as edges |
| JsonExport.NodeRecordsExact | RulesEngine/src/state_graph/json_export.rs:60-70 | every node has its record, and every node record belongs to a node |
| JsonExport.EdgeRecordsExact | RulesEngine/src/state_graph/json_export.rs:72-84 | every edge has its record, and every edge record describes an edge of the graph |
| GraphCompute.MaxOnTargets | RulesEngine/src/bevy_interface/graph_compute.rs:69-72 | the largest boxes-on-goals count of the nodes, one of them, or 1 when there are no nodes |
| GraphCompute.NodeData | RulesEngine/src/bevy_interface/graph_compute.rs:55-60 | one node record per visited state, with its id and its count |
| GraphCompute.EdgeData | RulesEngine/src/bevy_interface/graph_compute.rs:62-67 | one edge record per visited edge, with the edge's ends |
| GraphCompute.FromStateGraph | RulesEngine/src/bevy_interface/graph_compute.rs:54-75 | as many node and edge records as the graph has nodes and edges, and the maximum count over the records |
| GraphCompute.FromStateGraphExact | RulesEngine/src/bevy_interface/graph_compute.rs:54-75 | the node records are exactly the nodes' data, the edge records exactly the edges, and the maximum bounds every node's count (1 when empty) |
| GraphCompute.AdjacentSymmetric | RulesEngine/src/bevy_interface/graph_compute.rs:80-85 | every edge makes its two ends neighbours of each other |
| GraphCompute.IncidentHasNeighbor | RulesEngine/src/bevy_interface/graph_compute.rs:80-85 | a node gets a neighbour list exactly when it has a neighbour |
| GraphCompute.Push | RulesEngine/src/bevy_interface/graph_compute.rs:83-84 | `entry(u).or_default().push(v)` appends v to u's list, creating it if absent, and changes no other list |
| GraphCompute.PushBothEnds | RulesEngine/src/bevy_interface/graph_compute.rs:82-85 | pushing both directions of one more edge keeps the lists exactly the neighbours seen so far |
| GraphCompute.StrictlySortedUnique | RulesEngine/src/bevy_interface/graph_compute.rs:87-91 | two strictly increasing lists with the same members are equal, so sorting and deduplicating has one result |
| GraphCompute.Insert | RulesEngine/src/bevy_interface/graph_compute.rs:87-91 | inserting into a strictly increasing list keeps it strictly increasing and adds exactly the one value |
| GraphCompute.SortDedup | RulesEngine/src/bevy_interface/graph_compute.rs:87-91 | `sort_unstable` then `dedup` gives a strictly increasing list with the same members |
| GraphCompute.CollectNeighbors | RulesEngine/src/bevy_interface/graph_compute.rs:80-85 | after the loop each list holds exactly the neighbours along the edges |
| GraphCompute.SortAll | RulesEngine/src/bevy_interface/graph_compute.rs:87-91 | every list becomes strictly increasing with the same members, and no node is added or removed |
| GraphCompute.CollectEntities | RulesEngine/src/bevy_interface/graph_compute.rs:93 | the entity map has exactly the ids of the pairs |
| GraphCompute.CollectEntitiesLastWins | RulesEngine/src/bevy_interface/graph_compute.rs:93 | when ids repeat, the last pair for an id gives its entity |
| GraphCompute.FromGraph | RulesEngine/src/bevy_interface/graph_compute.rs:79-99 | a node has a neighbour list exactly when an edge touches it, each list is strictly increasing and holds exactly its neighbours, and the entity map is collected from the pairs |
| GraphCompute.IterateNeighbors | RulesEngine/src/bevy_interface/graph_compute.rs:101-105 | a node without a list has no neighbours |
| GraphCompute.IterateNeighborsExact | RulesEngine/src/bevy_interface/graph_compute.rs:101-105 | the neighbours given are increasing, are exactly the nodes sharing an edge, are symmetric, and are empty for a node no edge touches |
| GraphCompute.GetEntity | RulesEngine/src/bevy_interface/graph_compute.rs:107-109 | the entity is present exactly when the id is in the map, and then it is the map's |
| GraphCompute.GetEntityLastWins | RulesEngine/src/bevy_interface/graph_compute.rs:93-109 | looking up an id gives the entity of the last pair for it |
| GraphCompute.GetIndex | RulesEngine/src/bevy_interface/graph_compute.rs:129-131 | the index is present exactly when the id is mapped, and then it is the mapped one |
| GraphCompute.GetIndexedVertexPositions | RulesEngine/src/bevy_interface/graph_compute.rs:117-127 | one slot per mapped id; each slot is the position of an id mapped to it, or zero when no id mapped there has a position |
| GraphCompute.VertexPositionsExact | RulesEngine/src/bevy_interface/graph_compute.rs:117-127 | with indices injective, the slot of an id holds its position, or zero when it has none |
| TileRender.AllTileTypesComplete | RulesEngine/src/bevy_interface/tile_render/models.rs:46-58 | `ALL_TILE_TYPES` lists every tile type, each once |
| TileRender.FileName | RulesEngine/src/bevy_interface/tile_render/models.rs:60-69 | every tile type has a sprite path |
| TileRender.FileNamesDistinct | RulesEngine/src/bevy_interface/tile_render/models.rs:60-69 | two tile types share a sprite exactly when they are the same type |
| TileRender.AsI32 | RulesEngine/src/bevy_interface/tile_render/models.rs:125 | `as i32` lands in the 32-bit range and keeps every length below 2^31 |
| TileRender.FirstLayerSize | RulesEngine/src/bevy_interface/tile_render/models.rs:112-113 | the height is the first layer's row count and the width its first row's length, 0 without rows |
| TileRender.Tiles.NewEmpty | RulesEngine/src/bevy_interface/tile_render/models.rs:73-82 | no layers, zero sizes and clean contents |
| TileRender.Tiles.AssignNewGrids | RulesEngine/src/bevy_interface/tile_render/models.rs:104-126 | the new layers replace the old and the contents become dirty; no layers set only the depth to 0, otherwise the size is the first layer's width, height and the layer count; the rendered size is kept |
| TileRender.Tiles.GetGridSize | RulesEngine/src/bevy_interface/tile_render/models.rs:128-130 | definition: the recorded grid size |
| TileRender.Tiles.GetNewRenderedSize | RulesEngine/src/bevy_interface/tile_render/models.rs:133-139 | nothing exactly when the grid size is the rendered one, and the grid size otherwise |
| TileRender.Tiles.MarkGridRenderedToSize | RulesEngine/src/bevy_interface/tile_render/models.rs:142-147 | records the rendered size and nothing else; marking the grid size leaves nothing to render |
| TileRender.Tiles.GetTileCount | RulesEngine/src/bevy_interface/tile_render/models.rs:149-151 | definition: the number of layers |
| TileRender.Tiles.GetTileAt | RulesEngine/src/bevy_interface/tile_render/models.rs:163-169 | the stored tile for an in-range layer, row and column, and `Empty` otherwise |
| TileRender.Tiles.GetTilesAt | RulesEngine/src/bevy_interface/tile_render/models.rs:153-161 | one tile per layer, each the one `get_tile_at` gives at that depth |
| TileRender.Tiles.TilesDirty | RulesEngine/src/bevy_interface/tile_render/models.rs:175-177 | definition: the dirty flag |
| TileRender.Tiles.MarkTilesNotDirty | RulesEngine/src/bevy_interface/tile_render/models.rs:179-181 | clears the dirty flag and nothing else |
| TileRender.InRangeOfGridSize | RulesEngine/src/bevy_interface/tile_render/models.rs:104-169 | for uniform layers recorded without truncation, a location holds a stored tile exactly when it is inside the recorded size |
| Enumerations.EnumerationSize | RulesEngine/src/state_graph/json_export.rs:60-84 | visiting every member of a set once takes as many steps as the set has members |

## Left out

- Terminal I/O is not modelled. This covers `setup_terminal`, `cleanup_terminal`, `render_game` and `handle_input`, the printing side of the older `render`, the diagnostic `println!`s of the older in-place `step` (`src/core/update.rs` lines 23, 34, 39 and 54), both state-graph console views, and the `main` loops over stdin, files and the clock.
- The Bevy viewer is not modelled: ECS systems, plugins, UI, edge rendering and asset loading. `TileAssets`, `new_random` with its random generator, `get_tile_world_position` and the tiles' root and cell size are screen matters and left out too.
- The warning that `mark_grid_rendered_to_size` prints on a size mismatch has no effect on state, so it is left out.
- Floating-point code is not modelled. This covers the force and integration functions of `graph_compute.rs` (lines 149-265), the octree, the float bounds, the spatial hash, the checkerboard, and the percentage methods of `TrimStats`. Only the integer counts of `TrimStats` are modelled.
- Foreign libraries are reduced to their effect. `serde_json::to_string_pretty` is not modelled: the document is its record lists. The petgraph and grapher interfaces are left out. The `bimap` of the state graph is two maps kept inverse to each other.
- Benchmarks, `visualize.py` and the test harness are not modelled. The tests serve only as evidence for the properties stated.
- Populate.GetAllAdjacentNodes: the five-successor fixture of `test_populate.rs` is not restated as a concrete lemma. The general successor contract covers it.
- Hash-map and hash-set iteration order is unspecified. Pure mappings take the order as a parameter that lists each element once. Methods pick elements with `:|`, so the results hold for every order.
- LegacyPopulate.PopulateStep: it expands some unvisited id, not the first one in hash-map order, because the model has no hash order.
- `count_boxes_on_goals` is passed to `JsonExport` and `GraphCompute` as the function parameter `onTargets`. `ModelHelpers` models the function itself.
- JsonExport: the export is modelled over the edge type that carries an action and a change type. That is the only edge type holding the fields the `From` impls read.
- GraphTrim: the won check of `SharedGameState` is taken as a `WonCheckHelper` parameter. `ModelHelpers.IsWon` states that the two agree.
- The `shrink_to_fit` call in `from_graph` changes no value, so it is not modelled. `sort_unstable` followed by `dedup` is modelled as insertion into a strictly increasing list, which has the same result by `GraphCompute.StrictlySortedUnique`.
- Helpers whose source is not part of this model are modelled after their siblings: `reachable_positions_visitation` (the same flood fill), `total_targets` (the helper's target count), `get_id` (`upsert_state`) and the board `step` (the cell-grid rule read against board and environment).
- Machine integers are unbounded here, except where their width matters. The `i8` coordinates of the environment become a board of at most 127 rows and columns. The `as i32` casts of the tile container truncate explicitly (`TileRender.AsI32`). `usize` counts cannot overflow in the model.
- `Quit` and the remaining console input plumbing are left out. `dir_from_input` is modelled, and `q`/`Q` gives `None`.
- Environments.New: it requires at most `BOX_COUNT` boxes, not the 15 that the source's assertion admits. More than 8 boxes would index past the array, and the source panics there.
