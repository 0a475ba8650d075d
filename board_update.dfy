/**
 * The move rule of the board-plus-environment revision: the same rule as
 * the cell-grid `step` (RulesEngine/src/core/update.rs), read against the
 * static board for walls and against the environment for boxes. A push
 * moves one box slot with `set_box` and re-sorts with `complete_moves`.
 */
module BoardUpdate {
  import opened CoreModels
  import opened Environments
  import opened ModelHelpers
  import CellModels
  import Update

  /** Board coordinates fit the environment's i8 `Vec2` and never reach the sentinel. */
  predicate SmallBoard(b: Board) {
    Height(b) <= I8_MAX && Width(b) <= I8_MAX
  }

  lemma InsideIsStorable(b: Board, p: Vec2)
    requires SmallBoard(b) && Inside(p, AreaOf(b))
    ensures Storable(p)
  {
  }

  /** `has_box_at` is membership among the live boxes. */
  lemma HasBoxAtIsMembership(env: Environment, p: Vec2)
    requires p != EMPTY_BOX
    ensures HasBoxAt(env, p) <==> p in IterBoxes(env)
  {
  }

  /**
   * Each push action around a box stands the player next to it and moves
   * towards it: the player's cell plus the move's vector is the box.
   */
  lemma PushActionsAim(pos: Vec2)
    ensures forall k :: 0 <= k < 4 ==>
              Add(AllPushActionsAround(pos)[k].0, Update.VecFromDir(AllPushActionsAround(pos)[k].1.dir)) == pos
  {
  }

  /** What the board `step` needs: a rectangular small board and a sorted, padded environment. */
  predicate Steppable(b: Board, s: GameState) {
    Rectangular(b) && SmallBoard(b) && Normal(s.environment)
  }

  /** The environment after the box at n is pushed to bb: `set_box` on its slot, then `complete_moves`. */
  function Pushed(env: Environment, n: Vec2, bb: Vec2): Environment
    requires Normal(env) && n != EMPTY_BOX && bb != EMPTY_BOX && HasBoxAt(env, n)
  {
    Completed(SetBox(env, IndexOfBoxAt(env, n).value, bb))
  }

  /** `step(shared, state, action)`. */
  function Step(b: Board, s: GameState, action: UserAction): (r: GameUpdate<GameState>)
    requires Steppable(b, s)
    ensures r.NextState? ==>
              r.state.player == Add(s.player, Update.VecFromDir(action.dir)) && Inside(r.state.player, AreaOf(b))
    ensures r.NextState? && r.change == PlayerMove ==> r.state.environment == s.environment
    ensures r.Error? ==>
              r.message in ["Cannot move out of bounds", "Cannot push block out of bounds",
                            "Cannot push block", "Cannot walk into a wall"]
  {
    var env := s.environment;
    var dir := Update.VecFromDir(action.dir);
    var n := Add(s.player, dir);
    if !Inside(n, AreaOf(b)) then Error("Cannot move out of bounds")
    else
      InsideIsStorable(b, n);
      if HasBoxAt(env, n) then
        var bb := Add(n, dir);
        if !Inside(bb, AreaOf(b)) then Error("Cannot push block out of bounds")
        else
          InsideIsStorable(b, bb);
          if !IsWalkable(TerrainAt(b, bb)) || HasBoxAt(env, bb) then Error("Cannot push block")
          else NextState(GameState(n, Pushed(env, n, bb)), PlayerAndBoxMove)
      else if !IsWalkable(TerrainAt(b, n)) then Error("Cannot walk into a wall")
      else NextState(GameState(n, env), PlayerMove)
  }

  // ---------------------------------------------------------------------
  // Direct properties
  // ---------------------------------------------------------------------

  /** The four rejections, each exactly in its situation. */
  lemma StepErrorCases(b: Board, s: GameState, action: UserAction)
    requires Steppable(b, s)
    ensures var dir := Update.VecFromDir(action.dir);
            var n := Add(s.player, dir);
            var bb := Add(n, dir);
            var live := IterBoxes(s.environment);
            var r := Step(b, s, action);
            (r == Error("Cannot move out of bounds") <==> !Inside(n, AreaOf(b))) &&
            (r == Error("Cannot push block out of bounds") <==>
               Inside(n, AreaOf(b)) && n in live && !Inside(bb, AreaOf(b))) &&
            (r == Error("Cannot push block") <==>
               Inside(n, AreaOf(b)) && n in live && Inside(bb, AreaOf(b)) &&
               (!IsWalkable(TerrainAt(b, bb)) || bb in live)) &&
            (r == Error("Cannot walk into a wall") <==>
               Inside(n, AreaOf(b)) && n !in live && !IsWalkable(TerrainAt(b, n)))
  {
    var dir := Update.VecFromDir(action.dir);
    var n := Add(s.player, dir);
    if Inside(n, AreaOf(b)) {
      InsideIsStorable(b, n);
      HasBoxAtIsMembership(s.environment, n);
      var bb := Add(n, dir);
      if Inside(bb, AreaOf(b)) {
        InsideIsStorable(b, bb);
        HasBoxAtIsMembership(s.environment, bb);
      }
    }
  }

  /** The two successful shapes of a step: a push and a walk. */
  lemma StepCases(b: Board, s: GameState, action: UserAction)
    requires Steppable(b, s)
    ensures var dir := Update.VecFromDir(action.dir);
            var n := Add(s.player, dir);
            var bb := Add(n, dir);
            var live := IterBoxes(s.environment);
            var r := Step(b, s, action);
            (r.NextState? <==>
               Inside(n, AreaOf(b)) &&
               (n in live ==> Inside(bb, AreaOf(b)) && IsWalkable(TerrainAt(b, bb)) && bb !in live) &&
               (n !in live ==> IsWalkable(TerrainAt(b, n)))) &&
            (r.NextState? ==> Storable(n) && r.state.player == n) &&
            (r.NextState? && n in live ==>
               Storable(bb) && HasBoxAt(s.environment, n) &&
               r == NextState(GameState(n, Pushed(s.environment, n, bb)), PlayerAndBoxMove)) &&
            (r.NextState? && n !in live ==> r == NextState(GameState(n, s.environment), PlayerMove))
  {
    var dir := Update.VecFromDir(action.dir);
    var n := Add(s.player, dir);
    if Inside(n, AreaOf(b)) {
      InsideIsStorable(b, n);
      HasBoxAtIsMembership(s.environment, n);
      var bb := Add(n, dir);
      if Inside(bb, AreaOf(b)) {
        InsideIsStorable(b, bb);
        HasBoxAtIsMembership(s.environment, bb);
      }
    }
  }

  /** The environment's live boxes are pairwise distinct. */
  ghost predicate NoStackedBoxes(env: Environment) {
    forall q :: multiset(IterBoxes(env))[q] <= 1
  }

  /** Every live box is storable (true of every box on a small board). */
  predicate LiveStorable(env: Environment) {
    forall k :: 0 <= k < |IterBoxes(env)| ==> Storable(IterBoxes(env)[k])
  }

  /** Sorting an edited box list keeps its length and storability and trades one box for another. */
  lemma SortedEdit(live: seq<Vec2>, k: nat, bb: Vec2)
    requires k < |live| && Storable(bb) && forall m :: 0 <= m < |live| ==> Storable(live[m])
    ensures var r := Sort(live[k := bb]);
            |r| == |live| && multiset(r) == multiset(live) - multiset{live[k]} + multiset{bb} &&
            forall m :: 0 <= m < |r| ==> Storable(r[m])
  {
    var edited := live[k := bb];
    var r := Sort(edited);
    assert |r| == |multiset(r)| == |multiset(edited)| == |edited|;
    forall m | 0 <= m < |r|
      ensures Storable(r[m])
    {
      assert r[m] in multiset(edited);
      var e :| 0 <= e < |edited| && edited[e] == r[m];
    }
  }

  /** The pushed environment is the sorted edit of the live boxes, padded again. */
  lemma PushedIsSortedEdit(env: Environment, n: Vec2, bb: Vec2)
    requires Normal(env) && LiveStorable(env) && Storable(n) && Storable(bb) && HasBoxAt(env, n)
    ensures var k := IndexOfBoxAt(env, n).value;
            k < |IterBoxes(env)| && IterBoxes(env)[k] == n &&
            IterBoxes(Pushed(env, n, bb)) == Sort(IterBoxes(env)[k := bb]) && Normal(Pushed(env, n, bb))
  {
    var live := IterBoxes(env);
    var k := IndexOfBoxAt(env, n).value;
    assert live[k] == env.slots[k];
    MoveBoxThenComplete(env, k, bb);
    NewYieldsSortedInput(live[k := bb]);
  }

  /** A push keeps the environment sorted and padded, and trades the box at n for one at bb. */
  lemma PushedBoxes(env: Environment, n: Vec2, bb: Vec2)
    requires Normal(env) && LiveStorable(env) && Storable(n) && Storable(bb) && HasBoxAt(env, n)
    ensures var live := IterBoxes(env);
            var live' := IterBoxes(Pushed(env, n, bb));
            Normal(Pushed(env, n, bb)) && LiveStorable(Pushed(env, n, bb)) && |live'| == |live| &&
            multiset(live') == multiset(live) - multiset{n} + multiset{bb}
  {
    PushedIsSortedEdit(env, n, bb);
    SortedEdit(IterBoxes(env), IndexOfBoxAt(env, n).value, bb);
  }

  /**
   * A successful step moves the player by the direction's vector. A walk
   * leaves the environment alone; a push replaces the pushed box by the
   * cell beyond and keeps the environment sorted and the number of boxes.
   */
  lemma StepSuccess(b: Board, s: GameState, action: UserAction)
    requires Steppable(b, s) && LiveStorable(s.environment)
    requires Step(b, s, action).NextState?
    ensures var dir := Update.VecFromDir(action.dir);
            var n := Add(s.player, dir);
            var bb := Add(n, dir);
            var live := IterBoxes(s.environment);
            var r := Step(b, s, action);
            var live' := IterBoxes(r.state.environment);
            r.state.player == n &&
            (r.change == PlayerAndBoxMove <==> n in live) &&
            (n !in live ==> r.state.environment == s.environment) &&
            (n in live ==>
               Normal(r.state.environment) && LiveStorable(r.state.environment) &&
               |live'| == |live| &&
               multiset(live') == multiset(live) - multiset{n} + multiset{bb})
  {
    StepCases(b, s, action);
    var dir := Update.VecFromDir(action.dir);
    var n := Add(s.player, dir);
    if n in IterBoxes(s.environment) {
      PushedBoxes(s.environment, n, Add(n, dir));
    }
  }

  /** The opposite direction. */
  function Opposite(d: Direction): (e: Direction)
    ensures Update.VecFromDir(e) == Vec2(-Update.VecFromDir(d).i, -Update.VecFromDir(d).j)
  {
    match d
    case Up => Down
    case Down => Up
    case Left => Right
    case Right => Left
  }

  /**
   * Walking one cell and walking back restores the game state exactly
   * (`when_player_moves_back_game_is_equal`), provided the player started
   * on a walkable cell without a box.
   */
  lemma WalkBackRestores(b: Board, s: GameState, d: Direction)
    requires Steppable(b, s) && Inside(s.player, AreaOf(b))
    requires IsWalkable(TerrainAt(b, s.player)) && s.player !in IterBoxes(s.environment)
    requires Step(b, s, Move(d)).NextState? && Step(b, s, Move(d)).change == PlayerMove
    ensures Step(b, Step(b, s, Move(d)).state, Move(Opposite(d))) == NextState(s, PlayerMove)
  {
    StepCases(b, s, Move(d));
    var s' := Step(b, s, Move(d)).state;
    assert Add(s'.player, Update.VecFromDir(Opposite(d))) == s.player;
    StepCases(b, s', Move(Opposite(d)));
  }

  // ---------------------------------------------------------------------
  // Agreement with the cell-grid rule
  // ---------------------------------------------------------------------

  /** The player shown on terrain t. */
  function PlayerOn(t: Terrain): (c: CellModels.Cell)
    requires t != Terrain.Wall
    ensures CellModels.Under(c) == t && CellModels.IsPlayer(c)
  {
    if t.Target? then CellModels.Cell.PlayerOnTarget else CellModels.Cell.PlayerOnFloor
  }

  /** A box shown on terrain t. */
  function BoxOn(t: Terrain): (c: CellModels.Cell)
    requires t != Terrain.Wall
    ensures CellModels.Under(c) == t && CellModels.IsBox(c)
  {
    if t.Target? then CellModels.Cell.BoxOnTarget else CellModels.Cell.BoxOnFloor
  }

  /** Terrain t with nothing on it. */
  function Bare(t: Terrain): (c: CellModels.Cell)
    ensures CellModels.Under(c) == t && !CellModels.IsBox(c) && !CellModels.IsPlayer(c)
  {
    match t
    case Wall => CellModels.Cell.Wall
    case Floor => CellModels.Cell.Floor
    case Target => CellModels.Cell.Target
  }

  /** The cell a renderer shows at p: walls, then the player, then boxes, then bare terrain. */
  function CellAt(b: Board, s: GameState, p: Vec2): (c: CellModels.Cell)
    ensures CellModels.Under(c) == TerrainAt(b, p)
  {
    var t := TerrainAt(b, p);
    if t.Wall? then Bare(t)
    else if p == s.player then PlayerOn(t)
    else if p in IterBoxes(s.environment) then BoxOn(t)
    else Bare(t)
  }

  /** The board and the game state as one grid of cells. */
  function Encode(b: Board, s: GameState): (g: CellModels.CellGame)
    ensures |g.grid| == Height(b) && g.player == s.player
    ensures forall i :: 0 <= i < Height(b) ==> |g.grid[i]| == Width(b)
    ensures forall i, j :: 0 <= i < Height(b) && 0 <= j < Width(b) ==> g.grid[i][j] == CellAt(b, s, Vec2(i, j))
  {
    CellModels.CellGame(seq(Height(b), i => seq(Width(b), j => CellAt(b, s, Vec2(i, j)))), s.player)
  }

  /**
   * A consistent game: the player and every box stand on walkable cells of
   * the board, no box shares a cell with the player or with another box.
   */
  ghost predicate Consistent(b: Board, s: GameState) {
    Steppable(b, s) && Inside(s.player, AreaOf(b)) && IsWalkable(TerrainAt(b, s.player)) &&
    s.player !in IterBoxes(s.environment) && NoStackedBoxes(s.environment) &&
    forall k :: 0 <= k < |IterBoxes(s.environment)| ==>
      Inside(IterBoxes(s.environment)[k], AreaOf(b)) && IsWalkable(TerrainAt(b, IterBoxes(s.environment)[k]))
  }

  lemma ConsistentIsIndexable(b: Board, s: GameState)
    requires Consistent(b, s)
    ensures Update.Indexable(Encode(b, s))
    ensures forall i, j :: Update.InBounds(Encode(b, s), i, j) <==> Inside(Vec2(i, j), AreaOf(b))
  {
  }

  lemma ConsistentBoxesStorable(b: Board, s: GameState)
    requires Consistent(b, s)
    ensures LiveStorable(s.environment)
  {
    var live := IterBoxes(s.environment);
    forall k | 0 <= k < |live|
      ensures Storable(live[k])
    {
      InsideIsStorable(b, live[k]);
    }
  }

  /** The cells the two rules inspect show the board's terrain and the environment's boxes. */
  lemma InspectedCells(b: Board, s: GameState, dir: Vec2)
    requires Consistent(b, s) && dir != Vec2(0, 0)
    ensures var g := Encode(b, s);
            var n := Add(s.player, dir);
            var bb := Add(n, dir);
            var live := IterBoxes(s.environment);
            Update.Indexable(g) && Update.Dest(g, dir) == n && Update.Beyond(g, dir) == bb &&
            (Update.InBounds(g, n.i, n.j) <==> Inside(n, AreaOf(b))) &&
            (Update.InBounds(g, bb.i, bb.j) <==> Inside(bb, AreaOf(b))) &&
            (Inside(n, AreaOf(b)) ==>
               (CellModels.IsBox(g.grid[n.i][n.j]) <==> n in live) &&
               (!CellModels.IsBox(g.grid[n.i][n.j]) ==> (Update.IsFree(g.grid[n.i][n.j]) <==> IsWalkable(TerrainAt(b, n))))) &&
            (Inside(bb, AreaOf(b)) ==>
               (Update.IsFree(g.grid[bb.i][bb.j]) <==> IsWalkable(TerrainAt(b, bb)) && bb !in live))
  {
    ConsistentIsIndexable(b, s);
    var g := Encode(b, s);
    var n := Add(s.player, dir);
    var bb := Add(n, dir);
    if Inside(n, AreaOf(b)) {
      assert g.grid[n.i][n.j] == CellAt(b, s, n);
    }
    if Inside(bb, AreaOf(b)) {
      assert g.grid[bb.i][bb.j] == CellAt(b, s, bb);
    }
  }

  /** The two rules reject the same moves with the same message. */
  lemma ErrorsAgree(b: Board, s: GameState, action: UserAction)
    requires Consistent(b, s)
    ensures Update.Indexable(Encode(b, s))
    ensures Step(b, s, action).Error? <==> Update.Step(Encode(b, s), action).Error?
    ensures Step(b, s, action).Error? ==> Step(b, s, action).message == Update.Step(Encode(b, s), action).message
  {
    var dir := Update.VecFromDir(action.dir);
    InspectedCells(b, s, dir);
    StepErrorCases(b, s, action);
    StepCases(b, s, action);
    Update.StepErrorCases(Encode(b, s), action);
    Update.ApplySucceedsIffAllowed(Encode(b, s), dir);
  }

  /** After a consistent push, the boxes are the old ones with the pushed box replaced by the beyond cell. */
  lemma PushedMembership(b: Board, s: GameState, action: UserAction)
    requires Consistent(b, s) && Step(b, s, action).NextState?
    requires Add(s.player, Update.VecFromDir(action.dir)) in IterBoxes(s.environment)
    ensures var dir := Update.VecFromDir(action.dir);
            var n := Add(s.player, dir);
            var bb := Add(n, dir);
            var live := IterBoxes(s.environment);
            var live' := IterBoxes(Step(b, s, action).state.environment);
            bb !in live && Inside(bb, AreaOf(b)) && IsWalkable(TerrainAt(b, bb)) &&
            Normal(Step(b, s, action).state.environment) && NoStackedBoxes(Step(b, s, action).state.environment) &&
            forall q :: q in live' <==> (q in live && q != n) || q == bb
  {
    var dir := Update.VecFromDir(action.dir);
    var n := Add(s.player, dir);
    var bb := Add(n, dir);
    var live := IterBoxes(s.environment);
    var live' := IterBoxes(Step(b, s, action).state.environment);
    assert multiset(live') == multiset(live) - multiset{n} + multiset{bb} &&
           Normal(Step(b, s, action).state.environment) by {
      ConsistentBoxesStorable(b, s);
      StepSuccess(b, s, action);
    }
    assert bb !in live && Inside(bb, AreaOf(b)) && IsWalkable(TerrainAt(b, bb)) by {
      StepCases(b, s, action);
    }
    assert multiset(live)[n] == 1 && multiset(live)[bb] == 0;
    forall q
      ensures q in live' <==> (q in live && q != n) || q == bb
    {
      assert q in live' <==> multiset(live')[q] > 0;
      assert q in live <==> multiset(live)[q] > 0;
    }
  }

  /** A consistent game stays consistent after a successful step. */
  lemma StepKeepsConsistent(b: Board, s: GameState, action: UserAction)
    requires Consistent(b, s) && Step(b, s, action).NextState?
    ensures Consistent(b, Step(b, s, action).state)
  {
    var dir := Update.VecFromDir(action.dir);
    var n := Add(s.player, dir);
    StepCases(b, s, action);
    var s' := Step(b, s, action).state;
    if n in IterBoxes(s.environment) {
      PushedMembership(b, s, action);
      var bb := Add(n, dir);
      var live := IterBoxes(s.environment);
      var live' := IterBoxes(s'.environment);
      forall k | 0 <= k < |live'|
        ensures Inside(live'[k], AreaOf(b)) && IsWalkable(TerrainAt(b, live'[k]))
      {
        assert live'[k] in live';
        if live'[k] != bb {
          var m :| 0 <= m < |live| && live[m] == live'[k];
        }
      }
    }
  }

  /**
   * The board rule's effect of a successful move by dir: the player stands
   * on the walkable destination, and a box there moved one cell further on.
   */
  ghost predicate Moved(b: Board, s: GameState, s': GameState, dir: Vec2) {
    var n := Add(s.player, dir);
    var bb := Add(n, dir);
    var live := IterBoxes(s.environment);
    Inside(s.player, AreaOf(b)) && IsWalkable(TerrainAt(b, s.player)) && s.player !in live &&
    dir != Vec2(0, 0) && s'.player == n && Inside(n, AreaOf(b)) && IsWalkable(TerrainAt(b, n)) &&
    (n in live ==> bb !in live && forall q :: q in IterBoxes(s'.environment) <==> (q in live && q != n) || q == bb) &&
    (n !in live ==> IterBoxes(s'.environment) == live)
  }

  /** The destination shows the player on its terrain, as the cell rule writes it. */
  lemma CellAgreesAtDest(b: Board, s: GameState, s': GameState, dir: Vec2)
    requires Moved(b, s, s', dir) && Update.Indexable(Encode(b, s)) && Update.Allowed(Encode(b, s), dir)
    ensures var n := Add(s.player, dir);
            CellModels.InGrid(Encode(b, s).grid, n.i, n.j) &&
            CellAt(b, s', n) == Update.NewCell(Encode(b, s), dir, n.i, n.j)
  {
    var n := Add(s.player, dir);
    assert Update.Dest(Encode(b, s), dir) == n;
    assert Encode(b, s).grid[n.i][n.j] == CellAt(b, s, n);
  }

  /** The cell the player leaves shows its bare terrain, as the cell rule writes it. */
  lemma CellAgreesAtStart(b: Board, s: GameState, s': GameState, dir: Vec2)
    requires Moved(b, s, s', dir) && Update.Indexable(Encode(b, s)) && Update.Allowed(Encode(b, s), dir)
    ensures var p := s.player;
            CellModels.InGrid(Encode(b, s).grid, p.i, p.j) &&
            CellAt(b, s', p) == Update.NewCell(Encode(b, s), dir, p.i, p.j)
  {
    var g := Encode(b, s);
    var p := s.player;
    var n := Add(p, dir);
    assert Update.Dest(g, dir) == n && p != n;
    assert g.grid[p.i][p.j] == CellAt(b, s, p) == PlayerOn(TerrainAt(b, p));
    assert p !in IterBoxes(s'.environment);
  }

  /** The cell beyond a pushed box shows the box on its terrain, as the cell rule writes it. */
  lemma CellAgreesBeyond(b: Board, s: GameState, s': GameState, dir: Vec2)
    requires Moved(b, s, s', dir) && Update.Indexable(Encode(b, s)) && Update.Allowed(Encode(b, s), dir)
    requires Add(s.player, dir) in IterBoxes(s.environment)
    ensures var bb := Add(Add(s.player, dir), dir);
            CellModels.InGrid(Encode(b, s).grid, bb.i, bb.j) &&
            CellAt(b, s', bb) == Update.NewCell(Encode(b, s), dir, bb.i, bb.j)
  {
    var g := Encode(b, s);
    var p := s.player;
    var n := Add(p, dir);
    var bb := Add(n, dir);
    assert Update.Dest(g, dir) == n && Update.Beyond(g, dir) == bb;
    assert g.grid[n.i][n.j] == CellAt(b, s, n) == BoxOn(TerrainAt(b, n));
    Update.NewCellBeyond(g, dir);
    assert g.grid[bb.i][bb.j] == CellAt(b, s, bb) == Bare(TerrainAt(b, bb));
  }

  /** Every other cell keeps what it showed, as the cell rule keeps it. */
  lemma CellAgreesElsewhere(b: Board, s: GameState, s': GameState, dir: Vec2, x: int, y: int)
    requires Moved(b, s, s', dir) && Update.Indexable(Encode(b, s)) && Update.Allowed(Encode(b, s), dir)
    requires 0 <= x < Height(b) && 0 <= y < Width(b)
    requires var n := Add(s.player, dir);
             Vec2(x, y) != n && Vec2(x, y) != s.player &&
             (n in IterBoxes(s.environment) ==> Vec2(x, y) != Add(n, dir))
    ensures CellModels.InGrid(Encode(b, s).grid, x, y)
    ensures CellAt(b, s', Vec2(x, y)) == Update.NewCell(Encode(b, s), dir, x, y)
  {
    var g := Encode(b, s);
    var n := Add(s.player, dir);
    var q := Vec2(x, y);
    assert Update.Dest(g, dir) == n && Update.Beyond(g, dir) == Add(n, dir);
    assert g.grid[n.i][n.j] == CellAt(b, s, n);
    assert CellModels.IsBox(g.grid[n.i][n.j]) <==> n in IterBoxes(s.environment);
    assert g.grid[x][y] == CellAt(b, s, q);
    assert q in IterBoxes(s'.environment) <==> q in IterBoxes(s.environment);
  }

  /** One cell of the encoded result: the board rule's new state shows what the cell rule writes there. */
  lemma CellAgrees(b: Board, s: GameState, s': GameState, dir: Vec2, x: int, y: int)
    requires Moved(b, s, s', dir) && Update.Indexable(Encode(b, s)) && Update.Allowed(Encode(b, s), dir)
    requires 0 <= x < Height(b) && 0 <= y < Width(b)
    ensures CellModels.InGrid(Encode(b, s).grid, x, y)
    ensures CellAt(b, s', Vec2(x, y)) == Update.NewCell(Encode(b, s), dir, x, y)
  {
    var n := Add(s.player, dir);
    var q := Vec2(x, y);
    if q == n {
      CellAgreesAtDest(b, s, s', dir);
    } else if q == s.player {
      CellAgreesAtStart(b, s, s', dir);
    } else if n in IterBoxes(s.environment) && q == Add(n, dir) {
      CellAgreesBeyond(b, s, s', dir);
    } else {
      CellAgreesElsewhere(b, s, s', dir, x, y);
    }
  }

  /** A grid holding the cell rule's writes everywhere is the encoding of the board rule's new state. */
  lemma GridAgrees(b: Board, s: GameState, s': GameState, dir: Vec2, g': CellModels.Grid)
    requires Moved(b, s, s', dir) && Update.Indexable(Encode(b, s)) && Update.Allowed(Encode(b, s), dir)
    requires |g'| == Height(b) && forall k :: 0 <= k < |g'| ==> |g'[k]| == Width(b)
    requires forall x, y :: CellModels.InGrid(Encode(b, s).grid, x, y) ==> g'[x][y] == Update.NewCell(Encode(b, s), dir, x, y)
    ensures g' == Encode(b, s').grid
  {
    var e := Encode(b, s');
    forall x, y | 0 <= x < |g'| && 0 <= y < |g'[x]|
      ensures g'[x][y] == e.grid[x][y]
    {
      CellAgrees(b, s, s', dir, x, y);
    }
    CellModels.SameCellsSameGrid(g', e.grid);
  }

  /** What a successful board step does, in the terms `GridAgrees` asks for. */
  lemma BoardSuccess(b: Board, s: GameState, action: UserAction)
    requires Consistent(b, s) && Step(b, s, action).NextState?
    ensures var n := Add(s.player, Update.VecFromDir(action.dir));
            var bb := Add(n, Update.VecFromDir(action.dir));
            var live := IterBoxes(s.environment);
            var r := Step(b, s, action);
            r.state.player == n && (r.change == PlayerAndBoxMove <==> n in live) &&
            Inside(n, AreaOf(b)) && IsWalkable(TerrainAt(b, n)) &&
            (n in live ==> bb !in live && forall q :: q in IterBoxes(r.state.environment) <==> (q in live && q != n) || q == bb) &&
            (n !in live ==> IterBoxes(r.state.environment) == live)
  {
    StepCases(b, s, action);
    if Add(s.player, Update.VecFromDir(action.dir)) in IterBoxes(s.environment) {
      PushedMembership(b, s, action);
    }
  }

  /** The destination of a move inside the board holds a box in the encoding exactly when it is a live box. */
  lemma DestCell(b: Board, s: GameState, dir: Vec2)
    requires Inside(Add(s.player, dir), AreaOf(b))
    ensures var n := Add(s.player, dir);
            var g := Encode(b, s);
            Update.Dest(g, dir) == n && g.grid[n.i][n.j] == CellAt(b, s, n)
  {
  }

  /**
   * The cell rule applied to the encoding of a game gives the encoding of
   * any state that has the board rule's effects, and moves a box exactly
   * when the destination holds one.
   */
  lemma ApplyAgrees(b: Board, s: GameState, s': GameState, dir: Vec2)
    requires Moved(b, s, s', dir) && Update.Indexable(Encode(b, s)) && Update.Apply(Encode(b, s), dir).NextState?
    ensures Update.Apply(Encode(b, s), dir).state == Encode(b, s')
    ensures Update.Apply(Encode(b, s), dir).change == PlayerAndBoxMove <==> Add(s.player, dir) in IterBoxes(s.environment)
  {
    var g := Encode(b, s);
    DestCell(b, s, dir);
    Update.ApplySucceedsIffAllowed(g, dir);
    Update.ApplyCells(g, dir);
    GridAgrees(b, s, s', dir, Update.Apply(g, dir).state.grid);
  }

  lemma SuccessAgrees(b: Board, s: GameState, action: UserAction)
    requires Consistent(b, s) && Step(b, s, action).NextState?
    requires Update.Indexable(Encode(b, s)) && Update.Step(Encode(b, s), action).NextState?
    ensures var r := Step(b, s, action);
            var c := Update.Step(Encode(b, s), action);
            c.state == Encode(b, r.state) && c.change == r.change
  {
    BoardSuccess(b, s, action);
    ApplyAgrees(b, s, Step(b, s, action).state, Update.VecFromDir(action.dir));
  }

  /**
   * The board rule and the cell-grid rule agree on consistent games: they
   * reject the same moves with the same message, and on success the
   * cell grid's result is the encoding of the board rule's result, with
   * the same change type.
   */
  lemma StepsAgree(b: Board, s: GameState, action: UserAction)
    requires Consistent(b, s)
    ensures Update.Indexable(Encode(b, s))
    ensures var r := Step(b, s, action);
            var c := Update.Step(Encode(b, s), action);
            (r.Error? <==> c.Error?) && (r.Error? ==> r.message == c.message) &&
            (r.NextState? ==> Consistent(b, r.state) && c.state == Encode(b, r.state) && c.change == r.change)
  {
    ErrorsAgree(b, s, action);
    if Step(b, s, action).NextState? {
      StepKeepsConsistent(b, s, action);
      SuccessAgrees(b, s, action);
    }
  }
}
