/**
 * Level text to board and back (RulesEngine/src/console_interface.rs):
 * `parse_level` reads the non-blank lines of a level into a board padded
 * with floor to the widest line, the boxes in reading order and the last
 * player mark; `render_game_to_string` draws a board and state as text.
 */
module ConsoleInterface {
  import opened CoreModels

  // ---------------------------------------------------------------------
  // Lines of a text
  // ---------------------------------------------------------------------

  /** The index of the first line feed in s, or |s| when there is none. */
  function NewlineAt(s: string): (k: nat)
    ensures k <= |s| && '\n' !in s[..k] && (k < |s| ==> s[k] == '\n')
  {
    if s == [] || s[0] == '\n' then 0
    else
      var k := 1 + NewlineAt(s[1..]);
      assert s[..k] == [s[0]] + s[1..][..k - 1];
      k
  }

  /**
   * `str::lines`: split at each line feed, drop a carriage return that
   * precedes the line feed, and produce no empty line after a final line feed.
   */
  function Lines(s: string): (r: seq<string>)
    ensures forall k :: 0 <= k < |r| ==> '\n' !in r[k]
    ensures r == [] <==> s == []
    decreases |s|
  {
    if s == [] then []
    else
      var k := NewlineAt(s);
      if k == |s| then [s]
      else
        var line := if k > 0 && s[k - 1] == '\r' then s[..k - 1] else s[..k];
        [line] + Lines(s[k + 1..])
  }

  /** A character UTF-8 stores in one byte. */
  predicate IsAscii(ch: char) {
    ch as int < 0x80
  }

  /** The number of bytes UTF-8 spends on one character, by code point. */
  function Utf8Width(ch: char): (n: nat)
    ensures 1 <= n <= 4 && (n == 1 <==> IsAscii(ch))
  {
    if ch as int < 0x80 then 1
    else if ch as int < 0x800 then 2
    else if ch as int < 0x1_0000 then 3
    else 4
  }

  /** `str::len`: the length of a line in UTF-8 bytes, at least its number of characters. */
  function ByteLen(line: string): (n: nat)
    ensures |line| <= n
  {
    if line == [] then 0 else ByteLen(line[..|line| - 1]) + Utf8Width(line[|line| - 1])
  }

  /** Bytes and characters of a line agree exactly when the line is ASCII. */
  lemma {:induction false} ByteLenIsLength(line: string)
    ensures ByteLen(line) == |line| <==> forall j :: 0 <= j < |line| ==> IsAscii(line[j])
  {
    if line != [] {
      var init := line[..|line| - 1];
      ByteLenIsLength(init);
      assert forall j :: 0 <= j < |init| ==> init[j] == line[j];
    }
  }

  /**
   * The widest line in bytes, as `line.len()` measures it; 0 when there
   * are no lines (`max().unwrap_or(0)`). No line has more characters.
   */
  function MaxLen(lines: seq<string>): (w: nat)
    ensures forall k :: 0 <= k < |lines| ==> |lines[k]| <= ByteLen(lines[k]) <= w
    ensures lines == [] ==> w == 0
    ensures lines != [] ==> exists k :: 0 <= k < |lines| && ByteLen(lines[k]) == w
  {
    if lines == [] then 0
    else
      var w := MaxLen(lines[..|lines| - 1]);
      var last := ByteLen(lines[|lines| - 1]);
      if last > w then last else w
  }

  /** The lines that are not blank, in order: the rows of the level. */
  function NonEmpty(lines: seq<string>): seq<string> {
    if lines == [] then []
    else
      var rest := NonEmpty(lines[..|lines| - 1]);
      if lines[|lines| - 1] == [] then rest else rest + [lines[|lines| - 1]]
  }

  // ---------------------------------------------------------------------
  // The character table
  // ---------------------------------------------------------------------

  /** The terrain under a level character; anything unknown is floor. */
  function ParseCell(ch: char): Terrain {
    match ch
    case '#' => Wall
    case ' ' => Floor
    case '.' => Target
    case '$' => Floor
    case '*' => Target
    case '@' => Floor
    case '+' => Target
    case _ => Floor
  }

  predicate IsBoxChar(ch: char) {
    ch == '$' || ch == '*'
  }

  predicate IsPlayerChar(ch: char) {
    ch == '@' || ch == '+'
  }

  /** The boxes recorded while reading row i, left to right. */
  function RowBoxes(i: int, line: string): seq<Vec2> {
    if line == [] then []
    else
      RowBoxes(i, line[..|line| - 1]) +
      (if IsBoxChar(line[|line| - 1]) then [Vec2(i, |line| - 1)] else [])
  }

  /** The player after reading row i, starting from p: the last player mark wins. */
  function RowPlayer(i: int, line: string, p: Vec2): Vec2 {
    if line == [] then p
    else if IsPlayerChar(line[|line| - 1]) then Vec2(i, |line| - 1)
    else RowPlayer(i, line[..|line| - 1], p)
  }

  /** The boxes of all rows in reading order. */
  function BoxesOf(rows: seq<string>): seq<Vec2> {
    if rows == [] then []
    else BoxesOf(rows[..|rows| - 1]) + RowBoxes(|rows| - 1, rows[|rows| - 1])
  }

  /** The player after reading all rows, starting from p. */
  function PlayerOf(rows: seq<string>, p: Vec2): Vec2 {
    if rows == [] then p
    else RowPlayer(|rows| - 1, rows[|rows| - 1], PlayerOf(rows[..|rows| - 1], p))
  }

  /** The terrain of one row, in order. */
  function ParseRow(line: string): (r: seq<Terrain>)
    ensures |r| == |line| && forall j :: 0 <= j < |line| ==> r[j] == ParseCell(line[j])
  {
    seq(|line|, j requires 0 <= j < |line| => ParseCell(line[j]))
  }

  /** A row of terrain padded with floor up to width w. */
  function Padded(line: string, w: nat): seq<Terrain> {
    ParseRow(line) + seq(if w > |line| then w - |line| else 0, _ => Floor)
  }

  function GridOf(rows: seq<string>, w: nat): seq<seq<Terrain>> {
    seq(|rows|, r requires 0 <= r < |rows| => Padded(rows[r], w))
  }

  ghost function ParsedBoard(s: string): Board {
    Board(GridOf(NonEmpty(Lines(s)), MaxLen(Lines(s))))
  }

  ghost function ParsedState(s: string): ListState {
    ListState(BoxesOf(NonEmpty(Lines(s))), PlayerOf(NonEmpty(Lines(s)), Vec2(0, 0)))
  }

  // ---------------------------------------------------------------------
  // parse_level
  // ---------------------------------------------------------------------

  /** The inner loop of `parse_level`: read one line's cells, boxes and player mark. */
  method ReadRow(i: int, line: string, boxes0: seq<Vec2>, player0: Vec2)
    returns (row: seq<Terrain>, boxes: seq<Vec2>, player: Vec2)
    ensures row == ParseRow(line)
    ensures boxes == boxes0 + RowBoxes(i, line)
    ensures player == RowPlayer(i, line, player0)
  {
    row, boxes, player := [], boxes0, player0;
    for j := 0 to |line|
      invariant row == ParseRow(line[..j])
      invariant boxes == boxes0 + RowBoxes(i, line[..j])
      invariant player == RowPlayer(i, line[..j], player0)
    {
      var ch := line[j];
      assert line[..j + 1][..j] == line[..j];
      var c := ParseCell(ch);
      if ch == '$' || ch == '*' {
        boxes := boxes + [Vec2(i, j)];
      } else if ch == '@' || ch == '+' {
        player := Vec2(i, j);
      }
      row := row + [c];
    }
    assert line[..|line|] == line;
  }

  /** Pad a parsed row with floor up to the widest line. */
  method PadRow(line: string, row0: seq<Terrain>, w: nat) returns (row: seq<Terrain>)
    requires row0 == ParseRow(line)
    ensures row == Padded(line, w)
  {
    row := row0;
    while |row| < w
      invariant |line| <= |row|
      invariant |row| <= w || row == row0
      invariant row == ParseRow(line) + seq(|row| - |line|, _ => Floor)
    {
      row := row + [Floor];
    }
  }

  lemma GridOfSnoc(rows: seq<string>, line: string, w: nat)
    ensures GridOf(rows + [line], w) == GridOf(rows, w) + [Padded(line, w)]
  {
    var a := GridOf(rows + [line], w);
    var b := GridOf(rows, w) + [Padded(line, w)];
    assert |a| == |b|;
    forall r | 0 <= r < |a|
      ensures a[r] == b[r]
    {
      if r < |rows| {
        assert (rows + [line])[r] == rows[r];
      }
    }
  }

  /** One non-blank line of `parse_level`: read it as row i, pad it to w and append it. */
  method AddRow(i: int, line: string, w: nat, grid0: seq<seq<Terrain>>, boxes0: seq<Vec2>, player0: Vec2)
    returns (grid: seq<seq<Terrain>>, boxes: seq<Vec2>, player: Vec2)
    ensures grid == grid0 + [Padded(line, w)]
    ensures boxes == boxes0 + RowBoxes(i, line)
    ensures player == RowPlayer(i, line, player0)
  {
    var row;
    row, boxes, player := ReadRow(i, line, boxes0, player0);
    row := PadRow(line, row, w);
    grid := grid0 + [row];
  }

  /** `parse_level`. */
  method ParseLevel(s: string) returns (state: ListState, board: Board)
    ensures board == ParsedBoard(s) && state == ParsedState(s)
  {
    var lines := Lines(s);
    var maxWidth := MaxLen(lines);
    var grid: seq<seq<Terrain>> := [];
    var player := Vec2(0, 0);
    var boxes: seq<Vec2> := [];
    var i := 0;
    for li := 0 to |lines|
      invariant i == |NonEmpty(lines[..li])|
      invariant grid == GridOf(NonEmpty(lines[..li]), maxWidth)
      invariant boxes == BoxesOf(NonEmpty(lines[..li]))
      invariant player == PlayerOf(NonEmpty(lines[..li]), Vec2(0, 0))
    {
      var line := lines[li];
      assert lines[..li + 1][..li] == lines[..li];
      if |line| == 0 {
        continue;
      }
      ghost var rows := NonEmpty(lines[..li]);
      assert NonEmpty(lines[..li + 1]) == rows + [line];
      grid, boxes, player := AddRow(i, line, maxWidth, grid, boxes, player);
      GridOfSnoc(rows, line, maxWidth);
      assert (rows + [line])[..|rows|] == rows;
      i := i + 1;
    }
    assert lines[..|lines|] == lines;
    state := ListState(boxes, player);
    board := Board(grid);
  }

  // ---------------------------------------------------------------------
  // What the parse produces
  // ---------------------------------------------------------------------

  /** Every row is as wide as the widest line: floor pads the short ones. */
  lemma ParsedBoardShape(s: string)
    ensures var rows := NonEmpty(Lines(s));
            var g := ParsedBoard(s).grid;
            |g| == |rows| &&
            forall r :: 0 <= r < |g| ==>
              |g[r]| == MaxLen(Lines(s)) &&
              (forall j :: 0 <= j < |rows[r]| ==> g[r][j] == ParseCell(rows[r][j])) &&
              (forall j :: |rows[r]| <= j < |g[r]| ==> g[r][j] == Floor)
  {
    var rows := NonEmpty(Lines(s));
    forall r | 0 <= r < |rows|
      ensures |rows[r]| <= MaxLen(Lines(s))
    {
      NonEmptyAreLines(Lines(s), r);
    }
  }

  /** Blank lines are dropped; every other line is kept, in order. */
  lemma {:induction false} NonEmptyAreLines(lines: seq<string>, r: int)
    requires 0 <= r < |NonEmpty(lines)|
    ensures NonEmpty(lines)[r] != [] && NonEmpty(lines)[r] in lines
  {
    var init := lines[..|lines| - 1];
    if r < |NonEmpty(init)| {
      NonEmptyAreLines(init, r);
    }
  }

  /**
   * A line with a character outside ASCII is wider in bytes than in
   * characters, so the padding width exceeds the rows' lengths: a line
   * holding one two-byte character such as `é`, then a line `#`, parse to
   * two columns each.
   */
  lemma WideCharacterWidensRows(c: char)
    requires 0x80 <= c as int < 0x800
    ensures ParsedBoard([c] + "\n#").grid == [[Floor, Floor], [Wall, Floor]]
  {
    var lines := [[c], "#"];
    assert [c] + "\n#" == [c] + "\n" + "#";
    LinesOfTwoLines([c], "#");
    TwoLinesWidth(c);
    TwoLinesGrid(c);
  }

  lemma TwoLinesWidth(c: char)
    requires 0x80 <= c as int < 0x800
    ensures MaxLen([[c], "#"]) == 2 && NonEmpty([[c], "#"]) == [[c], "#"]
  {
    var lines := [[c], "#"];
    assert ByteLen([c]) == 2 && ByteLen("#") == 1;
    assert lines[..1] == [[c]];
    assert NonEmpty(lines[..1]) == [[c]];
  }

  lemma TwoLinesGrid(c: char)
    requires 0x80 <= c as int < 0x800
    ensures GridOf([[c], "#"], 2) == [[Floor, Floor], [Wall, Floor]]
  {
    assert ParseCell(c) == Floor;
    var first := Padded([c], 2);
    assert first == [Floor] + [Floor] == [Floor, Floor];
    var second := Padded("#", 2);
    assert second == [Wall] + [Floor] == [Wall, Floor];
    var g := GridOf([[c], "#"], 2);
    assert |g| == 2 && g[0] == first && g[1] == second;
  }

  /** Two lines without line breaks, joined by one line feed. */
  lemma LinesOfTwoLines(a: string, b: string)
    requires '\n' !in a && '\r' !in a && '\n' !in b && b != []
    ensures Lines(a + "\n" + b) == [a, b]
  {
    LinesCons(a, b);
    assert NewlineAt(b) == |b|;
  }

  /** A box is recorded at (r, j) exactly when row r has a box mark in column j. */
  lemma {:induction false} RowBoxesMembership(i: int, line: string)
    ensures forall p :: p in RowBoxes(i, line) <==>
              p.i == i && 0 <= p.j < |line| && IsBoxChar(line[p.j])
    ensures forall x, y :: 0 <= x < y < |RowBoxes(i, line)| ==> RowBoxes(i, line)[x].j < RowBoxes(i, line)[y].j
    ensures forall x :: 0 <= x < |RowBoxes(i, line)| ==> RowBoxes(i, line)[x].i == i
  {
    if line != [] {
      RowBoxesMembership(i, line[..|line| - 1]);
    }
  }

  lemma {:induction false} BoxesMembership(rows: seq<string>)
    ensures forall p :: p in BoxesOf(rows) <==>
              0 <= p.i < |rows| && 0 <= p.j < |rows[p.i]| && IsBoxChar(rows[p.i][p.j])
    ensures forall x, y :: 0 <= x < y < |BoxesOf(rows)| ==> Lt(BoxesOf(rows)[x], BoxesOf(rows)[y])
    ensures forall x :: 0 <= x < |BoxesOf(rows)| ==> 0 <= BoxesOf(rows)[x].i < |rows|
  {
    if rows != [] {
      var init := rows[..|rows| - 1];
      BoxesMembership(init);
      RowBoxesMembership(|rows| - 1, rows[|rows| - 1]);
      var a := BoxesOf(init);
      var c := RowBoxes(|rows| - 1, rows[|rows| - 1]);
      assert BoxesOf(rows) == a + c;
      forall x, y | 0 <= x < y < |a + c|
        ensures Lt((a + c)[x], (a + c)[y])
      {
        if y < |a| {
        } else if x < |a| {
          assert (a + c)[x] == a[x] && (a + c)[y] == c[y - |a|];
        } else {
          assert (a + c)[x] == c[x - |a|] && (a + c)[y] == c[y - |a|];
        }
      }
    }
  }

  /**
   * Boxes come out in reading order, one per box mark: `$` and `*` record
   * a box at their row and column and nothing else does.
   */
  lemma ParsedBoxes(s: string)
    ensures var rows := NonEmpty(Lines(s));
            var boxes := ParsedState(s).boxes;
            (forall p :: p in boxes <==> 0 <= p.i < |rows| && 0 <= p.j < |rows[p.i]| && IsBoxChar(rows[p.i][p.j])) &&
            forall x, y :: 0 <= x < y < |boxes| ==> Lt(boxes[x], boxes[y])
  {
    BoxesMembership(NonEmpty(Lines(s)));
  }

  /** Some row holds a player mark. */
  ghost predicate HasPlayerMark(rows: seq<string>) {
    exists r, j :: 0 <= r < |rows| && 0 <= j < |rows[r]| && IsPlayerChar(rows[r][j])
  }

  lemma {:induction false} RowPlayerIsLastMark(i: int, line: string, p: Vec2)
    ensures var q := RowPlayer(i, line, p);
            ((forall j :: 0 <= j < |line| ==> !IsPlayerChar(line[j])) ==> q == p) &&
            ((exists j :: 0 <= j < |line| && IsPlayerChar(line[j])) ==>
               q.i == i && 0 <= q.j < |line| && IsPlayerChar(line[q.j]) &&
               forall j :: q.j < j < |line| ==> !IsPlayerChar(line[j]))
  {
    if line != [] {
      var init := line[..|line| - 1];
      RowPlayerIsLastMark(i, init, p);
      if !IsPlayerChar(line[|line| - 1]) {
        assert forall j :: 0 <= j < |init| ==> init[j] == line[j];
      }
    }
  }

  /**
   * The player is the last `@` or `+` in reading order, or (0, 0) when the
   * level has none.
   */
  lemma {:induction false} PlayerIsLastMark(rows: seq<string>, p: Vec2)
    ensures var q := PlayerOf(rows, p);
            (!HasPlayerMark(rows) ==> q == p) &&
            (HasPlayerMark(rows) ==>
               0 <= q.i < |rows| && 0 <= q.j < |rows[q.i]| && IsPlayerChar(rows[q.i][q.j]) &&
               forall r, j :: 0 <= r < |rows| && 0 <= j < |rows[r]| && Lt(q, Vec2(r, j)) ==> !IsPlayerChar(rows[r][j]))
  {
    if rows != [] {
      var init := rows[..|rows| - 1];
      var last := rows[|rows| - 1];
      PlayerIsLastMark(init, p);
      RowPlayerIsLastMark(|rows| - 1, last, PlayerOf(init, p));
      assert forall r :: 0 <= r < |init| ==> init[r] == rows[r];
      if HasPlayerMark(rows) && !HasPlayerMark(init) {
        var r, j :| 0 <= r < |rows| && 0 <= j < |rows[r]| && IsPlayerChar(rows[r][j]);
        assert r == |rows| - 1;
      }
    }
  }

  // ---------------------------------------------------------------------
  // render_game_to_string
  // ---------------------------------------------------------------------

  /** The character of one cell: the player shows before a box. */
  function RenderChar(t: Terrain, hasPlayer: bool, hasBox: bool): char {
    match t
    case Wall => '#'
    case Floor => if hasPlayer then '@' else if hasBox then '$' else ' '
    case Target => if hasPlayer then '+' else if hasBox then '*' else '.'
  }

  function RenderRow(b: Board, game: ListState, i: int): string
    requires 0 <= i < |b.grid|
  {
    seq(|b.grid[i]|, j requires 0 <= j < |b.grid[i]| =>
      RenderChar(b.grid[i][j], Vec2(i, j) == game.player, Vec2(i, j) in game.boxes))
  }

  /** Each row followed by a line feed. */
  function Join(rows: seq<string>): string {
    if rows == [] then [] else Join(rows[..|rows| - 1]) + rows[|rows| - 1] + "\n"
  }

  function RenderedRows(b: Board, game: ListState): seq<string> {
    seq(|b.grid|, i requires 0 <= i < |b.grid| => RenderRow(b, game, i))
  }

  /** `render_game_to_string`. */
  method RenderGameToString(b: Board, game: ListState) returns (result: string)
    ensures result == Join(RenderedRows(b, game))
  {
    result := [];
    for i := 0 to |b.grid|
      invariant result == Join(RenderedRows(b, game)[..i])
    {
      var row := b.grid[i];
      ghost var before := result;
      for j := 0 to |row|
        invariant result == before + RenderRow(b, game, i)[..j]
      {
        var pos := Vec2(i, j);
        var hasPlayer := pos == game.player;
        var hasBox := pos in game.boxes;
        var ch := RenderChar(row[j], hasPlayer, hasBox);
        result := result + [ch];
      }
      result := result + "\n";
      assert RenderedRows(b, game)[..i + 1][..i] == RenderedRows(b, game)[..i];
      assert RenderRow(b, game, i)[..|row|] == RenderRow(b, game, i);
    }
    assert RenderedRows(b, game)[..|b.grid|] == RenderedRows(b, game);
  }

  /**
   * Rendering inverts the parse table cell by cell: the terrain is read
   * back, and the character is a player mark exactly when the player is
   * there, a box mark exactly when a box and not the player is there.
   */
  lemma RenderCharInverse(t: Terrain, hasPlayer: bool, hasBox: bool)
    ensures var ch := RenderChar(t, hasPlayer, hasBox);
            ParseCell(ch) == t &&
            (IsPlayerChar(ch) <==> t != Wall && hasPlayer) &&
            (IsBoxChar(ch) <==> t != Wall && !hasPlayer && hasBox)
  {
  }

  // ---------------------------------------------------------------------
  // The round trip
  // ---------------------------------------------------------------------

  /** The characters a rendered level is made of. */
  predicate LevelChar(ch: char) {
    ch == '#' || ch == ' ' || ch == '.' || ch == '$' || ch == '*' || ch == '@' || ch == '+'
  }

  /** A rectangular level text with one player mark, row by row. */
  ghost predicate LevelRows(rows: seq<string>) {
    |rows| > 0 && |rows[0]| > 0 &&
    (forall r :: 0 <= r < |rows| ==> |rows[r]| == |rows[0]|) &&
    (forall r, j :: 0 <= r < |rows| && 0 <= j < |rows[r]| ==> LevelChar(rows[r][j])) &&
    exists pi, pj :: 0 <= pi < |rows| && 0 <= pj < |rows[pi]| && IsPlayerChar(rows[pi][pj]) &&
      forall r, j :: 0 <= r < |rows| && 0 <= j < |rows[r]| && IsPlayerChar(rows[r][j]) ==> r == pi && j == pj
  }

  lemma {:induction false} JoinCons(r: string, rows: seq<string>)
    ensures Join([r] + rows) == r + "\n" + Join(rows)
    decreases |rows|
  {
    if rows != [] {
      var init := rows[..|rows| - 1];
      JoinCons(r, init);
      assert ([r] + rows)[..|rows|] == [r] + init;
    }
  }

  /** n line feeds. */
  function Blank(n: nat): string {
    seq(n, _ => '\n')
  }

  /** A line without a line feed or a trailing carriage return, then a line feed, is split off whole. */
  lemma LinesCons(line: string, rest: string)
    requires '\n' !in line && (line == [] || line[|line| - 1] != '\r')
    ensures Lines(line + "\n" + rest) == [line] + Lines(rest)
  {
    var s := line + ("\n" + rest);
    assert s == line + "\n" + rest;
    NewlineAtPrefix(line, "\n" + rest);
    var k := |line|;
    assert s[..k] == line;
    assert s[k + 1..] == rest;
    assert k > 0 ==> s[k - 1] == line[k - 1];
    assert Lines(s) == [s[..k]] + Lines(s[k + 1..]);
  }

  /** Each text row comes back as one line. */
  lemma {:induction false} LinesOfJoin(rows: seq<string>)
    requires forall r :: 0 <= r < |rows| ==> '\n' !in rows[r] && '\r' !in rows[r]
    ensures Lines(Join(rows)) == rows
    decreases |rows|
  {
    if rows != [] {
      var rest := rows[1..];
      assert rows == [rows[0]] + rest;
      JoinCons(rows[0], rest);
      LinesCons(rows[0], Join(rest));
      LinesOfJoin(rest);
    }
  }

  lemma NewlineAtPrefix(a: string, b: string)
    requires '\n' !in a && b != [] && b[0] == '\n'
    ensures NewlineAt(a + b) == |a|
  {
    assert (a + b)[..|a|] == a;
    assert (a + b)[|a|] == '\n';
  }

  /** `n` empty lines. */
  function EmptyLines(n: nat): seq<string> {
    seq(n, _ => "")
  }

  /** Blank lines in front of a level come back as empty lines. */
  lemma {:induction false} LinesOfBlankPrefix(n: nat, t: string)
    ensures Lines(Blank(n) + t) == EmptyLines(n) + Lines(t)
  {
    if n > 0 {
      var rest := Blank(n - 1) + t;
      assert Blank(n) == "\n" + Blank(n - 1);
      assert Blank(n) + t == "" + "\n" + rest;
      LinesCons("", rest);
      LinesOfBlankPrefix(n - 1, t);
      var es: seq<string> := EmptyLines(n);
      assert es == [""] + EmptyLines(n - 1);
      calc {
        Lines(Blank(n) + t);
        [""] + Lines(rest);
        [""] + (EmptyLines(n - 1) + Lines(t));
        es + Lines(t);
      }
    } else {
      assert Blank(n) + t == t;
    }
  }

  lemma {:induction false} NonEmptyOfBlanks(n: nat, rows: seq<string>)
    requires forall r :: 0 <= r < |rows| ==> rows[r] != []
    ensures NonEmpty(EmptyLines(n) + rows) == rows
    decreases |rows|
  {
    var all := EmptyLines(n) + rows;
    if rows == [] {
      BlanksVanish(n);
      assert all == EmptyLines(n);
    } else {
      assert all[..|all| - 1] == EmptyLines(n) + rows[..|rows| - 1];
      NonEmptyOfBlanks(n, rows[..|rows| - 1]);
    }
  }

  lemma {:induction false} BlanksVanish(n: nat)
    ensures NonEmpty(EmptyLines(n)) == []
  {
    if n > 0 {
      assert EmptyLines(n)[..n - 1] == EmptyLines(n - 1);
      BlanksVanish(n - 1);
    }
  }

  /** One rendered row of a parsed level is the level's row. */
  lemma RenderedRowIsRow(rows: seq<string>, b: Board, game: ListState, pi: int, pj: int, r: int)
    requires 0 <= r < |rows| && |b.grid| == |rows| && b.grid[r] == ParseRow(rows[r])
    requires forall j :: 0 <= j < |rows[r]| ==> LevelChar(rows[r][j])
    requires forall p :: p in game.boxes <==> 0 <= p.i < |rows| && 0 <= p.j < |rows[p.i]| && IsBoxChar(rows[p.i][p.j])
    requires game.player == Vec2(pi, pj)
    requires forall j :: 0 <= j < |rows[r]| && IsPlayerChar(rows[r][j]) ==> r == pi && j == pj
    requires r == pi ==> 0 <= pj < |rows[r]| && IsPlayerChar(rows[r][pj])
    ensures RenderRow(b, game, r) == rows[r]
  {
    forall j | 0 <= j < |rows[r]|
      ensures RenderRow(b, game, r)[j] == rows[r][j]
    {
      var ch := rows[r][j];
      assert LevelChar(ch);
      assert b.grid[r][j] == ParseCell(ch);
      assert (Vec2(r, j) == game.player) <==> IsPlayerChar(ch);
      assert (Vec2(r, j) in game.boxes) <==> IsBoxChar(ch);
    }
  }

  /** The lines of a level text with leading blank lines. */
  lemma LinesOfLevel(lead: nat, rows: seq<string>)
    requires LevelRows(rows)
    ensures var s := Blank(lead) + Join(rows);
            NonEmpty(Lines(s)) == rows && MaxLen(Lines(s)) == |rows[0]|
  {
    var w := |rows[0]|;
    assert forall r :: 0 <= r < |rows| ==> '\n' !in rows[r] && '\r' !in rows[r] by {
      forall r | 0 <= r < |rows|
        ensures '\n' !in rows[r] && '\r' !in rows[r]
      {
        assert forall j :: 0 <= j < |rows[r]| ==> LevelChar(rows[r][j]);
      }
    }
    forall r | 0 <= r < |rows|
      ensures ByteLen(rows[r]) == w
    {
      assert forall j :: 0 <= j < |rows[r]| ==> LevelChar(rows[r][j]);
      ByteLenIsLength(rows[r]);
    }
    LinesOfJoin(rows);
    LinesOfBlankPrefix(lead, Join(rows));
    NonEmptyOfBlanks(lead, rows);
    MaxLenOfPadded(lead, rows, w);
  }

  /** Empty lines in front of rows of one byte length leave that length as the widest. */
  lemma MaxLenOfPadded(lead: nat, rows: seq<string>, w: nat)
    requires |rows| > 0 && forall r :: 0 <= r < |rows| ==> ByteLen(rows[r]) == w
    ensures MaxLen(EmptyLines(lead) + rows) == w
  {
    var lines := EmptyLines(lead) + rows;
    assert ByteLen(lines[lead]) == w by {
      assert lines[lead] == rows[0];
    }
    forall k | 0 <= k < |lines|
      ensures ByteLen(lines[k]) <= w
    {
      if k < lead {
        assert lines[k] == "";
      } else {
        assert lines[k] == rows[k - lead];
      }
    }
  }

  /** Rendering the board and state read off level rows gives the rows back. */
  lemma RenderOfRows(rows: seq<string>)
    requires LevelRows(rows)
    ensures RenderedRows(Board(GridOf(rows, |rows[0]|)), ListState(BoxesOf(rows), PlayerOf(rows, Vec2(0, 0)))) == rows
  {
    var b := Board(GridOf(rows, |rows[0]|));
    var game := ListState(BoxesOf(rows), PlayerOf(rows, Vec2(0, 0)));
    BoxesMembership(rows);
    PlayerIsLastMark(rows, Vec2(0, 0));
    var pi, pj :| 0 <= pi < |rows| && 0 <= pj < |rows[pi]| && IsPlayerChar(rows[pi][pj]) &&
      forall r, j :: 0 <= r < |rows| && 0 <= j < |rows[r]| && IsPlayerChar(rows[r][j]) ==> r == pi && j == pj;
    assert HasPlayerMark(rows);
    assert game.player == Vec2(pi, pj);
    var rendered := RenderedRows(b, game);
    forall r | 0 <= r < |rows|
      ensures rendered[r] == rows[r]
    {
      assert b.grid[r] == Padded(rows[r], |rows[0]|) == ParseRow(rows[r]);
      RenderedRowIsRow(rows, b, game, pi, pj, r);
    }
  }

  /**
   * Parsing a rectangular level (after any number of leading blank lines)
   * and rendering it gives the level back.
   */
  lemma ParseThenRender(lead: nat, rows: seq<string>)
    requires LevelRows(rows)
    ensures var s := Blank(lead) + Join(rows);
            Join(RenderedRows(ParsedBoard(s), ParsedState(s))) == Join(rows)
  {
    LinesOfLevel(lead, rows);
    RenderOfRows(rows);
  }
}
