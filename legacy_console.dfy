/**
 * Text input and output of the cell-grid revision (src/console_interface.rs):
 * `parse_level` turns every line of a level text into a row of cells,
 * `render` prints each cell as its level character, and `dir_from_input`
 * decodes the bytes of a key press into a direction vector.
 */
module LegacyConsole {
  import opened CoreModels
  import opened CellModels
  import ConsoleInterface
  import Update

  // ---------------------------------------------------------------------
  // The character table
  // ---------------------------------------------------------------------

  /** The seven level characters. */
  predicate IsSymbol(ch: char) {
    ch == '#' || ch == ' ' || ch == '.' || ch == '$' || ch == '*' || ch == '@' || ch == '+'
  }

  /** The cell of a level character; anything unknown is floor. */
  function ParseCell(ch: char): Cell {
    match ch
    case '#' => Cell.Wall
    case ' ' => Cell.Floor
    case '.' => Cell.Target
    case '$' => BoxOnFloor
    case '*' => BoxOnTarget
    case '@' => PlayerOnFloor
    case '+' => PlayerOnTarget
    case _ => Cell.Floor
  }

  /** The character `render` prints for a cell: the parse table read backwards. */
  function RenderCell(c: Cell): (ch: char)
    ensures IsSymbol(ch) && ParseCell(ch) == c
  {
    match c
    case Wall => '#'
    case Floor => ' '
    case Target => '.'
    case BoxOnFloor => '$'
    case BoxOnTarget => '*'
    case PlayerOnFloor => '@'
    case PlayerOnTarget => '+'
  }

  /**
   * On the seven symbols the two tables are inverse; every other character
   * reads as floor, which renders as a space.
   */
  lemma ParseCellInverse(ch: char)
    ensures IsSymbol(ch) ==> RenderCell(ParseCell(ch)) == ch
    ensures !IsSymbol(ch) ==> ParseCell(ch) == Cell.Floor && RenderCell(ParseCell(ch)) == ' '
    ensures IsPlayer(ParseCell(ch)) <==> ConsoleInterface.IsPlayerChar(ch)
  {
  }

  // ---------------------------------------------------------------------
  // What the parse produces
  // ---------------------------------------------------------------------

  /** The cells of one line, in order. */
  function ParseRow(line: string): (r: seq<Cell>)
    ensures |r| == |line| && forall j :: 0 <= j < |line| ==> r[j] == ParseCell(line[j])
  {
    seq(|line|, j requires 0 <= j < |line| => ParseCell(line[j]))
  }

  /** A row of cells padded with floor up to width w. */
  function Padded(line: string, w: nat): seq<Cell> {
    ParseRow(line) + seq(if w > |line| then w - |line| else 0, _ => Cell.Floor)
  }

  function GridOf(lines: seq<string>, w: nat): Grid {
    seq(|lines|, r requires 0 <= r < |lines| => Padded(lines[r], w))
  }

  /** The grid `parse_level` builds: one padded row per line, blank lines included. */
  ghost function ParsedGrid(s: string): Grid {
    GridOf(ConsoleInterface.Lines(s), ConsoleInterface.MaxLen(ConsoleInterface.Lines(s)))
  }

  /** The player `parse_level` reports: the last player mark, line numbers counting every line. */
  ghost function ParsedPlayer(s: string): Vec2 {
    ConsoleInterface.PlayerOf(ConsoleInterface.Lines(s), Vec2(0, 0))
  }

  // ---------------------------------------------------------------------
  // parse_level
  // ---------------------------------------------------------------------

  /** The inner loop of `parse_level`: read the cells of line i and track the player mark. */
  method ReadRow(i: int, line: string, player0: Vec2) returns (row: seq<Cell>, player: Vec2)
    ensures row == ParseRow(line)
    ensures player == ConsoleInterface.RowPlayer(i, line, player0)
  {
    row, player := [], player0;
    for j := 0 to |line|
      invariant row == ParseRow(line[..j])
      invariant player == ConsoleInterface.RowPlayer(i, line[..j], player0)
    {
      var ch := line[j];
      assert line[..j + 1][..j] == line[..j];
      var c := ParseCell(ch);
      if ch == '@' || ch == '+' {
        player := Vec2(i, j);
      }
      row := row + [c];
    }
    assert line[..|line|] == line;
  }

  /** The padding loop of `parse_level`. */
  method PadRow(line: string, row0: seq<Cell>, w: nat) returns (row: seq<Cell>)
    requires row0 == ParseRow(line)
    ensures row == Padded(line, w)
  {
    row := row0;
    while |row| < w
      invariant |line| <= |row|
      invariant |row| <= w || row == row0
      invariant row == ParseRow(line) + seq(|row| - |line|, _ => Cell.Floor)
    {
      row := row + [Cell.Floor];
    }
  }

  /** `parse_level`. */
  method ParseLevel(s: string) returns (grid: Grid, player: Vec2)
    ensures grid == ParsedGrid(s) && player == ParsedPlayer(s)
  {
    var lines := ConsoleInterface.Lines(s);
    var maxWidth := ConsoleInterface.MaxLen(lines);
    grid, player := [], Vec2(0, 0);
    for i := 0 to |lines|
      invariant grid == GridOf(lines[..i], maxWidth)
      invariant player == ConsoleInterface.PlayerOf(lines[..i], Vec2(0, 0))
    {
      var line := lines[i];
      assert lines[..i + 1][..i] == lines[..i];
      var row;
      row, player := ReadRow(i, line, player);
      row := PadRow(line, row, maxWidth);
      grid := grid + [row];
    }
    assert lines[..|lines|] == lines;
  }

  // ---------------------------------------------------------------------
  // Properties of the parse
  // ---------------------------------------------------------------------

  /**
   * Row r of the grid is line r of the text, blank or not, read through the
   * character table and padded with floor to the widest line.
   */
  lemma ParsedGridShape(s: string)
    ensures var lines := ConsoleInterface.Lines(s);
            var g := ParsedGrid(s);
            |g| == |lines| && Rectangular(g) &&
            forall r :: 0 <= r < |g| ==>
              |g[r]| == ConsoleInterface.MaxLen(lines) &&
              (forall j :: 0 <= j < |lines[r]| ==> g[r][j] == ParseCell(lines[r][j])) &&
              (forall j :: |lines[r]| <= j < |g[r]| ==> g[r][j] == Cell.Floor)
  {
    var lines := ConsoleInterface.Lines(s);
    var w := ConsoleInterface.MaxLen(lines);
    var g := ParsedGrid(s);
    forall r | 0 <= r < |g|
      ensures |g[r]| == w
    {
      assert |lines[r]| <= w;
    }
  }

  /**
   * The padding width is counted in bytes: a line holding one two-byte
   * character such as `é`, then a line `#`, give two columns each.
   */
  lemma WideCharacterWidensRows(c: char)
    requires 0x80 <= c as int < 0x800
    ensures ParsedGrid([c] + "\n#") == [[Cell.Floor, Cell.Floor], [Cell.Wall, Cell.Floor]]
  {
    assert [c] + "\n#" == [c] + "\n" + "#";
    ConsoleInterface.LinesOfTwoLines([c], "#");
    ConsoleInterface.TwoLinesWidth(c);
    TwoLinesGrid(c);
  }

  lemma TwoLinesGrid(c: char)
    requires 0x80 <= c as int < 0x800
    ensures GridOf([[c], "#"], 2) == [[Cell.Floor, Cell.Floor], [Cell.Wall, Cell.Floor]]
  {
    assert ParseCell(c) == Cell.Floor;
    var first := Padded([c], 2);
    assert first == [Cell.Floor] + [Cell.Floor] == [Cell.Floor, Cell.Floor];
    var second := Padded("#", 2);
    assert second == [Cell.Wall] + [Cell.Floor] == [Cell.Wall, Cell.Floor];
    var g := GridOf([[c], "#"], 2);
    assert |g| == 2 && g[0] == first && g[1] == second;
  }

  /**
   * The reported player stands on a player cell of the grid when the text
   * holds a player mark; otherwise it is (0, 0).
   */
  lemma ParsedPlayerIsMarked(s: string)
    ensures var lines := ConsoleInterface.Lines(s);
            var g := ParsedGrid(s);
            var p := ParsedPlayer(s);
            (!ConsoleInterface.HasPlayerMark(lines) ==> p == Vec2(0, 0)) &&
            (ConsoleInterface.HasPlayerMark(lines) ==> InGrid(g, p.i, p.j) && IsPlayer(g[p.i][p.j]))
  {
    var lines := ConsoleInterface.Lines(s);
    ConsoleInterface.PlayerIsLastMark(lines, Vec2(0, 0));
    ParsedGridShape(s);
    var p := ParsedPlayer(s);
    if ConsoleInterface.HasPlayerMark(lines) {
      ParseCellInverse(lines[p.i][p.j]);
    }
  }

  // ---------------------------------------------------------------------
  // render
  // ---------------------------------------------------------------------

  /** The characters `render` prints for each row. */
  function RenderedRows(g: Grid): (rows: seq<string>)
    ensures |rows| == |g| && forall r :: 0 <= r < |g| ==> |rows[r]| == |g[r]|
  {
    seq(|g|, r requires 0 <= r < |g| => seq(|g[r]|, j requires 0 <= j < |g[r]| => RenderCell(g[r][j])))
  }

  /** The grid text `render` prints before its help line: every row ends in a line feed. */
  function RenderedText(g: Grid): string {
    ConsoleInterface.Join(RenderedRows(g))
  }

  /** Rendered rows hold only level symbols, so none of them breaks a line. */
  lemma RenderedRowsAreSymbols(g: Grid)
    ensures forall r, j :: 0 <= r < |g| && 0 <= j < |g[r]| ==> IsSymbol(RenderedRows(g)[r][j])
    ensures forall r :: 0 <= r < |g| ==> '\n' !in RenderedRows(g)[r] && '\r' !in RenderedRows(g)[r]
  {
    var rows := RenderedRows(g);
    forall r | 0 <= r < |g|
      ensures '\n' !in rows[r] && '\r' !in rows[r]
    {
      assert forall j :: 0 <= j < |rows[r]| ==> IsSymbol(rows[r][j]);
    }
  }

  /** The widest of equally long rows of level symbols is their common length. */
  lemma MaxLenOfEqualRows(rows: seq<string>, w: nat)
    requires rows != [] && forall r :: 0 <= r < |rows| ==> |rows[r]| == w
    requires forall r, j :: 0 <= r < |rows| && 0 <= j < |rows[r]| ==> IsSymbol(rows[r][j])
    ensures ConsoleInterface.MaxLen(rows) == w
  {
    forall r | 0 <= r < |rows|
      ensures ConsoleInterface.ByteLen(rows[r]) == w
    {
      SymbolRowByteLen(rows[r]);
    }
    var k :| 0 <= k < |rows| && ConsoleInterface.ByteLen(rows[k]) == ConsoleInterface.MaxLen(rows);
  }

  /** A row of level symbols has one byte per symbol. */
  lemma SymbolRowByteLen(row: string)
    requires forall j :: 0 <= j < |row| ==> IsSymbol(row[j])
    ensures ConsoleInterface.ByteLen(row) == |row|
  {
    assert forall j :: 0 <= j < |row| ==> ConsoleInterface.IsAscii(row[j]);
    ConsoleInterface.ByteLenIsLength(row);
  }

  /** Parsing what `render` prints for a rectangular grid gives the grid back. */
  lemma ParseOfRender(g: Grid)
    requires Rectangular(g)
    ensures ParsedGrid(RenderedText(g)) == g
  {
    var rows := RenderedRows(g);
    RenderedRowsAreSymbols(g);
    ConsoleInterface.LinesOfJoin(rows);
    if g != [] {
      MaxLenOfEqualRows(rows, |g[0]|);
      var h := ParsedGrid(RenderedText(g));
      forall r | 0 <= r < |g|
        ensures h[r] == g[r]
      {
        assert h[r] == Padded(rows[r], |g[0]|) == ParseRow(rows[r]);
      }
    }
  }

  /** Equally long rows of level symbols, joined, parse to their own padded rows. */
  lemma ParsedGridOfJoin(rows: seq<string>, w: nat)
    requires forall r :: 0 <= r < |rows| ==> |rows[r]| == w
    requires forall r, j :: 0 <= r < |rows| && 0 <= j < |rows[r]| ==> IsSymbol(rows[r][j])
    ensures ParsedGrid(ConsoleInterface.Join(rows)) == GridOf(rows, w)
  {
    assert forall r :: 0 <= r < |rows| ==> '\n' !in rows[r] && '\r' !in rows[r] by {
      forall r | 0 <= r < |rows|
        ensures '\n' !in rows[r] && '\r' !in rows[r]
      {
        assert forall j :: 0 <= j < |rows[r]| ==> IsSymbol(rows[r][j]);
      }
    }
    ConsoleInterface.LinesOfJoin(rows);
    if rows != [] {
      MaxLenOfEqualRows(rows, w);
    }
  }

  /** Rendering the grid parsed from rows of level symbols, all of one width, gives the rows back. */
  lemma RenderOfParse(rows: seq<string>, w: nat)
    requires forall r :: 0 <= r < |rows| ==> |rows[r]| == w
    requires forall r, j :: 0 <= r < |rows| && 0 <= j < |rows[r]| ==> IsSymbol(rows[r][j])
    ensures RenderedRows(ParsedGrid(ConsoleInterface.Join(rows))) == rows
  {
    ParsedGridOfJoin(rows, w);
    var g := GridOf(rows, w);
    var out := RenderedRows(g);
    forall r | 0 <= r < |rows|
      ensures out[r] == rows[r]
    {
      assert g[r] == Padded(rows[r], w) == ParseRow(rows[r]);
      forall j | 0 <= j < |rows[r]|
        ensures out[r][j] == rows[r][j]
      {
        ParseCellInverse(rows[r][j]);
      }
    }
  }


  // ---------------------------------------------------------------------
  // dir_from_input
  // ---------------------------------------------------------------------

  newtype byte = x: int | 0 <= x < 256

  /** The byte of an ASCII character. */
  function Ascii(c: char): byte
    requires c as int < 256
  {
    c as int as byte
  }

  const ESC: byte := 0x1B

  /** The lower- and upper-case WASD key of a direction. */
  function WasdKey(d: Direction, upper: bool): byte {
    match d
    case Up => if upper then Ascii('W') else Ascii('w')
    case Down => if upper then Ascii('S') else Ascii('s')
    case Left => if upper then Ascii('A') else Ascii('a')
    case Right => if upper then Ascii('D') else Ascii('d')
  }

  /** The terminal's arrow-key sequence of a direction: ESC, `[`, then A, B, D or C. */
  function ArrowKeys(d: Direction): seq<byte> {
    [ESC, Ascii('[')] +
    match d
    case Up => [Ascii('A')]
    case Down => [Ascii('B')]
    case Left => [Ascii('D')]
    case Right => [Ascii('C')]
  }

  /** A vector of length one along an axis. */
  predicate IsUnitAxis(v: Vec2) {
    (v.i == 0 && (v.j == 1 || v.j == -1)) || (v.j == 0 && (v.i == 1 || v.i == -1))
  }

  /** `dir_from_input`: the first byte, or the arrow sequence it starts, picks the direction. */
  function DirFromInput(bytes: seq<byte>): (r: Option<Vec2>)
    ensures bytes == [] ==> r == None
    ensures r.Some? ==> IsUnitAxis(r.value)
  {
    if bytes == [] then None
    else
      var b := bytes[0];
      if b == Ascii('w') || b == Ascii('W') then Some(Vec2(-1, 0))
      else if b == Ascii('s') || b == Ascii('S') then Some(Vec2(1, 0))
      else if b == Ascii('a') || b == Ascii('A') then Some(Vec2(0, -1))
      else if b == Ascii('d') || b == Ascii('D') then Some(Vec2(0, 1))
      else if b == ESC then
        if |bytes| >= 3 && bytes[1] == Ascii('[') then
          var c := bytes[2];
          if c == Ascii('A') then Some(Vec2(-1, 0))
          else if c == Ascii('B') then Some(Vec2(1, 0))
          else if c == Ascii('D') then Some(Vec2(0, -1))
          else if c == Ascii('C') then Some(Vec2(0, 1))
          else None
        else None
      else None
  }

  /** Both WASD keys and the arrow sequence of a direction decode to its vector, whatever follows. */
  lemma KeysDecode(d: Direction, upper: bool, rest: seq<byte>)
    ensures DirFromInput([WasdKey(d, upper)] + rest) == Some(Update.VecFromDir(d))
    ensures DirFromInput(ArrowKeys(d) + rest) == Some(Update.VecFromDir(d))
  {
  }

  /**
   * Every decoded direction comes from a key of that direction: a WASD key
   * in either case, or the arrow sequence at the start of the input.
   */
  lemma DecodedIsKey(bytes: seq<byte>)
    requires DirFromInput(bytes).Some?
    ensures exists d: Direction ::
              DirFromInput(bytes).value == Update.VecFromDir(d) &&
              (bytes[0] == WasdKey(d, false) || bytes[0] == WasdKey(d, true) ||
               (|bytes| >= 3 && bytes[..3] == ArrowKeys(d)))
  {
    var b := bytes[0];
    var d: Direction;
    if b == Ascii('w') || b == Ascii('W') { d := Up; }
    else if b == Ascii('s') || b == Ascii('S') { d := Down; }
    else if b == Ascii('a') || b == Ascii('A') { d := Left; }
    else if b == Ascii('d') || b == Ascii('D') { d := Right; }
    else {
      var c := bytes[2];
      d := if c == Ascii('A') then Up else if c == Ascii('B') then Down else if c == Ascii('D') then Left else Right;
      assert bytes[..3] == ArrowKeys(d);
    }
    assert DirFromInput(bytes).value == Update.VecFromDir(d);
  }

  /** `q`, `Q`, an escape too short or without `[`, and an unknown final byte give no direction. */
  lemma UndecodedInputs(bytes: seq<byte>)
    requires bytes != []
    ensures bytes[0] == Ascii('q') || bytes[0] == Ascii('Q') ==> DirFromInput(bytes) == None
    ensures bytes[0] == ESC && (|bytes| < 3 || bytes[1] != Ascii('[')) ==> DirFromInput(bytes) == None
    ensures bytes[0] == ESC && |bytes| >= 3 && bytes[1] == Ascii('[') &&
            !(bytes[2] == Ascii('A') || bytes[2] == Ascii('B') || bytes[2] == Ascii('C') || bytes[2] == Ascii('D'))
            ==> DirFromInput(bytes) == None
  {
  }
}
