/** The table the application works on and the random content generator
    that fills it. */
module Grid {

  /** A zero-based (row, column) position. Positions read from the user may be
      negative or too large until the editor has checked them. */
  datatype Coord = Coord(row: int, col: int)

  /** The application state: the cells, row-major, with the dimensions the
      application keeps beside them and uses to bound its loops. */
  datatype Table = Table(cells: seq<seq<string>>, rows: int, cols: int)
  {
    predicate InBounds(c: Coord) {
      0 <= c.row < rows && 0 <= c.col < cols
    }
  }

  /** Every cell holds this many characters when generated, and every edit
      keeps it so. */
  const CellLength: nat := 3

  /** The invariant the application keeps between commands: positive
      dimensions that agree with the cells, and cells of length three. */
  predicate WellFormed(t: Table) {
    && t.rows > 0 && t.cols > 0
    && |t.cells| == t.rows
    && (forall i :: 0 <= i < |t.cells| ==> |t.cells[i]| == t.cols)
    && (forall i, j :: 0 <= i < |t.cells| && 0 <= j < |t.cells[i]| ==> |t.cells[i][j]| == CellLength)
  }

  // ---------------------------------------------------------------------------
  // Random content
  // ---------------------------------------------------------------------------

  /** One draw of `nextInt(94)`. The random source is the infinite stream
      `rand`, read from a position that advances with every draw. */
  type Draw = d: int | 0 <= d < 94

  /** The smallest printable, non-space ASCII code point. */
  const FirstPrintable: int := 33

  /** A draw shifted into the printable range 33..126. */
  function CharOfDraw(d: Draw): (c: char)
    ensures FirstPrintable <= c as int <= 126
  {
    (d + FirstPrintable) as char
  }

  /** The draw a generated character came from. */
  function DrawOfChar(c: char): int {
    c as int - FirstPrintable
  }

  /** The three characters of one cell, from three consecutive draws. */
  function RandomCell(rand: nat -> Draw, pos: nat): string {
    [CharOfDraw(rand(pos)), CharOfDraw(rand(pos + 1)), CharOfDraw(rand(pos + 2))]
  }

  /** One row of `cols` cells, left to right; every cell takes three draws. */
  function GenerateRow(cols: nat, rand: nat -> Draw, pos: nat): (r: seq<string>)
    ensures |r| == cols
  {
    if cols == 0 then [] else [RandomCell(rand, pos)] + GenerateRow(cols - 1, rand, pos + 3)
  }

  /** Cell `j` of a generated row is made from the draws `3 * j` positions
      after the row's first. */
  lemma {:induction false} GenerateRowCells(cols: nat, rand: nat -> Draw, pos: nat)
    ensures forall j :: 0 <= j < cols ==> GenerateRow(cols, rand, pos)[j] == RandomCell(rand, pos + 3 * j)
    decreases cols
  {
    if cols > 0 {
      var tail := GenerateRow(cols - 1, rand, pos + 3);
      assert GenerateRow(cols, rand, pos) == [RandomCell(rand, pos)] + tail;
      GenerateRowCells(cols - 1, rand, pos + 3);
    }
  }

  /** `rows` rows, top to bottom; every row takes `3 * cols` draws. */
  function GenerateRows(rows: nat, cols: nat, rand: nat -> Draw, pos: nat): (r: seq<seq<string>>)
    ensures |r| == rows
  {
    if rows == 0 then [] else [GenerateRow(cols, rand, pos)] + GenerateRows(rows - 1, cols, rand, pos + 3 * cols)
  }

  /** How many draws generating a table of the given size consumes: three for
      every one of its `rows * cols` cells. */
  function DrawsNeeded(rows: nat, cols: nat): nat {
    if rows == 0 then 0 else 3 * cols + DrawsNeeded(rows - 1, cols)
  }

  lemma {:induction false} DrawsNeededProduct(rows: nat, cols: nat)
    ensures DrawsNeeded(rows, cols) == 3 * rows * cols
  {
    if rows > 0 {
      DrawsNeededProduct(rows - 1, cols);
      assert 3 * rows * cols == 3 * cols + 3 * (rows - 1) * cols;
    }
  }

  /** Row `i` of a generated table starts after the draws of the `i` rows
      above it. */
  lemma {:induction false} GenerateRowsAt(rows: nat, cols: nat, rand: nat -> Draw, pos: nat, i: nat)
    requires i < rows
    ensures GenerateRows(rows, cols, rand, pos)[i] == GenerateRow(cols, rand, pos + DrawsNeeded(i, cols))
    decreases i
  {
    if i > 0 {
      var rest := GenerateRows(rows - 1, cols, rand, pos + 3 * cols);
      assert GenerateRows(rows, cols, rand, pos)[i] == rest[i - 1];
      GenerateRowsAt(rows - 1, cols, rand, pos + 3 * cols, i - 1);
    }
  }

  lemma CellIndex(pos: nat, cols: nat, i: nat, j: nat)
    ensures pos + 3 * i * cols + 3 * j == pos + 3 * (i * cols + j)
  {
  }

  /** The cell at (i, j) of a generated table is made from the draws
      `3 * (i * cols + j)` positions into the stream. */
  lemma GenerateRowsCell(rows: nat, cols: nat, rand: nat -> Draw, pos: nat, i: nat, j: nat)
    requires i < rows && j < cols
    ensures |GenerateRows(rows, cols, rand, pos)[i]| == cols
    ensures GenerateRows(rows, cols, rand, pos)[i][j] == RandomCell(rand, pos + 3 * (i * cols + j))
  {
    var start := pos + DrawsNeeded(i, cols);
    GenerateRowsAt(rows, cols, rand, pos, i);
    GenerateRowCells(cols, rand, start);
    assert GenerateRow(cols, rand, start)[j] == RandomCell(rand, start + 3 * j);
    DrawsNeededProduct(i, cols);
    CellIndex(pos, cols, i, j);
  }

  lemma GenerateRowsCells(rows: nat, cols: nat, rand: nat -> Draw, pos: nat)
    ensures forall i :: 0 <= i < rows ==> |GenerateRows(rows, cols, rand, pos)[i]| == cols
    ensures forall i, j :: 0 <= i < rows && 0 <= j < cols ==>
              GenerateRows(rows, cols, rand, pos)[i][j] == RandomCell(rand, pos + 3 * (i * cols + j))
  {
    forall i | 0 <= i < rows
      ensures |GenerateRows(rows, cols, rand, pos)[i]| == cols
    {
      GenerateRowsAt(rows, cols, rand, pos, i);
    }
    forall i, j | 0 <= i < rows && 0 <= j < cols
      ensures GenerateRows(rows, cols, rand, pos)[i][j] == RandomCell(rand, pos + 3 * (i * cols + j))
    {
      GenerateRowsCell(rows, cols, rand, pos, i, j);
    }
  }

  /** A fresh table of the requested size: the cell at (i, j) is made from the
      three draws found `3 * (i * cols + j)` positions into the stream, so the
      draws are used in row-major order, three per cell. */
  function GenerateRandomTable(rows: int, cols: int, rand: nat -> Draw, pos: nat): (t: Table)
    requires rows > 0 && cols > 0
    ensures WellFormed(t)
    ensures t.rows == rows && t.cols == cols
    ensures forall i, j :: 0 <= i < rows && 0 <= j < cols ==>
              t.cells[i][j] == RandomCell(rand, pos + 3 * (i * cols + j))
    ensures forall i, j, k :: 0 <= i < rows && 0 <= j < cols && 0 <= k < |t.cells[i][j]| ==>
              FirstPrintable <= t.cells[i][j][k] as int <= 126
  {
    GenerateRowsCells(rows, cols, rand, pos);
    Table(GenerateRows(rows, cols, rand, pos), rows, cols)
  }

  // ---------------------------------------------------------------------------
  // Recovering the draws from a table
  // ---------------------------------------------------------------------------

  /** `n` consecutive draws of the stream, starting at `pos`. */
  function Stream(rand: nat -> Draw, pos: nat, n: nat): seq<int>
    decreases n
  {
    if n == 0 then [] else [rand(pos) as int] + Stream(rand, pos + 1, n - 1)
  }

  /** The draws the characters of a cell stand for. */
  function CellDraws(cell: string): seq<int> {
    seq(|cell|, k requires 0 <= k < |cell| => DrawOfChar(cell[k]))
  }

  /** The draws the characters of a row stand for, cell after cell. */
  function RowDraws(row: seq<string>): seq<int> {
    if |row| == 0 then [] else CellDraws(row[0]) + RowDraws(row[1..])
  }

  /** The draws the characters of a table stand for, row after row. */
  function TableDraws(cells: seq<seq<string>>): seq<int> {
    if |cells| == 0 then [] else RowDraws(cells[0]) + TableDraws(cells[1..])
  }

  lemma {:induction false} StreamSplit(rand: nat -> Draw, pos: nat, a: nat, b: nat)
    ensures Stream(rand, pos, a + b) == Stream(rand, pos, a) + Stream(rand, pos + a, b)
    decreases a
  {
    if a > 0 {
      StreamSplit(rand, pos + 1, a - 1, b);
    }
  }

  lemma RandomCellDraws(rand: nat -> Draw, pos: nat)
    ensures CellDraws(RandomCell(rand, pos)) == Stream(rand, pos, 3)
  {
    var c := RandomCell(rand, pos);
    assert DrawOfChar(c[0]) == rand(pos);
    assert DrawOfChar(c[1]) == rand(pos + 1);
    assert DrawOfChar(c[2]) == rand(pos + 2);
    assert Stream(rand, pos + 2, 1) == [rand(pos + 2) as int];
    assert Stream(rand, pos + 1, 2) == [rand(pos + 1) as int, rand(pos + 2) as int];
  }

  lemma {:induction false} GenerateRowDraws(cols: nat, rand: nat -> Draw, pos: nat)
    ensures RowDraws(GenerateRow(cols, rand, pos)) == Stream(rand, pos, 3 * cols)
    decreases cols
  {
    if cols > 0 {
      var row := GenerateRow(cols, rand, pos);
      assert row == [RandomCell(rand, pos)] + GenerateRow(cols - 1, rand, pos + 3);
      assert row[1..] == GenerateRow(cols - 1, rand, pos + 3);
      assert RowDraws(row) == CellDraws(RandomCell(rand, pos)) + RowDraws(GenerateRow(cols - 1, rand, pos + 3));
      GenerateRowDraws(cols - 1, rand, pos + 3);
      RandomCellDraws(rand, pos);
      StreamSplit(rand, pos, 3, 3 * (cols - 1));
      assert 3 + 3 * (cols - 1) == 3 * cols;
    }
  }

  lemma TableDrawsCons(row: seq<string>, rest: seq<seq<string>>)
    ensures TableDraws([row] + rest) == RowDraws(row) + TableDraws(rest)
  {
    assert ([row] + rest)[1..] == rest;
  }

  lemma GenerateRowsDrawsCons(rows: nat, cols: nat, rand: nat -> Draw, pos: nat)
    requires rows > 0
    ensures TableDraws(GenerateRows(rows, cols, rand, pos))
              == RowDraws(GenerateRow(cols, rand, pos)) + TableDraws(GenerateRows(rows - 1, cols, rand, pos + 3 * cols))
  {
    var first := GenerateRow(cols, rand, pos);
    var rest := GenerateRows(rows - 1, cols, rand, pos + 3 * cols);
    assert GenerateRows(rows, cols, rand, pos) == [first] + rest;
    TableDrawsCons(first, rest);
  }

  /** The inductive step of `GenerateRowsDraws`: the first row's draws come
      first, then those of the rows below it. */
  lemma GenerateRowsDrawsStep(rows: nat, cols: nat, rand: nat -> Draw, pos: nat)
    requires rows > 0
    requires TableDraws(GenerateRows(rows - 1, cols, rand, pos + 3 * cols))
               == Stream(rand, pos + 3 * cols, DrawsNeeded(rows - 1, cols))
    ensures TableDraws(GenerateRows(rows, cols, rand, pos)) == Stream(rand, pos, DrawsNeeded(rows, cols))
  {
    GenerateRowsDrawsCons(rows, cols, rand, pos);
    GenerateRowDraws(cols, rand, pos);
    StreamSplit(rand, pos, 3 * cols, DrawsNeeded(rows - 1, cols));
  }

  lemma {:induction false} GenerateRowsDraws(rows: nat, cols: nat, rand: nat -> Draw, pos: nat)
    ensures TableDraws(GenerateRows(rows, cols, rand, pos)) == Stream(rand, pos, DrawsNeeded(rows, cols))
    decreases rows
  {
    if rows > 0 {
      GenerateRowsDraws(rows - 1, cols, rand, pos + 3 * cols);
      GenerateRowsDrawsStep(rows, cols, rand, pos);
    }
  }

  /** Generation loses nothing: reading the table back row by row, cell by
      cell, yields exactly the draws consumed, in the order they were drawn. */
  lemma GenerateRandomTableDraws(rows: int, cols: int, rand: nat -> Draw, pos: nat)
    requires rows > 0 && cols > 0
    ensures TableDraws(GenerateRandomTable(rows, cols, rand, pos).cells) == Stream(rand, pos, DrawsNeeded(rows, cols))
  {
    GenerateRowsDraws(rows, cols, rand, pos);
  }
}
