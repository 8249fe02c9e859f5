/** The edit command: a cell position is read and checked against the table,
    then a three-character value, and that one cell is overwritten. */
module Editor {
  import opened Wrappers
  import opened JavaText
  import opened Grid
  import opened Validation

  /** A table after an update, with the value the cell held before. */
  datatype Edited = Edited(table: Table, previous: string)

  /** The cell `c` exists in the table's cells. */
  predicate HasCell(t: Table, c: Coord) {
    0 <= c.row < |t.cells| && 0 <= c.col < |t.cells[c.row]|
  }

  /** Both tables have the same number of rows and the same row lengths. */
  predicate SameShape(t: Table, u: Table) {
    |t.cells| == |u.cells| && forall i :: 0 <= i < |t.cells| ==> |t.cells[i]| == |u.cells[i]|
  }

  /** The array assignment at the end of `edit`: cell `c` becomes `v`, and
      the value it held is reported. */
  function UpdateCell(t: Table, c: Coord, v: string): (e: Edited)
    requires HasCell(t, c)
    ensures e.previous == t.cells[c.row][c.col]
    ensures e.table.rows == t.rows && e.table.cols == t.cols
    ensures SameShape(e.table, t)
    ensures e.table.cells[c.row][c.col] == v
    ensures forall i, j :: 0 <= i < |t.cells| && 0 <= j < |t.cells[i]| && Coord(i, j) != c ==>
              e.table.cells[i][j] == t.cells[i][j]
    ensures WellFormed(t) && |v| == CellLength ==> WellFormed(e.table)
  {
    var row := t.cells[c.row];
    Edited(t.(cells := t.cells[c.row := row[c.col := v]]), row[c.col])
  }

  /** Tables are equal when their dimensions and all their cells are. */
  lemma TableExt(t: Table, u: Table)
    requires t.rows == u.rows && t.cols == u.cols && SameShape(t, u)
    requires forall i, j :: 0 <= i < |t.cells| && 0 <= j < |t.cells[i]| ==> t.cells[i][j] == u.cells[i][j]
    ensures t == u
  {
    forall i | 0 <= i < |t.cells|
      ensures t.cells[i] == u.cells[i]
    {
    }
  }

  /** Writing the reported old value back undoes an edit. */
  lemma UpdateCellUndo(t: Table, c: Coord, v: string)
    requires HasCell(t, c)
    ensures HasCell(UpdateCell(t, c, v).table, c)
    ensures UpdateCell(UpdateCell(t, c, v).table, c, UpdateCell(t, c, v).previous).table == t
  {
    var e := UpdateCell(t, c, v);
    TableExt(UpdateCell(e.table, c, e.previous).table, t);
  }

  /** Writing the value a cell already holds changes nothing. */
  lemma UpdateCellSame(t: Table, c: Coord)
    requires HasCell(t, c)
    ensures UpdateCell(t, c, t.cells[c.row][c.col]).table == t
  {
    TableExt(UpdateCell(t, c, t.cells[c.row][c.col]).table, t);
  }

  /** Of two edits of the same cell only the second is visible. */
  lemma UpdateCellOverwrite(t: Table, c: Coord, v: string, w: string)
    requires HasCell(t, c)
    ensures HasCell(UpdateCell(t, c, v).table, c)
    ensures UpdateCell(UpdateCell(t, c, v).table, c, w).table == UpdateCell(t, c, w).table
  {
    TableExt(UpdateCell(UpdateCell(t, c, v).table, c, w).table, UpdateCell(t, c, w).table);
  }

  /** Edits of different cells may be made in either order. */
  lemma UpdateCellCommute(t: Table, c: Coord, v: string, d: Coord, w: string)
    requires HasCell(t, c) && HasCell(t, d) && c != d
    ensures HasCell(UpdateCell(t, c, v).table, d) && HasCell(UpdateCell(t, d, w).table, c)
    ensures UpdateCell(UpdateCell(t, c, v).table, d, w).table == UpdateCell(UpdateCell(t, d, w).table, c, v).table
  {
    TableExt(UpdateCell(UpdateCell(t, c, v).table, d, w).table, UpdateCell(UpdateCell(t, d, w).table, c, v).table);
  }

  // ---------------------------------------------------------------------------
  // The whole command
  // ---------------------------------------------------------------------------

  /** The two answers of the edit prompts: the accepted cell and value, how
      many lines the cell prompt read, and how many lines were read in all. */
  datatype EditInput = EditInput(at: Coord, value: string, coordLines: nat, used: nat)

  /** The cell prompt's validator for a table of this size. */
  function CellPrompt(p: Prompts, rows: int, cols: int): string -> Option<Coord> {
    line => p.cell(line, rows, cols)
  }

  /** The prompts of `edit`, reading from `lines`: the cell prompt repeats
      until it accepts a line, then the value prompt repeats until it accepts
      one; `None` when the input ends first. */
  function ReadEdit(p: Prompts, rows: int, cols: int, lines: seq<string>): (r: Option<EditInput>)
    ensures r.Some? ==> 1 <= r.value.coordLines < r.value.used <= |lines|
    ensures r.Some? ==> p.cell(lines[r.value.coordLines - 1], rows, cols) == Some(r.value.at)
    ensures r.Some? ==> p.value(lines[r.value.used - 1]) == Some(r.value.value)
  {
    match FirstAccepted(lines, CellPrompt(p, rows, cols))
    case None => None
    case Some(a) =>
      var rest := lines[a.used..];
      match FirstAccepted(rest, p.value)
      case None => None
      case Some(b) =>
        assert rest[b.used - 1] == lines[a.used + b.used - 1];
        Some(EditInput(a.value, b.value, a.used, a.used + b.used))
  }

  /** Both prompts take the first line they accept: every line before the
      accepted cell was rejected by the cell prompt, and every line between it
      and the accepted value was rejected by the value prompt. */
  lemma ReadEditFirst(p: Prompts, rows: int, cols: int, lines: seq<string>)
    ensures var r := ReadEdit(p, rows, cols, lines);
            r.Some? ==> forall k :: 0 <= k < r.value.coordLines - 1 ==> p.cell(lines[k], rows, cols).None?
    ensures var r := ReadEdit(p, rows, cols, lines);
            r.Some? ==> forall k :: r.value.coordLines <= k < r.value.used - 1 ==> p.value(lines[k]).None?
  {
    var q := CellPrompt(p, rows, cols);
    FirstAcceptedIsFirst(lines, q);
    match FirstAccepted(lines, q)
    case None =>
    case Some(a) =>
      var rest := lines[a.used..];
      FirstAcceptedIsFirst(rest, p.value);
      assert forall k :: a.used <= k < |lines| ==> lines[k] == rest[k - a.used];
  }

  /** Line `n` is the first that the cell prompt accepts. */
  predicate FirstCellAt(p: Prompts, lines: seq<string>, rows: int, cols: int, n: nat) {
    n < |lines|
    && p.cell(lines[n], rows, cols).Some?
    && forall k :: 0 <= k < n ==> p.cell(lines[k], rows, cols).None?
  }

  /** The value prompt accepts no line after line `n`. */
  predicate NoValueAfter(p: Prompts, lines: seq<string>, n: nat) {
    forall k :: n < k < |lines| ==> p.value(lines[k]).None?
  }

  /** The prompts give up only when the input runs out: either the cell
      prompt accepts no line, or it accepts one and the value prompt accepts
      no later line. */
  lemma ReadEditNone(p: Prompts, rows: int, cols: int, lines: seq<string>)
    ensures ReadEdit(p, rows, cols, lines).None? <==>
              (forall k :: 0 <= k < |lines| ==> p.cell(lines[k], rows, cols).None?)
              || (exists n: nat :: FirstCellAt(p, lines, rows, cols, n) && NoValueAfter(p, lines, n))
  {
    var q := CellPrompt(p, rows, cols);
    FirstAcceptedIsFirst(lines, q);
    match FirstAccepted(lines, q)
    case None =>
    case Some(a) =>
      var n: nat := a.used - 1;
      assert FirstCellAt(p, lines, rows, cols, n);
      assert forall m: nat :: FirstCellAt(p, lines, rows, cols, m) ==> m == n;
      var rest := lines[a.used..];
      FirstAcceptedIsFirst(rest, p.value);
      assert forall k :: a.used <= k < |lines| ==> lines[k] == rest[k - a.used];
      match FirstAccepted(rest, p.value)
      case None =>
        assert NoValueAfter(p, lines, n);
      case Some(b) =>
        assert !NoValueAfter(p, lines, n) by {
          assert p.value(lines[a.used + b.used - 1]).Some?;
        }
  }

  /** A completed edit: the answers to the prompts and the updated table. */
  datatype EditOutcome = EditOutcome(input: EditInput, edited: Edited)

  /** `edit` on a well-formed table: read the cell and the value, then
      overwrite the cell. With sound prompts the cell lies inside the table
      and the table stays well-formed. */
  function EditCell(p: Prompts, t: Table, lines: seq<string>): (r: Option<EditOutcome>)
    requires WellFormed(t) && Sound(p)
    ensures r.None? <==> ReadEdit(p, t.rows, t.cols, lines).None?
    ensures r.Some? ==> r.value.input == ReadEdit(p, t.rows, t.cols, lines).value
    ensures r.Some? ==> t.InBounds(r.value.input.at) && HasCell(t, r.value.input.at)
    ensures r.Some? ==> r.value.edited == UpdateCell(t, r.value.input.at, r.value.input.value)
    ensures r.Some? ==> |r.value.input.value| == CellLength && WellFormed(r.value.edited.table)
  {
    match ReadEdit(p, t.rows, t.cols, lines)
    case None => None
    case Some(e) => Some(EditOutcome(e, UpdateCell(t, e.at, e.value)))
  }
}
