/** Substring search over the table: overlapping occurrence counts per cell,
    added up in row-major order, with the list of cells that matched. */
module SearchEngine {
  import opened Grid

  /** `text.startsWith(pattern, i)` at a start index the counting loop visits. */
  predicate MatchAt(text: string, pattern: string, i: int) {
    0 <= i <= |text| - |pattern| && text[i..i + |pattern|] == pattern
  }

  /** Every start index at which `pattern` occurs in `text`, overlaps included. */
  ghost function MatchStarts(text: string, pattern: string): set<int> {
    set i | 0 <= i <= |text| - |pattern| && MatchAt(text, pattern, i)
  }

  /** The counting loop of `countOverlapping`, from start index `i` onwards. */
  function CountFrom(text: string, pattern: string, i: nat): (r: nat)
    decreases |text| - |pattern| + 1 - i
  {
    if i > |text| - |pattern| then 0
    else (if MatchAt(text, pattern, i) then 1 else 0) + CountFrom(text, pattern, i + 1)
  }

  lemma {:induction false} CountFromCounts(text: string, pattern: string, i: nat)
    ensures CountFrom(text, pattern, i) == |set k | i <= k <= |text| - |pattern| && MatchAt(text, pattern, k)|
    decreases |text| - |pattern| + 1 - i
  {
    var all := set k | i <= k <= |text| - |pattern| && MatchAt(text, pattern, k);
    if i > |text| - |pattern| {
      assert all == {};
    } else {
      var later := set k | i + 1 <= k <= |text| - |pattern| && MatchAt(text, pattern, k);
      var here := if MatchAt(text, pattern, i) then {i} else {};
      assert all == here + later;
      assert i !in later;
      CountFromCounts(text, pattern, i + 1);
    }
  }

  /** `countOverlapping(text, pattern)`: the number of start indices where
      `pattern` occurs in `text`, overlapping occurrences counted separately.
      A pattern longer than the text never occurs: the loop does not run. */
  function CountOverlapping(text: string, pattern: string): (r: nat)
    ensures r == |MatchStarts(text, pattern)|
    ensures |pattern| > |text| ==> r == 0
  {
    CountFromCounts(text, pattern, 0);
    assert MatchStarts(text, pattern) == set k | 0 <= k <= |text| - |pattern| && MatchAt(text, pattern, k);
    CountFrom(text, pattern, 0)
  }

  lemma {:induction false} CountFromEmptyPattern(text: string, i: nat)
    requires i <= |text| + 1
    ensures CountFrom(text, "", i) == |text| + 1 - i
    decreases |text| + 1 - i
  {
    if i <= |text| {
      assert MatchAt(text, "", i);
      CountFromEmptyPattern(text, i + 1);
    }
  }

  /** The empty pattern occurs at every index from 0 to the text's length. */
  lemma CountEmptyPattern(text: string)
    ensures CountOverlapping(text, "") == |text| + 1
  {
    CountFromEmptyPattern(text, 0);
  }

  lemma {:induction false} CountFromBound(text: string, pattern: string, i: nat)
    requires i <= |text| - |pattern| + 1
    ensures CountFrom(text, pattern, i) <= |text| - |pattern| + 1 - i
    decreases |text| - |pattern| + 1 - i
  {
    if i <= |text| - |pattern| {
      CountFromBound(text, pattern, i + 1);
    }
  }

  /** There are at most as many occurrences as start positions. */
  lemma CountBound(text: string, pattern: string)
    requires |pattern| <= |text|
    ensures CountOverlapping(text, pattern) <= |text| - |pattern| + 1
  {
    CountFromBound(text, pattern, 0);
  }

  /** Occurrences may overlap: "aa" occurs twice in "aaa". */
  lemma CountOverlapExample()
    ensures CountOverlapping("aaa", "aa") == 2
    ensures CountOverlapping("aba", "a") == 2
    ensures CountOverlapping("ab", "ab") == 1
  {
    assert MatchAt("aaa", "aa", 0) && MatchAt("aaa", "aa", 1);
    assert "aba"[1..2] == "b";
    assert MatchAt("aba", "a", 0) && !MatchAt("aba", "a", 1) && MatchAt("aba", "a", 2);
    assert MatchAt("ab", "ab", 0);
  }

  // ---------------------------------------------------------------------------
  // Search over the whole table
  // ---------------------------------------------------------------------------

  /** The sum of the counts of the first `n` cells of a row. */
  function RowTotal(row: seq<string>, pattern: string, n: nat): (r: nat)
    requires n <= |row|
  {
    if n == 0 then 0 else RowTotal(row, pattern, n - 1) + CountOverlapping(row[n - 1], pattern)
  }

  /** The sum of the counts of every cell in the first `n` rows. */
  function GridTotal(cells: seq<seq<string>>, pattern: string, n: nat): (r: nat)
    requires n <= |cells|
  {
    if n == 0 then 0 else GridTotal(cells, pattern, n - 1) + RowTotal(cells[n - 1], pattern, |cells[n - 1]|)
  }

  /** What `search` reports: the total number of occurrences and the cells
      holding at least one, in the order it lists them. */
  datatype Report = Report(total: nat, positions: seq<Coord>)

  /** `a` comes before `b` when the table is read row by row. */
  predicate RowMajorBefore(a: Coord, b: Coord) {
    a.row < b.row || (a.row == b.row && a.col < b.col)
  }

  /** The inner loop of `search` over the first `n` cells of row `i`: a cell
      with a positive count adds it to the total and its position to the
      list. */
  function SearchRow(row: seq<string>, pattern: string, i: int, n: nat): (r: Report)
    requires n <= |row|
  {
    if n == 0 then Report(0, [])
    else
      var before := SearchRow(row, pattern, i, n - 1);
      var count := CountOverlapping(row[n - 1], pattern);
      if count > 0 then Report(before.total + count, before.positions + [Coord(i, n - 1)]) else before
  }

  /** Both loops of `search` over the first `n` rows. */
  function SearchRows(cells: seq<seq<string>>, pattern: string, n: nat): (r: Report)
    requires n <= |cells|
  {
    if n == 0 then Report(0, [])
    else
      var before := SearchRows(cells, pattern, n - 1);
      var row := SearchRow(cells[n - 1], pattern, n - 1, |cells[n - 1]|);
      Report(before.total + row.total, before.positions + row.positions)
  }

  lemma {:induction false} SearchRowTotal(row: seq<string>, pattern: string, i: int, n: nat)
    requires n <= |row|
    ensures SearchRow(row, pattern, i, n).total == RowTotal(row, pattern, n)
    ensures SearchRow(row, pattern, i, n).total > 0 <==> |SearchRow(row, pattern, i, n).positions| > 0
  {
    if n > 0 {
      SearchRowTotal(row, pattern, i, n - 1);
    }
  }

  lemma {:induction false} SearchRowSound(row: seq<string>, pattern: string, i: int, n: nat)
    requires n <= |row|
    ensures forall k :: 0 <= k < |SearchRow(row, pattern, i, n).positions| ==>
              var c := SearchRow(row, pattern, i, n).positions[k];
              c.row == i && 0 <= c.col < n && CountOverlapping(row[c.col], pattern) > 0
  {
    if n > 0 {
      SearchRowSound(row, pattern, i, n - 1);
    }
  }

  lemma {:induction false} SearchRowComplete(row: seq<string>, pattern: string, i: int, n: nat)
    requires n <= |row|
    ensures forall j :: 0 <= j < n && CountOverlapping(row[j], pattern) > 0 ==>
              Coord(i, j) in SearchRow(row, pattern, i, n).positions
  {
    if n > 0 {
      SearchRowComplete(row, pattern, i, n - 1);
    }
  }

  lemma {:induction false} SearchRowSorted(row: seq<string>, pattern: string, i: int, n: nat)
    requires n <= |row|
    ensures forall a, b :: 0 <= a < b < |SearchRow(row, pattern, i, n).positions| ==>
              SearchRow(row, pattern, i, n).positions[a].col < SearchRow(row, pattern, i, n).positions[b].col
  {
    if n > 0 {
      SearchRowSorted(row, pattern, i, n - 1);
      if CountOverlapping(row[n - 1], pattern) > 0 {
        var before := SearchRow(row, pattern, i, n - 1).positions;
        SearchRowSound(row, pattern, i, n - 1);
        var ps := before + [Coord(i, n - 1)];
        assert SearchRow(row, pattern, i, n).positions == ps;
        forall a, b | 0 <= a < b < |ps|
          ensures ps[a].col < ps[b].col
        {
          if b == |before| {
            assert ps[a] == before[a];
          } else {
            assert ps[a] == before[a] && ps[b] == before[b];
          }
        }
      }
    }
  }

  lemma {:induction false} SearchRowsTotal(cells: seq<seq<string>>, pattern: string, n: nat)
    requires n <= |cells|
    ensures SearchRows(cells, pattern, n).total == GridTotal(cells, pattern, n)
    ensures SearchRows(cells, pattern, n).total > 0 <==> |SearchRows(cells, pattern, n).positions| > 0
  {
    if n > 0 {
      SearchRowsTotal(cells, pattern, n - 1);
      SearchRowTotal(cells[n - 1], pattern, n - 1, |cells[n - 1]|);
    }
  }

  lemma {:induction false} SearchRowsSound(cells: seq<seq<string>>, pattern: string, n: nat)
    requires n <= |cells|
    ensures forall k :: 0 <= k < |SearchRows(cells, pattern, n).positions| ==>
              var c := SearchRows(cells, pattern, n).positions[k];
              0 <= c.row < n && 0 <= c.col < |cells[c.row]| && CountOverlapping(cells[c.row][c.col], pattern) > 0
  {
    if n > 0 {
      SearchRowsSound(cells, pattern, n - 1);
      SearchRowSound(cells[n - 1], pattern, n - 1, |cells[n - 1]|);
      var before := SearchRows(cells, pattern, n - 1).positions;
      var row := SearchRow(cells[n - 1], pattern, n - 1, |cells[n - 1]|).positions;
      assert SearchRows(cells, pattern, n).positions == before + row;
      assert forall k :: |before| <= k < |before + row| ==> (before + row)[k] == row[k - |before|];
    }
  }

  lemma {:induction false} SearchRowsComplete(cells: seq<seq<string>>, pattern: string, n: nat)
    requires n <= |cells|
    ensures forall i, j :: 0 <= i < n && 0 <= j < |cells[i]| && CountOverlapping(cells[i][j], pattern) > 0 ==>
              Coord(i, j) in SearchRows(cells, pattern, n).positions
  {
    if n > 0 {
      SearchRowsComplete(cells, pattern, n - 1);
      SearchRowComplete(cells[n - 1], pattern, n - 1, |cells[n - 1]|);
    }
  }

  lemma {:induction false} SearchRowsSorted(cells: seq<seq<string>>, pattern: string, n: nat)
    requires n <= |cells|
    ensures forall a, b :: 0 <= a < b < |SearchRows(cells, pattern, n).positions| ==>
              RowMajorBefore(SearchRows(cells, pattern, n).positions[a], SearchRows(cells, pattern, n).positions[b])
  {
    if n > 0 {
      SearchRowsSorted(cells, pattern, n - 1);
      SearchRowsSound(cells, pattern, n - 1);
      SearchRowSound(cells[n - 1], pattern, n - 1, |cells[n - 1]|);
      SearchRowSorted(cells[n - 1], pattern, n - 1, |cells[n - 1]|);
      AppendRowSorted(SearchRows(cells, pattern, n - 1).positions, SearchRow(cells[n - 1], pattern, n - 1, |cells[n - 1]|).positions, n - 1);
    }
  }

  lemma AppendRowSorted(before: seq<Coord>, row: seq<Coord>, i: int)
    requires forall a, b :: 0 <= a < b < |before| ==> RowMajorBefore(before[a], before[b])
    requires forall k :: 0 <= k < |before| ==> before[k].row < i
    requires forall k :: 0 <= k < |row| ==> row[k].row == i
    requires forall a, b :: 0 <= a < b < |row| ==> row[a].col < row[b].col
    ensures forall a, b :: 0 <= a < b < |before + row| ==> RowMajorBefore((before + row)[a], (before + row)[b])
  {
  }

  /** `search`: the total number of overlapping occurrences of `pattern` over
      all cells, and every cell that holds one, listed once each in
      row-major order. The total is positive exactly when some cell is listed,
      which is when the source prints the positions instead of
      "No occurrences found". */
  function Search(t: Table, pattern: string): (r: Report)
    requires WellFormed(t)
    ensures r.total == GridTotal(t.cells, pattern, t.rows)
    ensures forall k :: 0 <= k < |r.positions| ==>
              t.InBounds(r.positions[k])
              && CountOverlapping(t.cells[r.positions[k].row][r.positions[k].col], pattern) > 0
    ensures forall i, j :: 0 <= i < t.rows && 0 <= j < t.cols && CountOverlapping(t.cells[i][j], pattern) > 0 ==>
              Coord(i, j) in r.positions
    ensures forall a, b :: 0 <= a < b < |r.positions| ==> RowMajorBefore(r.positions[a], r.positions[b])
    ensures r.total > 0 <==> |r.positions| > 0
  {
    SearchRowsTotal(t.cells, pattern, t.rows);
    SearchRowsSound(t.cells, pattern, t.rows);
    SearchRowsComplete(t.cells, pattern, t.rows);
    SearchRowsSorted(t.cells, pattern, t.rows);
    SearchRows(t.cells, pattern, t.rows)
  }

  lemma {:induction false} RowTotalConstant(row: seq<string>, pattern: string, n: nat, c: nat)
    requires n <= |row|
    requires forall j :: 0 <= j < |row| ==> CountOverlapping(row[j], pattern) == c
    ensures RowTotal(row, pattern, n) == c * n
  {
    if n > 0 {
      RowTotalConstant(row, pattern, n - 1, c);
      assert CountOverlapping(row[n - 1], pattern) == c;
      assert c * n == c * (n - 1) + c;
    }
  }

  lemma MulStep(c: nat, n: nat, cols: nat)
    requires n > 0
    ensures c * n * cols == c * (n - 1) * cols + c * cols
  {
  }

  lemma {:induction false} GridTotalConstant(cells: seq<seq<string>>, pattern: string, n: nat, cols: nat, c: nat)
    requires n <= |cells|
    requires forall i :: 0 <= i < |cells| ==> |cells[i]| == cols
    requires forall i, j :: 0 <= i < |cells| && 0 <= j < |cells[i]| ==> CountOverlapping(cells[i][j], pattern) == c
    ensures GridTotal(cells, pattern, n) == c * n * cols
  {
    if n > 0 {
      GridTotalConstant(cells, pattern, n - 1, cols, c);
      RowTotalConstant(cells[n - 1], pattern, cols, c);
      MulStep(c, n, cols);
    }
  }

  /** As written, an empty search string matches every cell four times
      (at indices 0 to 3 of its three characters), so every cell is listed. */
  lemma SearchEmptyPattern(t: Table)
    requires WellFormed(t)
    ensures Search(t, "").total == 4 * t.rows * t.cols
    ensures forall i, j :: 0 <= i < t.rows && 0 <= j < t.cols ==> Coord(i, j) in Search(t, "").positions
  {
    forall i, j | 0 <= i < |t.cells| && 0 <= j < |t.cells[i]|
      ensures CountOverlapping(t.cells[i][j], "") == 4
    {
      CountEmptyPattern(t.cells[i][j]);
    }
    GridTotalConstant(t.cells, "", t.rows, t.cols, 4);
  }

  /** A search string longer than a cell finds nothing anywhere. */
  lemma SearchLongPattern(t: Table, pattern: string)
    requires WellFormed(t)
    requires |pattern| > CellLength
    ensures Search(t, pattern) == Report(0, [])
  {
    forall i, j | 0 <= i < |t.cells| && 0 <= j < |t.cells[i]|
      ensures CountOverlapping(t.cells[i][j], pattern) == 0
    {
    }
    GridTotalConstant(t.cells, pattern, t.rows, t.cols, 0);
    assert Search(t, pattern).positions == [];
  }
}
