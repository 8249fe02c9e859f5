/** The validators behind the application's prompts. Each reads one input
    line and accepts or rejects it; the prompt repeats until a line is
    accepted, which `FirstAccepted` models over a script of lines. */
module Validation {
  import opened Wrappers
  import opened JavaText
  import opened Grid

  // ---------------------------------------------------------------------------
  // Retrying a prompt
  // ---------------------------------------------------------------------------

  /** A line that was accepted, with the number of lines read up to and
      including it. */
  datatype Accepted<T> = Accepted(value: T, used: nat)

  /** Reads lines until `parse` accepts one. `None` when the lines run out
      first (where the application would fail reading past the end of its
      input). */
  function FirstAccepted<T>(lines: seq<string>, parse: string -> Option<T>): (r: Option<Accepted<T>>)
    ensures r.Some? ==> 1 <= r.value.used <= |lines|
    ensures r.Some? ==> parse(lines[r.value.used - 1]) == Some(r.value.value)
  {
    if |lines| == 0 then None
    else
      match parse(lines[0])
      case Some(v) => Some(Accepted(v, 1))
      case None =>
        var later := FirstAccepted(lines[1..], parse);
        match later
        case None => None
        case Some(a) => Some(Accepted(a.value, a.used + 1))
  }

  /** The prompt takes the FIRST acceptable line: every line before the
      accepted one was rejected, and it gives up only when every line was. */
  lemma {:induction false} FirstAcceptedIsFirst<T>(lines: seq<string>, parse: string -> Option<T>)
    ensures var r := FirstAccepted(lines, parse);
            r.Some? ==> forall k :: 0 <= k < r.value.used - 1 ==> parse(lines[k]).None?
    ensures FirstAccepted(lines, parse).None? <==> forall k :: 0 <= k < |lines| ==> parse(lines[k]).None?
    decreases |lines|
  {
    if |lines| > 0 && parse(lines[0]).None? {
      FirstAcceptedIsFirst(lines[1..], parse);
      assert forall k :: 1 <= k < |lines| ==> lines[k] == lines[1..][k - 1];
    }
  }

  // ---------------------------------------------------------------------------
  // The table dimension: "RxC"
  // ---------------------------------------------------------------------------

  /** Piece `k` of `split("x")`, trimmed and parsed as an `int`; `None`
      when there is no such piece or it does not parse. */
  function Field(line: string, k: nat): (r: Option<int>) {
    var pieces := SplitX(line);
    if k < |pieces| then ParseInt(Trim(pieces[k])) else None
  }

  /** Why a dimension line was rejected: it could not be read as two integers,
      or one of them is not positive. */
  datatype DimensionError = BadFormat | NotPositive

  /** The dimension prompt of `dimensionTable`: accepted exactly when the
      first two pieces of `split("x")` parse, once trimmed, as positive
      integers, which become the dimensions; pieces after the second are
      ignored. Rejected as not positive when both parse but one is not
      positive; any other line (a missing piece or a failed parse, which the
      source catches as one exception) is a format error. */
  function ParseDimension(line: string): (r: Result<(int, int), DimensionError>)
    ensures r.Success? <==>
              Field(line, 0).Some? && Field(line, 1).Some? && Field(line, 0).value > 0 && Field(line, 1).value > 0
    ensures r.Success? ==> r.value == (Field(line, 0).value, Field(line, 1).value)
    ensures r == Failure(NotPositive) <==>
              Field(line, 0).Some? && Field(line, 1).Some? && (Field(line, 0).value <= 0 || Field(line, 1).value <= 0)
    ensures r.Success? ==> InIntRange(r.value.0) && InIntRange(r.value.1)
  {
    var pieces := SplitX(line);
    if |pieces| < 1 then Failure(BadFormat)
    else
      match ParseInt(Trim(pieces[0]))
      case None => Failure(BadFormat)
      case Some(rows) =>
        if |pieces| < 2 then Failure(BadFormat)
        else
          match ParseInt(Trim(pieces[1]))
          case None => Failure(BadFormat)
          case Some(cols) =>
            if rows <= 0 || cols <= 0 then Failure(NotPositive) else Success((rows, cols))
  }

  /** A printed `int` in range parses back to itself. */
  lemma ParseShowIntInRange(n: int)
    ensures InIntRange(n) ==> ParseInt(ShowInt(n)) == Some(n)
  {
    if InIntRange(n) {
      ParseShowInt(n);
    }
  }

  /** Blank padding around a printed `int`: `pad + ShowInt(n) + pad'`. */
  function Padded(pad: string, n: int, pad': string): (s: string)
    requires AllBlank(pad) && AllBlank(pad')
    ensures Separator !in s && s != ""
    ensures InIntRange(n) ==> ParseInt(Trim(s)) == Some(n)
  {
    ShowIntPlain(n);
    TrimOfPadded(pad, ShowInt(n), pad');
    ParseShowIntInRange(n);
    pad + ShowInt(n) + pad'
  }

  /** Every pair of `int`s written as "RxC", with any blanks around either
      number, is read as that pair: accepted when both are positive,
      rejected as not positive otherwise. */
  lemma ParseDimensionShow(rows: int, cols: int, p1: string, p2: string, p3: string, p4: string)
    requires InIntRange(rows) && InIntRange(cols)
    requires AllBlank(p1) && AllBlank(p2) && AllBlank(p3) && AllBlank(p4)
    ensures ParseDimension(Padded(p1, rows, p2) + [Separator] + Padded(p3, cols, p4))
            == if rows > 0 && cols > 0 then Success((rows, cols)) else Failure(NotPositive)
  {
    SplitXPair(Padded(p1, rows, p2), Padded(p3, cols, p4));
  }

  /** Whatever follows the second piece does not matter. */
  lemma ParseDimensionIgnoresExtra(line: string, extra: string)
    requires |SplitX(line)| >= 2
    ensures ParseDimension(line + [Separator] + extra) == ParseDimension(line)
  {
    SplitXExtension(line, extra);
    var a := SplitX(line + [Separator] + extra);
    var b := SplitX(line);
    assert a[0] == a[..2][0] == b[..2][0] == b[0];
    assert a[1] == a[..2][1] == b[..2][1] == b[1];
  }

  /** A line with a single number is a format error, with or without the
      separator after it, since `split` drops the empty piece. */
  lemma ParseDimensionOneNumber()
    ensures ParseDimension("3") == Failure(BadFormat)
    ensures ParseDimension("3x") == Failure(BadFormat)
  {
    assert SplitX("3x") == ["3"] by {
      SplitXOf(["3", ""], "3x");
    }
  }

  // ---------------------------------------------------------------------------
  // The cell to edit: "RxC" again, checked against the table
  // ---------------------------------------------------------------------------

  /** Why a cell line was rejected; the source prints a different message
      for each. */
  datatype CoordError = WrongPieceCount | NotNumeric | OutOfRange

  /** The first stage of `edit`: accepted exactly when `split("x")` gives
      exactly two pieces, both parse as integers once trimmed, and the
      position they name lies inside the table. Each kind of rejection is
      reported separately, as the source prints a different message for each. */
  function ParseCoord(line: string, rows: int, cols: int): (r: Result<Coord, CoordError>)
    ensures r == Failure(WrongPieceCount) <==> |SplitX(line)| != 2
    ensures r == Failure(NotNumeric) <==> |SplitX(line)| == 2 && (Field(line, 0).None? || Field(line, 1).None?)
    ensures r.Success? <==>
              |SplitX(line)| == 2 && Field(line, 0).Some? && Field(line, 1).Some?
              && 0 <= Field(line, 0).value < rows && 0 <= Field(line, 1).value < cols
    ensures r.Success? ==> r.value == Coord(Field(line, 0).value, Field(line, 1).value)
  {
    var pieces := SplitX(line);
    if |pieces| != 2 then Failure(WrongPieceCount)
    else
      match ParseInt(Trim(pieces[0]))
      case None => Failure(NotNumeric)
      case Some(row) =>
        match ParseInt(Trim(pieces[1]))
        case None => Failure(NotNumeric)
        case Some(col) =>
          if row < 0 || row >= rows || col < 0 || col >= cols then Failure(OutOfRange)
          else Success(Coord(row, col))
  }

  /** Every pair of `int`s written as "RxC", with any blanks around either
      number, is read as that position: accepted when it lies inside the
      table, rejected as out of range otherwise. */
  lemma ParseCoordShow(row: int, col: int, rows: int, cols: int, p1: string, p2: string, p3: string, p4: string)
    requires InIntRange(row) && InIntRange(col)
    requires AllBlank(p1) && AllBlank(p2) && AllBlank(p3) && AllBlank(p4)
    ensures ParseCoord(Padded(p1, row, p2) + [Separator] + Padded(p3, col, p4), rows, cols)
            == if 0 <= row < rows && 0 <= col < cols then Success(Coord(row, col)) else Failure(OutOfRange)
  {
    var a, b := Padded(p1, row, p2), Padded(p3, col, p4);
    SplitXPair(a, b);
    assert ParseInt(Trim(a)) == Some(row) && ParseInt(Trim(b)) == Some(col);
  }

  /** A separator at the end of a line makes no difference to either "RxC"
      prompt, since `split` drops the empty piece after it. On the empty line
      the pieces do differ (`"x"` has none, `""` has one empty piece), but
      both are rejected alike. */
  lemma ParseTrailingSeparator(line: string, rows: int, cols: int)
    ensures ParseCoord(line + [Separator], rows, cols) == ParseCoord(line, rows, cols)
    ensures ParseDimension(line + [Separator]) == ParseDimension(line)
  {
    if |line| > 0 {
      SplitXTrailing(line);
    } else {
      assert line + [Separator] == [Separator];
      assert [Separator][1..] == "";
      assert SplitAll([Separator]) == ["", ""];
      assert DropTrailingEmpty(["", ""]) == DropTrailingEmpty([""]) == [];
      assert SplitX(line) == [""];
      assert ParseInt(Trim("")).None?;
    }
  }

  /** A third non-empty piece is rejected, unlike in the dimension prompt. */
  lemma ParseCoordThreePieces()
    ensures ParseCoord("1x2x3", 3, 3) == Failure(WrongPieceCount)
  {
    assert SplitX("1x2x3") == ["1", "2", "3"] by {
      SplitXOf(["1", "2", "3"], "1x2x3");
    }
  }

  /** Two pieces of which either does not parse are rejected as not
      numeric, whatever the table's size. */
  lemma ParseCoordNotNumeric(a: string, b: string, rows: int, cols: int)
    requires Separator !in a && Separator !in b && b != ""
    requires ParseInt(Trim(a)).None? || ParseInt(Trim(b)).None?
    ensures ParseCoord(a + [Separator] + b, rows, cols) == Failure(NotNumeric)
  {
    SplitXPair(a, b);
  }

  // ---------------------------------------------------------------------------
  // The new value: three characters once trimmed
  // ---------------------------------------------------------------------------

  /** The second stage of `edit`: the trimmed line is accepted when it is
      exactly three characters long, whatever the characters are. */
  function ParseValue(line: string): (r: Option<string>)
    ensures r.Some? <==> |Trim(line)| == CellLength
    ensures r.Some? ==> r.value == Trim(line) && |r.value| == CellLength && IsTrimmed(r.value)
  {
    var value := Trim(line);
    if |value| == CellLength then Some(value) else None
  }

  /** An accepted value is accepted again as itself: it has no blanks left
      to strip. */
  lemma ParseValueIdempotent(line: string)
    requires ParseValue(line).Some?
    ensures ParseValue(ParseValue(line).value) == ParseValue(line)
  {
    TrimIdempotent(line);
  }

  /** Any three characters with no blank at either end are accepted, with
      any blank padding around them. */
  lemma ParseValuePadded(pad: string, value: string, pad': string)
    requires AllBlank(pad) && AllBlank(pad')
    requires |value| == CellLength && IsTrimmed(value)
    ensures ParseValue(pad + value + pad') == Some(value)
  {
    TrimOfPadded(pad, value, pad');
  }

  // ---------------------------------------------------------------------------
  // The three prompts together
  // ---------------------------------------------------------------------------

  /** The validators behind the application's three prompts: the table
      dimension, the cell to edit (checked against the table's size) and the
      new value. The editor and the menu are stated for any validators that
      are `Sound`, and the application uses `JavaPrompts`. */
  datatype Prompts = Prompts(
    dimension: string -> Option<(int, int)>,
    cell: (string, int, int) -> Option<Coord>,
    value: string -> Option<string>)

  /** What the rest of the application relies on: accepted dimensions are
      positive, accepted cells lie inside the table, accepted values have
      the length of a cell. */
  ghost predicate Sound(p: Prompts) {
    && (forall line :: p.dimension(line).Some? ==> p.dimension(line).value.0 > 0 && p.dimension(line).value.1 > 0)
    && (forall line, rows, cols :: p.cell(line, rows, cols).Some? ==>
          0 <= p.cell(line, rows, cols).value.row < rows && 0 <= p.cell(line, rows, cols).value.col < cols)
    && (forall line :: p.value(line).Some? ==> |p.value(line).value| == CellLength)
  }

  /** The application's own validators. */
  const JavaPrompts: Prompts :=
    Prompts(line => ParseDimension(line).ToOption(),
            (line, rows, cols) => ParseCoord(line, rows, cols).ToOption(),
            ParseValue)

  /** The application's validators keep the promises the menu relies on,
      and accept exactly what the individual validators accept. */
  lemma JavaPromptsSound()
    ensures Sound(JavaPrompts)
    ensures forall line :: JavaPrompts.dimension(line) == ParseDimension(line).ToOption()
    ensures forall line, rows, cols :: JavaPrompts.cell(line, rows, cols) == ParseCoord(line, rows, cols).ToOption()
    ensures forall line :: JavaPrompts.value(line) == ParseValue(line)
  {
    var p := JavaPrompts;
    forall line | p.dimension(line).Some?
      ensures p.dimension(line).value.0 > 0 && p.dimension(line).value.1 > 0
    {
      assert ParseDimension(line).Success?;
    }
    forall line, rows, cols | p.cell(line, rows, cols).Some?
      ensures 0 <= p.cell(line, rows, cols).value.row < rows && 0 <= p.cell(line, rows, cols).value.col < cols
    {
      assert ParseCoord(line, rows, cols).Success?;
    }
  }
}
