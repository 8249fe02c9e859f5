/** The application's control flow: the dimension prompt at start-up and on
    reset, and the menu loop that dispatches one command per input line until
    "x" or the end of the input. */
module App {
  import opened Wrappers
  import opened JavaText
  import opened Grid
  import opened SearchEngine
  import opened Validation
  import opened Editor

  // ---------------------------------------------------------------------------
  // Menu commands
  // ---------------------------------------------------------------------------

  datatype Command = SearchCmd | EditCmd | PrintCmd | ResetCmd | ExitCmd | Unrecognised

  /** The command a one-character action selects. */
  function CommandOf(c: char): Command {
    if c == '1' then SearchCmd
    else if c == '2' then EditCmd
    else if c == '3' then PrintCmd
    else if c == '4' then ResetCmd
    else if c == 'x' || c == 'X' then ExitCmd
    else Unrecognised
  }

  /** The menu's `switch` on the trimmed input line: every label is a single
      character, so a longer or empty line is never a command. A line selects
      a command only when, trimmed, it is that command's label (or "X" for
      exit); anything else is an unrecognised action. */
  function ParseCommand(line: string): (r: Command)
    ensures r != Unrecognised ==> Trim(line) == [Label(r)] || (r == ExitCmd && Trim(line) == ['X'])
  {
    var action := Trim(line);
    if |action| == 1 then
      assert action == [action[0]];
      CommandOf(action[0])
    else Unrecognised
  }

  /** The menu label of a recognised command. */
  function Label(c: Command): char
    requires c != Unrecognised
  {
    match c
    case SearchCmd => '1'
    case EditCmd => '2'
    case PrintCmd => '3'
    case ResetCmd => '4'
    case ExitCmd => 'x'
  }

  /** Every recognised command is selected by its label, with any blanks
      around it. */
  lemma ParseCommandLabel(pad: string, c: Command, pad': string)
    requires AllBlank(pad) && AllBlank(pad') && c != Unrecognised
    ensures ParseCommand(pad + [Label(c)] + pad') == c
  {
    TrimOfPadded(pad, [Label(c)], pad');
  }

  lemma ParseCommandUpperExit(pad: string, pad': string)
    requires AllBlank(pad) && AllBlank(pad')
    ensures ParseCommand(pad + ['X'] + pad') == ExitCmd
  {
    TrimOfPadded(pad, ['X'], pad');
  }

  // ---------------------------------------------------------------------------
  // The dimension prompt and table generation
  // ---------------------------------------------------------------------------

  /** The application state between commands: the table, and how many draws
      of the random source have been used so far. */
  datatype Session = Session(table: Table, drawn: nat)

  /** A freshly generated table, the draw count after generating it, and the
      number of input lines the dimension prompt read. */
  datatype Dimensioned = Dimensioned(table: Table, drawn: nat, used: nat)

  /** `dimensionTable`: read lines until the dimension prompt accepts one,
      then fill a table of that size from the random source, starting at
      draw `pos`. `None` when the input ends first. */
  function DimensionTable(p: Prompts, lines: seq<string>, rand: nat -> Draw, pos: nat): (r: Option<Dimensioned>)
    requires Sound(p)
    ensures r.Some? ==> WellFormed(r.value.table)
    ensures r.Some? ==> 1 <= r.value.used <= |lines|
    ensures r.Some? ==> p.dimension(lines[r.value.used - 1]) == Some((r.value.table.rows, r.value.table.cols))
    ensures r.Some? ==> r.value.table == GenerateRandomTable(r.value.table.rows, r.value.table.cols, rand, pos)
    ensures r.Some? ==> r.value.drawn == pos + DrawsNeeded(r.value.table.rows, r.value.table.cols)
  {
    match FirstAccepted(lines, p.dimension)
    case None => None
    case Some(a) =>
      var rows := a.value.0;
      var cols := a.value.1;
      Some(Dimensioned(GenerateRandomTable(rows, cols, rand, pos), pos + DrawsNeeded(rows, cols), a.used))
  }

  /** The prompt takes the first line it accepts, and gives up only when it
      accepts none. */
  lemma DimensionTableFirst(p: Prompts, lines: seq<string>, rand: nat -> Draw, pos: nat)
    requires Sound(p)
    ensures var r := DimensionTable(p, lines, rand, pos);
            r.Some? ==> forall k :: 0 <= k < r.value.used - 1 ==> p.dimension(lines[k]).None?
    ensures DimensionTable(p, lines, rand, pos).None? <==> forall k :: 0 <= k < |lines| ==> p.dimension(lines[k]).None?
  {
    FirstAcceptedIsFirst(lines, p.dimension);
  }

  // ---------------------------------------------------------------------------
  // One menu command
  // ---------------------------------------------------------------------------

  /** What a command shows the user: a table, a search result, an update, or
      the complaint about an unknown action. */
  datatype Event =
    | Shown(table: Table)
    | Found(pattern: string, report: Report)
    | Updated(at: Coord, previous: string, value: string)
    | InvalidAction

  /** The effect of one command: the new state, what it showed, how many
      input lines it read (the action line included) and whether it ends the
      program. */
  datatype Step = Step(session: Session, events: seq<Event>, used: nat, exit: bool)

  /** One iteration of the menu loop: the `switch` on the action `cmd`, with
      `rest` the input after the action line. `None` when a command's own
      prompts run out of input. The step's `used` counts the action line. */
  function MenuStep(p: Prompts, s: Session, cmd: Command, rest: seq<string>, rand: nat -> Draw): (r: Option<Step>)
    requires Sound(p) && WellFormed(s.table)
    ensures r.Some? ==> WellFormed(r.value.session.table)
    ensures r.Some? ==> 1 <= r.value.used <= |rest| + 1
    ensures r.Some? ==> (r.value.exit <==> cmd == ExitCmd)
    ensures r.Some? ==> r.value.session.drawn >= s.drawn
    ensures cmd in {PrintCmd, ExitCmd, Unrecognised} ==> r.Some? && r.value.used == 1
    ensures r.Some? && cmd in {SearchCmd, PrintCmd, ExitCmd, Unrecognised} ==> r.value.session == s
  {
    match cmd
    case SearchCmd =>
      if |rest| == 0 then None
      else Some(Step(s, [Found(rest[0], Search(s.table, rest[0]))], 2, false))
    case EditCmd =>
      (match EditCell(p, s.table, rest)
       case None => None
       case Some(o) =>
         Some(Step(s.(table := o.edited.table), [Updated(o.input.at, o.edited.previous, o.input.value)], 1 + o.input.used, false)))
    case PrintCmd => Some(Step(s, [Shown(s.table)], 1, false))
    case ResetCmd =>
      (match DimensionTable(p, rest, rand, s.drawn)
       case None => None
       case Some(d) => Some(Step(Session(d.table, d.drawn), [Shown(d.table)], 1 + d.used, false)))
    case ExitCmd => Some(Step(s, [], 1, true))
    case Unrecognised => Some(Step(s, [InvalidAction], 1, false))
  }

  /** What each command does to the table: a search reports the occurrences
      of the next line, verbatim; an edit changes one cell inside the table
      and reports its old content; a reset replaces the table by a fresh
      one generated from the next draws. */
  lemma MenuStepEffect(p: Prompts, s: Session, cmd: Command, rest: seq<string>, rand: nat -> Draw)
    requires Sound(p) && WellFormed(s.table)
    ensures var r := MenuStep(p, s, cmd, rest, rand);
            r.Some? && cmd == SearchCmd ==>
              |rest| > 0 && r.value.events == [Found(rest[0], Search(s.table, rest[0]))]
    ensures var r := MenuStep(p, s, cmd, rest, rand);
            r.Some? && cmd == EditCmd ==>
              exists c: Coord, v: string :: s.table.InBounds(c) && |v| == CellLength
                && r.value.session == s.(table := UpdateCell(s.table, c, v).table)
                && r.value.events == [Updated(c, s.table.cells[c.row][c.col], v)]
    ensures var r := MenuStep(p, s, cmd, rest, rand);
            r.Some? && cmd == ResetCmd ==>
              var t := r.value.session.table;
              t == GenerateRandomTable(t.rows, t.cols, rand, s.drawn)
              && r.value.session.drawn == s.drawn + DrawsNeeded(t.rows, t.cols)
              && r.value.events == [Shown(t)]
    ensures cmd == PrintCmd ==> MenuStep(p, s, cmd, rest, rand).value.events == [Shown(s.table)]
    ensures cmd == ExitCmd ==> MenuStep(p, s, cmd, rest, rand).value.events == []
    ensures cmd == Unrecognised ==> MenuStep(p, s, cmd, rest, rand).value.events == [InvalidAction]
  {
    if cmd == EditCmd {
      match EditCell(p, s.table, rest)
      case None =>
      case Some(o) =>
        assert s.table.InBounds(o.input.at) && |o.input.value| == CellLength;
        assert MenuStep(p, s, cmd, rest, rand).value.session == s.(table := UpdateCell(s.table, o.input.at, o.input.value).table);
    }
  }

  /** A command fails only when its own prompts run out of input: search
      with no line left, an edit whose prompts never both accept, or a reset
      whose dimension prompt rejects every remaining line. */
  lemma MenuStepFails(p: Prompts, s: Session, cmd: Command, rest: seq<string>, rand: nat -> Draw)
    requires Sound(p) && WellFormed(s.table)
    ensures MenuStep(p, s, cmd, rest, rand).None? <==>
              (cmd == SearchCmd && |rest| == 0)
              || (cmd == EditCmd && ReadEdit(p, s.table.rows, s.table.cols, rest).None?)
              || (cmd == ResetCmd && forall k :: 0 <= k < |rest| ==> p.dimension(rest[k]).None?)
  {
    if cmd == ResetCmd {
      DimensionTableFirst(p, rest, rand, s.drawn);
    }
  }

  // ---------------------------------------------------------------------------
  // The menu loop
  // ---------------------------------------------------------------------------

  /** How the menu loop ended: by the exit command, or because the input ran
      out (where the application would fail reading past its end). */
  datatype Status = Exited | InputEnded

  /** The state the loop ended in, everything it showed, and why it ended. */
  datatype Outcome = Outcome(session: Session, events: seq<Event>, status: Status)

  /** `menu`: run commands until the exit command or the end of the input. */
  function Run(p: Prompts, s: Session, lines: seq<string>, rand: nat -> Draw): (o: Outcome)
    requires Sound(p) && WellFormed(s.table)
    ensures WellFormed(o.session.table)
    ensures o.session.drawn >= s.drawn
    ensures o.status == Exited ==> exists k :: 0 <= k < |lines| && ParseCommand(lines[k]) == ExitCmd
    decreases |lines|
  {
    if |lines| == 0 then Outcome(s, [], InputEnded)
    else
      match MenuStep(p, s, ParseCommand(lines[0]), lines[1..], rand)
      case None => Outcome(s, [], InputEnded)
      case Some(st) =>
        if st.exit then Outcome(st.session, st.events, Exited)
        else
          var rest := lines[st.used..];
          var o := Run(p, st.session, rest, rand);
          assert o.status == Exited ==> exists k :: st.used <= k < |lines| && ParseCommand(lines[k]) == ExitCmd by {
            if o.status == Exited {
              var k :| 0 <= k < |rest| && ParseCommand(rest[k]) == ExitCmd;
              assert lines[st.used + k] == rest[k];
            }
          }
          Outcome(o.session, st.events + o.events, o.status)
  }

  /** An exit command as the first action ends the program at once and shows
      nothing, whatever input follows. */
  lemma RunExitAtOnce(p: Prompts, s: Session, lines: seq<string>, rand: nat -> Draw)
    requires Sound(p) && WellFormed(s.table)
    requires |lines| > 0 && ParseCommand(lines[0]) == ExitCmd
    ensures Run(p, s, lines, rand) == Outcome(s, [], Exited)
  {
    assert MenuStep(p, s, ExitCmd, lines[1..], rand) == Some(Step(s, [], 1, true));
  }

  // ---------------------------------------------------------------------------
  // The input is read line by line, never ahead
  // ---------------------------------------------------------------------------

  /** Dropping a prefix of `lines` commutes with appending `more`. */
  lemma DropAppend(lines: seq<string>, more: seq<string>, k: nat)
    requires k <= |lines|
    ensures (lines + more)[k..] == lines[k..] + more
  {
  }

  /** A prompt that accepted one of the lines reads none of the lines after
      them. */
  lemma {:induction false} FirstAcceptedPrefix<T>(lines: seq<string>, more: seq<string>, parse: string -> Option<T>)
    requires FirstAccepted(lines, parse).Some?
    ensures FirstAccepted(lines + more, parse) == FirstAccepted(lines, parse)
    decreases |lines|
  {
    assert (lines + more)[0] == lines[0];
    if parse(lines[0]).None? {
      DropAppend(lines, more, 1);
      FirstAcceptedPrefix(lines[1..], more, parse);
    }
  }

  lemma DimensionTablePrefix(p: Prompts, lines: seq<string>, more: seq<string>, rand: nat -> Draw, pos: nat)
    requires Sound(p) && DimensionTable(p, lines, rand, pos).Some?
    ensures DimensionTable(p, lines + more, rand, pos) == DimensionTable(p, lines, rand, pos)
  {
    FirstAcceptedPrefix(lines, more, p.dimension);
  }

  lemma ReadEditPrefix(p: Prompts, rows: int, cols: int, lines: seq<string>, more: seq<string>)
    requires ReadEdit(p, rows, cols, lines).Some?
    ensures ReadEdit(p, rows, cols, lines + more) == ReadEdit(p, rows, cols, lines)
  {
    var q := CellPrompt(p, rows, cols);
    FirstAcceptedPrefix(lines, more, q);
    var a := FirstAccepted(lines, q).value;
    DropAppend(lines, more, a.used);
    FirstAcceptedPrefix(lines[a.used..], more, p.value);
  }

  lemma EditStepPrefix(p: Prompts, s: Session, rest: seq<string>, more: seq<string>, rand: nat -> Draw)
    requires Sound(p) && WellFormed(s.table) && MenuStep(p, s, EditCmd, rest, rand).Some?
    ensures MenuStep(p, s, EditCmd, rest + more, rand) == MenuStep(p, s, EditCmd, rest, rand)
  {
    ReadEditPrefix(p, s.table.rows, s.table.cols, rest, more);
    assert EditCell(p, s.table, rest + more) == EditCell(p, s.table, rest);
  }

  lemma ResetStepPrefix(p: Prompts, s: Session, rest: seq<string>, more: seq<string>, rand: nat -> Draw)
    requires Sound(p) && WellFormed(s.table) && MenuStep(p, s, ResetCmd, rest, rand).Some?
    ensures MenuStep(p, s, ResetCmd, rest + more, rand) == MenuStep(p, s, ResetCmd, rest, rand)
  {
    DimensionTablePrefix(p, rest, more, rand, s.drawn);
  }

  lemma MenuStepPrefix(p: Prompts, s: Session, cmd: Command, rest: seq<string>, more: seq<string>, rand: nat -> Draw)
    requires Sound(p) && WellFormed(s.table) && MenuStep(p, s, cmd, rest, rand).Some?
    ensures MenuStep(p, s, cmd, rest + more, rand) == MenuStep(p, s, cmd, rest, rand)
  {
    if cmd == SearchCmd {
      assert (rest + more)[0] == rest[0];
    } else if cmd == EditCmd {
      EditStepPrefix(p, s, rest, more, rand);
    } else if cmd == ResetCmd {
      ResetStepPrefix(p, s, rest, more, rand);
    }
  }

  /** Once the menu loop has exited, whatever input follows is never read:
      appending lines after them changes nothing. */
  lemma {:induction false} RunIgnoresInputAfterExit(p: Prompts, s: Session, lines: seq<string>, more: seq<string>, rand: nat -> Draw)
    requires Sound(p) && WellFormed(s.table)
    ensures Run(p, s, lines, rand).status == Exited ==> Run(p, s, lines + more, rand) == Run(p, s, lines, rand)
    decreases |lines|
  {
    if Run(p, s, lines, rand).status == Exited {
      var all := lines + more;
      var cmd := ParseCommand(lines[0]);
      var m := MenuStep(p, s, cmd, lines[1..], rand);
      assert |lines| > 0 && m.Some?;
      var st := m.value;
      assert all[0] == lines[0];
      DropAppend(lines, more, 1);
      MenuStepPrefix(p, s, cmd, lines[1..], more, rand);
      assert MenuStep(p, s, ParseCommand(all[0]), all[1..], rand) == m;
      if st.exit {
        assert Run(p, s, all, rand) == Outcome(st.session, st.events, Exited);
      } else {
        var o := Run(p, st.session, lines[st.used..], rand);
        assert Run(p, s, lines, rand) == Outcome(o.session, st.events + o.events, o.status);
        DropAppend(lines, more, st.used);
        RunIgnoresInputAfterExit(p, st.session, lines[st.used..], more, rand);
      }
    }
  }

  // ---------------------------------------------------------------------------
  // The program
  // ---------------------------------------------------------------------------

  /** The outcome of showing the freshly generated table `t`, with `drawn`
      draws used, and then running the menu on `lines`. */
  predicate StartedWith(p: Prompts, lines: seq<string>, rand: nat -> Draw, t: Table, drawn: nat, o: Outcome)
    requires Sound(p) && WellFormed(t)
  {
    var m := Run(p, Session(t, drawn), lines, rand);
    o == Outcome(m.session, [Shown(t)] + m.events, m.status)
  }

  /** `main`: ask for the dimension, show the generated table, then run the
      menu on the remaining input. The random source is read from its first
      draw on. `None` when the input ends before a dimension is accepted. */
  function Program(p: Prompts, lines: seq<string>, rand: nat -> Draw): (o: Option<Outcome>)
    requires Sound(p)
    ensures o.Some? ==> WellFormed(o.value.session.table)
    ensures o.Some? ==> |o.value.events| >= 1 && o.value.events[0].Shown?
    ensures o.None? <==> forall k :: 0 <= k < |lines| ==> p.dimension(lines[k]).None?
    ensures o.Some? ==>
              exists n: nat, r: int, c: int ::
                1 <= n <= |lines| && r > 0 && c > 0
                && p.dimension(lines[n - 1]) == Some((r, c))
                && (forall k :: 0 <= k < n - 1 ==> p.dimension(lines[k]).None?)
                && StartedWith(p, lines[n..], rand, GenerateRandomTable(r, c, rand, 0), DrawsNeeded(r, c), o.value)
  {
    DimensionTableFirst(p, lines, rand, 0);
    match DimensionTable(p, lines, rand, 0)
    case None => None
    case Some(d) =>
      var o := Run(p, Session(d.table, d.drawn), lines[d.used..], rand);
      var res := Outcome(o.session, [Shown(d.table)] + o.events, o.status);
      assert StartedWith(p, lines[d.used..], rand, d.table, d.drawn, res);
      Some(res)
  }

  /** The application as written: `Program` with the application's own
      validators. */
  function Application(lines: seq<string>, rand: nat -> Draw): (o: Option<Outcome>)
    ensures o.Some? ==> WellFormed(o.value.session.table)
    ensures o.None? <==> forall k :: 0 <= k < |lines| ==> ParseDimension(lines[k]).Failure?
  {
    JavaPromptsSound();
    Program(JavaPrompts, lines, rand)
  }
}
