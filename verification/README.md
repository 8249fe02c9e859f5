# ASCII table application, modelled in Dafny

`ASCIIAppArray` is a small console program. It asks for table dimensions
written `rowsxcols` and fills a `rows × cols` table with random three-character
strings of printable ASCII. It then loops on a menu:

- `1` searches every cell for a string, counting overlapping occurrences.
- `2` edits one cell after validating a position and a three-character value.
- `3` prints the table.
- `4` resets the table by asking for new dimensions.
- `x` or `X` exits.

This project models that behaviour as pure functions over immutable data.
It proves what the program promises about each step.

The modules follow the program's structure:

| file | module | what it holds |
|---|---|---|
| `wrappers.dfy` | `Wrappers` | `Option` and `Result` |
| `java_text.dfy` | `JavaText` | `String.trim`, `String.split("x")` with Java's trailing-empty rule, `Integer.parseInt` and `Integer.toString` |
| `grid.dfy` | `Grid` | the table, the random source and `generateRandomTable` |
| `search_engine.dfy` | `SearchEngine` | `countOverlapping` and `search` |
| `validation.dfy` | `Validation` | the three input validators of the prompts, and "retry until a line is accepted" |
| `editor.dfy` | `Editor` | the cell update and the whole `edit` command |
| `app.dfy` | `App` | the menu dispatch, the menu loop, `dimensionTable` and `main` |

Modelling choices:

- **Input** is a sequence of lines. Each prompt consumes lines until one is
  accepted. Running out of lines is the `NoSuchElementException` the program
  would raise: it gives `None` or the status `InputEnded`.
- **Randomness.** `java.util.Random` becomes a function `rand: nat -> Draw`
  from a draw's index to a value in `[0, 94)`. The state counts how many draws
  have been used. Each generated character is `draw + 33`.
- **Output.** What the program prints becomes a list of events: `Shown` for a
  printed table, `Found` for a search report, `Updated` for an edit with the
  old value, and `InvalidAction`.
- **Prompts.** The edit and reset commands are proved for any validators that
  keep three promises, the `Validation.Prompts` record with `Sound`:
  - accepted dimensions are positive;
  - accepted cells are in range;
  - accepted values have three characters.

  `Validation.JavaPromptsSound` shows that the program's own validators keep
  those promises. `App.Application` is the program with those validators.

Three edge cases of the input handling follow directly from the code:

- **Empty search pattern.** `countOverlapping` finds the empty pattern at
  every index from 0 to the cell's length, so a three-character cell counts
  4 (`SearchEngine.CountEmptyPattern`, `SearchEngine.SearchEmptyPattern`).
- **Extra dimension pieces.** `dimensionTable` reads only the first two
  `x`-separated pieces and ignores the rest, so `3x4x9` is accepted as 3 × 4
  (`Validation.ParseDimensionIgnoresExtra`). `edit`, by contrast, demands
  exactly two pieces (`Validation.ParseCoordThreePieces`).
- **Trailing separator.** Java's `split` drops trailing empty pieces, so
  `1x2x` still has two pieces and is accepted as a cell
  (`Validation.ParseTrailingSeparator`).

## Model

| member | source | states |
|---|---|---|
| JavaText.Trim | asciitable/ASCIIAppArray.java:77 | the trimmed line has no blank (a char at or below U+0020) at either end and is no longer than the line |
| JavaText.TrimSlice | asciitable/ASCIIAppArray.java:170 | `trim()` removes only blanks, and only from the ends: the result is a slice of the line with all-blank text on both sides |
| JavaText.TrimOfPadded | asciitable/ASCIIAppArray.java:77 | blanks around a trimmed string are removed exactly, giving back that string |
| JavaText.TrimIdempotent | asciitable/ASCIIAppArray.java:170 | trimming a trimmed line changes nothing |
| JavaText.SplitX | asciitable/ASCIIAppArray.java:29 | no piece of `split("x")` contains an `x`; a line without `x`, the empty line included, is its own single piece; a line containing `x` never ends in an empty piece |
| JavaText.SplitXLosesOnlySeparators | asciitable/ASCIIAppArray.java:29 | joining the pieces with `x` gives back the line, less a run of trailing `x`s; a line with no pieces is all `x`s |
| JavaText.SplitXOf | asciitable/ASCIIAppArray.java:138 | splitting pieces joined by `x` gives back those pieces, less the trailing empty ones |
| JavaText.SplitXTrailing | asciitable/ASCIIAppArray.java:138 | an `x` appended to a non-empty line does not change its pieces |
| JavaText.SplitXExtension | asciitable/ASCIIAppArray.java:29-33 | whatever follows the second piece never changes the first two pieces |
| JavaText.SplitXPair | asciitable/ASCIIAppArray.java:138 | two `x`-free strings joined by `x`, the second non-empty, split into exactly those two pieces |
| JavaText.ParseInt | asciitable/ASCIIAppArray.java:32-33 | `parseInt` accepts only an optional sign followed by decimal digits, with a value in the Java `int` range, negative only after `-` |
| JavaText.ParseShowInt | asciitable/ASCIIAppArray.java:147-148 | parsing the decimal text of any `int` gives back that `int` |
| Grid.GenerateRandomTable | asciitable/ASCIIAppArray.java:52-65 | the table is `rows × cols`, every cell has three characters, the character k of cell (i, j) is draw number `3·(i·cols + j) + k` plus 33, and every character lies in [33, 126] |
| Grid.GenerateRowCells | asciitable/ASCIIAppArray.java:56-62 | cell j of a generated row is built from the three draws starting at offset `3·j` |
| Grid.GenerateRandomTableDraws | asciitable/ASCIIAppArray.java:55-62 | reading the table's characters back row by row, cell by cell, as draws gives exactly the `3·rows·cols` draws consumed, in order |
| Grid.RandomCellDraws | asciitable/ASCIIAppArray.java:58-61 | the three characters of a cell decode to the three consecutive draws it consumed |
| Grid.DrawsNeededProduct | asciitable/ASCIIAppArray.java:55-58 | filling a table consumes `3·rows·cols` draws |
| SearchEngine.CountOverlapping | asciitable/ASCIIAppArray.java:120-126 | the count equals the number of start indices at which the pattern occurs, overlaps included; a pattern longer than the text counts 0, because the loop body never runs |
| SearchEngine.CountEmptyPattern | asciitable/ASCIIAppArray.java:122-123 | the empty pattern occurs at every index from 0 to the text's length, so it counts `length + 1` |
| SearchEngine.CountBound | asciitable/ASCIIAppArray.java:122 | the count is at most `length(text) − length(pattern) + 1` |
| SearchEngine.CountOverlapExample | asciitable/ASCIIAppArray.java:120-126 | "aa" occurs twice in "aaa", "a" twice in "aba", and "ab" once in "ab" |
| SearchEngine.Search | asciitable/ASCIIAppArray.java:92-117 | the total is the sum of every cell's count; the positions are exactly the in-range cells with a positive count, each listed once, in row-major order; the total is positive exactly when some position is listed |
| SearchEngine.SearchRowsSound | asciitable/ASCIIAppArray.java:98-106 | every position the scan of the first n rows lists is in range and has a positive count |
| SearchEngine.SearchRowsComplete | asciitable/ASCIIAppArray.java:98-106 | every cell of the first n rows with a positive count is listed |
| SearchEngine.SearchRowsSorted | asciitable/ASCIIAppArray.java:98-99 | the listed positions are in strictly increasing row-major order, so none is listed twice |
| SearchEngine.SearchRowsTotal | asciitable/ASCIIAppArray.java:101-104 | the scan's total is the sum of the counts of the first n rows, and is positive exactly when some position is listed |
| SearchEngine.SearchEmptyPattern | asciitable/ASCIIAppArray.java:92-117 | on a well-formed table the empty pattern totals `4·rows·cols` and lists every cell |
| SearchEngine.SearchLongPattern | asciitable/ASCIIAppArray.java:111-116 | a pattern longer than three characters finds nothing: the total is 0 and no position is listed |
| Validation.FirstAccepted | asciitable/ASCIIAppArray.java:134-161 | a retrying prompt accepts a line that the validator accepts, and its value is the one the validator gives for that line |
| Validation.FirstAcceptedIsFirst | asciitable/ASCIIAppArray.java:168-177 | every line before the accepted one was rejected, and the prompt fails only when the validator rejects every line |
| Validation.ParseDimension | asciitable/ASCIIAppArray.java:29-45 | a line is accepted exactly when its first two `x`-pieces exist, parse once trimmed, and are both positive, and those values are the dimensions; it is rejected as not positive exactly when both parse and one is at most 0 |
| Validation.ParseDimensionShow | asciitable/ASCIIAppArray.java:29-40 | two printed `int`s with blanks around them, joined by `x`, are accepted as those dimensions when both are positive, and rejected as not positive otherwise |
| Validation.ParseDimensionIgnoresExtra | asciitable/ASCIIAppArray.java:29-33 | anything after a second `x` does not change how a line is read |
| Validation.ParseDimensionOneNumber | asciitable/ASCIIAppArray.java:32-33 | "3" and "3x" are format errors, because the second piece is missing |
| Validation.ParseCoord | asciitable/ASCIIAppArray.java:137-156 | a line is rejected for its piece count exactly when `split("x")` does not give two pieces; it is rejected as not numeric exactly when there are two pieces and one does not parse; it is accepted exactly when both parse to a position inside the table, which becomes the result |
| Validation.ParseCoordShow | asciitable/ASCIIAppArray.java:147-154 | two printed `int`s with blanks around them, joined by `x`, give that position when it is inside the table, and are rejected as out of range otherwise |
| Validation.ParseTrailingSeparator | asciitable/ASCIIAppArray.java:138 | an `x` appended to any line, the empty one included, changes neither the coordinate nor the dimension reading |
| Validation.ParseCoordThreePieces | asciitable/ASCIIAppArray.java:141-144 | "1x2x3" is rejected for its piece count |
| Validation.ParseCoordNotNumeric | asciitable/ASCIIAppArray.java:147-160 | two `x`-free pieces, the second non-empty and one of them not parsing once trimmed, are rejected as not numeric |
| Validation.ParseValue | asciitable/ASCIIAppArray.java:168-177 | a value line is accepted exactly when its trimmed text has three characters, and the value is that trimmed text |
| Validation.ParseValueIdempotent | asciitable/ASCIIAppArray.java:170 | an accepted value is itself accepted unchanged |
| Validation.ParseValuePadded | asciitable/ASCIIAppArray.java:170-176 | any three-character value with no blank at either end, surrounded by blanks, is accepted as exactly that value |
| Validation.JavaPromptsSound | asciitable/ASCIIAppArray.java:151-181 | the program's validators accept only positive dimensions, in-range cells and three-character values, so the array write at the end of `edit` is always in bounds |
| Editor.UpdateCell | asciitable/ASCIIAppArray.java:180-182 | the edit reports the cell's old value, the cell holds the new value, every other cell and the dimensions are unchanged, and a well-formed table stays well-formed |
| Editor.UpdateCellUndo | asciitable/ASCIIAppArray.java:180-181 | writing the reported old value back restores the table |
| Editor.UpdateCellSame | asciitable/ASCIIAppArray.java:181 | writing a cell's own value leaves the table unchanged |
| Editor.UpdateCellOverwrite | asciitable/ASCIIAppArray.java:181 | of two writes to one cell only the second is visible |
| Editor.UpdateCellCommute | asciitable/ASCIIAppArray.java:181 | writes to different cells can be made in either order |
| Editor.ReadEdit | asciitable/ASCIIAppArray.java:134-177 | the cell prompt ends at a line the cell validator accepts, and the value prompt ends at a later line the value validator accepts |
| Editor.ReadEditFirst | asciitable/ASCIIAppArray.java:134-177 | each prompt takes the first line it accepts: every earlier line was rejected by its validator |
| Editor.ReadEditNone | asciitable/ASCIIAppArray.java:134-177 | the edit prompts give up only when the input ends: no line is a valid cell, or no line after the first valid cell is a valid value |
| Editor.EditCell | asciitable/ASCIIAppArray.java:128-183 | the edit completes exactly when both prompts do; the accepted cell is inside the table, the value has three characters, and the table is updated at that cell only |
| App.ParseCommandLabel | asciitable/ASCIIAppArray.java:77-85 | the labels "1", "2", "3", "4" and "x", with any blanks around them, select search, edit, print, reset and exit |
| App.ParseCommandUpperExit | asciitable/ASCIIAppArray.java:84-85 | "X", with any blanks around it, also exits |
| App.ParseCommand | asciitable/ASCIIAppArray.java:77-86 | a line selects a command only when its trimmed text is exactly that command's label (or "X" for exit); every other line is an invalid action |
| App.DimensionTable | asciitable/ASCIIAppArray.java:27-49 | the table is generated with the dimensions of the first accepted line, from the next `3·rows·cols` draws, and is well-formed |
| App.DimensionTableFirst | asciitable/ASCIIAppArray.java:36-44 | every line before the accepted one was rejected, and the prompt fails only when every line is rejected |
| App.MenuStep | asciitable/ASCIIAppArray.java:79-87 | one command keeps the table well-formed and never gives back draws; it exits exactly on the exit command; print, exit and an invalid action read no further line and cannot fail; search, print, exit and an invalid action leave the state unchanged |
| App.MenuStepEffect | asciitable/ASCIIAppArray.java:79-87 | search reports `Search` on the next line; edit changes one in-range cell to a three-character value and reports the old value; print shows the table; reset replaces the table with a newly generated one, drawn from the next unused draws; exit shows nothing; any other action reports an invalid action |
| App.MenuStepFails | asciitable/ASCIIAppArray.java:79-87 | a command fails exactly when its own prompts run out of input: a search with no line left, an edit whose two prompts do not both accept a line, or a reset whose dimension prompt rejects every remaining line |
| App.Run | asciitable/ASCIIAppArray.java:68-89 | the menu loop keeps the table well-formed and never gives back draws; it ends as exited only if one of the lines it was given is an exit action ("x" or "X" once trimmed) |
| App.RunExitAtOnce | asciitable/ASCIIAppArray.java:84-85 | an exit command as the first action ends the loop with nothing changed and nothing reported |
| App.RunIgnoresInputAfterExit | asciitable/ASCIIAppArray.java:68-89 | once the loop has exited, lines after those it read have no effect on the outcome |
| App.MenuStepPrefix | asciitable/ASCIIAppArray.java:79-87 | a command that completes reads no more lines than it needs: extra input after them changes nothing |
| App.Program | asciitable/ASCIIAppArray.java:20-24 | `main` fails only when no line is accepted as dimensions; otherwise, with the first accepted line giving r × c (both positive, every earlier line rejected), it shows the table generated from the first `3·r·c` draws and then gives exactly what the menu loop gives on the lines after that one, started from that table; the final table is well-formed |
| App.Application | asciitable/ASCIIAppArray.java:20-24 | with the program's own validators, `main` fails only when every line is rejected by the dimension validator |

## Left out

- Console output: prompt and error messages are not modelled. A printed table or search report is an event carrying the table or the `Search` report, not text.
- `printTable` (lines 186-193): the `%-6s` layout is not modelled. Printing is the event `Shown(table)` and leaves the state unchanged.
- `java.util.Random`: replaced by the indexed draw source `rand`. The uniform distribution is not modelled, only that each draw is in `[0, 94)`.
- Recursion depth: each retry of `dimensionTable` is a recursive call. A very long run of rejected lines could overflow the stack; the model retries without bound, as a loop.
- Transient field writes: a rejected dimension line can still assign `rows` (and `cols`) before the check fails (lines 32-33). The table is unchanged and every later use follows a successful read, so the model keeps only the accepted dimensions.
- End of input: `nextLine` throws `NoSuchElementException`. The program stops with an uncaught exception, and the model stops with `None` or `InputEnded`.
- Memory: `new String[rows][cols]` can run out of memory for large dimensions. The model has no allocation limit.
- JavaText.ParseInt: accepts only ASCII digits. Java's `parseInt` also accepts other Unicode decimal digits (for example Arabic-Indic digits).
- Validation.ParseValue: counts Unicode scalar values. Java's `length()` counts UTF-16 code units, so a character outside the Basic Multilingual Plane counts twice in Java.
- SearchEngine.Search: the total is an unbounded natural. Java's `int` total would wrap past 2^31 − 1, which needs more than 500 million cells, since each cell contributes at most 4.
