# Puzzle input reader — a Dafny model

This project models `PuzzleInput`, the class that reads a polyomino-style
puzzle file for the puzzle solver. A puzzle file has three parts:

- a header line `rows cols pieces`;
- a line naming the case type;
- the pieces drawn as ASCII art, one after another.

`readFromFile` does the following:

- It trims the header line and splits it on single spaces. Tokens 0, 1 and 2
  are parsed as `rows`, `cols` and `numPieces`.
- It trims the second line and keeps it as `caseType`.
- It walks the remaining lines one at a time. Each line is trimmed, and a line
  that is then empty is skipped. A kept line whose first character differs from
  the previous kept line's closes the current piece and opens a new one. After
  the last line the open piece is closed too.

The model is split into modules:

- `Wrappers` (`wrappers.dfy`): `Option`, `Result` and `Outcome`. These stand for
  Java's exceptions and `null` returns.
- `JavaString` (`java_string.dfy`): Java strings as sequences of UTF-16 code
  units (`Char16`, `JString`), and the two `java.lang.String` operations the
  reader relies on.
  - `trim()` strips every character up to U+0020 from both ends.
  - `split(" ")` returns a string without a space whole. Any other string is
    cut at every space, and trailing empty pieces are dropped.
- `Grouping` (`grouping.dfy`):
  - `Clean` keeps the trimmed, non-blank lines.
  - `Group` cuts them into maximal runs with a common first character. These
    runs are the specification of the pieces.
  - `Reader`, `Feed` and `Read` describe the reading loop's state and one pass
    of its body. They are proved to compute `Group`.
- `PuzzleInput` (`puzzle_input.dfy`):
  - `ParseHeader` and `ReadPuzzle` are the value-level result of a read.
  - The class `PuzzleInput` has the Java fields.
  - `ReadFromLines` models `readFromFile`, and `ReadPieces` models its loop with
    the Java locals `currentPiece` and `prevFirstChar`.
  - `Load` models the constructor.

The file is given as the sequence of lines that `readLine()` returns before it
returns `null`. `Integer.parseInt` is a parameter of type
`JString -> Option<int32>`, so any total function that yields a 32-bit value or
fails fits. The getters (`GetRows` … `GetPuzzleShapes`) are functions that read
the corresponding field.

A line is a sequence of UTF-16 code units, as a Java `String` is, and
`charAt(0)` is its first unit. A character outside the Basic Multilingual
Plane therefore counts by its high surrogate alone: two lines that begin with
different such characters sharing a high surrogate (U+1F600 and U+1F601, say)
form one piece. `SurrogatePairsShareAPiece` states this case.

Two consequences of the code are worth stating plainly:

- Each line is trimmed on its own (src/PuzzleInput.java:29), so the relative
  indentation of a piece's rows is lost.
- `numPieces` is stored (src/PuzzleInput.java:20) and returned by
  `getNumPieces` (src/PuzzleInput.java:51), and it is never compared with the
  number of pieces read. `PieceCountNotChecked` states this.

## Model

| member | source | states |
|---|---|---|
| JavaString.Trim | src/PuzzleInput.java:16 | the result of `trim()` is empty or begins and ends with a character above U+0020 |
| JavaString.TrimInfix | src/PuzzleInput.java:29 | `trim()` keeps one contiguous infix of the line: everything before and after it is blank |
| JavaString.TrimEmptyIffBlank | src/PuzzleInput.java:29-30 | a line trims to the empty string exactly when all its characters are at most U+0020 |
| JavaString.TrimIdempotent | src/PuzzleInput.java:29 | trimming a trimmed line changes nothing |
| JavaString.LeadingBlanks | src/PuzzleInput.java:29 | counts exactly the blank prefix: all before it blank, the next character (if any) not |
| JavaString.TrailingBlanks | src/PuzzleInput.java:29 | counts exactly the blank suffix: all after it blank, the previous character (if any) not |
| JavaString.SplitAll | src/PuzzleInput.java:16 | cutting at every separator gives at least one piece and no piece contains the separator |
| JavaString.JoinSplit | src/PuzzleInput.java:16 | joining the pieces with the separator gives the string back (nothing is lost) |
| JavaString.SplitJoin | src/PuzzleInput.java:16 | splitting a join of separator-free pieces gives the pieces back |
| JavaString.SplitAllPrefix | src/PuzzleInput.java:16 | a separator-free prefix extends only the first piece of the split |
| JavaString.SplitAllLastNonEmpty | src/PuzzleInput.java:16 | a string not ending in the separator has a non-empty last piece |
| JavaString.DropTrailingEmpty | src/PuzzleInput.java:16 | `split` removes a suffix of empty pieces only, leaving a prefix whose last piece is non-empty |
| JavaString.JavaSplit | src/PuzzleInput.java:16 | `split(" ")` returns the string whole when it holds no space; otherwise a prefix of the cut at every space that drops only empty pieces and ends in a non-empty one |
| JavaString.SplitWithoutTrailingSep | src/PuzzleInput.java:16 | on a string that does not end in the separator, Java's `split` is the plain cut at every separator |
| PuzzleInput.HeaderTokens | src/PuzzleInput.java:16 | the trimmed header splits into at least one token, no token holds a space, and the tokens joined by spaces are the trimmed line |
| PuzzleInput.ParseToken | src/PuzzleInput.java:18-20 | `Integer.parseInt(firstLine[i])` succeeds exactly when token `i` exists and parses, with the parsed value; a missing token is `MissingToken(i)` (the array-index exception) and an unparsable one `NotANumber(i, token)` |
| PuzzleInput.ParseHeader | src/PuzzleInput.java:16-20 | succeeds iff there are at least three tokens and tokens 0, 1, 2 parse; then rows/cols/numPieces are those values in that order; otherwise the error names the first token (below 3) that is missing or not a number, with all earlier ones parsed |
| PuzzleInput.ReadPuzzle | src/PuzzleInput.java:13-48 | succeeds iff there are two lines and the header parses; missing first line, failing header and missing second line give their errors; on success the case type is the trimmed second line and the shapes are runs that read back as the kept body lines |
| PuzzleInput.PieceCountNotChecked | src/PuzzleInput.java:16-22 | whether reading succeeds, and the header read, depend only on the first two lines: the declared piece count is never checked against the pieces |
| PuzzleInput.ShapesAreTrimmedRuns | src/PuzzleInput.java:29-40 | every stored line is trimmed and non-empty and starts with its piece's first character |
| Grouping.Kept | src/PuzzleInput.java:29-30 | a line contributes nothing exactly when all its units are at most U+0020, and otherwise exactly its trimmed form, which is a non-empty trimmed line |
| Grouping.Clean | src/PuzzleInput.java:28-30 | the kept lines are no more than the input lines and each is non-empty |
| Grouping.CleanPieceLines | src/PuzzleInput.java:29-32 | every kept line is trimmed and has length at least 1, so `charAt(0)` is in range |
| Grouping.CleanBlank | src/PuzzleInput.java:30 | lines that trim to nothing are all dropped |
| Grouping.CleanAppend | src/PuzzleInput.java:28-30 | each line is kept or dropped on its own: cleaning distributes over concatenation |
| Grouping.CleanSnoc | src/PuzzleInput.java:28-30 | one more line adds that line trimmed, or nothing when it is blank |
| Grouping.BlankLinesIgnored | src/PuzzleInput.java:29-30 | inserting blank lines anywhere changes nothing that is kept |
| Grouping.BlankBodyHasNoPieces | src/PuzzleInput.java:28-45 | a body with no non-blank line gives zero pieces |
| Grouping.FlattenAppend | src/PuzzleInput.java:35-44 | reading pieces back to back distributes over concatenation |
| Grouping.FlattenSnoc | src/PuzzleInput.java:43-45 | appending a piece appends its lines |
| Grouping.FlattenHas | src/PuzzleInput.java:39 | every stored line is one of the kept lines |
| Grouping.RunLength | src/PuzzleInput.java:32-37 | the length of the leading run of lines starting with `c`: the run ends at the end or at a line with another first character |
| Grouping.Group | src/PuzzleInput.java:32-45 | there are no pieces exactly when there are no kept lines |
| Grouping.GroupRuns | src/PuzzleInput.java:32-45 | every piece is non-empty, all its lines share its first character, neighbouring pieces differ in first character, the pieces read back as the kept lines, and the first kept line opens the first piece |
| Grouping.GroupUnique | src/PuzzleInput.java:32-45 | any cut of the kept lines into such runs is Group's, so the pieces are exactly the maximal runs |
| Grouping.GroupCons | src/PuzzleInput.java:34-36 | a piece ends exactly where the first character changes |
| Grouping.RunsCons | src/PuzzleInput.java:34 | a run put before runs with another first character keeps the run property |
| Grouping.RunsTail | src/PuzzleInput.java:34 | dropping the first piece keeps the run property |
| Grouping.RunsLinesNonEmpty | src/PuzzleInput.java:32 | every line in a sequence of runs is non-empty |
| Grouping.RunsAppendRun | src/PuzzleInput.java:34-39 | closing the current piece and opening one for a line with a new first character keeps the run property |
| Grouping.RunsExtendLast | src/PuzzleInput.java:39 | adding a same-initial line to the last piece keeps the run property |
| Grouping.OpenFirstRun | src/PuzzleInput.java:24-39 | the first kept line by itself is one run that reads back as that line |
| Grouping.CloseAndOpenRun | src/PuzzleInput.java:34-39 | a line with a new first character closes the open run and opens its own, keeping runs and their read-back |
| Grouping.ExtendOpenRun | src/PuzzleInput.java:39 | a line with the open run's first character joins it, keeping runs and their read-back |
| Grouping.ReadStep | src/PuzzleInput.java:32-40 | from a state that holds Group(kept), each of the three cases (first line, same initial, new initial) holds Group(kept + [line]) |
| Grouping.Feed | src/PuzzleInput.java:32-40 | after a kept line, `prevFirstChar` is its first character and it is the last line of the open piece, and at most the old open piece has been closed |
| Grouping.StartDescribesNothing | src/PuzzleInput.java:24-25 | the initial state (no piece, `prevFirstChar` = "") describes the empty set of lines |
| Grouping.FeedDescribes | src/PuzzleInput.java:32-40 | one pass of the loop body on a kept line keeps the state in step with Group |
| Grouping.ReadKeepsClosed | src/PuzzleInput.java:28-41 | the loop (`Read`, its fold over the unread lines) only appends to the closed pieces, and blank-only lines leave its state unchanged |
| Grouping.ReadEndsWithLastKept | src/PuzzleInput.java:28-41 | after the loop has read a non-blank line, the last kept line ends the open piece and `prevFirstChar` is its first unit |
| Grouping.ReadDescribes | src/PuzzleInput.java:28-41 | reading lines from a state that describes `seen` yields a state that describes `seen` plus the kept lines |
| Grouping.ReadFromStart | src/PuzzleInput.java:24-45 | the loop from its initial state, followed by the final flush, yields exactly Group of the kept lines |
| Grouping.GroupSameInitialPair | src/PuzzleInput.java:34-39 | two non-empty lines with the same first character form one piece |
| Grouping.CleanAcrossBlanks | src/PuzzleInput.java:29-30 | two lines with only blank lines between them are kept as the two of them, trimmed |
| Grouping.SameInitialAcrossBlanks | src/PuzzleInput.java:29-40 | two same-initial lines separated by blank lines stay in one piece |
| Grouping.SurrogatePairsShareAPiece | src/PuzzleInput.java:32-34 | only the first UTF-16 unit is compared: lines beginning with U+1F600 and U+1F601 (same high surrogate) form one piece |
| PuzzleInput.PuzzleInput.constructor | src/PuzzleInput.java:5-7 | the field initialisers: numbers zero, no case type, no shapes |
| PuzzleInput.PuzzleInput.ReadFromLines | src/PuzzleInput.java:13-48 | the outcome is ReadPuzzle's; on success the fields hold its header and case type and its shapes are appended to `puzzleShapes`; on failure no shape is stored and the case type is untouched |
| PuzzleInput.PuzzleInput.ReadPieces | src/PuzzleInput.java:24-45 | the loop with `currentPiece`/`prevFirstChar` and the final flush append exactly Group of the kept body lines to `puzzleShapes` |
| PuzzleInput.PuzzleInput.GetRows | src/PuzzleInput.java:49 | returns the rows of whatever puzzle the object holds |
| PuzzleInput.PuzzleInput.GetCols | src/PuzzleInput.java:50 | returns the columns of whatever puzzle the object holds |
| PuzzleInput.PuzzleInput.GetNumPieces | src/PuzzleInput.java:51 | returns the declared piece count of whatever puzzle the object holds |
| PuzzleInput.PuzzleInput.GetCaseType | src/PuzzleInput.java:52 | returns the case type of whatever puzzle the object holds |
| PuzzleInput.PuzzleInput.GetPuzzleShapes | src/PuzzleInput.java:53 | returns the pieces of whatever puzzle the object holds |
| PuzzleInput.Load | src/PuzzleInput.java:9-11 | a failing read gives ReadPuzzle's error; a successful one gives a fresh reader whose fields hold ReadPuzzle's result |

## Left out

- File access is not modelled: the `"test/input/"` path, `FileReader`/`BufferedReader`,
  `br.close()` and `IOException`. The input is the sequence of lines read.
- `Integer.parseInt` is an abstract parameter. Its exact grammar (sign, radix
  digits, range check) lives in the JDK, and the model only records that it
  yields an `int32` or fails with `NotANumber`.
- PuzzleGUI.java and Main.java (Swing UI and console glue) are not part of this
  model. `PuzzleSolver` is not part of this model either: its source is not
  among the files.
- PuzzleInput.PuzzleInput.ReadFromLines: on failure the contract does not pin
  `rows`, `cols` and `numPieces`. Java may have assigned some of them before it
  throws. The object is then unreachable, because the constructor itself throws.
- PuzzleInput.PuzzleInput.constructor: Java's `caseType` is `null` until it is
  read. The model uses the empty string, since Dafny strings are never null.
- `currentPiece` is an `ArrayList` that is cleared in place. Each closed piece
  is stored as a copy (`new ArrayList<>(currentPiece)`). The model stores
  sequence values, so the copy and the clear become plain assignments.
  `getPuzzleShapes` returns the live list in Java, so callers can alias it. The
  model does not capture this.
- The loop of `readFromFile` is its own method `ReadPieces`. It consumes the
  unread lines from the front, as `readLine()` does. The header part is the
  rest of `ReadFromLines`.
- Decoding the file's bytes into UTF-16 units (the platform charset of
  `FileReader`) is not modelled: the lines are given as units. No locale or
  Unicode normalisation is involved in `trim()` or `charAt(0)`.
- `caseType` has no meaning beyond being stored.
- Preserving relative indentation within a piece is not modelled, because the
  code trims each line on its own.
