/**
 * The puzzle reader. A puzzle file holds a header line "rows cols pieces",
 * a line naming the case type, and then the pieces as ASCII art, one run of
 * same-initial lines per piece. The reader keeps the three numbers, the case
 * type and the grouped piece lines.
 *
 * The file is given as the sequence of lines `readLine()` returns before it
 * returns null. `Integer.parseInt` is a parameter: any total function that
 * either yields a 32-bit value or fails.
 */
module PuzzleInput {
  import opened Wrappers
  import opened JavaString
  import opened Grouping

  newtype int32 = x: int | -0x8000_0000 <= x < 0x8000_0000

  /** The ways reading can fail; each stands for the exception Java throws. */
  datatype ReadError =
    | MissingHeaderLine                      // first readLine() is null: trim() throws NullPointerException
    | MissingToken(index: nat)               // the header has no token at `index`: ArrayIndexOutOfBoundsException
    | NotANumber(index: nat, token: JString)  // parseInt rejects the token: NumberFormatException
    | MissingCaseTypeLine                    // second readLine() is null: trim() throws NullPointerException

  datatype Header = Header(rows: int32, cols: int32, numPieces: int32)

  datatype Puzzle = Puzzle(header: Header, caseType: JString, shapes: seq<seq<JString>>)

  /**
   * The header line trimmed and split on " ". There is always at least one
   * token, no token holds a space, and the tokens joined by single spaces are
   * the trimmed line again.
   */
  function HeaderTokens(line: JString): (tokens: seq<JString>)
    ensures |tokens| >= 1
    ensures forall k :: 0 <= k < |tokens| ==> Space !in tokens[k]
    ensures Join(tokens, Space) == Trim(line)
  {
    var t := Trim(line);
    SplitWithoutTrailingSep(t, Space);
    JoinSplit(t, Space);
    JavaSplit(t, Space)
  }

  /** `Integer.parseInt(tokens[i])`: out of range or not a number are the two failures. */
  function ParseToken(tokens: seq<JString>, i: nat, parseInt: JString -> Option<int32>): (r: Result<int32, ReadError>)
    ensures r.Success? <==> i < |tokens| && parseInt(tokens[i]).Some?
    ensures r.Success? ==> r.value == parseInt(tokens[i]).value
    ensures i >= |tokens| ==> r == Failure(MissingToken(i))
    ensures i < |tokens| && r.Failure? ==> r == Failure(NotANumber(i, tokens[i]))
  {
    if i >= |tokens| then Failure(MissingToken(i))
    else match parseInt(tokens[i])
      case None => Failure(NotANumber(i, tokens[i]))
      case Some(v) => Success(v)
  }

  /**
   * The three numbers of the header: rows, cols and the number of pieces are
   * tokens 0, 1 and 2, in that order; later tokens are ignored. Reading stops
   * at the first token that is missing or not a number.
   */
  function ParseHeader(line: JString, parseInt: JString -> Option<int32>): (r: Result<Header, ReadError>)
    ensures var tokens := HeaderTokens(line);
      r.Success? <==> |tokens| >= 3 && forall k :: 0 <= k < 3 ==> parseInt(tokens[k]).Some?
    ensures var tokens := HeaderTokens(line);
      r.Success? ==> r.value == Header(parseInt(tokens[0]).value, parseInt(tokens[1]).value, parseInt(tokens[2]).value)
    ensures var tokens := HeaderTokens(line);
      r.Failure? ==>
        && (r.error.MissingToken? || r.error.NotANumber?)
        && r.error.index < 3
        && (forall k :: 0 <= k < r.error.index ==> k < |tokens| && parseInt(tokens[k]).Some?)
        && r.error == (if r.error.index < |tokens| then NotANumber(r.error.index, tokens[r.error.index])
                       else MissingToken(r.error.index))
        && (r.error.NotANumber? ==> parseInt(tokens[r.error.index]).None?)
  {
    var tokens := HeaderTokens(line);
    match ParseToken(tokens, 0, parseInt)
    case Failure(e) => Failure(e)
    case Success(rows) =>
      match ParseToken(tokens, 1, parseInt)
      case Failure(e) => Failure(e)
      case Success(cols) =>
        match ParseToken(tokens, 2, parseInt)
        case Failure(e) => Failure(e)
        case Success(numPieces) => Success(Header(rows, cols, numPieces))
  }

  /**
   * What reading a puzzle file yields: the header, the trimmed case-type line,
   * and the piece lines (trimmed, blanks dropped) cut into maximal runs of a
   * common first character.
   */
  function ReadPuzzle(lines: seq<JString>, parseInt: JString -> Option<int32>): (r: Result<Puzzle, ReadError>)
    ensures r.Success? <==> |lines| >= 2 && ParseHeader(lines[0], parseInt).Success?
    ensures lines == [] ==> r == Failure(MissingHeaderLine)
    ensures lines != [] && ParseHeader(lines[0], parseInt).Failure? ==>
      r == Failure(ParseHeader(lines[0], parseInt).error)
    ensures |lines| == 1 && ParseHeader(lines[0], parseInt).Success? ==> r == Failure(MissingCaseTypeLine)
    ensures r.Success? ==>
      && r.value.header == ParseHeader(lines[0], parseInt).value
      && r.value.caseType == Trim(lines[1])
      && Runs(r.value.shapes)
      && Flatten(r.value.shapes) == Clean(lines[2..])
  {
    if lines == [] then Failure(MissingHeaderLine)
    else match ParseHeader(lines[0], parseInt)
      case Failure(e) => Failure(e)
      case Success(header) =>
        if |lines| < 2 then Failure(MissingCaseTypeLine)
        else
          GroupRuns(Clean(lines[2..]));
          Success(Puzzle(header, Trim(lines[1]), Group(Clean(lines[2..]))))
  }

  /**
   * The declared number of pieces is never compared with the pieces found:
   * whatever follows the first two lines, reading succeeds or fails as it
   * would on the first two lines alone, and the header read is the same.
   */
  lemma {:induction false} PieceCountNotChecked(lines: seq<JString>, parseInt: JString -> Option<int32>)
    requires |lines| >= 2
    ensures ReadPuzzle(lines, parseInt).Success? == ReadPuzzle(lines[..2], parseInt).Success?
    ensures ReadPuzzle(lines, parseInt).Success? ==>
      ReadPuzzle(lines, parseInt).value.header == ReadPuzzle(lines[..2], parseInt).value.header
  {
    assert lines[..2][0] == lines[0];
  }

  /** Every piece a successful read stores is a non-empty run of trimmed, non-empty lines. */
  lemma {:induction false} ShapesAreTrimmedRuns(lines: seq<JString>, parseInt: JString -> Option<int32>)
    requires ReadPuzzle(lines, parseInt).Success?
    ensures var shapes := ReadPuzzle(lines, parseInt).value.shapes;
      forall i, j :: 0 <= i < |shapes| && 0 <= j < |shapes[i]| ==>
        IsPieceLine(shapes[i][j]) && shapes[i][j][0] == shapes[i][0][0]
  {
    var shapes := ReadPuzzle(lines, parseInt).value.shapes;
    var kept := Clean(lines[2..]);
    assert shapes == Group(kept);
    CleanPieceLines(lines[2..]);
    forall i, j | 0 <= i < |shapes| && 0 <= j < |shapes[i]|
      ensures IsPieceLine(shapes[i][j])
    {
      FlattenHas(shapes, i, j);
    }
  }

  /** The reader's object: the fields `readFromFile` fills in. */
  class PuzzleInput {
    var rows: int32
    var cols: int32
    var numPieces: int32
    var caseType: JString
    var puzzleShapes: seq<seq<JString>>

    /** Java's field initialisers: numbers zero, no shapes yet. */
    constructor ()
      ensures rows == 0 && cols == 0 && numPieces == 0
      ensures caseType == [] && puzzleShapes == []
    {
      rows, cols, numPieces := 0, 0, 0;
      caseType := [];
      puzzleShapes := [];
    }

    /** The fields hold the puzzle `p`. */
    predicate Holds(p: Puzzle)
      reads this
    {
      && rows == p.header.rows && cols == p.header.cols && numPieces == p.header.numPieces
      && caseType == p.caseType && puzzleShapes == p.shapes
    }

    /**
     * `readFromFile`: parse the header, then walk the remaining lines,
     * trimming each, skipping blank ones, and closing the current piece
     * whenever the first character changes; the last piece is closed after
     * the loop. On success the fields hold ReadPuzzle's result (the pieces
     * appended to those already stored); on failure no piece is stored and
     * the case type is untouched.
     */
    method ReadFromLines(lines: seq<JString>, parseInt: JString -> Option<int32>) returns (outcome: Outcome<ReadError>)
      modifies this
      ensures var r := ReadPuzzle(lines, parseInt);
        outcome == if r.Success? then Pass else Fail(r.error)
      ensures var r := ReadPuzzle(lines, parseInt);
        r.Success? ==>
          && rows == r.value.header.rows && cols == r.value.header.cols
          && numPieces == r.value.header.numPieces && caseType == r.value.caseType
          && puzzleShapes == old(puzzleShapes) + r.value.shapes
      ensures ReadPuzzle(lines, parseInt).Failure? ==>
        caseType == old(caseType) && puzzleShapes == old(puzzleShapes)
    {
      if |lines| == 0 {
        return Fail(MissingHeaderLine);
      }
      ghost var header := ParseHeader(lines[0], parseInt);
      var firstLine := HeaderTokens(lines[0]);
      var token := ParseToken(firstLine, 0, parseInt);
      if token.Failure? {
        assert header == Failure(token.error);
        return Fail(token.error);
      }
      rows := token.value;
      token := ParseToken(firstLine, 1, parseInt);
      if token.Failure? {
        assert header == Failure(token.error);
        return Fail(token.error);
      }
      cols := token.value;
      token := ParseToken(firstLine, 2, parseInt);
      if token.Failure? {
        assert header == Failure(token.error);
        return Fail(token.error);
      }
      numPieces := token.value;
      assert header == Success(Header(rows, cols, numPieces));

      if |lines| < 2 {
        return Fail(MissingCaseTypeLine);
      }
      caseType := Trim(lines[1]);

      ReadPieces(lines[2..]);
      outcome := Pass;
    }

    /**
     * The loop of `readFromFile` over the lines after the header: each line
     * is trimmed and skipped when blank; the current piece is closed and a
     * new one opened whenever the first character differs from the previous
     * kept line's, and the last piece is closed after the loop. The pieces
     * appended are exactly the maximal runs Group cuts from the kept lines.
     */
    method ReadPieces(body: seq<JString>)
      modifies this`puzzleShapes
      ensures puzzleShapes == old(puzzleShapes) + Group(Clean(body))
    {
      var currentPiece: seq<JString> := [];
      var prevFirstChar: JString := [];
      ghost var closed: seq<seq<JString>> := [];
      var unread := body;
      while unread != []
        invariant puzzleShapes == old(puzzleShapes) + closed
        invariant Read(Reader(closed, currentPiece, prevFirstChar), unread) == Read(Start, body)
        decreases |unread|
      {
        ghost var st := Reader(closed, currentPiece, prevFirstChar);
        var line := Trim(unread[0]);
        unread := unread[1..];
        if line != [] {
          var firstChar := [line[0]];
          if prevFirstChar != firstChar && currentPiece != [] {
            puzzleShapes := puzzleShapes + [currentPiece];
            closed := closed + [currentPiece];
            currentPiece := [];
          }
          currentPiece := currentPiece + [line];
          prevFirstChar := firstChar;
          assert Reader(closed, currentPiece, prevFirstChar) == Feed(st, line);
        }
      }
      ReadFromStart(body);

      if currentPiece != [] {
        puzzleShapes := puzzleShapes + [currentPiece];
      }
    }

    /** `getRows()`: the rows of the puzzle the object holds. */
    function GetRows(): (r: int32)
      reads this
      ensures forall p :: Holds(p) ==> r == p.header.rows
    {
      rows
    }

    /** `getCols()`: the columns of the puzzle the object holds. */
    function GetCols(): (r: int32)
      reads this
      ensures forall p :: Holds(p) ==> r == p.header.cols
    {
      cols
    }

    /** `getNumPieces()`: the declared piece count of the puzzle the object holds. */
    function GetNumPieces(): (r: int32)
      reads this
      ensures forall p :: Holds(p) ==> r == p.header.numPieces
    {
      numPieces
    }

    /** `getCaseType()`: the case type of the puzzle the object holds. */
    function GetCaseType(): (r: JString)
      reads this
      ensures forall p :: Holds(p) ==> r == p.caseType
    {
      caseType
    }

    /** `getPuzzleShapes()`: the pieces of the puzzle the object holds. */
    function GetPuzzleShapes(): (r: seq<seq<JString>>)
      reads this
      ensures forall p :: Holds(p) ==> r == p.shapes
    {
      puzzleShapes
    }
  }

  /**
   * `new PuzzleInput(filename)`: a fresh reader that either holds the puzzle
   * the lines describe or, where Java's constructor throws, the error.
   */
  method Load(lines: seq<JString>, parseInt: JString -> Option<int32>) returns (r: Result<PuzzleInput, ReadError>)
    ensures ReadPuzzle(lines, parseInt).Failure? ==> r == Failure(ReadPuzzle(lines, parseInt).error)
    ensures ReadPuzzle(lines, parseInt).Success? ==>
      r.Success? && fresh(r.value) && r.value.Holds(ReadPuzzle(lines, parseInt).value)
  {
    var input := new PuzzleInput();
    var outcome := input.ReadFromLines(lines, parseInt);
    if outcome.Fail? {
      return Failure(outcome.error);
    }
    return Success(input);
  }
}
