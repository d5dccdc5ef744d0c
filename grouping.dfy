/**
 * How the reader turns the lines after the header into piece shapes:
 * every line is trimmed, blank lines are dropped, and what remains is cut
 * into maximal runs of consecutive lines that begin with the same character.
 * Each run is the ASCII art of one piece.
 */
module Grouping {
  import opened JavaString

  /** A line the reader keeps for a piece: trimmed and not empty. */
  predicate IsPieceLine(l: JString) {
    |l| > 0 && IsTrimmed(l)
  }

  /**
   * What reading one line contributes: nothing when every unit of it is
   * blank, and otherwise the line trimmed, which is then a piece line.
   */
  function Kept(line: JString): (r: seq<JString>)
    ensures r == [] <==> forall k :: 0 <= k < |line| ==> IsBlank(line[k])
    ensures r != [] ==> r == [Trim(line)] && IsPieceLine(r[0])
  {
    TrimEmptyIffBlank(line);
    var t := Trim(line);
    if t == [] then [] else [t]
  }

  /** The kept lines of `body`, in order: each line trimmed, blank ones left out. */
  function Clean(body: seq<JString>): (r: seq<JString>)
    ensures |r| <= |body|
    ensures forall k :: 0 <= k < |r| ==> |r[k]| > 0
  {
    if body == [] then [] else Kept(body[0]) + Clean(body[1..])
  }

  /** Every kept line is trimmed and non-empty. */
  lemma {:induction false} CleanPieceLines(body: seq<JString>)
    ensures forall k :: 0 <= k < |Clean(body)| ==> IsPieceLine(Clean(body)[k])
    decreases |body|
  {
    if body != [] {
      CleanPieceLines(body[1..]);
      var r := Clean(body);
      var head := Kept(body[0]);
      forall k | 0 <= k < |r| ensures IsPieceLine(r[k]) {
        if k >= |head| {
          assert r[k] == Clean(body[1..])[k - |head|];
        }
      }
    }
  }

  /** A body of blank lines yields no piece lines. */
  lemma {:induction false} CleanBlank(blanks: seq<JString>)
    requires forall k :: 0 <= k < |blanks| ==> Trim(blanks[k]) == []
    ensures Clean(blanks) == []
    decreases |blanks|
  {
    if blanks != [] {
      assert forall k :: 0 <= k < |blanks[1..]| ==> blanks[1..][k] == blanks[k + 1];
      CleanBlank(blanks[1..]);
    }
  }

  /** Cleaning works line by line, so it distributes over concatenation. */
  lemma {:induction false} CleanAppend(a: seq<JString>, b: seq<JString>)
    ensures Clean(a + b) == Clean(a) + Clean(b)
    decreases |a|
  {
    if a == [] {
      assert a + b == b;
    } else {
      assert (a + b)[0] == a[0] && (a + b)[1..] == a[1..] + b;
      CleanAppend(a[1..], b);
    }
  }

  /** Reading one more line extends the kept lines by that line, trimmed, unless it is blank. */
  lemma {:induction false} CleanSnoc(body: seq<JString>, line: JString)
    ensures Clean(body + [line]) == Clean(body) + Kept(line)
  {
    CleanAppend(body, [line]);
    assert Clean([line]) == Kept(line) + Clean([]);
  }

  /** The pieces, read back to back. */
  function Flatten(gs: seq<seq<JString>>): seq<JString> {
    if gs == [] then [] else gs[0] + Flatten(gs[1..])
  }

  lemma {:induction false} FlattenAppend(a: seq<seq<JString>>, b: seq<seq<JString>>)
    ensures Flatten(a + b) == Flatten(a) + Flatten(b)
    decreases |a|
  {
    if a == [] {
      assert a + b == b;
    } else {
      assert (a + b)[1..] == a[1..] + b;
      FlattenAppend(a[1..], b);
    }
  }

  /** Closing one more piece appends its lines. */
  lemma {:induction false} FlattenSnoc(gs: seq<seq<JString>>, g: seq<JString>)
    ensures Flatten(gs + [g]) == Flatten(gs) + g
  {
    FlattenAppend(gs, [g]);
    assert Flatten([g]) == g + Flatten([]);
  }

  /** Every line of every piece appears in the pieces read back to back. */
  lemma {:induction false} FlattenHas(gs: seq<seq<JString>>, i: nat, j: nat)
    requires i < |gs| && j < |gs[i]|
    ensures gs[i][j] in Flatten(gs)
    decreases i
  {
    assert Flatten(gs) == gs[0] + Flatten(gs[1..]);
    if i > 0 {
      FlattenHas(gs[1..], i - 1, j);
    }
  }

  /**
   * `gs` is a sequence of runs: every run is non-empty, all its lines are
   * non-empty and begin with the run's first character, and neighbouring
   * runs begin with different characters.
   */
  predicate Runs(gs: seq<seq<JString>>) {
    && (forall i :: 0 <= i < |gs| ==>
          && |gs[i]| > 0
          && |gs[i][0]| > 0
          && forall j :: 0 <= j < |gs[i]| ==> |gs[i][j]| > 0 && gs[i][j][0] == gs[i][0][0])
    && (forall i :: 0 < i < |gs| ==> gs[i - 1][0][0] != gs[i][0][0])
  }

  /** The number of leading lines of `ls` that begin with `c`. */
  function RunLength(ls: seq<JString>, c: Char16): (n: nat)
    requires forall k :: 0 <= k < |ls| ==> |ls[k]| > 0
    ensures n <= |ls|
    ensures forall k :: 0 <= k < n ==> ls[k][0] == c
    ensures n == |ls| || ls[n][0] != c
  {
    if ls == [] || ls[0][0] != c then 0 else 1 + RunLength(ls[1..], c)
  }

  /**
   * The pieces of `ls`: its maximal runs of lines with a common first
   * character, in order.
   */
  function Group(ls: seq<JString>): (gs: seq<seq<JString>>)
    requires forall k :: 0 <= k < |ls| ==> |ls[k]| > 0
    ensures gs == [] <==> ls == []
    decreases |ls|
  {
    if ls == [] then []
    else
      var n := RunLength(ls, ls[0][0]);
      [ls[..n]] + Group(ls[n..])
  }

  /**
   * Group cuts `ls` into runs and loses nothing: reading the pieces back to
   * back gives `ls`, and the first piece starts with the first line.
   */
  lemma {:induction false} GroupRuns(ls: seq<JString>)
    requires forall k :: 0 <= k < |ls| ==> |ls[k]| > 0
    ensures Runs(Group(ls))
    ensures Flatten(Group(ls)) == ls
    ensures ls != [] ==> Group(ls)[0][0] == ls[0]
    decreases |ls|
  {
    if ls != [] {
      var c := ls[0][0];
      var n := RunLength(ls, c);
      var run, tail := ls[..n], ls[n..];
      assert ls == run + tail;
      assert n > 0;
      assert forall k :: 0 <= k < |tail| ==> tail[k] == ls[n + k];
      assert forall j :: 0 <= j < |run| ==> run[j] == ls[j];
      GroupRuns(tail);
      var rest := Group(tail);
      var gs := Group(ls);
      assert gs == [run] + rest;
      assert rest != [] ==> rest[0][0][0] == tail[0][0] != c;
      RunsCons(run, rest);
      assert gs[0] == run && gs[1..] == rest;
      assert Flatten(gs) == run + Flatten(rest);
    }
  }

  /** A run put in front of runs that begin with another character gives runs. */
  lemma {:induction false} RunsCons(run: seq<JString>, gs: seq<seq<JString>>)
    requires |run| > 0 && |run[0]| > 0
    requires forall j :: 0 <= j < |run| ==> |run[j]| > 0 && run[j][0] == run[0][0]
    requires Runs(gs)
    requires gs != [] ==> gs[0][0][0] != run[0][0]
    ensures Runs([run] + gs)
  {
    var r := [run] + gs;
    assert forall i :: 0 < i < |r| ==> r[i] == gs[i - 1];
  }

  /** Runs exactly cover their lines: every line of a run sequence is non-empty. */
  lemma {:induction false} RunsLinesNonEmpty(gs: seq<seq<JString>>)
    requires Runs(gs)
    ensures forall k :: 0 <= k < |Flatten(gs)| ==> |Flatten(gs)[k]| > 0
    decreases |gs|
  {
    if gs != [] {
      assert Runs(gs[1..]) by {
        assert forall i :: 0 <= i < |gs[1..]| ==> gs[1..][i] == gs[i + 1];
      }
      RunsLinesNonEmpty(gs[1..]);
      var flat := Flatten(gs);
      assert flat == gs[0] + Flatten(gs[1..]);
      forall k | 0 <= k < |flat| ensures |flat[k]| > 0 {
        if k >= |gs[0]| {
          assert flat[k] == Flatten(gs[1..])[k - |gs[0]|];
        }
      }
    }
  }

  /** Dropping the first run leaves runs. */
  lemma {:induction false} RunsTail(gs: seq<seq<JString>>)
    requires Runs(gs) && gs != []
    ensures Runs(gs[1..])
  {
    assert forall i :: 0 <= i < |gs[1..]| ==> gs[1..][i] == gs[i + 1];
  }

  /**
   * Group starts with `run` when the lines after it begin with another
   * character: the first piece ends exactly where the first character changes.
   */
  lemma {:induction false} GroupCons(run: seq<JString>, rest: seq<JString>)
    requires |run| > 0 && |run[0]| > 0
    requires forall j :: 0 <= j < |run| ==> |run[j]| > 0 && run[j][0] == run[0][0]
    requires forall k :: 0 <= k < |rest| ==> |rest[k]| > 0
    requires rest != [] ==> rest[0][0] != run[0][0]
    ensures forall k :: 0 <= k < |run + rest| ==> |(run + rest)[k]| > 0
    ensures Group(run + rest) == [run] + Group(rest)
  {
    var ls := run + rest;
    assert forall k :: 0 <= k < |ls| ==> |ls[k]| > 0 by {
      assert forall k :: 0 <= k < |run| ==> ls[k] == run[k];
      assert forall k :: |run| <= k < |ls| ==> ls[k] == rest[k - |run|];
    }
    var n := RunLength(ls, run[0][0]);
    assert n == |run| by {
      assert forall k :: 0 <= k < |run| ==> ls[k] == run[k];
      assert rest != [] ==> ls[|run|] == rest[0];
    }
    assert ls[..n] == run;
    assert ls[n..] == rest;
  }

  /**
   * Group is the only way to cut `ls` into runs: any sequence of runs that
   * reads back as `ls` is Group(ls). Together with GroupRuns this says
   * Group(ls) is exactly the split of `ls` into maximal runs.
   */
  lemma {:induction false} GroupUnique(gs: seq<seq<JString>>, ls: seq<JString>)
    requires Runs(gs) && Flatten(gs) == ls
    ensures forall k :: 0 <= k < |ls| ==> |ls[k]| > 0
    ensures gs == Group(ls)
    decreases |gs|
  {
    RunsLinesNonEmpty(gs);
    if gs != [] {
      var g, tail := gs[0], gs[1..];
      var rest := Flatten(tail);
      RunsTail(gs);
      RunsLinesNonEmpty(tail);
      if tail != [] {
        assert rest == tail[0] + Flatten(tail[1..]);
        assert rest[0] == gs[1][0];
      }
      GroupUnique(tail, rest);
      GroupCons(g, rest);
      assert gs == [g] + tail;
    }
  }

  /** A new run may be started after the last one when it begins with another character. */
  lemma {:induction false} RunsAppendRun(gs: seq<seq<JString>>, line: JString)
    requires Runs(gs)
    requires |line| > 0
    requires gs != [] ==> gs[|gs| - 1][0][0] != line[0]
    ensures Runs(gs + [[line]])
  {
    var r := gs + [[line]];
    assert forall i :: 0 <= i < |gs| ==> r[i] == gs[i];
  }

  /** The last run may be extended by a line beginning with its character. */
  lemma {:induction false} RunsExtendLast(gs: seq<seq<JString>>, g: seq<JString>, line: JString)
    requires Runs(gs + [g])
    requires |line| > 0
    requires |g| > 0 && |g[0]| > 0 && line[0] == g[0][0]
    ensures Runs(gs + [g + [line]])
  {
    var before := gs + [g];
    var after := gs + [g + [line]];
    assert forall i :: 0 <= i < |gs| ==> after[i] == before[i];
    assert before[|gs|] == g;
    assert after[|gs|] == g + [line];
    forall j | 0 <= j < |g + [line]|
      ensures |(g + [line])[j]| > 0 && (g + [line])[j][0] == g[0][0]
    {
      if j < |g| {
        assert (g + [line])[j] == before[|gs|][j];
      }
    }
  }

  /** The pieces a reader holds once its open piece, if it has one, is closed. */
  function WithOpen(closed: seq<seq<JString>>, open: seq<JString>): seq<seq<JString>> {
    if open == [] then closed else closed + [open]
  }

  /** The runs a reader has after its first kept line: that line alone. */
  lemma {:induction false} OpenFirstRun(line: JString)
    requires |line| > 0
    ensures Runs([[line]]) && Flatten([[line]]) == [line]
  {
    FlattenSnoc([], [line]);
    assert [] + [[line]] == [[line]];
  }

  /** A kept line with a new first character closes the open run and opens its own. */
  lemma {:induction false} CloseAndOpenRun(gs: seq<seq<JString>>, kept: seq<JString>, line: JString)
    requires Runs(gs) && Flatten(gs) == kept && gs != []
    requires |line| > 0 && gs[|gs| - 1][0][0] != line[0]
    ensures Runs(gs + [[line]]) && Flatten(gs + [[line]]) == kept + [line]
  {
    RunsAppendRun(gs, line);
    FlattenSnoc(gs, [line]);
  }

  /** A kept line with the open run's first character joins that run. */
  lemma {:induction false} ExtendOpenRun(closed: seq<seq<JString>>, g: seq<JString>, kept: seq<JString>, line: JString)
    requires Runs(closed + [g]) && Flatten(closed + [g]) == kept
    requires |g| > 0 && |g[0]| > 0 && |line| > 0 && line[0] == g[0][0]
    ensures Runs(closed + [g + [line]]) && Flatten(closed + [g + [line]]) == kept + [line]
  {
    RunsExtendLast(closed, g, line);
    FlattenSnoc(closed, g);
    FlattenSnoc(closed, g + [line]);
  }

  /**
   * One kept line, read by a reader whose closed pieces and open piece make
   * up Group(kept): with no open piece the line opens the first one; a line
   * with the open piece's first character joins it; any other line closes
   * the open piece and opens its own. Either way the reader then holds
   * Group(kept + [line]).
   */
  lemma {:induction false} ReadStep(closed: seq<seq<JString>>, open: seq<JString>, kept: seq<JString>, line: JString)
    requires forall k :: 0 <= k < |kept| ==> |kept[k]| > 0
    requires WithOpen(closed, open) == Group(kept)
    requires open == [] ==> closed == []
    requires |line| > 0
    ensures open != [] ==> |open[0]| > 0
    ensures open == [] ==> Group(kept + [line]) == [[line]]
    ensures open != [] && open[0][0] != line[0] ==> Group(kept + [line]) == closed + [open] + [[line]]
    ensures open != [] && open[0][0] == line[0] ==> Group(kept + [line]) == closed + [open + [line]]
  {
    GroupRuns(kept);
    var gs := Group(kept);
    if open == [] {
      assert kept == [];
      assert kept + [line] == [line];
      OpenFirstRun(line);
      GroupUnique([[line]], [line]);
    } else {
      assert gs == closed + [open] && gs[|gs| - 1] == open;
      if open[0][0] != line[0] {
        CloseAndOpenRun(gs, kept, line);
        GroupUnique(gs + [[line]], kept + [line]);
      } else {
        ExtendOpenRun(closed, open, kept, line);
        GroupUnique(closed + [open + [line]], kept + [line]);
      }
    }
  }

  /**
   * What the reading loop holds between two lines: the pieces it has closed,
   * the piece still open, and the first character of the last kept line
   * (the empty string before the first one).
   */
  datatype Reader = Reader(closed: seq<seq<JString>>, open: seq<JString>, prevFirstChar: JString)

  /** The reader before any line: nothing closed, nothing open. */
  const Start := Reader([], [], [])

  /**
   * The loop body on a kept line: when its first character differs from the
   * previous one and a piece is open, that piece is closed; then the line is
   * added to the (possibly new) open piece.
   */
  function Feed(r: Reader, line: JString): (next: Reader)
    requires |line| > 0
    ensures next.prevFirstChar == [line[0]]
    ensures next.open != [] && next.open[|next.open| - 1] == line
    ensures next.closed == r.closed || next.closed == r.closed + [r.open]
  {
    var firstChar := [line[0]];
    if r.prevFirstChar != firstChar && r.open != [] then Reader(r.closed + [r.open], [line], firstChar)
    else Reader(r.closed, r.open + [line], firstChar)
  }

  /**
   * `r` is what the loop holds after the kept lines `seen`: its closed pieces
   * followed by its open piece (when there is one) are Group(seen); with no
   * open piece nothing was seen, and otherwise it remembers the open piece's
   * first character.
   */
  predicate Describes(r: Reader, seen: seq<JString>)
    requires forall k :: 0 <= k < |seen| ==> |seen[k]| > 0
  {
    && (r.open == [] ==> r.closed == [] && r.prevFirstChar == [])
    && (r.open != [] ==> |r.open[0]| > 0 && r.prevFirstChar == [r.open[0][0]])
    && WithOpen(r.closed, r.open) == Group(seen)
  }

  /** The reader before any line describes the empty prefix. */
  lemma {:induction false} StartDescribesNothing()
    ensures Describes(Start, [])
  {
    assert Group([]) == [];
  }

  /** One pass of the loop body keeps the reader in step with Group. */
  lemma {:induction false} FeedDescribes(r: Reader, seen: seq<JString>, line: JString)
    requires forall k :: 0 <= k < |seen| ==> |seen[k]| > 0
    requires |line| > 0
    requires Describes(r, seen)
    ensures forall k :: 0 <= k < |seen + [line]| ==> |(seen + [line])[k]| > 0
    ensures Describes(Feed(r, line), seen + [line])
  {
    ReadStep(r.closed, r.open, seen, line);
    var next := Feed(r, line);
    if r.open == [] {
      assert r.open + [line] == [line];
      assert next == Reader([], [line], [line[0]]);
      assert WithOpen(next.closed, next.open) == [[line]];
    } else if r.open[0][0] != line[0] {
      assert r.prevFirstChar != [line[0]];
      assert next == Reader(r.closed + [r.open], [line], [line[0]]);
    } else {
      assert r.prevFirstChar == [line[0]];
      assert next == Reader(r.closed, r.open + [line], [line[0]]);
      assert (r.open + [line])[0] == r.open[0];
    }
  }

  /**
   * The reading loop from reader `r` over the unread lines `lines`: each
   * line is trimmed, a blank one is skipped, and any other is fed to the reader.
   */
  function Read(r: Reader, lines: seq<JString>): Reader
    decreases |lines|
  {
    if lines == [] then r
    else
      var line := Trim(lines[0]);
      Read(if line == [] then r else Feed(r, line), lines[1..])
  }

  /**
   * The loop only ever appends to the closed pieces, and lines that are all
   * blank leave its state as it was.
   */
  lemma {:induction false} ReadKeepsClosed(r: Reader, lines: seq<JString>)
    ensures r.closed <= Read(r, lines).closed
    ensures Clean(lines) == [] ==> Read(r, lines) == r
    decreases |lines|
  {
    if lines != [] {
      var line := Trim(lines[0]);
      var fed := if line == [] then r else Feed(r, line);
      assert Clean(lines) == Kept(lines[0]) + Clean(lines[1..]);
      ReadKeepsClosed(fed, lines[1..]);
    }
  }

  /**
   * After the loop has read some non-blank line, the last kept line is the
   * last line of the open piece and `prevFirstChar` holds its first character.
   */
  lemma {:induction false} ReadEndsWithLastKept(r: Reader, lines: seq<JString>)
    requires Clean(lines) != []
    ensures var next, kept := Read(r, lines), Clean(lines);
      && next.open != [] && next.open[|next.open| - 1] == kept[|kept| - 1]
      && next.prevFirstChar == [kept[|kept| - 1][0]]
    decreases |lines|
  {
    var line, rest := Trim(lines[0]), Clean(lines[1..]);
    assert Clean(lines) == Kept(lines[0]) + rest;
    if line == [] {
      assert Read(r, lines) == Read(r, lines[1..]);
      ReadEndsWithLastKept(r, lines[1..]);
    } else {
      var fed := Feed(r, line);
      assert Read(r, lines) == Read(fed, lines[1..]);
      if rest != [] {
        ReadEndsWithLastKept(fed, lines[1..]);
      } else {
        ReadKeepsClosed(fed, lines[1..]);
      }
    }
  }

  /**
   * The loop computes Group: a reader that describes the kept lines `seen`
   * and then reads `lines` describes `seen` followed by the kept lines of `lines`.
   */
  lemma {:induction false} ReadDescribes(r: Reader, seen: seq<JString>, lines: seq<JString>)
    requires forall k :: 0 <= k < |seen| ==> |seen[k]| > 0
    requires Describes(r, seen)
    ensures forall k :: 0 <= k < |seen + Clean(lines)| ==> |(seen + Clean(lines))[k]| > 0
    ensures Describes(Read(r, lines), seen + Clean(lines))
    decreases |lines|
  {
    if lines == [] {
      assert seen + Clean(lines) == seen;
    } else {
      var line, rest := Trim(lines[0]), Clean(lines[1..]);
      assert Clean(lines) == Kept(lines[0]) + rest;
      if line == [] {
        assert Clean(lines) == rest;
        ReadDescribes(r, seen, lines[1..]);
      } else {
        assert Clean(lines) == [line] + rest;
        assert (seen + [line]) + rest == seen + ([line] + rest);
        FeedDescribes(r, seen, line);
        ReadDescribes(Feed(r, line), seen + [line], lines[1..]);
      }
    }
  }

  /**
   * From the start, reading every line and then closing the open piece
   * yields exactly Group(Clean(lines)): the pieces are the maximal runs of
   * the kept lines.
   */
  lemma {:induction false} ReadFromStart(lines: seq<JString>)
    ensures WithOpen(Read(Start, lines).closed, Read(Start, lines).open) == Group(Clean(lines))
  {
    StartDescribesNothing();
    ReadDescribes(Start, [], lines);
    assert [] + Clean(lines) == Clean(lines);
  }

  /** Blank and whitespace-only lines anywhere in the body change nothing. */
  lemma {:induction false} BlankLinesIgnored(xs: seq<JString>, blanks: seq<JString>, ys: seq<JString>)
    requires forall k :: 0 <= k < |blanks| ==> Trim(blanks[k]) == []
    ensures Clean(xs + blanks + ys) == Clean(xs + ys)
  {
    CleanAppend(xs + blanks, ys);
    CleanAppend(xs, blanks);
    CleanAppend(xs, ys);
    CleanBlank(blanks);
    assert Clean(xs) + [] == Clean(xs);
  }

  /** A body with no line that survives trimming yields no piece at all. */
  lemma {:induction false} BlankBodyHasNoPieces(blanks: seq<JString>)
    requires forall k :: 0 <= k < |blanks| ==> Trim(blanks[k]) == []
    ensures Group(Clean(blanks)) == []
  {
    CleanBlank(blanks);
  }

  /** Two non-empty lines with the same first character make one piece. */
  lemma {:induction false} GroupSameInitialPair(a: JString, b: JString)
    requires |a| > 0 && |b| > 0 && a[0] == b[0]
    ensures Group([a, b]) == [[a, b]]
  {
    var gs := [[a, b]];
    assert Flatten(gs) == [a, b] + Flatten([]);
    assert Runs(gs);
    GroupUnique(gs, [a, b]);
  }

  /** Two lines separated only by blank lines are kept as the two of them, trimmed. */
  lemma {:induction false} CleanAcrossBlanks(x: JString, blanks: seq<JString>, y: JString)
    requires Trim(x) != [] && Trim(y) != []
    requires forall k :: 0 <= k < |blanks| ==> Trim(blanks[k]) == []
    ensures Clean([x] + blanks + [y]) == [Trim(x), Trim(y)]
  {
    var tx, ty := Trim(x), Trim(y);
    assert Clean([x] + [y]) == [tx, ty] by {
      var pair := [x] + [y];
      assert pair[0] == x && pair[1..] == [y] && [y][1..] == [];
      assert Clean([y]) == [ty] + Clean([]);
    }
    BlankLinesIgnored([x], blanks, [y]);
  }

  /**
   * Two lines with the same first character form one piece even when blank
   * lines stand between them.
   */
  lemma {:induction false} SameInitialAcrossBlanks(x: JString, blanks: seq<JString>, y: JString)
    requires Trim(x) != [] && Trim(y) != []
    requires Trim(x)[0] == Trim(y)[0]
    requires forall k :: 0 <= k < |blanks| ==> Trim(blanks[k]) == []
    ensures Group(Clean([x] + blanks + [y])) == [[Trim(x), Trim(y)]]
  {
    CleanAcrossBlanks(x, blanks, y);
    GroupSameInitialPair(Trim(x), Trim(y));
  }

  /**
   * Only the first UTF-16 unit of a line is compared. The lines U+1F600 and
   * U+1F601 are two different characters that both begin with the high
   * surrogate 0xD83D, so they form one piece.
   */
  lemma {:induction false} SurrogatePairsShareAPiece()
    ensures Group([[0xD83D, 0xDE00], [0xD83D, 0xDE01]]) == [[[0xD83D, 0xDE00], [0xD83D, 0xDE01]]]
  {
    GroupSameInitialPair([0xD83D, 0xDE00], [0xD83D, 0xDE01]);
  }
}
