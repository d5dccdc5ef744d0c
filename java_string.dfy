/**
 * Java strings and the two java.lang.String operations the puzzle reader
 * relies on: `trim()`, which strips every character whose code is at most
 * U+0020 from both ends, and `split(" ")`, which cuts a string at every
 * space and then drops trailing empty pieces.
 */
module JavaString {

  /**
   * A Java `char`: one UTF-16 code unit. A character outside the Basic
   * Multilingual Plane takes two units (a surrogate pair), and `charAt(0)`
   * yields only the first of them.
   */
  newtype Char16 = x: int | 0 <= x < 0x1_0000

  /** A java.lang.String: its sequence of UTF-16 code units. */
  type JString = seq<Char16>

  /** The space U+0020, the separator of the header line. */
  const Space: Char16 := 0x20

  /** `trim()` treats every unit up to and including the space as blank. */
  predicate IsBlank(c: Char16) {
    c <= Space
  }

  /** A string `trim()` leaves as it is: empty, or non-blank at both ends. */
  predicate IsTrimmed(s: JString) {
    s == [] || (!IsBlank(s[0]) && !IsBlank(s[|s| - 1]))
  }

  /** The number of blank characters at the start of `s` (all of them when `s` is blank). */
  function LeadingBlanks(s: JString): (n: nat)
    ensures n <= |s|
    ensures forall k :: 0 <= k < n ==> IsBlank(s[k])
    ensures n == |s| || !IsBlank(s[n])
  {
    if |s| > 0 && IsBlank(s[0]) then 1 + LeadingBlanks(s[1..]) else 0
  }

  /** The number of blank characters at the end of `s`. */
  function TrailingBlanks(s: JString): (n: nat)
    ensures n <= |s|
    ensures forall k :: |s| - n <= k < |s| ==> IsBlank(s[k])
    ensures n == |s| || !IsBlank(s[|s| - n - 1])
  {
    if |s| > 0 && IsBlank(s[|s| - 1]) then 1 + TrailingBlanks(s[..|s| - 1]) else 0
  }

  /**
   * Java's `String.trim()`: skip the blanks at the start, then those at the
   * end of what is left, and keep the infix in between.
   */
  function Trim(s: JString): (r: JString)
    ensures IsTrimmed(r)
  {
    var st := LeadingBlanks(s);
    var rest := s[st..];
    var len := |s| - TrailingBlanks(rest);
    assert st < |s| ==> rest[0] == s[st] && TrailingBlanks(rest) < |rest|;
    assert st < |s| ==> s[len - 1] == rest[|rest| - TrailingBlanks(rest) - 1];
    s[st..len]
  }

  /**
   * What `trim()` removes is blank and what it keeps is one contiguous
   * piece of `s`: `s` is blanks, then Trim(s), then blanks.
   */
  lemma {:induction false} TrimInfix(s: JString)
    ensures var st := LeadingBlanks(s);
      && st + |Trim(s)| <= |s|
      && Trim(s) == s[st..st + |Trim(s)|]
      && (forall k :: st + |Trim(s)| <= k < |s| ==> IsBlank(s[k]))
  {
    var st := LeadingBlanks(s);
    assert forall k :: st <= k < |s| ==> s[k] == s[st..][k - st];
  }

  /** A line trims to nothing exactly when every character of it is blank. */
  lemma {:induction false} TrimEmptyIffBlank(s: JString)
    ensures Trim(s) == [] <==> forall k :: 0 <= k < |s| ==> IsBlank(s[k])
  {
    var st := LeadingBlanks(s);
    var rest := s[st..];
    if st < |s| {
      assert rest[0] == s[st] && TrailingBlanks(rest) < |rest|;
    }
  }

  /** Trimming twice changes nothing more than trimming once. */
  lemma {:induction false} TrimIdempotent(s: JString)
    ensures Trim(Trim(s)) == Trim(s)
  {
    var r := Trim(s);
    assert LeadingBlanks(r) == 0;
    assert TrailingBlanks(r) == 0;
  }

  /** The pieces of `s` between consecutive occurrences of `sep` (every occurrence, empty pieces kept). */
  function SplitAll(s: JString, sep: Char16): (parts: seq<JString>)
    ensures |parts| >= 1
    ensures forall i :: 0 <= i < |parts| ==> sep !in parts[i]
    decreases |s|
  {
    if s == [] then [[]]
    else
      var rest := SplitAll(s[1..], sep);
      if s[0] == sep then [[]] + rest else [[s[0]] + rest[0]] + rest[1..]
  }

  /** Joins the pieces back together with one `sep` between neighbours. */
  function Join(parts: seq<JString>, sep: Char16): JString
    requires |parts| >= 1
  {
    if |parts| == 1 then parts[0] else parts[0] + [sep] + Join(parts[1..], sep)
  }

  /** Splitting loses nothing: joining the pieces gives the string back. */
  lemma {:induction false} JoinSplit(s: JString, sep: Char16)
    ensures Join(SplitAll(s, sep), sep) == s
    decreases |s|
  {
    if s != [] {
      var rest := SplitAll(s[1..], sep);
      JoinSplit(s[1..], sep);
      if s[0] == sep {
        assert ([[]] + rest)[1..] == rest;
      } else if |rest| > 1 {
        assert ([[s[0]] + rest[0]] + rest[1..])[1..] == rest[1..];
      }
    }
  }

  /** Prepending a piece without `sep` extends the first piece of the split. */
  lemma {:induction false} SplitAllPrefix(a: JString, b: JString, sep: Char16)
    requires sep !in a
    ensures SplitAll(a + b, sep) == [a + SplitAll(b, sep)[0]] + SplitAll(b, sep)[1..]
    decreases |a|
  {
    if a != [] {
      assert (a + b)[1..] == a[1..] + b;
      SplitAllPrefix(a[1..], b, sep);
      assert [a[0]] + (a[1..] + SplitAll(b, sep)[0]) == a + SplitAll(b, sep)[0];
    } else {
      var parts := SplitAll(b, sep);
      assert a + b == b && a + parts[0] == parts[0];
      assert parts == [parts[0]] + parts[1..];
    }
  }

  /** Splitting undoes joining, as long as no piece contains the separator. */
  lemma {:induction false} SplitJoin(parts: seq<JString>, sep: Char16)
    requires |parts| >= 1
    requires forall i :: 0 <= i < |parts| ==> sep !in parts[i]
    ensures SplitAll(Join(parts, sep), sep) == parts
    decreases |parts|
  {
    if |parts| == 1 {
      SplitAllPrefix(parts[0], [], sep);
      assert parts[0] + [] == parts[0];
    } else {
      var tail := Join(parts[1..], sep);
      SplitJoin(parts[1..], sep);
      assert parts[0] + [sep] + tail == parts[0] + ([sep] + tail);
      SplitAllPrefix(parts[0], [sep] + tail, sep);
      assert ([sep] + tail)[1..] == tail;
      var split := SplitAll([sep] + tail, sep);
      assert split == [[]] + parts[1..];
      assert split[0] == [] && split[1..] == parts[1..];
      assert parts[0] + split[0] == parts[0];
      assert parts == [parts[0]] + parts[1..];
    }
  }

  /** A string that does not end in `sep` does not split into a trailing empty piece. */
  lemma {:induction false} SplitAllLastNonEmpty(s: JString, sep: Char16)
    requires s != [] && s[|s| - 1] != sep
    ensures SplitAll(s, sep)[|SplitAll(s, sep)| - 1] != []
    decreases |s|
  {
    if |s| > 1 {
      SplitAllLastNonEmpty(s[1..], sep);
    }
  }

  /** `split`'s clean-up for limit 0: remove the empty pieces at the end. */
  function DropTrailingEmpty(parts: seq<JString>): (r: seq<JString>)
    ensures |r| <= |parts| && r == parts[..|r|]
    ensures r == [] || r[|r| - 1] != []
    ensures forall k :: |r| <= k < |parts| ==> parts[k] == []
  {
    if parts != [] && parts[|parts| - 1] == [] then DropTrailingEmpty(parts[..|parts| - 1]) else parts
  }

  /**
   * Java's `s.split(regex)` where the regex is the one literal character `sep`:
   * a string without a match is returned whole (even when it is empty);
   * otherwise the pieces between matches, minus trailing empty ones.
   */
  function JavaSplit(s: JString, sep: Char16): (parts: seq<JString>)
    ensures |parts| <= |SplitAll(s, sep)| && parts == SplitAll(s, sep)[..|parts|]
    ensures forall k :: |parts| <= k < |SplitAll(s, sep)| ==> SplitAll(s, sep)[k] == []
    ensures sep !in s ==> parts == [s]
    ensures sep in s ==> parts == [] || parts[|parts| - 1] != []
  {
    if sep !in s then
      SplitAllPrefix(s, [], sep);
      assert s + [] == s;
      [s]
    else DropTrailingEmpty(SplitAll(s, sep))
  }

  /** On a string that does not end in `sep`, Java's split is the plain split. */
  lemma {:induction false} SplitWithoutTrailingSep(s: JString, sep: Char16)
    requires s == [] || s[|s| - 1] != sep
    ensures JavaSplit(s, sep) == SplitAll(s, sep)
  {
    if sep !in s {
      SplitAllPrefix(s, [], sep);
      assert s + [] == s;
    } else {
      SplitAllLastNonEmpty(s, sep);
    }
  }
}
