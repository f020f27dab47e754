/** String helpers with the meaning the quiz application relies on from its
    host language: stripping whitespace, splitting into lines, joining lines
    and prefix tests. Whitespace is a fixed set of six characters and only
    '\n' and '\r' break lines. */
module Text {

  predicate IsSpace(c: char) {
    c == ' ' || c == '\t' || c == '\n' || c == '\r' || c == '\U{B}' || c == '\U{C}'
  }

  predicate IsLineBreak(c: char) {
    c == '\n' || c == '\r'
  }

  predicate IsDigit(c: char) {
    '0' <= c <= '9'
  }

  predicate AllSpace(s: string) {
    forall i :: 0 <= i < |s| ==> IsSpace(s[i])
  }

  /** A string with no whitespace at either end. */
  predicate Stripped(s: string) {
    s == [] || (!IsSpace(s[0]) && !IsSpace(s[|s| - 1]))
  }

  predicate NoLineBreak(s: string) {
    forall i :: 0 <= i < |s| ==> !IsLineBreak(s[i])
  }

  predicate StartsWith(s: string, prefix: string) {
    |prefix| <= |s| && s[..|prefix|] == prefix
  }

  /** Drops the leading whitespace. */
  function TrimStart(s: string): (r: string)
    ensures |r| <= |s|
    ensures r == [] || !IsSpace(r[0])
  {
    if s != [] && IsSpace(s[0]) then TrimStart(s[1..]) else s
  }

  /** What TrimStart drops is whitespace, and what it keeps is a suffix. */
  lemma {:induction false} TrimStartSplits(s: string)
    ensures var r := TrimStart(s); r == s[|s| - |r|..] && AllSpace(s[..|s| - |r|])
    decreases |s|
  {
    if s != [] && IsSpace(s[0]) {
      TrimStartSplits(s[1..]);
    }
  }

  /** Drops the trailing whitespace. */
  function TrimEnd(s: string): (r: string)
    ensures |r| <= |s|
    ensures r == [] || !IsSpace(r[|r| - 1])
  {
    if s != [] && IsSpace(s[|s| - 1]) then TrimEnd(s[..|s| - 1]) else s
  }

  /** What TrimEnd drops is whitespace, and what it keeps is a prefix. */
  lemma {:induction false} TrimEndSplits(s: string)
    ensures var r := TrimEnd(s); r == s[..|r|] && AllSpace(s[|r|..])
    decreases |s|
  {
    if s != [] && IsSpace(s[|s| - 1]) {
      TrimEndSplits(s[..|s| - 1]);
      assert s[..|s| - 1][..|TrimEnd(s)|] == s[..|TrimEnd(s)|];
    }
  }

  /** Whitespace removed from both ends, as `str.strip()` does. */
  function Strip(s: string): (r: string)
    ensures Stripped(r)
    ensures |r| <= |s|
  {
    TrimBothFacts(s);
    TrimEnd(TrimStart(s))
  }

  /** Stripping a stripped text changes nothing. */
  lemma StripStripped(s: string)
    requires Stripped(s)
    ensures Strip(s) == s
  {
    TrimBothFacts(s);
  }

  /** Where the stripped text starts inside the original. */
  function StripStart(s: string): (k: nat)
    ensures k <= |s|
  {
    |s| - |TrimStart(s)|
  }

  /** The stripped text is the slice of the original from StripStart on,
      and what lies before and after that slice is whitespace. */
  lemma StripIsSlice(s: string)
    ensures StripStart(s) + |Strip(s)| <= |s|
    ensures Strip(s) == s[StripStart(s)..StripStart(s) + |Strip(s)|]
    ensures AllSpace(s[..StripStart(s)]) && AllSpace(s[StripStart(s) + |Strip(s)|..])
  {
    var t := TrimStart(s);
    TrimStartSplits(s);
    TrimEndSplits(t);
    var k := StripStart(s);
    var r := Strip(s);
    assert t == s[k..];
    assert r == t[..|r|];
    assert s[k + |r|..] == t[|r|..];
  }

  /** Stripping leaves nothing exactly when the text is all whitespace. */
  lemma StripEmptyIffBlank(s: string)
    ensures Strip(s) == [] <==> AllSpace(s)
  {
    TrimBothFacts(s);
  }

  lemma TrimBothFacts(s: string)
    ensures var r := TrimEnd(TrimStart(s));
      && Stripped(r)
      && (r == [] <==> AllSpace(s))
      && (Stripped(s) ==> r == s)
  {
    var t := TrimStart(s);
    TrimStartSplits(s);
    TrimEndSplits(t);
    var r := TrimEnd(t);
    if r != [] {
      assert r[0] == t[0];
    }
    if t != [] {
      assert s[|s| - |t|] == t[0];
    } else {
      assert s[..|s|] == s;
    }
  }

  /** The pieces of `s` between line breaks, every break counting as one
      separator (so there is always at least one piece). */
  function SplitLines(s: string): (r: seq<string>)
    ensures |r| >= 1
  {
    if s == [] then [""]
    else if IsLineBreak(s[0]) then [""] + SplitLines(s[1..])
    else
      var rest := SplitLines(s[1..]);
      [[s[0]] + rest[0]] + rest[1..]
  }

  /** The lines joined with a '\n' between neighbours. */
  function JoinLines(lines: seq<string>): (r: string)
    decreases |lines|
  {
    if lines == [] then ""
    else if |lines| == 1 then lines[0]
    else lines[0] + "\n" + JoinLines(lines[1..])
  }

  /** Stripped each piece and dropped those that became empty: what is
      left are non-empty, stripped lines, never more than the pieces. */
  function CleanLines(raw: seq<string>): (r: seq<string>)
    ensures |r| <= |raw|
    ensures forall i :: 0 <= i < |r| ==> r[i] != [] && Stripped(r[i])
  {
    if raw == [] then []
    else
      var t := Strip(raw[0]);
      (if t == [] then [] else [t]) + CleanLines(raw[1..])
  }

  /** The trimmed, non-empty lines of a text. */
  function Lines(s: string): (r: seq<string>)
    ensures forall i :: 0 <= i < |r| ==> r[i] != [] && Stripped(r[i])
  {
    CleanLines(SplitLines(Strip(s)))
  }

  /** The text of `s` up to (excluding) its first line break. */
  function FirstLine(s: string): (r: string)
    ensures StartsWith(s, r) && NoLineBreak(r)
    ensures |r| < |s| ==> IsLineBreak(s[|r|])
  {
    if s == [] || IsLineBreak(s[0]) then "" else [s[0]] + FirstLine(s[1..])
  }

  // ---------------------------------------------------------------------
  // Facts about joining and splitting lines

  /** No piece of a split holds a line break. */
  lemma {:induction false} SplitLinesBreakFree(s: string)
    ensures forall i :: 0 <= i < |SplitLines(s)| ==> NoLineBreak(SplitLines(s)[i])
    decreases |s|
  {
    if s != [] {
      SplitLinesBreakFree(s[1..]);
      var rest := SplitLines(s[1..]);
      if !IsLineBreak(s[0]) {
        var r := SplitLines(s);
        assert r[0] == [s[0]] + rest[0];
        assert forall i :: 1 <= i < |r| ==> r[i] == rest[i];
      }
    }
  }

  /** Splitting undoes joining when no line holds a break. */
  lemma {:induction false} SplitJoinLines(lines: seq<string>)
    requires |lines| >= 1
    requires forall i :: 0 <= i < |lines| ==> NoLineBreak(lines[i])
    ensures SplitLines(JoinLines(lines)) == lines
  {
    if |lines| == 1 {
      SplitNoBreak(lines[0]);
    } else {
      SplitJoinLines(lines[1..]);
      SplitAfterLine(lines[0], JoinLines(lines[1..]));
      assert [lines[0]] + lines[1..] == lines;
    }
  }

  /** A line without breaks splits into itself. */
  lemma {:induction false} SplitNoBreak(line: string)
    requires NoLineBreak(line)
    ensures SplitLines(line) == [line]
  {
    if line != [] {
      SplitNoBreak(line[1..]);
      assert [line[0]] + line[1..] == line;
    }
  }

  /** A break-free first line followed by '\n' becomes the first piece. */
  lemma {:induction false} SplitAfterLine(line: string, rest: string)
    requires NoLineBreak(line)
    ensures SplitLines(line + "\n" + rest) == [line] + SplitLines(rest)
  {
    if line == [] {
      assert line + "\n" + rest == "\n" + rest;
      assert ("\n" + rest)[1..] == rest;
    } else {
      var s := line + "\n" + rest;
      assert s[0] == line[0];
      assert s[1..] == line[1..] + "\n" + rest;
      SplitAfterLine(line[1..], rest);
      assert [line[0]] + line[1..] == line;
    }
  }

  /** Joining non-empty stripped lines gives a non-empty stripped text. */
  lemma {:induction false} JoinLinesStripped(lines: seq<string>)
    requires |lines| >= 1
    requires forall i :: 0 <= i < |lines| ==> lines[i] != [] && Stripped(lines[i])
    ensures JoinLines(lines) != []
    ensures Stripped(JoinLines(lines))
  {
    if |lines| > 1 {
      JoinLinesStripped(lines[1..]);
      var j := JoinLines(lines);
      var tail := JoinLines(lines[1..]);
      assert j == lines[0] + "\n" + tail;
      assert j[0] == lines[0][0];
      assert j[|j| - 1] == tail[|tail| - 1];
    }
  }

  /** Line cleaning works piece by piece: cleaning two runs of pieces gives
      the two cleaned runs, in order. */
  lemma {:induction false} CleanLinesAppend(xs: seq<string>, ys: seq<string>)
    ensures CleanLines(xs + ys) == CleanLines(xs) + CleanLines(ys)
    decreases |xs|
  {
    if xs != [] {
      assert (xs + ys)[1..] == xs[1..] + ys;
      CleanLinesAppend(xs[1..], ys);
    } else {
      assert xs + ys == ys;
    }
  }

  /** A single piece is dropped exactly when it is all whitespace, and
      otherwise kept stripped. */
  lemma CleanLinesOne(x: string)
    ensures CleanLines([x]) == if AllSpace(x) then [] else [Strip(x)]
  {
    StripEmptyIffBlank(x);
    assert [x][1..] == [];
  }

  /** Stripping every line and dropping blank ones changes nothing when the
      lines are already non-empty and stripped. */
  lemma {:induction false} CleanLinesIdentity(lines: seq<string>)
    requires forall i :: 0 <= i < |lines| ==> lines[i] != [] && Stripped(lines[i])
    ensures CleanLines(lines) == lines
  {
    if lines != [] {
      CleanLinesIdentity(lines[1..]);
      assert [lines[0]] + lines[1..] == lines;
    }
  }
}
