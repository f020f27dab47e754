/** The quiz text parser: it turns the free text returned by the
    text-generation service into validated multiple-choice question records.
    The text is cut into blocks at "Question:" markers; each block is cut into
    trimmed lines in which the "Options:", "Answer:" and "Explanation:" marker
    lines are located; a block becomes a record only when it yields a question,
    four options, an answer label and an explanation. */
module QuizParser {
  import opened Wrappers
  import opened Text

  /** The four option labels. */
  datatype Label = A | B | C | D

  const AllLabels: set<Label> := {A, B, C, D}

  /** A validated question record. */
  datatype Question = Question(text: string, options: map<Label, string>, answer: Label, explanation: string)

  /** What every record the parser returns satisfies: a question, exactly the
      four labels as option keys, an answer among them and an explanation. */
  predicate WellFormed(q: Question) {
    && q.text != []
    && (forall l: Label :: l in q.options)
    && q.answer in q.options
    && q.explanation != []
  }

  function LabelOf(c: char): (r: Option<Label>)
    ensures r.Some? <==> 'A' <= c <= 'D'
  {
    if c == 'A' then Some(A)
    else if c == 'B' then Some(B)
    else if c == 'C' then Some(C)
    else if c == 'D' then Some(D)
    else None
  }

  function LabelChar(l: Label): (c: char)
    ensures LabelOf(c) == Some(l)
  {
    match l
    case A => 'A'
    case B => 'B'
    case C => 'C'
    case D => 'D'
  }

  /** A map keyed by labels with four entries has every label as a key. */
  lemma FourKeysAreAllLabels<V>(m: map<Label, V>)
    requires |m| == 4
    ensures m.Keys == AllLabels
    ensures forall l: Label :: l in m
  {
    var k := m.Keys;
    assert k <= AllLabels by {
      forall x | x in k ensures x in AllLabels { assert x.A? || x.B? || x.C? || x.D?; }
    }
    assert |AllLabels| == 4 by {
      assert AllLabels == {A} + {B} + {C} + {D};
    }
    assert |AllLabels - k| == |AllLabels| - |k| by {
      assert AllLabels == (AllLabels - k) + k;
      assert (AllLabels - k) * k == {};
    }
    assert AllLabels - k == {};
    assert forall x :: x in AllLabels ==> x in k;
    forall l: Label ensures l in m { assert l.A? || l.B? || l.C? || l.D?; }
  }

  // ---------------------------------------------------------------------
  // Splitting the reply into question blocks

  const QuestionMarker := "Question:"

  /** The first position at or after `k` that does not hold whitespace. */
  function SkipSpaces(s: string, k: nat): (r: nat)
    requires k <= |s|
    ensures k <= r <= |s|
    ensures forall i :: k <= i < r ==> IsSpace(s[i])
    ensures r == |s| || !IsSpace(s[r])
    decreases |s| - k
  {
    if k < |s| && IsSpace(s[k]) then SkipSpaces(s, k + 1) else k
  }

  /** The first position at or after `k` that does not hold a digit. */
  function SkipDigits(s: string, k: nat): (r: nat)
    requires k <= |s|
    ensures k <= r <= |s|
    ensures forall i :: k <= i < r ==> IsDigit(s[i])
    ensures r == |s| || !IsDigit(s[r])
    decreases |s| - k
  {
    if k < |s| && IsDigit(s[k]) then SkipDigits(s, k + 1) else k
  }

  /** An ordinal "digits." starts at `k` of `s` and its '.' is at `d`. */
  predicate OrdinalEndsAt(s: string, k: nat, d: nat) {
    k < d < |s| && s[d] == '.' && forall i :: k <= i < d ==> IsDigit(s[i])
  }

  /** Past an optional ordinal "digits." and the whitespace after it: the
      position stays at `k` exactly when no ordinal starts there, and
      otherwise moves past the digits, the '.' and all the whitespace that
      follows. */
  function SkipOrdinal(s: string, k: nat): (r: nat)
    requires k <= |s|
    ensures k <= r <= |s|
    ensures r == k <==> forall d: nat :: !OrdinalEndsAt(s, k, d)
    ensures r > k ==>
      var d := SkipDigits(s, k);
      && OrdinalEndsAt(s, k, d) && d < r
      && (forall i :: d < i < r ==> IsSpace(s[i]))
      && (r == |s| || !IsSpace(s[r]))
  {
    OrdinalIsDigitRun(s, k);
    var d := SkipDigits(s, k);
    if k < d < |s| && s[d] == '.' then
      assert OrdinalEndsAt(s, k, d);
      SkipSpaces(s, d + 1)
    else k
  }

  /** The '.' of an ordinal is where its run of digits ends. */
  lemma OrdinalIsDigitRun(s: string, k: nat)
    requires k <= |s|
    ensures forall d: nat :: OrdinalEndsAt(s, k, d) ==> d == SkipDigits(s, k)
  {
  }

  /** Where a block separator starting at position `i` ends, if one starts
      there. A separator starts exactly where "Question:" stands at the very
      start of the text or right after a '\n'; it runs on over whitespace
      and an optional ordinal. */
  function MarkerEnd(s: string, i: nat): (r: Option<nat>)
    requires i <= |s|
    ensures r.Some? <==>
      || (i == 0 && StartsWith(s, QuestionMarker))
      || (i < |s| && s[i] == '\n' && StartsWith(s[i + 1..], QuestionMarker))
    ensures r.Some? ==> i + |QuestionMarker| <= r.value <= |s|
  {
    var token :=
      if i == 0 && StartsWith(s, QuestionMarker) then Some(|QuestionMarker|)
      else if i < |s| && s[i] == '\n' && StartsWith(s[i + 1..], QuestionMarker) then Some(i + 1 + |QuestionMarker|)
      else None;
    if token.None? then None else Some(SkipOrdinal(s, SkipSpaces(s, token.value)))
  }

  /** Separators as (start, end) positions, in order, not overlapping, the
      first at or after `start` and the last ending by `n`. */
  predicate Chain(start: nat, cuts: seq<(nat, nat)>, n: nat)
    decreases |cuts|
  {
    if cuts == [] then start <= n
    else start <= cuts[0].0 < cuts[0].1 <= n && Chain(cuts[0].1, cuts[1..], n)
  }

  /** The separators a scan from `pos` finds. Like a regular-expression
      split, the scan resumes where a separator ends, so separators never
      overlap. */
  function Separators(s: string, pos: nat): (r: seq<(nat, nat)>)
    requires pos <= |s|
    ensures Chain(pos, r, |s|)
    decreases |s| - pos
  {
    if pos == |s| then []
    else match MarkerEnd(s, pos)
      case Some(e) => [(pos, e)] + Separators(s, e)
      case None => Separators(s, pos + 1)
  }

  /** The text before, between and after the separators. */
  function Between(s: string, start: nat, cuts: seq<(nat, nat)>): (r: seq<string>)
    requires Chain(start, cuts, |s|)
    ensures |r| == |cuts| + 1
    decreases |cuts|
  {
    if cuts == [] then [s[start..]]
    else [s[start..cuts[0].0]] + Between(s, cuts[0].1, cuts[1..])
  }

  /** The pieces of `s` cut at every separator, as `re.split` gives them. */
  function Pieces(s: string): (r: seq<string>)
    ensures |r| == |Separators(s, 0)| + 1
  {
    Between(s, 0, Separators(s, 0))
  }

  /** The pieces that hold something besides whitespace, in order. */
  function NonBlank(pieces: seq<string>): (r: seq<string>)
    ensures |r| <= |pieces|
  {
    if pieces == [] then []
    else (if AllSpace(pieces[0]) then [] else [pieces[0]]) + NonBlank(pieces[1..])
  }

  /** The question blocks of a reply: the pieces of the stripped reply that
      are not blank. */
  function Blocks(text: string): (r: seq<string>)
    ensures forall i :: 0 <= i < |r| ==> !AllSpace(r[i])
  {
    NonBlankIsNotBlank(Pieces(Strip(text)));
    NonBlank(Pieces(Strip(text)))
  }

  /** Every block has at least one line, so the parser's check for a block
      without lines never fires. */
  lemma BlocksHaveLines(text: string)
    ensures forall i :: 0 <= i < |Blocks(text)| ==> Lines(Blocks(text)[i]) != []
  {
    var r := Blocks(text);
    forall i | 0 <= i < |r| ensures Lines(r[i]) != [] { NonBlankHasLine(r[i]); }
  }

  /** Only pieces with a non-whitespace character survive. */
  lemma {:induction false} NonBlankIsNotBlank(pieces: seq<string>)
    ensures forall i :: 0 <= i < |NonBlank(pieces)| ==> !AllSpace(NonBlank(pieces)[i])
    decreases |pieces|
  {
    if pieces != [] {
      NonBlankIsNotBlank(pieces[1..]);
    }
  }

  /** The blank-piece filter works piece by piece: filtering two runs of
      pieces gives the two filtered runs, in order. */
  lemma {:induction false} NonBlankAppend(xs: seq<string>, ys: seq<string>)
    ensures NonBlank(xs + ys) == NonBlank(xs) + NonBlank(ys)
    decreases |xs|
  {
    if xs != [] {
      assert (xs + ys)[1..] == xs[1..] + ys;
      NonBlankAppend(xs[1..], ys);
    } else {
      assert xs + ys == ys;
    }
  }

  /** Every piece with a non-whitespace character is kept, as often as it
      occurs, and every all-whitespace piece is dropped. */
  lemma {:induction false} NonBlankCounts(pieces: seq<string>, x: string)
    ensures multiset(NonBlank(pieces))[x] == if AllSpace(x) then 0 else multiset(pieces)[x]
    decreases |pieces|
  {
    if pieces != [] {
      NonBlankCounts(pieces[1..], x);
      assert pieces == [pieces[0]] + pieces[1..];
    }
  }

  /** The blocks are exactly the non-blank pieces of the stripped reply:
      each such piece is a block as often as it occurs, and no blank piece
      is. */
  lemma BlocksAreNonBlankPieces(text: string, x: string)
    ensures multiset(Blocks(text))[x] == if AllSpace(x) then 0 else multiset(Pieces(Strip(text)))[x]
  {
    NonBlankCounts(Pieces(Strip(text)), x);
  }

  /** A piece that is not all whitespace has at least one line. */
  lemma NonBlankHasLine(b: string)
    requires !AllSpace(b)
    ensures Lines(b) != []
  {
    var t := Strip(b);
    StripEmptyIffBlank(b);
    assert t != [] && !IsSpace(t[0]);
    var ls := SplitLines(t);
    assert ls[0] != [] && ls[0][0] == t[0] by { SplitLinesHead(t); }
    assert Strip(ls[0]) != [] by {
      assert !IsSpace(ls[0][0]);
      StripEmptyIffBlank(ls[0]);
    }
  }

  /** The first piece of a text that starts with a non-break character
      starts with that character. */
  lemma SplitLinesHead(t: string)
    requires t != [] && !IsLineBreak(t[0])
    ensures SplitLines(t)[0] != [] && SplitLines(t)[0][0] == t[0]
  {
  }

  // ---------------------------------------------------------------------
  // Parsing one block

  const OptionsMarker := "Options:"
  const AnswerMarker := "Answer:"
  const ExplanationMarker := "Explanation:"

  /** The index of the last line starting with `prefix`, if any: a later
      marker line overrides an earlier one. */
  function LastIndex(lines: seq<string>, prefix: string): (r: Option<nat>)
    ensures r.Some? ==> r.value < |lines|
    decreases |lines|
  {
    if lines == [] then None
    else if StartsWith(lines[|lines| - 1], prefix) then Some(|lines| - 1)
    else LastIndex(lines[..|lines| - 1], prefix)
  }

  /** LastIndex finds the last line with the prefix, and finds none exactly
      when no line has it. */
  lemma {:induction false} LastIndexIsLast(lines: seq<string>, prefix: string)
    ensures var r := LastIndex(lines, prefix);
      && (r.Some? ==> StartsWith(lines[r.value], prefix))
      && (r.Some? ==> forall j :: r.value < j < |lines| ==> !StartsWith(lines[j], prefix))
      && (r.None? <==> forall j :: 0 <= j < |lines| ==> !StartsWith(lines[j], prefix))
    decreases |lines|
  {
    if lines != [] && !StartsWith(lines[|lines| - 1], prefix) {
      var init := lines[..|lines| - 1];
      LastIndexIsLast(init, prefix);
      assert forall j :: 0 <= j < |init| ==> init[j] == lines[j];
    }
  }

  /** An option line "X. text" with X in A-D: its label and its stripped text. */
  function OptionLine(line: string): (r: Option<(Label, string)>)
    ensures r.Some? <==> |line| >= 2 && 'A' <= line[0] <= 'D' && line[1] == '.'
    ensures r.Some? ==> LabelChar(r.value.0) == line[0] && r.value.1 == Strip(line[2..])
  {
    if |line| >= 2 && LabelOf(line[0]).Some? && line[1] == '.' then
      Some((LabelOf(line[0]).value, Strip(line[2..])))
    else None
  }

  predicate IsOptionFor(line: string, l: Label) {
    OptionLine(line).Some? && OptionLine(line).value.0 == l
  }

  /** The options gathered from the lines in order; a later line with the same
      label replaces the earlier text. */
  function OptionsOf(lines: seq<string>): (r: map<Label, string>)
    decreases |lines|
  {
    if lines == [] then map[]
    else
      var m := OptionsOf(lines[..|lines| - 1]);
      match OptionLine(lines[|lines| - 1])
      case Some(p) => m[p.0 := p.1]
      case None => m
  }

  /** The answer label named by the line after "Answer:": "X." followed by
      anything, or "X" alone, with X in A-D. */
  function AnswerLabel(line: string): (r: Option<Label>)
    ensures r.Some? <==> |line| >= 1 && 'A' <= line[0] <= 'D' && (|line| == 1 || line[1] == '.')
    ensures r.Some? ==> LabelChar(r.value) == line[0]
  {
    if |line| >= 2 && LabelOf(line[0]).Some? && line[1] == '.' then LabelOf(line[0])
    else if |line| == 1 then LabelOf(line[0])
    else None
  }

  /** The options: only between the line after the last "Options:" line and
      the last "Answer:" line, and only when both exist in that order. */
  function BlockOptions(lines: seq<string>): (r: map<Label, string>)
    ensures r != map[] ==> LastIndex(lines, OptionsMarker).Some? && LastIndex(lines, AnswerMarker).Some?
  {
    var opt := LastIndex(lines, OptionsMarker);
    var ans := LastIndex(lines, AnswerMarker);
    if opt.Some? && ans.Some? && opt.value + 1 <= ans.value then OptionsOf(lines[opt.value + 1..ans.value])
    else map[]
  }

  /** The answer: read only from the line right after the last "Answer:" line. */
  function BlockAnswer(lines: seq<string>): (r: Option<Label>)
    ensures r.Some? ==> LastIndex(lines, AnswerMarker).Some?
  {
    var ans := LastIndex(lines, AnswerMarker);
    if ans.Some? && ans.value + 1 < |lines| then AnswerLabel(lines[ans.value + 1]) else None
  }

  /** The lines after the last line starting with `marker`, joined and
      stripped; empty when there is no such line or nothing follows it. */
  function TextAfterLast(lines: seq<string>, marker: string): (r: string)
    ensures Stripped(r)
    ensures r != [] ==> LastIndex(lines, marker).Some? && LastIndex(lines, marker).value < |lines| - 1
  {
    var at := LastIndex(lines, marker);
    if at.Some? && at.value < |lines| - 1 then Strip(JoinLines(lines[at.value + 1..])) else ""
  }

  /** The explanation: every line after the last "Explanation:" line, joined. */
  function BlockExplanation(lines: seq<string>): (r: string)
    ensures Stripped(r) && (r != [] ==> LastIndex(lines, ExplanationMarker).Some?)
  {
    TextAfterLast(lines, ExplanationMarker)
  }

  /** The final validation: a record is made only from a question, exactly
      four options, an answer label and a non-empty explanation. */
  function Validated(question: string, options: map<Label, string>, answer: Option<Label>, explanation: string): (r: Option<Question>)
    ensures r.Some? <==> question != [] && |options| == 4 && answer.Some? && explanation != []
    ensures r.Some? ==> WellFormed(r.value)
    ensures r.Some? ==> r.value == Question(question, options, answer.value, explanation)
  {
    if question != [] && |options| == 4 && answer.Some? && explanation != [] then
      FourKeysAreAllLabels(options);
      Some(Question(question, options, answer.value, explanation))
    else None
  }

  /** The record the trimmed, non-empty lines of a block yield, if they pass
      validation: the first line is the question. */
  function LinesRecord(lines: seq<string>): (r: Option<Question>)
    requires lines != []
    ensures r.Some? ==> WellFormed(r.value)
  {
    Validated(lines[0], BlockOptions(lines), BlockAnswer(lines), BlockExplanation(lines))
  }

  /** The record a block yields, if it passes validation. */
  function ParsedBlock(block: string): (r: Option<Question>)
    ensures r.Some? ==> WellFormed(r.value)
  {
    var lines := Lines(block);
    if lines == [] then None else LinesRecord(lines)
  }

  /** The -1 sentinel the scan uses for a marker not found, or the index plus
      `offset`. */
  function Sentinel(o: Option<nat>, offset: nat): int {
    if o.Some? then o.value + offset else -1
  }

  /** No line starts with two different markers. */
  lemma MarkersExclusive(line: string)
    ensures StartsWith(line, OptionsMarker) ==> !StartsWith(line, AnswerMarker) && !StartsWith(line, ExplanationMarker)
    ensures StartsWith(line, AnswerMarker) ==> !StartsWith(line, ExplanationMarker)
  {
    if StartsWith(line, OptionsMarker) { assert line[0] == line[..8][0] == 'O'; }
    if StartsWith(line, AnswerMarker) { assert line[0] == line[..7][0] == 'A'; }
  }

  /** One pass over the lines recording where the marker lines are; the index
      is overwritten at each match, so the last marker line of each kind wins.
      The options start on the line after "Options:". */
  method ScanMarkers(lines: seq<string>) returns (optionsStart: int, answerStart: int, explanationStart: int)
    ensures optionsStart == Sentinel(LastIndex(lines, OptionsMarker), 1)
    ensures answerStart == Sentinel(LastIndex(lines, AnswerMarker), 0)
    ensures explanationStart == Sentinel(LastIndex(lines, ExplanationMarker), 0)
  {
    optionsStart, answerStart, explanationStart := -1, -1, -1;
    for idx := 0 to |lines|
      invariant optionsStart == Sentinel(LastIndex(lines[..idx], OptionsMarker), 1)
      invariant answerStart == Sentinel(LastIndex(lines[..idx], AnswerMarker), 0)
      invariant explanationStart == Sentinel(LastIndex(lines[..idx], ExplanationMarker), 0)
    {
      assert lines[..idx + 1][..idx] == lines[..idx];
      var line := lines[idx];
      MarkersExclusive(line);
      if StartsWith(line, OptionsMarker) {
        optionsStart := idx + 1;
      } else if StartsWith(line, AnswerMarker) {
        answerStart := idx;
      } else if StartsWith(line, ExplanationMarker) {
        explanationStart := idx;
      }
    }
    assert lines[..|lines|] == lines;
  }

  /** Fills the options map from the option lines in order. */
  method CollectOptions(optionLines: seq<string>) returns (options: map<Label, string>)
    ensures options == OptionsOf(optionLines)
  {
    options := map[];
    for j := 0 to |optionLines|
      invariant options == OptionsOf(optionLines[..j])
    {
      assert optionLines[..j + 1][..j] == optionLines[..j];
      match OptionLine(optionLines[j]) {
        case Some(p) => options := options[p.0 := p.1];
        case None =>
      }
    }
    assert optionLines[..|optionLines|] == optionLines;
  }

  /** The explanation when a line follows the last "Explanation:" line. */
  lemma ExplanationFrom(lines: seq<string>, e: nat)
    requires LastIndex(lines, ExplanationMarker) == Some(e) && e < |lines| - 1
    ensures BlockExplanation(lines) == Strip(JoinLines(lines[e + 1..]))
  {
    TextAfterLastAt(lines, ExplanationMarker, e);
  }

  lemma TextAfterLastAt(lines: seq<string>, marker: string, e: nat)
    requires LastIndex(lines, marker) == Some(e) && e < |lines| - 1
    ensures TextAfterLast(lines, marker) == Strip(JoinLines(lines[e + 1..]))
  {
  }

  lemma NoTextAfterLast(lines: seq<string>, marker: string)
    requires !(LastIndex(lines, marker).Some? && LastIndex(lines, marker).value < |lines| - 1)
    ensures TextAfterLast(lines, marker) == ""
  {
  }

  /** The explanation the parser computes from the scanned sentinel is the
      specified one (kept apart so that the method's proof stays small). */
  lemma ExplanationAt(lines: seq<string>, explanationStart: int, explanation: string)
    requires explanationStart == Sentinel(LastIndex(lines, ExplanationMarker), 0)
    requires explanation == if explanationStart != -1 && explanationStart < |lines| - 1 then Strip(JoinLines(lines[explanationStart + 1..])) else ""
    ensures explanation == BlockExplanation(lines)
  {
    var e := LastIndex(lines, ExplanationMarker);
    if e.Some? && e.value < |lines| - 1 {
      assert explanationStart == e.value;
      ExplanationFrom(lines, e.value);
    } else {
      NoTextAfterLast(lines, ExplanationMarker);
    }
  }

  /** Parses the lines of one block: find the marker lines, collect the
      options, read the answer and the explanation, then validate. */
  method ParseLines(lines: seq<string>) returns (r: Option<Question>)
    requires lines != []
    ensures r == LinesRecord(lines)
  {
    var question := lines[0];
    var optionsStart, answerStart, explanationStart := ScanMarkers(lines);

    var options: map<Label, string> := map[];
    if optionsStart != -1 && answerStart != -1 && optionsStart <= answerStart {
      options := CollectOptions(lines[optionsStart..answerStart]);
    }

    var answer: Option<Label> := None;
    if answerStart != -1 && answerStart + 1 < |lines| {
      answer := AnswerLabel(lines[answerStart + 1]);
    }
    assert answer == BlockAnswer(lines);

    var explanation := "";
    if explanationStart != -1 && explanationStart < |lines| - 1 {
      explanation := Strip(JoinLines(lines[explanationStart + 1..]));
    }
    assert explanation == BlockExplanation(lines) by {
      ExplanationAt(lines, explanationStart, explanation);
    }

    r := Validated(question, options, answer, explanation);
  }

  /** Parses one block the way the parser's loop body does; a block without
      lines is skipped. */
  method ParseBlock(block: string) returns (r: Option<Question>)
    ensures r == ParsedBlock(block)
  {
    var lines := Lines(block);
    if |lines| == 0 {
      return None;
    }
    r := ParseLines(lines);
  }

  // ---------------------------------------------------------------------
  // Parsing the whole reply

  /** The records that are present, in order. */
  function Present(records: seq<Option<Question>>): (r: seq<Question>)
    ensures |r| <= |records|
    decreases |records|
  {
    if records == [] then []
    else
      var last := records[|records| - 1];
      Present(records[..|records| - 1]) + (if last.Some? then [last.value] else [])
  }

  /** The record each block yields, if any, in block order. */
  function BlockRecords(blocks: seq<string>): seq<Option<Question>> {
    seq(|blocks|, i requires 0 <= i < |blocks| => ParsedBlock(blocks[i]))
  }

  /** The records of the blocks that pass validation, in block order. */
  function Accepted(blocks: seq<string>): (r: seq<Question>)
    ensures |r| <= |blocks|
  {
    Present(BlockRecords(blocks))
  }

  /** The records a reply yields. */
  function ParsedQuiz(text: string): (r: seq<Question>)
    ensures |r| <= |Blocks(text)|
    ensures forall i :: 0 <= i < |r| ==> WellFormed(r[i])
  {
    AcceptedWellFormed(Blocks(text));
    Accepted(Blocks(text))
  }

  /** Every record kept from a run of well-formed records is well formed. */
  lemma {:induction false} PresentWellFormed(records: seq<Option<Question>>)
    requires forall i :: 0 <= i < |records| && records[i].Some? ==> WellFormed(records[i].value)
    ensures forall i :: 0 <= i < |Present(records)| ==> WellFormed(Present(records)[i])
    decreases |records|
  {
    if records != [] {
      PresentWellFormed(records[..|records| - 1]);
    }
  }

  /** Every accepted record is well formed. */
  lemma AcceptedWellFormed(blocks: seq<string>)
    ensures forall i :: 0 <= i < |Accepted(blocks)| ==> WellFormed(Accepted(blocks)[i])
  {
    PresentWellFormed(BlockRecords(blocks));
  }

  /** Accepting one more block appends its record, if it has one. */
  lemma AcceptedStep(blocks: seq<string>, i: nat)
    requires i < |blocks|
    ensures Accepted(blocks[..i + 1]) == Accepted(blocks[..i]) + (if ParsedBlock(blocks[i]).Some? then [ParsedBlock(blocks[i]).value] else [])
  {
    assert BlockRecords(blocks[..i + 1])[..i] == BlockRecords(blocks[..i]);
  }

  /** Parses a reply block by block, appending each accepted record. */
  method ParseQuiz(text: string) returns (questions: seq<Question>)
    ensures questions == ParsedQuiz(text)
  {
    var blocks := Blocks(text);
    questions := [];
    for i := 0 to |blocks|
      invariant questions == Accepted(blocks[..i])
    {
      AcceptedStep(blocks, i);
      var record := ParseBlock(blocks[i]);
      if record.Some? {
        questions := questions + [record.value];
      }
    }
    assert blocks[..|blocks|] == blocks;
  }
}

/** Properties of the parser stated over its specification functions. */
module QuizParserProperties {
  import opened Wrappers
  import opened Text
  import opened QuizParser

  /** An accepted record has exactly the four labels as option keys, so its
      answer label is always one of the option keys. */
  lemma RecordKeysAreAllLabels(q: Question)
    requires WellFormed(q)
    ensures q.options.Keys == AllLabels
    ensures q.answer in q.options.Keys
  {
    forall l | l in q.options.Keys ensures l in AllLabels {
      assert l.A? || l.B? || l.C? || l.D?;
    }
  }

  /** A label is among the collected options exactly when some option line
      names it, and its text is that of the last such line. */
  lemma {:induction false} OptionsOfLastWins(lines: seq<string>, l: Label)
    ensures l in OptionsOf(lines) <==> exists i :: 0 <= i < |lines| && IsOptionFor(lines[i], l)
    ensures l in OptionsOf(lines) ==>
      exists i :: 0 <= i < |lines| && OptionLine(lines[i]) == Some((l, OptionsOf(lines)[l]))
        && forall j :: i < j < |lines| ==> !IsOptionFor(lines[j], l)
    decreases |lines|
  {
    if lines != [] {
      var n := |lines| - 1;
      var init := lines[..n];
      var m := OptionsOf(init);
      OptionsOfLastWins(init, l);
      if IsOptionFor(lines[n], l) {
        var p := OptionLine(lines[n]).value;
        assert OptionsOf(lines) == m[p.0 := p.1];
        assert OptionLine(lines[n]) == Some((l, OptionsOf(lines)[l]));
      } else {
        assert l in OptionsOf(lines) <==> l in m by {
          if OptionLine(lines[n]).Some? {
            var p := OptionLine(lines[n]).value;
            assert OptionsOf(lines) == m[p.0 := p.1];
            assert p.0 != l;
          }
        }
        if l in m {
          assert OptionsOf(lines)[l] == m[l] by {
            if OptionLine(lines[n]).Some? {
              var p := OptionLine(lines[n]).value;
              assert OptionsOf(lines) == m[p.0 := p.1];
            }
          }
          var i :| 0 <= i < n && OptionLine(init[i]) == Some((l, m[l]))
            && forall j :: i < j < n ==> !IsOptionFor(init[j], l);
          assert lines[i] == init[i];
          forall j | i < j < |lines| ensures !IsOptionFor(lines[j], l) {
            if j < n { assert lines[j] == init[j]; }
          }
        }
        if exists i :: 0 <= i < |lines| && IsOptionFor(lines[i], l) {
          var i :| 0 <= i < |lines| && IsOptionFor(lines[i], l);
          assert i < n && init[i] == lines[i];
        }
        if exists i :: 0 <= i < n && IsOptionFor(init[i], l) {
          var i :| 0 <= i < n && IsOptionFor(init[i], l);
          assert init[i] == lines[i];
        }
      }
    }
  }

  /** When a block is accepted and what record it yields: the markers for
      options and answer exist in that order, the span between them holds
      four distinct option labels, the line after the last "Answer:" names a
      label, and at least one line follows the last "Explanation:" line. The
      explanation is those lines joined by '\n'. */
  lemma ParsedBlockAccepts(block: string)
    ensures var lines := Lines(block);
      var o := LastIndex(lines, OptionsMarker);
      var a := LastIndex(lines, AnswerMarker);
      var e := LastIndex(lines, ExplanationMarker);
      && (ParsedBlock(block).Some? <==>
            && lines != []
            && o.Some? && a.Some? && o.value < a.value
            && |OptionsOf(lines[o.value + 1..a.value])| == 4
            && a.value + 1 < |lines| && AnswerLabel(lines[a.value + 1]).Some?
            && e.Some? && e.value < |lines| - 1)
      && (ParsedBlock(block).Some? ==>
            && ParsedBlock(block).value.text == lines[0]
            && ParsedBlock(block).value.options == OptionsOf(lines[o.value + 1..a.value])
            && ParsedBlock(block).value.answer == AnswerLabel(lines[a.value + 1]).value
            && ParsedBlock(block).value.explanation == JoinLines(lines[e.value + 1..]))
  {
    var lines := Lines(block);
    if lines != [] {
      ExplanationJoined(lines);
      var e := LastIndex(lines, ExplanationMarker);
      if e.Some? && e.value < |lines| - 1 {
        ExplanationFollows(lines, e.value);
        assert ParsedBlock(block) == Validated(lines[0], BlockOptions(lines), BlockAnswer(lines), BlockExplanation(lines));
      }
    }
  }

  /** Over trimmed, non-empty lines the explanation is empty only when no
      line follows the last "Explanation:" line. */
  lemma ExplanationJoined(lines: seq<string>)
    requires forall i :: 0 <= i < |lines| ==> lines[i] != [] && Stripped(lines[i])
    ensures var e := LastIndex(lines, ExplanationMarker);
      && (BlockExplanation(lines) != [] <==> e.Some? && e.value < |lines| - 1)
  {
    var e := LastIndex(lines, ExplanationMarker);
    if e.Some? && e.value < |lines| - 1 {
      ExplanationFollows(lines, e.value);
    }
  }

  /** Over trimmed, non-empty lines the explanation is the lines after the
      last "Explanation:" line joined, with nothing left to strip. */
  lemma ExplanationFollows(lines: seq<string>, e: nat)
    requires forall i :: 0 <= i < |lines| ==> lines[i] != [] && Stripped(lines[i])
    requires LastIndex(lines, ExplanationMarker) == Some(e) && e < |lines| - 1
    ensures BlockExplanation(lines) == JoinLines(lines[e + 1..]) != []
  {
    ExplanationFrom(lines, e);
    JoinedTailStripped(lines, e + 1);
  }

  /** The trimmed, non-empty lines from `k` on join into a non-empty text
      that stripping leaves unchanged. */
  lemma JoinedTailStripped(lines: seq<string>, k: nat)
    requires k < |lines|
    requires forall i :: 0 <= i < |lines| ==> lines[i] != [] && Stripped(lines[i])
    ensures JoinLines(lines[k..]) != []
    ensures Strip(JoinLines(lines[k..])) == JoinLines(lines[k..])
  {
    var tail := lines[k..];
    forall i | 0 <= i < |tail| ensures tail[i] != [] && Stripped(tail[i]) {
      assert tail[i] == lines[k + i];
    }
    JoinLinesStripped(tail);
  }

  /** Blocks are parsed independently and their records kept in block order:
      the records of two runs of blocks are the records of each, concatenated.
      Hence a malformed block never affects another block's record. */
  lemma AcceptedAppend(xs: seq<string>, ys: seq<string>)
    ensures Accepted(xs + ys) == Accepted(xs) + Accepted(ys)
  {
    assert BlockRecords(xs + ys) == BlockRecords(xs) + BlockRecords(ys);
    PresentAppend(BlockRecords(xs), BlockRecords(ys));
  }

  /** Keeping the present records of two runs is keeping those of each. */
  lemma {:induction false} PresentAppend(xs: seq<Option<Question>>, ys: seq<Option<Question>>)
    ensures Present(xs + ys) == Present(xs) + Present(ys)
    decreases |ys|
  {
    if ys == [] {
      assert xs + ys == xs;
    } else {
      var init := ys[..|ys| - 1];
      PresentAppend(xs, init);
      assert (xs + ys)[..|xs + ys| - 1] == xs + init;
      assert (xs + ys)[|xs + ys| - 1] == ys[|ys| - 1];
    }
  }

  // ---------------------------------------------------------------------
  // How the reply is cut into pieces

  /** The pieces put back together, with the text of each separator between
      its neighbours. */
  function Rejoin(s: string, start: nat, pieces: seq<string>, cuts: seq<(nat, nat)>): string
    requires Chain(start, cuts, |s|) && |pieces| == |cuts| + 1
    decreases |cuts|
  {
    if cuts == [] then pieces[0]
    else pieces[0] + s[cuts[0].0..cuts[0].1] + Rejoin(s, cuts[0].1, pieces[1..], cuts[1..])
  }

  /** Where piece `j` starts: at `start`, or where separator `j - 1` ends. */
  function PieceStart(start: nat, cuts: seq<(nat, nat)>, j: nat): nat
    requires j <= |cuts|
  {
    if j == 0 then start else cuts[j - 1].1
  }

  /** Where piece `j` ends: where separator `j` starts, or at `n`. */
  function PieceEnd(n: nat, cuts: seq<(nat, nat)>, j: nat): nat
    requires j <= |cuts|
  {
    if j == |cuts| then n else cuts[j].0
  }

  /** No separator starts in [a, b). */
  predicate NoSeparatorBetween(s: string, a: nat, b: nat) {
    forall p :: a <= p < b && p <= |s| ==> MarkerEnd(s, p).None?
  }

  /** No '\n' in `t` is followed by "Question:". */
  predicate NoSeparatorIn(t: string) {
    forall q :: 0 <= q < |t| && t[q] == '\n' ==> !StartsWith(t[q + 1..], QuestionMarker)
  }

  /** The pieces and the separators between them rebuild the text. */
  lemma {:induction false} BetweenRebuilds(s: string, start: nat, cuts: seq<(nat, nat)>)
    requires Chain(start, cuts, |s|)
    ensures Rejoin(s, start, Between(s, start, cuts), cuts) == s[start..]
    decreases |cuts|
  {
    if cuts != [] {
      var c := cuts[0];
      BetweenRebuilds(s, c.1, cuts[1..]);
      var b := Between(s, start, cuts);
      assert b[0] == s[start..c.0] && b[1..] == Between(s, c.1, cuts[1..]);
      assert s[start..c.0] + s[c.0..c.1] + s[c.1..] == s[start..];
    }
  }

  /** Piece `j` is the text from where it starts to where it ends. */
  lemma {:induction false} BetweenAt(s: string, start: nat, cuts: seq<(nat, nat)>, j: nat)
    requires Chain(start, cuts, |s|) && j <= |cuts|
    ensures PieceStart(start, cuts, j) <= PieceEnd(|s|, cuts, j) <= |s|
    ensures Between(s, start, cuts)[j] == s[PieceStart(start, cuts, j)..PieceEnd(|s|, cuts, j)]
    decreases |cuts|
  {
    if cuts != [] && j > 0 {
      BetweenAt(s, cuts[0].1, cuts[1..], j - 1);
      assert PieceStart(start, cuts, j) == PieceStart(cuts[0].1, cuts[1..], j - 1);
      assert PieceEnd(|s|, cuts, j) == PieceEnd(|s|, cuts[1..], j - 1);
    }
  }

  /** The scan finds no separator between the ones it reports: none
      starts inside piece `j`. */
  lemma {:induction false} SeparatorsLeaveGaps(s: string, pos: nat, j: nat)
    requires pos <= |s| && j <= |Separators(s, pos)|
    ensures NoSeparatorBetween(s, PieceStart(pos, Separators(s, pos), j), PieceEnd(|s|, Separators(s, pos), j))
    decreases |s| - pos
  {
    var cs := Separators(s, pos);
    var lo, hi := PieceStart(pos, cs, j), PieceEnd(|s|, cs, j);
    if pos == |s| {
      assert cs == [] && lo == hi;
      assert NoSeparatorBetween(s, lo, hi);
    } else {
      match MarkerEnd(s, pos)
      case Some(e) =>
        var rest := Separators(s, e);
        assert cs == [(pos, e)] + rest;
        if j == 0 {
          assert lo == hi;
          assert NoSeparatorBetween(s, lo, hi);
        } else {
          SeparatorsLeaveGaps(s, e, j - 1);
          assert lo == PieceStart(e, rest, j - 1);
          assert hi == PieceEnd(|s|, rest, j - 1);
          assert NoSeparatorBetween(s, lo, hi);
        }
      case None =>
        SeparatorsLeaveGaps(s, pos + 1, j);
        assert cs == Separators(s, pos + 1);
        if j == 0 {
          NoSeparatorExtends(s, pos, hi);
          assert NoSeparatorBetween(s, lo, hi);
        } else {
          assert lo == PieceStart(pos + 1, cs, j);
          assert NoSeparatorBetween(s, lo, hi);
        }
    }
  }

  /** A gap reaches one position further back when no separator starts
      there. */
  lemma NoSeparatorExtends(s: string, a: nat, b: nat)
    requires a <= |s| && MarkerEnd(s, a).None? && NoSeparatorBetween(s, a + 1, b)
    ensures NoSeparatorBetween(s, a, b)
  {
  }

  /** A stretch without separator starts holds no '\n' followed by
      "Question:", and at the start of the text it does not begin with
      "Question:" either. */
  lemma GapHasNoSeparator(s: string, a: nat, b: nat)
    requires a <= b <= |s| && NoSeparatorBetween(s, a, b)
    ensures NoSeparatorIn(s[a..b])
    ensures a == 0 ==> !StartsWith(s[a..b], QuestionMarker)
  {
    var t := s[a..b];
    var m := |QuestionMarker|;
    forall q | 0 <= q < |t| && t[q] == '\n' ensures !StartsWith(t[q + 1..], QuestionMarker) {
      var p := a + q;
      assert MarkerEnd(s, p).None?;
      assert !StartsWith(s[p + 1..], QuestionMarker);
      if |t[q + 1..]| >= m {
        assert t[q + 1..][..m] == s[p + 1..][..m];
      }
    }
    if a == 0 && 0 < b {
      assert MarkerEnd(s, 0).None?;
      if |t| >= m {
        assert t[..m] == s[..m];
      }
    }
  }

  /** A cut that is a match of the separator pattern: a separator starts
      at its start and ends at its end. */
  predicate IsMatch(s: string, c: (nat, nat)) {
    c.0 <= |s| && MarkerEnd(s, c.0) == Some(c.1)
  }

  /** Every cut the scan records is a match of the separator pattern. */
  lemma {:induction false} SeparatorsAreMatches(s: string, pos: nat)
    requires pos <= |s|
    ensures forall j :: 0 <= j < |Separators(s, pos)| ==> IsMatch(s, Separators(s, pos)[j])
    decreases |s| - pos
  {
    if pos < |s| {
      match MarkerEnd(s, pos)
      case Some(e) =>
        SeparatorsAreMatches(s, e);
        var rest := Separators(s, e);
        assert Separators(s, pos) == [(pos, e)] + rest;
      case None =>
        SeparatorsAreMatches(s, pos + 1);
    }
  }

  /** How the stripped reply is cut, as `re.split` with the separator
      pattern does: every cut is a match of the pattern, no match starts
      inside the text between two cuts (so the matches are found leftmost
      first and never overlap), and the pieces, with each cut's text between
      neighbours, rebuild the text. So no piece holds a '\n' followed by
      "Question:", and the first piece does not start with "Question:". */
  lemma PiecesSplit(s: string)
    ensures forall j :: 0 <= j < |Separators(s, 0)| ==> IsMatch(s, Separators(s, 0)[j])
    ensures forall j :: 0 <= j <= |Separators(s, 0)| ==>
      NoSeparatorBetween(s, PieceStart(0, Separators(s, 0), j), PieceEnd(|s|, Separators(s, 0), j))
    ensures Rejoin(s, 0, Pieces(s), Separators(s, 0)) == s
    ensures forall j :: 0 <= j < |Pieces(s)| ==> NoSeparatorIn(Pieces(s)[j])
    ensures !StartsWith(Pieces(s)[0], QuestionMarker)
  {
    SeparatorsAreMatches(s, 0);
    var cs := Separators(s, 0);
    BetweenRebuilds(s, 0, cs);
    forall j | 0 <= j < |Pieces(s)|
      ensures NoSeparatorIn(Pieces(s)[j])
      ensures j == 0 ==> !StartsWith(Pieces(s)[j], QuestionMarker)
    {
      BetweenAt(s, 0, cs, j);
      SeparatorsLeaveGaps(s, 0, j);
      GapHasNoSeparator(s, PieceStart(0, cs, j), PieceEnd(|s|, cs, j));
    }
    forall j | 0 <= j <= |cs|
      ensures NoSeparatorBetween(s, PieceStart(0, cs, j), PieceEnd(|s|, cs, j))
    {
      SeparatorsLeaveGaps(s, 0, j);
    }
  }
}
