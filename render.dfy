/** The block layout the parser accepts for the generator's template: the
    question, "Options:", the four "X. text" lines, "Answer:", the answer
    letter on the next line, "Explanation:" and the explanation on the
    lines after it. A record laid out this way parses back to itself; the
    template filled in on the marker lines themselves does not. */
module QuizRender {
  import opened Wrappers
  import opened Text
  import opened QuizParser
  import opened QuizParserProperties

  /** A single line: non-empty, stripped, without line breaks. */
  predicate PlainLine(s: string) {
    s != [] && Stripped(s) && NoLineBreak(s)
  }

  /** A record the layout can carry: plain one-line texts, and an
      explanation that does not itself look like a marker line. */
  predicate Renderable(q: Question) {
    && WellFormed(q)
    && PlainLine(q.text) && PlainLine(q.explanation)
    && (forall l: Label :: PlainLine(q.options[l]))
    && !StartsWith(q.explanation, OptionsMarker)
    && !StartsWith(q.explanation, AnswerMarker)
    && !StartsWith(q.explanation, ExplanationMarker)
  }

  function OptionText(l: Label, text: string): string {
    [LabelChar(l), '.', ' '] + text
  }

  /** The lines of a record in the layout the parser accepts. */
  function RenderLines(q: Question): (r: seq<string>)
    requires WellFormed(q)
    ensures |r| == 10
  {
    [q.text, OptionsMarker,
     OptionText(A, q.options[A]), OptionText(B, q.options[B]),
     OptionText(C, q.options[C]), OptionText(D, q.options[D]),
     AnswerMarker, [LabelChar(q.answer)], ExplanationMarker, q.explanation]
  }

  /** A record as one block of text. */
  function RenderBlock(q: Question): string
    requires WellFormed(q)
  {
    JoinLines(RenderLines(q))
  }

  /** Parsing a rendered record gives the record back. */
  lemma ParseRendered(q: Question)
    requires Renderable(q)
    ensures ParsedBlock(RenderBlock(q)) == Some(q)
  {
    RenderedBlockLines(q);
    RenderedFields(q);
    RecordFromFields(RenderLines(q), q);
  }

  /** Lines whose first line and fields are those of a well-formed record
      validate to that record. */
  lemma RecordFromFields(lines: seq<string>, q: Question)
    requires WellFormed(q) && lines != [] && lines[0] == q.text
    requires BlockOptions(lines) == q.options
    requires BlockAnswer(lines) == Some(q.answer)
    requires BlockExplanation(lines) == q.explanation
    ensures LinesRecord(lines) == Some(q)
  {
    RecordKeysAreAllLabels(q);
    assert |q.options| == 4 by {
      assert |AllLabels| == 4 by { assert AllLabels == {A} + {B} + {C} + {D}; }
    }
  }

  /** The lines of a rendered block are exactly the rendered lines. */
  lemma RenderedBlockLines(q: Question)
    requires Renderable(q)
    ensures Lines(RenderBlock(q)) == RenderLines(q)
  {
    var ls := RenderLines(q);
    RenderedLinesPlain(q);
    JoinLinesStripped(ls);
    SplitJoinLines(ls);
    CleanLinesIdentity(ls);
  }

  /** The options, answer and explanation read off the rendered lines are
      the record's own. */
  lemma RenderedFields(q: Question)
    requires Renderable(q)
    ensures BlockOptions(RenderLines(q)) == q.options
    ensures BlockAnswer(RenderLines(q)) == Some(q.answer)
    ensures BlockExplanation(RenderLines(q)) == q.explanation
  {
    var ls := RenderLines(q);
    MarkerPositions(q);
    assert BlockAnswer(ls) == Some(q.answer);
    assert BlockExplanation(ls) == q.explanation by {
      assert ls[9..] == [q.explanation];
    }
    assert BlockOptions(ls) == q.options by {
      RenderedOptions(q);
    }
  }

  /** Every rendered line is a plain line. */
  lemma RenderedLinesPlain(q: Question)
    requires Renderable(q)
    ensures forall i :: 0 <= i < 10 ==> PlainLine(RenderLines(q)[i])
  {
  }

  /** A line whose first character differs from the marker's does not
      start with the marker. */
  lemma FirstCharDiffers(s: string, marker: string)
    requires s != [] && marker != [] && s[0] != marker[0]
    ensures !StartsWith(s, marker)
  {
  }

  /** Where the last line of each marker is, given the facts about the
      lines after it. */
  lemma {:induction false} LastIndexAt(lines: seq<string>, marker: string, k: nat)
    requires k < |lines| && StartsWith(lines[k], marker)
    requires forall j :: k < j < |lines| ==> !StartsWith(lines[j], marker)
    ensures LastIndex(lines, marker) == Some(k)
    decreases |lines|
  {
    if k < |lines| - 1 {
      var init := lines[..|lines| - 1];
      assert forall j :: k < j < |init| ==> init[j] == lines[j];
      LastIndexAt(init, marker, k);
    }
  }

  /** In a rendered record the last "Options:" line is line 1, the last
      "Answer:" line is line 6 and the last "Explanation:" line is line 8. */
  lemma MarkerPositions(q: Question)
    requires Renderable(q)
    ensures LastIndex(RenderLines(q), OptionsMarker) == Some(1)
    ensures LastIndex(RenderLines(q), AnswerMarker) == Some(6)
    ensures LastIndex(RenderLines(q), ExplanationMarker) == Some(8)
  {
    var ls := RenderLines(q);
    OptionLineNotMarker(A, q.options[A]);
    OptionLineNotMarker(B, q.options[B]);
    OptionLineNotMarker(C, q.options[C]);
    OptionLineNotMarker(D, q.options[D]);
    FirstCharDiffers(AnswerMarker, OptionsMarker);
    FirstCharDiffers(ExplanationMarker, OptionsMarker);
    FirstCharDiffers(ExplanationMarker, AnswerMarker);
    assert ls[1][..8] == OptionsMarker;
    assert ls[6][..7] == AnswerMarker;
    assert ls[8][..12] == ExplanationMarker;
    LastIndexAt(ls, OptionsMarker, 1);
    LastIndexAt(ls, AnswerMarker, 6);
    LastIndexAt(ls, ExplanationMarker, 8);
  }

  lemma OptionLineNotMarker(l: Label, text: string)
    ensures !StartsWith(OptionText(l, text), OptionsMarker)
    ensures !StartsWith(OptionText(l, text), ExplanationMarker)
  {
    FirstCharDiffers(OptionText(l, text), OptionsMarker);
    FirstCharDiffers(OptionText(l, text), ExplanationMarker);
  }

  /** An option line of the layout reads back as its label and text. */
  lemma OptionTextReads(l: Label, text: string)
    requires text != [] && Stripped(text)
    ensures OptionLine(OptionText(l, text)) == Some((l, text))
  {
    StripLeadingSpace(text);
    assert OptionText(l, text)[2..] == [' '] + text;
  }

  /** The option lines of a rendered record give its options. */
  lemma RenderedOptions(q: Question)
    requires Renderable(q)
    ensures OptionsOf(RenderLines(q)[2..6]) == q.options
  {
    var a, b, c, d := q.options[A], q.options[B], q.options[C], q.options[D];
    assert RenderLines(q)[2..6] == [OptionText(A, a), OptionText(B, b), OptionText(C, c), OptionText(D, d)];
    assert PlainLine(a) && PlainLine(b) && PlainLine(c) && PlainLine(d);
    FourOptionLines(a, b, c, d);
    RecordKeysAreAllLabels(q);
    var m := map[A := a, B := b, C := c, D := d];
    assert m.Keys == q.options.Keys;
  }

  /** An explanation written on the "Explanation:" line itself is lost:
      when the last line starts with "Explanation:", no line follows it, the
      explanation is empty and no record is made. */
  lemma ExplanationOnMarkerLineRejected(lines: seq<string>)
    requires lines != [] && StartsWith(lines[|lines| - 1], ExplanationMarker)
    ensures LinesRecord(lines) == None
  {
    LastIndexIsLast(lines, ExplanationMarker);
  }

  /** The bare template filled in on the marker lines themselves
      ("Answer: B", "Explanation: because") is rejected: the line read as
      the answer is the "Explanation:" line, and no line follows that one. */
  lemma SameLineFillRejected()
    ensures var lines := ["What?", "Options:", "A. a", "B. b", "C. c", "D. d", "Answer: B", "Explanation: because"];
      BlockAnswer(lines) == None && LinesRecord(lines) == None
  {
    var lines := ["What?", "Options:", "A. a", "B. b", "C. c", "D. d", "Answer: B", "Explanation: because"];
    assert StartsWith(lines[7], ExplanationMarker);
    ExplanationOnMarkerLineRejected(lines);
    assert lines[6][..7] == AnswerMarker;
    FirstCharDiffers(lines[7], AnswerMarker);
    LastIndexIsLast(lines, AnswerMarker);
    assert LastIndex(lines, AnswerMarker) == Some(6);
  }

  /** Four option lines in label order give the map of their texts. */
  lemma FourOptionLines(a: string, b: string, c: string, d: string)
    requires PlainLine(a) && PlainLine(b) && PlainLine(c) && PlainLine(d)
    ensures OptionsOf([OptionText(A, a), OptionText(B, b), OptionText(C, c), OptionText(D, d)])
      == map[A := a, B := b, C := c, D := d]
  {
    var l0, l1, l2, l3 := OptionText(A, a), OptionText(B, b), OptionText(C, c), OptionText(D, d);
    OptionTextReads(A, a);
    OptionTextReads(B, b);
    OptionTextReads(C, c);
    OptionTextReads(D, d);
    var m0: map<Label, string> := OptionsOf([]);
    assert m0 == map[];
    assert OptionsOf([l0]) == m0[A := a] by {
      assert [l0][..|[l0]| - 1] == [];
    }
    assert OptionsOf([l0, l1]) == OptionsOf([l0])[B := b] by {
      assert [l0, l1][..1] == [l0];
    }
    assert OptionsOf([l0, l1, l2]) == OptionsOf([l0, l1])[C := c] by {
      assert [l0, l1, l2][..2] == [l0, l1];
    }
    assert OptionsOf([l0, l1, l2, l3]) == OptionsOf([l0, l1, l2])[D := d] by {
      assert [l0, l1, l2, l3][..3] == [l0, l1, l2];
    }
  }

  /** One leading space is stripped off a stripped text. */
  lemma StripLeadingSpace(text: string)
    requires text != [] && Stripped(text)
    ensures Strip([' '] + text) == text
  {
    var s := [' '] + text;
    assert s[1..] == text;
    assert TrimStart(s) == TrimStart(text) == text;
  }

  // ---------------------------------------------------------------------
  // A whole reply

  /** A record a reply can carry: renderable, with a question text that
      does not begin with an ordinal "digits." (the separator would swallow
      it) and an explanation that does not begin with "Question:" (it would
      start a new block). */
  predicate QuizRenderable(q: Question) {
    && Renderable(q)
    && (forall d :: 0 <= d < |q.text| ==> !OrdinalEndsAt(q.text, 0, d))
    && !StartsWith(q.explanation, QuestionMarker)
  }

  /** Every record can be carried by a reply. */
  predicate AllRenderable(qs: seq<Question>)
    ensures AllRenderable(qs) && qs != [] ==> WellFormed(qs[0])
    decreases |qs|
  {
    qs == [] || (QuizRenderable(qs[0]) && AllRenderable(qs[1..]))
  }

  /** The blocks of the records, in order. */
  function RenderBlocks(qs: seq<Question>): (r: seq<string>)
    requires AllRenderable(qs)
    ensures |r| == |qs|
    decreases |qs|
  {
    if qs == [] then [] else [RenderBlock(qs[0])] + RenderBlocks(qs[1..])
  }

  /** A reply holding the records in order. */
  function RenderReply(qs: seq<Question>): string
    requires AllRenderable(qs)
  {
    Reply(RenderBlocks(qs))
  }

  /** A reply written from records parses back to exactly those records, in
      order: every block is cut out whole and parses back to its record. */
  lemma ParseRenderedReply(qs: seq<Question>)
    requires AllRenderable(qs)
    ensures ParsedQuiz(RenderReply(qs)) == qs
  {
    RenderedBlocksSeparable(qs);
    ReplyBlocks(RenderBlocks(qs));
    AcceptedRendered(qs);
  }

  /** The blocks of renderable records are separable. */
  lemma {:induction false} RenderedBlocksSeparable(qs: seq<Question>)
    requires AllRenderable(qs)
    ensures forall i :: 0 <= i < |qs| ==> Separable(RenderBlocks(qs)[i])
    decreases |qs|
  {
    if qs != [] {
      RenderedSeparable(qs[0]);
      RenderedBlocksSeparable(qs[1..]);
      assert forall i :: 1 <= i < |qs| ==> RenderBlocks(qs)[i] == RenderBlocks(qs[1..])[i - 1];
    }
  }

  /** A renderable record's block is separable. */
  lemma RenderedSeparable(q: Question)
    requires QuizRenderable(q)
    ensures Separable(RenderBlock(q))
  {
    var b := RenderBlock(q);
    RenderedBlockShape(q);
    var n := |q.text|;
    forall d | 0 <= d < |b| ensures !OrdinalEndsAt(b, 0, d) {
      if d < n {
        assert forall i :: 0 <= i < d ==> b[i] == q.text[i];
        assert !OrdinalEndsAt(q.text, 0, d);
      } else {
        assert b[n] == '\n';
      }
    }
  }

  /** Each record's block parses back to the record, so the blocks yield
      the records in order. */
  lemma {:induction false} AcceptedRendered(qs: seq<Question>)
    requires AllRenderable(qs)
    ensures Accepted(RenderBlocks(qs)) == qs
    decreases |qs|
  {
    if qs != [] {
      var b := RenderBlock(qs[0]);
      ParseRendered(qs[0]);
      AcceptedRendered(qs[1..]);
      AcceptedAppend([b], RenderBlocks(qs[1..]));
      assert Accepted([b]) == [qs[0]] by {
        assert [b][..0] == [];
      }
    }
  }

  // ---------------------------------------------------------------------
  // Splitting a reply written from blocks

  /** A block the splitter cuts out whole: non-empty and stripped, not
      beginning with an ordinal "digits." and holding no '\n' followed by
      "Question:". */
  predicate Separable(b: string) {
    && b != [] && Stripped(b)
    && (forall d :: 0 <= d < |b| ==> !OrdinalEndsAt(b, 0, d))
    && NoSeparatorIn(b)
  }

  /** "Question: " and the first block, then each further block on a new
      line after "Question: ". */
  function Reply(bs: seq<string>): string {
    if bs == [] then "" else "Question: " + bs[0] + ReplyTail(bs[1..])
  }

  /** The blocks after the first, each after a line break and "Question: ". */
  function ReplyTail(bs: seq<string>): string
    decreases |bs|
  {
    if bs == [] then "" else "\nQuestion: " + bs[0] + ReplyTail(bs[1..])
  }

  /** Where the separators of a tail starting at position `p` lie. */
  function TailCuts(p: nat, bs: seq<string>): seq<(nat, nat)>
    decreases |bs|
  {
    if bs == [] then [] else [(p, p + 11)] + TailCuts(p + 11 + |bs[0]|, bs[1..])
  }

  /** The blocks of a reply written from separable blocks are those blocks. */
  lemma ReplyBlocks(bs: seq<string>)
    requires forall i :: 0 <= i < |bs| ==> Separable(bs[i])
    ensures Blocks(Reply(bs)) == bs
  {
    var t := Reply(bs);
    if bs == [] {
      StripStripped(t);
      assert Pieces(t) == [""];
      assert NonBlank([""]) == [];
    } else {
      var b := bs[0];
      var p := 10 + |b|;
      ThreeParts(t, 0, 10, p, "Question: ", b, ReplyTail(bs[1..]));
      TailShape(bs[1..]);
      assert Strip(t) == t by {
        assert t[0] == 'Q';
        if bs[1..] == [] {
          assert t[|t| - 1] == b[|b| - 1];
        } else {
          assert t[|t| - 1] == t[p..][|t[p..]| - 1];
        }
        StripStripped(t);
      }
      ReplySeparators(bs);
      TailPieces(t, 10, p, bs[1..]);
      assert Pieces(t) == [""] + bs;
      NonBlankSeparable(bs);
      assert NonBlank([""] + bs) == NonBlank(bs) by {
        assert ([""] + bs)[1..] == bs;
      }
    }
  }

  /** Separable blocks are all kept. */
  lemma {:induction false} NonBlankSeparable(bs: seq<string>)
    requires forall i :: 0 <= i < |bs| ==> Separable(bs[i])
    ensures NonBlank(bs) == bs
    decreases |bs|
  {
    if bs != [] {
      assert !AllSpace(bs[0]) by { assert !IsSpace(bs[0][0]); }
      NonBlankSeparable(bs[1..]);
    }
  }

  /** A non-empty tail starts with a line break and does not end with
      whitespace. */
  lemma {:induction false} TailShape(bs: seq<string>)
    requires forall i :: 0 <= i < |bs| ==> Separable(bs[i])
    ensures var t := ReplyTail(bs);
      (bs == [] <==> t == []) && (t != [] ==> t[0] == '\n' && !IsSpace(t[|t| - 1]))
    decreases |bs|
  {
    if bs != [] {
      TailShape(bs[1..]);
    }
  }

  /** The separators of a reply: "Question: " at the start, then one
      "\nQuestion: " before each further block. */
  lemma ReplySeparators(bs: seq<string>)
    requires bs != [] && forall i :: 0 <= i < |bs| ==> Separable(bs[i])
    ensures Separators(Reply(bs), 0) == [(0, 10)] + TailCuts(10 + |bs[0]|, bs[1..])
  {
    var t := Reply(bs);
    var b := bs[0];
    var p := 10 + |b|;
    TailShape(bs[1..]);
    ThreeParts(t, 0, 10, p, "Question: ", b, ReplyTail(bs[1..]));
    BlockEnds(t, p, ReplyTail(bs[1..]));
    FirstSeparator(t, b);
    SeparatorsFound(t, 0, 10);
    BlockGap(t, 10, b);
    SeparatorsSkip(t, 10, p);
    TailSeparators(t, p, bs[1..]);
  }

  /** The separators of a tail that starts at position `p > 0`. */
  lemma TailSeparators(t: string, p: nat, bs: seq<string>)
    requires 0 < p <= |t| && forall i :: 0 <= i < |bs| ==> Separable(bs[i])
    requires t[p..] == ReplyTail(bs)
    ensures Separators(t, p) == TailCuts(p, bs)
  {
    TailFramed(t, p, bs);
    FramedLaid(t, p, bs);
    LaidCuts(Scan(t), p, bs);
  }

  /** The scan of `t` from each position (nothing past the end). */
  function Scan(t: string): nat -> seq<(nat, nat)> {
    (q: nat) => if q <= |t| then Separators(t, q) else []
  }

  /** From `p` on, a scan `f` finds one separator per block, right where the
      block's "\nQuestion: " starts, and resumes after the block. */
  predicate Laid(f: nat -> seq<(nat, nat)>, p: nat, bs: seq<string>)
    decreases |bs|
  {
    if bs == [] then f(p) == []
    else f(p) == [(p, p + 11)] + f(p + 11 + |bs[0]|) && Laid(f, p + 11 + |bs[0]|, bs[1..])
  }

  /** A scan laid out block by block finds the tail's separators. */
  lemma {:induction false} LaidCuts(f: nat -> seq<(nat, nat)>, p: nat, bs: seq<string>)
    requires Laid(f, p, bs)
    ensures f(p) == TailCuts(p, bs)
    decreases |bs|
  {
    if bs != [] {
      LaidCuts(f, p + 11 + |bs[0]|, bs[1..]);
    }
  }

  /** From `p > 0` on, the text holds "\nQuestion: " and a separable block
      for each block of `bs`, each block followed by a line break or the
      end. */
  predicate Framed(t: string, p: nat, bs: seq<string>)
    decreases |bs|
  {
    0 < p <= |t| &&
    if bs == [] then p == |t|
    else
      var q := p + 11 + |bs[0]|;
      && Separable(bs[0]) && q <= |t| && t[p..p + 11] == "\nQuestion: " && t[p + 11..q] == bs[0]
      && (q == |t| || t[q] == '\n') && Framed(t, q, bs[1..])
  }

  lemma {:induction false} TailFramed(t: string, p: nat, bs: seq<string>)
    requires 0 < p <= |t| && forall i :: 0 <= i < |bs| ==> Separable(bs[i])
    requires t[p..] == ReplyTail(bs)
    ensures Framed(t, p, bs)
    decreases |bs|
  {
    if bs != [] {
      TailHead(t, p, bs);
      TailFramed(t, p + 11 + |bs[0]|, bs[1..]);
    } else {
      assert |t[p..]| == 0;
    }
  }

  lemma {:induction false} FramedLaid(t: string, p: nat, bs: seq<string>)
    requires Framed(t, p, bs)
    ensures Laid(Scan(t), p, bs)
    decreases |bs|
  {
    if bs != [] {
      var q := p + 11 + |bs[0]|;
      TailStep(t, p, bs[0], q);
      FramedLaid(t, q, bs[1..]);
    }
  }

  /** Where a non-empty tail starts: its line break, "Question: ", its
      first block, and then the rest of the tail. */
  lemma TailHead(t: string, p: nat, bs: seq<string>)
    requires 0 < p <= |t| && bs != [] && forall i :: 0 <= i < |bs| ==> Separable(bs[i])
    requires t[p..] == ReplyTail(bs)
    ensures p + 11 + |bs[0]| <= |t| && t[p..p + 11] == "\nQuestion: "
    ensures t[p + 11..p + 11 + |bs[0]|] == bs[0] && t[p + 11 + |bs[0]|..] == ReplyTail(bs[1..])
    ensures p + 11 + |bs[0]| == |t| || t[p + 11 + |bs[0]|] == '\n'
    ensures forall i :: 0 <= i < |bs[1..]| ==> Separable(bs[1..][i])
  {
    var b, rest := bs[0], bs[1..];
    var q := p + 11 + |b|;
    ThreeParts(t, p, p + 11, q, "\nQuestion: ", b, ReplyTail(rest));
    forall i | 0 <= i < |rest| ensures Separable(rest[i]) {
      assert rest[i] == bs[i + 1];
    }
    TailShape(rest);
    BlockEnds(t, q, ReplyTail(rest));
  }

  /** Where the text has "\nQuestion: " at `p > 0`, then a separable block
      ending at `q`, then nothing or a line break, the scan finds one
      separator and resumes at `q`. */
  lemma TailStep(t: string, p: nat, b: string, q: nat)
    requires Separable(b) && 0 < p && q == p + 11 + |b| <= |t|
    requires t[p..p + 11] == "\nQuestion: " && t[p + 11..q] == b
    requires q == |t| || t[q] == '\n'
    ensures Scan(t)(p) == [(p, p + 11)] + Scan(t)(q)
  {
    NextSeparator(t, p, b);
    SeparatorsFound(t, p, p + 11);
    BlockGap(t, p + 11, b);
    SeparatorsSkip(t, p + 11, q);
  }

  /** What follows a block is the end of the text or a line break. */
  lemma BlockEnds(t: string, j: nat, z: string)
    requires j <= |t| && t[j..] == z && (z == [] || z[0] == '\n')
    ensures j == |t| || t[j] == '\n'
  {
    if z != [] {
      assert t[j] == z[0];
    }
  }

  /** The pieces after a tail's separators are the tail's blocks. */
  lemma {:induction false} TailPieces(t: string, start: nat, p: nat, bs: seq<string>)
    requires start <= p <= |t| && t[p..] == ReplyTail(bs) && Chain(start, TailCuts(p, bs), |t|)
    ensures Between(t, start, TailCuts(p, bs)) == [t[start..p]] + bs
    decreases |bs|
  {
    if bs != [] {
      var b := bs[0];
      var p' := p + 11 + |b|;
      ThreeParts(t, p, p + 11, p', "\nQuestion: ", b, ReplyTail(bs[1..]));
      var cs := TailCuts(p, bs);
      assert cs[0] == (p, p + 11) && cs[1..] == TailCuts(p', bs[1..]);
      assert Between(t, start, cs) == [t[start..p]] + Between(t, p + 11, cs[1..]);
      TailPieces(t, p + 11, p', bs[1..]);
      assert bs == [b] + bs[1..];
    } else {
      assert |t[p..]| == 0 && t[start..] == t[start..p];
      assert TailCuts(p, bs) == [];
    }
  }

  /** The three parts of a text that continues at `p` as `x + y + z`, with
      `y` starting at `i` and `z` at `j`. */
  lemma ThreeParts(t: string, p: nat, i: nat, j: nat, x: string, y: string, z: string)
    requires p <= |t| && t[p..] == x + y + z && i == p + |x| && j == i + |y|
    ensures j <= |t| && t[p..i] == x && t[i..j] == y && t[j..] == z
  {
    assert t[p..][..|x|] == x;
    assert t[p..][|x|..|x| + |y|] == y;
    assert t[p..][|x| + |y|..] == z;
  }

  /** "Question: " at the start of the text, directly followed by a
      separable block, is a separator that ends where the block begins. */
  lemma FirstSeparator(t: string, b: string)
    requires Separable(b) && 10 + |b| <= |t|
    requires t[..10] == "Question: " && t[10..10 + |b|] == b
    requires 10 + |b| == |t| || t[10 + |b|] == '\n'
    ensures MarkerEnd(t, 0) == Some(10)
  {
    assert t[..9] == t[..10][..9] == QuestionMarker;
    assert t[9] == t[..10][9] == ' ';
    SeparatorTail(t, 10, b);
  }

  /** "\nQuestion: " further on, directly followed by a separable block, is
      a separator that ends where the block begins. */
  lemma NextSeparator(t: string, p: nat, b: string)
    requires Separable(b) && 0 < p && p + 11 + |b| <= |t|
    requires t[p..p + 11] == "\nQuestion: " && t[p + 11..p + 11 + |b|] == b
    requires p + 11 + |b| == |t| || t[p + 11 + |b|] == '\n'
    ensures MarkerEnd(t, p) == Some(p + 11)
  {
    var intro := t[p..p + 11];
    assert t[p] == intro[0] && t[p + 10] == intro[10];
    forall k | 0 <= k < 9 ensures t[p + 1..][..9][k] == QuestionMarker[k] {
      assert t[p + 1..][..9][k] == intro[k + 1];
    }
    SeparatorTail(t, p + 11, b);
  }

  /** After the separator's one space comes a separable block, so the skip
      over whitespace and an ordinal stops where the block begins. */
  lemma SeparatorTail(t: string, a: nat, b: string)
    requires Separable(b) && 0 < a && a + |b| <= |t| && t[a - 1] == ' ' && t[a..a + |b|] == b
    requires a + |b| == |t| || t[a + |b|] == '\n'
    ensures SkipSpaces(t, a - 1) == a && SkipOrdinal(t, a) == a
  {
    assert t[a] == b[0];
    forall d: nat ensures !OrdinalEndsAt(t, a, d) {
      if a < d < a + |b| {
        assert forall i :: 0 <= i < d - a ==> t[a + i] == b[i];
        assert !OrdinalEndsAt(b, 0, d - a);
      } else if d >= a + |b| {
        NoOrdinalAcross(t, a, b, d);
      }
    }
  }

  /** A block directly followed by a line break or the end of the text
      cannot carry an ordinal that reaches past it. */
  lemma NoOrdinalAcross(t: string, a: nat, b: string, d: nat)
    requires Separable(b) && a + |b| <= |t| && t[a..a + |b|] == b
    requires a + |b| == |t| || t[a + |b|] == '\n'
    requires d >= a + |b|
    ensures !OrdinalEndsAt(t, a, d)
  {
    if a + |b| < |t| && d < |t| {
      assert a <= a + |b| < d || d == a + |b|;
    }
  }

  /** A separable block, not at the start of the text and followed by the
      end of the text or a line break, holds no separator start. */
  lemma BlockGap(t: string, a: nat, b: string)
    requires Separable(b)
    requires 0 < a && a + |b| <= |t| && t[a..a + |b|] == b
    requires a + |b| == |t| || t[a + |b|] == '\n'
    ensures NoSeparatorBetween(t, a, a + |b|)
  {
    var m := |QuestionMarker|;
    forall p | a <= p < a + |b| ensures MarkerEnd(t, p).None? {
      var i := p - a;
      assert t[p] == b[i];
      if t[p] == '\n' {
        assert !StartsWith(b[i + 1..], QuestionMarker);
        var len := |b| - i - 1;
        if len >= m {
          var after, rest := t[p + 1..], b[i + 1..];
          forall k | 0 <= k < m ensures after[k] == rest[k] {
            assert t[a..a + |b|][i + 1 + k] == b[i + 1 + k];
          }
          assert after[..m] == rest[..m];
        } else if |t[p + 1..]| >= m {
          assert t[p + 1..][len] == '\n';
          assert QuestionMarker[len] != '\n';
        }
      }
    }
  }

  /** Where a separator is found, the scan records it and resumes at its
      end. */
  lemma SeparatorsFound(s: string, pos: nat, e: nat)
    requires pos < |s| && MarkerEnd(s, pos) == Some(e)
    ensures Separators(s, pos) == [(pos, e)] + Separators(s, e)
  {
  }

  /** The scan passes over a stretch without separator starts. */
  lemma SeparatorsSkip(s: string, a: nat, b: nat)
    requires a <= b <= |s| && NoSeparatorBetween(s, a, b)
    ensures Separators(s, a) == Separators(s, b)
  {
    forall p | a <= p < b ensures Scan(s)(p) == Scan(s)(p + 1) {
      SeparatorsPass(s, p);
    }
    Level(Scan(s), a, b);
  }

  /** A function that keeps its value from each position to the next over
      [a, b] has the same value at both ends. */
  lemma {:induction false} Level(f: nat -> seq<(nat, nat)>, a: nat, b: nat)
    requires a <= b && forall p :: a <= p < b ==> f(p) == f(p + 1)
    ensures f(a) == f(b)
    decreases b - a
  {
    if a < b {
      Level(f, a + 1, b);
    }
  }

  /** Where no separator starts, the scan moves on by one position. */
  lemma SeparatorsPass(s: string, a: nat)
    requires a < |s| && MarkerEnd(s, a).None?
    ensures Separators(s, a) == Separators(s, a + 1)
  {
  }

  /** The block of a record is non-empty and stripped, starts with the
      question text and a line break, and has no '\n' followed by
      "Question:". */
  lemma RenderedBlockShape(q: Question)
    requires QuizRenderable(q)
    ensures var b := RenderBlock(q);
      && b != [] && Stripped(b)
      && |q.text| < |b| && b[..|q.text|] == q.text && b[|q.text|] == '\n'
      && NoSeparatorIn(b)
  {
    var ls := RenderLines(q);
    RenderedLinesPlain(q);
    JoinLinesStripped(ls);
    var b := RenderBlock(q);
    assert b == q.text + "\n" + JoinLines(ls[1..]);
    forall i | 1 <= i < |ls| ensures !StartsWith(ls[i], QuestionMarker) {
      if i == 9 {
      } else if i == 7 {
        FirstCharDiffers(ls[i], QuestionMarker);
      } else {
        assert ls[i][0] != 'Q';
        FirstCharDiffers(ls[i], QuestionMarker);
      }
    }
    JoinedNoSeparator(ls);
  }

  /** Joined break-free lines, none after the first starting with
      "Question:", hold no '\n' followed by "Question:". */
  lemma {:induction false} JoinedNoSeparator(lines: seq<string>)
    requires |lines| >= 1
    requires forall i :: 0 <= i < |lines| ==> NoLineBreak(lines[i])
    requires forall i :: 1 <= i < |lines| ==> !StartsWith(lines[i], QuestionMarker)
    ensures NoSeparatorIn(JoinLines(lines))
    decreases |lines|
  {
    if |lines| > 1 {
      var l0, rest := lines[0], lines[1..];
      JoinedNoSeparator(rest);
      var jr := JoinLines(rest);
      var j := JoinLines(lines);
      assert j == l0 + "\n" + jr;
      JoinedHeadNotSeparator(rest);
      forall q | 0 <= q < |j| && j[q] == '\n' ensures !StartsWith(j[q + 1..], QuestionMarker) {
        if q == |l0| {
          assert j[q + 1..] == jr;
        } else if q > |l0| {
          assert j[q] == jr[q - |l0| - 1];
          assert j[q + 1..] == jr[q - |l0|..];
        }
      }
    }
  }

  /** Joined break-free lines start with "Question:" only if the first
      line does. */
  lemma JoinedHeadNotSeparator(lines: seq<string>)
    requires |lines| >= 1 && NoLineBreak(lines[0]) && !StartsWith(lines[0], QuestionMarker)
    ensures !StartsWith(JoinLines(lines), QuestionMarker)
  {
    if |lines| > 1 {
      var l0 := lines[0];
      var j := JoinLines(lines);
      assert j == l0 + "\n" + JoinLines(lines[1..]);
      var m := |QuestionMarker|;
      if |l0| >= m {
        assert j[..m] == l0[..m];
      } else if |j| >= m {
        assert j[..m][|l0|] == '\n';
        assert QuestionMarker[|l0|] != '\n';
      }
    }
  }
}
