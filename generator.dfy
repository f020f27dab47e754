/** What the quiz generator feeds the text-generation service besides its
    fixed instructions: the textbook text cut to a maximum length, and a
    summary of the most recent past quizzes on the same topic. Also how the
    topic of a document is derived from its first line. */
module QuizGenerator {
  import opened Wrappers
  import opened Text
  import QuizParser

  datatype Difficulty = Beginner | Intermediate | Advanced

  /** One stored past quiz: the topic and difficulty it was generated for
      and the raw text the service returned. */
  datatype HistoryEntry = HistoryEntry(topic: string, difficulty: Difficulty, quiz: string)

  // ---------------------------------------------------------------------
  // Truncating the textbook text

  const MaxChars: nat := 15000
  const TruncationMarker := "\n... [Text truncated due to length]"

  /** The first MaxChars characters of the text, followed by the marker
      when (and only when) something was cut off. */
  function Truncated(text: string): (r: string)
    ensures |text| <= MaxChars ==> r == text
    ensures |text| > MaxChars ==>
      |r| == MaxChars + |TruncationMarker| && r[..MaxChars] == text[..MaxChars] && r[MaxChars..] == TruncationMarker
    ensures |r| > MaxChars <==> |text| > MaxChars
    ensures |r| <= MaxChars + |TruncationMarker|
  {
    if |text| > MaxChars then text[..MaxChars] + TruncationMarker else text
  }

  // ---------------------------------------------------------------------
  // Selecting the relevant history

  const HistoryWindow: nat := 10

  /** The entries on the given topic, in their stored order. */
  function Relevant(history: seq<HistoryEntry>, topic: string): (r: seq<HistoryEntry>)
    ensures |r| <= |history|
    decreases |history|
  {
    if history == [] then []
    else
      var last := history[|history| - 1];
      Relevant(history[..|history| - 1], topic) + (if last.topic == topic then [last] else [])
  }

  /** The last `n` elements, in order (all of them when there are fewer). */
  function LastN<T>(xs: seq<T>, n: nat): (r: seq<T>)
    ensures |r| == if |xs| < n then |xs| else n
    ensures r == xs[|xs| - |r|..]
  {
    if |xs| <= n then xs else xs[|xs| - n..]
  }

  /** The entries whose summary goes into the prompt. */
  function RecentRelevant(history: seq<HistoryEntry>, topic: string): (r: seq<HistoryEntry>)
    ensures |r| <= HistoryWindow
  {
    LastN(Relevant(history, topic), HistoryWindow)
  }

  /** Every selected entry is on the topic. */
  lemma {:induction false} RelevantOnTopic(history: seq<HistoryEntry>, topic: string)
    ensures forall i :: 0 <= i < |Relevant(history, topic)| ==> Relevant(history, topic)[i].topic == topic
    decreases |history|
  {
    if history != [] {
      RelevantOnTopic(history[..|history| - 1], topic);
    }
  }

  /** Filtering keeps the stored order: the entries of two runs of history
      are those of each run, concatenated. */
  lemma {:induction false} RelevantAppend(h1: seq<HistoryEntry>, h2: seq<HistoryEntry>, topic: string)
    ensures Relevant(h1 + h2, topic) == Relevant(h1, topic) + Relevant(h2, topic)
    decreases |h2|
  {
    if h2 == [] {
      assert h1 + h2 == h1;
    } else {
      var init := h2[..|h2| - 1];
      RelevantAppend(h1, init, topic);
      assert (h1 + h2)[..|h1 + h2| - 1] == h1 + init;
      assert (h1 + h2)[|h1 + h2| - 1] == h2[|h2| - 1];
    }
  }

  /** Filtering drops exactly the entries on other topics: each entry on the
      topic is kept as often as it is stored, any other entry never. */
  lemma {:induction false} RelevantCounts(history: seq<HistoryEntry>, topic: string, e: HistoryEntry)
    ensures multiset(Relevant(history, topic))[e] == if e.topic == topic then multiset(history)[e] else 0
    decreases |history|
  {
    if history != [] {
      var init := history[..|history| - 1];
      var last := history[|history| - 1];
      RelevantCounts(init, topic, e);
      assert history == init + [last];
      assert multiset(history) == multiset(init) + multiset{last};
    }
  }

  /** Storing a quiz on another topic leaves the selection alone; storing
      one on the topic slides the window: the new entry comes last and the
      oldest falls out once there are more than ten. */
  lemma RecentAfterStore(history: seq<HistoryEntry>, e: HistoryEntry, topic: string)
    ensures e.topic != topic ==> RecentRelevant(history + [e], topic) == RecentRelevant(history, topic)
    ensures e.topic == topic ==>
      RecentRelevant(history + [e], topic) == LastN(RecentRelevant(history, topic) + [e], HistoryWindow)
  {
  }

  // ---------------------------------------------------------------------
  // Summarising a past quiz

  /** `pat` occurs in `s` starting at position `i`. */
  predicate OccursAt(s: string, pat: string, i: nat) {
    i + |pat| <= |s| && s[i..i + |pat|] == pat
  }

  /** The last position before `k` at which `pat` occurs, if any. */
  function LastOccurrence(s: string, pat: string, k: nat): (r: Option<nat>)
    ensures r.Some? ==> r.value < k && r.value + |pat| <= |s|
    decreases k
  {
    if k == 0 then None
    else if OccursAt(s, pat, k - 1) then Some(k - 1)
    else LastOccurrence(s, pat, k - 1)
  }

  lemma {:induction false} LastOccurrenceIsLast(s: string, pat: string, k: nat)
    ensures var r := LastOccurrence(s, pat, k);
      && (r.Some? ==> OccursAt(s, pat, r.value))
      && (r.Some? ==> forall j :: r.value < j < k ==> !OccursAt(s, pat, j))
      && (r.None? ==> forall j :: 0 <= j < k ==> !OccursAt(s, pat, j))
    decreases k
  {
    if k > 0 && !OccursAt(s, pat, k - 1) {
      LastOccurrenceIsLast(s, pat, k - 1);
    }
  }

  /** The last of the pieces `s` falls into when cut at every occurrence of
      `pat`: the text after the last occurrence, or all of it when there is
      none. */
  function AfterLast(s: string, pat: string): (r: string)
    requires pat != []
    ensures |r| <= |s|
  {
    match LastOccurrence(s, pat, |s|)
    case None => s
    case Some(i) => s[i + |pat|..]
  }

  /** The remainder is a suffix of the text that holds no occurrence of the
      separator, and it follows an occurrence whenever there is one. */
  lemma AfterLastHasNone(s: string, pat: string)
    requires pat != []
    ensures var r := AfterLast(s, pat);
      && r == s[|s| - |r|..]
      && (forall j :: 0 <= j ==> !OccursAt(r, pat, j))
      && ((exists i :: 0 <= i && OccursAt(s, pat, i)) ==> |s| - |r| >= |pat| && OccursAt(s, pat, |s| - |r| - |pat|))
  {
    var r := AfterLast(s, pat);
    var o := LastOccurrence(s, pat, |s|);
    LastOccurrenceIsLast(s, pat, |s|);
    var off := |s| - |r|;
    assert r == s[off..];
    forall j | 0 <= j ensures !OccursAt(r, pat, j) {
      if j + |pat| <= |r| {
        assert r[j..j + |pat|] == s[off + j..off + j + |pat|];
        assert !OccursAt(s, pat, off + j);
      }
    }
    if exists i :: 0 <= i && OccursAt(s, pat, i) {
      var i :| 0 <= i && OccursAt(s, pat, i);
      assert i < |s|;
      assert o.Some?;
    }
  }

  /** The one-line summary of a stored quiz: its first line and the text
      after its last "Answer:", stripped. A stored quiz with no text has no
      first line, which makes the generator fail. */
  function SummaryLine(quiz: string): (r: Option<string>)
    ensures r.None? <==> quiz == []
    ensures r.Some? ==> |r.value| >= |"Q:  A: "|
  {
    if quiz == [] then None
    else Some("Q: " + FirstLine(quiz) + " A: " + Strip(AfterLast(quiz, QuizParser.AnswerMarker)))
  }

  /** The summaries of the entries, in order; none when one of the entries
      has no text. */
  function Summaries(entries: seq<HistoryEntry>): (r: Option<seq<string>>)
    ensures r.Some? ==> |r.value| == |entries|
    decreases |entries|
  {
    if entries == [] then Some([])
    else
      var line := SummaryLine(entries[0].quiz);
      var rest := Summaries(entries[1..]);
      if line.None? || rest.None? then None else Some([line.value] + rest.value)
  }

  /** The summaries fail exactly when some entry has no text, and the i-th
      summary is that of the i-th entry. */
  lemma {:induction false} SummariesFail(entries: seq<HistoryEntry>)
    ensures Summaries(entries).None? <==> exists i :: 0 <= i < |entries| && entries[i].quiz == []
    ensures Summaries(entries).Some? ==>
      forall i :: 0 <= i < |entries| ==> Some(Summaries(entries).value[i]) == SummaryLine(entries[i].quiz)
    decreases |entries|
  {
    if entries != [] {
      var rest := entries[1..];
      SummariesFail(rest);
      assert forall i :: 1 <= i < |entries| ==> entries[i] == rest[i - 1];
      if exists i :: 0 <= i < |entries| && entries[i].quiz == [] {
        var i :| 0 <= i < |entries| && entries[i].quiz == [];
        if i > 0 {
          assert rest[i - 1].quiz == [];
        }
      }
    }
  }

  /** The generator's inputs that depend on the document and the history. */
  datatype PromptInputs = PromptInputs(content: string, historyText: string)

  /** The content and the history summary for a prompt; none when one of
      the selected past quizzes has no text (the generator then returns
      nothing). */
  function PromptContext(text: string, history: seq<HistoryEntry>, topic: string): (r: Option<PromptInputs>)
    ensures r.Some? ==> r.value.content == Truncated(text)
  {
    var lines := Summaries(RecentRelevant(history, topic));
    if lines.None? then None else Some(PromptInputs(Truncated(text), JoinLines(lines.value)))
  }

  /** The prompt context fails exactly when one of the selected entries has
      no text. */
  lemma PromptContextFails(text: string, history: seq<HistoryEntry>, topic: string)
    ensures var sel := RecentRelevant(history, topic);
      PromptContext(text, history, topic).None? <==> exists i :: 0 <= i < |sel| && sel[i].quiz == []
  {
    SummariesFail(RecentRelevant(history, topic));
  }

  /** When the prompt context exists, some entry is selected and no summary
      holds a line break, the history text reads back as one line per
      selected entry, in order: the i-th line is the i-th entry's summary. */
  lemma HistoryTextLines(text: string, history: seq<HistoryEntry>, topic: string)
    requires PromptContext(text, history, topic).Some?
    requires var lines := Summaries(RecentRelevant(history, topic));
      && lines.Some? && lines.value != []
      && forall i :: 0 <= i < |lines.value| ==> NoLineBreak(lines.value[i])
    ensures var sel := RecentRelevant(history, topic);
      var read := SplitLines(PromptContext(text, history, topic).value.historyText);
      && |read| == |sel|
      && forall i :: 0 <= i < |sel| ==> Some(read[i]) == SummaryLine(sel[i].quiz)
  {
    var sel := RecentRelevant(history, topic);
    SplitJoinLines(Summaries(sel).value);
    SummariesFail(sel);
  }

  /** What the generator returns: nothing when the prompt context fails,
      otherwise the service's reply (itself absent when the request
      failed). */
  function GeneratedQuiz(text: string, history: seq<HistoryEntry>, topic: string, reply: Option<string>): (r: Option<string>)
    ensures r.Some? <==> PromptContext(text, history, topic).Some? && reply.Some?
    ensures r.Some? ==> r == reply
  {
    if PromptContext(text, history, topic).None? then None else reply
  }

  // ---------------------------------------------------------------------
  // Deriving the topic of a document

  const TopicLength: nat := 50
  const DefaultTopic := "General"

  /** The text before the first '\n' (the first piece of a split on '\n'). */
  function FirstSegment(s: string): (r: string)
    ensures StartsWith(s, r) && '\n' !in r
    ensures |r| < |s| ==> s[|r|] == '\n'
  {
    if s == [] || s[0] == '\n' then "" else [s[0]] + FirstSegment(s[1..])
  }

  /** The topic: the first line of the document cut to TopicLength
      characters and stripped, or the default topic for an empty document. */
  function DeriveTopic(text: string): (r: string)
    ensures |r| <= TopicLength && Stripped(r)
  {
    if text == [] then DefaultTopic
    else
      var first := FirstSegment(text);
      Strip(first[..if |first| < TopicLength then |first| else TopicLength])
  }

  /** A derived topic is short, stripped and on one line. It is the first
      TopicLength characters of the document's first line (all of it when
      shorter) with exactly the surrounding whitespace removed: what comes
      before and after it in that cut is whitespace. */
  lemma DerivedTopicShape(text: string)
    requires text != []
    ensures var r := DeriveTopic(text);
      var first := FirstSegment(text);
      var cut := first[..if |first| < TopicLength then |first| else TopicLength];
      var k := StripStart(cut);
      && |r| <= TopicLength && Stripped(r) && '\n' !in r
      && k + |r| <= |cut| && r == cut[k..k + |r|]
      && AllSpace(cut[..k]) && AllSpace(cut[k + |r|..])
  {
    var first := FirstSegment(text);
    var cut := first[..if |first| < TopicLength then |first| else TopicLength];
    StripIsSlice(cut);
    assert forall c :: c in cut ==> c in first;
  }

  /** A first line that is already short and stripped is the topic itself. */
  lemma ShortLineIsTopic(text: string)
    requires text != []
    requires |FirstSegment(text)| <= TopicLength && Stripped(FirstSegment(text))
    ensures DeriveTopic(text) == FirstSegment(text)
  {
  }

  /** A document whose first line is blank gets an empty topic, not the
      default one: the default is only for an empty document. */
  lemma BlankFirstLineGivesEmptyTopic(text: string)
    requires text != [] && AllSpace(FirstSegment(text))
    ensures DeriveTopic(text) == []
  {
    var first := FirstSegment(text);
    var cut := first[..if |first| < TopicLength then |first| else TopicLength];
    assert forall i :: 0 <= i < |cut| ==> cut[i] == first[i];
    StripEmptyIffBlank(cut);
  }
}
