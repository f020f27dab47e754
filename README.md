# AI Tutor quiz core, modelled in Dafny

The AI Tutor is a Streamlit exam-practice application. A student uploads a
textbook PDF and picks a difficulty. The application asks a text-generation
service for five multiple-choice questions. It parses the free-text reply
into question records and then runs an interactive quiz: three attempts per
question, a "next" button, a results report, and a quiz history stored on
disk.

This project models the three parts of `app.py` that carry the logic:

- **The quiz text parser** (`parse_quiz`, modules `QuizParser` and
  `QuizParserProperties`, file `parser.dfy`). The reply is cut into blocks
  at `Question:` markers. A marker counts only at the start of the text or
  right after a `\n`; the whitespace and an optional `N.` ordinal after it
  are dropped. Each block is cut into trimmed, non-empty lines. In those
  lines the parser finds the last `Options:`, `Answer:` and `Explanation:`
  lines, collects the `X. text` options, reads the answer letter from the
  line after `Answer:`, and joins the explanation lines. A block becomes a
  record only when it has a question, four options, an answer and an
  explanation. The parsing loops are methods (`ParseQuiz`, `ParseBlock`,
  `ParseLines`, `ScanMarkers`, `CollectOptions`). Each one is proved equal to
  a specification function (`ParsedQuiz`, `ParsedBlock`, `LinesRecord`,
  `LastIndex`, `OptionsOf`), and the properties are proved about those
  functions.
- **The prompt-input policy** of `generate_quiz`, plus topic derivation
  (module `QuizGenerator`, file `generator.dfy`). The textbook text is cut to
  15000 characters, and a marker is appended when something was cut. The
  history is filtered to the current topic and the last ten entries are
  kept. Each kept entry is summarised as `Q: <first line> A: <text after the
  last "Answer:">`. A stored quiz with no text makes the generator fail. The
  topic is the document's first line, cut to 50 characters and stripped.
- **The quiz session** kept in Streamlit's session state (class
  `QuizSession.Session`, file `session.dfy`). There is one method per button
  handler: generate (which starts a quiz on a non-empty parse), option press,
  next question, show results, the report's count, and start over. `Valid()`
  is the invariant every handler preserves.

`render.dfy` (module `QuizRender`) writes a record in the block layout the
parser accepts for the prompt's template. The question follows
`Question: `, and the answer letter and the explanation go on the lines after
`Answer:` and `Explanation:`. It proves that the block parser reads such a
block back unchanged.
It also writes whole replies: each record's block follows `Question: `, and
the blocks are joined by `\n`. It proves that `parse_quiz` cuts such a reply
back into exactly those blocks and returns exactly those records, in order
(`ParseRenderedReply`). This holds for every record a reply can carry
(`QuizRenderable`):

- the question, every option and the explanation are non-empty, stripped
  and on one line;
- the question text does not begin with an ordinal `digits.`;
- the explanation does not begin with `Question:`, `Options:`, `Answer:` or
  `Explanation:`.

`text.dfy` (module `Text`) holds the string helpers: `strip`, line
splitting and joining, and prefix tests. `wrappers.dfy` holds `Option`.

## Model

| member | source | states |
|---|---|---|
| `Text.Strip` | app.py:83 | the result has no whitespace at either end and is never longer than the text |
| `Text.StripStripped` | app.py:140 | a text with no whitespace at either end strips to itself |
| `Text.StripEmptyIffBlank` | app.py:75 | stripping leaves nothing exactly when the text is all whitespace (the `if block.strip()` and `if line.strip()` filters) |
| `Text.StripIsSlice` | app.py:414 | the stripped text is a contiguous slice of the original, and what lies before and after it is whitespace |
| `Text.SplitLines` | app.py:83 | a split into the pieces between line breaks always yields at least one piece |
| `Text.CleanLines` | app.py:83 | the `if line.strip()` filter over stripped pieces: what is kept is non-empty and stripped, never more than the pieces; `CleanLinesAppend` and `CleanLinesOne` state which pieces are kept |
| `Text.CleanLinesAppend` | app.py:83 | cleaning works piece by piece and keeps order: cleaning two runs of pieces gives the two cleaned runs, concatenated |
| `Text.CleanLinesOne` | app.py:83 | a piece is dropped exactly when it is all whitespace, and otherwise kept stripped |
| `Text.Lines` | app.py:83 | every line a block yields is non-empty and stripped; the lines are the cleaned pieces of the stripped block, so `CleanLinesAppend` and `CleanLinesOne` say that every non-blank piece gives its stripped text, in order |
| `Text.JoinLines` | app.py:140 | `'\n'.join`; it has no contract of its own: `SplitJoinLines` and `JoinLinesStripped` state what it gives |
| `Text.SplitLinesBreakFree` | app.py:83 | no piece of a line split holds a line break |
| `Text.FirstLine` | app.py:196 | the first line is a break-free prefix of the text that ends at the first line break |
| `Text.SplitJoinLines` | app.py:140 | splitting lines joined with `\n` gives the lines back |
| `Text.JoinLinesStripped` | app.py:140 | joining non-empty stripped lines gives a non-empty stripped text, so the explanation's final strip changes nothing |
| `QuizParser.FourKeysAreAllLabels` | app.py:149 | an options map with four keys drawn from A-D has every label as a key |
| `QuizParser.SkipSpaces` | app.py:75 | the regex's `\s*`: the position reached is past whitespace only and stops at a non-space or the end |
| `QuizParser.SkipDigits` | app.py:75 | the regex's `\d+`: the position reached is past digits only and stops at a non-digit or the end |
| `QuizParser.SkipOrdinal` | app.py:75 | the optional `\d+\.\s*`: the position stays put exactly when no `digits.` starts there; otherwise it passes the digits, the `.` and all the whitespace after it, stopping at a non-space or the end |
| `QuizParser.MarkerEnd` | app.py:75 | a separator starts at `i` exactly when `Question:` stands at offset 0 (for `i` = 0) or right after a `\n` at `i`; it then ends after the marker, within the text |
| `QuizParser.Separators` | app.py:75 | the separators the scan finds are in order, do not overlap and lie within the text |
| `QuizParser.Between` | app.py:75 | the text around the separators comes in one more piece than there are separators |
| `QuizParser.Pieces` | app.py:75 | `re.split` gives one more piece than the separators it finds |
| `QuizParser.NonBlank` | app.py:75 | the blank-piece filter never yields more pieces than it is given; `NonBlankAppend` and `NonBlankCounts` state which pieces are kept |
| `QuizParser.NonBlankAppend` | app.py:75 | the filter works piece by piece and keeps order: filtering two runs of pieces gives the two filtered runs, concatenated |
| `QuizParser.NonBlankCounts` | app.py:75 | each piece with a non-whitespace character is kept as often as it occurs, and each all-whitespace piece never |
| `QuizParser.Blocks` | app.py:75 | no block of a reply is all whitespace |
| `QuizParser.BlocksAreNonBlankPieces` | app.py:75 | the blocks are exactly the non-blank pieces of the stripped reply: each is a block as often as it occurs as a piece, and no blank piece is a block |
| `QuizParser.BlocksHaveLines` | app.py:75-86 | every block holds a non-whitespace character and so yields at least one line; the parser's skip for a block without lines never fires |
| `QuizParser.NonBlankIsNotBlank` | app.py:75 | every kept piece has a non-whitespace character (the converse, that every such piece is kept, is `NonBlankCounts`) |
| `QuizParser.LastIndex` | app.py:97-101 | the index a marker scan keeps is a line of the block |
| `QuizParser.LastIndexIsLast` | app.py:97-101 | the marker index is a line with that prefix and no later line has it; there is none exactly when no line has the prefix |
| `QuizParser.MarkersExclusive` | app.py:99-101 | no line starts with two different markers, so the order of the `elif` chain does not matter |
| `QuizParser.OptionLine` | app.py:109-111 | a line is an option line exactly when it starts with a letter A-D and a `.`; its text is the rest, stripped |
| `QuizParser.OptionsOf` | app.py:106-111 | the options loop; it has no contract of its own: `OptionsOfLastWins` states its keys and texts and `CollectOptions` the loop that computes it |
| `QuizParser.BlockOptions` | app.py:105-111 | options are read only when both an `Options:` line and an `Answer:` line exist |
| `QuizParser.AnswerLabel` | app.py:123-129 | an answer line names a label exactly when it is a letter A-D followed by `.` or standing alone |
| `QuizParser.BlockAnswer` | app.py:116-129 | an answer is read only when there is an `Answer:` line |
| `QuizParser.TextAfterLast` | app.py:136-140 | the text after the last marker line is stripped, and it is non-empty only when that line exists and is not the last line |
| `QuizParser.BlockExplanation` | app.py:136-140 | the explanation is stripped, and it is non-empty only when there is an `Explanation:` line |
| `QuizParser.Validated` | app.py:147-159 | a record is made exactly when the question, four options, an answer and an explanation are all present, and it is then well formed |
| `QuizParser.LinesRecord` | app.py:88-159 | a record made from a block's lines is well formed |
| `QuizParser.ParsedBlock` | app.py:83-159 | a record made from a block is well formed |
| `QuizParser.ScanMarkers` | app.py:92-101 | the scan loop leaves the last index of each marker, or -1, with the options starting one line after their marker |
| `QuizParser.CollectOptions` | app.py:106-111 | the fill loop builds exactly the options map the option lines specify |
| `QuizParser.ExplanationAt` | app.py:137-140 | the explanation computed from the scanned index is the specified one |
| `QuizParser.ParseLines` | app.py:88-159 | parsing the lines of a block gives the specified record or none |
| `QuizParser.ParseBlock` | app.py:83-86 | parsing a block gives the specified record or none |
| `QuizParser.Present` | app.py:153-159 | the appended records are never more than the blocks tried |
| `QuizParser.PresentWellFormed` | app.py:148-159 | every appended record is well formed |
| `QuizParser.Accepted` | app.py:79-176 | there are never more records than blocks |
| `QuizParser.ParsedQuiz` | app.py:71-176 | never more records than blocks, and every record is well formed |
| `QuizParser.AcceptedWellFormed` | app.py:148-159 | every record kept from a run of blocks is well formed |
| `QuizParser.AcceptedStep` | app.py:153-159 | each block appends its record, if it has one, after those of the earlier blocks |
| `QuizParser.ParseQuiz` | app.py:71-176 | the parsing loop returns exactly the specified records |
| `QuizParserProperties.RecordKeysAreAllLabels` | app.py:149-153 | a kept record's option keys are exactly A, B, C, D, so its answer is always an option key |
| `QuizParserProperties.OptionsOfLastWins` | app.py:106-111 | a label has an option exactly when some option line names it, and its text is that of the last such line |
| `QuizParserProperties.ParsedBlockAccepts` | app.py:97-159 | a block is kept exactly when the last `Options:` comes before the last `Answer:`, four labels lie between them, the next line names a label, and a line follows the last `Explanation:`; the record is then the first line, those options, that label, and the later lines joined by `\n` |
| `QuizParserProperties.ExplanationJoined` | app.py:137-151 | over trimmed lines the explanation is empty exactly when no line follows the last `Explanation:` line |
| `QuizParserProperties.ExplanationFollows` | app.py:137-140 | over trimmed lines the explanation is the later lines joined by `\n`, with nothing left to strip |
| `QuizParserProperties.JoinedTailStripped` | app.py:140 | the trimmed lines after a position join into a non-empty text that stripping leaves unchanged |
| `QuizParserProperties.AcceptedAppend` | app.py:79-173 | the records of two runs of blocks are the records of each, in order; a bad block never affects another block's record |
| `QuizParserProperties.PresentAppend` | app.py:153-159 | appending records over two runs of blocks gives the records of each run, in order |
| `QuizParserProperties.BetweenRebuilds` | app.py:75 | the pieces with each separator's text put back between neighbours rebuild the text |
| `QuizParserProperties.BetweenAt` | app.py:75 | each piece is exactly the text from the end of the separator before it to the start of the one after it |
| `QuizParserProperties.SeparatorsLeaveGaps` | app.py:75 | the scan misses no separator: none starts inside any piece |
| `QuizParserProperties.GapHasNoSeparator` | app.py:75 | text without a separator start holds no `\n` followed by `Question:`, and at the start of the reply it does not begin with `Question:` |
| `QuizParserProperties.SeparatorsAreMatches` | app.py:75 | every cut the scan records is a match of the separator pattern: a separator starts at its start and ends at its end |
| `QuizParserProperties.PiecesSplit` | app.py:75 | the block split as `re.split` makes it: every cut is a match of the pattern, no match starts between two cuts (so the matches are leftmost and do not overlap), and the pieces and the cuts' text rebuild the stripped reply; so no piece holds a `\n` followed by `Question:`, and the first piece does not start with `Question:` |
| `QuizGenerator.Truncated` | app.py:183-186 | the text is kept whole when it has at most 15000 characters; otherwise its first 15000 are kept and followed by the marker; the result exceeds 15000 characters exactly when the text does |
| `QuizGenerator.Relevant` | app.py:189-192 | the filter never keeps more entries than are stored |
| `QuizGenerator.RelevantOnTopic` | app.py:189-192 | every selected history entry has the requested topic |
| `QuizGenerator.RelevantAppend` | app.py:189-192 | filtering keeps stored order: the filter of two runs is the two filters concatenated |
| `QuizGenerator.RelevantCounts` | app.py:189-192 | each entry on the topic is kept as often as it is stored, and entries on other topics never |
| `QuizGenerator.LastN` | app.py:193 | the `[-10:]` slice: the last `n` elements in order, or all of them when there are fewer |
| `QuizGenerator.RecentRelevant` | app.py:189-193 | at most ten entries are summarised |
| `QuizGenerator.RecentAfterStore` | app.py:189-193 | storing a quiz on another topic leaves the selection alone; storing one on the topic appends it to the window and drops the oldest beyond ten |
| `QuizGenerator.LastOccurrence` | app.py:196 | the position found is before the search bound and leaves room for the separator |
| `QuizGenerator.LastOccurrenceIsLast` | app.py:196 | the separator occurs at the position found and at no later position; none is found exactly when there is no occurrence |
| `QuizGenerator.AfterLast` | app.py:196 | the text after the last `Answer:` is never longer than the quiz |
| `QuizGenerator.AfterLastHasNone` | app.py:196 | `split('Answer:')[-1]` is a suffix of the quiz that holds no `Answer:`, and it directly follows an `Answer:` whenever the quiz has one |
| `QuizGenerator.SummaryLine` | app.py:196 | a stored quiz has a summary exactly when it is not empty (an empty one has no first line) |
| `QuizGenerator.Summaries` | app.py:195-198 | there is one summary per selected entry |
| `QuizGenerator.SummariesFail` | app.py:195-198 | the summaries fail exactly when some selected entry is empty; otherwise the i-th summary is that of the i-th entry |
| `QuizGenerator.PromptContext` | app.py:182-198 | the prompt's content is the truncated text |
| `QuizGenerator.PromptContextFails` | app.py:182-198 | the prompt inputs fail exactly when one of the last ten entries on the topic has no text |
| `QuizGenerator.HistoryTextLines` | app.py:194-198 | when the summaries exist, some entry is selected and no summary holds a line break, the history text splits back into one line per selected entry, the i-th being that entry's summary. A quiz stored in the layout the parser accepts fails the condition: its text after the last `Answer:` runs on into the explanation lines |
| `QuizGenerator.GeneratedQuiz` | app.py:300-309 | the generator returns a quiz exactly when its prompt inputs exist and the service replies, and it is then that reply |
| `QuizGenerator.FirstSegment` | app.py:414 | `split("\n")[0]`: a prefix of the text without `\n` that ends at the first `\n` |
| `QuizGenerator.DeriveTopic` | app.py:414 | a topic has at most 50 characters and no whitespace at either end; `DerivedTopicShape` states which text it is |
| `QuizGenerator.DerivedTopicShape` | app.py:414 | a document's topic is the first 50 characters of its first line (all of it when shorter) with exactly the surrounding whitespace removed: it is a slice of that cut, only whitespace lies before and after it, and it has no `\n` and no whitespace at either end |
| `QuizGenerator.ShortLineIsTopic` | app.py:414 | a first line that is short and stripped is the topic itself |
| `QuizGenerator.BlankFirstLineGivesEmptyTopic` | app.py:414 | a document whose first line is blank gets an empty topic, not "General" |
| `QuizSession.CorrectCount` | app.py:583-605 | the count of correct answers among the first `n` questions is at most `n` |
| `QuizSession.CorrectCountIsSize` | app.py:583-605 | the count is the number of question indices whose recorded answer is correct |
| `QuizSession.PerfectCount` | app.py:619-621 | the count equals the number of questions exactly when every question has a correct recorded answer |
| `QuizSession.ScoreBand` | app.py:619-631 | the report's message bands as whole-number comparisons: perfect at 100%, great from 80%, good from 60%, otherwise keep studying |
| `QuizSession.Session.Valid` | app.py:350-372 | the invariant of the session state: attempts within 0..3 and an open question with one left, answers only for existing questions, a started quiz has a current question, a quiz in progress has its raw reply, every question well formed; it has no contract of its own, the constructor and every handler's `ensures` keep it |
| `QuizSession.Session.constructor` | app.py:350-372 | the initial session: not started, no questions or answers, three attempts, empty raw reply, topic "General", difficulty Beginner |
| `QuizSession.Session.Begin` | app.py:425-434 | starting resets to the first question with no answers and three attempts, in progress |
| `QuizSession.Session.Generate` | app.py:409-448 | no upload changes nothing; a blank document only stops the quiz; otherwise it sets the topic and difficulty, then handles the generator's result |
| `QuizSession.Session.Receive` | app.py:420-443 | a non-empty result is kept as the raw reply; a non-empty parse starts the quiz on the parsed records; anything else stops the quiz and leaves the other fields alone |
| `QuizSession.Session.Submit` | app.py:526-546 | nothing changes when no quiz is in progress or the question is answered; otherwise the choice is recorded; a correct one closes the question and a wrong one costs an attempt, closing the question exactly when none are left; `Valid()` (attempts in 0..3) is preserved |
| `QuizSession.Session.Next` | app.py:559-567 | on an answered question that is not the last, it moves to the next one with three attempts; the index stays in bounds; otherwise nothing changes |
| `QuizSession.Session.Finish` | app.py:568-577 | on the answered last question, it completes the quiz and appends exactly one history entry (topic, difficulty, raw reply) and clears the reply; otherwise nothing changes |
| `QuizSession.Session.Score` | app.py:583-611 | the report loop counts the questions with a correct recorded answer, at most the number of questions, which is positive for a started quiz |
| `QuizSession.Session.Restart` | app.py:649-655 | on the report, it clears questions and answers and stops the quiz; the history and the other fields are untouched |
| `QuizSession.ExhaustAttempts` | app.py:526-546 | three wrong presses on a fresh question use up its attempts and close it with the last wrong choice recorded; a fourth press changes nothing |
| `QuizSession.TwoQuestionRun` | app.py:526-611 | one right answer and one question missed three times give a count of 1 of 2, and the history gains one entry |
| `QuizRender.RenderLines` | app.py:244-253 | the template's eight marker lines filled in the way the parser accepts it: ten lines, with the answer letter and the explanation on lines of their own |
| `QuizRender.ParseRendered` | app.py:83-159 | a record with one-line texts, written in the layout the parser accepts, parses back to itself |
| `QuizRender.RenderedBlockLines` | app.py:83 | splitting, trimming and dropping blank lines of a rendered block gives back exactly the ten rendered lines |
| `QuizRender.MarkerPositions` | app.py:97-101 | in that layout the last marker lines are lines 1, 6 and 8 |
| `QuizRender.RenderedFields` | app.py:97-143 | the options, answer letter and explanation read off the rendered lines are the record's own |
| `QuizRender.RenderedOptions` | app.py:106-111 | the four option lines of that layout give back the record's options |
| `QuizRender.ExplanationOnMarkerLineRejected` | app.py:136-151 | when the last line starts with `Explanation:`, no line follows it, so the explanation is empty and no record is made |
| `QuizRender.SameLineFillRejected` | app.py:116-151 | the template filled in on the marker lines themselves (`Answer: B`, `Explanation: because`) is rejected: no answer label is read, since the line after `Answer:` is the `Explanation:` line, and no record is made |
| `QuizRender.FourOptionLines` | app.py:106-111 | four option lines "A. a" to "D. d" in order read as the map from A, B, C, D to a, b, c, d |
| `QuizRender.RenderBlocks` | app.py:244-252 | one block per record |
| `QuizRender.ParseRenderedReply` | app.py:71-176 | a reply holding renderable records, each block after `Question: ` and the blocks joined by `\n`, parses back to exactly those records, in order |
| `QuizRender.ReplyBlocks` | app.py:75 | a reply written from separable blocks splits back into exactly those blocks, none dropped as blank |
| `QuizRender.ReplySeparators` | app.py:75 | the separators of such a reply are `Question: ` at the start and one `\nQuestion: ` before each further block, each ending where its block begins |
| `QuizRender.TailSeparators` | app.py:75 | from a position past the start, the scan of the later blocks finds exactly one `\nQuestion: ` separator per block |
| `QuizRender.TailPieces` | app.py:75 | the pieces between those separators are the blocks themselves |
| `QuizRender.NonBlankSeparable` | app.py:75 | the blank-piece filter keeps every separable block |
| `QuizRender.FirstSeparator` | app.py:75 | `Question: ` at the start of the reply, followed by a separable block, is a separator that ends where the block begins |
| `QuizRender.NextSeparator` | app.py:75 | `\nQuestion: ` further on, followed by a separable block, is a separator that ends where the block begins |
| `QuizRender.SeparatorTail` | app.py:75 | after the separator's space, the `\s*` and the optional ordinal skip nothing of a separable block |
| `QuizRender.BlockGap` | app.py:75 | no separator starts inside a separable block that is followed by the end or a line break |
| `QuizRender.SeparatorsFound` | app.py:75 | where a separator starts, the scan records it and resumes at its end |
| `QuizRender.SeparatorsSkip` | app.py:75 | the scan passes over text where no separator starts |
| `QuizRender.RenderedSeparable` | app.py:75 | the block of a renderable record is cut out whole by the split |
| `QuizRender.RenderedBlockShape` | app.py:75 | a record's block is non-empty and stripped, starts with the question text and a line break, and holds no `\n` followed by `Question:` |
| `QuizRender.JoinedNoSeparator` | app.py:75 | break-free lines, none after the first starting with `Question:`, join into a text with no `\n` followed by `Question:` |
| `QuizRender.AcceptedRendered` | app.py:79-173 | the blocks of renderable records yield exactly those records, in order |

Facts the model makes explicit:

- A quiz in progress always has a raw reply to store, because
  `started && !complete ==> raw != ""` is part of `Valid()`. So the
  `if raw_quiz_output` guard in the results handler (app.py:574) always
  holds, and finishing appends exactly one history entry.
- Start over (app.py:649-655) does not reset the question index, the
  attempts or the answered flag. These only matter again after the next
  start, which resets them.
- The history text in the prompt (app.py:194-198) is not one line per
  entry for quizzes in the layout the parser accepts. The summary's
  `split('Answer:')[-1].strip()` (app.py:196) keeps everything after the
  last `Answer:`: the letter line, then the `Explanation:` lines. So the
  explanations run into the history block. `HistoryTextLines` gives one
  line per entry only when no summary holds a line break.
- The prompt's template (app.py:243-252) lists only the marker lines, and
  only one way of filling it in parses. The answer letter and the
  explanation must go on the lines after `Answer:` and `Explanation:`,
  because the parser reads `lines[answer_idx + 1]` and the lines after the
  last `Explanation:` (app.py:118-140). A reply that writes them on the
  marker lines yields no record (`SameLineFillRejected`,
  `ExplanationOnMarkerLineRejected`).
- A failed generation stops the quiz but keeps the old questions and
  answers in the session state (app.py:437-446).

## Left out

- Streamlit rendering, CSS, the progress bar, the per-option report
  markings and the feedback radio button (`feedback_given`): these are
  presentation only.
- The request to the text-generation service, its headers and response
  decoding, and the API-key setup: the reply is a parameter
  (`reply: Option<string>`, none for any failure) of `Session.Generate`.
- PDF text extraction: the extracted text is a parameter (`document`, none
  when no file was uploaded).
- Loading and saving the JSON history file: the history is the `history`
  field, loaded once when the session is built, and only ever appended to.
  `Session.Generate` reads it as the loaded history.
- The `datetime.now()` timestamp of a history entry: it is a clock read.
- The prompt's fixed prose, the difficulty guidelines, and the "No relevant
  history found." fallback: these are constant text looked up by
  difficulty.
- The float percentage and its formatting: `ScoreBand` states the bands as
  integer comparisons. This assumes that float rounding agrees with exact
  arithmetic at the 80% and 60% thresholds.
- Debug printing, tracebacks and the per-block `try/except`: the modelled
  parser is total, so nothing needs catching.
- Python's Unicode `strip()` and `splitlines()`: whitespace is the six
  characters space, `\t`, `\n`, `\r`, `\v`, `\f`. Line breaks are `\n` and
  `\r`, and each break character separates a line. A `\r\n` pair therefore
  yields one extra empty piece, which the blank-line filter removes, so the
  trimmed lines agree. The ordinal's `\d` in the split pattern (app.py:75)
  matches any Unicode decimal digit; `IsDigit` accepts only `0` to `9`.
- Python's `split('Answer:')` cuts at non-overlapping occurrences from the
  left. The model takes the text after the last occurrence; the two agree
  because `Answer:` cannot overlap itself.
- Dictionary order of the options: the options are a map. The report lists
  them in insertion order, which the model does not track.
