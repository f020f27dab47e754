/** The quiz session: the state the application keeps between button
    presses, and one method per button handler. A quiz starts from a
    non-empty parse of the service's reply; each question allows up to three
    attempts; the last question's "show results" press stores the raw reply
    in the history once; the report counts the questions answered
    correctly; a restart clears the quiz but keeps the history. */
module QuizSession {
  import opened Wrappers
  import opened Text
  import opened QuizParser
  import opened QuizGenerator

  const MaxAttempts: int := 3

  /** The latest submission for a question: the label chosen and whether it
      was the answer. */
  datatype AnswerRecord = AnswerRecord(selected: Label, correct: bool)

  /** How many of the questions below `n` have a recorded correct answer. */
  function CorrectCount(answers: map<nat, AnswerRecord>, n: nat): (c: nat)
    ensures c <= n
  {
    if n == 0 then 0
    else CorrectCount(answers, n - 1) + (if n - 1 in answers && answers[n - 1].correct then 1 else 0)
  }

  /** The questions below `n` whose recorded answer is correct. */
  function CorrectIndices(answers: map<nat, AnswerRecord>, n: nat): set<nat> {
    set i: nat | i < n && i in answers && answers[i].correct
  }

  /** The count is the number of questions answered correctly. */
  lemma {:induction false} CorrectCountIsSize(answers: map<nat, AnswerRecord>, n: nat)
    ensures CorrectCount(answers, n) == |CorrectIndices(answers, n)|
  {
    if n > 0 {
      CorrectCountIsSize(answers, n - 1);
      var prev := CorrectIndices(answers, n - 1);
      if n - 1 in answers && answers[n - 1].correct {
        assert CorrectIndices(answers, n) == prev + {n - 1};
      } else {
        assert CorrectIndices(answers, n) == prev;
      }
    }
  }

  /** Every question is answered correctly exactly when the count is
      perfect. */
  lemma {:induction false} PerfectCount(answers: map<nat, AnswerRecord>, n: nat)
    ensures CorrectCount(answers, n) == n <==> forall i: nat :: i < n ==> i in answers && answers[i].correct
  {
    if n > 0 {
      PerfectCount(answers, n - 1);
    }
  }

  /** The message band of the report, on whole numbers: 100% is perfect,
      80% or more great, 60% or more good, anything less asks for study. */
  datatype Band = Perfect | Great | Good | KeepStudying

  function ScoreBand(correct: nat, total: nat): (b: Band)
    requires 0 < total && correct <= total
    ensures b == Perfect <==> correct == total
    ensures b == Great <==> correct < total && 100 * correct >= 80 * total
    ensures b == Good <==> 100 * correct < 80 * total && 100 * correct >= 60 * total
    ensures b == KeepStudying <==> 100 * correct < 60 * total
  {
    if correct == total then Perfect
    else if 100 * correct >= 80 * total then Great
    else if 100 * correct >= 60 * total then Good
    else KeepStudying
  }

  class Session {
    var started: bool
    var complete: bool
    var questions: seq<Question>
    var index: nat
    var answers: map<nat, AnswerRecord>
    var attemptsLeft: int
    var answered: bool
    var raw: string
    var topic: string
    var difficulty: Difficulty
    /** The stored past quizzes; only ever appended to. */
    var history: seq<HistoryEntry>

    /** What holds between button presses: attempts stay within 0..3 and an
        open question has one left; answers are recorded only for existing
        questions; a started quiz has a current question; a quiz in progress
        still has its raw reply to store; every question is well formed. */
    ghost predicate Valid()
      reads this
    {
      && 0 <= attemptsLeft <= MaxAttempts
      && (!answered ==> attemptsLeft > 0)
      && (forall k :: k in answers ==> k < |questions|)
      && (started ==> 0 < |questions| && index < |questions|)
      && (started && !complete ==> raw != [])
      && (forall i :: 0 <= i < |questions| ==> WellFormed(questions[i]))
    }

    /** The quiz screen is shown: started and not complete. */
    predicate InProgress()
      reads this
    {
      started && !complete
    }

    /** The session as first set up, over the stored history. */
    constructor (stored: seq<HistoryEntry>)
      ensures Valid()
      ensures !started && !complete && questions == [] && index == 0 && answers == map[]
      ensures attemptsLeft == MaxAttempts && !answered
      ensures raw == [] && topic == DefaultTopic && difficulty == Beginner && history == stored
    {
      started, complete := false, false;
      questions, index, answers := [], 0, map[];
      attemptsLeft, answered := MaxAttempts, false;
      raw, topic, difficulty := [], DefaultTopic, Beginner;
      history := stored;
    }

    /** Starts a quiz on parsed questions: first question, no answers, three
        attempts. */
    method Begin(parsed: seq<Question>)
      requires Valid()
      requires parsed != [] && raw != []
      requires forall i :: 0 <= i < |parsed| ==> WellFormed(parsed[i])
      modifies this
      ensures Valid() && InProgress()
      ensures questions == parsed && index == 0 && answers == map[]
      ensures attemptsLeft == MaxAttempts && !answered
      ensures raw == old(raw) && topic == old(topic) && difficulty == old(difficulty) && history == old(history)
    {
      questions := parsed;
      index := 0;
      answers := map[];
      attemptsLeft := MaxAttempts;
      answered := false;
      started := true;
      complete := false;
    }

    /** The "generate" press. `document` is the extracted document text
        (none when no file was uploaded); `reply` is what the service
        returns for the prompt (none when the request fails). A blank
        document or a failed generation or parse leaves the quiz stopped;
        the raw reply is kept whenever there is one, even if it does not
        parse. */
    method Generate(document: Option<string>, chosen: Difficulty, reply: Option<string>)
      requires Valid()
      modifies this
      ensures Valid()
      ensures history == old(history)
      ensures document.None? ==> unchanged(this)
      ensures document.Some? && AllSpace(document.value) ==>
        && !started
        && complete == old(complete) && questions == old(questions) && index == old(index)
        && answers == old(answers) && attemptsLeft == old(attemptsLeft) && answered == old(answered)
        && raw == old(raw) && topic == old(topic) && difficulty == old(difficulty)
      ensures document.Some? && !AllSpace(document.value) ==>
        && topic == DeriveTopic(document.value) && difficulty == chosen
        && Received(GeneratedQuiz(document.value, old(history), topic, reply))
    {
      if document.None? {
        return;
      }
      var text := document.value;
      StripEmptyIffBlank(text);
      if Strip(text) == [] {
        started := false;
        return;
      }
      var t := DeriveTopic(text);
      topic := t;
      difficulty := chosen;
      Receive(GeneratedQuiz(text, history, t, reply));
    }

    /** The state after the generator's result `output` has been handled,
        relative to the state before: a non-empty result is kept as the raw reply; a non-empty parse of it
        starts the quiz; anything else stops the quiz and leaves the quiz
        fields alone. */
    twostate predicate Received(output: Option<string>)
      reads this
    {
      var ok := output.Some? && output.value != [];
      && history == old(history)
      && raw == (if ok then output.value else old(raw))
      && (ok && ParsedQuiz(output.value) != [] ==>
            && InProgress() && questions == ParsedQuiz(output.value) && index == 0
            && answers == map[] && attemptsLeft == MaxAttempts && !answered)
      && (!(ok && ParsedQuiz(output.value) != []) ==>
            && !started
            && complete == old(complete) && questions == old(questions) && index == old(index)
            && answers == old(answers) && attemptsLeft == old(attemptsLeft) && answered == old(answered))
    }

    /** Handles what the generator returned (the part of the "generate" press
        after the topic and difficulty are set). */
    method Receive(output: Option<string>)
      requires Valid()
      modifies this
      ensures Valid()
      ensures topic == old(topic) && difficulty == old(difficulty)
      ensures Received(output)
    {
      if output.Some? && output.value != [] {
        raw := output.value;
        var parsed := ParseQuiz(output.value);
        if parsed != [] {
          Begin(parsed);
        } else {
          started := false;
        }
      } else {
        started := false;
      }
    }

    /** An option press on the current question. Once the question is
        answered the options are disabled and nothing changes. Otherwise the
        submission replaces the recorded answer; a correct one closes the
        question, a wrong one costs an attempt and closes the question when
        none are left. */
    method Submit(choice: Label)
      requires Valid()
      modifies this
      ensures Valid()
      ensures !old(InProgress()) || old(answered) ==> unchanged(this)
      ensures old(InProgress()) && !old(answered) ==>
        var correct := choice == old(questions)[old(index)].answer;
        && answers == old(answers)[old(index) := AnswerRecord(choice, correct)]
        && (correct ==> answered && attemptsLeft == old(attemptsLeft))
        && (!correct ==> attemptsLeft == old(attemptsLeft) - 1 && (answered <==> attemptsLeft == 0))
        && started == old(started) && complete == old(complete)
        && questions == old(questions) && index == old(index)
        && raw == old(raw) && topic == old(topic) && difficulty == old(difficulty) && history == old(history)
    {
      if !InProgress() || answered {
        return;
      }
      var correct := choice == questions[index].answer;
      answers := answers[index := AnswerRecord(choice, correct)];
      if correct {
        answered := true;
      } else {
        attemptsLeft := attemptsLeft - 1;
        if attemptsLeft <= 0 {
          answered := true;
        }
      }
    }

    /** The "next question" press, offered on an answered question that is
        not the last: move on with three fresh attempts. */
    method Next()
      requires Valid()
      modifies this
      ensures Valid()
      ensures !old(InProgress() && answered && index < |questions| - 1) ==> unchanged(this)
      ensures old(InProgress() && answered && index < |questions| - 1) ==>
        && index == old(index) + 1 && attemptsLeft == MaxAttempts && !answered
        && started == old(started) && complete == old(complete)
        && questions == old(questions) && answers == old(answers)
        && raw == old(raw) && topic == old(topic) && difficulty == old(difficulty) && history == old(history)
    {
      if InProgress() && answered && index < |questions| - 1 {
        index := index + 1;
        attemptsLeft := MaxAttempts;
        answered := false;
      }
    }

    /** The "show results" press, offered on the answered last question:
        the quiz is complete and its raw reply is stored in the history
        exactly once, under the current topic and difficulty, then cleared. */
    method Finish()
      requires Valid()
      modifies this
      ensures Valid()
      ensures !old(InProgress() && answered && !(index < |questions| - 1)) ==> unchanged(this)
      ensures old(InProgress() && answered && !(index < |questions| - 1)) ==>
        && complete && raw == []
        && history == old(history) + [HistoryEntry(old(topic), old(difficulty), old(raw))]
        && started == old(started) && questions == old(questions) && index == old(index)
        && answers == old(answers) && attemptsLeft == old(attemptsLeft) && answered == old(answered)
        && topic == old(topic) && difficulty == old(difficulty)
    {
      if InProgress() && answered && !(index < |questions| - 1) {
        complete := true;
        if raw != [] {
          history := history + [HistoryEntry(topic, difficulty, raw)];
          raw := [];
        }
      }
    }

    /** The report's count: how many questions have a recorded correct
        answer, out of how many. A started quiz has at least one question,
        so the percentage is defined. */
    method Score() returns (correct: nat, total: nat)
      requires Valid()
      ensures total == |questions| && correct == CorrectCount(answers, total)
      ensures correct <= total
      ensures started ==> 0 < total
    {
      correct := 0;
      total := |questions|;
      for idx := 0 to |questions|
        invariant correct == CorrectCount(answers, idx)
      {
        if idx in answers && answers[idx].correct {
          correct := correct + 1;
        }
      }
    }

    /** The "start new quiz" press on the report: the quiz is cleared and
        stopped; the history and the remaining fields stay as they are. */
    method Restart()
      requires Valid()
      modifies this
      ensures Valid()
      ensures !old(started && complete) ==> unchanged(this)
      ensures old(started && complete) ==>
        && !started && !complete && questions == [] && answers == map[]
        && index == old(index) && attemptsLeft == old(attemptsLeft) && answered == old(answered)
        && raw == old(raw) && topic == old(topic) && difficulty == old(difficulty) && history == old(history)
    {
      if started && complete {
        started := false;
        complete := false;
        questions := [];
        answers := map[];
      }
    }
  }

  /** Some label other than `l`. */
  function OtherLabel(l: Label): (r: Label)
    ensures r != l
  {
    if l == A then B else A
  }

  /** Three wrong presses on a fresh question use up its attempts and close
      it with the last wrong choice recorded; a fourth press changes
      nothing. */
  method ExhaustAttempts(s: Session, wrong: Label)
    requires s.Valid() && s.InProgress() && !s.answered && s.attemptsLeft == MaxAttempts
    requires wrong != s.questions[s.index].answer
    modifies s
    ensures s.Valid() && s.InProgress() && s.answered && s.attemptsLeft == 0
    ensures s.answers == old(s.answers)[old(s.index) := AnswerRecord(wrong, false)]
    ensures s.started == old(s.started) && s.questions == old(s.questions) && s.index == old(s.index)
    ensures s.raw == old(s.raw) && s.topic == old(s.topic) && s.difficulty == old(s.difficulty)
    ensures s.history == old(s.history)
  {
    s.Submit(wrong);
    s.Submit(wrong);
    s.Submit(wrong);
    s.Submit(wrong);
  }

  /** A two-question quiz: the first answered right at once, the second
      wrong three times, then the results. The report counts one of two and
      the history gains one entry. */
  method TwoQuestionRun(s: Session) returns (correct: nat, total: nat)
    requires s.Valid() && s.InProgress() && |s.questions| == 2 && s.index == 0
    requires !s.answered && s.attemptsLeft == MaxAttempts && s.answers == map[]
    modifies s
    ensures correct == 1 && total == 2
    ensures s.complete && s.raw == [] && |s.history| == |old(s.history)| + 1
  {
    s.Submit(s.questions[0].answer);
    s.Next();
    ExhaustAttempts(s, OtherLabel(s.questions[1].answer));
    s.Finish();
    correct, total := s.Score();
    assert s.answers == map[0 := AnswerRecord(old(s.questions)[0].answer, true), 1 := AnswerRecord(OtherLabel(old(s.questions)[1].answer), false)];
    assert CorrectCount(s.answers, 1) == 1;
  }
}
