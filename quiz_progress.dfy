/**
 * The progression of the quiz screen: a fixed, non-empty bank of questions,
 * a current question index and a running score. Answering compares the
 * selected option text with the question's answer by exact equality, adds
 * one to the score on a match, and then either moves to the next question
 * or, on the last one, finishes with the pair (score, number of questions).
 *
 * The score handed on when the quiz finishes is the score as it was before
 * the last answer was judged: the screen schedules the score update and
 * builds the result from the value it rendered with. The score field itself
 * is still updated. The index stays on the last question once the quiz has
 * finished, and nothing stops a further answer from being submitted.
 */
module QuizProgress {
  import OptionRows

  /** One entry of the question bank. Nothing requires `answer` to be one of
      the `options`. */
  datatype Question = Question(question: string, options: seq<string>, answer: string)

  /** The two pieces of screen state: the current index and the score. */
  datatype State = State(current: nat, score: nat)

  /** What one answer leads to: stay on the screen with the next question,
      or hand (score, total) on to the score screen. */
  datatype Outcome = Continue | Finished(score: nat, total: nat)

  /** The state the screen starts in. */
  const Initial: State := State(0, 0)

  /** The index points into the bank; this holds in every reachable state. */
  predicate InBank(bank: seq<Question>, s: State)
  {
    s.current < |bank|
  }

  /** Before the quiz has finished the score never exceeds the number of
      questions already answered. */
  predicate Consistent(bank: seq<Question>, s: State)
  {
    InBank(bank, s) && s.score <= s.current
  }

  /** Whether a selection counts as correct: exact text equality. */
  predicate IsCorrect(q: Question, selected: string)
  {
    selected == q.answer
  }

  /** One answer, as the screen's handler performs it. */
  function Next(bank: seq<Question>, s: State, selected: string): (r: (State, Outcome))
    requires InBank(bank, s)
    ensures InBank(bank, r.0)
  {
    var newScore := if IsCorrect(bank[s.current], selected) then s.score + 1 else s.score;
    var nextQuestion := s.current + 1;
    if nextQuestion < |bank| then (State(nextQuestion, newScore), Continue)
    else (State(s.current, newScore), Finished(s.score, |bank|))
  }

  /** The single-step laws of the handler: the score rises by exactly one on
      an exact match and is unchanged otherwise (a selection that is not an
      option is simply wrong); the index advances by one while there is a
      next question, whatever the answer; on the last question the index
      stays and the outcome is the pre-step score out of the bank size. */
  lemma NextLaws(bank: seq<Question>, s: State, selected: string)
    requires InBank(bank, s)
    ensures var (t, o) := Next(bank, s, selected);
      && (selected == bank[s.current].answer ==> t.score == s.score + 1)
      && (selected != bank[s.current].answer ==> t.score == s.score)
      && (s.current + 1 < |bank| ==> t.current == s.current + 1 && o == Continue)
      && (s.current + 1 >= |bank| ==> t.current == s.current && o == Finished(s.score, |bank|))
  {
  }

  /** The starting state keeps the score within the number of questions
      answered. */
  lemma InitialConsistent(bank: seq<Question>)
    requires |bank| >= 1
    ensures Consistent(bank, Initial)
  {
  }

  /** Every step that does not finish keeps the score within the number of
      questions answered. */
  lemma ContinuePreservesConsistent(bank: seq<Question>, s: State, selected: string)
    requires Consistent(bank, s)
    ensures Next(bank, s, selected).1 == Continue ==> Consistent(bank, Next(bank, s, selected).0)
  {
  }

  /** The number of selections that match the answers of the questions they
      were given for, question i receiving selection i. */
  function Matches(bank: seq<Question>, selections: seq<string>): (n: nat)
    requires |selections| <= |bank|
    ensures n <= |selections|
  {
    if selections == [] then 0
    else
      var k := |selections| - 1;
      Matches(bank, selections[..k]) + (if IsCorrect(bank[k], selections[k]) then 1 else 0)
  }

  /** The screen driven from its starting state by a sequence of answers:
      the final state and the outcome of each answer, in order. */
  function Play(bank: seq<Question>, selections: seq<string>): (r: (State, seq<Outcome>))
    requires |bank| >= 1
    ensures InBank(bank, r.0) && |r.1| == |selections|
  {
    if selections == [] then (Initial, [])
    else
      var k := |selections| - 1;
      var (s, outcomes) := Play(bank, selections[..k]);
      var (t, o) := Next(bank, s, selections[k]);
      (t, outcomes + [o])
  }

  /** After k answers that do not finish the quiz, the index is k and the
      score is the number of those answers that matched; every one of them
      continued, and the score stays within the number answered. */
  lemma {:induction false} PlayBeforeEnd(bank: seq<Question>, selections: seq<string>)
    requires |selections| < |bank|
    ensures Play(bank, selections).0 == State(|selections|, Matches(bank, selections))
    ensures forall i :: 0 <= i < |selections| ==> Play(bank, selections).1[i] == Continue
    ensures Consistent(bank, Play(bank, selections).0)
  {
    if selections != [] {
      var k := |selections| - 1;
      PlayBeforeEnd(bank, selections[..k]);
    }
  }

  /** Answering every question in order: the last answer finishes the quiz
      with the bank size as total, all earlier ones continue, the index is
      left on the last question, and the reported score counts only the
      first |bank| - 1 answers, so it is at most |bank| - 1, while the score
      held in the state counts all of them. */
  lemma {:induction false} PlayToEnd(bank: seq<Question>, selections: seq<string>)
    requires |bank| >= 1 && |selections| == |bank|
    ensures var n := |bank|;
      var (s, outcomes) := Play(bank, selections);
      && (forall i :: 0 <= i < n - 1 ==> outcomes[i] == Continue)
      && outcomes[n - 1] == Finished(Matches(bank, selections[..n - 1]), n)
      && outcomes[n - 1].score <= n - 1
      && s == State(n - 1, Matches(bank, selections))
  {
    var n := |bank|;
    PlayBeforeEnd(bank, selections[..n - 1]);
    assert selections[..n][..n - 1] == selections[..n - 1];
  }

  /** The number of selections equal to the answer of the last question. */
  function RepeatsOfLast(bank: seq<Question>, later: seq<string>): (n: nat)
    requires |bank| >= 1
    ensures n <= |later|
  {
    if later == [] then 0
    else
      var k := |later| - 1;
      RepeatsOfLast(bank, later[..k]) + (if IsCorrect(bank[|bank| - 1], later[k]) then 1 else 0)
  }

  /** Answers keep being accepted once the quiz has finished: the index
      stays on the last question, every answer from the last question on
      re-judges that question, and each of them finishes again with the
      bank size as total and the score as it stood before that answer. */
  lemma {:induction false} PlayPastEnd(bank: seq<Question>, selections: seq<string>)
    requires |bank| >= 1 && |selections| >= |bank|
    ensures var n, m := |bank|, |selections|;
      var before := Matches(bank, selections[..n - 1]);
      && Play(bank, selections).0 == State(n - 1, before + RepeatsOfLast(bank, selections[n - 1..]))
      && Play(bank, selections).1[m - 1] == Finished(before + RepeatsOfLast(bank, selections[n - 1..m - 1]), n)
  {
    var n, m := |bank|, |selections|;
    var k := m - 1;
    if m == n {
      PlayBeforeEnd(bank, selections[..k]);
      assert selections[n - 1..m - 1] == [];
      assert selections[n - 1..][..0] == [];
    } else {
      PlayPastEnd(bank, selections[..k]);
      assert selections[..k][..n - 1] == selections[..n - 1];
      assert selections[..k][n - 1..] == selections[n - 1..k];
      assert selections[n - 1..][..k - (n - 1)] == selections[n - 1..k];
      assert selections[n - 1..][k - (n - 1)] == selections[k];
    }
  }

  /** A one-question quiz answered correctly twice: the first answer
      reports 0 of 1, the repeated one 1 of 1, and the state's score is 2. */
  lemma RepeatedFinalAnswer()
    ensures var bank := [Question("Q", ["A", "B"], "A")];
      Play(bank, ["A", "A"]) == (State(0, 2), [Finished(0, 1), Finished(1, 1)])
  {
    var bank := [Question("Q", ["A", "B"], "A")];
    PlayPastEnd(bank, ["A", "A"]);
    FinalAnswerNotReported();
    assert ["A", "A"][..1] == ["A"];
    assert [Finished(0, 1)] + [Finished(1, 1)] == [Finished(0, 1), Finished(1, 1)];
  }

  /** The last answer never reaches the reported score: a one-question quiz
      answered correctly reports 0 out of 1. */
  lemma FinalAnswerNotReported()
    ensures var bank := [Question("Q", ["A", "B"], "A")];
      Play(bank, ["A"]) == (State(0, 1), [Finished(0, 1)])
  {
    var none: seq<Outcome> := [];
    assert ["A"][..0] == [];
    assert none + [Finished(0, 1)] == [Finished(0, 1)];
  }

  /** Two-question runs: right then wrong reports 1 of 2; wrong then right
      reports 0 of 2, since the right answer was the last one. */
  lemma TwoQuestionRuns()
    ensures var bank := [Question("Q1", ["A", "B"], "A"), Question("Q2", ["C", "D"], "D")];
      && Play(bank, ["A", "C"]) == (State(1, 1), [Continue, Finished(1, 2)])
      && Play(bank, ["B", "D"]) == (State(1, 1), [Continue, Finished(0, 2)])
  {
    var none: seq<Outcome> := [];
    assert none + [Continue] == [Continue];
    assert [Continue] + [Finished(1, 2)] == [Continue, Finished(1, 2)];
    assert [Continue] + [Finished(0, 2)] == [Continue, Finished(0, 2)];
    assert ["A", "C"][..1] == ["A"] && ["A"][..0] == [];
    assert ["B", "D"][..1] == ["B"] && ["B"][..0] == [];
  }

  /** The quiz screen's state: the bank it reads and the two fields its
      handler updates. */
  class QuizScreen {
    const bank: seq<Question>
    var currentQuestion: nat
    var score: nat

    ghost predicate Valid()
      reads this
    {
      |bank| >= 1 && InBank(bank, Snapshot())
    }

    /** The fields as a value. */
    function Snapshot(): State
      reads this
    {
      State(currentQuestion, score)
    }

    /** The screen opens at the first question with no score. */
    constructor (bank: seq<Question>)
      requires |bank| >= 1
      ensures Valid() && this.bank == bank
      ensures currentQuestion == 0 && score == 0
    {
      this.bank := bank;
      currentQuestion := 0;
      score := 0;
    }

    /** The answer handler. The score update is applied in both branches;
        the finish branch reports the score read before it. */
    method HandleAnswer(selectedAnswer: string) returns (outcome: Outcome)
      requires Valid()
      modifies this
      ensures Valid()
      ensures score == old(score) + (if selectedAnswer == bank[old(currentQuestion)].answer then 1 else 0)
      ensures old(currentQuestion) + 1 < |bank| ==>
        currentQuestion == old(currentQuestion) + 1 && outcome == Continue
      ensures old(currentQuestion) + 1 >= |bank| ==>
        currentQuestion == old(currentQuestion) && outcome == Finished(old(score), |bank|)
      ensures (Snapshot(), outcome) == Next(bank, old(Snapshot()), selectedAnswer)
    {
      var currentAnswer := bank[currentQuestion].answer;
      var renderedScore := score;
      if selectedAnswer == currentAnswer {
        score := renderedScore + 1;
      }
      var nextQuestion := currentQuestion + 1;
      if nextQuestion < |bank| {
        currentQuestion := nextQuestion;
        outcome := Continue;
      } else {
        outcome := Finished(renderedScore, |bank|);
      }
    }

    /** The options of the current question laid out in rows of two. */
    method RenderOptions() returns (rows: seq<seq<string>>)
      requires Valid()
      ensures rows == OptionRows.Chunks(bank[currentQuestion].options)
      ensures OptionRows.Flatten(rows) == bank[currentQuestion].options
    {
      rows := OptionRows.GroupRows(bank[currentQuestion].options);
      OptionRows.FlattenChunks(bank[currentQuestion].options);
    }
  }
}
