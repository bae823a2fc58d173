/** Quiz grading in `submitQuiz`: answers are matched positionally against
    the questions' correct options, and the share of matches becomes a
    rounded percentage with a fixed pass mark of 70. */
module Quiz {
  import opened Common
  import opened Models

  /** One element of the submitted `answers` array: a JSON number, `null`
      (also what an unanswered slot or a hole becomes in JSON), or any other
      JSON value. Numbers are modelled as integers. */
  datatype Answer = Num(n: int) | Null | NotNumber

  /** `answers[idx]`, which is `undefined` past the end of the array. */
  function AnswerAt(answers: seq<Answer>, idx: nat): Answer {
    if idx < |answers| then answers[idx] else Null
  }

  /** `typeof answer === 'number' && answer === q.correctOption`. */
  predicate IsCorrect(q: Question, answer: Answer) {
    answer.Num? && answer.n == q.correctOption
  }

  /** The number of positions `i < |questions|` answered correctly. */
  function CorrectCount(questions: seq<Question>, answers: seq<Answer>): (n: nat)
    ensures n <= |questions|
    decreases |questions|
  {
    if questions == [] then 0
    else
      var last := |questions| - 1;
      CorrectCount(questions[..last], answers) + (if IsCorrect(questions[last], AnswerAt(answers, last)) then 1 else 0)
  }

  /** The `forEach` loop of `submitQuiz` that counts correct answers. */
  method CountCorrect(questions: seq<Question>, answers: seq<Answer>) returns (correctCount: nat)
    ensures correctCount == CorrectCount(questions, answers)
  {
    correctCount := 0;
    var idx := 0;
    while idx < |questions|
      invariant 0 <= idx <= |questions|
      invariant correctCount == CorrectCount(questions[..idx], answers)
    {
      assert questions[..idx + 1][..idx] == questions[..idx];
      var answer := AnswerAt(answers, idx);
      if answer.Num? && answer.n == questions[idx].correctOption {
        correctCount := correctCount + 1;
      }
      idx := idx + 1;
    }
    assert questions[..idx] == questions;
  }

  const PassMark: nat := 70

  /** What `submitQuiz` returns. */
  datatype QuizResult = QuizResult(score: nat, passed: bool, correctCount: nat, total: nat)

  /** Grades a submission: `total > 0 ? Math.round(correct / total * 100) : 0`
      and `passed = score >= 70`. */
  function Grade(questions: seq<Question>, answers: seq<Answer>): (r: QuizResult)
    ensures r.total == |questions| && r.correctCount == CorrectCount(questions, answers) && r.correctCount <= r.total
    ensures r.total > 0 ==> r.score == RoundPercent(r.correctCount, r.total)
    ensures r.score <= 100
    ensures r.passed <==> r.score >= PassMark
    ensures r.total == 0 ==> r.score == 0 && !r.passed
  {
    var correctCount := CorrectCount(questions, answers);
    var total := |questions|;
    var score := Percent(correctCount, total);
    PercentAtMost100(correctCount, total);
    QuizResult(score, score >= PassMark, correctCount, total)
  }

  /** The grading steps of `submitQuiz`: count, then score and verdict. */
  method GradeSubmission(questions: seq<Question>, answers: seq<Answer>) returns (result: QuizResult)
    ensures result == Grade(questions, answers)
  {
    var correctCount := CountCorrect(questions, answers);
    var total := |questions|;
    var score := if total > 0 then RoundPercent(correctCount, total) else 0;
    var passed := score >= PassMark;
    result := QuizResult(score, passed, correctCount, total);
  }

  /** The attempt recorded in the progress record is a valid score entry. */
  lemma GradeIsValidEntry(lecture: Id, questions: seq<Question>, answers: seq<Answer>)
    ensures var g := Grade(questions, answers);
      ValidScoreEntry(ScoreEntry(lecture, g.score, g.passed))
  {
  }

  /** A quiz is passed exactly when the exact percentage of correct answers
      is at least 69.5, i.e. `200 * correct >= 139 * total`. */
  lemma PassedIffEnoughCorrect(questions: seq<Question>, answers: seq<Answer>)
    requires |questions| > 0
    ensures var g := Grade(questions, answers);
      g.passed <==> 200 * g.correctCount >= 139 * g.total
  {
    PercentAtLeast(CorrectCount(questions, answers), |questions|, PassMark);
  }

  /** Answering every question correctly scores 100 and passes. */
  lemma {:induction false} AllCorrectScoresFull(questions: seq<Question>, answers: seq<Answer>)
    requires |questions| > 0
    requires forall i :: 0 <= i < |questions| ==> IsCorrect(questions[i], AnswerAt(answers, i))
    ensures Grade(questions, answers) == QuizResult(100, true, |questions|, |questions|)
  {
    AllCorrectCount(questions, answers);
  }

  lemma {:induction false} AllCorrectCount(questions: seq<Question>, answers: seq<Answer>)
    requires forall i :: 0 <= i < |questions| ==> IsCorrect(questions[i], AnswerAt(answers, i))
    ensures CorrectCount(questions, answers) == |questions|
    decreases |questions|
  {
    if questions != [] {
      AllCorrectCount(questions[..|questions| - 1], answers);
    }
  }

  /** Positions whose answer is not a number (null, missing or any other
      value) never count, so a submission without numbers scores 0 and fails. */
  lemma {:induction false} NoNumbersScoresZero(questions: seq<Question>, answers: seq<Answer>)
    requires forall i :: 0 <= i < |answers| ==> !answers[i].Num?
    ensures CorrectCount(questions, answers) == 0
    ensures Grade(questions, answers).score == 0 && !Grade(questions, answers).passed
    decreases |questions|
  {
    if questions != [] {
      NoNumbersScoresZero(questions[..|questions| - 1], answers);
    }
  }

  /** Answers beyond the last question are ignored. */
  lemma {:induction false} ExtraAnswersIgnored(questions: seq<Question>, answers: seq<Answer>, extra: seq<Answer>)
    requires |answers| >= |questions|
    ensures CorrectCount(questions, answers + extra) == CorrectCount(questions, answers)
    decreases |questions|
  {
    if questions != [] {
      var last := |questions| - 1;
      assert AnswerAt(answers + extra, last) == AnswerAt(answers, last);
      ExtraAnswersIgnored(questions[..last], answers, extra);
    }
  }

  /** Changing the answer in one slot moves the count by at most one. */
  lemma {:induction false} OneSlotMovesCountByOne(questions: seq<Question>, answers: seq<Answer>, idx: nat, a: Answer)
    requires idx < |answers|
    ensures var before := CorrectCount(questions, answers);
      var after := CorrectCount(questions, answers[idx := a]);
      before - 1 <= after <= before + 1
    decreases |questions|
  {
    if questions != [] {
      var last := |questions| - 1;
      var prefix := questions[..last];
      if last != idx {
        OneSlotMovesCountByOne(prefix, answers, idx, a);
        assert AnswerAt(answers[idx := a], last) == AnswerAt(answers, last);
        var c := if IsCorrect(questions[last], AnswerAt(answers, last)) then 1 else 0;
        assert CorrectCount(questions, answers) == CorrectCount(prefix, answers) + c;
        assert CorrectCount(questions, answers[idx := a]) == CorrectCount(prefix, answers[idx := a]) + c;
      } else {
        UnchangedBelow(prefix, answers, idx, a);
      }
    }
  }

  /** The count over the questions before `idx` does not look at slot `idx`. */
  lemma {:induction false} UnchangedBelow(questions: seq<Question>, answers: seq<Answer>, idx: nat, a: Answer)
    requires idx < |answers| && |questions| <= idx
    ensures CorrectCount(questions, answers[idx := a]) == CorrectCount(questions, answers)
    decreases |questions|
  {
    if questions != [] {
      var last := |questions| - 1;
      assert AnswerAt(answers[idx := a], last) == AnswerAt(answers, last);
      UnchangedBelow(questions[..last], answers, idx, a);
    }
  }

  function Q(correctOption: nat): Question {
    Question(correctOption, "question", ["a", "b", "c", "d"], correctOption)
  }

  /** Four questions with correct options 0, 1, 2, 3: all right scores 100;
      three right scores 75 and passes; nulls score 0; no questions scores 0. */
  lemma GradeExamples()
    ensures Grade([Q(0), Q(1), Q(2), Q(3)], [Num(0), Num(1), Num(2), Num(3)]) == QuizResult(100, true, 4, 4)
    ensures Grade([Q(0), Q(1), Q(2), Q(3)], [Num(0), Num(1), Num(2), Num(2)]) == QuizResult(75, true, 3, 4)
    ensures Grade([Q(0), Q(1), Q(2), Q(3)], [Null, Null, Null, Null]) == QuizResult(0, false, 0, 4)
    ensures Grade([], []) == QuizResult(0, false, 0, 0)
  {
    var qs := [Q(0), Q(1), Q(2), Q(3)];
    assert qs[..3] == [Q(0), Q(1), Q(2)];
    assert qs[..3][..2] == [Q(0), Q(1)];
    assert qs[..3][..2][..1] == [Q(0)];
    assert qs[..3][..2][..1][..0] == [];
    var full := [Num(0), Num(1), Num(2), Num(3)];
    var three := [Num(0), Num(1), Num(2), Num(2)];
    assert CorrectCount([Q(0)], full) == 1;
    assert CorrectCount([Q(0), Q(1)], full) == 2;
    assert CorrectCount([Q(0), Q(1), Q(2)], full) == 3;
    assert CorrectCount(qs, full) == 4;
    assert CorrectCount([Q(0)], three) == 1;
    assert CorrectCount([Q(0), Q(1)], three) == 2;
    assert CorrectCount([Q(0), Q(1), Q(2)], three) == 3;
    assert CorrectCount(qs, three) == 3;
    assert RoundPercent(3, 4) == 75;
    NoNumbersScoresZero(qs, [Null, Null, Null, Null]);
  }
}
