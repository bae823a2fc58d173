/** The student's lecture page: where its quiz questions come from, the
    answers array it starts with, and how choosing an option edits that array
    before the whole array is submitted for grading. */
module LectureView {
  import opened Common
  import opened Models
  import opened Quiz
  import opened LectureController

  /** `lec.questions || lec.quiz || []`: an array, even an empty one, is
      truthy, so `quiz` is read only when `questions` is absent. */
  function QuizQuestions<Q>(questions: Option<seq<Q>>, quiz: Option<seq<Q>>): (r: seq<Q>)
    ensures questions.Some? ==> r == questions.value
    ensures questions.None? && quiz.Some? ==> r == quiz.value
    ensures questions.None? && quiz.None? ==> r == []
  {
    if questions.Some? then questions.value
    else if quiz.Some? then quiz.value
    else []
  }

  /** A lecture sent by `getLecture` always carries `questions`, so the page
      quizzes exactly the lecture's questions, in order and with nothing about
      the correct options. */
  lemma PageQuizzesLectureQuestions(l: Lecture, quiz: Option<seq<PublicQuestion>>)
    ensures var shown := QuizQuestions(Some(HideAnswers(l).questions), quiz);
      && |shown| == |l.questions|
      && forall i :: 0 <= i < |shown| ==> shown[i].id == l.questions[i].id && shown[i].options == l.questions[i].options
  {
  }

  /** The answers after loading a lecture with `count` questions: all null,
      one per question, when there are questions; otherwise the array is left
      as it was. */
  method InitialAnswers(previous: seq<Answer>, count: nat) returns (answers: seq<Answer>)
    ensures count > 0 ==> |answers| == count && forall i :: 0 <= i < count ==> answers[i] == Null
    ensures count == 0 ==> answers == previous
  {
    if count == 0 {
      return previous;
    }
    var filled := new Answer[count];
    var i := 0;
    while i < count
      invariant 0 <= i <= count
      invariant forall j :: 0 <= j < i ==> filled[j] == Null
    {
      filled[i] := Null;
      i := i + 1;
    }
    answers := filled[..];
  }

  /** Submitting the untouched answers scores 0 and fails. */
  lemma UntouchedQuizScoresZero(questions: seq<Question>, answers: seq<Answer>)
    requires |answers| == |questions|
    requires forall i :: 0 <= i < |answers| ==> answers[i] == Null
    ensures Grade(questions, answers).score == 0 && !Grade(questions, answers).passed
  {
    NoNumbersScoresZero(questions, answers);
  }

  /** Choosing option `choice` for question `idx`: copy the array and write
      slot `idx`; writing past the end leaves holes, which are sent as null. */
  method ChooseAnswer(answers: seq<Answer>, idx: nat, choice: nat) returns (updated: seq<Answer>)
    ensures |updated| == if idx < |answers| then |answers| else idx + 1
    ensures updated[idx] == Num(choice)
    ensures forall j :: 0 <= j < |answers| && j != idx ==> updated[j] == answers[j]
    ensures forall j :: |answers| <= j < |updated| && j != idx ==> updated[j] == Null
  {
    var size := if idx < |answers| then |answers| else idx + 1;
    var copy := new Answer[size](j requires 0 <= j < size => if j < |answers| then answers[j] else Null);
    copy[idx] := Num(choice);
    updated := copy[..];
  }

  /** Choosing the option a question marks as correct makes that question
      count, and no other question's verdict changes. */
  lemma ChoosingCorrectOptionCounts(questions: seq<Question>, answers: seq<Answer>, idx: nat)
    requires idx < |questions| && idx < |answers| && questions[idx].correctOption >= 0
    ensures var updated := answers[idx := Num(questions[idx].correctOption)];
      && IsCorrect(questions[idx], AnswerAt(updated, idx))
      && forall j :: 0 <= j < |questions| && j != idx ==>
           (IsCorrect(questions[j], AnswerAt(updated, j)) <==> IsCorrect(questions[j], AnswerAt(answers, j)))
  {
  }
}
