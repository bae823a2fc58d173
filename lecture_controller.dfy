/** The lecture handlers: authoring (add, update, delete), reading a lecture
    with its answers hidden, the sequential-unlock gate, marking a lecture
    completed and submitting a quiz. */
module LectureController {
  import opened Common
  import opened Models
  import opened Roles
  import opened Store
  import opened Quiz

  // ----- Authoring -----

  /** The `questions` field of a request body: an array, or anything else. */
  datatype QuestionsField = QuestionArray(items: seq<Question>) | NotArray

  /** The requester is the course's instructor; a course without one is owned
      by nobody. */
  predicate Owns(course: Course, requester: AuthUser) {
    course.instructor == Some(requester.id)
  }

  function OrEmpty(field: Option<string>): string {
    if field.Some? then field.value else ""
  }

  /** The document `addLecture` asks Mongoose to create: `content || ''`, and
      `questions` only when it is an array. A missing title is stored as the
      empty string, which the `required` check treats the same way. */
  function NewLecture(id: Id, course: Id, title: Option<string>, content: Option<string>, questions: QuestionsField): (l: Lecture)
    ensures l.id == id && l.course == course
    ensures l.content == if Truthy(content) then content.value else ""
    ensures l.questions == if questions.QuestionArray? then questions.items else []
  {
    Lecture(id, course, OrEmpty(title),
            if Truthy(content) then content.value else "",
            if questions.QuestionArray? then questions.items else [])
  }

  /** The `content || ''` fallback produces a lecture that fails the schema's
      `required` check, so a lecture without content is never stored. */
  lemma NoContentNeverValid(id: Id, course: Id, title: Option<string>, content: Option<string>, questions: QuestionsField)
    requires !Truthy(content)
    ensures !ValidLecture(NewLecture(id, course, title, content, questions))
  {
  }

  /** `addLecture` (instructor of the course only). */
  method AddLecture(courses: CourseCollection, lectures: LectureCollection, requester: AuthUser,
                    courseId: Id, title: Option<string>, content: Option<string>, questions: QuestionsField)
    returns (r: Response<Lecture>)
    requires lectures.Valid()
    modifies lectures
    ensures lectures.Valid()
    ensures FindCourse(courses.docs, courseId).None? ==>
      r == Reject(404, "Course not found") && lectures.docs == old(lectures.docs)
    ensures FindCourse(courses.docs, courseId).Some? && !Owns(FindCourse(courses.docs, courseId).value, requester) ==>
      r == Reject(403, "Not allowed") && lectures.docs == old(lectures.docs)
    ensures FindCourse(courses.docs, courseId).Some? && Owns(FindCourse(courses.docs, courseId).value, requester) ==>
      var l := NewLecture(old(lectures.nextId), courseId, title, content, questions);
      if ValidLecture(l) then r == Success(201, l) && lectures.docs == old(lectures.docs) + [l]
      else r == Forwarded("ValidationError") && lectures.docs == old(lectures.docs)
  {
    var course := FindCourse(courses.docs, courseId);
    if course.None? {
      return Reject(404, "Course not found");
    }
    if !Owns(course.value, requester) {
      return Reject(403, "Not allowed");
    }
    var created := lectures.Create(courseId, OrEmpty(title),
                                   if Truthy(content) then content.value else "",
                                   if questions.QuestionArray? then questions.items else []);
    if created.None? {
      return Forwarded("ValidationError");
    }
    r := Success(201, created.value);
  }

  /** The merge of `updateLecture`: `title ?? lecture.title`,
      `content ?? lecture.content`, and the new questions only when they are
      an array. An empty string is not null, so it does replace. */
  function MergeLecture(l: Lecture, title: Option<string>, content: Option<string>, questions: QuestionsField): (r: Lecture)
    ensures r.id == l.id && r.course == l.course
    ensures r.title == if title.Some? then title.value else l.title
    ensures r.content == if content.Some? then content.value else l.content
    ensures r.questions == if questions.QuestionArray? then questions.items else l.questions
  {
    l.(title := if title.Some? then title.value else l.title,
       content := if content.Some? then content.value else l.content,
       questions := if questions.QuestionArray? then questions.items else l.questions)
  }

  /** An update that sends nothing changes nothing, and sending the same
      update twice is the same as sending it once. */
  lemma MergeNeutralAndIdempotent(l: Lecture, title: Option<string>, content: Option<string>, questions: QuestionsField)
    ensures MergeLecture(l, None, None, NotArray) == l
    ensures MergeLecture(MergeLecture(l, title, content, questions), title, content, questions)
         == MergeLecture(l, title, content, questions)
  {
  }

  /** `updateLecture` (instructor of the course only). */
  method UpdateLecture(courses: CourseCollection, lectures: LectureCollection, requester: AuthUser,
                       courseId: Id, lectureId: Id, title: Option<string>, content: Option<string>, questions: QuestionsField)
    returns (r: Response<Lecture>)
    requires lectures.Valid()
    modifies lectures
    ensures lectures.Valid()
    ensures FindCourse(courses.docs, courseId).None? ==>
      r == Reject(404, "Course not found") && lectures.docs == old(lectures.docs)
    ensures FindCourse(courses.docs, courseId).Some? && !Owns(FindCourse(courses.docs, courseId).value, requester) ==>
      r == Reject(403, "Not allowed") && lectures.docs == old(lectures.docs)
    ensures FindCourse(courses.docs, courseId).Some? && Owns(FindCourse(courses.docs, courseId).value, requester) ==>
      var found := FindLectureInCourse(old(lectures.docs), lectureId, courseId);
      if found.None? then r == Reject(404, "Lecture not found") && lectures.docs == old(lectures.docs)
      else
        var l := MergeLecture(found.value, title, content, questions);
        if ValidLecture(l) then r == Success(200, l) && lectures.docs == ReplaceLecture(old(lectures.docs), l)
        else r == Forwarded("ValidationError") && lectures.docs == old(lectures.docs)
  {
    var course := FindCourse(courses.docs, courseId);
    if course.None? {
      return Reject(404, "Course not found");
    }
    if !Owns(course.value, requester) {
      return Reject(403, "Not allowed");
    }
    var found := FindLectureInCourse(lectures.docs, lectureId, courseId);
    if found.None? {
      return Reject(404, "Lecture not found");
    }
    var lecture := MergeLecture(found.value, title, content, questions);
    var saved := lectures.Save(lecture);
    if !saved {
      return Forwarded("ValidationError");
    }
    r := Success(200, lecture);
  }

  /** The ownership-checked `deleteLecture` of the lecture handlers. */
  method DeleteLecture(courses: CourseCollection, lectures: LectureCollection, requester: AuthUser,
                       courseId: Id, lectureId: Id)
    returns (r: Response<string>)
    requires lectures.Valid()
    modifies lectures
    ensures lectures.Valid()
    ensures FindLectureInCourse(old(lectures.docs), lectureId, courseId).None? ==>
      r == Reject(404, "Lecture not found") && lectures.docs == old(lectures.docs)
    ensures FindLectureInCourse(old(lectures.docs), lectureId, courseId).Some? && FindCourse(courses.docs, courseId).None? ==>
      r == Reject(404, "Course not found") && lectures.docs == old(lectures.docs)
    ensures FindLectureInCourse(old(lectures.docs), lectureId, courseId).Some? && FindCourse(courses.docs, courseId).Some? ==>
      if Owns(FindCourse(courses.docs, courseId).value, requester)
      then r == Success(200, "Lecture deleted successfully") && lectures.docs == WithoutLecture(old(lectures.docs), lectureId)
      else r == Reject(403, "Not allowed") && lectures.docs == old(lectures.docs)
  {
    var lecture := FindLectureInCourse(lectures.docs, lectureId, courseId);
    if lecture.None? {
      return Reject(404, "Lecture not found");
    }
    var course := FindCourse(courses.docs, courseId);
    if course.None? {
      return Reject(404, "Course not found");
    }
    if !Owns(course.value, requester) {
      return Reject(403, "Not allowed");
    }
    lectures.DeleteOne(lectureId);
    r := Success(200, "Lecture deleted successfully");
  }

  // ----- Reading a lecture -----

  /** `getLectures`: the course's lectures in creation order, sent whole,
      correct options included. */
  function GetLectures(lectures: seq<Lecture>, course: Id): (r: Response<seq<Lecture>>)
    ensures r.Success? && r.status == 200
    ensures forall l :: l in r.body <==> l in lectures && l.course == course
  {
    Success(200, LecturesOf(lectures, course))
  }

  /** A question as `getLecture` sends it: `_id`, `text` and `options`. The
      type has no place for the correct option. */
  datatype PublicQuestion = PublicQuestion(id: Id, text: string, options: seq<string>)

  datatype PublicLecture = PublicLecture(id: Id, course: Id, title: string, content: string, questions: seq<PublicQuestion>)

  /** The projection of `getLecture`: every question loses `correctOption`. */
  function HideAnswers(l: Lecture): (r: PublicLecture)
    ensures r.id == l.id && r.course == l.course && r.title == l.title && r.content == l.content
    ensures |r.questions| == |l.questions|
    ensures forall i :: 0 <= i < |r.questions| ==>
      r.questions[i] == PublicQuestion(l.questions[i].id, l.questions[i].text, l.questions[i].options)
  {
    PublicLecture(l.id, l.course, l.title, l.content,
      seq(|l.questions|, i requires 0 <= i < |l.questions| =>
        PublicQuestion(l.questions[i].id, l.questions[i].text, l.questions[i].options)))
  }

  /** Same lecture up to the correct options of its questions. */
  predicate SameButAnswers(a: Lecture, b: Lecture) {
    && a.id == b.id && a.course == b.course && a.title == b.title && a.content == b.content
    && |a.questions| == |b.questions|
    && forall i :: 0 <= i < |a.questions| ==>
         a.questions[i].id == b.questions[i].id && a.questions[i].text == b.questions[i].text
         && a.questions[i].options == b.questions[i].options
  }

  /** Nothing about the correct options leaks: two lectures that differ only
      in their correct options are sent identically. */
  lemma HiddenAnswersDoNotLeak(a: Lecture, b: Lecture)
    requires SameButAnswers(a, b)
    ensures HideAnswers(a) == HideAnswers(b)
  {
    assert HideAnswers(a).questions == HideAnswers(b).questions;
  }

  /** `getLecture`. */
  function GetLecture(lectures: seq<Lecture>, id: Id): (r: Response<PublicLecture>)
    ensures r.Reject? <==> forall l :: l in lectures ==> l.id != id
    ensures r.Reject? ==> r == Reject(404, "Lecture not found")
    ensures r.Success? ==> r.status == 200 && exists l :: l in lectures && l.id == id && r.body == HideAnswers(l)
    ensures !r.Forwarded?
  {
    match FindLecture(lectures, id)
    case None => Reject(404, "Lecture not found")
    case Some(l) => Success(200, HideAnswers(l))
  }

  // ----- Sequential unlock -----

  datatype Access = Allowed | Denied(status: nat, message: string)

  /** `findIndex` by id: the first position holding the id, or -1. */
  function IndexOfLecture(lectures: seq<Lecture>, id: Id): (i: int)
    ensures -1 <= i < |lectures|
    ensures i >= 0 ==> lectures[i].id == id && forall j :: 0 <= j < i ==> lectures[j].id != id
    ensures i == -1 ==> forall j :: 0 <= j < |lectures| ==> lectures[j].id != id
  {
    if lectures == [] then -1
    else if lectures[0].id == id then 0
    else
      var k := IndexOfLecture(lectures[1..], id);
      if k < 0 then -1 else k + 1
  }

  /** `canAccessLecture`: the first lecture of a course (in creation order)
      is open; a later one only once the lecture just before it is in the
      student's completed list. This check is not mounted in front of any
      route. */
  function CanAccessLecture(lectures: seq<Lecture>, progress: map<ProgressKey, Progress>, student: Id, lectureId: Id): (a: Access)
    ensures a == Denied(404, "Lecture not found") <==> forall l :: l in lectures ==> l.id != lectureId
    ensures a != Allowed ==> a == Denied(404, "Lecture not found") || a == Denied(403, "Complete previous lecture first.")
  {
    match FindLecture(lectures, lectureId)
    case None => Denied(404, "Lecture not found")
    case Some(lecture) =>
      var courseLectures := LecturesOf(lectures, lecture.course);
      assert lecture in courseLectures;
      var lectureIndex := IndexOfLecture(courseLectures, lecture.id);
      if lectureIndex == 0 then Allowed
      else
        var record := FindProgress(progress, student, lecture.course);
        if record.None? || courseLectures[lectureIndex - 1].id !in record.value.completedLectures
        then Denied(403, "Complete previous lecture first.")
        else Allowed
  }

  /** The gate locates the lecture at position `idx` of its course's list. */
  lemma GatePosition(lectures: seq<Lecture>, course: Id, idx: nat)
    requires DistinctLectureIds(lectures) && idx < |LecturesOf(lectures, course)|
    ensures var cl := LecturesOf(lectures, course);
      && cl[idx].course == course
      && FindLecture(lectures, cl[idx].id) == Some(cl[idx])
      && IndexOfLecture(cl, cl[idx].id) == idx
  {
    var cl := LecturesOf(lectures, course);
    assert cl[idx] in cl;
    FindLectureUnique(lectures, cl[idx]);
  }

  /** The first lecture of every course is open, whatever the progress. */
  lemma FirstLectureAlwaysOpen(lectures: seq<Lecture>, progress: map<ProgressKey, Progress>, student: Id, course: Id)
    requires DistinctLectureIds(lectures) && |LecturesOf(lectures, course)| > 0
    ensures CanAccessLecture(lectures, progress, student, LecturesOf(lectures, course)[0].id) == Allowed
  {
    GatePosition(lectures, course, 0);
  }

  /** A later lecture is open exactly when the student has a progress record
      for the course that lists the lecture just before it as completed. */
  lemma LaterLectureNeedsPredecessor(lectures: seq<Lecture>, progress: map<ProgressKey, Progress>, student: Id, course: Id, idx: nat)
    requires DistinctLectureIds(lectures) && 0 < idx < |LecturesOf(lectures, course)|
    ensures var cl := LecturesOf(lectures, course);
      CanAccessLecture(lectures, progress, student, cl[idx].id)
      == if (student, course) in progress && cl[idx - 1].id in progress[(student, course)].completedLectures
         then Allowed
         else Denied(403, "Complete previous lecture first.")
  {
    GatePosition(lectures, course, idx);
  }

  // ----- Completion -----

  /** The student's record for the course, or the empty one `completeLecture`
      and `submitQuiz` create when there is none. */
  function ProgressOrEmpty(docs: map<ProgressKey, Progress>, student: Id, course: Id): (p: Progress)
    ensures (student, course) in docs ==> p == docs[(student, course)]
    ensures (student, course) !in docs ==> p == EmptyProgress(student, course)
  {
    if (student, course) in docs then docs[(student, course)] else EmptyProgress(student, course)
  }

  /** The record of the pair, created empty when there is none: the
      `findOne(...) || create(...)` both handlers start with. */
  method LoadProgress(progress: ProgressCollection, student: Id, course: Id) returns (p: Progress)
    requires progress.Valid()
    modifies progress
    ensures progress.Valid()
    ensures p == ProgressOrEmpty(old(progress.docs), student, course)
    ensures WellFormedProgress((student, course), p)
    ensures progress.docs == old(progress.docs)[(student, course) := p]
  {
    var existing := FindProgress(progress.docs, student, course);
    if existing.None? {
      p := progress.Create(student, course);
    } else {
      p := existing.value;
    }
  }

  /** Adds the lecture to the completed list unless it is already there. */
  function RecordCompletion(p: Progress, lecture: Id): (r: Progress)
    ensures r.student == p.student && r.course == p.course && r.scores == p.scores
    ensures p.completedLectures <= r.completedLectures
    ensures forall x :: x in r.completedLectures <==> x in p.completedLectures || x == lecture
    ensures NoDuplicates(p.completedLectures) ==> NoDuplicates(r.completedLectures)
  {
    if lecture in p.completedLectures then p
    else p.(completedLectures := p.completedLectures + [lecture])
  }

  /** Completing a lecture twice is the same as completing it once, and
      afterwards the lecture is listed exactly once. */
  lemma CompletionIdempotent(p: Progress, lecture: Id)
    requires NoDuplicates(p.completedLectures)
    ensures RecordCompletion(RecordCompletion(p, lecture), lecture) == RecordCompletion(p, lecture)
    ensures multiset(RecordCompletion(p, lecture).completedLectures)[lecture] == 1
  {
    NoDuplicatesOccursOnce(RecordCompletion(p, lecture).completedLectures, lecture);
  }

  /** `completeLecture`. */
  method CompleteLecture(lectures: LectureCollection, progress: ProgressCollection, student: Id, lectureId: Id)
    returns (r: Response<string>)
    requires progress.Valid()
    modifies progress
    ensures progress.Valid()
    ensures FindLecture(lectures.docs, lectureId).None? ==>
      r == Reject(404, "Lecture not found") && progress.docs == old(progress.docs)
    ensures FindLecture(lectures.docs, lectureId).Some? ==>
      var l := FindLecture(lectures.docs, lectureId).value;
      && r == Success(200, "Lecture marked as completed")
      && progress.docs == old(progress.docs)[(student, l.course) :=
           RecordCompletion(ProgressOrEmpty(old(progress.docs), student, l.course), l.id)]
  {
    var found := FindLecture(lectures.docs, lectureId);
    if found.None? {
      return Reject(404, "Lecture not found");
    }
    var lecture := found.value;
    var p := LoadProgress(progress, student, lecture.course);
    if lecture.id !in p.completedLectures {
      p := p.(completedLectures := p.completedLectures + [lecture.id]);
      progress.Save(p);
    }
    r := Success(200, "Lecture marked as completed");
  }

  /** Completing any lecture never closes a lecture that was open. */
  lemma CompletionNeverLocks(lectures: seq<Lecture>, progress: map<ProgressKey, Progress>, student: Id, course: Id, done: Id, lectureId: Id)
    requires CanAccessLecture(lectures, progress, student, lectureId) == Allowed
    ensures var key := (student, course);
      var after := progress[key := RecordCompletion(ProgressOrEmpty(progress, student, course), done)];
      CanAccessLecture(lectures, after, student, lectureId) == Allowed
  {
    var after := progress[(student, course) := RecordCompletion(ProgressOrEmpty(progress, student, course), done)];
    var lecture := FindLecture(lectures, lectureId).value;
    var cl := LecturesOf(lectures, lecture.course);
    assert lecture in cl;
    var k := IndexOfLecture(cl, lecture.id);
    if k != 0 {
      var before := FindProgress(progress, student, lecture.course);
      assert before.Some? && cl[k - 1].id in before.value.completedLectures;
      var now := FindProgress(after, student, lecture.course);
      assert now.Some? && cl[k - 1].id in now.value.completedLectures;
    }
  }

  /** Completing the lecture at position `idx - 1` opens the one at `idx`. */
  lemma CompletingPredecessorUnlocks(lectures: seq<Lecture>, progress: map<ProgressKey, Progress>, student: Id, course: Id, idx: nat)
    requires DistinctLectureIds(lectures) && 0 < idx < |LecturesOf(lectures, course)|
    ensures var cl := LecturesOf(lectures, course);
      var after := progress[(student, course) := RecordCompletion(ProgressOrEmpty(progress, student, course), cl[idx - 1].id)];
      CanAccessLecture(lectures, after, student, cl[idx].id) == Allowed
  {
    var cl := LecturesOf(lectures, course);
    var after := progress[(student, course) := RecordCompletion(ProgressOrEmpty(progress, student, course), cl[idx - 1].id)];
    LaterLectureNeedsPredecessor(lectures, after, student, course, idx);
  }

  // ----- Quiz submission -----

  /** The `answers` field of a submission: an array, or anything else. */
  datatype AnswersField = AnswerArray(items: seq<Answer>) | NotAnArray

  /** Appends one attempt; earlier attempts and the completed list stay. */
  function RecordAttempt(p: Progress, entry: ScoreEntry): (r: Progress)
    ensures r.student == p.student && r.course == p.course
    ensures r.completedLectures == p.completedLectures
    ensures |r.scores| == |p.scores| + 1 && r.scores[..|p.scores|] == p.scores && r.scores[|p.scores|] == entry
  {
    p.(scores := p.scores + [entry])
  }

  /** Two submissions leave two attempts, in order; neither replaces the other. */
  lemma AttemptsAccumulate(p: Progress, first: ScoreEntry, second: ScoreEntry)
    ensures RecordAttempt(RecordAttempt(p, first), second).scores == p.scores + [first, second]
  {
  }

  /** `submitQuiz`. */
  method SubmitQuiz(lectures: LectureCollection, progress: ProgressCollection, student: Id, lectureId: Id, answers: AnswersField)
    returns (r: Response<QuizResult>)
    requires progress.Valid()
    modifies progress
    ensures progress.Valid()
    ensures answers.NotAnArray? ==>
      r == Reject(400, "Answers must be an array") && progress.docs == old(progress.docs)
    ensures answers.AnswerArray? && FindLecture(lectures.docs, lectureId).None? ==>
      r == Reject(404, "Lecture not found") && progress.docs == old(progress.docs)
    ensures answers.AnswerArray? && FindLecture(lectures.docs, lectureId).Some? ==>
      var l := FindLecture(lectures.docs, lectureId).value;
      var g := Grade(l.questions, answers.items);
      && r == Success(200, g)
      && progress.docs == old(progress.docs)[(student, l.course) :=
           RecordAttempt(ProgressOrEmpty(old(progress.docs), student, l.course), ScoreEntry(l.id, g.score, g.passed))]
  {
    if answers.NotAnArray? {
      return Reject(400, "Answers must be an array");
    }
    var found := FindLecture(lectures.docs, lectureId);
    if found.None? {
      return Reject(404, "Lecture not found");
    }
    var lecture := found.value;
    var result := GradeSubmission(lecture.questions, answers.items);
    var p := LoadProgress(progress, student, lecture.course);
    var entry := ScoreEntry(lecture.id, result.score, result.passed);
    GradeIsValidEntry(lecture.id, lecture.questions, answers.items);
    p := RecordAttempt(p, entry);
    progress.Save(p);
    r := Success(200, result);
  }
}
