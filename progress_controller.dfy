/** `getCourseProgress`: how many lectures of a course the student has
    completed, out of how many, as a rounded percentage. */
module ProgressController {
  import opened Common
  import opened Models
  import opened Store

  datatype ProgressSummary = ProgressSummary(completed: nat, total: nat, percent: nat)

  /** The completed list of the student's record for the course, or the empty
      list of the `{ completedLectures: [] }` stand-in when there is no record. */
  function CompletedIds(progress: map<ProgressKey, Progress>, student: Id, course: Id): seq<Id> {
    if (student, course) in progress then progress[(student, course)].completedLectures else []
  }

  /** `percent` is the nearest whole percentage (halves up), 0 for no lectures. */
  predicate RoundedShare(s: ProgressSummary) {
    && (s.total == 0 ==> s.percent == 0)
    && (s.total > 0 ==> 2 * s.total * s.percent <= 200 * s.completed + s.total < 2 * s.total * s.percent + 2 * s.total)
  }

  /** `getCourseProgress` as written: `completed` is the raw length of the
      record's list, whatever lectures it names. Reading creates no record. */
  function GetCourseProgress(courses: seq<Course>, lectures: seq<Lecture>, progress: map<ProgressKey, Progress>, student: Id, courseId: Id)
    : (r: Response<ProgressSummary>)
    ensures r.Reject? <==> forall c :: c in courses ==> c.id != courseId
    ensures r.Reject? ==> r == Reject(404, "Course not found")
    ensures r.Success? ==> && r.status == 200
                           && r.body.total == CountLectures(lectures, courseId)
                           && r.body.completed == |CompletedIds(progress, student, courseId)|
                           && RoundedShare(r.body)
    ensures !r.Forwarded?
  {
    match FindCourse(courses, courseId)
    case None => Reject(404, "Course not found")
    case Some(_) =>
      var total := CountLectures(lectures, courseId);
      var completed := |CompletedIds(progress, student, courseId)|;
      Success(200, ProgressSummary(completed, total, Percent(completed, total)))
  }

  /** Every id in the list names a current lecture of the course. */
  predicate OnlyCurrentLectures(lectures: seq<Lecture>, courseId: Id, completed: seq<Id>) {
    forall id :: id in completed ==> exists l :: l in lectures && l.course == courseId && l.id == id
  }

  /** The raw count stays within the total, and the percentage within 100, as
      long as the list is duplicate-free and names only current lectures of
      the course. */
  lemma PercentBoundedWhenCurrent(courses: seq<Course>, lectures: seq<Lecture>, progress: map<ProgressKey, Progress>, student: Id, courseId: Id)
    requires NoDuplicates(CompletedIds(progress, student, courseId))
    requires OnlyCurrentLectures(lectures, courseId, CompletedIds(progress, student, courseId))
    ensures var r := GetCourseProgress(courses, lectures, progress, student, courseId);
      r.Success? ==> r.body.completed <= r.body.total && r.body.percent <= 100
  {
    var completed := CompletedIds(progress, student, courseId);
    var ids := LectureIds(LecturesOf(lectures, courseId));
    assert Elements(completed) <= Elements(ids) by {
      forall id | id in Elements(completed) ensures id in Elements(ids) {
        var l :| l in lectures && l.course == courseId && l.id == id;
        LectureIdsHas(LecturesOf(lectures, courseId), l);
      }
    }
    SubsetSize(Elements(completed), Elements(ids));
    ElementsSize(completed);
    ElementsSize(ids);
    PercentAtMost100(|completed|, |ids|);
  }

  /** A course with one lecture whose student completed it and also a lecture
      deleted since: 2 of 1 completed, 200 percent. */
  lemma StaleCompletionsOverflow()
    ensures WellFormedProgress((2, 1), Progress(2, 1, [10, 11], []))
    ensures GetCourseProgress([Course(1, "Course", None, Some(5))], [Lecture(10, 1, "Intro", "Text", [])],
                              map[(2, 1) := Progress(2, 1, [10, 11], [])], 2, 1)
         == Success(200, ProgressSummary(2, 1, 200))
  {
    var course := Course(1, "Course", None, Some(5));
    var lecture := Lecture(10, 1, "Intro", "Text", []);
    var progress := map[(2, 1) := Progress(2, 1, [10, 11], [])];
    SingleLectureListing(lecture);
    assert CompletedIds(progress, 2, 1) == [10, 11];
    assert course in [course];
    var r := GetCourseProgress([course], [lecture], progress, 2, 1);
    assert r.body.completed == 2 && r.body.total == 1;
  }

  lemma SingleLectureListing(l: Lecture)
    ensures CountLectures([l], l.course) == 1
  {
    assert [l][..0] == [];
  }

  /** The completed lectures that are still lectures of the course. */
  function CurrentCompleted(lectures: seq<Lecture>, progress: map<ProgressKey, Progress>, student: Id, courseId: Id): (done: seq<Lecture>)
    ensures forall l :: l in done <==> l in lectures && l.course == courseId && l.id in CompletedIds(progress, student, courseId)
    ensures |done| <= CountLectures(lectures, courseId)
  {
    Filter(LecturesOf(lectures, courseId), IsCompletedIn(CompletedIds(progress, student, courseId)))
  }

  function IsCompletedIn(completed: seq<Id>): Lecture -> bool {
    (l: Lecture) => l.id in completed
  }

  /** The summary counting only completed lectures that still exist in the
      course: the percentage never exceeds 100. */
  function GetCourseProgressCurrent(courses: seq<Course>, lectures: seq<Lecture>, progress: map<ProgressKey, Progress>, student: Id, courseId: Id)
    : (r: Response<ProgressSummary>)
    ensures r.Reject? <==> forall c :: c in courses ==> c.id != courseId
    ensures r.Reject? ==> r == Reject(404, "Course not found")
    ensures r.Success? ==> && r.status == 200
                           && r.body.total == CountLectures(lectures, courseId)
                           && r.body.completed == |CurrentCompleted(lectures, progress, student, courseId)|
                           && r.body.completed <= r.body.total && r.body.percent <= 100
                           && RoundedShare(r.body)
    ensures !r.Forwarded?
  {
    match FindCourse(courses, courseId)
    case None => Reject(404, "Course not found")
    case Some(_) =>
      var total := CountLectures(lectures, courseId);
      var completed := |CurrentCompleted(lectures, progress, student, courseId)|;
      PercentAtMost100(completed, total);
      Success(200, ProgressSummary(completed, total, Percent(completed, total)))
  }

  /** Where the record names only current lectures of the course, each once,
      the corrected summary is the one the handler sends. */
  lemma CurrentAgreesWhenNoStaleIds(courses: seq<Course>, lectures: seq<Lecture>, progress: map<ProgressKey, Progress>, student: Id, courseId: Id)
    requires DistinctLectureIds(lectures)
    requires NoDuplicates(CompletedIds(progress, student, courseId))
    requires OnlyCurrentLectures(lectures, courseId, CompletedIds(progress, student, courseId))
    ensures GetCourseProgressCurrent(courses, lectures, progress, student, courseId)
         == GetCourseProgress(courses, lectures, progress, student, courseId)
  {
    var completed := CompletedIds(progress, student, courseId);
    var done := CurrentCompleted(lectures, progress, student, courseId);
    var ids := LectureIds(done);
    FilterDistinctBy(LecturesOf(lectures, courseId), IsCompletedIn(completed), LectureId);
    DistinctIdsNoDuplicates(done);
    assert Elements(ids) == Elements(completed) by {
      forall id | id in Elements(completed) ensures id in Elements(ids) {
        var l :| l in lectures && l.course == courseId && l.id == id;
        LectureIdsHas(done, l);
      }
      forall id | id in Elements(ids) ensures id in Elements(completed) {
        var k :| 0 <= k < |ids| && ids[k] == id;
        assert done[k] in done;
      }
    }
    ElementsSize(ids);
    ElementsSize(completed);
  }
}
