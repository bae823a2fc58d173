/** The student's course page: the progress bar and the lecture list with its
    completed marks and locks, computed from the fetched lectures and the
    fetched list of completed lecture ids. */
module CourseDetails {
  import opened Common
  import opened Models
  import opened Store
  import opened LectureController
  import opened ProgressController

  /** `idx > completedCount`: a lecture is locked when more lectures come
      before it than the student has completed. */
  predicate IsLocked(idx: nat, completed: seq<Id>) {
    idx > |completed|
  }

  /** `completedLectures.includes(lec._id)`. */
  predicate IsCompleted(l: Lecture, completed: seq<Id>) {
    l.id in completed
  }

  datatype LectureRow = LectureRow(lecture: Lecture, completed: bool, locked: bool)

  /** What the page shows: "completed/total lectures", the percentage and one
      row per lecture, in the listing's order. */
  datatype CourseView = CourseView(completedCount: nat, total: nat, percent: nat, rows: seq<LectureRow>)

  /** The page for the fetched lectures and completed list. */
  function View(lectures: seq<Lecture>, completed: seq<Id>): (v: CourseView)
    ensures v.completedCount == |completed| && v.total == |lectures|
    ensures v.total == 0 ==> v.percent == 0
    ensures v.total > 0 ==> 2 * v.total * v.percent <= 200 * v.completedCount + v.total < 2 * v.total * v.percent + 2 * v.total
    ensures |v.rows| == |lectures|
    ensures forall i :: 0 <= i < |lectures| ==>
      v.rows[i] == LectureRow(lectures[i], lectures[i].id in completed, i > |completed|)
  {
    CourseView(|completed|, |lectures|, Percent(|completed|, |lectures|),
      seq(|lectures|, i requires 0 <= i < |lectures| =>
        LectureRow(lectures[i], IsCompleted(lectures[i], completed), IsLocked(i, completed))))
  }

  /** The first lecture is never locked, and once every lecture is completed
      none is locked and the bar is full. */
  lemma FirstRowOpen(lectures: seq<Lecture>, completed: seq<Id>)
    requires |lectures| > 0
    ensures !View(lectures, completed).rows[0].locked
    ensures |completed| == |lectures| ==>
      View(lectures, completed).percent == 100
      && forall i :: 0 <= i < |lectures| ==> !View(lectures, completed).rows[i].locked
  {
  }

  /** `res.data.completedLectures || []` on the body of `getCourseProgress`:
      that body has `completed`, `total` and `percent` and no list, so the
      fallback applies whatever the student has done. */
  function FetchedCompleted(body: ProgressSummary): (completed: seq<Id>) {
    []
  }

  /** The page as the component computes it after fetching progress. */
  function FetchedView(lectures: seq<Lecture>, body: ProgressSummary): CourseView {
    View(lectures, FetchedCompleted(body))
  }

  /** Whatever the server reports, the page shows 0 of n completed, 0 %,
      no completed mark, and every lecture after the first locked. */
  lemma FetchedProgressIsIgnored(lectures: seq<Lecture>, body: ProgressSummary)
    ensures var v := FetchedView(lectures, body);
      && v.completedCount == 0 && v.percent == 0
      && forall i :: 0 <= i < |lectures| ==> !v.rows[i].completed && (v.rows[i].locked <==> i > 0)
  {
  }

  /** The page fed with the student's own completed list, the one the
      server keeps in the progress record. */
  function RecordView(lectures: seq<Lecture>, progress: map<ProgressKey, Progress>, student: Id, courseId: Id): (v: CourseView)
    ensures v.completedCount == |CompletedIds(progress, student, courseId)| && v.total == CountLectures(lectures, courseId)
    ensures |v.rows| == v.total
    ensures forall i :: 0 <= i < |v.rows| ==> v.rows[i].lecture == LecturesOf(lectures, courseId)[i]
    ensures forall i :: 0 <= i < |v.rows| ==>
      && v.rows[i].lecture.course == courseId
      && (v.rows[i].completed <==> v.rows[i].lecture.id in CompletedIds(progress, student, courseId))
      && (v.rows[i].locked <==> i > |CompletedIds(progress, student, courseId)|)
  {
    View(LecturesOf(lectures, courseId), CompletedIds(progress, student, courseId))
  }

  /** For a student who completed the course's first k lectures in order, the
      page fed with the record locks exactly the lectures the server-side
      sequential gate refuses. */
  lemma RecordViewMatchesGate(lectures: seq<Lecture>, progress: map<ProgressKey, Progress>, student: Id, courseId: Id, k: nat, idx: nat)
    requires DistinctLectureIds(lectures)
    requires k <= |LecturesOf(lectures, courseId)| && idx < |LecturesOf(lectures, courseId)|
    requires CompletedIds(progress, student, courseId) == LectureIds(LecturesOf(lectures, courseId)[..k])
    ensures var cl := LecturesOf(lectures, courseId);
      RecordView(lectures, progress, student, courseId).rows[idx].locked
      <==> CanAccessLecture(lectures, progress, student, cl[idx].id) != Allowed
  {
    var cl := LecturesOf(lectures, courseId);
    var done := LectureIds(cl[..k]);
    if idx == 0 {
      FirstLectureAlwaysOpen(lectures, progress, student, courseId);
    } else {
      LaterLectureNeedsPredecessor(lectures, progress, student, courseId, idx);
      if idx - 1 < k {
        assert done[idx - 1] == cl[idx - 1].id;
      }
    }
  }

  /** The page fed with the record shows the percentage `getCourseProgress`
      sends for the same record. */
  lemma RecordViewMatchesServerPercent(courses: seq<Course>, lectures: seq<Lecture>, progress: map<ProgressKey, Progress>, student: Id, courseId: Id)
    requires GetCourseProgress(courses, lectures, progress, student, courseId).Success?
    ensures RecordView(lectures, progress, student, courseId).percent
         == GetCourseProgress(courses, lectures, progress, student, courseId).body.percent
  {
  }
}
