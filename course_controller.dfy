/** The course handlers: creating a course, reading one with its lecture
    count, the catalog and "my course" queries, and the two deletions (a
    course with all its lectures, and one lecture of a course). */
module CourseController {
  import opened Common
  import opened Models
  import opened Roles
  import opened Store
  import LectureController

  /** `createCourse`: the requester becomes the course's instructor. */
  method CreateCourse(courses: CourseCollection, requester: AuthUser, title: Option<string>, description: Option<string>)
    returns (r: Response<Course>)
    requires courses.Valid()
    modifies courses
    ensures courses.Valid()
    ensures !Truthy(title) ==> r == Reject(400, "Title is required") && courses.docs == old(courses.docs)
    ensures Truthy(title) ==>
      var c := Course(old(courses.nextId), title.value, description, Some(requester.id));
      && r == Success(201, c)
      && courses.docs == old(courses.docs) + [c]
      && LectureController.Owns(c, requester) && !IsCatalog(c)
  {
    if !Truthy(title) {
      return Reject(400, "Title is required");
    }
    var course := courses.Create(title.value, description, Some(requester.id));
    r := Success(201, course);
  }

  /** The body of `getCourse` and `getMyCourse`. */
  datatype CourseSummary = CourseSummary(course: Course, lectureCount: nat)

  /** `getCourse`. */
  function GetCourse(courses: seq<Course>, lectures: seq<Lecture>, id: Id): (r: Response<CourseSummary>)
    ensures r.Reject? <==> forall c :: c in courses ==> c.id != id
    ensures r.Reject? ==> r == Reject(404, "Course not found")
    ensures r.Success? ==> && r.status == 200 && r.body.course in courses && r.body.course.id == id
                           && r.body.lectureCount == CountLectures(lectures, id)
    ensures !r.Forwarded?
  {
    match FindCourse(courses, id)
    case None => Reject(404, "Course not found")
    case Some(c) => Success(200, CourseSummary(c, CountLectures(lectures, c.id)))
  }

  /** Adding a lecture to a course raises that course's `lectureCount` by one
      and leaves every other course's count alone. */
  lemma LectureCountFollowsCreate(courses: seq<Course>, lectures: seq<Lecture>, l: Lecture, id: Id)
    requires GetCourse(courses, lectures, id).Success?
    ensures GetCourse(courses, lectures + [l], id).Success?
    ensures GetCourse(courses, lectures + [l], id).body.lectureCount
         == GetCourse(courses, lectures, id).body.lectureCount + (if l.course == id then 1 else 0)
  {
    CountAfterCreate(lectures, l, id);
  }

  /** `getCatalog`: the courses no instructor is assigned to. */
  function GetCatalog(courses: seq<Course>): (r: seq<Course>)
    ensures forall c :: c in r <==> c in courses && IsCatalog(c)
    ensures |r| <= |courses|
  {
    Filter(courses, IsCatalog)
  }

  /** A course created through `createCourse` never shows in the catalog,
      and the catalog of a store grows only by catalog courses. */
  lemma {:induction false} CatalogAfterCreate(courses: seq<Course>, c: Course)
    ensures GetCatalog(courses + [c]) == GetCatalog(courses) + (if IsCatalog(c) then [c] else [])
  {
    FilterAppend(courses, [c], IsCatalog);
    assert [c][..0] == [];
  }

  /** `getMyCourse`: the first course the requester is the instructor of. */
  function GetMyCourse(courses: seq<Course>, lectures: seq<Lecture>, requester: AuthUser): (r: Response<CourseSummary>)
    ensures r.Reject? <==> forall c :: c in courses ==> !LectureController.Owns(c, requester)
    ensures r.Reject? ==> r == Reject(404, "No course assigned to this instructor")
    ensures r.Success? ==> && r.status == 200 && r.body.course in courses
                           && LectureController.Owns(r.body.course, requester)
                           && r.body.lectureCount == CountLectures(lectures, r.body.course.id)
    ensures !r.Forwarded?
  {
    match FindCourseByInstructor(courses, requester.id)
    case None => Reject(404, "No course assigned to this instructor")
    case Some(c) => Success(200, CourseSummary(c, CountLectures(lectures, c.id)))
  }

  /** `deleteCourse`: the course and every lecture of it go; progress records
      are not touched, and whoever passes the Instructor guard may delete any
      course. */
  method DeleteCourse(courses: CourseCollection, lectures: LectureCollection, courseId: Id)
    returns (r: Response<string>)
    requires courses.Valid() && lectures.Valid()
    modifies courses, lectures
    ensures courses.Valid() && lectures.Valid()
    ensures FindCourse(old(courses.docs), courseId).None? ==>
      && r == Reject(404, "Course not found")
      && courses.docs == old(courses.docs) && lectures.docs == old(lectures.docs)
    ensures FindCourse(old(courses.docs), courseId).Some? ==>
      && r == Success(200, "Course deleted successfully")
      && courses.docs == WithoutCourse(old(courses.docs), courseId)
      && lectures.docs == WithoutCourseLectures(old(lectures.docs), courseId)
  {
    var course := FindCourse(courses.docs, courseId);
    if course.None? {
      return Reject(404, "Course not found");
    }
    lectures.DeleteMany(courseId);
    courses.DeleteOne(courseId);
    r := Success(200, "Course deleted successfully");
  }

  /** The `deleteLecture` of the course routes: the lecture must belong to the
      course, and no ownership of the course is asked for. */
  method DeleteLecture(lectures: LectureCollection, courseId: Id, lectureId: Id)
    returns (r: Response<string>)
    requires lectures.Valid()
    modifies lectures
    ensures lectures.Valid()
    ensures FindLectureInCourse(old(lectures.docs), lectureId, courseId).None? ==>
      r == Reject(404, "Lecture not found") && lectures.docs == old(lectures.docs)
    ensures FindLectureInCourse(old(lectures.docs), lectureId, courseId).Some? ==>
      r == Success(200, "Lecture deleted successfully") && lectures.docs == WithoutLecture(old(lectures.docs), lectureId)
  {
    var lecture := FindLectureInCourse(lectures.docs, lectureId, courseId);
    if lecture.None? {
      return Reject(404, "Lecture not found");
    }
    lectures.DeleteOne(lectureId);
    r := Success(200, "Lecture deleted successfully");
  }
}
