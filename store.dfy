/** The document store: one collection per model, and the queries the
    controllers run against them. A collection's documents are kept in the
    order they were created, so a query's results come back in creation order
    (the order `sort('createdAt')` asks for). Each collection hands out fresh
    identifiers from a counter. */
module Store {
  import opened Common
  import opened Security
  import opened Models

  // ----- Queries -----

  /** No two elements share a key. */
  predicate DistinctBy<T, K(==)>(s: seq<T>, key: T -> K) {
    forall i, j :: 0 <= i < j < |s| ==> key(s[i]) != key(s[j])
  }

  /** Filtering keeps keys distinct. */
  lemma {:induction false} FilterDistinctBy<T(!new), K>(s: seq<T>, keep: T -> bool, key: T -> K)
    requires DistinctBy(s, key)
    ensures DistinctBy(Filter(s, keep), key)
    decreases |s|
  {
    if s != [] {
      var s' := s[..|s| - 1];
      var last := s[|s| - 1];
      assert DistinctBy(s', key) by {
        forall i, j | 0 <= i < j < |s'| ensures key(s'[i]) != key(s'[j]) {
          assert s'[i] == s[i] && s'[j] == s[j];
        }
      }
      FilterDistinctBy(s', keep, key);
      var rest := Filter(s', keep);
      if keep(last) {
        var r := rest + [last];
        forall i, j | 0 <= i < j < |r| ensures key(r[i]) != key(r[j]) {
          if j < |rest| {
            assert r[i] == rest[i] && r[j] == rest[j];
          } else {
            assert r[i] in s';
            var k :| 0 <= k < |s'| && s'[k] == r[i];
            assert s[k] == r[i] && s[|s| - 1] == r[j];
          }
        }
      }
    }
  }

  function LectureId(l: Lecture): Id { l.id }
  function CourseId(c: Course): Id { c.id }

  predicate DistinctLectureIds(lectures: seq<Lecture>) {
    DistinctBy(lectures, LectureId)
  }

  /** The ids of the lectures, position by position. */
  function LectureIds(lectures: seq<Lecture>): (ids: seq<Id>)
    ensures |ids| == |lectures|
    ensures forall i :: 0 <= i < |lectures| ==> ids[i] == lectures[i].id
  {
    seq(|lectures|, i requires 0 <= i < |lectures| => lectures[i].id)
  }

  lemma LectureIdsHas(lectures: seq<Lecture>, l: Lecture)
    requires l in lectures
    ensures l.id in Elements(LectureIds(lectures))
  {
    var k :| 0 <= k < |lectures| && lectures[k] == l;
    assert LectureIds(lectures)[k] == l.id;
  }

  lemma DistinctIdsNoDuplicates(lectures: seq<Lecture>)
    requires DistinctLectureIds(lectures)
    ensures NoDuplicates(LectureIds(lectures))
  {
    var ids := LectureIds(lectures);
    forall i, j | 0 <= i < j < |ids| ensures ids[i] != ids[j] {
      assert LectureId(lectures[i]) != LectureId(lectures[j]);
    }
  }

  /** `User.findOne({ email })` for an already lowercased email. */
  function FindUserByEmail(users: seq<User>, email: string): (r: Option<User>)
    ensures r.Some? ==> r.value in users && r.value.email == email
    ensures r.None? <==> forall u :: u in users ==> u.email != email
  {
    if users == [] then None
    else if users[0].email == email then Some(users[0])
    else FindUserByEmail(users[1..], email)
  }

  /** `Course.findById(id)`. */
  function FindCourse(courses: seq<Course>, id: Id): (r: Option<Course>)
    ensures r.Some? ==> r.value in courses && r.value.id == id
    ensures r.None? <==> forall c :: c in courses ==> c.id != id
  {
    if courses == [] then None
    else if courses[0].id == id then Some(courses[0])
    else FindCourse(courses[1..], id)
  }

  /** `Course.findOne({ instructor: user })`: the first course of that instructor. */
  function FindCourseByInstructor(courses: seq<Course>, user: Id): (r: Option<Course>)
    ensures r.Some? ==> r.value in courses && r.value.instructor == Some(user)
    ensures r.None? <==> forall c :: c in courses ==> c.instructor != Some(user)
  {
    if courses == [] then None
    else if courses[0].instructor == Some(user) then Some(courses[0])
    else FindCourseByInstructor(courses[1..], user)
  }

  /** `Lecture.findById(id)`. */
  function FindLecture(lectures: seq<Lecture>, id: Id): (r: Option<Lecture>)
    ensures r.Some? ==> r.value in lectures && r.value.id == id
    ensures r.None? <==> forall l :: l in lectures ==> l.id != id
  {
    if lectures == [] then None
    else if lectures[0].id == id then Some(lectures[0])
    else FindLecture(lectures[1..], id)
  }

  /** With distinct ids, `findById` finds the one lecture carrying the id. */
  lemma FindLectureUnique(lectures: seq<Lecture>, l: Lecture)
    requires DistinctLectureIds(lectures) && l in lectures
    ensures FindLecture(lectures, l.id) == Some(l)
  {
    var found := FindLecture(lectures, l.id).value;
    var i :| 0 <= i < |lectures| && lectures[i] == l;
    var j :| 0 <= j < |lectures| && lectures[j] == found;
    assert LectureId(lectures[i]) == LectureId(lectures[j]);
  }

  /** `Lecture.findOne({ _id: id, course })`. */
  function FindLectureInCourse(lectures: seq<Lecture>, id: Id, course: Id): (r: Option<Lecture>)
    ensures r.Some? ==> r.value in lectures && r.value.id == id && r.value.course == course
    ensures r.None? <==> forall l :: l in lectures ==> l.id != id || l.course != course
  {
    if lectures == [] then None
    else if lectures[0].id == id && lectures[0].course == course then Some(lectures[0])
    else FindLectureInCourse(lectures[1..], id, course)
  }

  /** `Lecture.find({ course }).sort('createdAt')`: the course's lectures in
      creation order. */
  function LecturesOf(lectures: seq<Lecture>, course: Id): (r: seq<Lecture>)
    ensures forall l :: l in r <==> l in lectures && l.course == course
    ensures DistinctLectureIds(lectures) ==> DistinctLectureIds(r)
  {
    assert DistinctLectureIds(lectures) ==> DistinctLectureIds(Filter(lectures, InCourse(course))) by {
      if DistinctLectureIds(lectures) {
        FilterDistinctBy(lectures, InCourse(course), LectureId);
      }
    }
    Filter(lectures, InCourse(course))
  }

  function InCourse(course: Id): Lecture -> bool {
    (l: Lecture) => l.course == course
  }

  function OutsideCourse(course: Id): Lecture -> bool {
    (l: Lecture) => l.course != course
  }

  /** `Lecture.countDocuments({ course })`: zero exactly when no stored
      lecture belongs to the course. */
  function CountLectures(lectures: seq<Lecture>, course: Id): (n: nat)
    ensures n <= |lectures|
    ensures n == 0 <==> forall l :: l in lectures ==> l.course != course
  {
    var listed := LecturesOf(lectures, course);
    assert listed != [] ==> listed[0] in listed;
    |listed|
  }

  /** A new lecture counts towards its own course and no other. */
  lemma CountAfterCreate(lectures: seq<Lecture>, l: Lecture, course: Id)
    ensures CountLectures(lectures + [l], course) == CountLectures(lectures, course) + (if l.course == course then 1 else 0)
  {
    FilterAppend(lectures, [l], InCourse(course));
    assert [l][..0] == [];
  }

  /** After `Lecture.deleteMany({ course })` the course has no lectures. */
  lemma CascadeEmptiesCourse(lectures: seq<Lecture>, course: Id)
    ensures LecturesOf(WithoutCourseLectures(lectures, course), course) == []
  {
    FilterNone(WithoutCourseLectures(lectures, course), InCourse(course));
  }

  /** After `Lecture.deleteMany({ course })` every other course keeps exactly
      its lectures, in the same order. */
  lemma CascadeKeepsOtherCourses(lectures: seq<Lecture>, course: Id, other: Id)
    requires other != course
    ensures LecturesOf(WithoutCourseLectures(lectures, course), other) == LecturesOf(lectures, other)
  {
    FilterFilter(lectures, OutsideCourse(course), InCourse(other));
  }

  /** The lectures left after deleting the one with id `id`. */
  function WithoutLecture(lectures: seq<Lecture>, id: Id): (r: seq<Lecture>)
    ensures forall l :: l in r <==> l in lectures && l.id != id
  {
    Filter(lectures, OtherThan(id))
  }

  function OtherThan(id: Id): Lecture -> bool {
    (l: Lecture) => l.id != id
  }

  /** The lectures left after `Lecture.deleteMany({ course })`. */
  function WithoutCourseLectures(lectures: seq<Lecture>, course: Id): (r: seq<Lecture>)
    ensures forall l :: l in r <==> l in lectures && l.course != course
  {
    Filter(lectures, OutsideCourse(course))
  }

  /** The courses left after deleting the one with id `id`. */
  function WithoutCourse(courses: seq<Course>, id: Id): (r: seq<Course>)
    ensures forall c :: c in r <==> c in courses && c.id != id
  {
    Filter(courses, (c: Course) => c.id != id)
  }

  /** The lectures after saving `l` over the stored document with its id. */
  function ReplaceLecture(lectures: seq<Lecture>, l: Lecture): (r: seq<Lecture>)
    ensures |r| == |lectures|
    ensures forall i :: 0 <= i < |r| ==> r[i] == if lectures[i].id == l.id then l else lectures[i]
  {
    seq(|lectures|, i requires 0 <= i < |lectures| => if lectures[i].id == l.id then l else lectures[i])
  }

  /** `Progress.findOne({ student, course })`: the pair's record, found under
      its key, or none when the pair has no record. */
  function FindProgress(docs: map<ProgressKey, Progress>, student: Id, course: Id): (r: Option<Progress>)
    ensures r.Some? <==> (student, course) in docs
    ensures r.Some? ==> r.value == docs[(student, course)]
  {
    if (student, course) in docs then Some(docs[(student, course)]) else None
  }

  /** The `unique` index on `email`. */
  predicate UniqueEmails(users: seq<User>) {
    forall i, j :: 0 <= i < j < |users| ==> users[i].email != users[j].email
  }

  // ----- Collections -----

  class UserCollection {
    var docs: seq<User>
    var nextId: Id

    /** Every stored user passed validation, and ids and (lowercased) emails
        are unique: the `unique` index on `email`. */
    ghost predicate Valid()
      reads this
    {
      && (forall i :: 0 <= i < |docs| ==> docs[i].id < nextId && ValidUser(docs[i]))
      && (forall i, j :: 0 <= i < j < |docs| ==> docs[i].id != docs[j].id)
      && UniqueEmails(docs)
    }

    constructor ()
      ensures Valid() && docs == []
    {
      docs := [];
      nextId := 0;
    }

    /** `User.create`, which stores the email lowercased. Its caller has
        checked that the email is free. */
    method Create(name: string, email: string, password: PasswordHash, role: Role) returns (u: User)
      requires Valid()
      requires name != "" && email != ""
      requires FindUserByEmail(docs, Lower(email)).None?
      modifies this
      ensures Valid()
      ensures u == User(old(nextId), name, Lower(email), password, role)
      ensures docs == old(docs) + [u]
    {
      LowerIsLower(email);
      u := User(nextId, name, Lower(email), password, role);
      docs := docs + [u];
      nextId := nextId + 1;
    }
  }

  class CourseCollection {
    var docs: seq<Course>
    var nextId: Id

    ghost predicate Valid()
      reads this
    {
      && (forall i :: 0 <= i < |docs| ==> docs[i].id < nextId && ValidCourse(docs[i]))
      && DistinctBy(docs, CourseId)
    }

    constructor ()
      ensures Valid() && docs == []
    {
      docs := [];
      nextId := 0;
    }

    /** `Course.create`; its callers have checked that the title is present. */
    method Create(title: string, description: Option<string>, instructor: Option<Id>) returns (c: Course)
      requires Valid() && title != ""
      modifies this
      ensures Valid()
      ensures c == Course(old(nextId), title, description, instructor)
      ensures docs == old(docs) + [c]
    {
      c := Course(nextId, title, description, instructor);
      docs := docs + [c];
      nextId := nextId + 1;
    }

    /** `course.deleteOne()`. */
    method DeleteOne(id: Id)
      requires Valid()
      modifies this
      ensures Valid() && nextId == old(nextId)
      ensures docs == WithoutCourse(old(docs), id)
    {
      FilterDistinctBy(docs, (c: Course) => c.id != id, CourseId);
      docs := WithoutCourse(docs, id);
    }
  }

  class LectureCollection {
    var docs: seq<Lecture>
    var nextId: Id

    /** Every stored lecture passed validation and ids are unique. */
    ghost predicate Valid()
      reads this
    {
      && (forall i :: 0 <= i < |docs| ==> docs[i].id < nextId && ValidLecture(docs[i]))
      && DistinctLectureIds(docs)
    }

    constructor ()
      ensures Valid() && docs == []
    {
      docs := [];
      nextId := 0;
    }

    /** `Lecture.create`: stores the lecture when it passes validation;
        otherwise Mongoose throws a validation error and nothing is stored. */
    method Create(course: Id, title: string, content: string, questions: seq<Question>) returns (r: Option<Lecture>)
      requires Valid()
      modifies this
      ensures Valid()
      ensures var l := Lecture(old(nextId), course, title, content, questions);
        if ValidLecture(l) then r == Some(l) && docs == old(docs) + [l]
        else r == None && docs == old(docs)
    {
      var l := Lecture(nextId, course, title, content, questions);
      if ValidLecture(l) {
        docs := docs + [l];
        nextId := nextId + 1;
        r := Some(l);
      } else {
        r := None;
      }
    }

    /** `lecture.save()` of a loaded lecture: validates, then overwrites the
        stored document with the same id. */
    method Save(l: Lecture) returns (saved: bool)
      requires Valid()
      requires exists i :: 0 <= i < |docs| && docs[i].id == l.id
      modifies this
      ensures Valid() && nextId == old(nextId)
      ensures saved == ValidLecture(l)
      ensures docs == if saved then ReplaceLecture(old(docs), l) else old(docs)
    {
      saved := ValidLecture(l);
      if saved {
        ghost var k :| 0 <= k < |docs| && docs[k].id == l.id;
        var r := ReplaceLecture(docs, l);
        assert forall i :: 0 <= i < |r| ==> r[i].id == docs[i].id;
        docs := r;
      }
    }

    /** `lecture.deleteOne()`. */
    method DeleteOne(id: Id)
      requires Valid()
      modifies this
      ensures Valid() && nextId == old(nextId)
      ensures docs == WithoutLecture(old(docs), id)
    {
      FilterDistinctBy(docs, (l: Lecture) => l.id != id, LectureId);
      docs := WithoutLecture(docs, id);
    }

    /** `Lecture.deleteMany({ course })`. */
    method DeleteMany(course: Id)
      requires Valid()
      modifies this
      ensures Valid() && nextId == old(nextId)
      ensures docs == WithoutCourseLectures(old(docs), course)
    {
      FilterDistinctBy(docs, (l: Lecture) => l.course != course, LectureId);
      docs := WithoutCourseLectures(docs, course);
    }
  }

  class ProgressCollection {
    /** Keyed by the unique index (student, course): at most one record per pair. */
    var docs: map<ProgressKey, Progress>

    ghost predicate Valid()
      reads this
    {
      forall k :: k in docs ==> WellFormedProgress(k, docs[k])
    }

    constructor ()
      ensures Valid() && docs == map[]
    {
      docs := map[];
    }

    /** `Progress.create` with empty lists, for a pair that has no record yet. */
    method Create(student: Id, course: Id) returns (p: Progress)
      requires Valid() && (student, course) !in docs
      modifies this
      ensures Valid()
      ensures p == EmptyProgress(student, course)
      ensures docs == old(docs)[(student, course) := p]
    {
      p := EmptyProgress(student, course);
      docs := docs[(student, course) := p];
    }

    /** `progress.save()`. */
    method Save(p: Progress)
      requires Valid() && WellFormedProgress((p.student, p.course), p)
      modifies this
      ensures Valid()
      ensures docs == old(docs)[(p.student, p.course) := p]
    {
      docs := docs[(p.student, p.course) := p];
    }
  }
}
