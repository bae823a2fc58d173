/** The four document kinds the backend stores (users, courses, lectures with
    their quiz questions, and progress records) and what their schemas
    require of a document before it may be stored. */
module Models {
  import opened Common
  import opened Security

  // ----- User -----

  datatype Role = Instructor | Student

  /** The role as the string stored in the user document and in tokens. */
  function RoleName(role: Role): string {
    match role
    case Instructor => "Instructor"
    case Student => "Student"
  }

  /** `['Instructor', 'Student'].includes(s)`, keeping the role it names. */
  function ParseRole(s: string): (r: Option<Role>)
    ensures r.Some? <==> s == "Instructor" || s == "Student"
    ensures r.Some? ==> RoleName(r.value) == s
  {
    if s == "Instructor" then Some(Instructor)
    else if s == "Student" then Some(Student)
    else None
  }

  datatype User = User(id: Id, name: string, email: string, password: PasswordHash, role: Role)

  function LowerChar(c: char): char {
    if 'A' <= c <= 'Z' then (c as int + 32) as char else c
  }

  /** The schema's `lowercase` setter, on the ASCII letters. */
  function Lower(s: string): (r: string)
    ensures |r| == |s|
    ensures forall i :: 0 <= i < |s| ==> r[i] == LowerChar(s[i])
  {
    seq(|s|, i requires 0 <= i < |s| => LowerChar(s[i]))
  }

  predicate IsLower(s: string) {
    forall i :: 0 <= i < |s| ==> !('A' <= s[i] <= 'Z')
  }

  /** Lowercasing gives a lowercase string and changes nothing further when
      applied again. */
  lemma LowerIsLower(s: string)
    ensures IsLower(Lower(s))
    ensures Lower(Lower(s)) == Lower(s)
  {
  }

  /** `name`, `email`, `password` and `role` are required, and the email is
      stored lowercased (the role is one of the enum by its type). */
  predicate ValidUser(u: User) {
    u.name != "" && u.email != "" && IsLower(u.email)
  }

  // ----- Course -----

  /** `instructor` is optional; `description` is optional. */
  datatype Course = Course(id: Id, title: string, description: Option<string>, instructor: Option<Id>)

  /** A catalog course is one no instructor is assigned to. */
  predicate IsCatalog(c: Course) {
    c.instructor.None?
  }

  predicate ValidCourse(c: Course) {
    c.title != ""
  }

  // ----- Lecture and Question -----

  datatype Question = Question(id: Id, text: string, options: seq<string>, correctOption: int)

  /** `questions` defaults to the empty sequence when a lecture is created. */
  datatype Lecture = Lecture(id: Id, course: Id, title: string, content: string, questions: seq<Question>)

  /** Mongoose's `required` on a String rejects the empty string; each option
      is required; `correctOption` is not checked against `options`. */
  predicate ValidQuestion(q: Question) {
    q.text != "" && forall i :: 0 <= i < |q.options| ==> q.options[i] != ""
  }

  predicate ValidLecture(l: Lecture) {
    l.title != "" && l.content != ""
    && forall i :: 0 <= i < |l.questions| ==> ValidQuestion(l.questions[i])
  }

  // ----- Progress -----

  /** One quiz attempt. */
  datatype ScoreEntry = ScoreEntry(lecture: Id, score: int, passed: bool)

  /** The per-(student, course) record of completed lectures and quiz attempts,
      in the order they happened. */
  datatype Progress = Progress(student: Id, course: Id, completedLectures: seq<Id>, scores: seq<ScoreEntry>)

  /** The unique index of progress records: (student, course). */
  type ProgressKey = (Id, Id)

  function EmptyProgress(student: Id, course: Id): Progress {
    Progress(student, course, [], [])
  }

  /** A score quiz grading can produce: a percentage, passed exactly from 70. */
  predicate ValidScoreEntry(e: ScoreEntry) {
    0 <= e.score <= 100 && e.passed == (e.score >= 70)
  }

  /** What holds of every stored progress record: it sits under its own key,
      completes each lecture at most once, and records only gradable scores. */
  predicate WellFormedProgress(key: ProgressKey, p: Progress) {
    && p.student == key.0 && p.course == key.1
    && NoDuplicates(p.completedLectures)
    && forall i :: 0 <= i < |p.scores| ==> ValidScoreEntry(p.scores[i])
  }
}
