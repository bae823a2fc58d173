# Learning progress of an online course platform, in Dafny

This project models the core of a small learning platform. Instructors own
a course and write lectures, each of which may carry a multiple-choice quiz.
Students read lectures in order, mark them completed and submit quizzes. The
backend is an Express/Mongoose server and the frontend a set of React pages.

The model covers:

- the four stored document kinds and what their schemas require (`Models`);
- the collections as classes over an in-memory store, one per model, with
  the invariants the schemas and indexes maintain (`Store`);
- the role guard (`Roles`) and the handlers for registration and login
  (`AuthController`);
- the course handlers (`CourseController`) and the lecture handlers
  (`LectureController`): the sequential-unlock gate, completion, quiz
  submission (graded in `Quiz`) and the answer-hiding projection;
- the course progress summary (`ProgressController`);
- the client-side rules of three pages (`CourseDetails`,
  `InstructorDashboard`, `LectureView`).

State that the server changes in place is a class whose methods say the
whole new state. Each stored collection keeps its documents in creation
order, so the `sort('createdAt')` listing is a plain filter. The progress
records are a map keyed by (student, course), which is the unique index of
`Progress`. The handlers are methods over those classes. The queries, the
gate and the client rules are functions. The two loops that update
variables are methods with loop invariants:

- the quiz's counting `forEach`, proved to return `Quiz.CorrectCount`;
- the lecture page's `fill(null)`, whose contract gives the whole array.

The array copies of the option editor and the answer picker are methods
that build an array and write one slot. Their contracts give every slot of
the result.

Besides each handler's responses, the proofs cover:

- Every stored progress record completes each lecture at most once and
  records only gradable scores (0 to 100, passed exactly from 70).
- Completion is idempotent, and completing the lecture before another one
  opens it.
- For a student who completed the course's first lectures in order, the
  course page fed with the student's record locks exactly the lectures the
  server gate refuses. With lectures completed out of order the two can
  disagree.
- The instructor page's list stays equal to the server's listing after an
  add, an update or a delete.
- A registered user can log in.

Observations the model makes explicit:

- The gate `canAccessLecture` is defined but mounted on no route.
  `getLecture` hides the correct options, but `getLectures` sends whole
  lectures, correct options included, to any signed-in user.
- The `deleteLecture` mounted on the course routes and `deleteCourse` check
  only the Instructor role, not ownership. The lecture routes'
  `deleteLecture` does check ownership.
- An instructor who registers without course fields gets a 400, but the
  user has already been stored.

## Model

| member | source | states |
|---|---|---|
| Models.ParseRole | backend/src/models/User.js:8 | a role string is accepted exactly when it is "Instructor" or "Student", and the accepted role's name is that string |
| Models.Lower | backend/src/models/User.js:6 | the `lowercase` setter: same length, each ASCII capital replaced by its small letter and every other character kept |
| Models.ValidUser | backend/src/models/User.js:4-9 | the schema's required name and email, the email lowercased |
| Models.ValidCourse | backend/src/models/Course.js:4-8 | the schema's required title |
| Models.ValidQuestion | backend/src/models/Lecture.js:4-8 | a question needs text and only non-empty options; the correct option is not checked |
| Models.ValidLecture | backend/src/models/Lecture.js:11-19 | a lecture needs a title, content and valid questions |
| Models.LowerIsLower | backend/src/models/User.js:6 | the stored email is lowercase, and lowercasing again changes nothing |
| Store.UserCollection.Create | backend/src/models/User.js:4-9 | appends one user with a fresh id, the email lowercased; every stored user keeps its required fields and ids and emails stay unique |
| Store.CourseCollection.Create | backend/src/models/Course.js:4-8 | appends one course with a fresh id, keeping every stored course titled |
| Store.LectureCollection.Create | backend/src/models/Lecture.js:4-19 | a lecture is stored exactly when title, content and every question's text and options are non-empty; otherwise the collection is unchanged |
| Store.LectureCollection.Save | backend/src/models/Lecture.js:4-19 | saving succeeds exactly for a valid lecture and then replaces the document with its id, and only that one |
| Store.LectureCollection.DeleteOne | backend/src/controllers/courseController.js:72 | removes exactly the lectures with that id |
| Store.LectureCollection.DeleteMany | backend/src/controllers/courseController.js:55 | removes exactly the lectures of that course |
| Store.CourseCollection.DeleteOne | backend/src/controllers/courseController.js:56 | removes exactly the course with that id |
| Store.ProgressCollection.Create | backend/src/models/Progress.js:4-15 | creates the empty record of a (student, course) pair that has none, under that pair's key |
| Store.ProgressCollection.Save | backend/src/models/Progress.js:15 | stores the record under its own (student, course) key, so there is at most one record per pair |
| Store.FindUserByEmail | backend/src/controllers/authController.js:22 | finds a user with that email, or reports none exists |
| Store.FindCourseByInstructor | backend/src/controllers/courseController.js:93 | finds a course taught by the user, or reports none exists |
| Store.FindLectureInCourse | backend/src/controllers/lectureController.js:40 | finds a lecture with that id in that course, or reports none exists |
| Store.FindLecture | backend/src/controllers/lectureController.js:89 | `Lecture.findById`: a stored lecture with that id, or none exactly when no stored lecture has it |
| Store.FindCourse | backend/src/controllers/courseController.js:35 | `Course.findById`: a stored course with that id, or none exactly when no stored course has it |
| Store.FindLectureUnique | backend/src/controllers/lectureController.js:89 | with distinct ids, looking up a stored lecture's id finds that lecture |
| Store.LecturesOf | backend/src/controllers/lectureController.js:92 | the listing holds exactly the course's lectures and keeps ids distinct |
| Store.CountLectures | backend/src/controllers/courseController.js:41 | `countDocuments({ course })`: at most the number of stored lectures, and zero exactly when no stored lecture belongs to the course |
| Store.FindProgress | backend/src/controllers/lectureController.js:97 | `Progress.findOne({ student, course })`: the record stored under that pair, or none exactly when the pair has no record |
| Store.CountAfterCreate | backend/src/controllers/courseController.js:41 | a new lecture raises its own course's count by one and no other course's |
| Store.CascadeKeepsOtherCourses | backend/src/controllers/courseController.js:55 | deleting a course's lectures leaves every other course's listing exactly as it was |
| Security.Compare | backend/src/controllers/authController.js:70 | a password matches exactly the digest made from it |
| Security.Verify | backend/src/middleware/auth.js:11-12 | verifying a signed token gives back its payload |
| Roles.Permit | backend/src/middleware/roles.js:2-9 | the guard continues exactly for a signed-in user with the required role, and otherwise answers 403 "Forbidden: insufficient permissions" |
| Roles.GuardsAreExclusive | backend/src/middleware/roles.js:4 | no request passes the guards of two different roles |
| Common.RoundPercent | backend/src/controllers/lectureController.js:147 | the percentage is the nearest whole number, halves rounded up |
| Common.Percent | backend/src/controllers/progressController.js:22 | the guarded percentage: 0 when there is nothing to count or nothing counted, 100 when everything is counted |
| Common.PercentAtMost100 | backend/src/controllers/progressController.js:22 | a share of at most the whole is at most 100 percent |
| Common.PercentAtLeast | backend/src/controllers/lectureController.js:148 | a rounded percentage reaches a mark exactly when the exact share is at least half a point below it |
| Quiz.CorrectCount | backend/src/controllers/lectureController.js:141-144 | the number of correct answers is at most the number of questions |
| Quiz.CountCorrect | backend/src/controllers/lectureController.js:141-144 | the counting loop returns the number of positions whose answer is a number equal to the question's correct option |
| Quiz.GradeSubmission | backend/src/controllers/lectureController.js:141-148 | the handler's counting and scoring steps produce exactly the grade |
| Quiz.Grade | backend/src/controllers/lectureController.js:146-148 | total is the question count, correct is the number of questions answered right (`CorrectCount`), 0 <= correct <= total, with questions the score is the rounded percentage of correct over total, score in 0..100, passed exactly when score >= 70, and no questions scores 0 and fails |
| Quiz.GradeIsValidEntry | backend/src/controllers/lectureController.js:147-155 | the attempt appended to the record is a valid score entry |
| Quiz.PassedIffEnoughCorrect | backend/src/controllers/lectureController.js:147-148 | a quiz is passed exactly when 200 * correct >= 139 * total |
| Quiz.AllCorrectScoresFull | backend/src/controllers/lectureController.js:141-148 | answering every question correctly scores 100 and passes |
| Quiz.NoNumbersScoresZero | backend/src/controllers/lectureController.js:143 | null, missing or non-number answers never count, so such a submission scores 0 and fails |
| Quiz.ExtraAnswersIgnored | backend/src/controllers/lectureController.js:142-143 | answers beyond the last question do not change the count |
| Quiz.OneSlotMovesCountByOne | backend/src/controllers/lectureController.js:142-144 | changing one answer moves the count by at most one |
| Quiz.GradeExamples | backend/src/controllers/lectureController.js:141-158 | four questions: all right 100/passed, three right 75/passed, all null 0/failed; no questions 0/failed |
| LectureController.NewLecture | backend/src/controllers/lectureController.js:16-21 | missing content becomes empty and questions that are not an array become none |
| LectureController.NoContentNeverValid | backend/src/controllers/lectureController.js:19 | a lecture added without content fails the schema's required check |
| LectureController.Owns | backend/src/controllers/lectureController.js:13 | the requester owns a course exactly when it has an instructor and that instructor is the requester |
| LectureController.AddLecture | backend/src/controllers/lectureController.js:6-27 | 404 "Course not found", 403 "Not allowed" unless the requester is the course's instructor, the validation error when the lecture is invalid, else 201 with the one lecture appended |
| LectureController.MergeLecture | backend/src/controllers/lectureController.js:43-45 | null title or content keeps the old value, and questions are replaced only by an array |
| LectureController.MergeNeutralAndIdempotent | backend/src/controllers/lectureController.js:43-45 | an empty update changes nothing, and repeating an update changes nothing more |
| LectureController.UpdateLecture | backend/src/controllers/lectureController.js:30-52 | 404 course, 403 non-owner, 404 "Lecture not found" outside the course, else the merged lecture replaces the stored one when valid |
| LectureController.DeleteLecture | backend/src/controllers/lectureController.js:165-181 | 404 "Lecture not found" unless the lecture is in the course, then 404 course, 403 non-owner, else exactly that lecture is removed |
| LectureController.GetLectures | backend/src/controllers/lectureController.js:55-63 | the listing holds exactly the course's lectures, whole |
| LectureController.HideAnswers | backend/src/controllers/lectureController.js:71-77 | each question keeps only its id, text and options, in order, and nothing else of the lecture changes |
| LectureController.HiddenAnswersDoNotLeak | backend/src/controllers/lectureController.js:72-76 | lectures that differ only in their correct options are sent identically |
| LectureController.GetLecture | backend/src/controllers/lectureController.js:66-83 | 404 exactly for an unknown id, else the stored lecture with its answers hidden |
| LectureController.IndexOfLecture | backend/src/controllers/lectureController.js:93 | the first position holding the id, or -1 when none does |
| LectureController.CanAccessLecture | backend/src/controllers/lectureController.js:86-106 | 404 exactly for an unknown lecture, before any progress is read; every refusal is that 404 or 403 "Complete previous lecture first." |
| LectureController.GatePosition | backend/src/controllers/lectureController.js:92-93 | the gate finds each lecture at its own position in its course's creation-ordered list |
| LectureController.FirstLectureAlwaysOpen | backend/src/controllers/lectureController.js:95 | the first lecture of a course is allowed whatever the progress |
| LectureController.LaterLectureNeedsPredecessor | backend/src/controllers/lectureController.js:97-102 | a later lecture is allowed exactly when a record exists whose completed list holds the previous lecture |
| LectureController.LoadProgress | backend/src/controllers/lectureController.js:115-118 | the student's record for the course, or a new empty one stored under that pair when there is none; the record is well formed |
| LectureController.RecordCompletion | backend/src/controllers/lectureController.js:120-123 | the lecture is added once, nothing already completed is lost, scores are untouched and the list stays duplicate-free |
| LectureController.CompletionIdempotent | backend/src/controllers/lectureController.js:120-123 | completing twice equals completing once, and the lecture then occurs exactly once |
| LectureController.CompleteLecture | backend/src/controllers/lectureController.js:109-129 | 404 for an unknown lecture, else the record (created if absent) gains the lecture and the response is 200 |
| LectureController.CompletionNeverLocks | backend/src/controllers/lectureController.js:120-121 | completing any lecture never closes an open one |
| LectureController.CompletingPredecessorUnlocks | backend/src/controllers/lectureController.js:98 | completing the lecture before a given one opens it |
| LectureController.RecordAttempt | backend/src/controllers/lectureController.js:155 | one entry is appended; earlier entries and the completed list are unchanged |
| LectureController.AttemptsAccumulate | backend/src/controllers/lectureController.js:155 | two submissions leave both attempts, in order |
| LectureController.SubmitQuiz | backend/src/controllers/lectureController.js:132-162 | 400 "Answers must be an array" before any lookup, 404 for an unknown lecture, else the graded result and its entry appended to the record (created if absent) |
| CourseController.CreateCourse | backend/src/controllers/courseController.js:5-20 | 400 "Title is required" with no course created, else 201 with one course taught by the requester |
| CourseController.GetCourse | backend/src/controllers/courseController.js:33-46 | 404 exactly for an unknown id, else the course and the number of its lectures |
| CourseController.LectureCountFollowsCreate | backend/src/controllers/courseController.js:41 | adding a lecture raises only its own course's count, by one |
| CourseController.GetCatalog | backend/src/controllers/courseController.js:81-88 | exactly the courses with no instructor |
| CourseController.CatalogAfterCreate | backend/src/controllers/courseController.js:83 | a new course joins the catalog exactly when it has no instructor |
| CourseController.GetMyCourse | backend/src/controllers/courseController.js:91-102 | 404 exactly when the requester teaches no course, else a course they teach and its lecture count |
| CourseController.DeleteCourse | backend/src/controllers/courseController.js:49-62 | 404 for an unknown course, else the course and all its lectures are removed, with no ownership check |
| CourseController.DeleteLecture | backend/src/controllers/courseController.js:65-77 | 404 unless the lecture is in the course, else exactly that lecture is removed, with no ownership check |
| ProgressController.CompletedIds | backend/src/controllers/progressController.js:14-17 | the record's completed list, or the empty list when the student has no record for the course |
| ProgressController.GetCourseProgress | backend/src/controllers/progressController.js:6-27 | 404 exactly for an unknown course; total is the course's lecture count; completed is the record's list length, 0 without a record; percent is the rounded share, 0 for no lectures |
| ProgressController.PercentBoundedWhenCurrent | backend/src/controllers/progressController.js:17-22 | completed <= total and percent <= 100 when the record names only current lectures of the course, each once |
| ProgressController.StaleCompletionsOverflow | backend/src/controllers/progressController.js:17-22 | a well-formed record naming a deleted lecture yields 2 of 1 completed and 200 percent |
| ProgressController.CurrentCompleted | backend/src/controllers/progressController.js:17 | the completed lectures that still belong to the course |
| ProgressController.GetCourseProgressCurrent | backend/src/controllers/progressController.js:17-22 | the summary counting only current lectures never exceeds 100 percent |
| ProgressController.CurrentAgreesWhenNoStaleIds | backend/src/controllers/progressController.js:17-22 | without stale or repeated ids the corrected summary equals the one sent |
| AuthController.Register | backend/src/controllers/authController.js:11-58 | 400 for missing fields, an invalid role or a used email with nothing stored; else one user with the hashed password; an instructor without course fields gets 400 after the user is stored; otherwise 201 with a token for the user's id and role and the instructor's one new course, or none for a student |
| AuthController.Login | backend/src/controllers/authController.js:61-86 | 400 "Missing fields"; an unknown email and a wrong password get the same 400 "Invalid credentials"; success only for a stored user whose digest matches, with a token for that user |
| AuthController.LoginSucceedsIffCredentialsMatch | backend/src/controllers/authController.js:67-71 | with unique emails, login succeeds exactly for a stored email and its password |
| AuthController.RegisteredUserCanLogIn | backend/src/controllers/authController.js:67-77 | a user just stored logs in with the same email, in any letter case, and password |
| AuthController.TokenPassesOwnRoleGuard | backend/src/controllers/authController.js:44-48 | a user's token, once verified, passes exactly the guard of that user's role |
| CourseDetails.IsLocked | frontend/src/pages/CourseDetails.jsx:91 | a row is locked when its position exceeds the number of completed lectures |
| CourseDetails.IsCompleted | frontend/src/pages/CourseDetails.jsx:90 | a row is marked completed when its lecture's id is in the completed list |
| CourseDetails.View | frontend/src/pages/CourseDetails.jsx:54-91 | percent is 0 without lectures, else the rounded share; row i is completed exactly when its id is in the list and locked exactly when i exceeds the completed count |
| CourseDetails.FirstRowOpen | frontend/src/pages/CourseDetails.jsx:91 | the first lecture is never locked, and with all lectures completed none is and the bar is full |
| CourseDetails.FetchedCompleted | frontend/src/pages/CourseDetails.jsx:34 | the completed list the page takes from the progress response, which never carries one, so it is always empty |
| CourseDetails.FetchedProgressIsIgnored | frontend/src/pages/CourseDetails.jsx:34 | whatever the server reports, the page shows 0 completed, 0 percent and every lecture after the first locked |
| CourseDetails.RecordView | frontend/src/pages/CourseDetails.jsx:34-58 | the page fed with the record's completed list: one row per lecture of the course, in the listing's order; the completed count is that list's length, and each row is marked when its id is in the list and locked when its position exceeds the list's length |
| CourseDetails.RecordViewMatchesGate | frontend/src/pages/CourseDetails.jsx:91 | for a student who completed the first k lectures in order, the page locks exactly what the server gate refuses |
| CourseDetails.RecordViewMatchesServerPercent | frontend/src/pages/CourseDetails.jsx:56-58 | the page fed with the record shows the percentage the server sends |
| InstructorDashboard.Trim | frontend/src/pages/InstructorDashboard.jsx:88 | `trim()`: no longer than the text, and neither starting nor ending with white space |
| InstructorDashboard.TrimStartDropsOnlySpace | frontend/src/pages/InstructorDashboard.jsx:88 | every character the leading cut removes is white space |
| InstructorDashboard.TrimEndDropsOnlySpace | frontend/src/pages/InstructorDashboard.jsx:88 | every character the trailing cut removes is white space |
| InstructorDashboard.TrimKeepsMiddle | frontend/src/pages/InstructorDashboard.jsx:88 | `trim()` returns the text between the leading and trailing white space: a slice of the text with only white space before and after it |
| InstructorDashboard.BlankIffAllSpace | frontend/src/pages/InstructorDashboard.jsx:88 | a text trims to nothing exactly when it is all white space |
| InstructorDashboard.ValidOptions | frontend/src/pages/InstructorDashboard.jsx:91 | exactly the options that are not blank survive |
| InstructorDashboard.ValidOptionsAppend | frontend/src/pages/InstructorDashboard.jsx:91 | the filter keeps the options' order: filtering two parts joined is joining their filtered parts |
| InstructorDashboard.ValidOptionsNonEmpty | frontend/src/pages/InstructorDashboard.jsx:91 | no surviving option is the empty string |
| InstructorDashboard.AddQuestion | frontend/src/pages/InstructorDashboard.jsx:87-103 | blank text leaves all unchanged; fewer than 2 non-blank options alerts and leaves all unchanged; else one question is appended after the earlier ones with the same text, the same correct option and exactly the non-blank options in their order, and the form resets |
| InstructorDashboard.AddQuestionKeepsDraftStorable | frontend/src/pages/InstructorDashboard.jsx:88-100 | every question the form adds has the text and options the lecture schema requires |
| InstructorDashboard.TwoOptionsKeepCorrectOptionAligned | frontend/src/pages/InstructorDashboard.jsx:91-99 | with the form's two options both filled, the added question keeps them as they were, so its correct option still marks the chosen one |
| InstructorDashboard.EditOption | frontend/src/pages/InstructorDashboard.jsx:215-217 | editing option i changes slot i only |
| InstructorDashboard.ClientAddMirrorsServer | frontend/src/pages/InstructorDashboard.jsx:62 | after an add the page's list is the server's listing of the course |
| InstructorDashboard.ClientRemoveMirrorsServer | frontend/src/pages/InstructorDashboard.jsx:80 | after a delete the page's list is the server's listing of the course |
| InstructorDashboard.ClientUpdateMirrorsServer | frontend/src/pages/InstructorDashboard.jsx:52-54 | after an update the page's list is the server's listing of the course |
| LectureView.QuizQuestions | frontend/src/pages/LectureView.jsx:21 | questions if present, else quiz, else none |
| LectureView.PageQuizzesLectureQuestions | frontend/src/pages/LectureView.jsx:78 | the page quizzes exactly the lecture's questions, in order |
| LectureView.InitialAnswers | frontend/src/pages/LectureView.jsx:21-24 | with questions, one null answer per question; without, the answers are left as they were |
| LectureView.UntouchedQuizScoresZero | frontend/src/pages/LectureView.jsx:55 | submitting the untouched answers scores 0 and fails |
| LectureView.ChooseAnswer | frontend/src/pages/LectureView.jsx:146-148 | choosing option i for question idx sets that slot only, padding with nulls past the end |
| LectureView.ChoosingCorrectOptionCounts | frontend/src/pages/LectureView.jsx:146-148 | choosing a question's correct option makes it count and changes no other question's verdict |

## Findings

| source | as written | input that shows it | evidently intended | confidence | as-written member | corrected member |
|---|---|---|---|---|---|---|
| backend/src/controllers/progressController.js:17-22 | `completed` is the length of the record's list, whatever lectures it names; deleting a lecture leaves its id in the records | a course with lecture 10, a student who completed lectures 10 and 11, lecture 11 since deleted: 2 of 1 completed, 200 percent | count only completed lectures that still belong to the course, so the percentage stays within 100 | medium, not executed | ProgressController.StaleCompletionsOverflow | ProgressController.GetCourseProgressCurrent |
| frontend/src/pages/CourseDetails.jsx:34 | the page reads `completedLectures` from the progress response, which carries only `completed`, `total` and `percent` | any student who has completed lectures: the page shows 0 percent, no completed mark, and every lecture after the first locked | marks, locks and the bar come from the student's completed list | high, not executed | CourseDetails.FetchedProgressIsIgnored | CourseDetails.RecordView |

`ProgressController.CurrentAgreesWhenNoStaleIds` shows that the corrected
summary equals the one sent whenever no id is stale. For a student who
completes lectures in order, `CourseDetails.RecordViewMatchesGate` proves
that the corrected page locks exactly the lectures the server gate refuses.

## Left out

- HTTP and database plumbing: routing, the JSON encoding and the server start-up are not modelled. A database error passed to `next(err)` appears only as the validation error of a failed create or save.
- The Bearer-header check of the authentication middleware and the 401 answers. The model starts from the user the middleware attaches.
- bcrypt and JWT are symbolic. A digest records its password and a token its payload, so salting, secrecy, signatures and the seven-day expiry are not modelled.
- Security.Compare: a digest matches only the exact password it was made from. Real bcrypt reads at most the first 72 bytes of a password, so two longer passwords that share those bytes both match. Hash collisions are not modelled either. The "only if" half of AuthController.LoginSucceedsIffCredentialsMatch and the success clause of AuthController.Login rely on this exact match.
- Common.RoundPercent: `Math.round` of a floating-point quotient is modelled as exact rounding, halves up, and that differs at some exact halves. For example, 23 of 40 is 57.5 percent exactly, but in floating point 23 / 40 * 100 is just below 57.5 and rounds to 57, while the model gives 58. This affects the quiz score, the server's progress percent and the course page's bar. A half at the pass mark needs 200 * correct == 139 * total. The model does not establish whether such a case can flip a pass.
- Identifiers are natural numbers handed out by a counter. Malformed ids and the cast errors they cause are not modelled.
- Creation time is the position in the collection. Ties in `createdAt` are not modelled.
- Two first requests of a student racing to create the same progress record, against the unique index, are not modelled; the store is sequential.
- Quiz answers and correct options are integers. Fractional JSON numbers are not modelled.
- The `lowercase` setter is assumed to apply to the email of a `findOne` query as well as to the stored email. Lowercasing and trimming cover ASCII only.
- A request body's `questions` is either an array of well-typed questions or not an array. Arrays of malformed question objects are not modelled.
- CourseController.GetCourse: the course is returned as stored. `getCourse` also fills in the instructor's name and email from the user collection, and that join is not modelled.
- `getCourses` returns the whole course collection with each instructor's name and email filled in. The join with the user collection is not modelled, and the handler has no member.
- In the instructor page: loading a lecture into the form, sending the add or update request, resetting the form after saving, and the alerts and confirmation dialogs are not modelled. Only their effect on the page's lecture list is.
- In the lecture page: the completion and submission requests, the `completed` flag (which `getLecture` never sends), the navigation and the alerts are not modelled.
- Rendering of every page is not modelled, and neither are the login, registration, navigation bar and student dashboard pages.
- LectureController.CanAccessLecture: modelled as a decision function; the route table that leaves it unmounted is not modelled.
