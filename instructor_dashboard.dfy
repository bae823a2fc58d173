/** The instructor's dashboard: the draft lecture with its quiz questions, the
    question being written, and the list of the course's lectures that the
    page keeps in step with the server after each add, update and delete. */
module InstructorDashboard {
  import opened Common
  import opened Models
  import opened Store

  // ----- Blank text -----

  /** The white space `String.prototype.trim` removes, restricted to ASCII. */
  predicate IsSpace(c: char) {
    c == ' ' || c == '\t' || c == '\n' || c == '\r' || c == '\U{B}' || c == '\U{C}'
  }

  predicate AllSpace(s: string) {
    forall i :: 0 <= i < |s| ==> IsSpace(s[i])
  }

  function TrimStart(s: string): (r: string)
    ensures r == [] <==> AllSpace(s)
    ensures r != [] ==> !IsSpace(r[0])
    ensures |r| <= |s| && r == s[|s| - |r|..]
    decreases |s|
  {
    if s != [] && IsSpace(s[0]) then TrimStart(s[1..]) else s
  }

  /** What `TrimStart` drops is white space. */
  lemma {:induction false} TrimStartDropsOnlySpace(s: string)
    ensures AllSpace(s[..|s| - |TrimStart(s)|])
    decreases |s|
  {
    if s != [] && IsSpace(s[0]) {
      var r := TrimStart(s[1..]);
      TrimStartDropsOnlySpace(s[1..]);
      assert s[..|s| - |r|] == [s[0]] + s[1..][..|s| - 1 - |r|];
    }
  }

  function TrimEnd(s: string): (r: string)
    ensures r == [] <==> AllSpace(s)
    ensures r != [] ==> !IsSpace(r[|r| - 1])
    ensures |r| <= |s| && r == s[..|r|]
    decreases |s|
  {
    if s != [] && IsSpace(s[|s| - 1]) then TrimEnd(s[..|s| - 1]) else s
  }

  /** What `TrimEnd` drops is white space. */
  lemma {:induction false} TrimEndDropsOnlySpace(s: string)
    ensures AllSpace(s[|TrimEnd(s)|..])
    decreases |s|
  {
    if s != [] && IsSpace(s[|s| - 1]) {
      var r := TrimEnd(s[..|s| - 1]);
      TrimEndDropsOnlySpace(s[..|s| - 1]);
      assert s[|r|..] == s[..|s| - 1][|r|..] + [s[|s| - 1]];
    }
  }

  /** `s.trim()`: the part of `s` between its leading and trailing white
      space, which neither starts nor ends with white space. */
  function Trim(s: string): (r: string)
    ensures |r| <= |s|
    ensures r != [] ==> !IsSpace(r[0]) && !IsSpace(r[|r| - 1])
  {
    var t := TrimStart(s);
    var r := TrimEnd(t);
    assert r != [] ==> r[0] == t[0];
    r
  }

  /** `Trim(s)` is the text of `s` between its leading and its trailing
      white space: a slice of `s` with only white space before and after. */
  lemma TrimKeepsMiddle(s: string)
    ensures var r := Trim(s);
      exists a :: 0 <= a && a + |r| <= |s| && r == s[a..a + |r|] && AllSpace(s[..a]) && AllSpace(s[a + |r|..])
  {
    var t := TrimStart(s);
    TrimStartDropsOnlySpace(s);
    TrimEndDropsOnlySpace(t);
    PrefixOfSuffix(s, t, Trim(s));
  }

  /** A prefix `r` of a suffix `t` of `s`, each cut off only white space, is a
      slice of `s` with only white space around it. */
  lemma PrefixOfSuffix(s: string, t: string, r: string)
    requires |t| <= |s| && t == s[|s| - |t|..] && AllSpace(s[..|s| - |t|])
    requires |r| <= |t| && r == t[..|r|] && AllSpace(t[|r|..])
    ensures exists a :: 0 <= a && a + |r| <= |s| && r == s[a..a + |r|] && AllSpace(s[..a]) && AllSpace(s[a + |r|..])
  {
    var a := |s| - |t|;
    assert r == s[a..a + |r|];
    assert s[a + |r|..] == t[|r|..];
  }

  /** A string trims to nothing exactly when every character is white space. */
  lemma BlankIffAllSpace(s: string)
    ensures Trim(s) == "" <==> AllSpace(s)
  {
    var t := TrimStart(s);
    if t != [] {
      assert !AllSpace(t) by { assert !IsSpace(t[0]); }
    }
  }

  /** `o.trim() !== ""`. */
  predicate NotBlank(s: string) {
    Trim(s) != ""
  }

  lemma NotBlankIsNonEmpty(s: string)
    requires NotBlank(s)
    ensures s != ""
  {
  }

  // ----- Question draft -----

  /** A question as the form holds it: no id yet. */
  datatype QuestionDraft = QuestionDraft(text: string, options: seq<string>, correctOption: int)

  datatype LectureDraft = LectureDraft(title: string, content: string, questions: seq<QuestionDraft>, id: Option<Id>)

  /** The question form's initial and reset state: two empty options, the
      first marked correct. */
  const EmptyQuestion := QuestionDraft("", ["", ""], 0)

  /** `question.options.filter(o => o.trim() !== "")`. */
  function ValidOptions(options: seq<string>): (r: seq<string>)
    ensures forall o :: o in r <==> o in options && NotBlank(o)
    ensures |r| <= |options|
  {
    Filter(options, NotBlank)
  }

  /** The filter keeps the options' order: filtering a form split in two is
      filtering each part and joining them. */
  lemma ValidOptionsAppend(first: seq<string>, rest: seq<string>)
    ensures ValidOptions(first + rest) == ValidOptions(first) + ValidOptions(rest)
  {
    FilterAppend(first, rest, NotBlank);
  }

  /** No option the filter keeps is the empty string. */
  lemma ValidOptionsNonEmpty(options: seq<string>)
    ensures forall o :: o in ValidOptions(options) ==> o != ""
  {
    forall o | o in ValidOptions(options) ensures o != "" {
      NotBlankIsNonEmpty(o);
    }
  }

  datatype Editor = Editor(lecture: LectureDraft, question: QuestionDraft)

  /** What `addQuestion` leaves behind: the new editor state and the alert
      shown, if any. */
  datatype AddOutcome = AddOutcome(editor: Editor, alert: Option<string>)

  /** `addQuestion`. */
  function AddQuestion(e: Editor): (r: AddOutcome)
    ensures !NotBlank(e.question.text) ==> r == AddOutcome(e, None)
    ensures NotBlank(e.question.text) && |ValidOptions(e.question.options)| < 2 ==>
      r == AddOutcome(e, Some("Please provide at least 2 options."))
    ensures NotBlank(e.question.text) && |ValidOptions(e.question.options)| >= 2 ==>
      var before := e.lecture.questions;
      var after := r.editor.lecture.questions;
      && r.alert.None?
      && r.editor.question == EmptyQuestion
      && r.editor.lecture.title == e.lecture.title && r.editor.lecture.content == e.lecture.content
      && r.editor.lecture.id == e.lecture.id
      && |after| == |before| + 1 && after[..|before|] == before
      && after[|before|].text == e.question.text
      && after[|before|].correctOption == e.question.correctOption
      && after[|before|].options == ValidOptions(e.question.options)
      && |after[|before|].options| >= 2
  {
    if !NotBlank(e.question.text) then AddOutcome(e, None)
    else
      var validOptions := ValidOptions(e.question.options);
      if |validOptions| < 2 then AddOutcome(e, Some("Please provide at least 2 options."))
      else
        var added := e.question.(options := validOptions);
        AddOutcome(Editor(e.lecture.(questions := e.lecture.questions + [added]), EmptyQuestion), None)
  }

  /** Every question of the draft has text and only non-empty options, as
      the lecture schema requires of a stored question. */
  predicate StorableDraft(d: LectureDraft) {
    forall i :: 0 <= i < |d.questions| ==> StorableQuestion(d.questions[i])
  }

  /** A question with text and only non-empty options. */
  predicate StorableQuestion(q: QuestionDraft) {
    q.text != "" && forall o :: o in q.options ==> o != ""
  }

  lemma StorableAppend(d: LectureDraft, questions: seq<QuestionDraft>, q: QuestionDraft)
    requires StorableDraft(d) && StorableQuestion(q) && questions == d.questions + [q]
    ensures StorableDraft(d.(questions := questions))
  {
    forall i | 0 <= i < |questions| ensures StorableQuestion(questions[i]) {
      if i < |d.questions| {
        assert questions[i] == d.questions[i];
      }
    }
  }

  /** `addQuestion` keeps the draft storable: it never adds a question the
      lecture schema would refuse. */
  lemma AddQuestionKeepsDraftStorable(e: Editor)
    requires StorableDraft(e.lecture)
    ensures StorableDraft(AddQuestion(e).editor.lecture)
  {
    var r := AddQuestion(e);
    if NotBlank(e.question.text) && |ValidOptions(e.question.options)| >= 2 {
      var before := e.lecture.questions;
      var after := r.editor.lecture.questions;
      var q := after[|before|];
      NotBlankIsNonEmpty(e.question.text);
      ValidOptionsNonEmpty(e.question.options);
      assert StorableQuestion(q);
      assert after == before + [q] by { assert after == after[..|before|] + [q]; }
      assert r.editor.lecture == e.lecture.(questions := after);
      StorableAppend(e.lecture, after, q);
    }
  }

  /** The form only ever holds two options, and when both survive the filter
      the added question keeps them as they were, so its `correctOption`
      still picks the option the instructor marked. */
  lemma TwoOptionsKeepCorrectOptionAligned(e: Editor)
    requires |e.question.options| == 2 && NotBlank(e.question.text)
    requires |ValidOptions(e.question.options)| >= 2
    ensures var q := AddQuestion(e).editor.lecture.questions[|e.lecture.questions|];
      q.options == e.question.options
  {
    FilterPair(e.question.options, NotBlank);
  }

  /** The option editor: copy the options, write slot `i`. */
  method EditOption(options: seq<string>, i: nat, value: string) returns (updated: seq<string>)
    requires i < |options|
    ensures |updated| == |options| && updated[i] == value
    ensures forall j :: 0 <= j < |options| && j != i ==> updated[j] == options[j]
  {
    var o := new string[|options|](j requires 0 <= j < |options| => options[j]);
    o[i] := value;
    updated := o[..];
  }

  // ----- The lecture list -----

  // The page updates its list with `lectures.map(l => l._id === id ? updated : l)`
  // and `lectures.filter(l => l._id !== id)`: the same replacement and removal
  // the store applies to the collection, `ReplaceLecture` and `WithoutLecture`.

  /** After an add, the page's list `[...lectures, created]` is the course's
      listing on the server. */
  lemma ClientAddMirrorsServer(lectures: seq<Lecture>, course: Id, created: Lecture)
    requires created.course == course
    ensures LecturesOf(lectures, course) + [created] == LecturesOf(lectures + [created], course)
  {
    FilterAppend(lectures, [created], InCourse(course));
    assert [created][..0] == [];
  }

  /** After a delete, the page's filtered list is the course's listing on the
      server. */
  lemma ClientRemoveMirrorsServer(lectures: seq<Lecture>, course: Id, id: Id)
    ensures WithoutLecture(LecturesOf(lectures, course), id) == LecturesOf(WithoutLecture(lectures, id), course)
  {
    FilterCommute(lectures, InCourse(course), OtherThan(id));
  }

  /** After an update, the page's mapped list is the course's listing on the
      server, as long as the id belongs to a lecture of this course. */
  lemma {:induction false} ClientUpdateMirrorsServer(lectures: seq<Lecture>, course: Id, updated: Lecture)
    requires updated.course == course
    requires forall l :: l in lectures && l.id == updated.id ==> l.course == course
    ensures ReplaceLecture(LecturesOf(lectures, course), updated) == LecturesOf(ReplaceLecture(lectures, updated), course)
    decreases |lectures|
  {
    if lectures != [] {
      var s' := lectures[..|lectures| - 1];
      var last := lectures[|lectures| - 1];
      var rep := if last.id == updated.id then updated else last;
      assert lectures == s' + [last];
      ClientUpdateMirrorsServer(s', course, updated);
      ReplaceLectureAppend(s', last, updated);
      FilterAppend(ReplaceLecture(s', updated), [rep], InCourse(course));
      FilterAppend(s', [last], InCourse(course));
      assert [rep][..0] == [] && [last][..0] == [];
      if last.course == course {
        ReplaceLectureAppend(LecturesOf(s', course), last, updated);
      }
    }
  }

  lemma ReplaceLectureAppend(lectures: seq<Lecture>, last: Lecture, updated: Lecture)
    ensures ReplaceLecture(lectures + [last], updated)
         == ReplaceLecture(lectures, updated) + [if last.id == updated.id then updated else last]
  {
  }
}
