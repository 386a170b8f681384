/**
 * The bulk attendance write path of the `core` views: a POST names a course
 * and a date, every student currently enrolled in that course gets one
 * attendance record for that date, present exactly when its checkbox field
 * was sent as "on". A date after today is refused before anything is written.
 */
module Attendance {
  import opened Wrappers
  import opened StringOrder
  import Decimal
  import IsoDate

  type StudentId = nat
  type CourseId = nat

  /** The attendance table's unique key: (student, course, date as submitted). */
  type Key = (StudentId, CourseId, string)

  /** The POST body: form field name to value. */
  type Post = map<string, string>

  const FutureDateError := "Future attendance not allowed"

  /** The guard: the submitted date text is greater, as a Python string, than today's. */
  predicate IsFuture(submitted: string, today: string) {
    LexLess(today, submitted)
  }

  /** `f"status_{student.id}"`, the checkbox field of one student. */
  function StatusField(s: StudentId): string {
    "status_" + Decimal.Text(s)
  }

  /** `request.POST.get(field) == "on"`: a missing field or any other value is absent. */
  predicate Present(post: Post, s: StudentId) {
    StatusField(s) in post && post[StatusField(s)] == "on"
  }

  /** The course the POST's `course` field names, when it is a known course id. */
  function LookupCourse(post: Post, courses: set<CourseId>): (r: Option<CourseId>)
    ensures r.Some? ==> r.value in courses
    ensures r.Some? ==> "course" in post && Decimal.ParseNat(post["course"]) == Some(r.value)
    ensures forall c :: c in courses && "course" in post && Decimal.ParseNat(post["course"]) == Some(c) ==> r == Some(c)
  {
    if "course" !in post then None
    else match Decimal.ParseNat(post["course"])
      case Some(id) => if id in courses then Some(id) else None
      case None => None
  }

  /**
   * The table after `update_or_create` has run, in order, for each student of
   * `students` with key (student, course, date) and status Present(post, student).
   */
  function Marked(table: map<Key, bool>, course: CourseId, date: string,
                  students: seq<StudentId>, post: Post): map<Key, bool>
    decreases |students|
  {
    if |students| == 0 then table
    else
      var s := students[|students| - 1];
      Marked(table, course, date, students[..|students| - 1], post)[(s, course, date) := Present(post, s)]
  }

  predicate Distinct(students: seq<StudentId>) {
    forall i, j :: 0 <= i < j < |students| ==> students[i] != students[j]
  }

  /**
   * Whether the store can hold the date text: `update_or_create` turns it into
   * a `date`, which takes a real calendar day written as YYYY-MM-DD.
   */
  predicate StorableDate(date: string) {
    IsoDate.WellFormed(date) && IsoDate.ValidDate(IsoDate.Parse(date))
  }

  /**
   * Every date that passes the guard and that the store takes is a real day
   * no later than today.
   */
  lemma WrittenDateNotAfterToday(date: string, today: IsoDate.Date)
    requires IsoDate.ValidDate(today)
    requires !IsFuture(date, IsoDate.Format(today)) && StorableDate(date)
    ensures IsoDate.ValidDate(IsoDate.Parse(date)) && !IsoDate.Before(today, IsoDate.Parse(date))
  {
    GuardRefusesExactlyLaterDates(date, today);
  }

  /** The keys the loop over `students` writes for this course and date. */
  function WrittenKeys(course: CourseId, date: string, students: seq<StudentId>): set<Key> {
    set s | s in students :: (s, course, date)
  }

  /**
   * With each student enrolled once, each iteration writes a key of its own:
   * there are as many written keys as enrolled students.
   */
  lemma {:induction false} WrittenKeysCount(course: CourseId, date: string, students: seq<StudentId>)
    requires Distinct(students)
    ensures |WrittenKeys(course, date, students)| == |students|
    decreases |students|
  {
    if |students| == 0 {
      assert WrittenKeys(course, date, students) == {};
    } else {
      var init, last := students[..|students| - 1], students[|students| - 1];
      assert students == init + [last];
      assert Distinct(init);
      WrittenKeysCount(course, date, init);
      assert last !in init;
      assert WrittenKeys(course, date, students) == WrittenKeys(course, date, init) + {(last, course, date)};
      assert (last, course, date) !in WrittenKeys(course, date, init);
    }
  }

  /** Whether the loop over `students` writes key `k` for this course and date. */
  predicate Written(k: Key, course: CourseId, date: string, students: seq<StudentId>) {
    k.1 == course && k.2 == date && k.0 in students
  }

  /**
   * Marked, key by key: the keys of the enrolled students for this course and
   * date hold their checkbox state; every other key is as it was.
   */
  lemma {:induction false} MarkedAt(table: map<Key, bool>, course: CourseId, date: string,
                                    students: seq<StudentId>, post: Post, k: Key)
    ensures var m := Marked(table, course, date, students, post);
      && (k in m <==> k in table || Written(k, course, date, students))
      && (Written(k, course, date, students) ==> m[k] == Present(post, k.0))
      && (!Written(k, course, date, students) && k in table ==> m[k] == table[k])
    decreases |students|
  {
    if |students| > 0 {
      var init, last := students[..|students| - 1], students[|students| - 1];
      var prev := Marked(table, course, date, init, post);
      var m := prev[(last, course, date) := Present(post, last)];
      assert Marked(table, course, date, students, post) == m;
      MarkedAt(table, course, date, init, post, k);
      assert students == init + [last];
      if k == (last, course, date) {
        assert Written(k, course, date, students);
        assert k in m && m[k] == Present(post, k.0);
      } else {
        assert Written(k, course, date, students) == Written(k, course, date, init);
        assert k in m <==> k in prev;
        assert k in prev ==> m[k] == prev[k];
      }
    }
  }

  /**
   * Every enrolled student has a record for (student, course, date), and it
   * says present exactly when the field `status_<id>` is "on".
   */
  lemma {:induction false} EnrolledStudentMarked(table: map<Key, bool>, course: CourseId, date: string,
                              students: seq<StudentId>, post: Post, s: StudentId)
    requires s in students
    ensures var m := Marked(table, course, date, students, post);
      && (s, course, date) in m
      && (m[(s, course, date)] <==> StatusField(s) in post && post[StatusField(s)] == "on")
  {
    MarkedAt(table, course, date, students, post, (s, course, date));
  }

  /**
   * Records of other courses, other dates and students not enrolled stay as
   * they were, and none is created or removed.
   */
  lemma {:induction false} OtherRecordsUnchanged(table: map<Key, bool>, course: CourseId, date: string,
                              students: seq<StudentId>, post: Post, k: Key)
    requires k.1 != course || k.2 != date || k.0 !in students
    ensures var m := Marked(table, course, date, students, post);
      && (k in m <==> k in table)
      && (k in table ==> m[k] == table[k])
  {
    MarkedAt(table, course, date, students, post, k);
  }

  /** The keys afterwards are the keys before plus one key per enrolled student. */
  lemma {:induction false} MarkedKeys(table: map<Key, bool>, course: CourseId, date: string,
                   students: seq<StudentId>, post: Post)
    ensures Marked(table, course, date, students, post).Keys
         == table.Keys + WrittenKeys(course, date, students)
  {
    var m := Marked(table, course, date, students, post);
    forall k ensures k in m <==> k in table.Keys + WrittenKeys(course, date, students) {
      MarkedAt(table, course, date, students, post, k);
    }
  }

  /** Submitting the same course, date and form twice leaves the table as submitting it once. */
  lemma {:induction false} Idempotent(table: map<Key, bool>, course: CourseId, date: string,
                   students: seq<StudentId>, post: Post)
    ensures var once := Marked(table, course, date, students, post);
      Marked(once, course, date, students, post) == once
  {
    var once := Marked(table, course, date, students, post);
    var twice := Marked(once, course, date, students, post);
    forall k | k in twice || k in once ensures k in twice && k in once && twice[k] == once[k] {
      MarkedAt(table, course, date, students, post, k);
      MarkedAt(once, course, date, students, post, k);
    }
    assert twice.Keys == once.Keys;
  }

  /**
   * The order in which the enrolled students are visited does not matter:
   * two listings of the same students give the same table.
   */
  lemma {:induction false} OrderIndependent(table: map<Key, bool>, course: CourseId, date: string,
                         students: seq<StudentId>, others: seq<StudentId>, post: Post)
    requires forall s :: s in students <==> s in others
    ensures Marked(table, course, date, students, post) == Marked(table, course, date, others, post)
  {
    var m1 := Marked(table, course, date, students, post);
    var m2 := Marked(table, course, date, others, post);
    forall k | k in m1 || k in m2 ensures k in m1 && k in m2 && m1[k] == m2[k] {
      MarkedAt(table, course, date, students, post, k);
      MarkedAt(table, course, date, others, post, k);
    }
    assert m1.Keys == m2.Keys;
  }

  /**
   * Only the checkbox fields of enrolled students are read: two forms that
   * agree on those give the same table, whatever other fields they carry.
   */
  lemma {:induction false} OnlyEnrolledFieldsRead(table: map<Key, bool>, course: CourseId, date: string,
                               students: seq<StudentId>, post: Post, post': Post)
    requires forall s :: s in students ==> Present(post, s) == Present(post', s)
    ensures Marked(table, course, date, students, post) == Marked(table, course, date, students, post')
  {
    var m1 := Marked(table, course, date, students, post);
    var m2 := Marked(table, course, date, students, post');
    forall k | k in m1 || k in m2 ensures k in m1 && k in m2 && m1[k] == m2[k] {
      MarkedAt(table, course, date, students, post, k);
      MarkedAt(table, course, date, students, post', k);
    }
    assert m1.Keys == m2.Keys;
  }

  /** Each student is read from a field of their own. */
  lemma StatusFieldsDistinct(s: StudentId, t: StudentId)
    requires s != t
    ensures StatusField(s) != StatusField(t)
  {
    Decimal.TextInjective(s, t);
    assert StatusField(s)[7..] == Decimal.Text(s);
    assert StatusField(t)[7..] == Decimal.Text(t);
  }

  /** The comparison is strict: today and any earlier text pass the guard. */
  lemma GuardIsStrict(submitted: string, today: string)
    ensures !IsFuture(submitted, today) <==> submitted == today || LexLess(submitted, today)
  {
    LexTrichotomy(submitted, today);
    LexTrichotomy(today, submitted);
  }

  /**
   * With today's text printed by `str(date.today())` and a well-formed
   * submitted date, the guard refuses exactly the dates after today.
   */
  lemma GuardRefusesExactlyLaterDates(submitted: string, today: IsoDate.Date)
    requires IsoDate.WellFormed(submitted) && IsoDate.ValidDate(today)
    ensures IsFuture(submitted, IsoDate.Format(today))
        <==> IsoDate.Before(today, IsoDate.Parse(submitted))
  {
    IsoDate.LexLessIsChronological(IsoDate.Format(today), submitted);
    IsoDate.ParseFormat(today);
  }

  /**
   * The guard reads chronology into the text only when the text is padded:
   * "2026-10-2" (2 October) compares above "2026-10-16" and is refused,
   * although it names an earlier day.
   */
  lemma UnpaddedPastDateRefused()
    ensures IsFuture("2026-10-2", "2026-10-16")
    ensures IsoDate.Before(IsoDate.Date(2026, 10, 2), IsoDate.Date(2026, 10, 16))
  {
    assert "2026-10-16"[8..] == "16" && "2026-10-2"[8..] == "2";
    assert LexLess("16", "2");
    LexAppend("2026-10-", "16", "2026-10-", "2");
    assert "2026-10-" + "16" == "2026-10-16" && "2026-10-" + "2" == "2026-10-2";
  }

  /** What a request produced. */
  datatype Response =
    | Redirected                     // all writes done, back to the form
    | RenderedError(error: string)   // the form shown again with an error, nothing written
    | CourseLookupFailed             // `Course.objects.get` raised, nothing written
    | InvalidDateRaised              // the first `update_or_create` refused the date text, nothing written

  /** The stored state the view works on: course enrolments and the attendance table. */
  class Store {
    var enrolment: map<CourseId, seq<StudentId>>
    var attendance: map<Key, bool>

    /** A course's students are a set: nobody is enrolled twice. */
    ghost predicate Valid()
      reads this
    {
      forall c :: c in enrolment ==> Distinct(enrolment[c])
    }

    constructor (enrolment: map<CourseId, seq<StudentId>>)
      requires forall c :: c in enrolment ==> Distinct(enrolment[c])
      ensures Valid()
      ensures this.enrolment == enrolment && attendance == map[]
    {
      this.enrolment := enrolment;
      attendance := map[];
    }

    /** The POST branch of `bulk_attendance`. */
    method BulkAttendance(post: Post, today: string) returns (response: Response)
      requires Valid()
      requires "date" in post
      modifies this`attendance
      ensures Valid()
      ensures IsFuture(post["date"], today) ==>
        response == RenderedError(FutureDateError) && attendance == old(attendance)
      ensures !IsFuture(post["date"], today) && LookupCourse(post, enrolment.Keys).None? ==>
        response == CourseLookupFailed && attendance == old(attendance)
      ensures !IsFuture(post["date"], today) && LookupCourse(post, enrolment.Keys).Some? ==>
        var course := LookupCourse(post, enrolment.Keys).value;
        if |enrolment[course]| > 0 && !StorableDate(post["date"]) then
          response == InvalidDateRaised && attendance == old(attendance)
        else
          response == Redirected
          && attendance == Marked(old(attendance), course, post["date"], enrolment[course], post)
          && attendance.Keys == old(attendance).Keys + WrittenKeys(course, post["date"], enrolment[course])
          && |WrittenKeys(course, post["date"], enrolment[course])| == |enrolment[course]|
    {
      var date := post["date"];
      if IsFuture(date, today) {
        return RenderedError(FutureDateError);
      }
      var found := LookupCourse(post, enrolment.Keys);
      if found.None? {
        return CourseLookupFailed;
      }
      var course := found.value;
      var students := enrolment[course];
      var i := 0;
      while i < |students|
        invariant 0 <= i <= |students|
        invariant attendance == Marked(old(attendance), course, date, students[..i], post)
        invariant i > 0 ==> StorableDate(date)
      {
        if !StorableDate(date) {
          return InvalidDateRaised;
        }
        var s := students[i];
        var status := StatusField(s) in post && post[StatusField(s)] == "on";
        attendance := attendance[(s, course, date) := status];
        i := i + 1;
        assert students[..i][..i - 1] == students[..i - 1];
      }
      assert students[..i] == students;
      MarkedKeys(old(attendance), course, date, students, post);
      WrittenKeysCount(course, date, students);
      return Redirected;
    }
  }
}
