# Bulk attendance: a Dafny model

This project models the write path of the `bulk_attendance` view of a Django
school attendance application (`core/views.py`). A teacher posts a form that
names a course, a date and one checkbox per student. The view first refuses a
date later than today. It compares the submitted text with `str(date.today())`
as Python strings. Otherwise it looks the course up, walks the students
currently enrolled in it, and calls `update_or_create` once per student. Each
call is keyed by (student, course, date) and stores present exactly when the
field `status_<id>` equals `"on"`.

Modules:

- `StringOrder`: Python's `<` on `str` (`LexLess`). It is a strict total order,
  and it splits over concatenation.
- `Decimal`: ASCII digit strings. It defines `str()` of a non-negative int
  (`Text`), fixed-width zero padding (`Digits`) and reading digits back
  (`Value`, `ParseNat`). On digit strings of equal length, string order is
  numeric order.
- `IsoDate`: calendar dates and their ISO 8601 complete extended form
  YYYY-MM-DD (section 5.2.1.1 of ISO 8601:2004), as `str()` of a Python
  `date` prints it. `Parse` and `Format` are inverse to each other. On
  well-formed texts, string order is chronological order.
- `Attendance`: the date guard `IsFuture` and the checkbox reading `Present`.
  `Marked` is the table after the loop of `update_or_create` calls. The lemmas
  about `Marked` cover completeness, the frame, idempotence, order
  independence and ignored fields. The class `Store` holds the enrolment and
  the attendance table. Its method `BulkAttendance` runs the view's loop over
  the table in place and is proved against `Marked`.

The attendance table is a `map<(StudentId, CourseId, string), bool>`. A map
holds at most one record per key, so an upsert overwrites and never
duplicates. The lemmas state which keys exist afterwards and what each holds.
The enrolment is a map from course id to a sequence of distinct student ids.
The POST body is a `map<string, string>`, and today's date text is a
parameter of the method.

The view has no check that the teacher owns the course, so the model has
none. A student counts as present only when `status_<id>` is `"on"`.

The guard is a chronological check only on padded texts. `GuardRefusesExactlyLaterDates`
proves this for well-formed submitted dates. `UnpaddedPastDateRefused` shows
an unpadded text, "2026-10-2", that the guard refuses although it names an
earlier day than "2026-10-16".

A date text that the guard lets through but that names no real day, such as
a blank `""` or `"2026-02-30"`, is refused by the first `update_or_create`.
That call turns the text into a `date` and raises before it writes anything.
The model has this as the response `InvalidDateRaised`, with the table
unchanged. A course with no students makes no such call, so it redirects.

## Model

| member | source | states |
|---|---|---|
| `Attendance.Store.BulkAttendance` | core/views.py:26-51 | A future date (string-greater than today) returns "Future attendance not allowed" and leaves the table unchanged. A course that cannot be looked up leaves it unchanged. A course with students and a date text the store cannot hold raises at the first write and leaves the table unchanged. Otherwise the new table is `Marked(old table, course, date, enrolled students, post)` and the response is the redirect. Its keys are the old keys plus one distinct key per enrolled student. The loop keeps the table equal to `Marked` of the students visited so far. |
| `Attendance.LookupCourse` | core/views.py:38 | A found course is an existing course whose id is the number the `course` field spells. Every existing course whose id the `course` field spells in ASCII digits is found, leading zeros included, as `int()` reads them. |
| `Attendance.WrittenDateNotAfterToday` | core/views.py:31-47 | A date that passes the guard and that the store can hold is a real day no later than today. |
| `Attendance.WrittenKeysCount` | core/views.py:39-49 | When each student is enrolled once, the loop writes as many distinct keys as there are enrolled students. |
| `Attendance.GuardIsStrict` | core/views.py:31 | A submitted date passes the guard exactly when it equals today's text or is string-less than it. |
| `Attendance.GuardRefusesExactlyLaterDates` | core/views.py:30-31 | For a well-formed submitted date and today printed by `str(date.today())`, the guard refuses exactly the dates chronologically after today. |
| `Attendance.UnpaddedPastDateRefused` | core/views.py:31 | The unpadded text "2026-10-2" is refused when today is "2026-10-16", although 2 October is earlier. |
| `Attendance.MarkedAt` | core/views.py:41-49 | After the loop, key by key: a key exists iff it existed or belongs to an enrolled student of this course and date. Those keys hold the student's checkbox state, and every other key keeps its old value. |
| `Attendance.EnrolledStudentMarked` | core/views.py:38-49 | Every currently enrolled student has a record for (student, course, date). It is true iff `status_<id>` is in the form with value "on". |
| `Attendance.OtherRecordsUnchanged` | core/views.py:39-49 | Records of other courses, other dates and non-enrolled students are neither created, removed nor changed. |
| `Attendance.MarkedKeys` | core/views.py:44-49 | The record keys afterwards are the old keys plus exactly one key per enrolled student, so existing records are overwritten and never duplicated. |
| `Attendance.Idempotent` | core/views.py:44-49 | Applying the same course, date and form twice gives the same table as applying it once. |
| `Attendance.OrderIndependent` | core/views.py:41-49 | Two listings of the same enrolled students, in any order, give the same table. |
| `Attendance.OnlyEnrolledFieldsRead` | core/views.py:39-49 | Two forms that agree on the checkbox state of every enrolled student give the same table, so fields naming other students are ignored. |
| `Attendance.StatusFieldsDistinct` | core/views.py:42 | Different student ids have different `status_<id>` field names. |
| `IsoDate.LexLessIsChronological` | core/views.py:31 | On well-formed YYYY-MM-DD texts, Python string order coincides with chronological (year, month, day) order. |
| `IsoDate.ParseFormat` | core/views.py:31 | Parsing the text `str(d)` of a valid date gives back `d`. |
| `IsoDate.FormatParse` | core/views.py:31 | A well-formed text that names a real date is exactly what `str()` prints for that date. |
| `StringOrder.LexTrichotomy` | core/views.py:31 | Python string `<` is irreflexive and asymmetric, and any two strings are equal or ordered one way. |
| `StringOrder.LexAppend` | core/views.py:31 | Over equal-length prefixes, the prefixes decide the comparison, and only equal prefixes hand it to the rest. |
| `Decimal.LexLessIsNumericLess` | core/views.py:31 | Equal-length digit strings compare as strings as their numbers compare, and equal strings have equal numbers. |
| `Decimal.ValueFront` | core/views.py:31 | The value of a digit string is its leading digit times a power of ten plus the value of the rest. |
| `Decimal.DigitsOfValue` | core/views.py:31 | Zero-padding the value of a digit string to its own length gives the string back. |
| `Decimal.ParseText` | core/views.py:42 | Reading back the decimal text of a student id gives the id. |
| `Decimal.TextInjective` | core/views.py:42 | Different ids print as different decimal texts. |

## Left out

- The GET branch and every `render` and `redirect` call (core/views.py:22-24, 32-36, 51, 53-58): these are template output with no state change. They appear only as the `Response` value.
- `dashboard` and `mark_attendance`: these are a template render and Django form machinery that is not shown.
- `@login_required`, sessions and authentication: framework plumbing.
- The ORM: `Course.objects.get` is modelled as a lookup that fails when the `course` field is missing, is not a string of ASCII digits, or names no course. All three outcomes are one error with no writes. `int()` also accepts some spellings, such as surrounding spaces, a sign, underscores or non-ASCII digits. These are treated as failed lookups.
- `update_or_create` is modelled only by its effect, one map update per student.
- Django's date parsing also takes some other spellings of a day, for example an unpadded month or day ("2026-9-1"). The model treats every text that is not YYYY-MM-DD naming a real day as refused by the store.
- Attendance keys hold the submitted date text. Django would convert it to a `date` first, so two spellings of one day would share a record there. For the well-formed dates a date input sends, the two views agree.
- The `QueryDict` can hold several values per field, and `get` returns the last one. The model keeps one value per field.
- `date.today()`: today's date text is a parameter.
- A POST without a `date` field: comparing `None` with a string raises in Python 3. The method requires the field instead.
- Concurrent requests racing on one key, and a write failing midway through the loop: there is no concurrency or failure model for the store.
- Teacher-ownership checks, role resolution and dashboard aggregation: the modelled source has none of them.
