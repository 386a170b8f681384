/**
 * Calendar dates and their ISO 8601 complete extended representation
 * YYYY-MM-DD (section 5.2.1.1 of ISO 8601:2004), which is what Python's
 * `str()` of a `datetime.date` prints.
 */
module IsoDate {
  import opened StringOrder
  import opened Decimal

  datatype Date = Date(year: int, month: int, day: int)

  predicate IsLeapYear(y: int) { y % 4 == 0 && (y % 100 != 0 || y % 400 == 0) }

  function DaysInMonth(y: int, m: int): (n: int)
    requires 1 <= m <= 12
    ensures 28 <= n <= 31
  {
    if m == 2 then (if IsLeapYear(y) then 29 else 28)
    else if m == 4 || m == 6 || m == 9 || m == 11 then 30
    else 31
  }

  /** The dates a Python `datetime.date` can hold (years 1 to 9999). */
  predicate ValidDate(d: Date) {
    1 <= d.year <= 9999 && 1 <= d.month <= 12 && 1 <= d.day <= DaysInMonth(d.year, d.month)
  }

  /** Chronological order, as Python compares dates: by year, then month, then day. */
  predicate Before(a: Date, b: Date) {
    a.year < b.year
    || (a.year == b.year && (a.month < b.month || (a.month == b.month && a.day < b.day)))
  }

  /** Ten characters: four digits, '-', two digits, '-', two digits. */
  predicate WellFormed(s: string) {
    |s| == 10 && s[4] == '-' && s[7] == '-'
    && AllDigits(s[..4]) && AllDigits(s[5..7]) && AllDigits(s[8..])
  }

  /** The year, month and day fields of a well-formed text, read as numbers. */
  function Parse(s: string): (d: Date)
    requires WellFormed(s)
    ensures 0 <= d.year <= 9999 && 0 <= d.month <= 99 && 0 <= d.day <= 99
  {
    Date(Value(s[..4]), Value(s[5..7]), Value(s[8..]))
  }

  /** `str(d)` for a date `d`: the year padded to four digits, month and day to two. */
  function Format(d: Date): (s: string)
    requires ValidDate(d)
    ensures WellFormed(s)
  {
    var s := Digits(d.year, 4) + "-" + Digits(d.month, 2) + "-" + Digits(d.day, 2);
    assert s[..4] == Digits(d.year, 4) && s[5..7] == Digits(d.month, 2) && s[8..] == Digits(d.day, 2);
    s
  }

  /** Formatting a date and parsing the text gives the date back. */
  lemma ParseFormat(d: Date)
    requires ValidDate(d)
    ensures Parse(Format(d)) == d
  {
    var s := Format(d);
    assert s[..4] == Digits(d.year, 4) && s[5..7] == Digits(d.month, 2) && s[8..] == Digits(d.day, 2);
  }

  /** Parsing a text that names a real date and formatting it gives the text back. */
  lemma FormatParse(s: string)
    requires WellFormed(s) && ValidDate(Parse(s))
    ensures Format(Parse(s)) == s
  {
    var y, m, d := s[..4], s[5..7], s[8..];
    DigitsOfValue(y);
    DigitsOfValue(m);
    DigitsOfValue(d);
    assert Format(Parse(s)) == y + "-" + m + "-" + d;
    assert s == y + "-" + m + "-" + d;
  }

  /**
   * On well-formed texts, Python's string order is chronological order:
   * this is what makes comparing `str(date)` values a date comparison.
   */
  lemma LexLessIsChronological(a: string, b: string)
    requires WellFormed(a) && WellFormed(b)
    ensures LexLess(a, b) <==> Before(Parse(a), Parse(b))
  {
    LexLessIsNumericLess(a[..4], b[..4]);
    LexLessIsNumericLess(a[5..7], b[5..7]);
    LexLessIsNumericLess(a[8..], b[8..]);
    // Year field, then the rest.
    assert a == a[..4] + a[4..] && b == b[..4] + b[4..];
    LexAppend(a[..4], a[4..], b[..4], b[4..]);
    // The first dash is common to both.
    assert a[4..][1..] == a[5..] && b[4..][1..] == b[5..];
    assert LexLess(a[4..], b[4..]) == LexLess(a[5..], b[5..]);
    // Month field, then the rest.
    assert a[5..] == a[5..7] + a[7..] && b[5..] == b[5..7] + b[7..];
    LexAppend(a[5..7], a[7..], b[5..7], b[7..]);
    // The second dash, then the day field.
    assert a[7..][1..] == a[8..] && b[7..][1..] == b[8..];
    assert LexLess(a[7..], b[7..]) == LexLess(a[8..], b[8..]);
  }
}
