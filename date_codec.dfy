/**
 * A strict reference reading of the "YY-MM-DD" pattern both commands pass to moment
 * (main.ts): two-digit year, month and day separated by '-', years 69..99 read as
 * 1969..1999 and 00..68 as 2000..2068 (moment's two-digit-year rule), and a day that
 * does not exist in its month (30 February, say) is an Invalid Date.  A date decodes to
 * its day number, counted from 1 January 1969; local midnight of that day is a strictly
 * increasing function of it, so comparisons agree with the timestamps `toDate()` gives.
 */
module DateCodec {
  import opened Wrappers

  datatype Date = Date(year: int, month: int, day: int)

  predicate IsLeapYear(y: int)
  {
    y % 4 == 0 && (y % 100 != 0 || y % 400 == 0)
  }

  function YearLength(y: int): nat
  {
    if IsLeapYear(y) then 366 else 365
  }

  function DaysInMonth(y: int, m: int): nat
    requires 1 <= m <= 12
  {
    if m == 2 then (if IsLeapYear(y) then 29 else 28)
    else if m == 4 || m == 6 || m == 9 || m == 11 then 30
    else 31
  }

  /** The calendar dates a "YY-MM-DD" name can denote. */
  predicate ValidDate(d: Date)
  {
    1969 <= d.year <= 2068 && 1 <= d.month <= 12 && 1 <= d.day <= DaysInMonth(d.year, d.month)
  }

  /** Days from 1 January 1969 to 1 January of year `y`. */
  function DaysBeforeYear(y: int): nat
    requires y >= 1969
    decreases y
  {
    if y == 1969 then 0 else DaysBeforeYear(y - 1) + YearLength(y - 1)
  }

  /** Days from 1 January to the first day of month `m` of year `y`. */
  function DaysBeforeMonth(y: int, m: int): nat
    requires 1 <= m <= 12
    decreases m
  {
    if m == 1 then 0 else DaysBeforeMonth(y, m - 1) + DaysInMonth(y, m - 1)
  }

  /** Days from 1 January 1969 to `d`. */
  function DayNumber(d: Date): int
    requires ValidDate(d)
  {
    DaysBeforeYear(d.year) + DaysBeforeMonth(d.year, d.month) + d.day - 1
  }

  /** Calendar order: by year, then month, then day. */
  predicate Precedes(a: Date, b: Date)
  {
    a.year < b.year ||
    (a.year == b.year && (a.month < b.month || (a.month == b.month && a.day < b.day)))
  }

  lemma {:induction false} YearsAreOrdered(y: int, y': int)
    requires 1969 <= y < y'
    ensures DaysBeforeYear(y) + YearLength(y) <= DaysBeforeYear(y')
  {
    if y' > y + 1 {
      YearsAreOrdered(y, y' - 1);
    }
  }

  lemma MonthsAreOrdered(y: int, m: int, m': int)
    requires 1 <= m < m' <= 12
    ensures DaysBeforeMonth(y, m) + DaysInMonth(y, m) <= DaysBeforeMonth(y, m')
  {
  }

  lemma MonthsFillYear(y: int, m: int)
    requires 1 <= m <= 12
    ensures DaysBeforeMonth(y, m) + DaysInMonth(y, m) <= YearLength(y)
  {
  }

  /** A date's day number lies within its year. */
  lemma DayNumberInYear(d: Date)
    requires ValidDate(d)
    ensures DaysBeforeYear(d.year) <= DayNumber(d) < DaysBeforeYear(d.year) + YearLength(d.year)
  {
    MonthsFillYear(d.year, d.month);
  }

  /** Day numbers follow calendar order, so comparing them compares the dates. */
  lemma DayNumberIsMonotone(a: Date, b: Date)
    requires ValidDate(a) && ValidDate(b)
    ensures Precedes(a, b) <==> DayNumber(a) < DayNumber(b)
    ensures a == b <==> DayNumber(a) == DayNumber(b)
  {
    if a.year != b.year {
      DayNumberInYear(a);
      DayNumberInYear(b);
      if a.year < b.year {
        YearsAreOrdered(a.year, b.year);
      } else {
        YearsAreOrdered(b.year, a.year);
      }
    } else if a.month < b.month {
      MonthsAreOrdered(a.year, a.month, b.month);
    } else if b.month < a.month {
      MonthsAreOrdered(a.year, b.month, a.month);
    }
  }

  predicate IsDigit(c: char)
  {
    '0' <= c <= '9'
  }

  function DigitValue(c: char): int
    requires IsDigit(c)
  {
    c as int - '0' as int
  }

  function DigitChar(n: int): (c: char)
    requires 0 <= n <= 9
    ensures IsDigit(c) && DigitValue(c) == n
  {
    (n + '0' as int) as char
  }

  /** moment's reading of a two-digit year. */
  function FullYear(yy: int): int
  {
    if yy > 68 then 1900 + yy else 2000 + yy
  }

  function TwoDigits(s: string, i: int): int
    requires 0 <= i && i + 1 < |s| && IsDigit(s[i]) && IsDigit(s[i + 1])
  {
    10 * DigitValue(s[i]) + DigitValue(s[i + 1])
  }

  function FormatTwoDigits(n: int): (s: string)
    requires 0 <= n <= 99
    ensures |s| == 2 && IsDigit(s[0]) && IsDigit(s[1]) && TwoDigits(s, 0) == n
  {
    [DigitChar(n / 10), DigitChar(n % 10)]
  }

  /** `name` has the shape DD-DD-DD with D a decimal digit. */
  predicate WellFormed(name: string)
  {
    |name| == 8 && name[2] == '-' && name[5] == '-' &&
    IsDigit(name[0]) && IsDigit(name[1]) && IsDigit(name[3]) &&
    IsDigit(name[4]) && IsDigit(name[6]) && IsDigit(name[7])
  }

  /** Renders a date in the "YY-MM-DD" pattern. */
  function Format(d: Date): (name: string)
    requires ValidDate(d)
    ensures WellFormed(name)
  {
    FormatTwoDigits(d.year % 100) + "-" + FormatTwoDigits(d.month) + "-" + FormatTwoDigits(d.day)
  }

  /** A well-formed name is the rendering of the three numbers it spells. */
  lemma SpelledOut(name: string)
    requires WellFormed(name)
    ensures name == FormatTwoDigits(TwoDigits(name, 0)) + "-" + FormatTwoDigits(TwoDigits(name, 3)) + "-" +
                    FormatTwoDigits(TwoDigits(name, 6))
  {
    var f := FormatTwoDigits(TwoDigits(name, 0)) + "-" + FormatTwoDigits(TwoDigits(name, 3)) + "-" +
             FormatTwoDigits(TwoDigits(name, 6));
    assert |f| == 8;
    forall i | 0 <= i < 8 ensures f[i] == name[i] {
    }
  }

  lemma FormatOfRead(name: string, d: Date)
    requires WellFormed(name) && ValidDate(d)
    requires d == Date(FullYear(TwoDigits(name, 0)), TwoDigits(name, 3), TwoDigits(name, 6))
    ensures Format(d) == name
  {
    SpelledOut(name);
    assert d.year % 100 == TwoDigits(name, 0);
  }

  /** Reads a basename in the "YY-MM-DD" pattern; None for a name that is not a valid date. */
  function Parse(name: string): (r: Option<Date>)
    ensures r.Some? ==> ValidDate(r.value) && Format(r.value) == name
  {
    if !WellFormed(name) then None
    else
      var d := Date(FullYear(TwoDigits(name, 0)), TwoDigits(name, 3), TwoDigits(name, 6));
      if ValidDate(d) then
        FormatOfRead(name, d);
        Some(d)
      else None
  }

  /** Formatting a date and reading it back gives the same date. */
  lemma ParseFormat(d: Date)
    requires ValidDate(d)
    ensures Parse(Format(d)) == Some(d)
  {
  }

  /**
   * The timestamp a basename decodes to, as a day number: names that render a valid date
   * decode to that date's day number, and every other name is an Invalid Date (None).
   */
  function Decode(name: string): (r: Option<int>)
    ensures r.Some? <==> exists d :: ValidDate(d) && Format(d) == name
    ensures forall d :: ValidDate(d) && Format(d) == name ==> r == Some(DayNumber(d))
  {
    assert forall d :: ValidDate(d) && Format(d) == name ==> Parse(name) == Some(d) by {
      forall d | ValidDate(d) && Format(d) == name ensures Parse(name) == Some(d) {
        ParseFormat(d);
      }
    }
    match Parse(name)
    case None => None
    case Some(d) => Some(DayNumber(d))
  }

  /** Two decoded names compare as their calendar dates do. */
  lemma DecodeFollowsCalendar(name: string, name': string)
    requires Parse(name).Some? && Parse(name').Some?
    ensures Decode(name).value < Decode(name').value <==> Precedes(Parse(name).value, Parse(name').value)
  {
    DayNumberIsMonotone(Parse(name).value, Parse(name').value);
  }
}
