/**
 * Calendar dates as the age calculator sees them: a (year, month, day)
 * triple, the Gregorian validity rule of Python's `date`, the two
 * orderings the calculator relies on, and the date-or-datetime input
 * that `calculate_ages` accepts.
 */
module Dates {

  datatype Date = Date(year: int, month: int, day: int)

  /** Bounds of Python's `date` type (`MINYEAR`, `MAXYEAR`). */
  const MinYear: int := 1
  const MaxYear: int := 9999

  predicate IsLeapYear(y: int) {
    y % 4 == 0 && (y % 100 != 0 || y % 400 == 0)
  }

  function DaysInMonth(y: int, m: int): (n: int)
    requires 1 <= m <= 12
    ensures 28 <= n <= 31
    ensures n == 29 <==> m == 2 && IsLeapYear(y)
    ensures n == 28 <==> m == 2 && !IsLeapYear(y)
  {
    if m == 2 then (if IsLeapYear(y) then 29 else 28)
    else if m == 4 || m == 6 || m == 9 || m == 11 then 30
    else 31
  }

  /** A triple that Python's `date` constructor accepts. */
  predicate Valid(d: Date) {
    && MinYear <= d.year <= MaxYear
    && 1 <= d.month <= 12
    && 1 <= d.day <= DaysInMonth(d.year, d.month)
  }

  /**
   * Python's `(a.month, a.day) < (b.month, b.day)`: tuples compare
   * lexicographically, the year plays no part.
   */
  predicate MonthDayBefore(a: Date, b: Date) {
    a.month < b.month || (a.month == b.month && a.day < b.day)
  }

  /** Python's `a < b` on dates: lexicographic on (year, month, day). */
  predicate Before(a: Date, b: Date) {
    a.year < b.year || (a.year == b.year && MonthDayBefore(a, b))
  }

  /** Python's `a <= b` on dates. */
  predicate NotAfter(a: Date, b: Date) {
    !Before(b, a)
  }

  /** A time of day, as carried by a Python `datetime`. */
  datatype Clock = Clock(hour: int, minute: int, second: int, microsecond: int)

  /**
   * What `calculate_ages` may be handed: a plain `date`, or a `datetime`
   * (a subclass of `date` in Python) that also carries a time of day.
   */
  datatype Moment = OnDate(date: Date) | AtTime(date: Date, time: Clock)

  /** `birth_date.date()` when the input is a `datetime`; the date itself otherwise. */
  function DateOf(m: Moment): Date {
    match m
    case OnDate(d) => d
    case AtTime(d, _) => d
  }
}
