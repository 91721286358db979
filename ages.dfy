/**
 * The age arithmetic of `calculate_ages`: the international age (만 나이,
 * whole birthdays elapsed) and the Korean counting age (세는 나이, one at
 * birth and one more at every new year). The program's clock read
 * (`date.today()`) is the explicit parameter `today`.
 */
module Ages {
  import opened Dates

  datatype Ages = Ages(international: int, counting: int)

  /** The birthday `k` years after `birth`, as a (year, month, day) triple. */
  function Anniversary(birth: Date, k: int): Date {
    Date(birth.year + k, birth.month, birth.day)
  }

  /**
   * The international age: the year difference, less one while today's
   * (month, day) is still before the birthday's. It is the number of
   * birthdays that have come: the `r`-th anniversary is not after today
   * and the next one is after it. A 29 February birthday is compared as
   * the triple it is, so in a common year it is reached on 1 March.
   */
  function InternationalAge(birth: Date, today: Date): (r: int)
    ensures NotAfter(Anniversary(birth, r), today)
    ensures Before(today, Anniversary(birth, r + 1))
  {
    today.year - birth.year - (if MonthDayBefore(today, birth) then 1 else 0)
  }

  /** The calendar years from `lo` to `hi`, both included. */
  ghost function CalendarYears(lo: int, hi: int): set<int>
    decreases hi - lo
  {
    if lo > hi then {} else CalendarYears(lo, hi - 1) + {hi}
  }

  lemma {:induction false} CalendarYearsMembers(lo: int, hi: int, y: int)
    ensures y in CalendarYears(lo, hi) <==> lo <= y <= hi
    decreases hi - lo
  {
    if lo <= hi {
      CalendarYearsMembers(lo, hi - 1, y);
    }
  }

  lemma {:induction false} CalendarYearsCount(lo: int, hi: int)
    ensures |CalendarYears(lo, hi)| == if lo <= hi then hi - lo + 1 else 0
    decreases hi - lo
  {
    if lo <= hi {
      CalendarYearsCount(lo, hi - 1);
      CalendarYearsMembers(lo, hi - 1, hi);
    }
  }

  /**
   * The counting age: the year difference plus one. It is the number of
   * calendar years the person has lived in, the birth year and the
   * current one included; month and day play no part.
   */
  function CountingAge(birth: Date, today: Date): (r: int)
    ensures birth.year <= today.year ==> r == |CalendarYears(birth.year, today.year)|
    ensures birth.year > today.year ==> r <= 0
  {
    CalendarYearsCount(birth.year, today.year);
    today.year - birth.year + 1
  }

  /**
   * `calculate_ages(birth_date)` evaluated on the day `today`. A datetime
   * is first reduced to its date. With `y` the year difference, the
   * international age is `y` once this year's birthday has come and `y - 1`
   * before it, and the counting age exceeds it by 1 or 2 accordingly.
   */
  function CalculateAges(birth: Moment, today: Date): (r: Ages)
    ensures var b := DateOf(birth);
            var y := today.year - b.year;
            && (r.international == y || r.international == y - 1)
            && (r.international == y <==> NotAfter(Anniversary(b, y), today))
            && r.counting == y + 1
            && (r.counting - r.international == 1 <==> !MonthDayBefore(today, b))
            && (r.counting - r.international == 2 <==> MonthDayBefore(today, b))
  {
    var b := DateOf(birth);
    Ages(InternationalAge(b, today), CountingAge(b, today))
  }

  /**
   * The international age counts the birthdays reached: the `k`-th
   * anniversary is on or before today exactly when `k` is at most the age.
   */
  lemma AnniversaryReachedIffWithinAge(birth: Date, today: Date, k: int)
    ensures NotAfter(Anniversary(birth, k), today) <==> k <= InternationalAge(birth, today)
  {
  }

  /** On the `k`-th birthday the international age is exactly `k`. */
  lemma AgeOnBirthday(birth: Date, k: int)
    ensures InternationalAge(birth, Anniversary(birth, k)) == k
  {
  }

  /** Both ages never decrease as the reference day moves forward. */
  lemma AgesMonotone(birth: Moment, t1: Date, t2: Date)
    requires NotAfter(t1, t2)
    ensures CalculateAges(birth, t1).international <= CalculateAges(birth, t2).international
    ensures CalculateAges(birth, t1).counting <= CalculateAges(birth, t2).counting
  {
  }

  /** The counting age depends on the year of `today` only. */
  lemma CountingAgeIgnoresMonthDay(birth: Moment, t1: Date, t2: Date)
    requires t1.year == t2.year
    ensures CalculateAges(birth, t1).counting == CalculateAges(birth, t2).counting
  {
  }

  /** The counting age goes up by one from 31 December to 1 January. */
  lemma CountingAgeStepsAtNewYear(birth: Moment, y: int)
    ensures CalculateAges(birth, Date(y + 1, 1, 1)).counting
            == CalculateAges(birth, Date(y, 12, 31)).counting + 1
  {
  }

  /** Born no later than today: international age at least 0, counting age at least 1. */
  lemma AgesNonNegative(birth: Moment, today: Date)
    requires NotAfter(DateOf(birth), today)
    ensures CalculateAges(birth, today).international >= 0
    ensures CalculateAges(birth, today).counting >= 1
  {
  }

  /** On the day of birth the ages are (0, 1). */
  lemma AgesOnDayOfBirth(birth: Moment)
    ensures CalculateAges(birth, DateOf(birth)) == Ages(0, 1)
  {
  }

  /** The time of day carried by a datetime never changes the result. */
  lemma TimeOfDayIgnored(d: Date, c: Clock, today: Date)
    ensures CalculateAges(AtTime(d, c), today) == CalculateAges(OnDate(d), today)
  {
  }

  /**
   * Nothing in the arithmetic caps the birth date at today: a birth date
   * after today gives a negative international age, and a birth year after
   * today's year a counting age of 0 or less.
   */
  lemma FutureBirthGivesNonPositiveAges(birth: Moment, today: Date)
    ensures Before(today, DateOf(birth)) ==> CalculateAges(birth, today).international < 0
    ensures DateOf(birth).year > today.year ==> CalculateAges(birth, today).counting <= 0
  {
  }

  /**
   * Two instances: a birth date one day in the future gives (-1, 1); one
   * on the next 1 January gives (-1, 0).
   */
  lemma FutureBirthDates()
    ensures CalculateAges(OnDate(Date(2024, 6, 16)), Date(2024, 6, 15)) == Ages(-1, 1)
    ensures CalculateAges(OnDate(Date(2025, 1, 1)), Date(2024, 12, 31)) == Ages(-1, 0)
  {
  }

  /**
   * Born on 29 February 2000: on 28 February 2001 the first birthday has
   * not come yet; on 1 March 2001 it has.
   */
  lemma LeapDayBirthday()
    ensures Valid(Date(2000, 2, 29)) && Valid(Date(2001, 2, 28)) && !Valid(Date(2001, 2, 29))
    ensures CalculateAges(OnDate(Date(2000, 2, 29)), Date(2001, 2, 28)) == Ages(0, 2)
    ensures CalculateAges(OnDate(Date(2000, 2, 29)), Date(2001, 3, 1)) == Ages(1, 2)
  {
  }

  /** Born 5 May 1999, seen on 15 June 2024: 25 years, counting age 26. */
  lemma WorkedExample()
    ensures CalculateAges(OnDate(Date(1999, 5, 5)), Date(2024, 6, 15)) == Ages(25, 26)
  {
  }
}
