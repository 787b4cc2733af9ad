/**
 * Gregorian calendar arithmetic shared by both month grids. A date is the
 * integer triple that JavaScript's `getFullYear`, `getMonth` and `getDate`
 * read: the month counts from 0 (January) to 11 (December). Day numbers
 * count from 1 January of year 1 in the proleptic Gregorian calendar, which
 * is what JavaScript's `Date` uses for every year.
 */
module Gregorian {

  datatype Date = Date(year: int, month: int, day: int)

  predicate IsLeapYear(year: int) {
    year % 4 == 0 && (year % 100 != 0 || year % 400 == 0)
  }

  /** The day of month of `new Date(year, month + 1, 0)`: the length of the month. */
  function DaysInMonth(year: int, month: int): (n: int)
    requires 0 <= month < 12
    ensures 28 <= n <= 31
  {
    if month == 1 then (if IsLeapYear(year) then 29 else 28)
    else if month == 3 || month == 5 || month == 8 || month == 10 then 30
    else 31
  }

  predicate ValidDate(d: Date) {
    0 <= d.month < 12 && 1 <= d.day <= DaysInMonth(d.year, d.month)
  }

  /** February is the only month whose length depends on the year; it has 29 days exactly in leap years. */
  lemma MonthLengths(year: int, month: int)
    requires 0 <= month < 12
    ensures month != 1 ==> DaysInMonth(year, month) == DaysInMonth(year + 1, month)
    ensures month == 1 ==> (DaysInMonth(year, month) == 29 <==> IsLeapYear(year))
    ensures month == 1 ==> (DaysInMonth(year, month) == 28 <==> !IsLeapYear(year))
  {
  }

  /** Months counted from January of year 0; consecutive months have consecutive indices. */
  function MonthIndex(year: int, month: int): int {
    12 * year + month
  }

  /** Within a year the index determines the year and the month. */
  lemma MonthIndexInjective(y1: int, m1: int, y2: int, m2: int)
    requires 0 <= m1 < 12 && 0 <= m2 < 12
    requires MonthIndex(y1, m1) == MonthIndex(y2, m2)
    ensures y1 == y2 && m1 == m2
  {
  }

  /**
   * `new Date(year, month, 1)` where month may lie outside 0..11: the Date
   * constructor carries whole years out of the month argument.
   */
  function MonthStart(year: int, month: int): (d: Date)
    ensures 0 <= d.month < 12 && d.day == 1
    ensures MonthIndex(d.year, d.month) == MonthIndex(year, month)
  {
    Date(year + month / 12, month % 12, 1)
  }

  /**
   * `new Date(year, month, 0).getDate()`: day 0 of a month is the last day of
   * the month before, so the result is that month's length.
   */
  function PrevMonthLength(year: int, month: int): (n: int)
    ensures 28 <= n <= 31
  {
    var p := MonthStart(year, month - 1);
    DaysInMonth(p.year, p.month)
  }

  /** The day PrevMonthLength names in the month before is followed by the first of `month`. */
  lemma PrevMonthLastDay(year: int, month: int)
    ensures var p, c := MonthStart(year, month - 1), MonthStart(year, month);
      DayNumber(p.year, p.month, PrevMonthLength(year, month)) + 1 == DayNumber(c.year, c.month, 1)
  {
    var p, c := MonthStart(year, month - 1), MonthStart(year, month);
    NextMonthFollowsLastDay(p.year, p.month);
    var q := MonthStart(p.year, p.month + 1);
    MonthIndexInjective(q.year, q.month, c.year, c.month);
  }

  function DaysInYear(year: int): int {
    if IsLeapYear(year) then 366 else 365
  }

  /** Days from 1 January of year 1 to 1 January of `year`. */
  function DaysBeforeYear(year: int): int {
    var y := year - 1;
    365 * y + y / 4 - y / 100 + y / 400
  }

  /** Days from 1 January to the first of `month` in `year`. */
  function DaysBeforeMonth(year: int, month: int): int
    requires 0 <= month <= 12
    decreases month
  {
    if month == 0 then 0 else DaysBeforeMonth(year, month - 1) + DaysInMonth(year, month - 1)
  }

  /** Days from 1 January of year 1 to the given date. */
  function DayNumber(year: int, month: int, day: int): int
    requires 0 <= month < 12
  {
    DaysBeforeYear(year) + DaysBeforeMonth(year, month) + day - 1
  }

  /**
   * `new Date(year, month, day).getDay()`: 0 is Sunday, 6 is Saturday.
   * 1 January of year 1 was a Monday.
   */
  function Weekday(year: int, month: int, day: int): (w: int)
    requires 0 <= month < 12
    ensures 0 <= w < 7
  {
    (DayNumber(year, month, day) + 1) % 7
  }

  /** Floor division by a positive constant goes up by one exactly at multiples. */
  lemma DivStep4(y: int)
    ensures (y + 1) / 4 == y / 4 + (if (y + 1) % 4 == 0 then 1 else 0)
  {
  }

  lemma DivStep100(y: int)
    ensures (y + 1) / 100 == y / 100 + (if (y + 1) % 100 == 0 then 1 else 0)
  {
  }

  lemma DivStep400(y: int)
    ensures (y + 1) / 400 == y / 400 + (if (y + 1) % 400 == 0 then 1 else 0)
  {
  }

  /** Moving a multiple of seven between the terms of a sum does not change its weekday. */
  lemma ModShift7(a: int, b: int)
    ensures (a + b) % 7 == (a % 7 + b) % 7
  {
  }

  /** A year has 366 days when it is a leap year and 365 otherwise. */
  lemma {:induction false} YearLength(year: int)
    ensures DaysBeforeYear(year + 1) == DaysBeforeYear(year) + DaysInYear(year)
  {
    var y := year - 1;
    DivStep4(y);
    DivStep100(y);
    DivStep400(y);
    LeapDivisors(year);
    assert DaysBeforeYear(year + 1) - DaysBeforeYear(year) == 365 + ((y + 1) / 4 - y / 4) - ((y + 1) / 100 - y / 100) + ((y + 1) / 400 - y / 400);
  }

  /** A multiple of 400 is a multiple of 100, and a multiple of 100 a multiple of 4. */
  lemma LeapDivisors(z: int)
    ensures z % 400 == 0 ==> z % 100 == 0
    ensures z % 100 == 0 ==> z % 4 == 0
  {
  }

  /** The twelve months add up to the length of the year. */
  lemma {:induction false} MonthsFillYear(year: int)
    ensures DaysBeforeMonth(year, 12) == DaysInYear(year)
  {
  }

  /**
   * The first of the following month (December rolls over to January of the
   * next year) comes the day after the last day of this month: this is the
   * meaning of `new Date(year, month + 1, 0)`.
   */
  lemma NextMonthFollowsLastDay(year: int, month: int)
    requires 0 <= month < 12
    ensures var n := MonthStart(year, month + 1);
      DayNumber(n.year, n.month, 1) == DayNumber(year, month, DaysInMonth(year, month)) + 1
  {
    if month == 11 {
      assert MonthStart(year, month + 1) == Date(year + 1, 0, 1);
      YearLength(year);
      MonthsFillYear(year);
    } else {
      assert MonthStart(year, month + 1) == Date(year, month + 1, 1);
      assert DaysBeforeMonth(year, month + 1) == DaysBeforeMonth(year, month) + DaysInMonth(year, month);
    }
  }

  /** Days of one month fall on consecutive weekdays. */
  lemma WeekdayOfDay(year: int, month: int, day: int)
    requires 0 <= month < 12
    ensures Weekday(year, month, day) == (Weekday(year, month, 1) + day - 1) % 7
  {
    ModShift7(DayNumber(year, month, 1) + 1, day - 1);
  }

  /** The weekday of the first of the next month is this month's first weekday moved on by the month's length. */
  lemma NextMonthWeekday(year: int, month: int)
    requires 0 <= month < 12
    ensures var n := MonthStart(year, month + 1);
      Weekday(n.year, n.month, 1) == (Weekday(year, month, 1) + DaysInMonth(year, month)) % 7
  {
    NextMonthFollowsLastDay(year, month);
    ModShift7(DayNumber(year, month, 1) + 1, DaysInMonth(year, month));
  }

  /** The calendar is anchored correctly: 1 January 1970 was a Thursday. */
  lemma EpochWeekday()
    ensures Weekday(1970, 0, 1) == 4
  {
  }
}
