/**
 * Calendar dates of the proleptic Gregorian calendar, as Python's
 * `datetime.date` represents them: a year in 1..9999, a month and a day.
 * Day numbers (the ordinal of a date, 1 for 0001-01-01) give an independent
 * reference for comparison and for adding days.
 */
module Dates {
  import opened Wrappers

  datatype Date = Date(year: int, month: int, day: int)

  const MinYear := 1
  const MaxYear := 9999

  /** Leap years: divisible by 4, except centuries not divisible by 400. */
  predicate IsLeapYear(y: int) {
    y % 4 == 0 && (y % 100 != 0 || y % 400 == 0)
  }

  /** Days in each month of a common year. */
  const MonthLengths: seq<int> := [31, 28, 31, 30, 31, 30, 31, 31, 30, 31, 30, 31]

  /** Days before the first of each month in a common year. */
  const CumulativeDays: seq<int> := [0, 31, 59, 90, 120, 151, 181, 212, 243, 273, 304, 334]

  function DaysInMonth(y: int, m: int): (n: int)
    requires 1 <= m <= 12
    ensures 28 <= n <= 31
    ensures n == 29 <==> m == 2 && IsLeapYear(y)
    ensures n == 28 <==> m == 2 && !IsLeapYear(y)
  {
    if m == 2 && IsLeapYear(y) then 29 else MonthLengths[m - 1]
  }

  function YearLength(y: int): int {
    if IsLeapYear(y) then 366 else 365
  }

  /** A date of the calendar, with no upper bound on the year. */
  predicate IsCalendarDate(d: Date) {
    d.year >= MinYear && 1 <= d.month <= 12 && 1 <= d.day <= DaysInMonth(d.year, d.month)
  }

  /** A date Python's `date` type can hold. */
  predicate IsValid(d: Date) {
    IsCalendarDate(d) && d.year <= MaxYear
  }

  type ValidDate = d: Date | IsValid(d) witness Date(1, 1, 1)

  const MaxDate: ValidDate := Date(MaxYear, 12, 31)

  /** Python's date ordering: lexicographic on (year, month, day). */
  predicate Less(a: Date, b: Date) {
    a.year < b.year ||
    (a.year == b.year && (a.month < b.month || (a.month == b.month && a.day < b.day)))
  }

  predicate LessEq(a: Date, b: Date) {
    Less(a, b) || a == b
  }

  // ---------------------------------------------------------------------
  // Day numbers

  function DaysBeforeYear(y: int): (n: nat)
    requires y >= MinYear
    decreases y
  {
    if y == MinYear then 0 else DaysBeforeYear(y - 1) + YearLength(y - 1)
  }

  function DaysBeforeMonth(y: int, m: int): int
    requires 1 <= m <= 12
  {
    CumulativeDays[m - 1] + (if m > 2 && IsLeapYear(y) then 1 else 0)
  }

  /** The ordinal of a date: 0001-01-01 is day 1. */
  function DayNumber(d: Date): int
    requires IsCalendarDate(d)
  {
    DaysBeforeYear(d.year) + DaysBeforeMonth(d.year, d.month) + d.day
  }

  lemma MonthStep(y: int, m: int)
    requires 1 <= m < 12
    ensures DaysBeforeMonth(y, m + 1) == DaysBeforeMonth(y, m) + DaysInMonth(y, m)
  {
  }

  lemma LastMonth(y: int)
    ensures DaysBeforeMonth(y, 12) + DaysInMonth(y, 12) == YearLength(y)
  {
  }

  /** Months fill the year in order: a later month starts after an earlier one ends. */
  lemma {:induction false} MonthsOrdered(y: int, m1: int, m2: int)
    requires 1 <= m1 < m2 <= 12
    ensures DaysBeforeMonth(y, m1) + DaysInMonth(y, m1) <= DaysBeforeMonth(y, m2)
    decreases m2
  {
    MonthStep(y, m2 - 1);
    if m1 < m2 - 1 {
      MonthsOrdered(y, m1, m2 - 1);
    }
  }

  /** A later year starts after an earlier one ends. */
  lemma {:induction false} YearsOrdered(y1: int, y2: int)
    requires MinYear <= y1 < y2
    ensures DaysBeforeYear(y1) + YearLength(y1) <= DaysBeforeYear(y2)
    decreases y2
  {
    if y1 < y2 - 1 {
      YearsOrdered(y1, y2 - 1);
    }
  }

  /** The day of the year of a calendar date lies within its year. */
  lemma DayOfYearBounds(d: Date)
    requires IsCalendarDate(d)
    ensures 1 <= DaysBeforeMonth(d.year, d.month) + d.day <= YearLength(d.year)
  {
    if d.month < 12 {
      MonthsOrdered(d.year, d.month, 12);
    }
    LastMonth(d.year);
  }

  /** Day numbers are strictly monotone in the date ordering. */
  lemma DayNumberMonotone(a: Date, b: Date)
    requires IsCalendarDate(a) && IsCalendarDate(b) && Less(a, b)
    ensures DayNumber(a) < DayNumber(b)
  {
    if a.year < b.year {
      DayOfYearBounds(a);
      DayOfYearBounds(b);
      YearsOrdered(a.year, b.year);
    } else if a.month < b.month {
      MonthsOrdered(a.year, a.month, b.month);
    }
  }

  /** Comparing dates is comparing their day numbers. */
  lemma LessIffDayNumber(a: Date, b: Date)
    requires IsCalendarDate(a) && IsCalendarDate(b)
    ensures Less(a, b) <==> DayNumber(a) < DayNumber(b)
  {
    if Less(a, b) {
      DayNumberMonotone(a, b);
    } else if Less(b, a) {
      DayNumberMonotone(b, a);
    }
  }

  /** A calendar date is determined by its day number. */
  lemma DayNumberInjective(a: Date, b: Date)
    requires IsCalendarDate(a) && IsCalendarDate(b)
    requires DayNumber(a) == DayNumber(b)
    ensures a == b
  {
    LessIffDayNumber(a, b);
    LessIffDayNumber(b, a);
  }

  // ---------------------------------------------------------------------
  // Adding days

  /** The day after `d`, rolling over month and year ends. */
  function NextDay(d: Date): (r: Date)
    requires IsCalendarDate(d)
    ensures IsCalendarDate(r)
    ensures DayNumber(r) == DayNumber(d) + 1
    ensures Less(d, r)
  {
    if d.day < DaysInMonth(d.year, d.month) then
      d.(day := d.day + 1)
    else if d.month < 12 then
      MonthStep(d.year, d.month);
      Date(d.year, d.month + 1, 1)
    else
      LastMonth(d.year);
      Date(d.year + 1, 1, 1)
  }

  /** `d` plus `n` days, on the unbounded calendar. */
  function AddDays(d: Date, n: nat): (r: Date)
    requires IsCalendarDate(d)
    ensures IsCalendarDate(r)
    ensures DayNumber(r) == DayNumber(d) + n
    ensures n > 0 ==> Less(d, r)
    decreases n
  {
    if n == 0 then d else AddDays(NextDay(d), n - 1)
  }

  /**
   * Python's `date + timedelta(days=n)`: the date `n` days later, or None
   * where Python raises OverflowError because the year passes 9999.
   */
  function PlusDays(d: ValidDate, n: nat): (r: Option<ValidDate>)
    ensures r.Some? <==> DayNumber(d) + n <= DayNumber(MaxDate)
    ensures r.Some? ==> DayNumber(r.value) == DayNumber(d) + n
    ensures r.Some? && n > 0 ==> Less(d, r.value)
  {
    var e := AddDays(d, n);
    LessIffDayNumber(MaxDate, e);
    if e.year <= MaxYear then var v: ValidDate := e; Some(v) else None
  }

  /** The sum is the only calendar date with the expected day number. */
  lemma PlusDaysUnique(d: ValidDate, n: nat, e: Date)
    requires IsCalendarDate(e) && DayNumber(e) == DayNumber(d) + n
    ensures e.year <= MaxYear ==> PlusDays(d, n) == Some(e)
    ensures e.year > MaxYear ==> PlusDays(d, n) == None
  {
    DayNumberInjective(e, AddDays(d, n));
  }

  /** `date.replace(year=y)`: None where Python raises ValueError. */
  function ReplaceYear(d: Date, y: int): (r: Option<ValidDate>)
    ensures r.Some? <==> IsValid(d.(year := y))
    ensures r.Some? ==> r.value == d.(year := y)
    ensures IsValid(d) && MinYear <= y <= MaxYear ==>
      (r.None? <==> d.month == 2 && d.day == 29 && !IsLeapYear(y))
  {
    var e := d.(year := y);
    if IsValid(e) then var v: ValidDate := e; Some(v) else None
  }

  /** `date.replace(year=y, month=m, day=dd)`: None where Python raises ValueError. */
  function Replace(y: int, m: int, dd: int): (r: Option<ValidDate>)
    ensures r.Some? <==> IsValid(Date(y, m, dd))
    ensures r.Some? ==> r.value == Date(y, m, dd)
    ensures MinYear <= y <= MaxYear && 1 <= m <= 12 && dd == 1 ==> r.Some?
    ensures m == 13 ==> r.None?
  {
    var e := Date(y, m, dd);
    if IsValid(e) then var v: ValidDate := e; Some(v) else None
  }
}
