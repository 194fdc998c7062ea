/** Calendar dates as the price series indexes them, the month a date falls in,
    and the month-end date that labels a monthly row. */
module Calendar {

  /** A calendar day (proleptic Gregorian). */
  datatype Date = Date(year: int, month: int, day: int)

  predicate IsLeapYear(year: int) {
    year % 4 == 0 && (year % 100 != 0 || year % 400 == 0)
  }

  /** Number of days of a month; February depends on the leap-year rule. */
  function DaysInMonth(year: int, month: int): (n: int)
    requires 1 <= month <= 12
    ensures 28 <= n <= 31
    ensures n == 29 <==> month == 2 && IsLeapYear(year)
    ensures n == 28 <==> month == 2 && !IsLeapYear(year)
    ensures n == 30 <==> month in {4, 6, 9, 11}
  {
    if month == 2 then (if IsLeapYear(year) then 29 else 28)
    else if month in {4, 6, 9, 11} then 30
    else 31
  }

  predicate ValidDate(d: Date) {
    1 <= d.month <= 12 && 1 <= d.day <= DaysInMonth(d.year, d.month)
  }

  /** Strict chronological order: lexicographic on (year, month, day). */
  predicate Before(a: Date, b: Date) {
    a.year < b.year
    || (a.year == b.year && a.month < b.month)
    || (a.year == b.year && a.month == b.month && a.day < b.day)
  }

  /** The calendar month a date falls in, counted from year 0, January. */
  function MonthOf(d: Date): int {
    d.year * 12 + d.month - 1
  }

  /** Two dates with valid months share a month index exactly when they share
      year and month. */
  lemma MonthOfInjective(a: Date, b: Date)
    requires 1 <= a.month <= 12 && 1 <= b.month <= 12
    ensures MonthOf(a) == MonthOf(b) <==> a.year == b.year && a.month == b.month
  {
    assert MonthOf(a) - MonthOf(b) == (a.year - b.year) * 12 + (a.month - b.month);
  }

  /** Chronological order never goes back a month. */
  lemma BeforeMonthOrder(a: Date, b: Date)
    requires 1 <= a.month <= 12 && 1 <= b.month <= 12
    requires Before(a, b)
    ensures MonthOf(a) <= MonthOf(b)
  {
    if a.year < b.year {
      assert MonthOf(a) <= a.year * 12 + 11 < b.year * 12 <= MonthOf(b);
    }
  }

  /** A date in an earlier month comes first. */
  lemma EarlierMonthIsBefore(a: Date, b: Date)
    requires 1 <= a.month <= 12 && 1 <= b.month <= 12
    requires MonthOf(a) < MonthOf(b)
    ensures Before(a, b)
  {
    if !Before(a, b) && !(a.year == b.year && a.month == b.month) {
      BeforeMonthOrder(b, a);
    }
  }

  /** A date that does not come before another is in no later a month. */
  lemma NotBeforeMonthOrder(a: Date, b: Date)
    requires 1 <= a.month <= 12 && 1 <= b.month <= 12
    requires !Before(b, a)
    ensures MonthOf(a) <= MonthOf(b)
  {
    if MonthOf(b) < MonthOf(a) {
      EarlierMonthIsBefore(b, a);
    }
  }

  /** The last day of the month of `d`: the label a month-end resample gives
      to the row of that month. */
  function MonthEnd(d: Date): (e: Date)
    requires 1 <= d.month <= 12
    ensures ValidDate(e) && MonthOf(e) == MonthOf(d)
    ensures ValidDate(d) ==> !Before(e, d)
  {
    Date(d.year, d.month, DaysInMonth(d.year, d.month))
  }

  /** No valid date of a month comes after its month-end label. */
  lemma MonthEndIsLastDay(d: Date, x: Date)
    requires 1 <= d.month <= 12
    requires ValidDate(x) && MonthOf(x) == MonthOf(d)
    ensures !Before(MonthEnd(d), x)
  {
    MonthOfInjective(x, d);
  }
}
