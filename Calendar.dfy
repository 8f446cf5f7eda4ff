/** Proleptic Gregorian dates as Python's `datetime.date` has them:
    leap years, days per month, the day number (`toordinal`), the
    lexicographic comparison of dates and `date.replace(year=...)`. */
module Calendar {
  import opened Options

  datatype Date = Date(year: int, month: int, day: int)

  predicate IsLeapYear(y: int) {
    y % 4 == 0 && (y % 100 != 0 || y % 400 == 0)
  }

  function DaysInYear(y: int): int {
    if IsLeapYear(y) then 366 else 365
  }

  function DaysInMonth(y: int, m: int): (n: int)
    requires 1 <= m <= 12
    ensures 28 <= n <= 31
    ensures n == 29 <==> m == 2 && IsLeapYear(y)
  {
    if m == 2 then (if IsLeapYear(y) then 29 else 28)
    else if m == 4 || m == 6 || m == 9 || m == 11 then 30
    else 31
  }

  /** A date Python can represent (the upper year bound 9999 is not modelled). */
  predicate ValidDate(d: Date) {
    d.year >= 1 && 1 <= d.month <= 12 && 1 <= d.day <= DaysInMonth(d.year, d.month)
  }

  /** Python's date comparison: by year, then month, then day. */
  predicate Before(a: Date, b: Date) {
    a.year < b.year
    || (a.year == b.year && a.month < b.month)
    || (a.year == b.year && a.month == b.month && a.day < b.day)
  }

  /** Number of days in the years 1 .. y-1 (CPython's `_days_before_year`). */
  function DaysBeforeYear(y: int): int
    requires y >= 1
  {
    (y - 1) * 365 + (y - 1) / 4 - (y - 1) / 100 + (y - 1) / 400
  }

  const CumulativeDays: seq<int> := [0, 31, 59, 90, 120, 151, 181, 212, 243, 273, 304, 334]

  /** Number of days in year y before the first of month m (CPython's `_days_before_month`). */
  function DaysBeforeMonth(y: int, m: int): int
    requires 1 <= m <= 12
  {
    CumulativeDays[m - 1] + (if m > 2 && IsLeapYear(y) then 1 else 0)
  }

  function DayOfYear(d: Date): int
    requires 1 <= d.month <= 12
  {
    DaysBeforeMonth(d.year, d.month) + d.day
  }

  /** Day number with 0001-01-01 as day 1 (Python's `date.toordinal`). */
  function Ordinal(d: Date): int
    requires ValidDate(d)
  {
    DaysBeforeYear(d.year) + DayOfYear(d)
  }

  /** `(a - b).days` for two dates. */
  function DaysBetween(a: Date, b: Date): int
    requires ValidDate(a) && ValidDate(b)
  {
    Ordinal(a) - Ordinal(b)
  }

  /** `d.replace(year=y)`: `None` where Python raises ValueError (29 February
      moved into a year that is not a leap year, or a year below 1). */
  function ReplaceYear(d: Date, y: int): (r: Option<Date>)
    requires ValidDate(d)
    ensures r.Some? ==> ValidDate(r.value) && r.value == Date(y, d.month, d.day)
    ensures r.None? <==> y < 1 || (d.month == 2 && d.day == 29 && !IsLeapYear(y))
  {
    var e := Date(y, d.month, d.day);
    if ValidDate(e) then Some(e) else None
  }

  lemma LeapYearsAreApart(y: int)
    requires IsLeapYear(y)
    ensures !IsLeapYear(y + 1) && !IsLeapYear(y - 1)
  {
  }

  /** Stepping from y - 1 to y raises y / k by one exactly when k divides y. */
  lemma QuotientSteps(y: int)
    ensures y / 4 - (y - 1) / 4 == if y % 4 == 0 then 1 else 0
    ensures y / 100 - (y - 1) / 100 == if y % 100 == 0 then 1 else 0
    ensures y / 400 - (y - 1) / 400 == if y % 400 == 0 then 1 else 0
  {
  }

  /** A multiple of 400 is one of 100. */
  lemma HundredDividesFourHundreds(y: int)
    requires y % 400 == 0
    ensures y % 100 == 0
  {
    assert y == 100 * (4 * (y / 400));
  }

  /** A multiple of 100 is one of 4. */
  lemma FourDividesHundreds(y: int)
    requires y % 100 == 0
    ensures y % 4 == 0
  {
    assert y == 4 * (25 * (y / 100));
  }

  /** Consecutive years are DaysInYear apart. */
  lemma {:induction false} DaysBeforeNextYear(y: int)
    requires y >= 1
    ensures DaysBeforeYear(y + 1) == DaysBeforeYear(y) + DaysInYear(y)
  {
    QuotientSteps(y);
    if y % 400 == 0 {
      HundredDividesFourHundreds(y);
    }
    if y % 100 == 0 {
      FourDividesHundreds(y);
    }
  }

  lemma {:induction false} DaysBeforeYearGap(y1: int, y2: int)
    requires 1 <= y1 < y2
    ensures DaysBeforeYear(y2) >= DaysBeforeYear(y1) + DaysInYear(y1)
    decreases y2 - y1
  {
    if y2 == y1 + 1 {
      DaysBeforeNextYear(y1);
    } else {
      DaysBeforeYearGap(y1, y2 - 1);
      DaysBeforeNextYear(y2 - 1);
    }
  }

  lemma DaysBeforeMonthGap(y: int, m1: int, m2: int)
    requires 1 <= m1 < m2 <= 12
    ensures DaysBeforeMonth(y, m2) >= DaysBeforeMonth(y, m1) + DaysInMonth(y, m1)
  {
  }

  /** Every day of a valid date falls inside its own year. */
  lemma DayOfYearBounds(d: Date)
    requires ValidDate(d)
    ensures 1 <= DayOfYear(d) <= DaysInYear(d.year)
  {
    if d.month < 12 {
      DaysBeforeMonthGap(d.year, d.month, 12);
    }
  }

  /** Inside one year, the order of dates is the order of their day numbers. */
  lemma DayOfYearOrder(a: Date, b: Date)
    requires ValidDate(a) && ValidDate(b) && a.year == b.year
    ensures Before(a, b) <==> DayOfYear(a) < DayOfYear(b)
    ensures a == b <==> DayOfYear(a) == DayOfYear(b)
  {
    if a.month < b.month {
      DaysBeforeMonthGap(a.year, a.month, b.month);
    } else if b.month < a.month {
      DaysBeforeMonthGap(a.year, b.month, a.month);
    }
  }

  lemma BeforeHasSmallerOrdinal(a: Date, b: Date)
    requires ValidDate(a) && ValidDate(b) && Before(a, b)
    ensures Ordinal(a) < Ordinal(b)
  {
    DayOfYearBounds(a);
    DayOfYearBounds(b);
    if a.year < b.year {
      DaysBeforeYearGap(a.year, b.year);
    } else if a.month < b.month {
      DaysBeforeMonthGap(a.year, a.month, b.month);
    }
  }

  /** Python's lexicographic comparison of dates agrees with day numbers. */
  lemma OrdinalOrder(a: Date, b: Date)
    requires ValidDate(a) && ValidDate(b)
    ensures Before(a, b) <==> Ordinal(a) < Ordinal(b)
    ensures a == b <==> Ordinal(a) == Ordinal(b)
  {
    if Before(a, b) {
      BeforeHasSmallerOrdinal(a, b);
    } else if Before(b, a) {
      BeforeHasSmallerOrdinal(b, a);
    }
  }
}
