/** `calculate_days_until_date`: the next occurrence of a yearly date,
    with the clock passed in as `today`. */
module Occurrence {
  import opened Options
  import opened Calendar

  /** The inputs on which `date.replace` raises: a 29 February target when
      today's year is not a leap year, or when that year's 29 February
      is already past (the roll-over year is then never a leap year). */
  predicate ReplaceFails(target: Date, today: Date) {
    target.month == 2 && target.day == 29
    && (!IsLeapYear(today.year) || Before(Date(today.year, 2, 29), today))
  }

  predicate SameMonthDay(a: Date, b: Date) {
    a.month == b.month && a.day == b.day
  }

  /** The target's month-day in today's year, or in the next year when
      that is already past. */
  function NextOccurrence(target: Date, today: Date): (r: Option<Date>)
    requires ValidDate(target) && ValidDate(today)
    ensures r.None? <==> ReplaceFails(target, today)
    ensures r.Some? ==> ValidDate(r.value) && SameMonthDay(r.value, target)
    ensures r.Some? ==> !Before(r.value, today)
    ensures r.Some? ==> r.value.year == today.year || r.value.year == today.year + 1
  {
    match ReplaceYear(target, today.year)
    case None => None
    case Some(n) =>
      if Before(n, today) then ReplaceYear(n, today.year + 1) else Some(n)
  }

  /** `(next_occurrence - current_date).days`; `None` where Python raises. */
  function DaysUntil(target: Date, today: Date): (r: Option<int>)
    requires ValidDate(target) && ValidDate(today)
    ensures r.None? <==> ReplaceFails(target, today)
  {
    match NextOccurrence(target, today)
    case None => None
    case Some(n) => Some(DaysBetween(n, today))
  }

  /** The result lies in [0, 366). */
  lemma DaysUntilBounds(target: Date, today: Date)
    requires ValidDate(target) && ValidDate(today)
    requires DaysUntil(target, today).Some?
    ensures 0 <= DaysUntil(target, today).value < 366
  {
    var n := NextOccurrence(target, today).value;
    var y := today.year;
    OrdinalOrder(n, today);
    DayOfYearBounds(today);
    DayOfYearBounds(n);
    if n.year == y + 1 {
      var m := Date(y, n.month, n.day);
      assert ValidDate(m) && Before(m, today);
      OrdinalOrder(m, today);
      DaysBeforeNextYear(y);
      if IsLeapYear(y) {
        LeapYearsAreApart(y);
      }
    }
  }

  /** The result is 0 exactly when today is the target's month-day. */
  lemma DaysUntilZero(target: Date, today: Date)
    requires ValidDate(target) && ValidDate(today)
    requires DaysUntil(target, today).Some?
    ensures DaysUntil(target, today).value == 0 <==> SameMonthDay(target, today)
  {
    var n := NextOccurrence(target, today).value;
    OrdinalOrder(n, today);
  }

  /** Only the target's month and day matter, never its stored year. */
  lemma DaysUntilIgnoresYear(t1: Date, t2: Date, today: Date)
    requires ValidDate(t1) && ValidDate(t2) && ValidDate(today)
    requires SameMonthDay(t1, t2)
    ensures DaysUntil(t1, today) == DaysUntil(t2, today)
  {
  }

  /** The occurrence found is the earliest date on or after today with the
      target's month-day. */
  lemma NextOccurrenceIsEarliest(target: Date, today: Date, d: Date)
    requires ValidDate(target) && ValidDate(today) && ValidDate(d)
    requires NextOccurrence(target, today).Some?
    requires SameMonthDay(d, target) && !Before(d, today)
    ensures Ordinal(NextOccurrence(target, today).value) <= Ordinal(d)
  {
    var n := NextOccurrence(target, today).value;
    assert !Before(d, n);
    OrdinalOrder(d, n);
  }

  /** For one `today`, different month-days are different numbers of days away. */
  lemma DaysUntilInjective(t1: Date, t2: Date, today: Date)
    requires ValidDate(t1) && ValidDate(t2) && ValidDate(today)
    requires DaysUntil(t1, today).Some? && DaysUntil(t2, today).Some?
    requires DaysUntil(t1, today) == DaysUntil(t2, today)
    ensures SameMonthDay(t1, t2)
  {
    OrdinalOrder(NextOccurrence(t1, today).value, NextOccurrence(t2, today).value);
  }

  /** The bot's own birthday, 15 November (`bot_birthday_info`). */
  function BotBirthdayDaysUntil(today: Date): (r: int)
    requires ValidDate(today)
    ensures 0 <= r < 366
    ensures r == 0 <==> today.month == 11 && today.day == 15
  {
    var target := Date(today.year, 11, 15);
    DaysUntilBounds(target, today);
    DaysUntilZero(target, today);
    DaysUntil(target, today).value
  }

  /** Today 2024-03-01: 15.03 is 14 days away in 2024; 01.02 is next in
      2025, 337 days away (the leap day 2024-02-29 is already behind). */
  lemma LeapYearScenario()
    ensures NextOccurrence(Date(2000, 3, 15), Date(2024, 3, 1)) == Some(Date(2024, 3, 15))
    ensures DaysUntil(Date(2000, 3, 15), Date(2024, 3, 1)) == Some(14)
    ensures NextOccurrence(Date(2000, 2, 1), Date(2024, 3, 1)) == Some(Date(2025, 2, 1))
    ensures DaysUntil(Date(2000, 2, 1), Date(2024, 3, 1)) == Some(337)
  {
    assert DaysBeforeYear(2025) - DaysBeforeYear(2024) == 366;
  }

  /** A birthday stored as 29.02.2024 raises in 2025, and in 2024 after February. */
  lemma Feb29Scenario()
    ensures DaysUntil(Date(2024, 2, 29), Date(2025, 1, 10)).None?
    ensures DaysUntil(Date(2024, 2, 29), Date(2024, 3, 1)).None?
    ensures DaysUntil(Date(2024, 2, 29), Date(2024, 2, 1)) == Some(28)
  {
  }
}
