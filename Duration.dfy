/** What `count_days` and `stats` compute from a stored start date:
    elapsed days, the Russian plural class of the word "day", the
    fixed-divisor week/month/year breakdown and the milestone table. */
module Duration {
  import opened Options
  import opened Calendar

  /** Days since `start`, `(current_date - start_date).days`. */
  function Elapsed(start: Date, today: Date): (days: int)
    requires ValidDate(start) && ValidDate(today)
    ensures days >= 0 <==> !Before(today, start)
    ensures days == 0 <==> start == today
  {
    OrdinalOrder(today, start);
    DaysBetween(today, start)
  }

  /** The three forms of the noun: "день" (One), "дня" (Few), "дней" (Many). */
  datatype DayWord = One | Few | Many

  function Word(w: DayWord): string {
    match w
    case One => "день"
    case Few => "дня"
    case Many => "дней"
  }

  /** The branch chosen by `count_days`; Python's `%` by a positive number
      never yields a negative remainder, and neither does Dafny's. */
  function PluralOf(n: int): DayWord {
    if n % 10 == 1 && n % 100 != 11 then One
    else if 2 <= n % 10 <= 4 && (n % 100 < 10 || n % 100 >= 20) then Few
    else Many
  }

  /** Each class in both directions. */
  lemma PluralClasses(n: int)
    ensures PluralOf(n) == One <==> n % 10 == 1 && n % 100 != 11
    ensures PluralOf(n) == Few <==> 2 <= n % 10 <= 4 && !(10 <= n % 100 <= 19)
    ensures PluralOf(n) == Many <==>
      !(n % 10 == 1 && n % 100 != 11) && !(2 <= n % 10 <= 4 && !(10 <= n % 100 <= 19))
  {
  }

  /** The rule stated on the last two decimal digits of a count: the teens
      take "дней"; otherwise a last digit 1 takes "день" and 2..4 "дня". */
  function PluralByDigits(n: nat): DayWord {
    var units, tens := n % 10, (n / 10) % 10;
    if tens == 1 then Many
    else if units == 1 then One
    else if 2 <= units <= 4 then Few
    else Many
  }

  lemma PluralMatchesDigitRule(n: nat)
    ensures PluralOf(n) == PluralByDigits(n)
  {
    var r := n % 100;
    assert n == (n / 100) * 100 + r;
    assert n / 10 == (n / 100) * 10 + r / 10;
    assert (n / 10) % 10 == r / 10;
    assert n % 10 == r % 10;
  }

  /** The word each count is printed with. */
  lemma PluralExamples()
    ensures Word(PluralOf(1)) == "день" && Word(PluralOf(21)) == "день" && Word(PluralOf(101)) == "день"
    ensures Word(PluralOf(2)) == "дня" && Word(PluralOf(24)) == "дня"
    ensures Word(PluralOf(0)) == "дней" && Word(PluralOf(5)) == "дней" && Word(PluralOf(11)) == "дней"
    ensures Word(PluralOf(12)) == "дней" && Word(PluralOf(111)) == "дней"
    ensures Word(PluralOf(365)) == "дней" && Word(PluralOf(1000)) == "дней"
  {
  }

  datatype Breakdown = Breakdown(days: int, weeks: int, months: int, years: int)

  /** `days // 7`, `days // 30`, `days // 365`: floors by fixed divisors. */
  function BreakdownOf(days: int): (b: Breakdown)
    ensures b.days == days
    ensures b.weeks * 7 <= days < b.weeks * 7 + 7
    ensures b.months * 30 <= days < b.months * 30 + 30
    ensures b.years * 365 <= days < b.years * 365 + 365
  {
    Breakdown(days, days / 7, days / 30, days / 365)
  }

  /** The "📊 Это ..." line of `count_days`. */
  datatype Summary = InYears(years: int, extraDays: int) | InMonths(months: int, extraDays: int) | NoSummary

  function SummaryOf(days: int): (s: Summary)
    ensures s.InYears? <==> days >= 365
    ensures s.InMonths? <==> 30 <= days < 365
    ensures s.NoSummary? <==> days < 30
    ensures s.InYears? ==> s.years >= 1 && s.years * 365 + s.extraDays == days && 0 <= s.extraDays < 365
    ensures s.InMonths? ==> 1 <= s.months <= 12 && s.months * 30 + s.extraDays == days && 0 <= s.extraDays < 30
  {
    var b := BreakdownOf(days);
    if b.years > 0 then InYears(b.years, days % 365)
    else if b.months > 0 then InMonths(b.months, days % 30)
    else NoSummary
  }

  datatype Milestone = HundredDays | FullYear | FiveHundredDays | ThousandDays

  const SpecialDates: map<int, Milestone> :=
    map[100 := HundredDays, 365 := FullYear, 500 := FiveHundredDays, 1000 := ThousandDays]

  /** The celebratory note, present only on an exact match. */
  function MilestoneOf(days: int): (r: Option<Milestone>)
    ensures r.Some? <==> days == 100 || days == 365 || days == 500 || days == 1000
  {
    if days in SpecialDates then Some(SpecialDates[days]) else None
  }

  lemma MilestoneExactMatch()
    ensures MilestoneOf(99).None? && MilestoneOf(101).None?
    ensures MilestoneOf(100) == Some(HundredDays) && MilestoneOf(365) == Some(FullYear)
    ensures MilestoneOf(500) == Some(FiveHundredDays) && MilestoneOf(1000) == Some(ThousandDays)
  {
  }

  /** The structured content of the `count_days` reply. */
  datatype CountReport = CountReport(
    partner: Option<string>, start: Date, days: int, word: DayWord,
    summary: Summary, milestone: Option<Milestone>)

  function CountReportOf(start: Date, partner: Option<string>, today: Date): (r: CountReport)
    requires ValidDate(start) && ValidDate(today)
    ensures r.partner == partner && r.start == start
    ensures r.days >= 0 <==> !Before(today, start)
    ensures r.days == 0 <==> start == today
    ensures r.summary.NoSummary? <==> r.days < 30
    ensures r.milestone.Some? <==> r.days in SpecialDates
  {
    var days := Elapsed(start, today);
    CountReport(partner, start, days, PluralOf(days), SummaryOf(days), MilestoneOf(days))
  }

  /** The structured content of the `stats` reply; the years line is shown
      only when there is at least one full 365-day year. */
  datatype StatsReport = StatsReport(
    partner: Option<string>, start: Date, days: int, weeks: int, months: int, years: Option<int>)

  function StatsReportOf(start: Date, partner: Option<string>, today: Date): (r: StatsReport)
    requires ValidDate(start) && ValidDate(today)
    ensures r.partner == partner && r.start == start
    ensures r.days >= 0 <==> !Before(today, start)
    ensures r.weeks * 7 <= r.days < r.weeks * 7 + 7
    ensures r.months * 30 <= r.days < r.months * 30 + 30
    ensures r.years.Some? <==> r.days >= 365
    ensures r.years.Some? ==> r.years.value * 365 <= r.days < r.years.value * 365 + 365
  {
    var b := BreakdownOf(Elapsed(start, today));
    StatsReport(partner, start, b.days, b.weeks, b.months, if b.years > 0 then Some(b.years) else None)
  }

  /** Together since 2023-01-01, asked on 2024-01-01: 365 days, one year, 12 months. */
  lemma OneYearScenario()
    ensures Elapsed(Date(2023, 1, 1), Date(2024, 1, 1)) == 365
    ensures BreakdownOf(365) == Breakdown(365, 52, 12, 1)
    ensures SummaryOf(365) == InYears(1, 0)
    ensures MilestoneOf(365) == Some(FullYear)
  {
    DaysBeforeNextYear(2023);
    assert DaysBetween(Date(2024, 1, 1), Date(2023, 1, 1)) == DaysInYear(2023);
    assert 365 / 7 == 52 && 365 / 30 == 12 && 365 / 365 == 1 && 365 % 365 == 0;
  }
}
