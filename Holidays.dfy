/** The static holiday table and the four queries over it:
    `list_holidays`, `next_holiday`, `find_holiday` and `all_holidays`. */
module Holidays {
  import opened Options
  import opened Calendar
  import opened Occurrence
  import opened Sorting
  import opened Text

  /** One entry of `HOLIDAYS`: a name and its "DD.MM" date, kept as numbers. */
  datatype Holiday = Holiday(name: string, day: int, month: int)

  /** `HOLIDAYS`, in the insertion order of the Python dict. */
  const HOLIDAYS: seq<Holiday> := [
    Holiday("Новый год", 1, 1),
    Holiday("Рождество", 7, 1),
    Holiday("Старый Новый год", 14, 1),
    Holiday("День защитника Отечества", 23, 2),
    Holiday("Международный женский день", 8, 3),
    Holiday("День весны и труда", 1, 5),
    Holiday("День Победы", 9, 5),
    Holiday("День России", 12, 6),
    Holiday("День народного единства", 4, 11),
    Holiday("День святого Валентина", 14, 2),
    Holiday("День смеха", 1, 4),
    Holiday("Хэллоуин", 31, 10),
    Holiday("День рождения бота", 15, 11),
    Holiday("День независимости США", 4, 7),
    Holiday("День благодарения", 28, 11),
    Holiday("Хэллоуин в США", 31, 10),
    Holiday("День памяти", 27, 5),
    Holiday("День Европы", 9, 5),
    Holiday("Октоберфест", 16, 9),
    Holiday("День святого Патрика", 17, 3),
    Holiday("Китайский Новый год", 29, 1),
    Holiday("Праздник луны", 15, 8),
    Holiday("День образования КНР", 1, 10),
    Holiday("Карнавал в Рио", 24, 2),
    Holiday("День независимости Бразилии", 7, 9),
    Holiday("Дивали", 1, 11),
    Holiday("День независимости Индии", 15, 8),
    Holiday("Холи", 25, 3),
    Holiday("День мёртвых", 2, 11),
    Holiday("День независимости Мексики", 16, 9),
    Holiday("Ханами", 27, 3),
    Holiday("День основания государства", 11, 2),
    Holiday("День рождения императора", 23, 2),
    Holiday("Лунный Новый год", 10, 2),
    Holiday("День освобождения Кореи", 15, 8),
    Holiday("Международный день мира", 21, 9),
    Holiday("День Земли", 22, 4),
    Holiday("День защиты детей", 1, 6),
    Holiday("Всемирный день туризма", 27, 9),
    Holiday("Международный день музыки", 1, 10),
    Holiday("День космонавтики", 12, 4),
    Holiday("День учителя", 5, 10)
  ]

  /** A day and month that exist in every year, so not 29 February. */
  predicate EveryYearDate(h: Holiday) {
    1 <= h.month <= 12 && 1 <= h.day <= DaysInMonth(1, h.month)
  }

  predicate WellFormed(catalog: seq<Holiday>) {
    forall i :: 0 <= i < |catalog| ==> EveryYearDate(catalog[i])
  }

  lemma HolidaysWellFormed()
    ensures WellFormed(HOLIDAYS) && |HOLIDAYS| == 42
  {
    assert |HOLIDAYS| == 42;
    assert forall i :: 0 <= i < 42 ==> EveryYearDate(HOLIDAYS[i]);
  }

  /** `datetime.strptime(f"{date_str}.{year}", "%d.%m.%Y").date()` */
  function DateIn(h: Holiday, year: int): (d: Date)
    requires EveryYearDate(h) && year >= 1
    ensures ValidDate(d)
  {
    Date(year, h.month, h.day)
  }

  /** Days from today to the entry's next occurrence, counted inside the
      calendar year (no day numbers); `HolidayDaysUntilAgrees` shows it is
      `calculate_days_until_date` of the entry's date built in any year. */
  function HolidayDaysUntil(h: Holiday, today: Date): (r: int)
    requires EveryYearDate(h) && ValidDate(today)
    ensures 0 <= r < 366
    ensures r == 0 <==> today.month == h.month && today.day == h.day
  {
    HolidayDaysUntilAgrees(h, today.year, today);
    var thisYear := Date(today.year, h.month, h.day);
    if Before(thisYear, today) then
      DaysInYear(today.year) + DayOfYear(Date(today.year + 1, h.month, h.day)) - DayOfYear(today)
    else
      DayOfYear(thisYear) - DayOfYear(today)
  }

  /** `list_holidays` and `next_holiday` build the entry's date in today's
      year, `find_holiday` and `all_holidays` in 2024: for every such year
      Python's answer is the one above, and it never raises. */
  lemma HolidayDaysUntilAgrees(h: Holiday, year: int, today: Date)
    requires EveryYearDate(h) && year >= 1 && ValidDate(today)
    ensures DaysUntil(DateIn(h, year), today).Some?
    ensures var r := DaysUntil(DateIn(h, year), today).value;
      0 <= r < 366 && (r == 0 <==> today.month == h.month && today.day == h.day)
      && r == (var thisYear := Date(today.year, h.month, h.day);
               if Before(thisYear, today) then
                 DaysInYear(today.year) + DayOfYear(Date(today.year + 1, h.month, h.day)) - DayOfYear(today)
               else DayOfYear(thisYear) - DayOfYear(today))
  {
    var target := DateIn(h, year);
    DaysUntilBounds(target, today);
    DaysUntilZero(target, today);
    DaysBeforeNextYear(today.year);
  }

  /** The same fact stated by name: the day count Python returns for the
      entry's date in any year is `HolidayDaysUntil`. */
  lemma HolidayDaysUntilIs(h: Holiday, year: int, today: Date)
    requires EveryYearDate(h) && year >= 1 && ValidDate(today)
    ensures DaysUntil(DateIn(h, year), today) == Some(HolidayDaysUntil(h, today))
  {
    HolidayDaysUntilAgrees(h, year, today);
  }

  // ---------------------------------------------------------------- list_holidays

  /** A row of `holidays_with_days`: (holiday, days_until, holiday_date). */
  datatype Upcoming = Upcoming(name: string, days: int, date: Date)

  function UpcomingOf(h: Holiday, today: Date): Upcoming
    requires EveryYearDate(h) && ValidDate(today)
  {
    Upcoming(h.name, HolidayDaysUntil(h, today), DateIn(h, today.year))
  }

  function DaysOf(u: Upcoming): int {
    u.days
  }

  /** `holidays_with_days`: every entry annotated, in catalog order. */
  function WithDays(catalog: seq<Holiday>, today: Date): (r: seq<Upcoming>)
    requires WellFormed(catalog) && ValidDate(today)
    ensures |r| == |catalog|
  {
    if catalog == [] then []
    else WithDays(catalog[..|catalog| - 1], today) + [UpcomingOf(catalog[|catalog| - 1], today)]
  }

  /** Row i of `holidays_with_days` is entry i of the catalog, annotated. */
  lemma {:induction false} WithDaysRows(catalog: seq<Holiday>, today: Date)
    requires WellFormed(catalog) && ValidDate(today)
    ensures forall i :: 0 <= i < |catalog| ==> WithDays(catalog, today)[i] == UpcomingOf(catalog[i], today)
  {
    if catalog != [] {
      var rest := catalog[..|catalog| - 1];
      WithDaysRows(rest, today);
      assert forall i :: 0 <= i < |rest| ==> rest[i] == catalog[i];
    }
  }

  /** The ten nearest holidays: sorted by days-until, stable, truncated. */
  function NearestTen(catalog: seq<Holiday>, today: Date): seq<Upcoming>
    requires WellFormed(catalog) && ValidDate(today)
  {
    Take(SortBy(WithDays(catalog, today), DaysOf), 10)
  }

  method ListHolidays(catalog: seq<Holiday>, today: Date) returns (r: seq<Upcoming>)
    requires WellFormed(catalog) && ValidDate(today)
    ensures r == NearestTen(catalog, today)
  {
    var holidaysWithDays: seq<Upcoming> := [];
    var i := 0;
    while i < |catalog|
      invariant 0 <= i <= |catalog|
      invariant holidaysWithDays == WithDays(catalog[..i], today)
    {
      var h := catalog[i];
      var holidayDate := DateIn(h, today.year);
      var daysUntil := HolidayDaysUntil(h, today);
      assert catalog[..i + 1][..i] == catalog[..i];
      holidaysWithDays := holidaysWithDays + [Upcoming(h.name, daysUntil, holidayDate)];
      i := i + 1;
    }
    assert catalog[..|catalog|] == catalog;
    holidaysWithDays := SortBy(holidaysWithDays, DaysOf);
    r := Take(holidaysWithDays, 10);
  }

  /** The reply lists min(10, |catalog|) entries, nearest first; it is the
      front of a sorted permutation of the annotated catalog, so nothing
      left out is nearer; entries with equal days keep catalog order. */
  lemma NearestTenProperties(catalog: seq<Holiday>, today: Date)
    requires WellFormed(catalog) && ValidDate(today)
    ensures var r, w := NearestTen(catalog, today), WithDays(catalog, today);
      && |r| == (if |catalog| < 10 then |catalog| else 10)
      && r == SortBy(w, DaysOf)[..|r|] && multiset(SortBy(w, DaysOf)) == multiset(w)
      && SortedBy(r, DaysOf)
      && multiset(r) <= multiset(w)
      && (forall u, v :: u in r && v in w && v !in r ==> DaysOf(u) <= DaysOf(v))
      && (forall k :: WithKey(r, DaysOf, k) <= WithKey(w, DaysOf, k))
  {
    SortedFront(WithDays(catalog, today), DaysOf, 10);
    SortByCorrect(WithDays(catalog, today), DaysOf);
  }

  /** The reply's date is built in today's year even when the holiday is
      next year's: on 2024-12-29, New Year is 3 days away and shown as
      2024-01-01. */
  lemma UpcomingDateScenario()
    ensures UpcomingOf(Holiday("Новый год", 1, 1), Date(2024, 12, 29)) == Upcoming("Новый год", 3, Date(2024, 1, 1))
  {
    assert DayOfYear(Date(2024, 12, 29)) == 364;
  }

  // ---------------------------------------------------------------- next_holiday

  /** Entry k is the first minimum of the days-until values and is under
      the sentinel 365. */
  predicate FirstNearest(catalog: seq<Holiday>, today: Date, k: int)
    requires WellFormed(catalog) && ValidDate(today)
  {
    0 <= k < |catalog|
    && HolidayDaysUntil(catalog[k], today) < 365
    && (forall j :: 0 <= j < k ==>
          HolidayDaysUntil(catalog[j], today) > HolidayDaysUntil(catalog[k], today))
    && (forall j :: 0 <= j < |catalog| ==>
          HolidayDaysUntil(catalog[j], today) >= HolidayDaysUntil(catalog[k], today))
  }

  method NextHoliday(catalog: seq<Holiday>, today: Date) returns (r: Option<Upcoming>)
    requires WellFormed(catalog) && ValidDate(today)
    ensures r.None? <==> forall j :: 0 <= j < |catalog| ==> HolidayDaysUntil(catalog[j], today) >= 365
    ensures r.Some? ==> exists k :: FirstNearest(catalog, today, k) && r.value == UpcomingOf(catalog[k], today)
  {
    r := None;
    var minDays := 365;
    ghost var best := -1;
    ghost var seen: seq<int> := [];
    for i := 0 to |catalog|
      invariant |seen| == i
      invariant forall j :: 0 <= j < i ==> seen[j] == HolidayDaysUntil(catalog[j], today)
      invariant r.None? <==> forall j :: 0 <= j < i ==> seen[j] >= 365
      invariant r.None? ==> minDays == 365
      invariant r.Some? ==> 0 <= best < i && r.value == UpcomingOf(catalog[best], today)
      invariant r.Some? ==> minDays == seen[best] < 365
      invariant r.Some? ==> forall j :: 0 <= j < best ==> seen[j] > minDays
      invariant forall j :: 0 <= j < i ==> seen[j] >= minDays
    {
      var h := catalog[i];
      var holidayDate := DateIn(h, today.year);
      var daysUntil := HolidayDaysUntil(h, today);
      if daysUntil < minDays {
        minDays := daysUntil;
        r := Some(Upcoming(h.name, daysUntil, holidayDate));
        best := i;
      }
      seen := seen + [daysUntil];
    }
    if r.Some? {
      assert FirstNearest(catalog, today, best);
    }
  }

  /** For one `today`, entries on different month-days are different
      numbers of days away. */
  lemma HolidayDaysUntilInjective(h1: Holiday, h2: Holiday, today: Date)
    requires EveryYearDate(h1) && EveryYearDate(h2) && ValidDate(today)
    requires HolidayDaysUntil(h1, today) == HolidayDaysUntil(h2, today)
    ensures h1.month == h2.month && h1.day == h2.day
  {
    var y := today.year;
    var a, b := Date(y, h1.month, h1.day), Date(y, h2.month, h2.day);
    var a', b' := Date(y + 1, h1.month, h1.day), Date(y + 1, h2.month, h2.day);
    DayOfYearOrder(a, today);
    DayOfYearOrder(b, today);
    DayOfYearBounds(a);
    DayOfYearBounds(b);
    DayOfYearBounds(a');
    DayOfYearBounds(b');
    if Before(a, today) == Before(b, today) {
      DayOfYearOrder(a, b);
      DayOfYearOrder(a', b');
    }
  }

  /** Two entries on different month-days cannot both be 365 days away,
      so `next_holiday` then always answers. */
  lemma SomeHolidayWithinYear(catalog: seq<Holiday>, today: Date, a: int, b: int)
    requires WellFormed(catalog) && ValidDate(today)
    requires 0 <= a < |catalog| && 0 <= b < |catalog|
    requires catalog[a].month != catalog[b].month || catalog[a].day != catalog[b].day
    ensures exists j :: 0 <= j < |catalog| && HolidayDaysUntil(catalog[j], today) < 365
  {
    if HolidayDaysUntil(catalog[a], today) == HolidayDaysUntil(catalog[b], today) {
      HolidayDaysUntilInjective(catalog[a], catalog[b], today);
    }
    if HolidayDaysUntil(catalog[a], today) < 365 {
      assert 0 <= a < |catalog|;
    } else {
      assert HolidayDaysUntil(catalog[b], today) < 365;
    }
  }

  lemma HolidaysAlwaysHaveNext(today: Date)
    requires ValidDate(today)
    ensures WellFormed(HOLIDAYS)
    ensures exists j :: 0 <= j < |HOLIDAYS| && HolidayDaysUntil(HOLIDAYS[j], today) < 365
  {
    HolidaysWellFormed();
    SomeHolidayWithinYear(HOLIDAYS, today, 0, 1);
  }

  // ---------------------------------------------------------------- find_holiday

  /** A row of `found_holidays` (and of the `all_holidays` listing):
      (holiday, date_str, days_until). */
  datatype Listed = Listed(name: string, dateText: string, days: int)

  function ListedOf(h: Holiday, today: Date): Listed
    requires EveryYearDate(h) && ValidDate(today)
  {
    Listed(h.name, DayMonthText(h.day, h.month), HolidayDaysUntil(h, today))
  }

  /** `search_term in holiday.lower()`, the term already lowered. */
  predicate NameMatches(loweredTerm: string, h: Holiday) {
    Contains(Lower(h.name), loweredTerm)
  }

  /** The matching entries, in catalog order. */
  function Found(catalog: seq<Holiday>, loweredTerm: string, today: Date): (r: seq<Listed>)
    requires WellFormed(catalog) && ValidDate(today)
    ensures |r| <= |catalog|
  {
    if catalog == [] then []
    else
      var rest := catalog[..|catalog| - 1];
      var h := catalog[|catalog| - 1];
      Found(rest, loweredTerm, today) + (if NameMatches(loweredTerm, h) then [ListedOf(h, today)] else [])
  }

  method FindHoliday(catalog: seq<Holiday>, term: string, today: Date) returns (r: seq<Listed>)
    requires WellFormed(catalog) && ValidDate(today)
    ensures r == Found(catalog, Lower(term), today)
  {
    var searchTerm := Lower(term);
    r := [];
    for i := 0 to |catalog|
      invariant r == Found(catalog[..i], searchTerm, today)
    {
      var h := catalog[i];
      assert catalog[..i + 1][..i] == catalog[..i];
      if Contains(Lower(h.name), searchTerm) {
        r := r + [ListedOf(h, today)];
      }
    }
    assert catalog[..|catalog|] == catalog;
  }

  /** Searching a concatenation searches each part in turn: catalog order is kept. */
  lemma {:induction false} FoundAppend(a: seq<Holiday>, b: seq<Holiday>, loweredTerm: string, today: Date)
    requires WellFormed(a) && WellFormed(b) && ValidDate(today)
    ensures WellFormed(a + b)
    ensures Found(a + b, loweredTerm, today) == Found(a, loweredTerm, today) + Found(b, loweredTerm, today)
    decreases |b|
  {
    if b == [] {
      assert a + b == a;
    } else {
      var b' := b[..|b| - 1];
      assert (a + b)[..|a + b| - 1] == a + b';
      assert (a + b)[|a + b| - 1] == b[|b| - 1];
      FoundAppend(a, b', loweredTerm, today);
    }
  }

  /** Entry i of the catalog matches and gives the row x. */
  predicate FoundAt(catalog: seq<Holiday>, loweredTerm: string, today: Date, i: int, x: Listed)
    requires WellFormed(catalog) && ValidDate(today)
  {
    0 <= i < |catalog| && NameMatches(loweredTerm, catalog[i]) && x == ListedOf(catalog[i], today)
  }

  /** A row is found exactly when some catalog entry matches and gives that row. */
  lemma {:induction false} FoundMembers(catalog: seq<Holiday>, loweredTerm: string, today: Date, x: Listed)
    requires WellFormed(catalog) && ValidDate(today)
    ensures x in Found(catalog, loweredTerm, today) <==> exists i :: FoundAt(catalog, loweredTerm, today, i, x)
  {
    if catalog != [] {
      var rest := catalog[..|catalog| - 1];
      var n := |rest|;
      FoundMembers(rest, loweredTerm, today, x);
      if exists i :: FoundAt(rest, loweredTerm, today, i, x) {
        var i :| FoundAt(rest, loweredTerm, today, i, x);
        assert FoundAt(catalog, loweredTerm, today, i, x);
      }
      if exists i :: FoundAt(catalog, loweredTerm, today, i, x) {
        var i :| FoundAt(catalog, loweredTerm, today, i, x);
        if i < n {
          assert FoundAt(rest, loweredTerm, today, i, x);
        } else {
          assert x in Found(catalog, loweredTerm, today);
        }
      }
      if x in Found(catalog, loweredTerm, today) {
        if x in Found(rest, loweredTerm, today) {
          var i :| FoundAt(rest, loweredTerm, today, i, x);
          assert FoundAt(catalog, loweredTerm, today, i, x);
        } else {
          assert FoundAt(catalog, loweredTerm, today, n, x);
        }
      }
    }
  }

  /** Lowering an already lowered term again changes nothing: the term is
      searched for in one case only. */
  lemma FoundIgnoresTermCase(catalog: seq<Holiday>, term: string, today: Date)
    requires WellFormed(catalog) && ValidDate(today)
    ensures Found(catalog, Lower(Lower(term)), today) == Found(catalog, Lower(term), today)
  {
    LowerIdempotent(term);
  }

  // ---------------------------------------------------------------- all_holidays

  /** The entries of one month, in catalog order (`holidays_by_month[month]`). */
  function InMonth(catalog: seq<Holiday>, month: int): (r: seq<Holiday>)
    ensures forall i :: 0 <= i < |r| ==> r[i].month == month
  {
    if catalog == [] then []
    else
      var h := catalog[|catalog| - 1];
      InMonth(catalog[..|catalog| - 1], month) + (if h.month == month then [h] else [])
  }

  lemma InMonthStep(catalog: seq<Holiday>, i: int, month: int)
    requires 0 <= i < |catalog|
    ensures InMonth(catalog[..i + 1], month)
         == InMonth(catalog[..i], month) + (if catalog[i].month == month then [catalog[i]] else [])
  {
    assert catalog[..i + 1][..i] == catalog[..i];
  }

  lemma {:induction false} InMonthDrawnFrom(catalog: seq<Holiday>, month: int)
    ensures multiset(InMonth(catalog, month)) <= multiset(catalog)
  {
    if catalog != [] {
      var rest := catalog[..|catalog| - 1];
      InMonthDrawnFrom(rest, month);
      assert catalog == rest + [catalog[|catalog| - 1]];
    }
  }

  /** The entries of a month appear, in catalog order, as the catalog's
      entries of that month: a month with no entry has an empty list. */
  lemma {:induction false} InMonthEmpty(catalog: seq<Holiday>, month: int)
    ensures InMonth(catalog, month) == [] <==> forall i :: 0 <= i < |catalog| ==> catalog[i].month != month
  {
    if catalog != [] {
      var rest := catalog[..|catalog| - 1];
      InMonthEmpty(rest, month);
      assert forall i :: 0 <= i < |rest| ==> rest[i] == catalog[i];
    }
  }

  /** The integer reading of the "DD.MM" sort key; see `DayMonthTextOrder`. */
  function TextKey(h: Holiday): int {
    h.day * 100 + h.month
  }

  datatype MonthGroup = MonthGroup(month: int, entries: seq<Listed>)

  function ListedAll(hs: seq<Holiday>, today: Date): (r: seq<Listed>)
    requires WellFormed(hs) && ValidDate(today)
    ensures |r| == |hs| && forall i :: 0 <= i < |hs| ==> r[i] == ListedOf(hs[i], today)
  {
    seq(|hs|, i requires 0 <= i < |hs| => ListedOf(hs[i], today))
  }

  lemma SortedMonthWellFormed(catalog: seq<Holiday>, month: int)
    requires WellFormed(catalog)
    ensures WellFormed(SortBy(InMonth(catalog, month), TextKey))
  {
    var s := InMonth(catalog, month);
    var p := SortBy(s, TextKey);
    InMonthDrawnFrom(catalog, month);
    SortByCorrect(s, TextKey);
    forall i | 0 <= i < |p| ensures EveryYearDate(p[i]) {
      assert p[i] in multiset(catalog);
    }
  }

  /** The first loop of `all_holidays`: `holidays_by_month`, each month's
      entries in catalog order, and only months that have one. */
  method GroupByMonth(catalog: seq<Holiday>) returns (holidaysByMonth: map<int, seq<Holiday>>)
    ensures forall m :: m in holidaysByMonth <==> InMonth(catalog, m) != []
    ensures forall m :: m in holidaysByMonth ==> holidaysByMonth[m] == InMonth(catalog, m)
  {
    holidaysByMonth := map[];
    for i := 0 to |catalog|
      invariant forall m :: m in holidaysByMonth <==> InMonth(catalog[..i], m) != []
      invariant forall m :: m in holidaysByMonth ==> holidaysByMonth[m] == InMonth(catalog[..i], m)
    {
      var h := catalog[i];
      forall m ensures InMonth(catalog[..i + 1], m)
                    == InMonth(catalog[..i], m) + (if h.month == m then [h] else []) {
        InMonthStep(catalog, i, m);
      }
      if h.month !in holidaysByMonth {
        holidaysByMonth := holidaysByMonth[h.month := []];
      }
      holidaysByMonth := holidaysByMonth[h.month := holidaysByMonth[h.month] + [h]];
    }
    assert catalog[..|catalog|] == catalog;
  }

  /** One month's block of the reply: its entries sorted by "DD.MM". */
  function GroupOf(catalog: seq<Holiday>, month: int, today: Date): MonthGroup
    requires WellFormed(catalog) && ValidDate(today)
  {
    SortedMonthWellFormed(catalog, month);
    MonthGroup(month, ListedAll(SortBy(InMonth(catalog, month), TextKey), today))
  }

  /** The blocks of the months 1 .. upTo that have an entry, in month order. */
  function ListingUpTo(catalog: seq<Holiday>, today: Date, upTo: nat): seq<MonthGroup>
    requires WellFormed(catalog) && ValidDate(today)
  {
    if upTo == 0 then []
    else
      ListingUpTo(catalog, today, upTo - 1)
      + (if InMonth(catalog, upTo) != [] then [GroupOf(catalog, upTo, today)] else [])
  }

  /** The reply of `all_holidays`: one block per month that has a holiday. */
  function Listing(catalog: seq<Holiday>, today: Date): seq<MonthGroup>
    requires WellFormed(catalog) && ValidDate(today)
  {
    ListingUpTo(catalog, today, 12)
  }

  /** One month's block, the inner loop of `all_holidays`: the month's
      entries sorted by "DD.MM", each with its day count from its date in
      2024. */
  method MonthBlock(catalog: seq<Holiday>, month: int, holidays: seq<Holiday>, today: Date) returns (g: MonthGroup)
    requires WellFormed(catalog) && ValidDate(today)
    requires holidays == InMonth(catalog, month)
    ensures g.month == month
    ensures var p := SortBy(holidays, TextKey);
      multiset(p) == multiset(holidays) && SortedBy(p, TextKey)
      && (forall k :: WithKey(p, TextKey, k) == WithKey(holidays, TextKey, k))
      && |g.entries| == |p|
      && (forall i :: 0 <= i < |p| ==> EveryYearDate(p[i]) && g.entries[i] == ListedOf(p[i], today))
    ensures g == GroupOf(catalog, month, today)
  {
    SortedMonthWellFormed(catalog, month);
    var sortedHolidays := SortBy(holidays, TextKey);
    var entries: seq<Listed> := [];
    for i := 0 to |sortedHolidays|
      invariant |entries| == i
      invariant forall j :: 0 <= j < i ==> entries[j] == ListedOf(sortedHolidays[j], today)
    {
      var h := sortedHolidays[i];
      HolidayDaysUntilIs(h, 2024, today);
      var daysUntil := DaysUntil(DateIn(h, 2024), today).value;
      entries := entries + [Listed(h.name, DayMonthText(h.day, h.month), daysUntil)];
    }
    g := MonthGroup(month, entries);
    assert g == GroupOf(catalog, month, today);
    GroupOfShape(catalog, month, today);
  }

  /** A month's block lists a stable "DD.MM" sort of the month's entries. */
  lemma GroupOfShape(catalog: seq<Holiday>, month: int, today: Date)
    requires WellFormed(catalog) && ValidDate(today)
    ensures GroupOf(catalog, month, today).month == month
    ensures var p := SortBy(InMonth(catalog, month), TextKey);
      multiset(p) == multiset(InMonth(catalog, month)) && SortedBy(p, TextKey)
      && (forall k :: WithKey(p, TextKey, k) == WithKey(InMonth(catalog, month), TextKey, k))
      && |GroupOf(catalog, month, today).entries| == |p|
      && (forall i :: 0 <= i < |p| ==> EveryYearDate(p[i]) && GroupOf(catalog, month, today).entries[i] == ListedOf(p[i], today))
  {
    SortedMonthWellFormed(catalog, month);
    GroupOrder(catalog, month);
    SortByCorrect(InMonth(catalog, month), TextKey);
  }

  method AllHolidays(catalog: seq<Holiday>, today: Date) returns (groups: seq<MonthGroup>)
    requires WellFormed(catalog) && ValidDate(today)
    ensures groups == Listing(catalog, today)
  {
    var holidaysByMonth := GroupByMonth(catalog);
    // The keys are months 1..12, so visiting 1..12 in order is sorted(keys).
    groups := [];
    for month := 1 to 13
      invariant groups == ListingUpTo(catalog, today, month - 1)
    {
      if month in holidaysByMonth {
        var g := MonthBlock(catalog, month, holidaysByMonth[month], today);
        groups := groups + [g];
      }
    }
  }

  /** Ties (equal "DD.MM") stay in catalog order, and within a month the
      listing is by day. */
  lemma GroupOrder(catalog: seq<Holiday>, month: int)
    ensures forall k :: WithKey(SortBy(InMonth(catalog, month), TextKey), TextKey, k) == WithKey(InMonth(catalog, month), TextKey, k)
    ensures forall i, j :: 0 <= i < j < |SortBy(InMonth(catalog, month), TextKey)| ==>
      SortBy(InMonth(catalog, month), TextKey)[i].day <= SortBy(InMonth(catalog, month), TextKey)[j].day
    ensures multiset(SortBy(InMonth(catalog, month), TextKey)) == multiset(InMonth(catalog, month))
  {
    var s := InMonth(catalog, month);
    var p := SortBy(s, TextKey);
    SortByCorrect(s, TextKey);
    forall k ensures WithKey(p, TextKey, k) == WithKey(s, TextKey, k) {
      SortByStable(s, TextKey, k);
    }
    forall i, j | 0 <= i < j < |p| ensures p[i].day <= p[j].day {
      assert p[i] in multiset(s) && p[j] in multiset(s);
      assert p[i].month == month && p[j].month == month;
    }
  }

  /** Each block is its month's `GroupOf`, for a month 1 .. upTo that has an entry. */
  lemma {:induction false} ListingBlocks(catalog: seq<Holiday>, today: Date, upTo: nat)
    requires WellFormed(catalog) && ValidDate(today)
    ensures forall k :: 0 <= k < |ListingUpTo(catalog, today, upTo)| ==>
      1 <= ListingUpTo(catalog, today, upTo)[k].month <= upTo
      && InMonth(catalog, ListingUpTo(catalog, today, upTo)[k].month) != []
      && ListingUpTo(catalog, today, upTo)[k] == GroupOf(catalog, ListingUpTo(catalog, today, upTo)[k].month, today)
  {
    if upTo > 0 {
      ListingBlocks(catalog, today, upTo - 1);
      var prev := ListingUpTo(catalog, today, upTo - 1);
      var cur := ListingUpTo(catalog, today, upTo);
      assert forall k :: 0 <= k < |prev| ==> cur[k] == prev[k];
    }
  }

  /** The blocks come in strictly ascending month order. */
  lemma {:induction false} ListingAscending(catalog: seq<Holiday>, today: Date, upTo: nat)
    requires WellFormed(catalog) && ValidDate(today)
    ensures forall k, l :: 0 <= k < l < |ListingUpTo(catalog, today, upTo)| ==>
      ListingUpTo(catalog, today, upTo)[k].month < ListingUpTo(catalog, today, upTo)[l].month
  {
    if upTo > 0 {
      ListingAscending(catalog, today, upTo - 1);
      ListingBlocks(catalog, today, upTo - 1);
      var prev := ListingUpTo(catalog, today, upTo - 1);
      var cur := ListingUpTo(catalog, today, upTo);
      assert forall k :: 0 <= k < |prev| ==> cur[k] == prev[k];
    }
  }

  /** Every month 1 .. upTo that has an entry has a block. */
  lemma {:induction false} ListingComplete(catalog: seq<Holiday>, today: Date, upTo: nat, m: int)
    requires WellFormed(catalog) && ValidDate(today)
    requires 1 <= m <= upTo && InMonth(catalog, m) != []
    ensures exists k :: 0 <= k < |ListingUpTo(catalog, today, upTo)| && ListingUpTo(catalog, today, upTo)[k].month == m
  {
    var prev := ListingUpTo(catalog, today, upTo - 1);
    var cur := ListingUpTo(catalog, today, upTo);
    if m == upTo {
      assert cur[|prev|].month == m;
    } else {
      ListingComplete(catalog, today, upTo - 1, m);
      var k :| 0 <= k < |prev| && prev[k].month == m;
      assert cur[k] == prev[k];
    }
  }

  /** Every entry is in its own month's list. */
  lemma {:induction false} InMonthHasEntry(catalog: seq<Holiday>, i: int)
    requires 0 <= i < |catalog|
    ensures catalog[i] in InMonth(catalog, catalog[i].month)
  {
    var rest := catalog[..|catalog| - 1];
    if i < |rest| {
      InMonthHasEntry(rest, i);
      assert rest[i] == catalog[i];
    }
  }

  /** An entry of a month's list is a row of that month's block. */
  lemma GroupOfHasEntry(catalog: seq<Holiday>, month: int, today: Date, h: Holiday)
    requires WellFormed(catalog) && ValidDate(today)
    requires h in InMonth(catalog, month)
    ensures EveryYearDate(h) && ListedOf(h, today) in GroupOf(catalog, month, today).entries
  {
    GroupOfShape(catalog, month, today);
    var p := SortBy(InMonth(catalog, month), TextKey);
    assert h in multiset(p);
    var j :| 0 <= j < |p| && p[j] == h;
    assert GroupOf(catalog, month, today).entries[j] == ListedOf(h, today);
  }

  /** Every entry of a well-formed catalog shows up, with its "DD.MM" text
      and day count, in the block of its month. */
  lemma ListingCoversCatalog(catalog: seq<Holiday>, today: Date, i: int)
    requires WellFormed(catalog) && ValidDate(today) && 0 <= i < |catalog|
    ensures exists k :: 0 <= k < |Listing(catalog, today)|
                        && Listing(catalog, today)[k].month == catalog[i].month
                        && ListedOf(catalog[i], today) in Listing(catalog, today)[k].entries
  {
    var h := catalog[i];
    var m := h.month;
    InMonthHasEntry(catalog, i);
    ListingComplete(catalog, today, 12, m);
    ListingBlocks(catalog, today, 12);
    var listing := Listing(catalog, today);
    var k :| 0 <= k < |listing| && listing[k].month == m;
    GroupOfHasEntry(catalog, m, today, h);
    assert listing[k] == GroupOf(catalog, m, today);
  }
}
