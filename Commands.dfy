/** The business logic of the bot's store-backed commands, with today's
    date passed in: `set_date`, `count_days`, `stats`, `add_birthday_cmd`,
    `list_birthdays`, `delete_birthday_cmd` and `bot_birthday_info`. */
module Commands {
  import opened Options
  import opened Calendar
  import opened Occurrence
  import opened Duration
  import opened Store

  datatype SetDateOutcome = InvalidDate | FutureDate | Saved(start: Date)

  /** `set_date` after `strptime` has read day, month and year: a date that
      does not exist is refused, a date after today is refused, and
      otherwise the user's relationship row is written. */
  method SetDate(store: RecordStore, user: UserId, day: int, month: int, year: int,
                 partner: Option<string>, today: Date) returns (outcome: SetDateOutcome)
    requires store.Valid() && ValidDate(today)
    modifies store
    ensures store.Valid()
    ensures outcome.InvalidDate? <==> !ValidDate(Date(year, month, day))
    ensures outcome.FutureDate? <==> ValidDate(Date(year, month, day)) && Before(today, Date(year, month, day))
    ensures outcome.Saved? ==> outcome.start == Date(year, month, day) && Elapsed(outcome.start, today) >= 0
    ensures outcome.Saved? ==> store.relationships == old(store.relationships)[user := Relationship(outcome.start, partner)]
    ensures !outcome.Saved? ==> store.relationships == old(store.relationships)
    ensures store.birthdays == old(store.birthdays)
  {
    var start := Date(year, month, day);
    if !ValidDate(start) {
      outcome := InvalidDate;
      return;
    }
    if Before(today, start) {
      outcome := FutureDate;
      return;
    }
    store.SetRelationship(user, start, partner);
    outcome := Saved(start);
  }

  /** `count_days`: `None` when no start date is set. */
  method CountDays(store: RecordStore, user: UserId, today: Date) returns (r: Option<CountReport>)
    requires store.Valid() && ValidDate(today)
    ensures r.None? <==> user !in store.relationships
    ensures r.Some? ==> r.value == CountReportOf(store.relationships[user].start, store.relationships[user].partner, today)
  {
    var data := store.GetRelationship(user);
    if data.None? {
      return None;
    }
    r := Some(CountReportOf(data.value.start, data.value.partner, today));
  }

  /** `stats`: `None` when no start date is set. */
  method Stats(store: RecordStore, user: UserId, today: Date) returns (r: Option<StatsReport>)
    requires store.Valid() && ValidDate(today)
    ensures r.None? <==> user !in store.relationships
    ensures r.Some? ==> r.value == StatsReportOf(store.relationships[user].start, store.relationships[user].partner, today)
  {
    var data := store.GetRelationship(user);
    if data.None? {
      return None;
    }
    r := Some(StatsReportOf(data.value.start, data.value.partner, today));
  }

  /** `add_birthday_cmd`: the date is built in `currentYear` (the local
      clock's year); one that does not exist in it, such as 29.02 outside a
      leap year, is refused and nothing is written. */
  method AddBirthdayCommand(store: RecordStore, user: UserId, name: string, day: int, month: int,
                            currentYear: int) returns (saved: bool)
    requires store.Valid() && currentYear >= 1
    modifies store
    ensures store.Valid()
    ensures saved <==> ValidDate(Date(currentYear, month, day))
    ensures saved ==> store.birthdays == old(store.birthdays)[(user, name) := Date(currentYear, month, day)]
    ensures !saved ==> store.birthdays == old(store.birthdays)
    ensures store.relationships == old(store.relationships)
  {
    var birthday := Date(currentYear, month, day);
    saved := ValidDate(birthday);
    if saved {
      store.AddBirthday(user, name, birthday);
    }
  }

  /** `delete_birthday_cmd`. */
  method DeleteBirthdayCommand(store: RecordStore, user: UserId, name: string)
    requires store.Valid()
    modifies store
    ensures store.Valid()
    ensures store.birthdays == old(store.birthdays) - {(user, name)}
    ensures store.relationships == old(store.relationships)
  {
    store.DeleteBirthday(user, name);
  }

  /** One line of the `list_birthdays` reply. */
  datatype BirthdayLine = BirthdayLine(name: string, date: Date, days: int)

  /** `list_birthdays`: one line per stored birthday, in the order the store
      yields them (any order). `None` when some birthday raises in
      `calculate_days_until_date` (a 29 February one outside a leap year):
      the exception ends the command without a reply. */
  method ListBirthdays(store: RecordStore, user: UserId, today: Date) returns (r: Option<seq<BirthdayLine>>)
    requires store.Valid() && ValidDate(today)
    ensures r.None? <==> exists name :: (user, name) in store.birthdays && ReplaceFails(store.birthdays[(user, name)], today)
    ensures r.Some? ==> |r.value| == |store.BirthdayNames(user)|
    ensures r.Some? ==> forall line :: line in r.value <==>
      (user, line.name) in store.birthdays && line.date == store.birthdays[(user, line.name)]
      && Some(line.days) == DaysUntil(line.date, today)
  {
    var rows := store.GetBirthdays(user);
    assert rows.Keys == store.BirthdayNames(user);
    var pending := rows.Keys;
    var lines: seq<BirthdayLine> := [];
    while pending != {}
      invariant pending <= rows.Keys
      invariant |lines| + |pending| == |rows.Keys|
      invariant forall line :: line in lines <==>
        line.name in rows.Keys - pending && line.date == rows[line.name] && Some(line.days) == DaysUntil(line.date, today)
      invariant forall name :: name in rows.Keys - pending ==> !ReplaceFails(rows[name], today)
      decreases pending
    {
      var name :| name in pending;
      var birthday := rows[name];
      var daysUntil := DaysUntil(birthday, today);
      if daysUntil.None? {
        return None;
      }
      lines := lines + [BirthdayLine(name, birthday, daysUntil.value)];
      pending := pending - {name};
    }
    r := Some(lines);
  }

  /** How many days until 15 November, the bot's birthday. */
  method BotBirthdayInfo(today: Date) returns (days: int)
    requires ValidDate(today)
    ensures 0 <= days < 366
    ensures days == 0 <==> today.month == 11 && today.day == 15
    ensures Some(days) == DaysUntil(Date(today.year, 11, 15), today)
  {
    days := BotBirthdayDaysUntil(today);
  }
}
