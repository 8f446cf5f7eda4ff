# love-days-bot: a verified model of the bot's calendar and table logic

The love-days-bot is a Telegram bot. It counts the days a couple has been
together, keeps a list of birthdays for each user, and answers questions
about a fixed table of 42 holidays. All of its behaviour lives in `bot.py`.
This project models everything in that file apart from the Telegram
plumbing. The clock is an explicit `today` parameter throughout.

- `Calendar`: proleptic Gregorian dates as Python's `datetime.date` has them.
  - Leap years and days per month.
  - The day number `toordinal`, written in CPython's closed form.
  - Lexicographic date comparison, proved equivalent to comparing day numbers.
  - `date.replace(year=...)`, returning `None` where Python raises `ValueError`.
- `Occurrence`: `calculate_days_until_date`.
  - It moves the target's month-day into today's year, rolls it into the next year when that date is past, and returns the gap in days.
  - When `replace` raises (a 29 February target), the result is `None`.
- `Duration`: the numbers behind `count_days` and `stats`.
  - Elapsed days.
  - The Russian plural class of "день / дня / дней".
  - The `// 7`, `// 30`, `// 365` breakdown and the summary line.
  - The exact-match milestone table {100, 365, 500, 1000}.
- `Sorting`: Python's stable `sort(key=...)` for integer keys, as insertion sort. It is proved sorted, a permutation and stable.
- `Text`:
  - `str.lower()` for Latin and Cyrillic capitals.
  - The `in` substring test.
  - Python's string order, shown to agree with the numeric order of zero-padded "DD.MM" strings.
- `Holidays`: the `HOLIDAYS` table, in the dict's insertion order, and the four queries over it.
  - `list_holidays`: stable sort by days-until, then the first ten.
  - `next_holiday`: the first strict minimum below the sentinel 365.
  - `find_holiday`: a lowercase substring filter, in catalog order.
  - `all_holidays`: grouped by month, months ascending, each month sorted by "DD.MM".
  - The loops are methods, proved against functions that specify them.
- `Store`: the `relationships` and `birthdays` tables as a class with two map fields.
  - Writes are insert-or-replace on the primary key.
  - Delete removes one key.
- `Commands`: the business logic of the store-backed commands.
  - `set_date`, with its future-date guard.
  - `count_days`, `stats`, `add_birthday_cmd`, `list_birthdays` and `delete_birthday_cmd`.
  - `bot_birthday_info`.

For the store-backed commands, inputs arrive as numbers after parsing. Each
command's result is a structured value (name, date, day counts), not reply
text.

For today = 2024-03-01 and the month-day 01.02, `calculate_days_until_date`
(bot.py:180-184) gives 337 days, to 2025-02-01; `Occurrence.LeapYearScenario`
proves that count.

`next_holiday` prints the holiday's date built in today's year (bot.py:461,
476), even when the holiday falls in the next year: on 2024-12-29 New Year is
3 days away and is printed as 01.01.2024. The model keeps that date, as
`Holidays.UpcomingDateScenario` shows.

## Model

| member | source | states |
|---|---|---|
| Calendar.DaysInMonth | bot.py:223 | 28..31 days; 29 exactly for February of a leap year, the range `strptime` accepts for a day |
| Calendar.ValidDate | bot.py:223 | definition of the dates `strptime` and `replace` accept: year from 1, month 1..12, day within `DaysInMonth` |
| Calendar.Before | bot.py:181 | definition of Python's date `<` (and `>` swapped) as lexicographic order on (year, month, day); its agreement with day numbers in `OrdinalOrder` |
| Calendar.Ordinal | bot.py:184 | definition of `toordinal`; its order is in `OrdinalOrder`, its year steps in `DaysBeforeNextYear` |
| Calendar.DaysBetween | bot.py:184 | definition of the `.days` of a date difference; properties in `OrdinalOrder` and `Duration.Elapsed` |
| Calendar.ReplaceYear | bot.py:180-182 | `replace(year=y)` fails exactly for a year below 1 or 29 February moved into a non-leap year; otherwise the same month-day in year y, a valid date |
| Calendar.LeapYearsAreApart | bot.py:182 | the years next to a leap year are not leap years, so the roll-over year after a passed 29 February cannot hold one |
| Calendar.DaysBeforeNextYear | bot.py:184 | the day numbers of 1 January in consecutive years differ by that year's length (365 or 366) |
| Calendar.DaysBeforeYearGap | bot.py:184 | a later year starts at least one full year's length later |
| Calendar.DaysBeforeMonthGap | bot.py:184 | a later month starts at least the earlier month's length later |
| Calendar.DayOfYearBounds | bot.py:184 | a valid date's day within its year is between 1 and the year's length |
| Calendar.DayOfYearOrder | bot.py:181 | inside one year, dates compare as their day-of-year numbers, and equal numbers mean equal dates |
| Calendar.BeforeHasSmallerOrdinal | bot.py:181 | an earlier date has a smaller day number |
| Calendar.OrdinalOrder | bot.py:181-184 | Python's date `<` holds exactly when the day number is smaller; dates are equal exactly when their day numbers are |
| Occurrence.ReplaceFails | bot.py:180-182 | definition of the inputs where a `replace` raises; `NextOccurrence` and `DaysUntil` are `None` exactly there |
| Occurrence.NextOccurrence | bot.py:180-182 | `None` exactly when `replace` raises; otherwise a valid date with the target's month and day, not before today, in today's year or the next |
| Occurrence.DaysUntil | bot.py:176-184 | `None` exactly when `replace` raises (29 February target, today's year not leap or its 29 February already past) |
| Occurrence.DaysUntilBounds | bot.py:180-184 | whenever it is defined, the day count lies in [0, 366) |
| Occurrence.DaysUntilZero | bot.py:180-184 | the count is 0 exactly when today has the target's month and day |
| Occurrence.DaysUntilIgnoresYear | bot.py:180 | two targets with the same month and day give the same answer whatever their stored years |
| Occurrence.NextOccurrenceIsEarliest | bot.py:180-182 | the occurrence chosen is no later than any valid date on or after today with the target's month-day |
| Occurrence.DaysUntilInjective | bot.py:180-184 | for one `today`, equal day counts mean equal month-days |
| Occurrence.BotBirthdayDaysUntil | bot.py:486-487 | days until 15 November lie in [0, 366) and are 0 exactly on 15 November |
| Occurrence.LeapYearScenario | bot.py:180-184 | from 2024-03-01, 15.03 is 14 days away in 2024, and 01.02 is 337 days away, on 2025-02-01 |
| Occurrence.Feb29Scenario | bot.py:180-184 | a birthday saved as 29.02.2024 raises from 2025-01-10 and from 2024-03-01, and is 28 days away from 2024-02-01 |
| Duration.Elapsed | bot.py:260 | `today - start` in days: non-negative exactly when the start is not after today, and 0 exactly when they are the same date |
| Duration.PluralOf | bot.py:262-267 | definition of the branch chosen; properties in `PluralClasses`, `PluralMatchesDigitRule` and `PluralExamples` |
| Duration.Word | bot.py:263-267 | definition of the three words; tied to the counts in `PluralExamples` |
| Duration.PluralClasses | bot.py:262-267 | "день" iff n%10 = 1 and n%100 ≠ 11; "дня" iff 2 ≤ n%10 ≤ 4 and n%100 is not in 10..19; "дней" otherwise; exactly one applies |
| Duration.PluralMatchesDigitRule | bot.py:262-267 | the branch chosen equals the rule on the last two decimal digits: teens take "дней", otherwise last digit 1 takes "день" and 2..4 take "дня" |
| Duration.PluralExamples | bot.py:262-267 | 1, 21, 101 are printed with "день"; 2 and 24 with "дня"; 0, 5, 11, 12, 111, 365, 1000 with "дней" |
| Duration.BreakdownOf | bot.py:513-515 | weeks, months and years are the floors of days by 7, 30 and 365, each pinned between two consecutive multiples |
| Duration.SummaryOf | bot.py:269-282 | years and days%365 exactly when days ≥ 365; else months and days%30 exactly when 30 ≤ days < 365; else nothing; the parts add back up to days |
| Duration.MilestoneOf | bot.py:284-292 | a note is present exactly when the day count is 100, 365, 500 or 1000 |
| Duration.SpecialDates | bot.py:284-289 | the `special_dates` dict: exactly the keys 100, 365, 500 and 1000, each with its own note; properties in `MilestoneOf` and `MilestoneExactMatch` |
| Duration.MilestoneExactMatch | bot.py:284-292 | 99 and 101 give no note; each of the four counts gives its own note |
| Duration.CountReportOf | bot.py:247-294 | the report carries the partner and start date; its count is non-negative iff the start is not after today, and 0 iff they are the same day; no summary iff under 30 days; a milestone note is present exactly when the count is a key of `special_dates` |
| Duration.StatsReportOf | bot.py:499-531 | weeks and months are the floors of days by 7 and 30; the years line is present exactly when days ≥ 365 and then holds the floor by 365 |
| Duration.OneYearScenario | bot.py:260 | from 2023-01-01 to 2024-01-01 is 365 days: 52 weeks, 12 months, one year and no extra days, with the full-year note |
| Sorting.InsertByContents | bot.py:371 | inserting adds exactly the one element |
| Sorting.InsertBySorted | bot.py:371 | insertion into a sorted list keeps it sorted |
| Sorting.InsertByWithKey | bot.py:371 | insertion places the element at the front of its equal-key group and leaves every group's order alone |
| Sorting.SortBy | bot.py:371 | definition of the stable sort by key; properties in `SortByCorrect` and `SortByStable` |
| Sorting.SortByCorrect | bot.py:371 | the sorted list is non-decreasing by key and a permutation of the input |
| Sorting.SortByStable | bot.py:371 | elements with equal keys keep their relative input order |
| Sorting.WithKeyPrefix | bot.py:374 | the equal-key group of a list splits at any cut into the groups of its two halves |
| Sorting.Take | bot.py:374 | `s[:n]` has min(n, \|s\|) elements and is a prefix of s |
| Sorting.SortedFront | bot.py:371-374 | the first n of the stable sort: min(n, \|s\|) long, sorted, drawn from s; nothing left out has a smaller key; equal keys keep their input order |
| Text.Lower | bot.py:429 | `lower()` keeps the length and lowers each character |
| Text.LowerChar | bot.py:429 | a Latin capital goes to its small letter (code point + 32) and a Latin small letter stays; the Cyrillic mapping is its definition; idempotent by `LowerCharIdempotent` |
| Text.LowerIdempotent | bot.py:429-433 | lowering twice gives the same as lowering once |
| Text.ContainsAt | bot.py:433 | `term in name` is true exactly when the term occurs at some position of the name |
| Text.Contains | bot.py:433 | definition of `needle in hay`; its meaning in `ContainsAt` |
| Text.StrLess | bot.py:406 | definition of Python's string `<`; its meaning on "DD.MM" strings in `StrLessFive` and `DayMonthTextOrder` |
| Text.DayMonthText | bot.py:406 | the zero-padded "DD.MM" form has five characters with the dot in the middle |
| Text.StrLessFive | bot.py:406 | on two strings of length five, Python's string `<` is their character-by-character lexicographic order |
| Text.DayMonthTextOrder | bot.py:406 | sorting by the "DD.MM" string orders by day first and then month, and equal strings mean the same day and month |
| Holidays.HolidaysWellFormed | bot.py:29-93 | the table has 42 entries, each a month-day that exists in every year (none is 29.02) |
| Holidays.HOLIDAYS | bot.py:29-93 | the 42 name and "DD.MM" entries in the dict's insertion order, the dates kept as day and month numbers; properties in `HolidaysWellFormed` |
| Holidays.UpcomingOf | bot.py:367-369 | definition of the tuple `(holiday, days_until, holiday_date)`, the date built in today's year; its day count in `HolidayDaysUntilAgrees`, its date in `UpcomingDateScenario` |
| Holidays.DaysOf | bot.py:371 | definition of the sort key `lambda x: x[1]`; properties in `NearestTenProperties` |
| Holidays.DateIn | bot.py:367 | the entry's date in a given year is a valid date |
| Holidays.HolidayDaysUntil | bot.py:368 | the day count for an entry lies in [0, 366) and is 0 exactly on the entry's month-day |
| Holidays.HolidayDaysUntilAgrees | bot.py:367-368 | for an entry's date built in any year, `calculate_days_until_date` does not raise and gives `HolidayDaysUntil` |
| Holidays.HolidayDaysUntilIs | bot.py:367-368 | `calculate_days_until_date` of the entry's date in any year returns exactly `HolidayDaysUntil` |
| Holidays.WithDays | bot.py:364-369 | `holidays_with_days` has one row per catalog entry; its rows in `WithDaysRows` |
| Holidays.WithDaysRows | bot.py:364-369 | row i of `holidays_with_days` is entry i with its day count and date |
| Holidays.ListHolidays | bot.py:364-374 | the loop, sort and slice give `NearestTen`: the first ten of the stable sort of the annotated catalog |
| Holidays.NearestTen | bot.py:371-374 | definition of the sort-then-slice; properties in `NearestTenProperties` |
| Holidays.NearestTenProperties | bot.py:364-374 | min(10, \|catalog\|) rows; a prefix of a sorted permutation of the annotated catalog; non-decreasing days; nothing left out is nearer; equal days keep catalog order |
| Holidays.NextHoliday | bot.py:457-466 | nothing exactly when every entry is at least 365 days away; otherwise the first entry with the smallest day count, below 365 |
| Holidays.UpcomingDateScenario | bot.py:461-476 | on 2024-12-29 New Year is 3 days away, and the date printed is 01.01.2024, built in today's year, not the 2025 date it falls on |
| Holidays.HolidayDaysUntilInjective | bot.py:457-466 | entries on different month-days are different numbers of days away from the same today |
| Holidays.SomeHolidayWithinYear | bot.py:457-466 | a catalog with two different month-days always has an entry under 365 days away |
| Holidays.HolidaysAlwaysHaveNext | bot.py:453-478 | for every today, the table has an entry under 365 days away, so `next_holiday` always replies |
| Holidays.Found | bot.py:432-435 | the matches are never more than the catalog entries |
| Holidays.NameMatches | bot.py:433 | definition of `search_term in holiday.lower()`; its meaning in `Text.ContainsAt` and `FoundMembers` |
| Holidays.ListedOf | bot.py:434-435 | definition of the tuple `(holiday, date_str, days_until)`, with the "DD.MM" text and the day count of the 2024 date; properties in `Text.DayMonthText` and `HolidayDaysUntilIs` |
| Holidays.FindHoliday | bot.py:429-435 | the loop yields `Found` of the lowered term: matching entries in catalog order, each with its "DD.MM" text and day count |
| Holidays.FoundAppend | bot.py:432-435 | searching a concatenation gives the matches of the first part followed by those of the second |
| Holidays.FoundMembers | bot.py:432-435 | a row is in the result exactly when some catalog entry's lowered name contains the term and the row is that entry's |
| Holidays.FoundIgnoresTermCase | bot.py:429 | lowering an already lowered term changes nothing |
| Holidays.InMonth | bot.py:394-398 | every entry of a month's list has that month |
| Holidays.InMonthStep | bot.py:394-398 | one more entry appends it to its month's list and to no other |
| Holidays.InMonthDrawnFrom | bot.py:394-398 | a month's list is drawn from the catalog |
| Holidays.InMonthEmpty | bot.py:396-397 | a month's list is empty exactly when no entry has that month |
| Holidays.InMonthHasEntry | bot.py:392-396 | every catalog entry is in its own month's list |
| Holidays.TextKey | bot.py:406 | the sort key `lambda x: x[1]` on "DD.MM" read as day*100+month; `Text.DayMonthTextOrder` shows it orders as the string does |
| Holidays.SortedMonthWellFormed | bot.py:405-406 | sorting a month's entries by "DD.MM" yields only month-days that exist in every year, so each can be built as a date in 2024 |
| Holidays.GroupByMonth | bot.py:391-398 | `holidays_by_month` has a key exactly for each month with an entry, and maps it to that month's entries in catalog order |
| Holidays.MonthBlock | bot.py:405-411 | the inner loop yields one row per entry of the month, in the order of a stable sort by "DD.MM": a permutation of the month's entries, sorted by key, equal keys in catalog order; each row has the entry's name, "DD.MM" text and day count from its 2024 date |
| Holidays.GroupOf | bot.py:405-411 | definition of one month's block; properties in `MonthBlock` and `GroupOrder` |
| Holidays.GroupOfShape | bot.py:405-411 | a month's block is for that month and lists, row by row, a permutation of the month's entries sorted by "DD.MM" with equal keys in catalog order |
| Holidays.GroupOfHasEntry | bot.py:405-411 | every entry of a month's list appears as a row of that month's block |
| Holidays.ListingUpTo | bot.py:404-411 | definition of the blocks of months 1..upTo; properties in `ListingBlocks`, `ListingAscending` and `ListingComplete` |
| Holidays.Listing | bot.py:404-411 | definition of the whole reply; properties in `ListingCoversCatalog` and the lemmas on `ListingUpTo` |
| Holidays.AllHolidays | bot.py:391-408 | the reply is `Listing`: one block per month with an entry, months ascending |
| Holidays.GroupOrder | bot.py:406 | a sorted month block is a permutation of that month's entries, ordered by day; equal "DD.MM" keep catalog order |
| Holidays.ListingBlocks | bot.py:404-408 | every block is for a month 1..12 that has an entry and is that month's sorted block |
| Holidays.ListingAscending | bot.py:404 | blocks come in strictly ascending month order |
| Holidays.ListingComplete | bot.py:404 | every month with an entry has a block |
| Holidays.ListingCoversCatalog | bot.py:392-411 | every catalog entry is listed, with its "DD.MM" text and day count, in the block of its month |
| Store.RecordStore.constructor | bot.py:100-120 | a fresh database has both tables empty |
| Store.RecordStore.SetRelationship | bot.py:133-142 | insert-or-replace: exactly the user's row becomes (start, partner); the birthdays table is unchanged |
| Store.RecordStore.GetRelationship | bot.py:123-130 | the user's row when there is one, and nothing otherwise |
| Store.RecordStore.AddBirthday | bot.py:155-164 | insert-or-replace on (user, name): that key maps to the new date and every other row stays |
| Store.RecordStore.BirthdayNames | bot.py:145-152 | the names stored for a user are exactly those with a (user, name) row |
| Store.RecordStore.GetBirthdays | bot.py:145-152 | the user's rows as name → date: a name is present exactly when the user has that row, with its stored date |
| Store.RecordStore.DeleteBirthday | bot.py:167-173 | removes exactly the key (user, name); a missing key leaves the table as it was |
| Store.UpsertScenario | bot.py:155-164 | adding one name twice keeps one row, holding the later date; another user's row with that name stays apart |
| Store.DeleteScenario | bot.py:167-173 | deleting a name twice leaves that user no rows and keeps another user's row with that name |
| Commands.SetDate | bot.py:214-244 | a date that does not exist is refused; a date after today is refused and nothing is written; otherwise exactly the user's row is replaced, with a non-negative elapsed count |
| Commands.CountDays | bot.py:247-294 | nothing exactly when the user has no row; otherwise the count report of the stored start and partner |
| Commands.Stats | bot.py:499-531 | nothing exactly when the user has no row; otherwise the stats report of the stored start and partner |
| Commands.AddBirthdayCommand | bot.py:297-315 | saved exactly when day.month exists in the current year, writing that key only; otherwise nothing changes |
| Commands.DeleteBirthdayCommand | bot.py:345-355 | removes exactly the key (user, name) |
| Commands.ListBirthdays | bot.py:318-342 | `None` (the command fails) exactly when some stored birthday makes `calculate_days_until_date` raise; otherwise one line per stored name, each with its date and days-until |
| Commands.BotBirthdayInfo | bot.py:481-496 | days until 15 November of today's year, in [0, 366), 0 exactly on 15 November |

## Left out

- The Telegram transport is not modelled: `Update`, `reply_text`, handler registration, `start`, `help_command` and `main`. It is I/O.
- Reply wording, emoji and Markdown are not modelled. Each command yields its structured content instead (names, dates, day counts, plural class, summary, milestone).
- SQLite is replaced by two in-memory maps with the same primary-key semantics. File paths, connections and commits are not modelled.
  - `get_birthdays` has no `ORDER BY`, so its row order is unspecified. `GetBirthdays` returns a map, and `ListBirthdays` visits its names in an arbitrary order.
- The clock and the Moscow time zone are parameters.
  - `today` stands for the Moscow date.
  - `currentYear` stands for the local-clock year used by `add_birthday_cmd`.
- Text parsing is not modelled: `strptime`, `fromisoformat`, `int(...)` on the month, and joining the arguments into a partner name or search term.
  - Commands start from the day, month and year numbers. A malformed string is covered in the model only as a date that does not exist.
  - `fromisoformat` reads back what `isoformat` wrote. `RecordStore.Valid` records that every stored date is valid.
- The missing-argument branches are not modelled (`if not context.args`, `len(context.args) < 2`). They only send a usage message and write nothing.
- Python's upper year bound is not modelled. `ValidDate` has no upper limit: years above `MAXYEAR` (9999) are accepted, and `replace` into year 10000 does not raise.
- Text.LowerChar: lowers only ASCII capitals and the Cyrillic capitals U+0400..U+042F, not all of Unicode's case mappings.
- The clock is read once per command: `today` is a single reading shared by the whole command. The source reads it again inside every `calculate_days_until_date` call (bot.py:177-178), 43 reads in `list_holidays`, so a command running across midnight can mix two dates; the model does not capture that.
- Logging, `.env` loading, the token check and `error_handler` are environment setup. An exception raised inside a command is modelled as a `None` result (`ListBirthdays`).
- There is no premium, shop or personal-holiday code in `bot.py`, so none is modelled.
