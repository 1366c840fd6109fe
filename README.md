# NYSE holiday generator and subscription cleanup, in Dafny

This project models two parts of an options-combination simulator.

- **The holiday generator** (`scripts/gen_holidays.py`). It computes the ten NYSE market
  holidays of a year and writes them as a JavaScript `Set` of ISO dates, one line per
  holiday, under a `// <year>` line for each requested year. It uses the following rules:
  - Easter comes from the Anonymous Gregorian algorithm, and Good Friday is two days before it.
  - A fixed holiday that falls on a weekend is observed on the Friday before or the Monday after it.
  - The "n-th Monday" and "last Monday" rules cover the holidays defined that way.
- **The reference-counted unsubscribe rule** of the market-data bridge (`ib_server.py`).
  When a websocket client goes away, the bridge cancels the broker's stream for each of
  that client's contracts that no other client still watches. It then empties the
  client's entry.

The files are organised as follows:

- `dates.dfy` (module `Dates`) replaces Python's `datetime.date` and `timedelta`.
  - It covers the proleptic Gregorian calendar over years 1 to 9999.
  - Day numbers follow `toordinal()`: 0001-01-01 is day 1.
  - Weekdays are numbered 0 (Monday) to 6 (Sunday).
  - Dates compare by year, then month, then day.
  - `AddDays` is `date + timedelta(days = n)`.
- `holiday_rules.dfy` (module `HolidayRules`) has `easter`, `observed`, `nth_weekday` and `last_weekday`.
- `nyse_holidays.dfy` (module `NyseCalendar`) has `nyse_holidays`.
  - The list is sorted in place on an array, by a stable insertion sort.
  - That sort is specified by the functional sort `SortByDate`.
- `text.dfy` (module `Text`) has the string operations the output needs: `str(n)`,
  zero-padded digits, and `'\n'.join`. Each comes with the parser that undoes it.
- `js_output.dfy` (module `JsOutput`) has `generate_js`. It is a method with the
  source's nested loops, specified by the list of lines `JsLines`.
- `subscriptions.dfy` (module `Subscriptions`) has `unsubscribe_client_safely`.
  - The method belongs to a class that holds the client table.
  - Each ticker is its contract id.
  - `ib.cancelMktData` is an append to the log `cancelled`.

A year outside 1 to 9999 makes `date(year, 1, 1)` raise `ValueError`. `NyseHolidays` and
`GenerateJs` return that as `Failure(YearOutOfRange(year))`.

## Model

| member | source | states |
|---|---|---|
| Dates.DaysInMonth | scripts/gen_holidays.py:26 | The month lengths `date` accepts: between 28 and 31, and 29 exactly for February of a leap year |
| Dates.ToOrdinal | scripts/gen_holidays.py:42 | No contract; `date.toordinal()`, defined as the days before the year plus the days before the month plus the day. `OrdinalBounds`, `OrdinalOrder` and `OrdinalInjective` state its properties |
| Dates.Weekday | scripts/gen_holidays.py:30-32 | `date.weekday()`: always from 0 (Monday) to 6 (Sunday) |
| Dates.DateLess | scripts/gen_holidays.py:69 | No contract; Python's date comparison, defined as year first, then month, then day. `OrdinalOrder` ties it to the day numbers |
| Dates.OrdinalBounds | scripts/gen_holidays.py:26 | Every valid date's day number lies between that of 0001-01-01 and that of 9999-12-31 |
| Dates.OrdinalOrder | scripts/gen_holidays.py:69 | Comparing dates (as the sort key does) agrees with comparing their day numbers, in both directions |
| Dates.OrdinalInjective | scripts/gen_holidays.py:26 | Two valid dates with the same day number are the same date |
| Dates.DaysBeforeNextYear | scripts/gen_holidays.py:26 | The day count grows by 366 across a leap year and 365 otherwise |
| Dates.NextDay | scripts/gen_holidays.py:33 | The following calendar day is valid and has the next day number |
| Dates.PrevDay | scripts/gen_holidays.py:31 | The preceding calendar day is valid and has the previous day number |
| Dates.AddDays | scripts/gen_holidays.py:31-33 | `d + timedelta(days = n)` is a valid date whose day number is exactly n more |
| Dates.WeekdayAfter | scripts/gen_holidays.py:42-43 | Moving n days moves the weekday by n modulo 7 |
| Dates.AddDaysInMonth | scripts/gen_holidays.py:43 | A shift that stays inside the month changes only the day of the month |
| Dates.FirstDay | scripts/gen_holidays.py:26 | 0001-01-01 is day 1 and a Monday |
| Dates.LastDay | scripts/gen_holidays.py:26 | 9999-12-31 is the last day number and a Friday |
| HolidayRules.Easter | scripts/gen_holidays.py:14-26 | The computus yields a valid date in the given year, between March 22 and April 25 |
| HolidayRules.EasterCode | scripts/gen_holidays.py:16-25 | The number `divmod` splits into month and day lies between 114 (March 22) and 148 (April 25) |
| HolidayRules.EasterIsSunday | scripts/gen_holidays.py:14-26 | The computed Easter date is always a Sunday |
| HolidayRules.EasterWeeks | scripts/gen_holidays.py:16-26 | Easter's day number is a whole number of weeks |
| HolidayRules.Observed | scripts/gen_holidays.py:28-34 | A Saturday moves back one day to a Friday, a Sunday forward one day to a Monday, and a weekday stays put; the result is always Monday to Friday |
| HolidayRules.NthWeekday | scripts/gen_holidays.py:36-43 | The result has the requested weekday and lies in the n-th week counted from the 1st of the month |
| HolidayRules.NthWeekdayInMonth | scripts/gen_holidays.py:36-43 | For n from 1 to 4 the result stays in the same year and month, and is the n-th occurrence of that weekday there |
| HolidayRules.MonthEnd | scripts/gen_holidays.py:47-51 | The day before the first of the next month, December included, is the last day of the month |
| HolidayRules.LastWeekday | scripts/gen_holidays.py:45-53 | The result has the requested weekday and lies in the last seven days of the same month |
| NyseCalendar.GoodFriday | scripts/gen_holidays.py:61 | Two days before Easter is a Friday, between March 20 and April 23 of the same year |
| NyseCalendar.HolidayList | scripts/gen_holidays.py:57-68 | No contract; the ten (date, name) pairs in the order written, each with the rule and name of the source. `HolidaysInOrder` and `HolidaysOnWeekdays` state its properties |
| NyseCalendar.NyseHolidays | scripts/gen_holidays.py:55-70 | An invalid year fails as `date(year, 1, 1)` does. Otherwise the result is the sorted list of ten holidays, strictly in date order, all on weekdays, and equal to the list as written |
| NyseCalendar.HolidaysInOrder | scripts/gen_holidays.py:57-68 | The ten holidays, as listed, are already in strictly increasing date order |
| NyseCalendar.HolidaysOnWeekdays | scripts/gen_holidays.py:57-68 | Every holiday in the list falls Monday to Friday |
| NyseCalendar.ObservedNewYear | scripts/gen_holidays.py:58 | An observed New Year's Day is December 31 of the year before when January 1 is a Saturday, and January 1 or 2 otherwise |
| NyseCalendar.NewYear2022 | scripts/gen_holidays.py:58 | 2022-01-01 is a Saturday, so its New Year's Day is observed on 2021-12-31 |
| NyseCalendar.ObservedInMonth | scripts/gen_holidays.py:63-67 | A fixed holiday away from the month's edges is observed in its own month, within a day of the date |
| NyseCalendar.ChronologicalSorted | scripts/gen_holidays.py:69 | A list in which each date precedes the next is ordered pairwise, hence sorted |
| NyseCalendar.InsertPermutes | scripts/gen_holidays.py:69 | Inserting adds exactly the inserted holiday to the multiset |
| NyseCalendar.InsertKeepsSorted | scripts/gen_holidays.py:69 | Inserting into a sorted list keeps it sorted |
| NyseCalendar.SortPermutes | scripts/gen_holidays.py:69 | Sorting is a permutation |
| NyseCalendar.SortSorts | scripts/gen_holidays.py:69 | Sorting yields a sorted list |
| NyseCalendar.SortKeepsSorted | scripts/gen_holidays.py:69 | Sorting a list that is already sorted leaves it as it is, as a stable sort does |
| NyseCalendar.SortHolidays | scripts/gen_holidays.py:69 | The in-place sort leaves the array holding the sorted order of its old contents |
| NyseCalendar.InsertAt | scripts/gen_holidays.py:69 | One insertion step moves element i into its place among the sorted prefix and leaves the rest alone |
| NyseCalendar.InsertLands | scripts/gen_holidays.py:69 | Insertion puts the new holiday after every date that is not later and before the first later one |
| Text.PadDigits | scripts/gen_holidays.py:91 | The zero-padded digits of `isoformat` have exactly the requested width and are all digits |
| Text.PadDigitsRoundTrip | scripts/gen_holidays.py:91 | Reading the padded digits back gives the number |
| Text.DigitsValueRoundTrip | scripts/gen_holidays.py:91 | Padding a digit string's value to its length gives the string back |
| Text.DecimalString | scripts/gen_holidays.py:87 | `str(year)` is non-empty, all digits, and has no leading zero unless the number is 0 |
| Text.DecimalStringRoundTrip | scripts/gen_holidays.py:87 | Reading `str(n)` back gives n |
| Text.SplitLines | scripts/gen_holidays.py:95 | Splitting on newlines always yields at least one piece |
| Text.JoinThenSplit | scripts/gen_holidays.py:95 | Joining newline-free lines with `'\n'` and splitting again gives the lines back |
| Text.SplitThenJoin | scripts/gen_holidays.py:95 | Splitting a string on newlines and joining again gives the string back |
| JsOutput.IsoFormat | scripts/gen_holidays.py:91 | `isoformat()` is ten characters with dashes at positions 4 and 7 |
| JsOutput.IsoRoundTrip | scripts/gen_holidays.py:91 | Parsing the ISO text of a date gives the date back |
| JsOutput.IsoUnique | scripts/gen_holidays.py:91 | A date has only one ISO text |
| JsOutput.DayAbbr | scripts/gen_holidays.py:89 | The weekday abbreviation is three letters |
| JsOutput.DayAbbrInjective | scripts/gen_holidays.py:89 | Different weekdays get different abbreviations |
| JsOutput.Header | scripts/gen_holidays.py:73-83 | The comment block is ten lines, ending with the opening of the `Set` |
| JsOutput.Footer | scripts/gen_holidays.py:93-94 | No contract; the two closing lines `]);` and the empty line. `JsLinesShape` places them last |
| JsOutput.YearLine | scripts/gen_holidays.py:87 | No contract; `f'    // {year}'`. `YearLineRoundTrip` states that the year reads back |
| JsOutput.HolidayLine | scripts/gen_holidays.py:89-91 | No contract; `f"    '{d.isoformat()}', // {name} ({day_abbr})"`. `HolidayLineRoundTrip` states that each field reads back |
| JsOutput.HolidayLines | scripts/gen_holidays.py:88-91 | One line per holiday, in order, each the formatted holiday |
| JsOutput.YearBlock | scripts/gen_holidays.py:86-91 | Each year contributes eleven lines |
| JsOutput.JsLines | scripts/gen_holidays.py:73-94 | No contract; the list `lines` as built: header, then each year's block, then footer. `JsLinesShape`, `JsLinesYear` and `JsLinesSingle` state its properties |
| JsOutput.GenerateJs | scripts/gen_holidays.py:72-95 | Succeeds exactly when every year is valid, returning the joined lines; otherwise fails with the first invalid year, all years before it being valid |
| JsOutput.AppendHolidayLines | scripts/gen_holidays.py:88-91 | The inner loop appends exactly the holiday lines |
| JsOutput.JsLinesShape | scripts/gen_holidays.py:72-95 | The output has 12 + 11 × (number of years) lines: the ten header lines first, then `]);` and an empty line last |
| JsOutput.JsLinesYear | scripts/gen_holidays.py:85-91 | The k-th year's block sits at lines 10 + 11k to 20 + 11k |
| JsOutput.BlockLine | scripts/gen_holidays.py:87-91 | Line 0 of a year's block is its year line; line j + 1 is the line of its j-th holiday |
| JsOutput.YearLineRoundTrip | scripts/gen_holidays.py:87 | A year line is `    // ` followed by digits that read back as the year |
| JsOutput.HolidayLineRoundTrip | scripts/gen_holidays.py:91 | A holiday line is `    '`, the ISO date (which parses back to the holiday's date), `', // `, then the name, then ` (`, the weekday's abbreviation and `)` |
| JsOutput.HolidayLineSingle | scripts/gen_holidays.py:91 | A holiday line holds no newline when its name holds none |
| JsOutput.HolidayNamesSingle | scripts/gen_holidays.py:57-68 | No holiday name holds a newline |
| JsOutput.JsLinesSingle | scripts/gen_holidays.py:72-94 | No emitted line holds a newline |
| JsOutput.OutputLines | scripts/gen_holidays.py:95 | Splitting the returned string on newlines gives back exactly its 12 + 11 × (number of years) lines |
| Subscriptions.SubscriptionTable.CollectActive | ib_server.py:104-108 | The contracts collected are exactly those in some other client's subscriptions |
| Subscriptions.SubscriptionTable.UnsubscribeClientSafely | ib_server.py:94-115 | The table becomes `Remaining` of the old table, and the log grows by `Cancellations` of the old table, in the client's leg order |
| Subscriptions.SubscriptionTable.constructor | ib_server.py:24 | The table starts empty, with nothing cancelled |
| Subscriptions.Remaining | ib_server.py:99-115 | No contract; the table after the call. It is unchanged when the client's entry is absent or empty, and otherwise the entry is set to empty. `NothingToDrop` and `OthersUnchanged` state its properties |
| Subscriptions.Cancellations | ib_server.py:103-113 | No contract; the contract ids cancelled, in the client's leg order, for legs no other client watches. `CancelledIffUnwatched` and `CancelCount` state its properties |
| Subscriptions.NothingToDrop | ib_server.py:99-101 | A client with no entry, or an empty one, leaves the table exactly as it was (no key inserted) and cancels nothing |
| Subscriptions.OthersUnchanged | ib_server.py:115 | No key is added or removed, every other client's entry is unchanged, and the client's entry ends empty |
| Subscriptions.ToCancelMembers | ib_server.py:111-113 | A contract is issued for cancellation exactly when it is not active and one of the legs holds it |
| Subscriptions.CancelledIffUnwatched | ib_server.py:103-113 | A contract is cancelled if and only if the client holds it and no other client's entry holds it |
| Subscriptions.CancelCount | ib_server.py:111-113 | A contract nobody else watches is cancelled once per leg of the client on it, and a watched one is never cancelled |
| Subscriptions.ToCancelCount | ib_server.py:111-113 | The number of cancellations of a contract equals the client's legs on it, or zero if it is active |
| Subscriptions.UnsubscribeTwice | ib_server.py:94-115 | A second unsubscription of the same client changes nothing and cancels nothing |

## Left out

- `date` and `timedelta` come from Python's standard library. `Dates` rebuilds the parts the
  generator uses, with the same range (years 1 to 9999), day numbering and weekday numbering.
- `HolidayRules.Easter` requires a valid year. `HolidayRules.NthWeekday` and
  `HolidayRules.LastWeekday` require a valid year and a month from 1 to 12.
  - `last_weekday` in December also needs the following year to exist.
  - For the extra `nth_weekday` arguments, `NthWeekdayDefined` requires a result inside the
    calendar.
  - Outside these domains Python mostly raises `ValueError` or `OverflowError`.
  - Only `nyse_holidays` and `generate_js` model the error as a value, since they are where
    a caller-supplied year enters.
- `HolidayRules.LastWeekday`: month 0 is not modelled. `last_weekday(year, 0, weekday)`
  builds `date(year, 1, 1)` and so returns, without error, the last such weekday of December
  of year - 1 (for years 2 to 9999). `LastWeekdayDefined` excludes month 0, so the model
  says nothing about that case. The only caller passes month 5.
- `NyseCalendar.SortHolidays`: `list.sort` is Timsort. The model sorts by stable insertion
  instead. Both are stable sorts on the same key, so they give the same list. The proof
  that the list is already in order makes this moot for the ten holidays.
- `Text.JoinLines` has no contract of its own. Its meaning is stated by `Text.JoinThenSplit`
  and `Text.SplitThenJoin`.
- `Text.PadDigits`: `%04d`-style padding is modelled only for numbers that fit in the width.
  Years above 9999 never reach it.
- The command-line entry point is not modelled: argument parsing, the usage message and
  writing `market_holidays.js`.
- In `ib_server.py`, nothing beyond `unsubscribe_client_safely` is modelled. That covers:
  - the connection loop `connect_ib`;
  - the tick callback `on_pending_tickers`;
  - `send_message_safe`;
  - the websocket handler `handle_ws_client`;
  - `main`;
  - configuration loading.

  These are network and asynchronous I/O.
- `Subscriptions.SubscriptionTable.UnsubscribeClientSafely`:
  - Tickers are reduced to their contract id, and clients to an integer identity.
  - Leg ids are kept, but their uniqueness within a client's dictionary is not modelled.
  - The call to `ib.cancelMktData` is modelled as an append to a ghost log; the broker's
    side of it is not modelled.
  - The order of the outer dictionary is not modelled. The rule reads it only to build
    a set, so the order cannot change the result.
- Concurrency between the asyncio tasks that touch the table is not modelled.
