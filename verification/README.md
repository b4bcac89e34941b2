# Season and week calculator of the ff-site server

This project models `server/services/timePeriods.js`, the part of the
fantasy-football site that maps an instant to a season and a week.

- A season is named by a year. It starts on its **anchor**: midnight at the
  start of the first Wednesday on or after 1 September of that year.
- The **current season** is this year's season once this year's anchor has
  passed. Before that it is last year's season.
- The **current week** is the number of whole seven-day periods since the
  current season's anchor. It is capped at `LAST_WEEK_OF_SEASON = 13`.
- The **season catalogue** lists every season from `FIRST_SEASON = 2018` to
  the current one. Past seasons list weeks 1..13. The current season lists
  weeks 1..current week.

The model has three modules:

- `Calendar` (`calendar.dfy`) is the calendar arithmetic of the JavaScript
  `Date` object. Dates are proleptic Gregorian. Months are 0-based. A day is
  numbered from 1 January 1970. The weekday is 0 for Sunday. An instant is
  day number × 86 400 000 ms + ms of the day.
- `JsDate` (`js_date.dfy`) has one class, `LocalDate`. It is a mutable `Date`
  object with `getDay`, `getDate`, `valueOf` and an in-month `setDate`.
  `getFullYear` on the instant `now` is its date's `year` field.
- `TimePeriods` (`time_periods.dfy`) models the source functions one by one:
  - `firstWedAfterDate` is a method with a loop. It mutates its argument, as
    the source does.
  - `dayAfter` is a function on values.
  - `getCurrentSeason`, `getCurrentWeek` and `getSeasons` are functions of an
    injected instant `now`.
  - `firstWedInSeptember` is a method because it allocates the object it
    returns. The season functions use the date it returns, `Anchor(year)`.

`firstWedAfterDate` has a fault at a month end; see "## Findings". The fault
cannot trigger from 1 September, the only place the source starts the search.
The model proves that the search as written finds the anchor from there
(`ScanFromSeptemberFirst`). The anchor is also what the corrected search
(`FirstWedOnOrAfter`) returns from 1 September (`AnchorIsFirstWedOnOrAfter`).

## Model

| member | source | states |
|---|---|---|
| TimePeriods.DayAfter | server/services/timePeriods.js:8-13 | dayAfter returns a valid new value with the same time of day |
| TimePeriods.DayAfterAddsOneDay | server/services/timePeriods.js:8-13 | dayAfter's result is exactly one calendar day later: day number + 1 and instant + 86 400 000 ms |
| Calendar.NextDayNumber | server/services/timePeriods.js:10 | `setDate(getDate() + 1)` with month and year rollover gives the date numbered one higher |
| JsDate.LocalDate.constructor | server/services/timePeriods.js:32 | `new Date(year, SEPTEMBER, 1)` denotes midnight at the start of that date |
| JsDate.LocalDate.FromValue | server/services/timePeriods.js:9 | `new Date(date)` is a separate object denoting the same instant |
| JsDate.LocalDate.GetDay | server/services/timePeriods.js:20 | `getDay()` is a weekday number in 0..6, Sunday being 0 |
| JsDate.LocalDate.GetDate | server/services/timePeriods.js:10 | `getDate()` is a day of the object's own month, 1..days in that month |
| JsDate.LocalDate.ValueOf | server/services/timePeriods.js:46 | the instant `<` and `-` compare lies within the object's own day, exactly its time of day after that day's midnight |
| JsDate.LocalDate.SetDate | server/services/timePeriods.js:24 | `setDate(day)` changes only the day of the month; the instant moves by the day difference × 86 400 000 ms |
| TimePeriods.ProbeStep | server/services/timePeriods.js:24 | a step of the search leaves the probe a valid date in the same year and month |
| TimePeriods.ProbeStepTakesDayOfDayAfter | server/services/timePeriods.js:24 | a step of the search keeps the probe's year and month and takes the day of the month of dayAfter: the next day inside a month, the 1st of the same month after the month's last day |
| TimePeriods.FirstWedAfterDate | server/services/timePeriods.js:15-29 | the argument itself is advanced in place; the result is that same object, or the error when no Wednesday is found in 8 steps, exactly as the search function `ScanAsWritten` of the start says; the time of day is unchanged |
| TimePeriods.ScanAsWritten | server/services/timePeriods.js:19-28 | the search as written, from any start, ends with its probe on a valid date of the start's own year and month: it never leaves that month |
| TimePeriods.ScanAsWrittenStopsOnWednesday | server/services/timePeriods.js:19-22 | whatever the start, a date the search returns is a Wednesday |
| TimePeriods.ScanSkipsDay | server/services/timePeriods.js:19-25 | on a day other than Wednesday the search takes one step and counts one more day examined |
| TimePeriods.ScanStopsOnWednesday | server/services/timePeriods.js:20-21 | on a Wednesday within the bound the search succeeds with that date |
| TimePeriods.ScanWalksMonth | server/services/timePeriods.js:19-25 | while no Wednesday is met and the month does not end, each iteration advances the probe by exactly one day |
| TimePeriods.NoWednesdayInMonthBefore | server/services/timePeriods.js:19-22 | the days examined before the next Wednesday of the same month are not Wednesdays |
| TimePeriods.ScanAgreesWithinMonth | server/services/timePeriods.js:15-29 | when the next Wednesday falls in the start's month, the search as written returns it, which is the earliest Wednesday on or after the start |
| TimePeriods.ScanFromSeptemberFirst | server/services/timePeriods.js:31-33 | started on 1 September, the search as written returns the anchor, so its error is unreachable there |
| TimePeriods.FirstWedInSeptember | server/services/timePeriods.js:31-33 | firstWedInSeptember returns a new object at midnight on the anchor of the year, whose `valueOf` is the season's start instant |
| TimePeriods.Anchor | server/services/timePeriods.js:31-33 | the anchor is a valid date in September of its year, on day 1 to 7 |
| TimePeriods.AnchorIsFirstWednesday | server/services/timePeriods.js:31-33 | the anchor is a Wednesday and no earlier day of September is one |
| TimePeriods.AnchorIsFirstWedOnOrAfter | server/services/timePeriods.js:31-33 | the anchor is what the corrected search returns from 1 September |
| TimePeriods.AnchorOf2018 | server/services/timePeriods.js:31-33 | the 2018 anchor is Wednesday 5 September 2018 |
| TimePeriods.AsWrittenMissesWednesdayAtMonthEnd | server/services/timePeriods.js:24 | from Friday the 30th of a 31-day month, the search as written gives up with the probe on the 7th of the same month, although the next Wednesday is 5 days after the start |
| TimePeriods.AsWrittenFailsOn30March2018 | server/services/timePeriods.js:24 | started on Friday 30 March 2018, the search as written reports no Wednesday, where the intended answer is Wednesday 4 April 2018 |
| TimePeriods.AsWrittenGoesBackAtMonthEnd | server/services/timePeriods.js:24 | from Tuesday the 31st of a month, the search as written returns the Wednesday the 4th of the same month, 27 days before its start, although the next Wednesday is the day after the start |
| TimePeriods.AsWrittenReturnsEarlierWednesday | server/services/timePeriods.js:24 | started on Tuesday 31 July 2018, the search as written returns Wednesday 4 July 2018, where the intended answer is Wednesday 1 August 2018 |
| TimePeriods.FirstWedOnOrAfter | server/services/timePeriods.js:15-29 | the corrected search returns a Wednesday 0 to 6 days after the start |
| TimePeriods.NoWednesdayBefore | server/services/timePeriods.js:19-22 | no day from the start up to the corrected search's result is a Wednesday, so the result is the earliest one |
| TimePeriods.FirstWedAfterDateFixed | server/services/timePeriods.js:15-29 | the corrected loop steps one real day at a time and returns a new object (the argument is left unchanged) at the first Wednesday on or after the argument, at the argument's time of day; it never reaches the error |
| TimePeriods.AnchorTime | server/services/timePeriods.js:44-46 | a season starts at midnight on its anchor day: the anchor's day number × 86 400 000 ms |
| TimePeriods.AnchorTimeIncreasing | server/services/timePeriods.js:44-46 | a later season starts more than a day after an earlier one |
| TimePeriods.AnchorTimeOrder | server/services/timePeriods.js:44-46 | one season starts before another exactly when its year is smaller |
| TimePeriods.CurrentSeason | server/services/timePeriods.js:41-47 | the result is the current year or the one before; it is the current year exactly when now is on or after that year's anchor; its anchor has passed and the next season's has not |
| TimePeriods.SeasonIsUnique | server/services/timePeriods.js:41-47 | the current season is the only season whose anchor has passed while its successor's has not |
| TimePeriods.CurrentSeasonMonotone | server/services/timePeriods.js:41-47 | the current season never decreases as now increases |
| TimePeriods.SeasonTurnsOver2018 | server/services/timePeriods.js:35-47 | on 4 September 2018 the season is 2017; on 5 September 2018 it is 2018 and the week is 0 |
| TimePeriods.CurrentWeek | server/services/timePeriods.js:35-39 | the week is in 0..13; that many whole weeks have passed since the season's anchor and, below the cap, the next has not, i.e. it is the floor of the elapsed time over 604 800 000 ms |
| TimePeriods.CurrentWeekMonotone | server/services/timePeriods.js:35-39 | within one season the current week never decreases as now increases |
| TimePeriods.CurrentWeekOnAnchorDay | server/services/timePeriods.js:35-39 | on the anchor day the season is that year's and the week is 0 |
| TimePeriods.Range | server/services/timePeriods.js:51 | range(lo, hi) is lo, lo + 1, ..., hi - 1, and empty when hi <= lo |
| TimePeriods.Seasons | server/services/timePeriods.js:49-58 | one entry per season 2018..current season in ascending order with no gaps (none before 2018); past seasons list weeks 1..13, the current one weeks 1..current week; every listed week number is in 1..13 |

## Left out

- The wall clock is not modelled. Every query takes `now` as a parameter, and
  all reads of the clock in one query (lines 36 and 42, and through them 50
  and 56) see the same instant. A race between the separate reads is not
  modelled.
- Time zones and daylight saving are not modelled: every day is exactly
  86 400 000 ms long in local time.
- `Math.floor` of a floating-point division (line 37) is modelled as exact
  integer floor division. The difference is never negative at that point.
- JsDate.LocalDate.SetDate: requires a day within the current month, weaker
  than JavaScript's `setDate`, which normalises any day number. Line 24 is the
  only call modelled through SetDate, and it always passes such a day
  (`ProbeStepTakesDayOfDayAfter`). Line 10's call, which passes the month's
  length + 1 on its last day, is modelled by `Calendar.NextDay`, whose
  rollover to the next month and year `Calendar.NextDayNumber` proves.
- JsDate.LocalDate.constructor: does not model the rule of `new Date(year,
  month, day)` that reads a year 0..99 as 1900 + year; it keeps the year as
  given. For an instant `now` in years 0..99 the source compares with the
  anchor of 1900 + year, so its `getCurrentSeason` gives year - 1 where
  `CurrentSeason` gives the year once that year's anchor has passed. For
  `now` in years 1..99, and in year 100 before its anchor, the source's
  `getCurrentWeek` subtracts a 19xx anchor and is negative where
  `CurrentWeek` is at least 0. The model follows the source for every year
  outside 0..100.
- Other normalisation of `Date` values is not modelled, and neither is the
  limited range of JavaScript dates; years are unbounded integers.
- The thrown `Error('Could not find a Wednesday.')` is modelled as the `None`
  result of `FirstWedAfterDate`; its message is not modelled.
- `range` comes from `../polyfills`, which is not part of this model. It is
  modelled by its half-open meaning, which is how lines 51 and 55 use it.
- `app/utils/request.js` (fetch plumbing) and
  `app/components/Floaters/tests/index.test.js` (a UI rendering test) are not
  part of this model.
- `module.exports` (lines 60-64) only names the public functions.

## Findings

| source | as written | input that shows it | evidently intended | confidence | as-written member | corrected member |
|---|---|---|---|---|---|---|
| server/services/timePeriods.js:24 | the probe's day of the month is set to `dayAfter(date).getDate()` and its month is kept, so after a month's last day the probe goes back to the 1st of the same month | a search started on Friday 30 March 2018 examines 30 and 31 March and then 1 to 6 March, finds no Wednesday and throws; one started on Tuesday 31 July 2018 returns Wednesday 4 July 2018, before its start (`AsWrittenReturnsEarlierWednesday`) | the probe moves to the real next day, and the search returns Wednesday 4 April 2018 | not executed | TimePeriods.AsWrittenFailsOn30March2018 | TimePeriods.FirstWedAfterDateFixed |

The fault is latent in the repository: its only caller starts the search on
1 September, and the first Wednesday of September is always on day 1 to 7.
The rest of the model uses the corrected search (`FirstWedOnOrAfter`) for
anchors. `ScanFromSeptemberFirst` shows that the source's search agrees with
it there.
