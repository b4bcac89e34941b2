/** The season/week calculator of the fantasy-football site's server.

    A season is named by a year and starts on its anchor date, the first
    Wednesday on or after 1 September of that year. The current season is the
    one whose anchor has passed most recently; the current week counts whole
    seven-day periods since that anchor, capped at the last week of a season.
    The wall clock is not read: every query takes the instant "now" as a
    parameter. */
module TimePeriods {
  import opened Calendar
  import opened JsDate

  const SEPTEMBER: int := 8            // 0-based month number
  const WEDNESDAY: int := 3            // weekday number, 0 = Sunday
  const TUESDAY: int := 2
  const FRIDAY: int := 5
  const LAST_WEEK_OF_SEASON: int := 13
  const FIRST_SEASON: int := 2018
  /** How many days the Wednesday search examines before it gives up. */
  const DAYS_TO_CHECK: int := 8

  datatype Option<T> = None | Some(value: T)

  /** One entry of the season catalogue: a season and its elapsed week numbers. */
  datatype SeasonSummary = SeasonSummary(year: int, weeks: seq<int>)

  // ---------------------------------------------------------------------
  // dayAfter and the Wednesday search as written
  // ---------------------------------------------------------------------

  /** dayAfter: the same time of day, one calendar day later, in a new value. */
  function DayAfter(t: DateTime): (next: DateTime)
    requires t.Valid()
    ensures next.Valid() && next.msOfDay == t.msOfDay
  {
    t.(date := NextDay(t.date))
  }

  /** dayAfter moves the instant forward by exactly one day. */
  lemma DayAfterAddsOneDay(t: DateTime)
    requires t.Valid()
    ensures DayNumber(DayAfter(t).date) == DayNumber(t.date) + 1
    ensures TimeValue(DayAfter(t)) == TimeValue(t) + MS_PER_DAY
  {
    NextDayNumber(t.date);
  }

  /** Where the search's probe date ended, and whether it stopped on a Wednesday
      (`found == false` is the "Could not find a Wednesday." error). */
  datatype Probe = Probe(date: CivilDate, found: bool)

  /** One step of the search as written (see ProbeStepTakesDayOfDayAfter). */
  function ProbeStep(c: CivilDate): (n: CivilDate)
    requires c.Valid()
    ensures n.Valid() && n.year == c.year && n.month == c.month
  {
    if c.day < DaysInMonth(c.year, c.month) then c.(day := c.day + 1) else c.(day := 1)
  }

  /** The step is `setDate(dayAfter(date).getDate())`: the probe's own year and
      month with the day of the month of the day after it. Inside a month that
      is the next day; after a month's last day it is the 1st of the SAME month. */
  lemma ProbeStepTakesDayOfDayAfter(t: DateTime)
    requires t.Valid()
    ensures ProbeStep(t.date) == t.date.(day := DayAfter(t).date.day)
    ensures t.date.day < DaysInMonth(t.date.year, t.date.month) ==> ProbeStep(t.date) == NextDay(t.date)
    ensures t.date.day == DaysInMonth(t.date.year, t.date.month) ==>
      ProbeStep(t.date) == CivilDate(t.date.year, t.date.month, 1)
  {
  }

  /** The search as written, from a probe on which `checked` days have already
      been examined: it stops on a Wednesday or after `DAYS_TO_CHECK` days. */
  function ScanAsWritten(c: CivilDate, checked: nat): (p: Probe)
    requires c.Valid() && checked <= DAYS_TO_CHECK
    ensures p.date.Valid() && p.date.year == c.year && p.date.month == c.month
    decreases DAYS_TO_CHECK - checked
  {
    if checked == DAYS_TO_CHECK then Probe(c, false)
    else if Weekday(c) == WEDNESDAY then Probe(c, true)
    else ScanAsWritten(ProbeStep(c), checked + 1)
  }

  /** Whatever the start, a date the search as written returns is a Wednesday. */
  lemma {:induction false} ScanAsWrittenStopsOnWednesday(c: CivilDate, checked: nat)
    requires c.Valid() && checked <= DAYS_TO_CHECK
    ensures ScanAsWritten(c, checked).found ==> Weekday(ScanAsWritten(c, checked).date) == WEDNESDAY
    decreases DAYS_TO_CHECK - checked
  {
    if checked < DAYS_TO_CHECK && Weekday(c) != WEDNESDAY {
      ScanAsWrittenStopsOnWednesday(ProbeStep(c), checked + 1);
    }
  }

  /** firstWedAfterDate as written. The probe IS the argument: the object passed
      in is advanced in place and, on success, returned itself. `None` stands
      for the thrown "Could not find a Wednesday." error. */
  method FirstWedAfterDate(date: LocalDate) returns (result: Option<LocalDate>)
    requires date.Valid()
    modifies date
    ensures date.Valid() && date.value.msOfDay == old(date.value.msOfDay)
    ensures Probe(date.value.date, result.Some?) == ScanAsWritten(old(date.value.date), 0)
    ensures result.Some? ==> result.value == date
  {
    var daysCheckedCount := 0;
    var dateToCheck := date;
    while daysCheckedCount < DAYS_TO_CHECK
      invariant 0 <= daysCheckedCount <= DAYS_TO_CHECK
      invariant dateToCheck == date && date.Valid()
      invariant date.value.msOfDay == old(date.value.msOfDay)
      invariant ScanAsWritten(date.value.date, daysCheckedCount) == ScanAsWritten(old(date.value.date), 0)
    {
      if dateToCheck.GetDay() == WEDNESDAY {
        return Some(dateToCheck);
      }
      ProbeStepTakesDayOfDayAfter(date.value);
      dateToCheck.SetDate(DayAfter(date.value).date.day);
      daysCheckedCount := daysCheckedCount + 1;
    }
    return None;
  }

  /** Days to go from weekday `w` to the next Wednesday (0 on a Wednesday). */
  function DaysToWednesday(w: int): (n: int)
    requires 0 <= w < 7
    ensures 0 <= n < 7 && (w + n) % 7 == WEDNESDAY
  {
    if w <= WEDNESDAY then WEDNESDAY - w else WEDNESDAY + 7 - w
  }

  /** From weekday `w`, no day before the next Wednesday is one. */
  lemma OffsetToWednesday(w: int, k: nat)
    requires 0 <= w < 7 && k <= DaysToWednesday(w)
    ensures (w + k) % 7 == WEDNESDAY <==> k == DaysToWednesday(w)
  {
  }

  /** A probe that is not on a Wednesday takes one step of the search. */
  lemma ScanSkipsDay(c: CivilDate, checked: nat)
    requires c.Valid() && checked < DAYS_TO_CHECK && Weekday(c) != WEDNESDAY
    ensures ScanAsWritten(c, checked) == ScanAsWritten(ProbeStep(c), checked + 1)
  {
  }

  /** While the month does not end and no Wednesday is met, the search as
      written walks forward one day per step: from day `c.day` with `checked`
      days examined to day `day` with `finalChecked` days examined. */
  lemma {:induction false} ScanWalksMonth(c: CivilDate, checked: nat, day: int, finalChecked: nat)
    requires c.Valid() && c.day <= day <= DaysInMonth(c.year, c.month)
    requires finalChecked - checked == day - c.day && finalChecked <= DAYS_TO_CHECK
    requires forall d :: c.day <= d < day ==> Weekday(CivilDate(c.year, c.month, d)) != WEDNESDAY
    ensures ScanAsWritten(c, checked) == ScanAsWritten(CivilDate(c.year, c.month, day), finalChecked)
    decreases day - c.day
  {
    if c.day < day {
      var next := CivilDate(c.year, c.month, c.day + 1);
      assert CivilDate(c.year, c.month, c.day) == c;
      ScanSkipsDay(c, checked);
      assert ProbeStep(c) == next;
      ScanWalksMonth(next, checked + 1, day, finalChecked);
    } else {
      assert CivilDate(c.year, c.month, day) == c;
    }
  }

  /** Whenever the next Wednesday falls in the start's own month, the search as
      written finds it: the fault below needs a month end before that Wednesday. */
  lemma ScanAgreesWithinMonth(c: CivilDate)
    requires c.Valid() && c.day + DaysToWednesday(Weekday(c)) <= DaysInMonth(c.year, c.month)
    ensures ScanAsWritten(c, 0) == Probe(FirstWedOnOrAfter(c), true)
  {
    NextWednesdayInMonth(c);
    ScanReachesWednesdayInMonth(c);
  }

  /** The next Wednesday, when it falls in the start's month, is its day `DaysToWednesday` on. */
  lemma NextWednesdayInMonth(c: CivilDate)
    requires c.Valid() && c.day + DaysToWednesday(Weekday(c)) <= DaysInMonth(c.year, c.month)
    ensures FirstWedOnOrAfter(c) == CivilDate(c.year, c.month, c.day + DaysToWednesday(Weekday(c)))
  {
    FirstWedIsOffset(c);
    AddDaysWithinMonth(c, DaysToWednesday(Weekday(c)));
  }

  /** The search as written walks to that day of the month and stops there. */
  lemma ScanReachesWednesdayInMonth(c: CivilDate)
    requires c.Valid() && c.day + DaysToWednesday(Weekday(c)) <= DaysInMonth(c.year, c.month)
    ensures ScanAsWritten(c, 0) == Probe(CivilDate(c.year, c.month, c.day + DaysToWednesday(Weekday(c))), true)
  {
    var n := DaysToWednesday(Weekday(c));
    var wednesday := CivilDate(c.year, c.month, c.day + n);
    NoWednesdayInMonthBefore(c);
    ScanWalksMonth(c, 0, c.day + n, n);
    assert ScanAsWritten(c, 0) == ScanAsWritten(wednesday, n);
    WednesdayInMonth(c);
    ScanStopsOnWednesday(wednesday, n);
  }

  /** The day `DaysToWednesday` on in the same month is a Wednesday. */
  lemma WednesdayInMonth(c: CivilDate)
    requires c.Valid() && c.day + DaysToWednesday(Weekday(c)) <= DaysInMonth(c.year, c.month)
    ensures Weekday(CivilDate(c.year, c.month, c.day + DaysToWednesday(Weekday(c)))) == WEDNESDAY
  {
    var n := DaysToWednesday(Weekday(c));
    WeekdayInMonth(c, c.day + n);
    assert c.(day := c.day + n) == CivilDate(c.year, c.month, c.day + n);
  }

  /** The days of the month from `c` up to the next Wednesday are not Wednesdays. */
  lemma NoWednesdayInMonthBefore(c: CivilDate)
    requires c.Valid() && c.day + DaysToWednesday(Weekday(c)) <= DaysInMonth(c.year, c.month)
    ensures forall d :: c.day <= d < c.day + DaysToWednesday(Weekday(c)) ==>
      Weekday(CivilDate(c.year, c.month, d)) != WEDNESDAY
  {
    var w := Weekday(c);
    forall d | c.day <= d < c.day + DaysToWednesday(w)
      ensures Weekday(CivilDate(c.year, c.month, d)) != WEDNESDAY
    {
      WeekdayInMonth(c, d);
      OffsetToWednesday(w, d - c.day);
    }
  }

  /** A probe on a Wednesday ends the search with success. */
  lemma ScanStopsOnWednesday(c: CivilDate, checked: nat)
    requires c.Valid() && checked < DAYS_TO_CHECK && Weekday(c) == WEDNESDAY
    ensures ScanAsWritten(c, checked) == Probe(c, true)
  {
  }

  /** From 1 September the search as written finds the anchor: its error is unreachable there. */
  lemma ScanFromSeptemberFirst(year: int)
    ensures ScanAsWritten(CivilDate(year, SEPTEMBER, 1), 0) == Probe(Anchor(year), true)
  {
    var anchor := Anchor(year);
    AnchorIsFirstWednesday(year);
    ScanWalksMonth(CivilDate(year, SEPTEMBER, 1), 0, anchor.day, anchor.day - 1);
    assert CivilDate(year, SEPTEMBER, anchor.day) == anchor;
  }

  /** A weekday 29 days before a Friday is a Thursday. */
  lemma FridayTwentyNineDaysOn(w: int)
    requires 0 <= w < 7 && (w + 29) % 7 == FRIDAY
    ensures w == 4
  {
  }

  /** Started on Friday the 30th of a 31-day month, the search as written
      examines the 30th and 31st and then the 1st to the 6th of the SAME month,
      none a Wednesday, and gives up with the probe on the 7th; yet the next
      Wednesday is five days after the start. */
  lemma AsWrittenMissesWednesdayAtMonthEnd(c: CivilDate)
    requires c.Valid() && DaysInMonth(c.year, c.month) == 31 && c.day == 30
    requires Weekday(c) == FRIDAY
    ensures ScanAsWritten(c, 0) == Probe(c.(day := 7), false)
    ensures DayNumber(FirstWedOnOrAfter(c)) == DayNumber(c) + 5
  {
    MonthEndWrapsToFirst(c);
    MonthEndFirstWeek(c);
    ScanWalksMonth(c.(day := 1), 2, 7, 8);
    assert DayNumber(FirstWedOnOrAfter(c)) == DayNumber(c) + 5 by {
      FirstWedIsOffset(c);
      AddDaysNumber(c, 5);
    }
  }

  /** From Friday the 30th of a 31-day month, the search as written examines
      the 30th and the 31st and moves its probe to the 1st of the same month. */
  lemma MonthEndWrapsToFirst(c: CivilDate)
    requires c.Valid() && DaysInMonth(c.year, c.month) == 31 && c.day == 30
    requires Weekday(c) == FRIDAY
    ensures ScanAsWritten(c, 0) == ScanAsWritten(c.(day := 1), 2)
  {
    var last := c.(day := 31);
    assert CivilDate(c.year, c.month, 30) == c;
    ScanWalksMonth(c, 0, 31, 1);
    WeekdayInMonth(c, 31);
    ScanSkipsDay(last, 1);
    assert ProbeStep(last) == c.(day := 1);
  }

  /** A month whose 30th is a Friday begins on a Thursday, so its 1st to 6th
      hold no Wednesday. */
  lemma MonthEndFirstWeek(c: CivilDate)
    requires c.Valid() && c.day == 30 && Weekday(c) == FRIDAY
    ensures forall d :: 1 <= d < 7 ==> Weekday(CivilDate(c.year, c.month, d)) != WEDNESDAY
  {
    var first := c.(day := 1);
    assert Weekday(first) == 4 by {
      WeekdayInMonth(first, 30);
      assert first.(day := 30) == c;
      FridayTwentyNineDaysOn(Weekday(first));
    }
    forall d | 1 <= d < 7
      ensures Weekday(CivilDate(c.year, c.month, d)) != WEDNESDAY
    {
      WeekdayInMonth(first, d);
    }
  }

  /** Friday 30 March 2018 is such a start: the search as written started
      there reports that there is no Wednesday, where Wednesday 4 April 2018
      is the intended answer. */
  lemma AsWrittenFailsOn30March2018()
    ensures ScanAsWritten(CivilDate(2018, 2, 30), 0) == Probe(CivilDate(2018, 2, 7), false)
    ensures FirstWedOnOrAfter(CivilDate(2018, 2, 30)) == CivilDate(2018, 3, 4)
  {
    var c := CivilDate(2018, 2, 30);
    DayFromYearClosedForm(2018);
    assert DayNumber(c) == 17620;
    AsWrittenMissesWednesdayAtMonthEnd(c);
    var wed := FirstWedOnOrAfter(c);
    assert wed == AddDays(c, 5);
    assert AddDays(c, 5) == CivilDate(2018, 3, 4);
  }

  /** The fault can also go back in time. Started on Tuesday the 31st of a
      month, the search as written examines the 31st, wraps to the 1st of the
      same month, a Sunday, and returns the Wednesday the 4th, four weeks
      BEFORE its start; the next Wednesday is the day after the start. */
  lemma AsWrittenGoesBackAtMonthEnd(c: CivilDate)
    requires c.Valid() && c.day == 31 && Weekday(c) == TUESDAY
    ensures ScanAsWritten(c, 0) == Probe(c.(day := 4), true)
    ensures DayNumber(c.(day := 4)) == DayNumber(c) - 27
    ensures DayNumber(FirstWedOnOrAfter(c)) == DayNumber(c) + 1
  {
    var first := c.(day := 1);
    var wednesday := CivilDate(c.year, c.month, 4);
    MonthEndBeginsOnSunday(c);
    ScanSkipsDay(c, 0);
    assert ProbeStep(c) == first;
    ScanWalksMonth(first, 1, 4, 4);
    assert ScanAsWritten(c, 0) == ScanAsWritten(wednesday, 4);
    ScanStopsOnWednesday(wednesday, 4);
    assert DayNumber(FirstWedOnOrAfter(c)) == DayNumber(c) + 1 by {
      FirstWedIsOffset(c);
      AddDaysNumber(c, 1);
    }
  }

  /** A month whose 31st is a Tuesday begins on a Sunday: its 1st to 3rd hold
      no Wednesday and its 4th is one. */
  lemma MonthEndBeginsOnSunday(c: CivilDate)
    requires c.Valid() && c.day == 31 && Weekday(c) == TUESDAY
    ensures forall d :: 1 <= d < 4 ==> Weekday(CivilDate(c.year, c.month, d)) != WEDNESDAY
    ensures Weekday(CivilDate(c.year, c.month, 4)) == WEDNESDAY
  {
    var first := c.(day := 1);
    assert Weekday(first) == 0 by {
      WeekdayInMonth(first, 31);
      assert first.(day := 31) == c;
      TuesdayThirtyDaysOn(Weekday(first));
    }
    forall d | 1 <= d <= 4
      ensures Weekday(CivilDate(c.year, c.month, d)) == d - 1
    {
      WeekdayInMonth(first, d);
    }
  }

  /** A weekday 30 days before a Tuesday is a Sunday. */
  lemma TuesdayThirtyDaysOn(w: int)
    requires 0 <= w < 7 && (w + 30) % 7 == TUESDAY
    ensures w == 0
  {
  }

  /** Tuesday 31 July 2018 is such a start: the search as written returns
      Wednesday 4 July 2018, where Wednesday 1 August 2018 is the intended answer. */
  lemma AsWrittenReturnsEarlierWednesday()
    ensures ScanAsWritten(CivilDate(2018, 6, 31), 0) == Probe(CivilDate(2018, 6, 4), true)
    ensures FirstWedOnOrAfter(CivilDate(2018, 6, 31)) == CivilDate(2018, 7, 1)
  {
    var c := CivilDate(2018, 6, 31);
    DayFromYearClosedForm(2018);
    assert DayNumber(c) == 17743;
    AsWrittenGoesBackAtMonthEnd(c);
    FirstWedIsOffset(c);
    assert AddDays(c, 1) == CivilDate(2018, 7, 1);
  }

  // ---------------------------------------------------------------------
  // The Wednesday search as intended
  // ---------------------------------------------------------------------

  /** The first Wednesday on or after `c`: a Wednesday less than a week after
      `c` (see NoWednesdayBefore for "first"). */
  function FirstWedOnOrAfter(c: CivilDate): (r: CivilDate)
    requires c.Valid()
    ensures r.Valid() && Weekday(r) == WEDNESDAY
    ensures DayNumber(c) <= DayNumber(r) < DayNumber(c) + 7
  {
    var offset := DaysToWednesday(Weekday(c));
    WeekdayAfter(c, offset);
    AddDaysNumber(c, offset);
    AddDays(c, offset)
  }

  /** The first Wednesday lies `DaysToWednesday` days on. */
  lemma FirstWedIsOffset(c: CivilDate)
    requires c.Valid()
    ensures FirstWedOnOrAfter(c) == AddDays(c, DaysToWednesday(Weekday(c)))
  {
  }

  /** No day from `c` up to (not including) FirstWedOnOrAfter(c) is a Wednesday. */
  lemma NoWednesdayBefore(c: CivilDate, d: CivilDate)
    requires c.Valid() && d.Valid()
    requires DayNumber(c) <= DayNumber(d) < DayNumber(FirstWedOnOrAfter(c))
    ensures Weekday(d) != WEDNESDAY
  {
    OneWednesdayPerWeek(d, FirstWedOnOrAfter(c));
  }

  /** Of two dates less than a week apart, at most one is a Wednesday. */
  lemma OneWednesdayPerWeek(d: CivilDate, r: CivilDate)
    requires d.Valid() && r.Valid() && Weekday(r) == WEDNESDAY
    requires DayNumber(d) < DayNumber(r) < DayNumber(d) + 7
    ensures Weekday(d) != WEDNESDAY
  {
    DistinctWithinWeek(DayNumber(d) + 4, DayNumber(r) + 4);
  }

  /** Two numbers less than seven apart leave different remainders modulo 7. */
  lemma DistinctWithinWeek(a: int, b: int)
    requires a < b < a + 7
    ensures a % 7 != b % 7
  {
    WeekShift(a, b - a);
  }

  /** Days before the next Wednesday are not Wednesdays. */
  lemma NotWednesdayYet(c: CivilDate, k: nat)
    requires c.Valid() && k < DaysToWednesday(Weekday(c))
    ensures Weekday(AddDays(c, k)) != WEDNESDAY
  {
    WeekdayAfter(c, k);
    OffsetToWednesday(Weekday(c), k);
  }

  /** firstWedAfterDate as intended: the probe moves to the real next day, and a
      new object is returned instead of the argument being changed. */
  method FirstWedAfterDateFixed(date: LocalDate) returns (wednesday: LocalDate)
    requires date.Valid()
    ensures fresh(wednesday) && wednesday.Valid()
    ensures wednesday.value == DateTime(FirstWedOnOrAfter(date.value.date), date.value.msOfDay)
  {
    ghost var start := date.value.date;
    ghost var offset := DaysToWednesday(Weekday(start));
    FirstWedIsOffset(start);
    var daysCheckedCount := 0;
    var dateToCheck := new LocalDate.FromValue(date.value);
    while daysCheckedCount < DAYS_TO_CHECK
      invariant 0 <= daysCheckedCount <= offset
      invariant fresh(dateToCheck) && dateToCheck.Valid()
      invariant dateToCheck.value == DateTime(AddDays(start, daysCheckedCount), date.value.msOfDay)
    {
      if dateToCheck.GetDay() == WEDNESDAY {
        if daysCheckedCount < offset {
          NotWednesdayYet(start, daysCheckedCount);
        }
        return dateToCheck;
      }
      AddDaysThenNext(start, daysCheckedCount);
      dateToCheck := new LocalDate.FromValue(DayAfter(dateToCheck.value));
      daysCheckedCount := daysCheckedCount + 1;
    }
    assert false;
    wednesday := dateToCheck;
  }

  // ---------------------------------------------------------------------
  // Season anchors
  // ---------------------------------------------------------------------

  /** The anchor of season `year`: the day of the first Wednesday of September. */
  function Anchor(year: int): (anchor: CivilDate)
    ensures anchor.Valid() && anchor.year == year && anchor.month == SEPTEMBER
    ensures 1 <= anchor.day <= 7
  {
    CivilDate(year, SEPTEMBER, 1 + DaysToWednesday(Weekday(CivilDate(year, SEPTEMBER, 1))))
  }

  /** The anchor is a Wednesday and no earlier day of September is. */
  lemma AnchorIsFirstWednesday(year: int)
    ensures Weekday(Anchor(year)) == WEDNESDAY
    ensures forall day :: 1 <= day < Anchor(year).day ==> Weekday(CivilDate(year, SEPTEMBER, day)) != WEDNESDAY
  {
    var first := CivilDate(year, SEPTEMBER, 1);
    var w := Weekday(first);
    var anchor := Anchor(year);
    WeekdayInMonth(first, anchor.day);
    forall day | 1 <= day < anchor.day
      ensures Weekday(CivilDate(year, SEPTEMBER, day)) != WEDNESDAY
    {
      WeekdayInMonth(first, day);
      OffsetToWednesday(w, day - 1);
    }
  }

  /** The anchor is what the intended search finds from 1 September. */
  lemma AnchorIsFirstWedOnOrAfter(year: int)
    ensures Anchor(year) == FirstWedOnOrAfter(CivilDate(year, SEPTEMBER, 1))
  {
    var first := CivilDate(year, SEPTEMBER, 1);
    FirstWedIsOffset(first);
    AddDaysWithinMonth(first, DaysToWednesday(Weekday(first)));
  }

  /** firstWedInSeptember: the search as written, run on a new 1 September
      midnight object, returns that object moved to the anchor. */
  method FirstWedInSeptember(year: int) returns (anchor: LocalDate)
    ensures fresh(anchor) && anchor.Valid()
    ensures anchor.value == DateTime(Anchor(year), 0)
    ensures anchor.ValueOf() == AnchorTime(year)
  {
    var probe := new LocalDate(year, SEPTEMBER, 1);
    var found := FirstWedAfterDate(probe);
    ScanFromSeptemberFirst(year);
    anchor := found.value;
  }

  /** The instant a season starts: midnight on its anchor date. */
  function AnchorTime(year: int): (ms: int)
    ensures ms == DayNumber(Anchor(year)) * MS_PER_DAY
  {
    TimeValue(DateTime(Anchor(year), 0))
  }

  /** Seasons start in the order of their years. */
  lemma AnchorTimeOrder(a: int, b: int)
    ensures AnchorTime(a) < AnchorTime(b) <==> a < b
  {
    if a < b {
      AnchorTimeIncreasing(a, b);
    } else if b < a {
      AnchorTimeIncreasing(b, a);
    }
  }

  /** Later seasons start later, by more than a day. */
  lemma AnchorTimeIncreasing(earlier: int, later: int)
    requires earlier < later
    ensures AnchorTime(earlier) + MS_PER_DAY <= AnchorTime(later)
  {
    DayNumberYearOrder(Anchor(earlier), Anchor(later));
  }

  // ---------------------------------------------------------------------
  // getCurrentSeason, getCurrentWeek, getSeasons
  // ---------------------------------------------------------------------

  /** getCurrentSeason: this year's season once its anchor has passed, last year's before. */
  function CurrentSeason(now: DateTime): (season: int)
    requires now.Valid()
    ensures season == now.date.year || season == now.date.year - 1
    ensures season == now.date.year <==> AnchorTime(now.date.year) <= TimeValue(now)
    ensures AnchorTime(season) <= TimeValue(now) < AnchorTime(season + 1)
  {
    var currentYear := now.date.year;
    var seasonStartDate := AnchorTime(currentYear);
    SeasonBracket(now);
    if TimeValue(now) < seasonStartDate then currentYear - 1 else currentYear
  }

  lemma SeasonBracket(now: DateTime)
    requires now.Valid()
    ensures AnchorTime(now.date.year - 1) <= TimeValue(now) < AnchorTime(now.date.year + 1)
  {
    AnchorBeforeYear(now);
    AnchorAfterYear(now);
  }

  /** Last year's anchor has passed at any instant of this year. */
  lemma AnchorBeforeYear(now: DateTime)
    requires now.Valid()
    ensures AnchorTime(now.date.year - 1) <= TimeValue(now)
  {
    var before := Anchor(now.date.year - 1);
    DayNumberYearOrder(before, now.date);
    TimeValueDayOrder(DateTime(before, 0), now);
  }

  /** Next year's anchor has not come at any instant of this year. */
  lemma AnchorAfterYear(now: DateTime)
    requires now.Valid()
    ensures TimeValue(now) < AnchorTime(now.date.year + 1)
  {
    var after := Anchor(now.date.year + 1);
    DayNumberYearOrder(now.date, after);
    TimeValueDayOrder(now, DateTime(after, 0));
  }

  /** The current season is the only season whose start has passed and whose
      successor has not started. */
  lemma SeasonIsUnique(now: DateTime, season: int)
    requires now.Valid()
    requires AnchorTime(season) <= TimeValue(now) < AnchorTime(season + 1)
    ensures season == CurrentSeason(now)
  {
    var current := CurrentSeason(now);
    AnchorTimeOrder(season, current + 1);
    AnchorTimeOrder(current, season + 1);
  }

  /** The current season never goes backwards as time goes on. */
  lemma CurrentSeasonMonotone(earlier: DateTime, later: DateTime)
    requires earlier.Valid() && later.Valid()
    requires TimeValue(earlier) <= TimeValue(later)
    ensures CurrentSeason(earlier) <= CurrentSeason(later)
  {
    AnchorTimeOrder(CurrentSeason(earlier), CurrentSeason(later) + 1);
  }

  /** getCurrentWeek: whole weeks since the current season's anchor, at most
      LAST_WEEK_OF_SEASON. `week` full weeks have passed and, below the cap,
      the next one has not. */
  function CurrentWeek(now: DateTime): (week: int)
    requires now.Valid()
    ensures 0 <= week <= LAST_WEEK_OF_SEASON
    ensures AnchorTime(CurrentSeason(now)) + week * MS_PER_WEEK <= TimeValue(now)
    ensures week < LAST_WEEK_OF_SEASON ==>
      TimeValue(now) < AnchorTime(CurrentSeason(now)) + (week + 1) * MS_PER_WEEK
  {
    var diff := TimeValue(now) - AnchorTime(CurrentSeason(now));
    var weekDiff := diff / MS_PER_WEEK;
    if weekDiff > LAST_WEEK_OF_SEASON then LAST_WEEK_OF_SEASON else weekDiff
  }

  /** Within one season the current week never goes backwards as time goes on. */
  lemma CurrentWeekMonotone(earlier: DateTime, later: DateTime)
    requires earlier.Valid() && later.Valid()
    requires TimeValue(earlier) <= TimeValue(later)
    requires CurrentSeason(earlier) == CurrentSeason(later)
    ensures CurrentWeek(earlier) <= CurrentWeek(later)
  {
    var start := AnchorTime(CurrentSeason(later));
    var a, b := TimeValue(earlier) - start, TimeValue(later) - start;
    assert a / MS_PER_WEEK <= b / MS_PER_WEEK;
  }

  /** On the anchor day itself the season has started and no week has elapsed. */
  lemma CurrentWeekOnAnchorDay(now: DateTime)
    requires now.Valid() && now.date == Anchor(now.date.year)
    ensures CurrentSeason(now) == now.date.year
    ensures CurrentWeek(now) == 0
  {
  }

  /** Season 2018 starts on Wednesday 5 September 2018. */
  lemma AnchorOf2018()
    ensures Anchor(2018) == CivilDate(2018, SEPTEMBER, 5)
  {
    DayFromYearClosedForm(2018);
    assert DayNumber(CivilDate(2018, SEPTEMBER, 1)) == 17775;
  }

  /** On Tuesday 4 September 2018 it is still season 2017; from the next day on it is season 2018. */
  lemma SeasonTurnsOver2018(ms: int)
    requires 0 <= ms < MS_PER_DAY
    ensures CurrentSeason(DateTime(CivilDate(2018, SEPTEMBER, 4), ms)) == 2017
    ensures CurrentSeason(DateTime(CivilDate(2018, SEPTEMBER, 5), ms)) == 2018
    ensures CurrentWeek(DateTime(CivilDate(2018, SEPTEMBER, 5), ms)) == 0
  {
    AnchorOf2018();
    CurrentWeekOnAnchorDay(DateTime(CivilDate(2018, SEPTEMBER, 5), ms));
  }

  /** range from the polyfills module: the integers `lo`, `lo + 1`, ..., `hi - 1`. */
  function Range(lo: int, hi: int): (r: seq<int>)
    ensures |r| == if lo < hi then hi - lo else 0
    ensures forall i :: 0 <= i < |r| ==> r[i] == lo + i
    decreases hi - lo
  {
    if lo < hi then [lo] + Range(lo + 1, hi) else []
  }

  /** getSeasons: one entry per season from FIRST_SEASON to the current one,
      oldest first; past seasons list weeks 1..LAST_WEEK_OF_SEASON, the current
      season weeks 1..CurrentWeek(now). */
  function Seasons(now: DateTime): (r: seq<SeasonSummary>)
    requires now.Valid()
    ensures |r| == if CurrentSeason(now) >= FIRST_SEASON then CurrentSeason(now) - FIRST_SEASON + 1 else 0
    ensures forall i :: 0 <= i < |r| ==> r[i].year == FIRST_SEASON + i
    ensures forall i :: 0 <= i < |r| ==>
      |r[i].weeks| == if r[i].year == CurrentSeason(now) then CurrentWeek(now) else LAST_WEEK_OF_SEASON
    ensures forall i, j :: 0 <= i < |r| && 0 <= j < |r[i].weeks| ==> r[i].weeks[j] == j + 1
    ensures forall i, j :: 0 <= i < |r| && 0 <= j < |r[i].weeks| ==>
      1 <= r[i].weeks[j] <= LAST_WEEK_OF_SEASON
  {
    var currentSeason := CurrentSeason(now);
    var seasons := Range(FIRST_SEASON, currentSeason + 1);
    seq(|seasons|, i requires 0 <= i < |seasons| =>
      SeasonSummary(
        seasons[i],
        if seasons[i] != currentSeason
        then Range(1, LAST_WEEK_OF_SEASON + 1)
        else Range(1, CurrentWeek(now) + 1)))
  }
}
