/** Proleptic Gregorian calendar arithmetic in the shape the JavaScript `Date`
    object uses it: a day is numbered from 1 January 1970, months are 0-based
    (0 = January), days of the month are 1-based, weekdays are 0 = Sunday and
    a day is exactly 86 400 000 ms long (local time, no daylight-saving shift). */
module Calendar {

  const MS_PER_DAY: int := 86_400_000   // 1000 * 60 * 60 * 24
  const MS_PER_WEEK: int := 604_800_000  // MS_PER_DAY * 7

  predicate IsLeapYear(year: int) {
    year % 4 == 0 && (year % 100 != 0 || year % 400 == 0)
  }

  function DaysInYear(year: int): int {
    if IsLeapYear(year) then 366 else 365
  }

  /** Length of month `month` (0-based) of `year`. */
  function DaysInMonth(year: int, month: int): (n: int)
    requires 0 <= month < 12
    ensures 28 <= n <= 31
  {
    if month == 1 then (if IsLeapYear(year) then 29 else 28)
    else if month == 3 || month == 5 || month == 8 || month == 10 then 30
    else 31
  }

  /** Number of days of `year` that lie before the first day of month `month`. */
  function DaysBeforeMonth(year: int, month: int): (n: int)
    requires 0 <= month <= 12
    ensures month == 12 ==> n == DaysInYear(year)
  {
    (if month == 0 then 0 else if month == 1 then 31 else if month == 2 then 59
     else if month == 3 then 90 else if month == 4 then 120 else if month == 5 then 151
     else if month == 6 then 181 else if month == 7 then 212 else if month == 8 then 243
     else if month == 9 then 273 else if month == 10 then 304 else if month == 11 then 334
     else 365)
      + (if IsLeapYear(year) && month >= 2 then 1 else 0)
  }

  /** The months of a year tile it: each month starts where the previous one ends. */
  lemma MonthsTile(year: int, month: int)
    requires 0 <= month < 12
    ensures DaysBeforeMonth(year, month + 1) == DaysBeforeMonth(year, month) + DaysInMonth(year, month)
  {
  }

  /** Day number of 1 January of `year`, counted year by year from 1970. */
  function DayFromYear(year: int): int
    decreases if year < 1970 then 1970 - year else year - 1970
  {
    if year == 1970 then 0
    else if year > 1970 then DayFromYear(year - 1) + DaysInYear(year - 1)
    else DayFromYear(year + 1) - DaysInYear(year)
  }

  /** Consecutive years are `DaysInYear` apart. */
  lemma YearLength(year: int)
    ensures DayFromYear(year + 1) == DayFromYear(year) + DaysInYear(year)
  {
  }

  /** The count agrees with the closed form of ECMAScript's DayFromYear
      (`/` floors for a positive divisor). */
  lemma {:induction false} DayFromYearClosedForm(year: int)
    ensures DayFromYear(year) ==
      365 * (year - 1970) + (year - 1969) / 4 - (year - 1901) / 100 + (year - 1601) / 400
    decreases if year < 1970 then 1970 - year else year - 1970
  {
    if year > 1970 {
      DayFromYearClosedForm(year - 1);
      LeapDaysStep(year - 1);
    } else if year < 1970 {
      DayFromYearClosedForm(year + 1);
      LeapDaysStep(year);
    }
  }

  /** The closed form grows by the length of `year` from `year` to `year + 1`. */
  lemma LeapDaysStep(year: int)
    ensures (year - 1968) / 4 - (year - 1900) / 100 + (year - 1600) / 400
      == (year - 1969) / 4 - (year - 1901) / 100 + (year - 1601) / 400 + DaysInYear(year) - 365
  {
    assert (year - 1968) / 4 == (year - 1969) / 4 + (if year % 4 == 0 then 1 else 0);
    assert (year - 1900) / 100 == (year - 1901) / 100 + (if year % 100 == 0 then 1 else 0);
    assert (year - 1600) / 400 == (year - 1601) / 400 + (if year % 400 == 0 then 1 else 0);
  }

  /** The first day of a later year has a larger day number. */
  lemma {:induction false} DayFromYearIncreasing(earlier: int, later: int)
    requires earlier < later
    ensures DayFromYear(earlier) + 365 <= DayFromYear(later)
    decreases later - earlier
  {
    YearLength(earlier);
    if earlier + 1 < later {
      DayFromYearIncreasing(earlier + 1, later);
    }
  }

  /** A calendar date: `month` is 0-based, `day` is the 1-based day of the month. */
  datatype CivilDate = CivilDate(year: int, month: int, day: int) {
    predicate Valid() {
      0 <= month < 12 && 1 <= day <= DaysInMonth(year, month)
    }
  }

  /** Days since 1 January 1970 (negative before it). */
  function DayNumber(c: CivilDate): int
    requires c.Valid()
  {
    DayFromYear(c.year) + DaysBeforeMonth(c.year, c.month) + c.day - 1
  }

  /** A valid date's day number lies within its own year. */
  lemma DayNumberWithinYear(c: CivilDate)
    requires c.Valid()
    ensures DayFromYear(c.year) <= DayNumber(c) < DayFromYear(c.year + 1)
  {
    MonthsTile(c.year, c.month);
    if c.month + 1 < 12 {
      MonthsTile(c.year, c.month + 1);
    }
    assert DaysBeforeMonth(c.year, c.month + 1) <= DaysBeforeMonth(c.year, 12) by {
      var m := c.month + 1;
      while m < 12
        invariant c.month + 1 <= m <= 12
        invariant DaysBeforeMonth(c.year, c.month + 1) <= DaysBeforeMonth(c.year, m)
      {
        MonthsTile(c.year, m);
        m := m + 1;
      }
    }
    YearLength(c.year);
  }

  /** Dates of an earlier year come before dates of a later year. */
  lemma DayNumberYearOrder(a: CivilDate, b: CivilDate)
    requires a.Valid() && b.Valid() && a.year < b.year
    ensures DayNumber(a) < DayNumber(b)
  {
    DayNumberWithinYear(a);
    DayNumberWithinYear(b);
    if a.year + 1 < b.year {
      DayFromYearIncreasing(a.year + 1, b.year);
    }
  }

  /** Day of the week, 0 = Sunday; 1 January 1970 was a Thursday. */
  function Weekday(c: CivilDate): (w: int)
    requires c.Valid()
    ensures 0 <= w < 7
  {
    (DayNumber(c) + 4) % 7
  }

  /** The calendar day after `c`, rolling over the end of a month and of a year. */
  function NextDay(c: CivilDate): (n: CivilDate)
    requires c.Valid()
    ensures n.Valid()
    ensures c.day < DaysInMonth(c.year, c.month) ==> n == c.(day := c.day + 1)
    ensures c.day == DaysInMonth(c.year, c.month) ==> n.day == 1
  {
    if c.day < DaysInMonth(c.year, c.month) then
      c.(day := c.day + 1)
    else if c.month < 11 then
      CivilDate(c.year, c.month + 1, 1)
    else
      CivilDate(c.year + 1, 0, 1)
  }

  /** The next day is numbered one higher. */
  lemma NextDayNumber(c: CivilDate)
    requires c.Valid()
    ensures DayNumber(NextDay(c)) == DayNumber(c) + 1
  {
    MonthsTile(c.year, c.month);
    if c.day == DaysInMonth(c.year, c.month) && c.month == 11 {
      YearLength(c.year);
    }
  }

  /** The date `k` days after `c`. */
  function AddDays(c: CivilDate, k: nat): (r: CivilDate)
    requires c.Valid()
    ensures r.Valid()
    decreases k
  {
    if k == 0 then c else AddDays(NextDay(c), k - 1)
  }

  /** `k` days later is numbered `k` higher. */
  lemma {:induction false} AddDaysNumber(c: CivilDate, k: nat)
    requires c.Valid()
    ensures DayNumber(AddDays(c, k)) == DayNumber(c) + k
    decreases k
  {
    if k > 0 {
      NextDayNumber(c);
      AddDaysNumber(NextDay(c), k - 1);
    }
  }

  /** Stepping `k + 1` days is stepping `k` days and then one more. */
  lemma {:induction false} AddDaysThenNext(c: CivilDate, k: nat)
    requires c.Valid()
    ensures AddDays(c, k + 1) == NextDay(AddDays(c, k))
    decreases k
  {
    if k > 0 {
      AddDaysThenNext(NextDay(c), k - 1);
    }
  }

  /** Moving `k` days forward moves the weekday `k` places around the week. */
  lemma {:induction false} WeekdayAfter(c: CivilDate, k: nat)
    requires c.Valid()
    ensures Weekday(AddDays(c, k)) == (Weekday(c) + k) % 7
  {
    AddDaysNumber(c, k);
    var a := DayNumber(c) + 4;
    assert DayNumber(AddDays(c, k)) + 4 == a + k;
    WeekShift(a, k);
  }

  lemma WeekShift(a: int, k: int)
    ensures (a + k) % 7 == (a % 7 + k) % 7
  {
    var q, r := a / 7, a % 7;
    assert a + k == 7 * q + (r + k);
  }

  /** Within one month, the weekday advances with the day of the month. */
  lemma WeekdayInMonth(c: CivilDate, day: int)
    requires c.Valid() && c.day <= day <= DaysInMonth(c.year, c.month)
    ensures Weekday(c.(day := day)) == (Weekday(c) + (day - c.day)) % 7
  {
    var a := DayNumber(c) + 4;
    assert DayNumber(c.(day := day)) + 4 == a + (day - c.day);
    WeekShift(a, day - c.day);
  }

  /** While the month does not end, `k` days later is `k` more on the day of the month. */
  lemma {:induction false} AddDaysWithinMonth(c: CivilDate, k: nat)
    requires c.Valid() && c.day + k <= DaysInMonth(c.year, c.month)
    ensures AddDays(c, k) == c.(day := c.day + k)
    decreases k
  {
    if k > 0 {
      var n := NextDay(c);
      assert n == c.(day := c.day + 1);
      AddDaysWithinMonth(n, k - 1);
      assert AddDays(c, k) == AddDays(n, k - 1);
    }
  }

  /** A local date and time: the date plus milliseconds since its midnight. */
  datatype DateTime = DateTime(date: CivilDate, msOfDay: int) {
    predicate Valid() {
      date.Valid() && 0 <= msOfDay < MS_PER_DAY
    }
  }

  /** Milliseconds since 1970-01-01 00:00 local time (what `valueOf` gives). */
  function TimeValue(t: DateTime): int
    requires t.Valid()
  {
    DayNumber(t.date) * MS_PER_DAY + t.msOfDay
  }

  /** Instants on an earlier day come before instants on a later day, whatever the time of day. */
  lemma TimeValueDayOrder(a: DateTime, b: DateTime)
    requires a.Valid() && b.Valid()
    ensures DayNumber(a.date) < DayNumber(b.date) ==> TimeValue(a) < TimeValue(b)
    ensures DayNumber(a.date) <= DayNumber(b.date) ==> TimeValue(a) < TimeValue(b) + MS_PER_DAY
  {
  }
}
