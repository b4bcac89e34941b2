/** The part of a JavaScript `Date` object that the season calculator touches:
    a mutable object holding one local date and time. */
module JsDate {
  import opened Calendar

  class LocalDate {
    /** The local date and time this object currently denotes. */
    var value: DateTime

    ghost predicate Valid()
      reads this
    {
      value.Valid()
    }

    /** `new Date(year, month, day)`: midnight at the start of that day. */
    constructor (year: int, month: int, day: int)
      requires CivilDate(year, month, day).Valid()
      ensures Valid() && value == DateTime(CivilDate(year, month, day), 0)
    {
      value := DateTime(CivilDate(year, month, day), 0);
    }

    /** `new Date(t)` for an instant already in hand: a separate object denoting `t`. */
    constructor FromValue(t: DateTime)
      requires t.Valid()
      ensures Valid() && value == t
    {
      value := t;
    }

    /** `getDay()`: day of the week, 0 = Sunday. */
    function GetDay(): (weekday: int)
      reads this
      requires Valid()
      ensures 0 <= weekday < 7
    {
      Weekday(value.date)
    }

    /** `getDate()`: day of the month, 1-based. */
    function GetDate(): (day: int)
      reads this
      requires Valid()
      ensures 1 <= day <= DaysInMonth(value.date.year, value.date.month)
    {
      value.date.day
    }

    /** `valueOf()`: the instant in milliseconds, which `<` and `-` on dates use.
        It falls within the object's own day, `msOfDay` after its midnight. */
    function ValueOf(): (ms: int)
      reads this
      requires Valid()
      ensures DayNumber(value.date) * MS_PER_DAY <= ms < (DayNumber(value.date) + 1) * MS_PER_DAY
      ensures ms - value.msOfDay == DayNumber(value.date) * MS_PER_DAY
    {
      TimeValue(value)
    }

    /** `setDate(day)` for a day of the current month: same month, same time of day,
        and the instant moves by whole days. */
    method SetDate(day: int)
      requires Valid()
      requires 1 <= day <= DaysInMonth(value.date.year, value.date.month)
      modifies this
      ensures Valid()
      ensures value == old(value).(date := old(value.date).(day := day))
      ensures ValueOf() == old(ValueOf()) + (day - old(GetDate())) * MS_PER_DAY
    {
      value := value.(date := value.date.(day := day));
    }
  }
}
