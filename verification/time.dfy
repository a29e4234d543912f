/**
 * Naive (time-zone free) calendar arithmetic at second resolution.
 *
 * A time of day is a number of seconds since midnight, an instant is a
 * number of seconds since 1970-01-01T00:00:00, and a date is a number of
 * days since 1970-01-01. Dafny's `/` and `%` on a positive divisor round
 * towards minus infinity, which is what Python's `datetime` does for dates
 * before the epoch as well.
 */
module Time {

  const SecondsPerMinute: int := 60
  const SecondsPerHour: int := 3600
  const SecondsPerDay: int := 86400

  /** A `datetime.time` value without microseconds. */
  type TimeOfDay = t: int | 0 <= t < SecondsPerDay

  /** The names `strftime("%A")` produces, indexed by Python's `weekday()` (Monday is 0). */
  const WeekdayNames: seq<string> :=
    ["Monday", "Tuesday", "Wednesday", "Thursday", "Friday", "Saturday", "Sunday"]

  /** The calendar date an instant falls on (`datetime.date()`). */
  function DateOf(t: int): (d: int)
    ensures d * SecondsPerDay <= t < d * SecondsPerDay + SecondsPerDay
  {
    t / SecondsPerDay
  }

  /** The time of day of an instant (`datetime.time()`). */
  function TimeOf(t: int): (tod: TimeOfDay)
    ensures t == DateOf(t) * SecondsPerDay + tod
  {
    t % SecondsPerDay
  }

  /** `datetime.combine(date, time)`. */
  function Combine(d: int, tod: TimeOfDay): (t: int)
    ensures DateOf(t) == d && TimeOf(t) == tod
  {
    d * SecondsPerDay + tod
  }

  /** The minute field of an instant (`datetime.minute`); seconds are not part of it. */
  function Minute(t: int): (m: int)
    ensures 0 <= m < 60
    ensures m == 0 <==> TimeOf(t) % SecondsPerHour < SecondsPerMinute
  {
    (t % SecondsPerHour) / SecondsPerMinute
  }

  /** Python's `date.weekday()`: 1970-01-01 (date 0) was a Thursday. */
  function WeekdayIndex(d: int): (w: int)
    ensures 0 <= w < 7
    ensures d == 0 ==> w == 3
  {
    (d + 3) % 7
  }

  /** The English weekday name of a date, capitalised, as `strftime("%A")` writes it. */
  function WeekdayName(d: int): (name: string)
    ensures name in WeekdayNames
    ensures d == 0 ==> name == "Thursday"
  {
    WeekdayNames[WeekdayIndex(d)]
  }

  /** The name of the day after a day called `name`, as a calendar lists them: Monday follows Sunday. */
  function NextWeekdayName(name: string): (next: string) {
    if name == "Monday" then "Tuesday"
    else if name == "Tuesday" then "Wednesday"
    else if name == "Wednesday" then "Thursday"
    else if name == "Thursday" then "Friday"
    else if name == "Friday" then "Saturday"
    else if name == "Saturday" then "Sunday"
    else "Monday"
  }

  /**
   * The names run through the week in calendar order: seven days later the
   * name is the same, the next day has the next name, and 2024-10-14 (date
   * 20010) was a Monday.
   */
  lemma WeekdayNameCycle(d: int)
    ensures WeekdayName(d + 7) == WeekdayName(d)
    ensures WeekdayName(d + 1) == NextWeekdayName(WeekdayName(d))
    ensures WeekdayName(20010) == "Monday"
  {
    var w := WeekdayIndex(d);
    assert WeekdayIndex(d + 1) == (w + 1) % 7;
    if w == 0 { assert WeekdayName(d) == "Monday"; }
    else if w == 1 { assert WeekdayName(d) == "Tuesday"; }
    else if w == 2 { assert WeekdayName(d) == "Wednesday"; }
    else if w == 3 { assert WeekdayName(d) == "Thursday"; }
    else if w == 4 { assert WeekdayName(d) == "Friday"; }
    else if w == 5 { assert WeekdayName(d) == "Saturday"; }
    else { assert WeekdayName(d) == "Sunday"; }
  }
}
