/**
 * Calendar days as day numbers (day 0 is 1970-01-01, a Thursday) and the
 * Monday-to-Sunday week of ISO 8601 week dates, which the availability
 * screens query and display.
 */
module Calendar {

  /** Days in a week. */
  const DaysPerWeek: int := 7

  /** JavaScript's `Date.getDay()` numbering: 0 is Sunday, 1 Monday, ... 6 Saturday. */
  const Sunday: int := 0
  const Monday: int := 1

  /** The weekday of a day number, numbered as `Date.getDay()` numbers it. */
  function WeekDay(day: int): (w: int)
    ensures 0 <= w < DaysPerWeek
  {
    (day + 4) % DaysPerWeek
  }

  /** The ISO 8601 weekday number: Monday is 1 ... Sunday is 7. */
  function IsoWeekday(day: int): (w: int)
    ensures 1 <= w <= 7
    ensures w % DaysPerWeek == WeekDay(day)
  {
    if WeekDay(day) == Sunday then 7 else WeekDay(day)
  }

  /** The Monday that begins the ISO week holding `day`, computed as the
      date library's `startOf('isoWeek')` computes it. */
  function IsoWeekStart(day: int): int
  {
    day - (IsoWeekday(day) - 1)
  }

  /** Two days a whole number of weeks apart fall on the same weekday. */
  lemma WeekDayShift(day: int, n: int)
    ensures WeekDay(day + 7 * n) == WeekDay(day)
  {
    var q := (day + 4) / 7;
    assert day + 4 == 7 * q + WeekDay(day);
    assert day + 7 * n + 4 == 7 * (q + n) + WeekDay(day);
  }

  /** Stepping `k` days forward from a day with weekday `w` (no wrap past Saturday) adds `k`. */
  lemma WeekDayStep(day: int, k: int)
    requires 0 <= WeekDay(day) + k < DaysPerWeek
    ensures WeekDay(day + k) == WeekDay(day) + k
  {
    var q := (day + 4) / 7;
    assert day + 4 == 7 * q + WeekDay(day);
    assert day + k + 4 == 7 * q + (WeekDay(day) + k);
  }

  /** The week start is a Monday, at most six days before the day itself. */
  lemma IsoWeekStartIsMonday(day: int)
    ensures WeekDay(IsoWeekStart(day)) == Monday
    ensures IsoWeekStart(day) <= day <= IsoWeekStart(day) + 6
  {
    var w := WeekDay(day);
    if w == Sunday {
      WeekDayShift(day - 6, 1);
      WeekDayStep(day - 7, 1);
      WeekDayShift(day - 7, 1);
    } else {
      WeekDayStep(day - (w - 1), w - 1);
    }
  }

  /** Only one Monday lies within the six days up to `day`: the week start. */
  lemma IsoWeekStartUnique(day: int, m: int)
    requires WeekDay(m) == Monday && m <= day <= m + 6
    ensures m == IsoWeekStart(day)
  {
    if day - m < 6 {
      WeekDayStep(m, day - m);
    } else {
      var q := (m + 4) / 7;
      assert m + 4 == 7 * q + Monday;
      assert day + 4 == 7 * (q + 1) + Sunday;
    }
  }
}
