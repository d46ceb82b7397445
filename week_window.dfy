/** The week window of the personal calendar: the Sunday-to-Saturday week
    that contains a reference day. Days are day numbers (day 0 is
    1970-01-01); only calendar days matter, never instants. */
module WeekWindow {

  const DaysPerWeek := 7

  /** `Date.getDay()`: 0 for Sunday through 6 for Saturday. Day 0,
      1970-01-01, was a Thursday. */
  function Weekday(day: int): (w: int)
    ensures 0 <= w < DaysPerWeek
  {
    (day + 4) % DaysPerWeek
  }

  /** `startDate.setDate(baseDate.getDate() - baseDate.getDay())`. */
  function WeekStart(base: int): (start: int)
    ensures Weekday(start) == 0
    ensures start <= base <= start + DaysPerWeek - 1
  {
    base - Weekday(base)
  }

  /** The next day has the next weekday, Saturday wrapping to Sunday. */
  lemma {:induction false} WeekdayNext(day: int)
    ensures Weekday(day + 1) == if Weekday(day) == 6 then 0 else Weekday(day) + 1
  {
  }

  /** The Sunday a window starts on is determined by the window: a Sunday
      that is at most six days before `base` is `WeekStart(base)`. */
  lemma {:induction false} SundayWithinSixDays(base: int, sunday: int)
    requires Weekday(sunday) == 0
    requires sunday <= base <= sunday + DaysPerWeek - 1
    ensures WeekStart(base) == sunday
  {
  }

  /** Two reference days give the same window exactly when they lie in the
      same Sunday-to-Saturday week. */
  lemma SameWindow(a: int, b: int)
    ensures WeekStart(a) == WeekStart(b) <==> WeekStart(a) <= b <= WeekStart(a) + DaysPerWeek - 1
  {
    if WeekStart(a) <= b <= WeekStart(a) + DaysPerWeek - 1 {
      SundayWithinSixDays(b, WeekStart(a));
    }
  }

  /** The window's last day, `endDate`, is a Saturday. */
  lemma WeekEnd(base: int)
    ensures Weekday(WeekStart(base) + DaysPerWeek - 1) == 6
  {
  }
}
