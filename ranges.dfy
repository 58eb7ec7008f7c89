/**
  The date window a view covers (`getCurrentRange`). Local time is modelled
  abstractly: a moment is a day number (day 0 is Thursday 1 January 1970) and
  the milliseconds into that day. Weeks begin on the locale's first weekday
  (0 = Sunday). The month the date falls in is given by its first and last
  day numbers and the length of the month after it.
 */
module Ranges {

  const MsPerDay: int := 86400000

  datatype Moment = Moment(day: int, ms: int)

  predicate ValidMoment(m: Moment)
  {
    0 <= m.ms < MsPerDay
  }

  /** `a` is not after `b`. */
  predicate Le(a: Moment, b: Moment)
  {
    a.day < b.day || (a.day == b.day && a.ms <= b.ms)
  }

  datatype Range = Range(start: Moment, end: Moment)

  /** The month a date falls in: first and last day numbers, and the next month's length. */
  datatype Month = Month(first: int, last: int, nextLength: int)

  /** Day of the week, 0 = Sunday. */
  function Weekday(day: int): int
  {
    (day + 4) % 7
  }

  /** The first day of the week containing `day`, for weeks beginning on `firstDay`. */
  function WeekStart(day: int, firstDay: int): int
    requires 0 <= firstDay < 7
  {
    day - (Weekday(day) - firstDay) % 7
  }

  /** The week of a day begins at most six days before it, on the first weekday. */
  lemma WeekStartBounds(day: int, firstDay: int)
    requires 0 <= firstDay < 7
    ensures WeekStart(day, firstDay) <= day < WeekStart(day, firstDay) + 7
    ensures Weekday(WeekStart(day, firstDay)) == firstDay
  {
    var w := Weekday(day);
    var o := (w - firstDay) % 7;
    var q := (day + 4) / 7;
    var p := (w - firstDay) / 7;
    assert day + 4 == 7 * q + w;
    assert w - firstDay == 7 * p + o;
    assert day - o + 4 == 7 * (q + p) + firstDay;
  }

  /** `moment(date).add(1, 'month')` on a day: the same day of the next month, or its
      last day when that month is shorter. */
  function AddMonth(day: int, month: Month): (d: int)
    ensures month.first <= day && month.nextLength >= 1 ==> month.last < d <= month.last + month.nextLength
    ensures month.first <= day < month.first + month.nextLength ==> d - month.last == day - month.first + 1
    ensures day - month.first >= month.nextLength - 1 ==> d == month.last + month.nextLength
  {
    var dayOfMonth := day - month.first;
    month.last + 1 + (if dayOfMonth < month.nextLength - 1 then dayOfMonth else month.nextLength - 1)
  }

  /** `getCurrentRange(date, view)`; `now` is the current time, returned for a view the
      function does not know. */
  function CurrentRange(date: Moment, view: string, now: Moment, firstDay: int, month: Month): (r: Range)
    requires 0 <= firstDay < 7
    ensures view == "day" ==> r.start == Moment(date.day, 0) && r.end == Moment(date.day, MsPerDay - 1)
    ensures view == "week" || view == "work_week" ==> r.start.day < r.end.day
    ensures view == "month" && month.first <= month.last ==> r.start.day < r.end.day
    ensures view == "agenda" && month.first <= date.day <= month.last && month.nextLength >= 1 ==> r.start.day < r.end.day
  {
    WeekStartBounds(month.first, firstDay);
    WeekStartBounds(month.last, firstDay);
    if view == "day" then
      Range(Moment(date.day, 0), Moment(date.day, MsPerDay - 1))
    else if view == "week" then
      var s := WeekStart(date.day, firstDay);
      Range(Moment(s, 0), Moment(s + 6, MsPerDay - 1))
    else if view == "work_week" then
      var s := WeekStart(date.day, firstDay);
      Range(Moment(s + 1, date.ms), Moment(s + 5, date.ms))
    else if view == "month" then
      Range(Moment(WeekStart(month.first, firstDay), 0), Moment(WeekStart(month.last, firstDay) + 6, MsPerDay - 1))
    else if view == "agenda" then
      Range(Moment(date.day, 0), Moment(AddMonth(date.day, month), MsPerDay - 1))
    else
      Range(now, now)
  }

  /** The day, week and month windows contain the date. */
  lemma RangeContainsDate(date: Moment, view: string, now: Moment, firstDay: int, month: Month)
    requires ValidMoment(date) && 0 <= firstDay < 7
    requires month.first <= date.day <= month.last
    requires view == "day" || view == "week" || view == "month"
    ensures Le(CurrentRange(date, view, now, firstDay, month).start, date)
    ensures Le(date, CurrentRange(date, view, now, firstDay, month).end)
  {
    WeekStartBounds(date.day, firstDay);
    WeekStartBounds(month.first, firstDay);
    WeekStartBounds(month.last, firstDay);
  }

  /** The week window is seven whole days from the first weekday on. */
  lemma WeekRange(date: Moment, now: Moment, firstDay: int, month: Month)
    requires 0 <= firstDay < 7
    ensures var r := CurrentRange(date, "week", now, firstDay, month);
      && Weekday(r.start.day) == firstDay && r.start.ms == 0
      && r.end.day == r.start.day + 6 && r.end.ms == MsPerDay - 1
      && r.start.day <= date.day <= r.end.day
  {
    WeekStartBounds(date.day, firstDay);
  }

  /** From one week start to the end of the week of a later day on the same weekday is a
      whole number of weeks. */
  lemma WholeWeeks(a: int, b: int)
    requires Weekday(a) == Weekday(b)
    ensures (b + 6 - a + 1) % 7 == 0
  {
    var qa := (a + 4) / 7;
    var qb := (b + 4) / 7;
    assert a + 4 == 7 * qa + Weekday(a);
    assert b + 4 == 7 * qb + Weekday(b);
    assert b + 6 - a + 1 == 7 * (qb - qa + 1);
  }

  /** Six days after a week's first day is its last weekday. */
  lemma LastWeekday(b: int, firstDay: int)
    requires 0 <= firstDay < 7 && Weekday(b) == firstDay
    ensures Weekday(b + 6) == (firstDay + 6) % 7
  {
    var q := (b + 4) / 7;
    assert b + 4 == 7 * q + firstDay;
    assert b + 6 + 4 == 7 * q + (firstDay + 6);
  }

  /** The month window runs from the start of the week holding the 1st to the end of the
      week holding the last day: whole weeks, none of them without a day of the month. */
  lemma MonthRangeWholeWeeks(date: Moment, now: Moment, firstDay: int, month: Month)
    requires 0 <= firstDay < 7
    requires month.first <= month.last
    ensures var r := CurrentRange(date, "month", now, firstDay, month);
      && Weekday(r.start.day) == firstDay && r.start.ms == 0
      && r.start.day <= month.first < r.start.day + 7
      && Weekday(r.end.day) == (firstDay + 6) % 7 && r.end.ms == MsPerDay - 1
      && r.end.day - 7 < month.last <= r.end.day
      && (r.end.day - r.start.day + 1) % 7 == 0
  {
    var a := WeekStart(month.first, firstDay);
    var b := WeekStart(month.last, firstDay);
    WeekStartBounds(month.first, firstDay);
    WeekStartBounds(month.last, firstDay);
    LastWeekday(b, firstDay);
    WholeWeeks(a, b);
  }

  /** `weekday(1)` to `weekday(5)`: the second to the sixth day of the locale's week, at
      the date's time of day; Monday to Friday when weeks begin on Sunday, Tuesday to
      Saturday when they begin on Monday. */
  lemma WorkWeekRange(date: Moment, now: Moment, firstDay: int, month: Month)
    requires 0 <= firstDay < 7
    ensures var r := CurrentRange(date, "work_week", now, firstDay, month);
      && Weekday(r.start.day) == (firstDay + 1) % 7
      && r.end.day == r.start.day + 4
      && r.start.ms == date.ms && r.end.ms == date.ms
      && r.start.day - 1 <= date.day <= r.start.day + 5
      && (firstDay == 0 ==> Weekday(r.start.day) == 1 && Weekday(r.end.day) == 5)
      && (firstDay == 1 ==> Weekday(r.start.day) == 2 && Weekday(r.end.day) == 6)
  {
    var s := WeekStart(date.day, firstDay);
    WeekStartBounds(date.day, firstDay);
    assert s + 4 == 7 * ((s + 4) / 7) + firstDay;
  }

  /** Friday 15 March 2024 (day 19797): with weeks from Sunday the work week is Monday
      11 March to Friday 15 March. */
  lemma WorkWeekExample(now: Moment, month: Month)
    ensures var r := CurrentRange(Moment(19797, 0), "work_week", now, 0, month);
      r.start.day == 19793 && r.end.day == 19797
  {
    assert Weekday(19797) == 5;
  }

  /** The agenda window starts at the start of the date's day and ends at the end of the
      same day of the next month, or of that month's last day when it is shorter. */
  lemma AgendaRange(date: Moment, now: Moment, firstDay: int, month: Month)
    requires 0 <= firstDay < 7
    requires month.first <= date.day <= month.last && month.nextLength >= 1
    ensures var r := CurrentRange(date, "agenda", now, firstDay, month);
      && r.start == Moment(date.day, 0)
      && month.last < r.end.day <= month.last + month.nextLength
      && (date.day - month.first < month.nextLength ==> r.end.day - month.last == date.day - month.first + 1)
      && (date.day - month.first >= month.nextLength - 1 ==> r.end.day == month.last + month.nextLength)
      && r.end.ms == MsPerDay - 1
      && Le(date, r.end)
  {
  }

  /** A view the function does not know gives the empty window at the current time. */
  lemma UnknownViewRange(date: Moment, view: string, now: Moment, firstDay: int, month: Month)
    requires 0 <= firstDay < 7
    requires view !in {"day", "week", "work_week", "month", "agenda"}
    ensures CurrentRange(date, view, now, firstDay, month) == Range(now, now)
  {
  }
}
