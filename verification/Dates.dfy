/**
 * The week-window calculator of `supper/dates.py`.
 *
 * A timestamp is a naive local date-time, written as an integer count of
 * microseconds since 0001-01-01 00:00:00, which is a Monday (Python's
 * `datetime.min`). With that epoch the weekday is `(t / DAY) % 7` with
 * Monday = 0, and the time of day is `t % DAY`; Dafny's Euclidean division
 * keeps both right for instants before the epoch as well.
 */
module Dates {
  import Wrappers

  const SECOND: int := 1_000_000
  const MINUTE: int := 60 * SECOND
  const HOUR: int := 60 * MINUTE
  const DAY: int := 24 * HOUR
  const WEEK: int := 7 * DAY

  /** From Monday 00:00:00.000000 to Friday 23:59:00.000000 of the same week. */
  const FRIDAY_OFFSET: int := 4 * DAY + 23 * HOUR + 59 * MINUTE

  /** Python's `datetime.weekday()`: 0 for Monday through 6 for Sunday. */
  function Weekday(t: int): (w: int)
    ensures 0 <= w < 7
  {
    (t / DAY) % 7
  }

  /** The hours, minutes, seconds and microseconds of `t` as one duration. */
  function TimeOfDay(t: int): (d: int)
    ensures 0 <= d < DAY
  {
    t % DAY
  }

  /** The pair returned by `get_week_datetime`. */
  datatype WeekWindow = WeekWindow(monday: int, friday: int)

  /** A Monday at midnight together with the Friday 23:59 that follows it. */
  predicate ValidWindow(w: WeekWindow)
  {
    w.monday % WEEK == 0 && w.friday == w.monday + FRIDAY_OFFSET
  }

  /**
   * The week a reference instant is mapped to, counted in weeks since the
   * epoch: its own week on Monday to Friday, the next one on the weekend.
   */
  function TargetWeek(t: int): int
  {
    t / WEEK + (if Weekday(t) <= 4 then 0 else 1)
  }

  /** Monday and Friday of the calendar week of `today`, before any weekend shift. */
  function CurrentWeek(today: int): WeekWindow
  {
    var weekday := Weekday(today);
    var extraTime := TimeOfDay(today);
    var monday := today - weekday * DAY - extraTime;
    var friday := today + (4 - weekday) * DAY - extraTime + 23 * HOUR + 59 * MINUTE;
    WeekWindow(monday, friday)
  }

  /**
   * `get_week_datetime(start)`: a supplied `start` replaces the clock
   * reading `now`; on Saturday and Sunday the window moves to the next week.
   */
  function GetWeekDatetime(start: Wrappers.Option<int>, now: int): (w: WeekWindow)
    ensures ValidWindow(w)
    ensures Weekday(w.monday) == 0 && TimeOfDay(w.monday) == 0
    ensures w.friday - w.monday == FRIDAY_OFFSET
    ensures w.monday == TargetWeek(start.GetOr(now)) * WEEK
  {
    var today := start.GetOr(now);
    var current := CurrentWeek(today);
    var w := if Weekday(today) <= 4 then current
      else WeekWindow(current.monday + 7 * DAY, current.friday + 7 * DAY);
    CurrentWeekIsCalendarWeek(today);
    assert w.monday == TargetWeek(today) * WEEK by {
      assert (today / WEEK) * WEEK + 7 * DAY == (today / WEEK + 1) * WEEK;
    }
    MidnightMonday(TargetWeek(today));
    w
  }

  /** Euclidean division is determined by quotient and remainder. */
  lemma DivModUnique(t: int, m: int, q: int, r: int)
    requires m > 0 && t == q * m + r && 0 <= r < m
    ensures t / m == q && t % m == r
  {
    var q', r' := t / m, t % m;
    assert (q' - q) * m == r - r';
    SmallMultipleIsZero(q' - q, m);
  }

  lemma SmallMultipleIsZero(x: int, m: int)
    requires m > 0 && -m < x * m < m
    ensures x == 0
  {
    if x > 0 {
      MultipleAtLeast(x, m);
    } else if x < 0 {
      MultipleAtLeast(-x, m);
    }
  }

  lemma MultipleAtLeast(x: int, m: int)
    requires x >= 1 && m > 0
    ensures x * m >= m && (-x) * m <= -m
  {
  }

  /** The `k`-th Monday after the epoch is a Monday at midnight. */
  lemma MidnightMonday(k: int)
    ensures Weekday(k * WEEK) == 0 && TimeOfDay(k * WEEK) == 0
    ensures (k * WEEK) % WEEK == 0
  {
    DivModUnique(k * WEEK, DAY, 7 * k, 0);
    DivModUnique(7 * k, 7, k, 0);
    DivModUnique(k * WEEK, WEEK, k, 0);
  }

  /** The unshifted Monday is the start of the seven-day block containing `t`. */
  lemma CurrentWeekIsCalendarWeek(t: int)
    ensures CurrentWeek(t).monday == (t / WEEK) * WEEK
    ensures CurrentWeek(t).friday == CurrentWeek(t).monday + FRIDAY_OFFSET
    ensures t - CurrentWeek(t).monday == Weekday(t) * DAY + TimeOfDay(t)
  {
    var d := t / DAY;
    var w := d % 7;
    var k := d / 7;
    assert t == d * DAY + TimeOfDay(t);
    assert d == 7 * k + w;
    assert t == k * WEEK + (w * DAY + TimeOfDay(t));
    DivModUnique(t, WEEK, k, w * DAY + TimeOfDay(t));
  }

  /**
   * On a weekday the reference lies in the five days from the returned
   * Monday, at exactly its weekday and time of day past that Monday.
   */
  lemma WorkdayReferenceInWindow(t: int, now: int)
    requires Weekday(t) <= 4
    ensures var w := GetWeekDatetime(Wrappers.Some(t), now);
      && w.monday <= t < w.monday + 5 * DAY
      && t - w.monday == Weekday(t) * DAY + TimeOfDay(t)
      && w == CurrentWeek(t)
  {
    CurrentWeekIsCalendarWeek(t);
  }

  /** The window ends at 23:59:00, so a Friday reference after that minute lies past it. */
  lemma ReferenceMayFollowFriday()
    ensures var t := FRIDAY_OFFSET + 30 * SECOND;
      Weekday(t) == 4 && t > GetWeekDatetime(Wrappers.Some(t), 0).friday
  {
    var t := FRIDAY_OFFSET + 30 * SECOND;
    DivModUnique(t, DAY, 4, 23 * HOUR + 59 * MINUTE + 30 * SECOND);
    DivModUnique(4, 7, 0, 4);
    CurrentWeekIsCalendarWeek(t);
    DivModUnique(t, WEEK, 0, t);
  }

  /**
   * On Saturday or Sunday both results are the current week's values moved
   * on by exactly seven days, and the returned Monday is at most two days
   * after the reference.
   */
  lemma WeekendRollsForward(t: int, now: int)
    requires Weekday(t) >= 5
    ensures var w := GetWeekDatetime(Wrappers.Some(t), now);
      && w.monday == CurrentWeek(t).monday + 7 * DAY
      && w.friday == CurrentWeek(t).friday + 7 * DAY
      && t < w.monday <= t + 2 * DAY
  {
    CurrentWeekIsCalendarWeek(t);
  }

  /**
   * Two reference instants get the same window exactly when they target the
   * same week: the same Monday-to-Friday span, or a weekend and the working
   * days after it. A supplied reference makes the clock irrelevant.
   */
  lemma SameWindowIffSameTargetWeek(t1: int, now1: int, t2: int, now2: int)
    ensures GetWeekDatetime(Wrappers.Some(t1), now1) == GetWeekDatetime(Wrappers.Some(t2), now2)
        <==> TargetWeek(t1) == TargetWeek(t2)
  {
    var k1, k2 := TargetWeek(t1), TargetWeek(t2);
    if k1 != k2 {
      if k1 < k2 {
        assert k1 * WEEK + WEEK <= k2 * WEEK;
      } else {
        assert k2 * WEEK + WEEK <= k1 * WEEK;
      }
    }
  }

  /** A Saturday or Sunday gets the window of every working day of the following week. */
  lemma WeekendSharesNextWeeksWindow(t1: int, t2: int, now: int)
    requires Weekday(t1) >= 5 && Weekday(t2) <= 4
    requires t2 / WEEK == t1 / WEEK + 1
    ensures GetWeekDatetime(Wrappers.Some(t1), now) == GetWeekDatetime(Wrappers.Some(t2), now)
  {
    SameWindowIffSameTargetWeek(t1, now, t2, now);
  }
}
