/**
 * Day arithmetic of DateManager.java.  Instants are milliseconds since
 * 1970-01-01 00:00 (a Thursday) in the hotel's time zone; a calendar day is a
 * whole multiple of 24 hours (daylight-saving shifts are not modelled).
 */
module Dates {
  import opened Options
  import opened Config
  import opened Codec

  /** The calendar day an instant falls on. */
  function Day(t: int): int {
    t / DayMs
  }

  /** Milliseconds since the start of the instant's day. */
  function TimeOfDay(t: int): int {
    t % DayMs
  }

  /** Every instant is its day's start plus its time of day. */
  lemma DaySplit(t: int)
    ensures t == Day(t) * DayMs + TimeOfDay(t)
    ensures 0 <= TimeOfDay(t) < DayMs
  {
  }

  /** One day later is the next calendar day at the same time of day. */
  lemma DayShift(t: int)
    ensures Day(t + DayMs) == Day(t) + 1
    ensures TimeOfDay(t + DayMs) == TimeOfDay(t)
  {
  }

  /** The instant truncated to the minute, as a "yyyy-MM-dd HHmm" text keeps it. */
  function MinuteFloor(t: int): (r: int)
    ensures r <= t < r + MinuteMs
    ensures r % MinuteMs == 0
  {
    t - t % MinuteMs
  }

  /**
   * The text of an instant in the data files.  The source writes calendar
   * patterns of minute precision ("yyyy-MM-dd HHmm" and the like); the model
   * writes the number of whole minutes since the epoch, which keeps an
   * instant to its minute as those patterns do.  The reservation code's
   * pattern keeps less: see `Entities.CodeAsWritten`.
   */
  function DateText(t: int): string {
    IntText(t / MinuteMs)
  }

  /** Reading a date text back: a whole number of minutes. */
  function ParseDate(s: string): Option<int> {
    match ParseInt(s)
    case None => None
    case Some(m) => Some(m * MinuteMs)
  }

  /** A written date reads back as the instant truncated to its minute. */
  lemma DateRoundTrip(t: int)
    ensures ParseDate(DateText(t)) == Some(MinuteFloor(t))
  {
    IntRoundTrip(t / MinuteMs);
  }

  /**
   * `getTotalDays`: both instants are cut down to the start of their day and
   * the difference is counted in whole days.  It is 0 on the same day and
   * negative when the end lies on an earlier day.
   */
  function TotalDays(s: int, e: int): int {
    Day(e) - Day(s)
  }

  /** The whole-day difference is less than one day away from the exact difference. */
  lemma TotalDaysNearDifference(s: int, e: int)
    ensures e - s - DayMs < TotalDays(s, e) * DayMs < e - s + DayMs
    ensures TotalDays(s, e) == 0 <==> Day(s) == Day(e)
    ensures TotalDays(s, e) < 0 <==> Day(e) < Day(s)
  {
    DaySplit(s);
    DaySplit(e);
  }

  /** Monday to Friday, counting day 0 (1970-01-01) as a Thursday. */
  predicate IsWeekdayNumber(d: int) {
    (d + 3) % 7 < 5
  }

  /** The instant does not fall on a Saturday or a Sunday. */
  predicate IsWeekday(t: int) {
    IsWeekdayNumber(Day(t))
  }

  // ---------------------------------------------------------------------------
  // getTotalWeekdays as written
  // ---------------------------------------------------------------------------

  /**
   * The count `getTotalWeekdays` computes: the instant `t` is always examined,
   * then the walk moves on by one day while the new instant is still strictly
   * before `e`.
   */
  function WeekdaysAsWritten(t: int, e: int): nat
    decreases e - t
  {
    (if IsWeekday(t) then 1 else 0) + (if t + DayMs < e then WeekdaysAsWritten(t + DayMs, e) else 0)
  }

  /** How many instants that walk examines. */
  function Examined(t: int, e: int): nat
    decreases e - t
  {
    1 + (if t + DayMs < e then Examined(t + DayMs, e) else 0)
  }

  /** The walk examines one instant per started day of the interval, and at least one. */
  lemma {:induction false} ExaminedCount(t: int, e: int)
    ensures Examined(t, e) == if e <= t then 1 else (e - t + DayMs - 1) / DayMs
    decreases e - t
  {
    if t + DayMs < e {
      ExaminedCount(t + DayMs, e);
    }
  }

  /** The walk never counts more weekdays than instants it examines. */
  lemma {:induction false} WeekdaysAtMostExamined(t: int, e: int)
    ensures WeekdaysAsWritten(t, e) <= Examined(t, e)
    decreases e - t
  {
    if t + DayMs < e {
      WeekdaysAtMostExamined(t + DayMs, e);
    }
  }

  /** `getTotalWeekdays`: the do-while loop over the days from `s`. */
  method TotalWeekdays(s: int, e: int) returns (n: nat)
    ensures n == WeekdaysAsWritten(s, e)
    ensures e <= s ==> n == (if IsWeekday(s) then 1 else 0)
    ensures n <= Examined(s, e)
  {
    var t := s;
    n := 0;
    while true
      invariant n + WeekdaysAsWritten(t, e) == WeekdaysAsWritten(s, e)
      decreases e - t
    {
      if IsWeekday(t) {
        n := n + 1;
      }
      t := t + DayMs;
      if !(t < e) {
        break;
      }
    }
    WeekdaysAtMostExamined(s, e);
  }

  // ---------------------------------------------------------------------------
  // Weekday nights
  // ---------------------------------------------------------------------------

  /** The weekdays among the days lo, lo + 1, …, hi - 1. */
  function WeekdayDays(lo: int, hi: int): nat
    decreases hi - lo
  {
    if lo >= hi then 0 else (if IsWeekdayNumber(lo) then 1 else 0) + WeekdayDays(lo + 1, hi)
  }

  /** The nights of a stay from `s` to `e` that start on a weekday. */
  function WeekdayNights(s: int, e: int): nat {
    WeekdayDays(Day(s), Day(e))
  }

  /** A range of days holds no more weekdays than days. */
  lemma {:induction false} WeekdayDaysBound(lo: int, hi: int)
    ensures WeekdayDays(lo, hi) <= if lo < hi then hi - lo else 0
    decreases hi - lo
  {
    if lo < hi {
      WeekdayDaysBound(lo + 1, hi);
    }
  }

  /** A stay never has more weekday nights than nights. */
  lemma WeekdayNightsBound(s: int, e: int)
    ensures WeekdayNights(s, e) <= if TotalDays(s, e) > 0 then TotalDays(s, e) else 0
  {
    WeekdayDaysBound(Day(s), Day(e));
  }

  /**
   * When the end's time of day is not later than the start's, the walk visits
   * exactly the nights of the stay, so the count as written is the number of
   * weekday nights.
   */
  lemma {:induction false} AsWrittenCountsNights(t: int, e: int)
    requires t < e
    requires TimeOfDay(e) <= TimeOfDay(t)
    ensures WeekdaysAsWritten(t, e) == WeekdayNights(t, e)
    decreases e - t
  {
    DaySplit(t);
    DaySplit(e);
    DayShift(t);
    if t + DayMs < e {
      AsWrittenCountsNights(t + DayMs, e);
    } else {
      assert Day(e) == Day(t) + 1;
      assert WeekdayDays(Day(t) + 1, Day(e)) == 0;
    }
  }

  /**
   * A check-in on Monday (day 4) at 14:00 and a check-out on Tuesday at 15:00:
   * one night, but the walk examines both Monday and Tuesday and counts two
   * weekdays.
   */
  lemma WeekdaysExceedNights()
    ensures var s := 4 * DayMs + 14 * HourMs;
      var e := 5 * DayMs + 15 * HourMs;
      TotalDays(s, e) == 1 && WeekdaysAsWritten(s, e) == 2 && WeekdayNights(s, e) == 1
  {
    var s := 4 * DayMs + 14 * HourMs;
    var e := 5 * DayMs + 15 * HourMs;
    assert Day(s) == 4 && Day(e) == 5;
    assert Day(s + DayMs) == 5;
    assert WeekdaysAsWritten(s + DayMs, e) == 1;
  }
}
