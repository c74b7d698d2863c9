/** The Maghrib day boundary (src/core/algorithm/dateUtils.ts).

    An instant is a number of milliseconds on the local clock; a calendar day is
    a block of `DayMs` milliseconds. The tracked day begins at Maghrib (sunset),
    not at midnight: once the clock has passed today's Maghrib, the "logical
    today" is the next calendar day. */
module DateUtils {
  import opened Wrappers

  const MinuteMs: int := 60_000
  const DayMs: int := 86_400_000

  type Hour = h: int | 0 <= h < 24
  type MinuteOfHour = m: int | 0 <= m < 60

  /** A time of day in "HH:mm" form, as the Maghrib setting stores it. */
  datatype ClockTime = ClockTime(hours: Hour, minutes: MinuteOfHour)
  {
    function MinuteOfDay(): int { hours * 60 + minutes }
  }

  /** The calendar day an instant falls on. */
  function CalendarDay(t: int): int { t / DayMs }

  /** The hour:minute of an instant, counted in minutes since midnight. */
  function MinuteOfDay(t: int): int { (t % DayMs) / MinuteMs }

  /** Whole calendar days from `b` to `a` (date-fns `differenceInCalendarDays`). */
  function DifferenceInCalendarDays(a: int, b: int): int { CalendarDay(a) - CalendarDay(b) }

  /** Full 24-hour periods from `b` to `a`, truncated toward zero (date-fns `differenceInDays`). */
  function DifferenceInDays(a: int, b: int): (r: int)
    ensures a >= b ==> r >= 0 && r * DayMs <= a - b < (r + 1) * DayMs
    ensures a < b ==> r <= 0 && (r - 1) * DayMs < a - b <= r * DayMs
  {
    if a >= b then (a - b) / DayMs else -((b - a) / DayMs)
  }

  /** An instant is its day's start, plus its minute of the day, plus the
      seconds and milliseconds inside that minute. */
  lemma {:induction false} Decompose(t: int)
    ensures 0 <= MinuteOfDay(t) < 1440
    ensures t == CalendarDay(t) * DayMs + MinuteOfDay(t) * MinuteMs + t % MinuteMs
  {
    var q, r := t / DayMs, t % DayMs;
    assert t == q * DayMs + r;
    var m, s := r / MinuteMs, r % MinuteMs;
    assert r == m * MinuteMs + s;
    assert t == (q * 1440 + m) * MinuteMs + s;
    MinuteRemainder(t, q * 1440 + m, s);
  }

  /** The remainder by `MinuteMs` is the only one that fits below a minute. */
  lemma MinuteRemainder(t: int, k: int, s: int)
    requires 0 <= s < MinuteMs && t == k * MinuteMs + s
    ensures t % MinuteMs == s
  {
    var q, r := t / MinuteMs, t % MinuteMs;
    assert t == q * MinuteMs + r;
  }

  /** `setMinutes(setHours(new Date(), hh), mm)`: today's calendar day at the
      Maghrib hour and minute, keeping the clock's own seconds and milliseconds. */
  function TodayMaghrib(now: int, maghrib: ClockTime): int
  {
    CalendarDay(now) * DayMs + maghrib.MinuteOfDay() * MinuteMs + now % MinuteMs
  }

  /** `isAfter(now, todayMaghrib)`. */
  predicate IsAfterMaghrib(now: int, maghrib: ClockTime)
  {
    now > TodayMaghrib(now, maghrib)
  }

  /** Because the seconds are copied from the clock and the comparison is strict,
      the day advances only once the clock's hour:minute exceeds the Maghrib
      hh:mm: at hh:mm:59.999 it is still the same logical day. */
  lemma AfterMaghribByMinute(now: int, maghrib: ClockTime)
    ensures IsAfterMaghrib(now, maghrib) <==> MinuteOfDay(now) > maghrib.MinuteOfDay()
  {
    Decompose(now);
  }

  /** The calendar day of the logical today: the next day once Maghrib has passed. */
  function LogicalDay(now: int, maghrib: ClockTime): int
  {
    CalendarDay(now) + (if IsAfterMaghrib(now, maghrib) then 1 else 0)
  }

  lemma {:induction false} ShiftByDay(t: int, k: int)
    ensures CalendarDay(t + k * DayMs) == CalendarDay(t) + k
    ensures MinuteOfDay(t + k * DayMs) == MinuteOfDay(t)
  {
    var q, r := t / DayMs, t % DayMs;
    assert t + k * DayMs == (q + k) * DayMs + r;
  }

  /** `calculateDaysRemaining`: calendar days from the logical today to the
      target's day, never negative. */
  function CalculateDaysRemaining(targetDate: int, now: int, maghrib: ClockTime): (d: int)
    ensures d >= 0
    ensures CalendarDay(targetDate) <= LogicalDay(now, maghrib) ==> d == 0
    ensures !IsAfterMaghrib(now, maghrib) ==> d == Max(0, CalendarDay(targetDate) - CalendarDay(now))
    ensures IsAfterMaghrib(now, maghrib) ==> d == Max(0, CalendarDay(targetDate) - CalendarDay(now) - 1)
  {
    var effectiveCurrentDate := if IsAfterMaghrib(now, maghrib) then now + DayMs else now;
    ShiftByDay(now, 1);
    Max(0, DifferenceInCalendarDays(targetDate, effectiveCurrentDate))
  }

  /** The logical day never moves backward as the clock moves forward. */
  lemma {:induction false} LogicalDayMonotonic(t1: int, t2: int, maghrib: ClockTime)
    requires t1 <= t2
    ensures LogicalDay(t1, maghrib) <= LogicalDay(t2, maghrib)
  {
    AfterMaghribByMinute(t1, maghrib);
    AfterMaghribByMinute(t2, maghrib);
    Decompose(t1);
    Decompose(t2);
    if CalendarDay(t1) == CalendarDay(t2) {
      assert t1 % DayMs <= t2 % DayMs;
      assert MinuteOfDay(t1) <= MinuteOfDay(t2);
    } else {
      assert CalendarDay(t1) < CalendarDay(t2);
    }
  }

  /** Days remaining never increase as the clock moves forward. */
  lemma DaysRemainingNonIncreasing(targetDate: int, t1: int, t2: int, maghrib: ClockTime)
    requires t1 <= t2
    ensures CalculateDaysRemaining(targetDate, t2, maghrib) <= CalculateDaysRemaining(targetDate, t1, maghrib)
  {
    LogicalDayMonotonic(t1, t2, maghrib);
  }

  /** Crossing Maghrib on one calendar day takes exactly one day off the count
      (while any remains). */
  lemma DaysRemainingDropAtMaghrib(targetDate: int, t1: int, t2: int, maghrib: ClockTime)
    requires CalendarDay(t1) == CalendarDay(t2)
    requires !IsAfterMaghrib(t1, maghrib) && IsAfterMaghrib(t2, maghrib)
    ensures CalculateDaysRemaining(targetDate, t2, maghrib)
         == Max(0, CalculateDaysRemaining(targetDate, t1, maghrib) - 1)
  {
  }

  /** Midnight is not a boundary: from after Maghrib on one day to before Maghrib
      on the next, the logical day and the count stay the same. */
  lemma DaysRemainingSteadyAtMidnight(targetDate: int, t1: int, t2: int, maghrib: ClockTime)
    requires CalendarDay(t2) == CalendarDay(t1) + 1
    requires IsAfterMaghrib(t1, maghrib) && !IsAfterMaghrib(t2, maghrib)
    ensures LogicalDay(t1, maghrib) == LogicalDay(t2, maghrib)
    ensures CalculateDaysRemaining(targetDate, t2, maghrib) == CalculateDaysRemaining(targetDate, t1, maghrib)
  {
  }

  /** `getCurrentIslamicDate`: the clock itself, or the clock plus one day once
      Maghrib has passed. */
  function GetCurrentIslamicDate(now: int, maghrib: ClockTime): (d: int)
    ensures CalendarDay(d) == LogicalDay(now, maghrib)
    ensures MinuteOfDay(d) == MinuteOfDay(now)
    ensures d == now || d == now + DayMs
  {
    ShiftByDay(now, 1);
    if IsAfterMaghrib(now, maghrib) then now + DayMs else now
  }

  /** The Islamic date and the days-remaining count use the same day rule. */
  lemma IslamicDateAgreesWithDaysRemaining(targetDate: int, now: int, maghrib: ClockTime)
    ensures CalculateDaysRemaining(targetDate, now, maghrib)
         == Max(0, DifferenceInCalendarDays(targetDate, GetCurrentIslamicDate(now, maghrib)))
  {
  }

  /** `isToday`: whether a timestamp falls on the calendar day of the logical today. */
  function IsToday(timestamp: int, now: int, maghrib: ClockTime): (r: bool)
    ensures r <==> CalendarDay(timestamp) == LogicalDay(now, maghrib)
  {
    DifferenceInCalendarDays(GetCurrentIslamicDate(now, maghrib), timestamp) == 0
  }
}
