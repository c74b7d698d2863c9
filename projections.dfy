/** The completion projection (src/core/algorithm/projections.ts). The average
    pace is kept as an exact real; the one-decimal display rounding is not part
    of this model. */
module Projections {
  import opened Wrappers
  import opened DateUtils
  import opened Logs

  datatype Projection = Projection(
    estimatedCompletionDate: int,
    averagePagesPerDay: real,
    isOnTrack: bool,
    daysAheadOrBehind: int)

  /** `Math.ceil` on a real. */
  function Ceil(x: real): (n: int)
    ensures (n - 1) as real < x <= n as real
  {
    -((-x).Floor)
  }

  /** The pace used for the projection: pages logged per elapsed day, or, before
      anything is logged, the ideal pace of the goal itself; a pace of exactly 0
      is replaced by 1 so that it can divide. */
  function AveragePagesPerDay(totalPages: int, targetDate: int, logs: seq<ProgressLog>, startDate: int, now: int)
    : (avg: real)
    ensures avg != 0.0
    ensures logs != [] && SumPagesRead(logs) != 0 ==>
              avg * Max(1, DifferenceInDays(now, startDate)) as real == SumPagesRead(logs) as real
    ensures logs != [] && SumPagesRead(logs) == 0 ==> avg == 1.0
    ensures logs == [] && totalPages == 0 ==> avg == 1.0
    ensures logs == [] && totalPages != 0 ==>
              avg * Max(1, DifferenceInDays(targetDate, startDate)) as real == totalPages as real
    ensures (logs == [] ==> totalPages >= 0) && (forall l :: l in logs ==> l.pagesRead >= 0) ==> avg > 0.0
  {
    var average :=
      if logs != [] then
        SumPagesRead(logs) as real / Max(1, DifferenceInDays(now, startDate)) as real
      else
        totalPages as real / Max(1, DifferenceInDays(targetDate, startDate)) as real;
    NonNegativeSum(logs);
    if average == 0.0 then 1.0 else average
  }

  lemma {:induction false} NonNegativeSum(logs: seq<ProgressLog>)
    ensures (forall l :: l in logs ==> l.pagesRead >= 0) ==> SumPagesRead(logs) >= 0
  {
    if logs != [] {
      NonNegativeSum(logs[1..]);
      assert forall l :: l in logs[1..] ==> l in logs;
    }
  }

  lemma ScaleStrict(a: real, b: real, c: real)
    requires a < b && c > 0.0
    ensures a * c < b * c
  {
    assert b * c - a * c == (b - a) * c;
  }

  /** `Math.ceil(pagesRemaining / average)`: whole days needed at the average pace.
      With a positive pace, keeping it for that many days covers the remaining
      pages and one day less would not. */
  function DaysNeeded(pagesRemaining: int, average: real): (n: int)
    requires average != 0.0
    ensures (n - 1) as real < pagesRemaining as real / average <= n as real
    ensures average > 0.0 ==>
              && n as real * average >= pagesRemaining as real
              && (n - 1) as real * average < pagesRemaining as real
    ensures average > 0.0 && pagesRemaining <= 0 ==> n <= 0
    ensures average > 0.0 && pagesRemaining > 0 ==> n >= 1
  {
    var x := pagesRemaining as real / average;
    var n := Ceil(x);
    PaceBounds(pagesRemaining, average, x, n);
    n
  }

  lemma PaceBounds(pagesRemaining: int, average: real, x: real, n: int)
    requires average != 0.0 && x == pagesRemaining as real / average
    requires (n - 1) as real < x <= n as real
    ensures average > 0.0 ==>
              && n as real * average >= pagesRemaining as real
              && (n - 1) as real * average < pagesRemaining as real
    ensures average > 0.0 && pagesRemaining <= 0 ==> n <= 0
    ensures average > 0.0 && pagesRemaining > 0 ==> n >= 1
  {
    var r := pagesRemaining as real;
    assert x * average == r;
    if average > 0.0 {
      ScaleStrict((n - 1) as real, x, average);
      assert (n - 1) as real * average < r;
      if x < n as real {
        ScaleStrict(x, n as real, average);
      }
      assert n as real * average >= r;
      assert r <= 0.0 ==> x <= 0.0 by {
        if x > 0.0 { ScaleStrict(0.0, x, average); }
      }
      assert r > 0.0 ==> x > 0.0 by {
        if x <= 0.0 && x < 1.0 { ScaleStrict(x, 1.0, average); }
      }
    }
  }

  /** `calculateProjection`. */
  function CalculateProjection(currentPage: int, totalPages: int, targetDate: int, logs: seq<ProgressLog>,
                               startDate: int, now: int): (p: Projection)
    ensures p.averagePagesPerDay == AveragePagesPerDay(totalPages, targetDate, logs, startDate, now)
    ensures (p.estimatedCompletionDate - now) % DayMs == 0
    ensures var daysNeeded := (p.estimatedCompletionDate - now) / DayMs;
            && (daysNeeded - 1) as real < (totalPages - currentPage) as real / p.averagePagesPerDay
            && (totalPages - currentPage) as real / p.averagePagesPerDay <= daysNeeded as real
            && p.daysAheadOrBehind == Max(0, DifferenceInDays(targetDate, now)) - daysNeeded
    ensures p.isOnTrack <==> p.daysAheadOrBehind >= 0
  {
    var pagesRemaining := totalPages - currentPage;
    var average := AveragePagesPerDay(totalPages, targetDate, logs, startDate, now);
    var daysNeeded := DaysNeeded(pagesRemaining, average);
    var estimatedCompletionDate := now + daysNeeded * DayMs;
    var targetDaysRemaining := Max(0, DifferenceInDays(targetDate, now));
    var daysAheadOrBehind := targetDaysRemaining - daysNeeded;
    Projection(estimatedCompletionDate, average, daysAheadOrBehind >= 0, daysAheadOrBehind)
  }

  /** A goal already read to the end projects zero or fewer days, so it is on track. */
  lemma FinishedIsOnTrack(currentPage: int, totalPages: int, targetDate: int, logs: seq<ProgressLog>,
                          startDate: int, now: int)
    requires currentPage >= totalPages
    requires forall l :: l in logs ==> l.pagesRead >= 0
    requires logs == [] ==> totalPages >= 0
    ensures CalculateProjection(currentPage, totalPages, targetDate, logs, startDate, now).isOnTrack
  {
    var average := AveragePagesPerDay(totalPages, targetDate, logs, startDate, now);
    var daysNeeded := DaysNeeded(totalPages - currentPage, average);
    assert daysNeeded <= 0;
  }
}
