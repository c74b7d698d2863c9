/** The adaptive daily target and the prayer split (src/core/algorithm/calculator.ts). */
module Calculator {
  import opened Wrappers
  import opened DateUtils

  /** What the dashboard shows for today. */
  datatype DailyGoal = DailyGoal(
    pagesNeeded: int,
    pagesRemaining: int,
    daysRemaining: int,
    lastCalculated: int,
    isImpossible: bool)

  /** `Math.ceil(r / d)` for positive integers. */
  function CeilDiv(r: int, d: int): (q: int)
    requires r > 0 && d > 0
    ensures 1 <= q <= r
  {
    var q := (r + d - 1) / d;
    CeilDivBounds(r, d, q, (r + d - 1) % d);
    q
  }

  /** The ceiling quotient is the least `q` with `q * d >= r`. */
  lemma CeilDivIsLeast(r: int, d: int)
    requires r > 0 && d > 0
    ensures CeilDiv(r, d) * d >= r && (CeilDiv(r, d) - 1) * d < r
  {
    CeilDivBounds(r, d, (r + d - 1) / d, (r + d - 1) % d);
  }

  lemma CeilDivBounds(r: int, d: int, q: int, m: int)
    requires r > 0 && d > 0 && 0 <= m < d && r + d - 1 == q * d + m
    ensures q * d >= r && (q - 1) * d < r
    ensures 1 <= q <= r
  {
    assert (q - 1) * d == q * d - d;
    if q <= 0 {
      MulMonotone(q, 0, d);
    } else {
      MulMonotone(1, d, q - 1);
    }
  }

  lemma MulMonotone(a: int, b: int, c: int)
    requires a <= b && c >= 0
    ensures a * c <= b * c
  {
    assert b * c - a * c == (b - a) * c;
  }

  /** `calculateDailyGoal`: pages still to read, spread evenly over the days left
      with the ceiling, so hitting the target every day meets the deadline. */
  function CalculateDailyGoal(totalPages: int, currentPage: int, targetDate: int, maghrib: ClockTime, now: int)
    : (g: DailyGoal)
    ensures g.pagesRemaining >= 0
    ensures g.pagesRemaining == if totalPages > currentPage then totalPages - currentPage else 0
    ensures g.daysRemaining == CalculateDaysRemaining(targetDate, now, maghrib) && g.daysRemaining >= 0
    ensures g.lastCalculated == now
    ensures g.isImpossible <==> g.pagesRemaining > 0 && g.daysRemaining == 0
    ensures g.pagesRemaining == 0 ==> g.pagesNeeded == 0
    ensures g.isImpossible ==> g.pagesNeeded == g.pagesRemaining
    ensures g.pagesRemaining > 0 && g.daysRemaining > 0 ==> 1 <= g.pagesNeeded <= g.pagesRemaining
  {
    var pagesRemaining := Max(0, totalPages - currentPage);
    var daysRemaining := CalculateDaysRemaining(targetDate, now, maghrib);
    if pagesRemaining == 0 then
      DailyGoal(0, 0, daysRemaining, now, false)
    else if daysRemaining == 0 then
      DailyGoal(pagesRemaining, pagesRemaining, 0, now, true)
    else
      DailyGoal(CeilDiv(pagesRemaining, daysRemaining), pagesRemaining, daysRemaining, now, false)
  }

  /** Reading the daily target on every remaining day finishes by the deadline,
      and reading one page a day less would not. */
  lemma DailyTargetMeetsDeadline(totalPages: int, currentPage: int, targetDate: int, maghrib: ClockTime, now: int)
    requires currentPage < totalPages
    requires CalculateDaysRemaining(targetDate, now, maghrib) > 0
    ensures var g := CalculateDailyGoal(totalPages, currentPage, targetDate, maghrib, now);
            && currentPage + g.pagesNeeded * g.daysRemaining >= totalPages
            && currentPage + (g.pagesNeeded - 1) * g.daysRemaining < totalPages
  {
    CeilDivIsLeast(totalPages - currentPage, CalculateDaysRemaining(targetDate, now, maghrib));
  }

  /** JavaScript's `%`, whose result takes the sign of the dividend. */
  function JsRem(a: int, b: int): (r: int)
    requires b > 0
    ensures a >= 0 ==> r == a % b
    ensures -b < r < b
    ensures a < 0 ==> r <= 0
    ensures a == b * (if a >= 0 then a / b else -((-a) / b)) + r
  {
    if a >= 0 then a % b else assert -a == b * ((-a) / b) + (-a) % b; -((-a) % b)
  }

  const PrayerCount: int := 5

  /** `splitByPrayers`: five entries [Fajr, Dhuhr, Asr, Maghrib, Isha], each the
      floor share, with the remainder handed out one page at a time from Fajr on. */
  method SplitByPrayers(dailyPages: int) returns (prayerPages: seq<int>)
    ensures |prayerPages| == PrayerCount
    ensures forall i, j :: 0 <= i <= j < |prayerPages| ==> prayerPages[j] <= prayerPages[i]
    ensures dailyPages >= 0 ==>
              && prayerPages[0] + prayerPages[1] + prayerPages[2] + prayerPages[3] + prayerPages[4] == dailyPages
              && (forall i :: 0 <= i < |prayerPages| ==> prayerPages[i] >= 0)
              && (forall i :: 0 <= i < |prayerPages| ==>
                    (prayerPages[i] == dailyPages / 5 + 1 <==> i < dailyPages % 5))
              && (forall i :: 0 <= i < |prayerPages| ==>
                    prayerPages[i] == dailyPages / 5 || prayerPages[i] == dailyPages / 5 + 1)
    ensures dailyPages < 0 ==> forall i :: 0 <= i < |prayerPages| ==> prayerPages[i] == dailyPages / 5
  {
    var basePages := dailyPages / 5;
    var remainder := JsRem(dailyPages, 5);
    var pages := new int[PrayerCount](_ => basePages);
    var i := 0;
    while i < remainder
      invariant 0 <= i <= PrayerCount
      invariant i <= Max(remainder, 0)
      invariant forall k :: 0 <= k < PrayerCount ==> pages[k] == basePages + (if k < i then 1 else 0)
    {
      pages[i] := pages[i] + 1;
      i := i + 1;
    }
    prayerPages := pages[..];
    assert dailyPages >= 0 ==> dailyPages == 5 * basePages + remainder;
  }
}
