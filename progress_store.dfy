/** The progress ledger (src/store/progressStore.ts): the goal, the aggregate
    progress, today's target and the reading log, with the store's actions.

    Storage is collapsed into the object's fields; `logs` holds what `getLogs()`
    returns, newest first. The clock, fresh log ids, the Maghrib setting and the
    notification settings are parameters of the actions. Each action is
    specified by a function from the old ledger value to the new one, and the
    lemmas about those functions state what the actions keep. */
module ProgressStore {
  import opened Wrappers
  import opened DateUtils
  import opened Logs
  import opened Goals
  import opened Calculator
  import opened NotificationTriggers

  datatype CurrentProgress = CurrentProgress(currentPage: int, lastUpdated: int, totalPagesRead: int)

  /** The `enabled` and `milestones` switches of the notification settings. */
  datatype NotificationSettings = NotificationSettings(enabled: bool, milestones: bool)

  /** The value the store holds: the goal, the aggregate progress, today's
      target and the log, newest first. */
  datatype Ledger = Ledger(goal: Option<Goal>, currentProgress: Option<CurrentProgress>,
                           dailyGoal: Option<DailyGoal>, logs: seq<ProgressLog>)

  /** The store before onboarding and after a reset. */
  const EmptyLedger := Ledger(None, None, None, [])

  /** A goal and a current progress are set together; without a goal there is
      neither a log nor a target; every log reads at least one page. */
  ghost predicate Consistent(s: Ledger)
  {
    && (s.goal.Some? <==> s.currentProgress.Some?)
    && (s.goal.None? ==> s.logs == [] && s.dailyGoal.None?)
    && (forall l :: l in s.logs ==> l.pagesRead >= 1)
  }

  /** The current page the log implies: the page of the last log in timestamp
      order, or the page before the start page when there is no log. */
  function LatestPage(startPage: int, logs: seq<ProgressLog>): (page: int)
    ensures logs == [] ==> page == startPage - 1
    ensures logs != [] ==> exists x :: IsLatest(x, logs) && x.pageNumber == page
  {
    if logs != [] then
      LastSortedIsLatest(logs);
      LastPage(startPage, SortByTimestamp(logs))
    else
      LastPage(startPage, SortByTimestamp(logs))
  }

  /** The page of the last log of a sorted log, or the page before the start
      page when it is empty. */
  function LastPage(startPage: int, sortedLogs: seq<ProgressLog>): int
  {
    if sortedLogs == [] then startPage - 1 else sortedLogs[|sortedLogs| - 1].pageNumber
  }

  /** The aggregate agrees with a full recomputation from the log. */
  ghost predicate AggregateMatchesLogs(s: Ledger)
  {
    s.goal.Some? && s.currentProgress.Some? ==>
      && s.currentProgress.value.totalPagesRead == SumPagesRead(s.logs)
      && s.currentProgress.value.currentPage == LatestPage(s.goal.value.startPage, s.logs)
  }

  /** `recalculateDailyGoal`: today's target for the goal and the current page,
      when both are set. */
  function Recalculated(s: Ledger, maghrib: ClockTime, now: int): (t: Ledger)
    ensures t.goal == s.goal && t.currentProgress == s.currentProgress && t.logs == s.logs
  {
    if s.goal.None? || s.currentProgress.None? then s
    else
      s.(dailyGoal := Some(CalculateDailyGoal(s.goal.value.mushaf.totalPages, s.currentProgress.value.currentPage,
                                              s.goal.value.targetDate, maghrib, now)))
  }

  /** `setGoal`: the goal, a progress just before the start page with nothing
      read, and today's target; the log is left as it is. */
  function AfterSetGoal(s: Ledger, newGoal: Goal, maghrib: ClockTime, now: int): Ledger
  {
    Recalculated(s.(goal := Some(newGoal), currentProgress := Some(CurrentProgress(newGoal.startPage - 1, now, 0))),
                 maghrib, now)
  }

  /** `logProgress`: one log for reaching `pageNumber` holding the pages since
      the current page (at least one); the aggregate is patched to the new page
      and grows by the same amount. Without a goal nothing changes. */
  function AfterLogProgress(s: Ledger, pageNumber: int, notes: Option<string>, id: string,
                            maghrib: ClockTime, now: int): Ledger
  {
    if s.goal.None? || s.currentProgress.None? then s
    else Recalculated(LogPatch(s, pageNumber, notes, id, now), maghrib, now)
  }

  /** The part of `logProgress` before the target is recalculated. */
  function LogPatch(s: Ledger, pageNumber: int, notes: Option<string>, id: string, now: int): Ledger
    requires s.currentProgress.Some?
  {
    var progress := s.currentProgress.value;
    var pagesRead := Max(1, pageNumber - progress.currentPage);
    s.(currentProgress := Some(CurrentProgress(pageNumber, now, progress.totalPagesRead + pagesRead)),
       logs := NewestFirst(s.logs + [ProgressLog(id, pageNumber, now, pagesRead, notes)]))
  }

  /** The entries a page range logs, one per page from `startPage` to `endPage`:
      timestamps one millisecond apart from `baseTimestamp`, the pages since
      `currentPage` (at least one) on the first entry and one page on each later
      entry, and the notes on the last entry only. */
  function RangeLogs(startPage: int, endPage: int, currentPage: int, baseTimestamp: int,
                     notes: Option<string>, idFor: int -> string): (r: seq<ProgressLog>)
    ensures |r| == Max(0, endPage - startPage + 1)
  {
    seq(Max(0, endPage - startPage + 1),
        k => ProgressLog(idFor(startPage + k), startPage + k, baseTimestamp + k,
                         RangeEntryPages(k, startPage, currentPage),
                         if startPage + k == endPage then notes else None))
  }

  /** The pages the `k`-th entry of a range records. */
  function RangeEntryPages(k: int, startPage: int, currentPage: int): (pages: int)
    ensures pages >= 1
  {
    if k == 0 then Max(1, startPage - currentPage) else 1
  }

  /** Whether `logProgressRange` accepts a range: a goal is set and
      1 <= startPage <= endPage <= totalPages. */
  predicate AcceptsRange(s: Ledger, startPage: int, endPage: int)
  {
    && s.goal.Some? && s.currentProgress.Some?
    && startPage <= endPage
    && 1 <= startPage && endPage <= s.goal.value.mushaf.totalPages
  }

  /** `logProgressRange`: the range's entries are logged, and the aggregate is
      patched to `endPage`, its total growing by `endPage` minus the old current
      page. A range it does not accept changes nothing. */
  function AfterLogProgressRange(s: Ledger, startPage: int, endPage: int, notes: Option<string>,
                                 idFor: int -> string, maghrib: ClockTime, now: int): Ledger
  {
    if !AcceptsRange(s, startPage, endPage) then s
    else Recalculated(RangePatch(s, startPage, endPage, notes, idFor, now), maghrib, now)
  }

  /** The part of `logProgressRange` before the target is recalculated. */
  function RangePatch(s: Ledger, startPage: int, endPage: int, notes: Option<string>, idFor: int -> string,
                      now: int): Ledger
    requires s.currentProgress.Some?
  {
    var progress := s.currentProgress.value;
    var newLogs := RangeLogs(startPage, endPage, progress.currentPage, now, notes, idFor);
    s.(currentProgress := Some(CurrentProgress(endPage, now, progress.totalPagesRead + (endPage - progress.currentPage))),
       logs := NewestFirst(s.logs + newLogs))
  }

  /** The index of the first log at `i` or later with the given id, or -1. */
  function FindIndexFrom(logs: seq<ProgressLog>, id: string, i: nat): (k: int)
    requires i <= |logs|
    decreases |logs| - i
    ensures k == -1 || (i <= k < |logs| && logs[k].id == id)
    ensures k == -1 ==> forall j :: i <= j < |logs| ==> logs[j].id != id
    ensures k != -1 ==> forall j :: i <= j < k ==> logs[j].id != id
  {
    if i == |logs| then -1
    else if logs[i].id == id then i
    else FindIndexFrom(logs, id, i + 1)
  }

  /** `allLogs.find(log => log.id === id)`: the first log with that id. */
  function FindById(logs: seq<ProgressLog>, id: string): (r: Option<ProgressLog>)
    ensures r.None? <==> forall l :: l in logs ==> l.id != id
    ensures r.Some? ==> r.value in logs && r.value.id == id
  {
    var k := FindIndexFrom(logs, id, 0);
    if k == -1 then None else Some(logs[k])
  }

  /** The logs below `page`, in their order. */
  function KeepBelow(s: seq<ProgressLog>, page: int): seq<ProgressLog>
  {
    if s == [] then []
    else KeepBelow(s[..|s| - 1], page) + (if s[|s| - 1].pageNumber < page then [s[|s| - 1]] else [])
  }

  /** `deleteLog`: the named log goes, with every log whose page is at or above
      its page, and the aggregate is recomputed from what is left. An unknown id
      changes nothing. */
  function AfterDeleteLog(s: Ledger, id: string, maghrib: ClockTime, now: int): Ledger
  {
    var found := FindById(s.logs, id);
    if found.None? || s.goal.None? then s
    else
      var remaining := NewestFirst(KeepBelow(s.logs, found.value.pageNumber));
      Recalculated(s.(logs := remaining,
                      currentProgress := Some(CurrentProgress(LatestPage(s.goal.value.startPage, remaining), now,
                                                              SumPagesRead(remaining)))),
                   maghrib, now)
  }

  // ---------------------------------------------------------------------------
  // What the actions keep

  /** Every log reading at least one page, the total is at least the number of
      logs. */
  lemma {:induction false} SumAtLeastCount(s: seq<ProgressLog>)
    requires forall l :: l in s ==> l.pagesRead >= 1
    ensures SumPagesRead(s) >= |s|
  {
    if s != [] {
      assert forall l :: l in s[1..] ==> l in s;
      SumAtLeastCount(s[1..]);
    }
  }

  /** `recalculateDailyGoal` changes only the target, which is the calculator's
      target for the goal and the current page. */
  lemma RecalculatedTarget(s: Ledger, maghrib: ClockTime, now: int)
    requires Consistent(s)
    ensures var t := Recalculated(s, maghrib, now);
      && Consistent(t) && (AggregateMatchesLogs(t) <==> AggregateMatchesLogs(s))
      && t.goal == s.goal && t.currentProgress == s.currentProgress && t.logs == s.logs
      && (s.goal.Some? ==>
            t.dailyGoal == Some(CalculateDailyGoal(s.goal.value.mushaf.totalPages, s.currentProgress.value.currentPage,
                                                   s.goal.value.targetDate, maghrib, now)))
      && (s.goal.None? ==> t.dailyGoal == None)
  {
  }

  /** `setGoal` keeps the ledger consistent and starts with nothing read; the
      aggregate agrees with the log exactly when the log is empty, because a log
      left from an earlier goal is not cleared. */
  lemma SetGoalOutcome(s: Ledger, newGoal: Goal, maghrib: ClockTime, now: int)
    requires Consistent(s)
    ensures var t := AfterSetGoal(s, newGoal, maghrib, now);
      && Consistent(t)
      && t.goal == Some(newGoal) && t.logs == s.logs
      && t.currentProgress == Some(CurrentProgress(newGoal.startPage - 1, now, 0))
      && t.dailyGoal.Some? && t.dailyGoal.value.pagesRemaining == Max(0, newGoal.mushaf.totalPages - newGoal.startPage + 1)
      && (AggregateMatchesLogs(t) <==> s.logs == [])
  {
    var patched := s.(goal := Some(newGoal), currentProgress := Some(CurrentProgress(newGoal.startPage - 1, now, 0)));
    SetGoalPatch(s, patched);
    RecalculatedTarget(patched, maghrib, now);
  }

  lemma SetGoalPatch(s: Ledger, patched: Ledger)
    requires Consistent(s) && patched.logs == s.logs && patched.dailyGoal == s.dailyGoal
    requires patched.goal.Some? && patched.currentProgress.Some?
    requires patched.currentProgress.value.currentPage == patched.goal.value.startPage - 1
    requires patched.currentProgress.value.totalPagesRead == 0
    ensures Consistent(patched) && (AggregateMatchesLogs(patched) <==> s.logs == [])
  {
    if s.logs != [] {
      SumAtLeastCount(s.logs);
    }
  }

  /** `logProgress` keeps the ledger consistent, adds exactly the one new log and
      moves the current page to `pageNumber`; the total grows by the pages the
      new log records, at least one. */
  lemma LogProgressKeepsConsistent(s: Ledger, pageNumber: int, notes: Option<string>, id: string,
                                   maghrib: ClockTime, now: int)
    requires Consistent(s)
    ensures var t := AfterLogProgress(s, pageNumber, notes, id, maghrib, now);
      && Consistent(t) && t.goal == s.goal
      && (s.goal.None? ==> t == s)
      && (s.goal.Some? ==>
            && |t.logs| == |s.logs| + 1
            && t.currentProgress.value.currentPage == pageNumber
            && t.currentProgress.value.totalPagesRead
                 == s.currentProgress.value.totalPagesRead + Max(1, pageNumber - s.currentProgress.value.currentPage)
            && multiset(t.logs) == multiset(s.logs)
                 + multiset{ProgressLog(id, pageNumber, now, Max(1, pageNumber - s.currentProgress.value.currentPage), notes)})
  {
    if s.goal.Some? {
      var log := ProgressLog(id, pageNumber, now, Max(1, pageNumber - s.currentProgress.value.currentPage), notes);
      var patched := LogPatch(s, pageNumber, notes, id, now);
      assert patched.logs == NewestFirst(s.logs + [log]);
      MergedLogsReadPages(s.logs, [log]);
      assert multiset(s.logs + [log]) == multiset(s.logs) + multiset{log};
      RecalculatedTarget(patched, maghrib, now);
    }
  }

  /** Merging logs that each read at least one page gives such logs, as many
      as both together. */
  lemma MergedLogsReadPages(a: seq<ProgressLog>, b: seq<ProgressLog>)
    requires forall l :: l in a ==> l.pagesRead >= 1
    requires forall l :: l in b ==> l.pagesRead >= 1
    ensures |NewestFirst(a + b)| == |a| + |b|
    ensures multiset(NewestFirst(a + b)) == multiset(a) + multiset(b)
    ensures forall l :: l in NewestFirst(a + b) ==> l.pagesRead >= 1
  {
    NewestFirstMembers(a + b);
    forall l | l in NewestFirst(a + b)
      ensures l.pagesRead >= 1
    {
      assert l in a + b;
    }
  }

  /** Appending logs with one strictly later than every other log, old or new,
      makes that log the latest; the totals add up. */
  lemma AppendWithStrictLatest(startPage: int, before: seq<ProgressLog>, extra: seq<ProgressLog>, x: ProgressLog)
    requires x in extra
    requires forall l :: l in before ==> l.timestamp < x.timestamp
    requires forall l :: l in extra && l != x ==> l.timestamp < x.timestamp
    ensures LatestPage(startPage, NewestFirst(before + extra)) == x.pageNumber
    ensures SumPagesRead(NewestFirst(before + extra)) == SumPagesRead(before) + SumPagesRead(extra)
  {
    var all := NewestFirst(before + extra);
    NewestFirstMembers(before + extra);
    assert x in before + extra;
    forall y | y in all && y != x
      ensures y.timestamp < x.timestamp
    {
      assert y in before + extra;
      assert y in before || y in extra;
    }
    StrictLatestSortsLast(x, all);
    SumPagesReadAppend(before, extra);
  }

  /** Once the clock has moved past every stored log, the patch of
      `logProgress` agrees with a recomputation from the log. */
  lemma LogProgressKeepsAggregate(s: Ledger, pageNumber: int, notes: Option<string>, id: string,
                                  maghrib: ClockTime, now: int)
    requires AggregateMatchesLogs(s)
    requires forall l :: l in s.logs ==> l.timestamp < now
    ensures AggregateMatchesLogs(AfterLogProgress(s, pageNumber, notes, id, maghrib, now))
  {
    var t := AfterLogProgress(s, pageNumber, notes, id, maghrib, now);
    if s.goal.None? || s.currentProgress.None? {
      assert t == s;
    } else {
      var log := ProgressLog(id, pageNumber, now, Max(1, pageNumber - s.currentProgress.value.currentPage), notes);
      AppendWithStrictLatest(s.goal.value.startPage, s.logs, [log], log);
      assert t.logs == NewestFirst(s.logs + [log]);
      assert t.currentProgress.value.totalPagesRead == s.currentProgress.value.totalPagesRead + log.pagesRead;
    }
  }

  lemma {:induction false} SumOfSinglePages(s: seq<ProgressLog>)
    requires forall k :: 0 <= k < |s| ==> s[k].pagesRead == 1
    ensures SumPagesRead(s) == |s|
  {
    if s != [] {
      SumOfSinglePages(s[1..]);
    }
  }

  /** The pages a range logs add up to the pages since `currentPage` (at least
      one) plus one per later page; this equals the store's patch
      `endPage - currentPage` exactly when the range starts after `currentPage`. */
  lemma RangePagesAgainstPatch(startPage: int, endPage: int, currentPage: int, baseTimestamp: int,
                               notes: Option<string>, idFor: int -> string)
    requires startPage <= endPage
    ensures var newLogs := RangeLogs(startPage, endPage, currentPage, baseTimestamp, notes, idFor);
      && SumPagesRead(newLogs) == Max(1, startPage - currentPage) + (endPage - startPage)
      && (SumPagesRead(newLogs) == endPage - currentPage <==> startPage > currentPage)
  {
    var newLogs := RangeLogs(startPage, endPage, currentPage, baseTimestamp, notes, idFor);
    SumOfSinglePages(newLogs[1..]);
  }

  /** The last entry of a range is on `endPage` and strictly later than the
      others. */
  lemma RangeEndsLatest(startPage: int, endPage: int, currentPage: int, baseTimestamp: int,
                        notes: Option<string>, idFor: int -> string)
    requires startPage <= endPage
    ensures var newLogs := RangeLogs(startPage, endPage, currentPage, baseTimestamp, notes, idFor);
      && newLogs != [] && newLogs[|newLogs| - 1].pageNumber == endPage
      && newLogs[|newLogs| - 1].timestamp == baseTimestamp + (endPage - startPage)
      && forall l :: l in newLogs && l != newLogs[|newLogs| - 1] ==> l.timestamp < newLogs[|newLogs| - 1].timestamp
  {
    var newLogs := RangeLogs(startPage, endPage, currentPage, baseTimestamp, notes, idFor);
    var last := newLogs[|newLogs| - 1];
    forall l | l in newLogs && l != last
      ensures l.timestamp < last.timestamp
    {
      var k :| 0 <= k < |newLogs| && newLogs[k] == l;
    }
  }

  /** `logProgressRange` keeps the ledger consistent; an accepted range adds
      exactly the range's logs, one per page, moves the current page to `endPage`
      and adds `endPage - currentPage` to the total; anything else changes
      nothing. */
  lemma LogProgressRangeKeepsConsistent(s: Ledger, startPage: int, endPage: int, notes: Option<string>,
                                        idFor: int -> string, maghrib: ClockTime, now: int)
    requires Consistent(s)
    ensures var t := AfterLogProgressRange(s, startPage, endPage, notes, idFor, maghrib, now);
      && Consistent(t) && t.goal == s.goal
      && (!AcceptsRange(s, startPage, endPage) ==> t == s)
      && (AcceptsRange(s, startPage, endPage) ==>
            && |t.logs| == |s.logs| + (endPage - startPage + 1)
            && t.currentProgress.value.currentPage == endPage
            && t.currentProgress.value.totalPagesRead
                 == s.currentProgress.value.totalPagesRead + (endPage - s.currentProgress.value.currentPage)
            && multiset(t.logs) == multiset(s.logs)
                 + multiset(RangeLogs(startPage, endPage, s.currentProgress.value.currentPage, now, notes, idFor)))
  {
    if AcceptsRange(s, startPage, endPage) {
      var newLogs := RangeLogs(startPage, endPage, s.currentProgress.value.currentPage, now, notes, idFor);
      var patched := RangePatch(s, startPage, endPage, notes, idFor, now);
      assert patched.logs == NewestFirst(s.logs + newLogs);
      forall l | l in newLogs
        ensures l.pagesRead >= 1
      {
        var k :| 0 <= k < |newLogs| && newLogs[k] == l;
      }
      MergedLogsReadPages(s.logs, newLogs);
      RecalculatedTarget(patched, maghrib, now);
    }
  }

  /** Starting from an aggregate that matches the log, with the clock past every
      stored log, the patched aggregate of an accepted range still matches
      exactly when the range starts after the current page. */
  lemma LogProgressRangeAggregate(s: Ledger, startPage: int, endPage: int, notes: Option<string>,
                                  idFor: int -> string, maghrib: ClockTime, now: int)
    requires AcceptsRange(s, startPage, endPage) && AggregateMatchesLogs(s)
    requires forall l :: l in s.logs ==> l.timestamp < now
    ensures AggregateMatchesLogs(AfterLogProgressRange(s, startPage, endPage, notes, idFor, maghrib, now))
            <==> startPage > s.currentProgress.value.currentPage
  {
    var currentPage := s.currentProgress.value.currentPage;
    var newLogs := RangeLogs(startPage, endPage, currentPage, now, notes, idFor);
    RangePagesAgainstPatch(startPage, endPage, currentPage, now, notes, idFor);
    RangeEndsLatest(startPage, endPage, currentPage, now, notes, idFor);
    AppendWithStrictLatest(s.goal.value.startPage, s.logs, newLogs, newLogs[|newLogs| - 1]);
    var t := AfterLogProgressRange(s, startPage, endPage, notes, idFor, maghrib, now);
    assert t.logs == NewestFirst(s.logs + newLogs);
    assert t.currentProgress.value == CurrentProgress(endPage, now, s.currentProgress.value.totalPagesRead + (endPage - currentPage));
  }

  /** A one-page range is the same action as logging that page exactly when the
      page lies after the current page; otherwise their totals differ. */
  lemma SinglePageRange(s: Ledger, page: int, notes: Option<string>, idFor: int -> string,
                        maghrib: ClockTime, now: int)
    requires AcceptsRange(s, page, page)
    ensures AfterLogProgressRange(s, page, page, notes, idFor, maghrib, now)
              == AfterLogProgress(s, page, notes, idFor(page), maghrib, now)
            <==> page > s.currentProgress.value.currentPage
  {
    var progress := s.currentProgress.value;
    var log := ProgressLog(idFor(page), page, now, Max(1, page - progress.currentPage), notes);
    var single := RangeLogs(page, page, progress.currentPage, now, notes, idFor);
    assert single == [log];
    var byRange := RangePatch(s, page, page, notes, idFor, now);
    var byPage := LogPatch(s, page, notes, idFor(page), now);
    assert byRange.logs == byPage.logs;
    assert AfterLogProgressRange(s, page, page, notes, idFor, maghrib, now) == Recalculated(byRange, maghrib, now);
    assert AfterLogProgress(s, page, notes, idFor(page), maghrib, now) == Recalculated(byPage, maghrib, now);
    if page > progress.currentPage {
      assert byRange == byPage;
    } else {
      assert byRange.currentProgress.value.totalPagesRead < byPage.currentProgress.value.totalPagesRead;
    }
  }

  /** The logs below `page` are those of `s` below `page`, each as often as in
      `s`. */
  lemma {:induction false} KeepBelowContents(s: seq<ProgressLog>, page: int)
    ensures forall l :: multiset(KeepBelow(s, page))[l] == if l.pageNumber < page then multiset(s)[l] else 0
    ensures forall l :: l in KeepBelow(s, page) <==> l in s && l.pageNumber < page
  {
    if s != [] {
      var init, last := s[..|s| - 1], s[|s| - 1];
      KeepBelowContents(init, page);
      assert s == init + [last];
      assert multiset(s) == multiset(init) + multiset{last};
    }
    forall l
      ensures l in KeepBelow(s, page) <==> l in s && l.pageNumber < page
    {
      assert l in KeepBelow(s, page) <==> l in multiset(KeepBelow(s, page));
      assert l in s <==> l in multiset(s);
    }
  }

  /** `deleteLog` keeps the ledger consistent. When the id is found, exactly the
      logs below the deleted page remain, at least one log goes, and the
      aggregate agrees with a recomputation from what is left. */
  lemma DeleteLogOutcome(s: Ledger, id: string, maghrib: ClockTime, now: int)
    requires Consistent(s)
    ensures var t := AfterDeleteLog(s, id, maghrib, now);
      && Consistent(t) && t.goal == s.goal
      && (FindById(s.logs, id).None? ==> t == s)
      && (FindById(s.logs, id).Some? ==>
            var page := FindById(s.logs, id).value.pageNumber;
            && (forall l :: l in t.logs <==> l in s.logs && l.pageNumber < page)
            && |t.logs| < |s.logs|
            && AggregateMatchesLogs(t)
            && t.currentProgress.value.lastUpdated == now)
  {
    var found := FindById(s.logs, id);
    var t := AfterDeleteLog(s, id, maghrib, now);
    if found.None? {
      assert t == s;
    } else {
      var page := found.value.pageNumber;
      var kept := KeepBelow(s.logs, page);
      KeepBelowContents(s.logs, page);
      KeepBelowDropsDeleted(s.logs, found.value);
      NewestFirstMembers(kept);
      assert t.logs == NewestFirst(kept);
    }
  }

  /** The deleted log is not below its own page, so the cascade removes at
      least one log. */
  lemma {:induction false} KeepBelowDropsDeleted(logs: seq<ProgressLog>, deleted: ProgressLog)
    requires deleted in logs
    ensures |KeepBelow(logs, deleted.pageNumber)| < |logs|
  {
    KeepBelowShorter(logs, deleted.pageNumber);
    var init, last := logs[..|logs| - 1], logs[|logs| - 1];
    assert logs == init + [last];
    if last != deleted {
      assert deleted in init;
      KeepBelowDropsDeleted(init, deleted);
    } else {
      KeepBelowShorter(init, deleted.pageNumber);
    }
  }

  /** The cascade never adds a log. */
  lemma {:induction false} KeepBelowShorter(logs: seq<ProgressLog>, page: int)
    ensures |KeepBelow(logs, page)| <= |logs|
  {
    if logs != [] {
      KeepBelowShorter(logs[..|logs| - 1], page);
    }
  }

  // ---------------------------------------------------------------------------
  // Each action as a patch followed by `recalculateDailyGoal`

  lemma DeleteLogStep(s: Ledger, patched: Ledger, id: string, maghrib: ClockTime, now: int)
    requires FindById(s.logs, id).Some? && s.goal.Some?
    requires var remaining := NewestFirst(KeepBelow(s.logs, FindById(s.logs, id).value.pageNumber));
      patched == s.(logs := remaining,
                    currentProgress := Some(CurrentProgress(LatestPage(s.goal.value.startPage, remaining), now,
                                                            SumPagesRead(remaining))))
    ensures AfterDeleteLog(s, id, maghrib, now) == Recalculated(patched, maghrib, now)
  {
  }

  // ---------------------------------------------------------------------------
  // The loops of the store

  /** The loop of `logProgressRange` that creates the entries. */
  method BuildRangeLogs(startPage: int, endPage: int, currentPage: int, baseTimestamp: int,
                        notes: Option<string>, idFor: int -> string)
    returns (newLogs: seq<ProgressLog>)
    ensures newLogs == RangeLogs(startPage, endPage, currentPage, baseTimestamp, notes, idFor)
  {
    newLogs := [];
    var currentPageInRange := currentPage;
    var page := startPage;
    while page <= endPage
      invariant |newLogs| == Max(0, page - startPage)
      invariant startPage <= page
      invariant page == startPage || page <= endPage + 1
      invariant page > startPage ==> currentPageInRange == page - 1
      invariant page <= startPage ==> page == startPage && currentPageInRange == currentPage
      invariant forall k :: 0 <= k < |newLogs| ==>
                  newLogs[k] == ProgressLog(idFor(startPage + k), startPage + k, baseTimestamp + k,
                                            RangeEntryPages(k, startPage, currentPage),
                                            if startPage + k == endPage then notes else None)
    {
      var pagesRead := Max(1, page - currentPageInRange);
      var log := ProgressLog(idFor(page), page, baseTimestamp + (page - startPage), pagesRead,
                             if page == endPage then notes else None);
      newLogs := newLogs + [log];
      currentPageInRange := page;
      page := page + 1;
    }
    assert startPage <= endPage ==> page == endPage + 1;
  }

  /** The delete cascade of `deleteLog`: the logs below `page` are kept, every
      log at or above it is removed. */
  method KeepBelowPage(allLogs: seq<ProgressLog>, page: int) returns (survivors: seq<ProgressLog>)
    ensures survivors == KeepBelow(allLogs, page)
  {
    survivors := [];
    var i := 0;
    while i < |allLogs|
      invariant 0 <= i <= |allLogs|
      invariant survivors == KeepBelow(allLogs[..i], page)
    {
      assert allLogs[..i + 1][..i] == allLogs[..i];
      if allLogs[i].pageNumber < page {
        survivors := survivors + [allLogs[i]];
      }
      i := i + 1;
    }
    assert allLogs[..i] == allLogs;
  }

  /** The recompute loop of `deleteLog`: walking the logs in timestamp order, the
      current page ends as the last log's page and the total as the sum of all. */
  method FoldProgress(startPage: int, sortedLogs: seq<ProgressLog>) returns (currentPage: int, totalPagesRead: int)
    ensures currentPage == LastPage(startPage, sortedLogs)
    ensures totalPagesRead == SumPagesRead(sortedLogs)
  {
    currentPage := startPage - 1;
    totalPagesRead := 0;
    var i := 0;
    while i < |sortedLogs|
      invariant 0 <= i <= |sortedLogs|
      invariant currentPage == if i == 0 then startPage - 1 else sortedLogs[i - 1].pageNumber
      invariant totalPagesRead == SumPagesRead(sortedLogs[..i])
    {
      SumPagesReadAppend(sortedLogs[..i], [sortedLogs[i]]);
      assert sortedLogs[..i + 1] == sortedLogs[..i] + [sortedLogs[i]];
      currentPage := sortedLogs[i].pageNumber;
      totalPagesRead := totalPagesRead + sortedLogs[i].pagesRead;
      i := i + 1;
    }
    assert sortedLogs[..i] == sortedLogs;
  }

  // ---------------------------------------------------------------------------
  // The store

  class ProgressLedger {
    var goal: Option<Goal>
    var currentProgress: Option<CurrentProgress>
    var dailyGoal: Option<DailyGoal>
    var logs: seq<ProgressLog>
    /** The module-level milestone flags the store resets and checks. */
    const tracker: MilestoneTracker

    ghost function State(): Ledger
      reads this
    {
      Ledger(goal, currentProgress, dailyGoal, logs)
    }

    ghost predicate Valid()
      reads this
    {
      Consistent(State())
    }

    /** The store's initial state. */
    constructor ()
      ensures Valid() && State() == EmptyLedger
      ensures fresh(tracker) && tracker.milestonesSent == map[]
    {
      goal := None;
      currentProgress := None;
      dailyGoal := None;
      logs := [];
      tracker := new MilestoneTracker();
    }

    /** `recalculateDailyGoal`. */
    method RecalculateDailyGoal(maghrib: ClockTime, now: int)
      modifies this`dailyGoal
      ensures State() == Recalculated(old(State()), maghrib, now)
      ensures old(Valid()) ==> Valid()
    {
      if Valid() {
        RecalculatedTarget(State(), maghrib, now);
      }
      if goal.None? || currentProgress.None? {
        return;
      }
      var newDailyGoal := CalculateDailyGoal(goal.value.mushaf.totalPages, currentProgress.value.currentPage,
                                             goal.value.targetDate, maghrib, now);
      dailyGoal := Some(newDailyGoal);
    }

    /** `setGoal`, which also clears the milestone flags. */
    method SetGoal(newGoal: Goal, maghrib: ClockTime, now: int)
      requires Valid()
      modifies this, tracker
      ensures Valid()
      ensures State() == AfterSetGoal(old(State()), newGoal, maghrib, now)
      ensures tracker.milestonesSent == old(tracker.milestonesSent)[25 := false][50 := false][75 := false]
    {
      SetGoalOutcome(State(), newGoal, maghrib, now);
      var progress := CurrentProgress(newGoal.startPage - 1, now, 0);
      goal := Some(newGoal);
      currentProgress := Some(progress);
      tracker.ResetMilestones();
      RecalculateDailyGoal(maghrib, now);
    }

    /** `logProgress`, which then lets the tracker celebrate. Without a goal
        nothing happens. */
    method LogProgress(pageNumber: int, notes: Option<string>, id: string, maghrib: ClockTime,
                       settings: NotificationSettings, now: int)
      returns (celebration: Option<Celebration>)
      requires Valid()
      modifies this, tracker
      ensures Valid()
      ensures State() == AfterLogProgress(old(State()), pageNumber, notes, id, maghrib, now)
      ensures old(goal).None? ==> celebration == None && tracker.milestonesSent == old(tracker.milestonesSent)
      ensures old(goal).Some? ==>
                CheckOutcome(pageNumber, old(goal).value.mushaf.totalPages, settings.enabled, settings.milestones,
                             old(tracker.milestonesSent), tracker.milestonesSent, celebration)
    {
      ghost var before := State();
      if currentProgress.None? || goal.None? {
        return None;
      }
      var progress := currentProgress.value;
      var pagesRead := Max(1, pageNumber - progress.currentPage);
      var log := ProgressLog(id, pageNumber, now, pagesRead, notes);
      var updatedProgress := CurrentProgress(pageNumber, now, progress.totalPagesRead + pagesRead);
      currentProgress := Some(updatedProgress);
      logs := NewestFirst(logs + [log]);
      assert State() == LogPatch(before, pageNumber, notes, id, now);
      RecalculateDailyGoal(maghrib, now);
      LogProgressKeepsConsistent(before, pageNumber, notes, id, maghrib, now);
      celebration := tracker.CheckProgressNotifications(pageNumber, goal.value.mushaf.totalPages,
                                                        settings.enabled, settings.milestones);
    }

    /** `logProgressRange`, which then lets the tracker celebrate. A range it
        does not accept changes nothing. */
    method LogProgressRange(startPage: int, endPage: int, notes: Option<string>, idFor: int -> string,
                            maghrib: ClockTime, settings: NotificationSettings, now: int)
      returns (celebration: Option<Celebration>)
      requires Valid()
      modifies this, tracker
      ensures Valid()
      ensures State() == AfterLogProgressRange(old(State()), startPage, endPage, notes, idFor, maghrib, now)
      ensures !AcceptsRange(old(State()), startPage, endPage) ==>
                celebration == None && tracker.milestonesSent == old(tracker.milestonesSent)
      ensures AcceptsRange(old(State()), startPage, endPage) ==>
                CheckOutcome(endPage, old(goal).value.mushaf.totalPages, settings.enabled, settings.milestones,
                             old(tracker.milestonesSent), tracker.milestonesSent, celebration)
    {
      ghost var before := State();
      if currentProgress.None? || goal.None? {
        return None;
      }
      if startPage > endPage {
        return None;
      }
      if startPage < 1 || endPage > goal.value.mushaf.totalPages {
        return None;
      }
      var progress := currentProgress.value;
      var newLogs := BuildRangeLogs(startPage, endPage, progress.currentPage, now, notes, idFor);
      var totalPagesInRange := endPage - progress.currentPage;
      var updatedProgress := CurrentProgress(endPage, now, progress.totalPagesRead + totalPagesInRange);
      currentProgress := Some(updatedProgress);
      logs := NewestFirst(logs + newLogs);
      assert State() == RangePatch(before, startPage, endPage, notes, idFor, now);
      RecalculateDailyGoal(maghrib, now);
      LogProgressRangeKeepsConsistent(before, startPage, endPage, notes, idFor, maghrib, now);
      celebration := tracker.CheckProgressNotifications(endPage, goal.value.mushaf.totalPages,
                                                        settings.enabled, settings.milestones);
    }

    /** `deleteLog`. */
    method DeleteLog(id: string, maghrib: ClockTime, now: int)
      requires Valid()
      modifies this`logs, this`currentProgress, this`dailyGoal
      ensures Valid()
      ensures State() == AfterDeleteLog(old(State()), id, maghrib, now)
    {
      ghost var before := State();
      var allLogs := logs;
      var logToDelete := FindById(allLogs, id);
      if logToDelete.None? || goal.None? {
        return;
      }
      var survivors := KeepBelowPage(allLogs, logToDelete.value.pageNumber);
      var remaining := NewestFirst(survivors);
      var sortedLogs := SortByTimestamp(remaining);
      var currentPage, totalPagesRead := FoldProgress(goal.value.startPage, sortedLogs);
      assert currentPage == LatestPage(goal.value.startPage, remaining);
      logs := remaining;
      currentProgress := Some(CurrentProgress(currentPage, now, totalPagesRead));
      DeleteLogStep(before, State(), id, maghrib, now);
      RecalculateDailyGoal(maghrib, now);
      DeleteLogOutcome(before, id, maghrib, now);
    }

    /** `resetProgress`: forgets the goal, the progress, the target and the log,
        and clears the milestone flags. */
    method ResetProgress()
      modifies this, tracker
      ensures Valid() && State() == EmptyLedger
      ensures tracker.milestonesSent == old(tracker.milestonesSent)[25 := false][50 := false][75 := false]
    {
      tracker.ResetMilestones();
      goal := None;
      currentProgress := None;
      dailyGoal := None;
      logs := [];
    }
  }
}
