/** One logged reading event and the orderings the store puts logs in
    (src/types/progress.ts, the `by-timestamp` index of src/core/storage/db.ts,
    and the `sort((a, b) => a.timestamp - b.timestamp)` calls of the store and the
    export). */
module Logs {
  import opened Wrappers

  datatype ProgressLog = ProgressLog(
    id: string,
    pageNumber: int,
    timestamp: int,
    pagesRead: int,
    notes: Option<string>)

  /** `logs.reduce((sum, log) => sum + log.pagesRead, 0)`. */
  function SumPagesRead(logs: seq<ProgressLog>): int
  {
    if logs == [] then 0 else logs[0].pagesRead + SumPagesRead(logs[1..])
  }

  lemma {:induction false} SumPagesReadAppend(a: seq<ProgressLog>, b: seq<ProgressLog>)
    ensures SumPagesRead(a + b) == SumPagesRead(a) + SumPagesRead(b)
  {
    if a != [] {
      assert (a + b)[1..] == a[1..] + b;
      SumPagesReadAppend(a[1..], b);
    } else {
      assert a + b == b;
    }
  }

  /** Each entry is no later than the next. */
  ghost predicate Ascending(s: seq<ProgressLog>)
    decreases |s|
  {
    |s| <= 1 || (s[0].timestamp <= s[1].timestamp && Ascending(s[1..]))
  }

  /** In an ascending sequence every entry is no later than every entry after it. */
  lemma {:induction false} AscendingOrdered(s: seq<ProgressLog>)
    requires Ascending(s)
    ensures forall i, j :: 0 <= i < j < |s| ==> s[i].timestamp <= s[j].timestamp
  {
    if |s| > 1 {
      AscendingOrdered(s[1..]);
      forall i, j | 0 <= i < j < |s|
        ensures s[i].timestamp <= s[j].timestamp
      {
        assert s[j] == s[1..][j - 1];
        if i > 0 {
          assert s[i] == s[1..][i - 1];
        }
      }
    }
  }

  /** Places `x` into an ascending sequence after every entry with an equal or
      earlier timestamp, so that entries with equal timestamps keep their order. */
  function InsertByTimestamp(x: ProgressLog, s: seq<ProgressLog>): (r: seq<ProgressLog>)
    requires Ascending(s)
    ensures Ascending(r)
    ensures |r| == |s| + 1
    ensures SumPagesRead(r) == x.pagesRead + SumPagesRead(s)
    ensures r[0] == x || (s != [] && r[0] == s[0])
  {
    if s == [] then [x]
    else if x.timestamp < s[0].timestamp then
      assert ([x] + s)[1..] == s;
      [x] + s
    else
      var rest := InsertByTimestamp(x, s[1..]);
      assert ([s[0]] + rest)[1..] == rest;
      assert s == [s[0]] + s[1..];
      [s[0]] + rest
  }

  /** Inserting adds `x` and keeps every other entry. */
  lemma {:induction false} InsertKeepsEntries(x: ProgressLog, s: seq<ProgressLog>)
    requires Ascending(s)
    ensures multiset(InsertByTimestamp(x, s)) == multiset(s) + multiset{x}
  {
    if s != [] && x.timestamp >= s[0].timestamp {
      InsertKeepsEntries(x, s[1..]);
      assert s == [s[0]] + s[1..];
    }
  }

  /** A stable ascending sort by timestamp, as JavaScript's `Array.prototype.sort`
      with the comparator `a.timestamp - b.timestamp`. */
  function SortByTimestamp(s: seq<ProgressLog>): (r: seq<ProgressLog>)
    ensures Ascending(r)
    ensures |r| == |s|
    ensures SumPagesRead(r) == SumPagesRead(s)
  {
    if s == [] then []
    else
      var init, last := s[..|s| - 1], s[|s| - 1];
      assert s == init + [last];
      SumPagesReadAppend(init, [last]);
      InsertByTimestamp(last, SortByTimestamp(init))
  }

  /** Sorting keeps every entry, each as often as before. */
  lemma {:induction false} SortKeepsEntries(s: seq<ProgressLog>)
    ensures multiset(SortByTimestamp(s)) == multiset(s)
  {
    if s != [] {
      var init, last := s[..|s| - 1], s[|s| - 1];
      assert s == init + [last];
      SortKeepsEntries(init);
      InsertKeepsEntries(last, SortByTimestamp(init));
    }
  }

  function Reverse(s: seq<ProgressLog>): (r: seq<ProgressLog>)
    ensures |r| == |s|
  {
    if s == [] then [] else Reverse(s[1..]) + [s[0]]
  }

  /** Reversing puts the `i`-th entry from the end at index `i`. */
  lemma {:induction false} ReverseAt(s: seq<ProgressLog>)
    ensures forall i :: 0 <= i < |s| ==> Reverse(s)[i] == s[|s| - 1 - i]
  {
    if s != [] {
      ReverseAt(s[1..]);
      forall i | 0 <= i < |s|
        ensures Reverse(s)[i] == s[|s| - 1 - i]
      {
        if i < |s| - 1 {
          assert Reverse(s)[i] == Reverse(s[1..])[i];
        }
      }
    }
  }

  lemma {:induction false} ReverseKeepsContents(s: seq<ProgressLog>)
    ensures multiset(Reverse(s)) == multiset(s)
    ensures SumPagesRead(Reverse(s)) == SumPagesRead(s)
  {
    if s != [] {
      ReverseKeepsContents(s[1..]);
      assert s == [s[0]] + s[1..];
      SumPagesReadAppend(Reverse(s[1..]), [s[0]]);
    }
  }

  /** `getLogs()`: every stored log, most recent first. */
  function NewestFirst(s: seq<ProgressLog>): (r: seq<ProgressLog>)
    ensures |r| == |s|
    ensures SumPagesRead(r) == SumPagesRead(s)
  {
    var asc := SortByTimestamp(s);
    ReverseKeepsContents(asc);
    Reverse(asc)
  }

  /** `getLogs()` lists exactly the stored logs, each as often as stored. */
  lemma NewestFirstMembers(s: seq<ProgressLog>)
    ensures multiset(NewestFirst(s)) == multiset(s)
    ensures forall l :: l in NewestFirst(s) <==> l in s
  {
    SortKeepsEntries(s);
    ReverseKeepsContents(SortByTimestamp(s));
    SameElements(NewestFirst(s), s);
  }

  /** `getLogs()` lists the logs from the latest to the earliest. */
  lemma NewestFirstDescending(s: seq<ProgressLog>)
    ensures forall i, j :: 0 <= i < j < |NewestFirst(s)| ==> NewestFirst(s)[j].timestamp <= NewestFirst(s)[i].timestamp
  {
    var asc := SortByTimestamp(s);
    AscendingOrdered(asc);
    ReverseAt(asc);
  }

  lemma SameElements(a: seq<ProgressLog>, b: seq<ProgressLog>)
    requires multiset(a) == multiset(b)
    ensures forall l :: l in a <==> l in b
  {
    forall l
      ensures l in a <==> l in b
    {
      assert l in a <==> l in multiset(a);
      assert l in b <==> l in multiset(b);
    }
  }

  /** A log with no later log beside it. */
  ghost predicate IsLatest(x: ProgressLog, s: seq<ProgressLog>)
  {
    x in s && forall y :: y in s ==> y.timestamp <= x.timestamp
  }

  /** The last entry of an ascending sequence is a latest one. */
  lemma {:induction false} AscendingLastIsLatest(s: seq<ProgressLog>)
    requires Ascending(s) && s != []
    ensures IsLatest(s[|s| - 1], s)
  {
    if |s| > 1 {
      AscendingLastIsLatest(s[1..]);
      assert s[|s| - 1] == s[1..][|s| - 2];
      forall y | y in s
        ensures y.timestamp <= s[|s| - 1].timestamp
      {
        if y != s[0] {
          assert y in s[1..];
        }
      }
    }
  }

  /** The last entry of the ascending sort is a latest log. */
  lemma LastSortedIsLatest(s: seq<ProgressLog>)
    requires s != []
    ensures IsLatest(SortByTimestamp(s)[|s| - 1], s)
  {
    var r := SortByTimestamp(s);
    SortKeepsEntries(s);
    AscendingLastIsLatest(r);
    assert r[|s| - 1] in multiset(s);
    forall y | y in s
      ensures y.timestamp <= r[|s| - 1].timestamp
    {
      assert y in multiset(r);
    }
  }

  /** A log with no earlier log beside it. */
  ghost predicate IsEarliest(x: ProgressLog, s: seq<ProgressLog>)
  {
    x in s && forall y :: y in s ==> x.timestamp <= y.timestamp
  }

  /** The first entry of an ascending sequence is an earliest one. */
  lemma {:induction false} AscendingFirstIsEarliest(s: seq<ProgressLog>)
    requires Ascending(s) && s != []
    ensures IsEarliest(s[0], s)
  {
    if |s| > 1 {
      AscendingFirstIsEarliest(s[1..]);
      assert s[1] == s[1..][0];
      forall y | y in s
        ensures s[0].timestamp <= y.timestamp
      {
        if y != s[0] {
          assert y in s[1..];
        }
      }
    }
  }

  /** The first entry of the ascending sort is an earliest log. */
  lemma FirstSortedIsEarliest(s: seq<ProgressLog>)
    requires s != []
    ensures IsEarliest(SortByTimestamp(s)[0], s)
  {
    var r := SortByTimestamp(s);
    SortKeepsEntries(s);
    AscendingFirstIsEarliest(r);
    assert r[0] in multiset(s);
    forall y | y in s
      ensures r[0].timestamp <= y.timestamp
    {
      assert y in multiset(r);
    }
  }

  /** When one log is strictly later than every other, the sort puts it last. */
  lemma StrictLatestSortsLast(x: ProgressLog, s: seq<ProgressLog>)
    requires x in s
    requires forall y :: y in s && y != x ==> y.timestamp < x.timestamp
    ensures SortByTimestamp(s)[|s| - 1] == x
  {
    LastSortedIsLatest(s);
  }
}
