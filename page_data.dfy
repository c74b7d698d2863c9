/** The juz lookup of the page-data generator (scripts/generate-page-data.js):
    the first page of each of the thirty juz of the Madinah mushaf, and the juz
    a page belongs to. */
module PageData {

  /** `juzPages`: the page on which each juz begins. */
  const JuzPages: seq<int> := [
    1, 22, 42, 62, 82, 102, 122, 142, 162, 182,
    202, 222, 242, 262, 282, 302, 322, 342, 362, 382,
    402, 422, 442, 462, 482, 502, 522, 542, 562, 582]

  /** The table starts every juz strictly after the previous one. */
  lemma TableIncreasing()
    ensures |JuzPages| == 30 && JuzPages[0] == 1
    ensures forall i, j :: 0 <= i < j < |JuzPages| ==> JuzPages[i] < JuzPages[j]
  {
    forall i, j | 0 <= i < j < |JuzPages|
      ensures JuzPages[i] < JuzPages[j]
    {
      // every entry is 20 pages after the previous one, except the second
      assert forall k :: 1 <= k < |JuzPages| ==> JuzPages[k] == 20 * k + 2;
    }
  }

  /** The scan of a table from index `i` down: one more than the index of the
      first entry met that is at most `page`, or 1 when none is. */
  function ScanDown(table: seq<int>, page: int, i: int): (juz: int)
    requires -1 <= i < |table|
    decreases i + 1
    ensures 1 <= juz <= if i < 0 then 1 else i + 1
  {
    if i < 0 then 1
    else if page >= table[i] then i + 1
    else ScanDown(table, page, i - 1)
  }

  /** The juz of a page, as `getJuzForPage` computes it. */
  function JuzFor(page: int): int
  {
    ScanDown(JuzPages, page, |JuzPages| - 1)
  }

  /** What the scan finds: an entry at most `page` (unless it fell back to 1
      without finding one) with every entry it passed over greater than
      `page`. */
  lemma {:induction false} ScanDownBracket(table: seq<int>, page: int, i: int)
    requires -1 <= i < |table|
    ensures var juz := ScanDown(table, page, i);
      && ((i >= 0 && page >= table[0]) || juz > 1 ==> page >= table[juz - 1])
      && forall k :: juz <= k <= i ==> page < table[k]
  {
    if i >= 0 && page < table[i] {
      ScanDownBracket(table, page, i - 1);
    }
  }

  /** The juz of a page is the one whose first page is the last at or before it:
      its own first page is at most the page and the next juz starts after the
      page. Pages before page 1 fall back to juz 1 without the first half. */
  lemma JuzForBracket(page: int)
    ensures 1 <= JuzFor(page) <= 30
    ensures (page >= 1 || JuzFor(page) > 1) ==> JuzPages[JuzFor(page) - 1] <= page
    ensures JuzFor(page) < 30 ==> page < JuzPages[JuzFor(page)]
  {
    ScanDownBracket(JuzPages, page, |JuzPages| - 1);
  }

  /** Conversely, the bracket decides the juz: for a page from 1 on, the juz is
      the only `r` whose first page is at most the page while the next juz
      starts after it. */
  lemma JuzForUnique(page: int, r: int)
    requires page >= 1 && 1 <= r <= 30
    requires JuzPages[r - 1] <= page
    requires r < 30 ==> page < JuzPages[r]
    ensures JuzFor(page) == r
  {
    JuzForBracket(page);
    TableIncreasing();
  }

  /** Pages before 22 (including those before page 1) are in juz 1, pages from
      582 on in juz 30. */
  lemma JuzForEnds(page: int)
    ensures page < 22 ==> JuzFor(page) == 1
    ensures page >= 582 ==> JuzFor(page) == 30
  {
    JuzForBracket(page);
    TableIncreasing();
  }

  /** A later page never lies in an earlier juz. */
  lemma JuzForMonotone(p: int, q: int)
    requires p <= q
    ensures JuzFor(p) <= JuzFor(q)
  {
    JuzForBracket(p);
    JuzForBracket(q);
    TableIncreasing();
  }

  /** The juz steps up exactly at each table entry: the first page of juz `i + 1`
      is in it, and the page before is still in juz `i`. */
  lemma JuzForStepsAtEntries(i: int)
    requires 1 <= i < |JuzPages|
    ensures JuzFor(JuzPages[i]) == i + 1
    ensures JuzFor(JuzPages[i] - 1) == i
  {
    TableIncreasing();
    JuzForUnique(JuzPages[i], i + 1);
    JuzForUnique(JuzPages[i] - 1, i);
  }

  /** `getJuzForPage`: scans the table from the last juz down and returns the
      first juz whose first page is at most `page`, or juz 1 when there is none. */
  method GetJuzForPage(page: int) returns (juz: int)
    ensures juz == JuzFor(page)
    ensures 1 <= juz <= 30
  {
    var i := |JuzPages| - 1;
    while i >= 0
      invariant -1 <= i < |JuzPages|
      invariant ScanDown(JuzPages, page, i) == JuzFor(page)
    {
      if page >= JuzPages[i] {
        return i + 1;
      }
      i := i - 1;
    }
    return 1;
  }
}
