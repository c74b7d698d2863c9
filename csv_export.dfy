/** The CSV export of the reading history (src/core/export/csvExport.ts).

    Date formatting (`format` from date-fns) is a parameter `format(instant,
    pattern)`, the clock read for the export date is `now`, and the download
    itself is outside the model: a successful export yields the file name and
    the text that would be downloaded. */
module CsvExport {
  import opened Wrappers
  import opened Logs
  import opened Goals

  // ---------------------------------------------------------------------------
  // Integers as text

  function DigitChar(d: int): (c: char)
    requires 0 <= d < 10
    ensures '0' <= c <= '9'
  {
    "0123456789"[d]
  }

  predicate IsDigit(c: char)
  {
    '0' <= c <= '9'
  }

  /** The decimal digits of a natural number, most significant first. */
  function NatToString(n: nat): (s: string)
    ensures |s| >= 1
    ensures forall i :: 0 <= i < |s| ==> IsDigit(s[i])
    decreases n
  {
    if n < 10 then [DigitChar(n)] else NatToString(n / 10) + [DigitChar(n % 10)]
  }

  /** `Number.prototype.toString()` on an integer. */
  function IntToString(n: int): (s: string)
    ensures |s| >= 1
    ensures forall i :: 0 <= i < |s| ==> IsDigit(s[i]) || (i == 0 && s[i] == '-')
    ensures s[0] == '-' <==> n < 0
  {
    if n < 0 then "-" + NatToString(-n) else NatToString(n)
  }

  /** The value of a string of decimal digits. */
  function ParseNat(s: string): int
  {
    if s == [] then 0 else ParseNat(s[..|s| - 1]) * 10 + (s[|s| - 1] as int - '0' as int)
  }

  /** The value of an optionally negative decimal numeral. */
  function ParseInt(s: string): int
  {
    if s != [] && s[0] == '-' then -ParseNat(s[1..]) else ParseNat(s)
  }

  lemma {:induction false} NatRoundTrip(n: nat)
    ensures ParseNat(NatToString(n)) == n
  {
    if n >= 10 {
      NatRoundTrip(n / 10);
      var s := NatToString(n);
      assert s[..|s| - 1] == NatToString(n / 10);
    }
  }

  /** Reading back a written integer gives the integer. */
  lemma IntRoundTrip(n: int)
    ensures ParseInt(IntToString(n)) == n
  {
    if n < 0 {
      NatRoundTrip(-n);
      assert IntToString(n)[1..] == NatToString(-n);
    } else {
      NatRoundTrip(n);
    }
  }

  // ---------------------------------------------------------------------------
  // Quoting, as in section 2 of RFC 4180

  /** `s.replace(/"/g, '""')`: every double quote doubled. */
  function EscapeQuotes(s: string): (r: string)
    ensures QuotesPaired(r)
    ensures |r| >= |s|
  {
    if s == [] then []
    else if s[0] == '"' then "\"\"" + EscapeQuotes(s[1..])
    else [s[0]] + EscapeQuotes(s[1..])
  }

  /** Every double quote in `s` is one of an adjacent pair, so `s` can stand
      between the quotes of a quoted field (rule 7 of section 2 of RFC 4180). */
  predicate QuotesPaired(s: string)
  {
    if s == [] then true
    else if s[0] == '"' then |s| >= 2 && s[1] == '"' && QuotesPaired(s[2..])
    else QuotesPaired(s[1..])
  }

  /** How a reader of the field turns each doubled quote back into one. */
  function UnescapeQuotes(s: string): string
    requires QuotesPaired(s)
  {
    if s == [] then []
    else if s[0] == '"' then "\"" + UnescapeQuotes(s[2..])
    else [s[0]] + UnescapeQuotes(s[1..])
  }

  lemma {:induction false} UnescapeEscape(s: string)
    ensures UnescapeQuotes(EscapeQuotes(s)) == s
  {
    if s != [] {
      UnescapeEscape(s[1..]);
      var e := EscapeQuotes(s);
      if s[0] == '"' {
        assert e[2..] == EscapeQuotes(s[1..]);
      } else {
        assert e[1..] == EscapeQuotes(s[1..]);
      }
    }
  }

  /** The `Notes` field: empty when the notes are absent or empty (both falsy),
      otherwise the notes quoted with their quotes doubled, which a reader of
      RFC 4180 quoted fields decodes back to the notes. */
  function NotesField(notes: Option<string>): (field: string)
    ensures field == "" <==> notes.None? || notes.value == ""
    ensures field != "" ==>
              && |field| >= 2 && field[0] == '"' && field[|field| - 1] == '"'
              && QuotesPaired(field[1..|field| - 1])
              && UnescapeQuotes(field[1..|field| - 1]) == notes.value
  {
    if notes.None? || notes.value == "" then ""
    else
      var inner := EscapeQuotes(notes.value);
      var field := "\"" + inner + "\"";
      assert field[1..|field| - 1] == inner;
      UnescapeEscape(notes.value);
      field
  }

  // ---------------------------------------------------------------------------
  // Joining and splitting lines and fields

  /** `parts.join(sep)`. */
  function Join(parts: seq<string>, sep: char): string
  {
    if parts == [] then ""
    else if |parts| == 1 then parts[0]
    else parts[0] + [sep] + Join(parts[1..], sep)
  }

  /** Cuts `s` at every `sep`, as `s.split(sep)` does. */
  function Split(s: string, sep: char): (parts: seq<string>)
    ensures |parts| >= 1
  {
    if s == [] then [""]
    else
      var rest := Split(s[1..], sep);
      if s[0] == sep then [""] + rest else [[s[0]] + rest[0]] + rest[1..]
  }

  lemma {:induction false} SplitWithout(p: string, sep: char)
    requires sep !in p
    ensures Split(p, sep) == [p]
  {
    if p != [] {
      SplitWithout(p[1..], sep);
      assert [p[0]] + p[1..] == p;
    }
  }

  lemma {:induction false} SplitAfter(p: string, sep: char, s: string)
    requires sep !in p
    ensures Split(p + [sep] + s, sep) == [p] + Split(s, sep)
  {
    if p == [] {
      assert p + [sep] + s == [sep] + s;
      assert ([sep] + s)[1..] == s;
    } else {
      SplitAfter(p[1..], sep, s);
      assert (p + [sep] + s)[1..] == p[1..] + [sep] + s;
      assert [p[0]] + p[1..] == p;
    }
  }

  /** Joining parts that do not contain the separator can be undone by
      splitting. */
  lemma {:induction false} SplitJoin(parts: seq<string>, sep: char)
    requires parts != []
    requires forall i :: 0 <= i < |parts| ==> sep !in parts[i]
    ensures Split(Join(parts, sep), sep) == parts
  {
    if |parts| == 1 {
      SplitWithout(parts[0], sep);
    } else {
      SplitJoin(parts[1..], sep);
      SplitAfter(parts[0], sep, Join(parts[1..], sep));
      assert [parts[0]] + parts[1..] == parts;
    }
  }

  // ---------------------------------------------------------------------------
  // The document

  const Headers: seq<string> := ["Date", "Time", "Page Number", "Pages Read", "Notes", "Timestamp"]

  /** The six fields of one log, in the order of the headers. */
  function Row(log: ProgressLog, format: (int, string) -> string): (fields: seq<string>)
    ensures |fields| == |Headers|
  {
    [format(log.timestamp, "yyyy-MM-dd"), format(log.timestamp, "HH:mm:ss"),
     IntToString(log.pageNumber), IntToString(log.pagesRead),
     NotesField(log.notes), IntToString(log.timestamp)]
  }

  /** How the mushaf is named in the metadata. */
  function MushafName(t: MushafType): string
  {
    if t == Madinah604 then "Madinah Mushaf" else t.Name()
  }

  /** The metadata comment block: five `#` lines and a blank line when there is
      a goal, nothing otherwise. */
  function Metadata(goal: Option<Goal>, now: int, format: (int, string) -> string): (lines: seq<string>)
    ensures goal.None? ==> lines == []
    ensures goal.Some? ==> |lines| == 6 && lines[5] == ""
  {
    if goal.None? then []
    else
      var g := goal.value;
      ["# KhatamFlow Export",
       "# Mushaf: " + MushafName(g.mushaf.mushafType) + " (" + IntToString(g.mushaf.totalPages) + " pages)",
       "# Target Date: " + format(g.targetDate, "yyyy-MM-dd"),
       "# Start Page: " + IntToString(g.startPage),
       "# Export Date: " + format(now, "yyyy-MM-dd HH:mm:ss"),
       ""]
  }

  /** Every metadata line but the closing blank one is a `# ` comment. */
  lemma MetadataIsComments(goal: Option<Goal>, now: int, format: (int, string) -> string)
    requires goal.Some?
    ensures var lines := Metadata(goal, now, format);
      forall i :: 0 <= i < 5 ==> |lines[i]| >= 2 && lines[i][0] == '#' && lines[i][1] == ' '
  {
  }

  /** With no line break in the formatted dates, no metadata line holds one. */
  lemma MetadataHasNoBreak(goal: Option<Goal>, now: int, format: (int, string) -> string)
    requires forall t: int, pattern: string :: '\n' !in format(t, pattern)
    ensures var lines := Metadata(goal, now, format);
      forall i :: 0 <= i < |lines| ==> '\n' !in lines[i]
  {
    if goal.Some? {
      var g := goal.value;
      IntHasNoBreak(g.mushaf.totalPages);
      IntHasNoBreak(g.startPage);
      LiteralsHaveNoBreak();
      assert '\n' !in MushafName(g.mushaf.mushafType);
      assert '\n' !in format(g.targetDate, "yyyy-MM-dd");
      assert '\n' !in format(now, "yyyy-MM-dd HH:mm:ss");
    }
  }

  lemma LiteralsHaveNoBreak()
    ensures '\n' !in "# KhatamFlow Export" && '\n' !in "# Mushaf: " && '\n' !in " (" && '\n' !in " pages)"
    ensures '\n' !in "# Target Date: " && '\n' !in "# Start Page: " && '\n' !in "# Export Date: "
  {
  }

  /** The header line splits back into the six column names. */
  lemma HeaderLine()
    ensures Split(Join(Headers, ','), ',') == Headers
  {
    SplitJoin(Headers, ',');
  }

  function RowLines(logs: seq<ProgressLog>, format: (int, string) -> string): (lines: seq<string>)
    ensures |lines| == |logs|
    ensures forall k :: 0 <= k < |logs| ==> lines[k] == Join(Row(logs[k], format), ',')
  {
    seq(|logs|, k requires 0 <= k < |logs| => Join(Row(logs[k], format), ','))
  }

  /** The lines of the document: metadata, header, then one line per log. */
  function CsvLines(logs: seq<ProgressLog>, goal: Option<Goal>, now: int, format: (int, string) -> string)
    : seq<string>
  {
    Metadata(goal, now, format) + [Join(Headers, ',')] + RowLines(logs, format)
  }

  /** `convertToCSV`: the lines joined by `\n`. */
  function CsvText(logs: seq<ProgressLog>, goal: Option<Goal>, now: int, format: (int, string) -> string): string
  {
    Join(CsvLines(logs, goal, now, format), '\n')
  }

  /** The layout of the document: after the metadata (six lines with a goal,
      none without) comes the header line (which `HeaderLine` reads back), then
      the `k`-th log's row on the line that follows it by `k + 1`, in input
      order. */
  lemma CsvLayout(logs: seq<ProgressLog>, goal: Option<Goal>, now: int, format: (int, string) -> string)
    ensures var lines := CsvLines(logs, goal, now, format);
      var m := |Metadata(goal, now, format)|;
      && m == (if goal.Some? then 6 else 0)
      && |lines| == m + 1 + |logs|
      && lines[m] == Join(Headers, ',')
      && forall k :: 0 <= k < |logs| ==> lines[m + 1 + k] == Join(Row(logs[k], format), ',')
  {
    LinesLayout(Metadata(goal, now, format), Join(Headers, ','), RowLines(logs, format));
  }

  lemma LinesLayout(meta: seq<string>, header: string, rows: seq<string>)
    ensures var lines := meta + [header] + rows;
      && |lines| == |meta| + 1 + |rows|
      && lines[|meta|] == header
      && forall k :: 0 <= k < |rows| ==> lines[|meta| + 1 + k] == rows[k]
  {
  }

  /** When no formatted date and no note holds a line break, splitting the text
      at `\n` gives back exactly the lines. */
  lemma CsvTextSplitsIntoLines(logs: seq<ProgressLog>, goal: Option<Goal>, now: int, format: (int, string) -> string)
    requires forall t: int, pattern: string :: '\n' !in format(t, pattern)
    requires forall k :: 0 <= k < |logs| && logs[k].notes.Some? ==> '\n' !in logs[k].notes.value
    ensures Split(CsvText(logs, goal, now, format), '\n') == CsvLines(logs, goal, now, format)
  {
    MetadataHasNoBreak(goal, now, format);
    HeaderHasNoBreak();
    RowLinesHaveNoBreak(logs, format);
    LinesKeepOut(Metadata(goal, now, format), Join(Headers, ','), RowLines(logs, format), '\n');
    SplitJoin(CsvLines(logs, goal, now, format), '\n');
  }

  lemma HeaderHasNoBreak()
    ensures '\n' !in Join(Headers, ',')
  {
    JoinKeepsOut(Headers, ',', '\n');
  }

  lemma RowLinesHaveNoBreak(logs: seq<ProgressLog>, format: (int, string) -> string)
    requires forall t: int, pattern: string :: '\n' !in format(t, pattern)
    requires forall k :: 0 <= k < |logs| && logs[k].notes.Some? ==> '\n' !in logs[k].notes.value
    ensures forall k :: 0 <= k < |logs| ==> '\n' !in RowLines(logs, format)[k]
  {
    forall k | 0 <= k < |logs|
      ensures '\n' !in RowLines(logs, format)[k]
    {
      RowHasNoBreak(logs[k], format);
    }
  }

  lemma LinesKeepOut(meta: seq<string>, header: string, rows: seq<string>, c: char)
    requires forall i :: 0 <= i < |meta| ==> c !in meta[i]
    requires c !in header
    requires forall k :: 0 <= k < |rows| ==> c !in rows[k]
    ensures var lines := meta + [header] + rows;
      forall i :: 0 <= i < |lines| ==> c !in lines[i]
  {
    var lines := meta + [header] + rows;
    forall i | 0 <= i < |lines|
      ensures c !in lines[i]
    {
      if i > |meta| {
        assert lines[i] == rows[i - |meta| - 1];
      }
    }
  }

  lemma IntHasNoBreak(n: int)
    ensures '\n' !in IntToString(n) && ',' !in IntToString(n) && '"' !in IntToString(n)
  {
    var s := IntToString(n);
    forall i | 0 <= i < |s|
      ensures s[i] != '\n' && s[i] != ',' && s[i] != '"'
    {
    }
  }

  lemma {:induction false} JoinKeepsOut(parts: seq<string>, sep: char, c: char)
    requires c != sep
    requires forall i :: 0 <= i < |parts| ==> c !in parts[i]
    ensures c !in Join(parts, sep)
  {
    if |parts| > 1 {
      JoinKeepsOut(parts[1..], sep, c);
    }
  }

  lemma EscapeKeepsOut(s: string, c: char)
    requires c != '"' && c !in s
    ensures c !in EscapeQuotes(s)
  {
    if s != [] {
      EscapeKeepsOut(s[1..], c);
    }
  }

  lemma RowHasNoBreak(log: ProgressLog, format: (int, string) -> string)
    requires forall t: int, pattern: string :: '\n' !in format(t, pattern)
    requires log.notes.Some? ==> '\n' !in log.notes.value
    ensures '\n' !in Join(Row(log, format), ',')
  {
    IntHasNoBreak(log.pageNumber);
    IntHasNoBreak(log.pagesRead);
    IntHasNoBreak(log.timestamp);
    if log.notes.Some? {
      EscapeKeepsOut(log.notes.value, '\n');
    }
    var row := Row(log, format);
    assert '\n' !in row[0] && '\n' !in row[1];
    JoinKeepsOut(row, ',', '\n');
  }

  /** A row reads back: with no comma in the formatted dates or the notes,
      splitting the line at `,` gives back the six fields, and the numbers parse
      back to the log's page, pages read and timestamp (the notes field decodes
      to the notes, as `NotesField` states). */
  lemma RowReadsBack(log: ProgressLog, format: (int, string) -> string)
    requires forall t: int, pattern: string :: ',' !in format(t, pattern)
    requires log.notes.Some? ==> ',' !in log.notes.value
    ensures var fields := Split(Join(Row(log, format), ','), ',');
      && fields == Row(log, format)
      && ParseInt(fields[2]) == log.pageNumber
      && ParseInt(fields[3]) == log.pagesRead
      && ParseInt(fields[5]) == log.timestamp
  {
    var row := Row(log, format);
    IntHasNoBreak(log.pageNumber);
    IntHasNoBreak(log.pagesRead);
    IntHasNoBreak(log.timestamp);
    if log.notes.Some? {
      EscapeKeepsOut(log.notes.value, ',');
    }
    assert ',' !in row[0] && ',' !in row[1];
    SplitJoin(row, ',');
    IntRoundTrip(log.pageNumber);
    IntRoundTrip(log.pagesRead);
    IntRoundTrip(log.timestamp);
  }

  /** `convertToCSV`, with the metadata block pushed line by line. */
  method ConvertToCsv(logs: seq<ProgressLog>, goal: Option<Goal>, now: int, format: (int, string) -> string)
    returns (csvContent: string)
    ensures csvContent == CsvText(logs, goal, now, format)
  {
    var rows := RowLines(logs, format);
    var metadata: seq<string> := [];
    if goal.Some? {
      var g := goal.value;
      var mushafName := MushafName(g.mushaf.mushafType);
      metadata := metadata + ["# KhatamFlow Export"];
      metadata := metadata + ["# Mushaf: " + mushafName + " (" + IntToString(g.mushaf.totalPages) + " pages)"];
      metadata := metadata + ["# Target Date: " + format(g.targetDate, "yyyy-MM-dd")];
      metadata := metadata + ["# Start Page: " + IntToString(g.startPage)];
      metadata := metadata + ["# Export Date: " + format(now, "yyyy-MM-dd HH:mm:ss")];
      metadata := metadata + [""];
    }
    assert metadata == Metadata(goal, now, format);
    csvContent := Join(metadata + [Join(Headers, ',')] + rows, '\n');
  }

  // ---------------------------------------------------------------------------
  // Export and summary

  datatype CsvFile = CsvFile(filename: string, content: string)

  /** `exportToCSV` up to the download: an empty log is refused; otherwise the
      file holds the CSV of a copy of the logs sorted ascending by timestamp and
      is named after the export date. */
  function ExportToCsv(logs: seq<ProgressLog>, goal: Option<Goal>, now: int, format: (int, string) -> string)
    : (r: Result<CsvFile, string>)
    ensures r.Failure? <==> logs == []
    ensures r.Failure? ==> r.error == "No reading logs to export"
    ensures r.Success? ==> r.value.filename == "khatamflow-export-" + format(now, "yyyy-MM-dd") + ".csv"
  {
    if |logs| == 0 then Failure("No reading logs to export")
    else
      var sortedLogs := SortByTimestamp(logs);
      Success(CsvFile("khatamflow-export-" + format(now, "yyyy-MM-dd") + ".csv",
                      CsvText(sortedLogs, goal, now, format)))
  }

  /** The exported rows are the given logs, each as often as given, in
      ascending timestamp order. */
  lemma ExportSortsLogs(logs: seq<ProgressLog>, goal: Option<Goal>, now: int, format: (int, string) -> string)
    requires logs != []
    ensures exists sortedLogs: seq<ProgressLog> ::
              && multiset(sortedLogs) == multiset(logs)
              && (forall i, j :: 0 <= i < j < |sortedLogs| ==> sortedLogs[i].timestamp <= sortedLogs[j].timestamp)
              && ExportToCsv(logs, goal, now, format).value.content == CsvText(sortedLogs, goal, now, format)
  {
    var sortedLogs := SortByTimestamp(logs);
    SortKeepsEntries(logs);
    AscendingOrdered(sortedLogs);
    assert ExportToCsv(logs, goal, now, format).value.content == CsvText(sortedLogs, goal, now, format);
  }

  datatype DateRange = DateRange(start: int, end: int)

  datatype ExportSummary = ExportSummary(totalLogs: int, totalPages: int, dateRange: Option<DateRange>)

  /** `getExportSummary`: the number of logs, the pages they read, and the span
      from the earliest to the latest timestamp (none for an empty log). */
  function GetExportSummary(logs: seq<ProgressLog>): (r: ExportSummary)
    ensures r.totalLogs == |logs| && r.totalPages == SumPagesRead(logs)
    ensures r.dateRange.None? <==> logs == []
    ensures r.dateRange.Some? ==>
              && (exists x :: IsEarliest(x, logs) && x.timestamp == r.dateRange.value.start)
              && (exists x :: IsLatest(x, logs) && x.timestamp == r.dateRange.value.end)
  {
    if |logs| == 0 then ExportSummary(0, 0, None)
    else
      var sortedLogs := SortByTimestamp(logs);
      FirstSortedIsEarliest(logs);
      LastSortedIsLatest(logs);
      ExportSummary(|logs|, SumPagesRead(logs),
                    Some(DateRange(sortedLogs[0].timestamp, sortedLogs[|sortedLogs| - 1].timestamp)))
  }
}
