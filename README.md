# KhatamFlow reading-pace engine in Dafny

KhatamFlow helps a reader finish the Qur'an (a *khatam*) by a target date. The
reader picks a mushaf (the 604-page Madinah print, an IndoPak print or a custom
page count), a start page and a deadline. Every reading session is logged. The
app keeps an aggregate of where the reader is, and recomputes today's target
after each change: the pages left spread over the days left, rounded up. Days are
counted from a *logical today* that moves to the next day at Maghrib (sunset),
not at midnight. Around this core the app does four more things:

- it celebrates the 25 %, 50 % and 75 % milestones once each, and completion
  every time the last page is reached;
- it projects the completion date from the reader's pace;
- it exports the log as CSV;
- it classifies the browser and decides whether it can run the app.

This project models that core in Dafny and proves what it promises. There is
one module per source file:

| module | file | source |
|---|---|---|
| `Wrappers` | `wrappers.dfy` | option and result values, `Max` |
| `Goals` | `goal.dfy` | the goal and mushaf records (`src/types/goal.ts`) |
| `Logs` | `logs.dfy` | a reading-log entry, the timestamp sort, and the newest-first order of `getLogs` (`src/core/storage/db.ts`) |
| `DateUtils` | `date_utils.dfy` | the Maghrib day boundary (`src/core/algorithm/dateUtils.ts`) |
| `Calculator` | `calculator.dfy` | the daily target and the five-prayer split (`src/core/algorithm/calculator.ts`) |
| `Projections` | `projections.dfy` | the completion projection (`src/core/algorithm/projections.ts`) |
| `NotificationTriggers` | `notification_triggers.dfy` | the milestone flags and the check that fires celebrations (`src/core/notifications/notificationTriggers.ts`) |
| `ProgressStore` | `progress_store.dfy` | the ledger and its actions (`src/store/progressStore.ts`) |
| `CsvExport` | `csv_export.dfy` | CSV serialisation, export and summary (`src/core/export/csvExport.ts`) |
| `BrowserCheck` | `browser_check.dfy` | user-agent detection and the compatibility decision (`src/core/compatibility/browserCheck.ts`) |
| `PageData` | `page_data.dfy` | the juz table and `getJuzForPage` (`scripts/generate-page-data.js`) |

Time is a whole number of milliseconds on the local clock. A calendar day is a
block of 86 400 000 of them, and the Maghrib setting is an hour and a minute.

The store is a class, `ProgressLedger`, with the four fields the source mutates.
Each action is a method whose postcondition ties the new state to a function of
the old state (`AfterSetGoal`, `AfterLogProgress`, `AfterLogProgressRange`,
`AfterDeleteLog`, `Recalculated`). The lemmas about those functions state what
each action keeps and changes. The loops of the source are methods with loop
invariants, each proved against a function:

- the range loop of `logProgressRange`;
- the delete cascade and the recomputation fold of `deleteLog`;
- the fill of `splitByPrayers`;
- the milestone loop and the reset loop;
- the metadata pushes of `convertToCSV`;
- the warning pushes of `checkCompatibility`;
- the descending scan of `getJuzForPage`.

The store's two append actions patch the aggregate (current page and total pages
read) step by step. Only `deleteLog` recomputes it from the log. The model keeps
that difference, and lemmas state when a patched aggregate that agreed with a
recomputation still agrees:

- `logProgress` keeps an agreeing aggregate agreeing, once the clock has moved
  past every stored log. An aggregate that already disagrees stays out of step;
  `setGoal` over logs left from an earlier goal is one way to get there.
- `logProgressRange` keeps it agreeing exactly when the range starts after the
  current page.
  A range that re-reads earlier pages adds to the total `endPage` minus the old
  current page. That can be less than the pages its logs record, or negative.

## Model

| member | source | states |
|---|---|---|
| ProgressStore.ProgressLedger.constructor | src/store/progressStore.ts:39-45 | The store starts with no goal, no progress, no target and an empty log, which is a consistent ledger; the milestone record starts empty |
| ProgressStore.ProgressLedger.RecalculateDailyGoal | src/store/progressStore.ts:217-239 | The new ledger is the old one with today's target recomputed when a goal and a progress are set, and unchanged otherwise; a consistent ledger stays consistent |
| ProgressStore.RecalculatedTarget | src/store/progressStore.ts:217-239 | Recalculating changes only the target. With a goal, the target is the calculator's result for the mushaf's page count, the current page and the target date. Without a goal it stays absent. Consistency and agreement with the log are unaffected |
| ProgressStore.ProgressLedger.SetGoal | src/store/progressStore.ts:80-103 | The new ledger is `AfterSetGoal` of the old one, the three milestone flags are cleared, and the ledger stays consistent |
| ProgressStore.SetGoalOutcome | src/store/progressStore.ts:85-98 | After `setGoal` the goal is the new one and the progress is (startPage − 1, now, 0). The log is untouched. Today's target counts max(0, total − startPage + 1) pages. The aggregate agrees with the log exactly when the log was empty, since a log left from an earlier goal is not cleared |
| ProgressStore.ProgressLedger.LogProgress | src/store/progressStore.ts:106-150 | The new ledger is `AfterLogProgress` of the old one. Without a goal nothing changes and nothing is celebrated. Otherwise the milestone check runs for the logged page |
| ProgressStore.LogProgressKeepsConsistent | src/store/progressStore.ts:109-140 | Without a goal the ledger is unchanged. Otherwise the log grows by exactly one entry, the current page becomes `pageNumber` (even when lower), and the ledger stays consistent. The log gains exactly the new entry (page `pageNumber`, time `now`, max(1, pageNumber − currentPage) pages, the notes) and nothing else changes in it. The total grows by exactly that entry's pages |
| ProgressStore.LogProgressKeepsAggregate | src/store/progressStore.ts:116-140 | If the aggregate agreed with the log and the clock is past every stored log, it still agrees: the patched page is the new latest log's page and the patched total is the log's sum |
| ProgressStore.ProgressLedger.LogProgressRange | src/store/progressStore.ts:153-214 | The new ledger is `AfterLogProgressRange` of the old one. A rejected range (no goal, start after end, start below 1 or end past the last page) changes nothing and celebrates nothing. An accepted one runs the milestone check for `endPage` |
| ProgressStore.BuildRangeLogs | src/store/progressStore.ts:174-190 | The loop yields one entry per page from startPage to endPage. Entry k is on page startPage + k with timestamp base + k. Its pages read are max(1, startPage − currentPage) for the first entry and 1 after. The notes go on the endPage entry only |
| ProgressStore.RangeEndsLatest | src/store/progressStore.ts:177-186 | The last entry of a range is on endPage, stamped base + (endPage − startPage), and strictly later than every other entry of the range |
| ProgressStore.RangePagesAgainstPatch | src/store/progressStore.ts:176-197 | A range's entries read max(1, startPage − currentPage) + (endPage − startPage) pages. This equals the store's patch endPage − currentPage exactly when startPage > currentPage |
| ProgressStore.LogProgressRangeKeepsConsistent | src/store/progressStore.ts:156-204 | A rejected range leaves the ledger unchanged. An accepted one adds exactly the range's entries (`RangeLogs`, endPage − startPage + 1 of them) and nothing else, sets the current page to endPage, and adds endPage − currentPage to the total. The ledger stays consistent either way |
| ProgressStore.LogProgressRangeAggregate | src/store/progressStore.ts:193-204 | Starting from an aggregate that agrees with the log, with the clock past every stored log, the aggregate after an accepted range agrees with the log exactly when startPage > current page |
| ProgressStore.SinglePageRange | src/store/progressStore.ts:176-197 | Logging the one-page range [p, p] gives the same ledger as logging page p exactly when p lies after the current page; otherwise their totals differ |
| ProgressStore.FindById | src/store/progressStore.ts:246 | The lookup finds a log with the id, and finds none exactly when no log has it |
| ProgressStore.KeepBelowPage | src/store/progressStore.ts:254-259 | The delete cascade keeps exactly `KeepBelow` of the log: the entries below the page, in order |
| ProgressStore.KeepBelowContents | src/store/progressStore.ts:254-259 | What the cascade keeps is each log below the page, as often as it was stored, and nothing else |
| ProgressStore.KeepBelowDropsDeleted | src/store/progressStore.ts:254-259 | The cascade removes at least one log, the one named, since its page is not below its own page |
| ProgressStore.FoldProgress | src/store/progressStore.ts:267-275 | The recomputation loop ends with the last sorted log's page (startPage − 1 for an empty log) and the sum of all pages read |
| ProgressStore.LatestPage | src/store/progressStore.ts:267-275 | The recomputed current page is startPage − 1 for an empty log, and otherwise the page of a log no other log is later than |
| ProgressStore.ProgressLedger.DeleteLog | src/store/progressStore.ts:242-291 | The new ledger is `AfterDeleteLog` of the old one, and the ledger stays consistent |
| ProgressStore.DeleteLogOutcome | src/store/progressStore.ts:246-285 | An unknown id changes nothing. Otherwise exactly the logs below the deleted log's page remain, at least one log goes, the progress is stamped `now`, and the aggregate agrees with a recomputation from the survivors |
| ProgressStore.ProgressLedger.ResetProgress | src/store/progressStore.ts:294-307 | Goal, progress and target are cleared and the log emptied, and the three milestone flags are cleared |
| Logs.SortByTimestamp | src/store/progressStore.ts:267 | The sort yields an ascending sequence of the same length and the same total of pages read |
| Logs.SortKeepsEntries | src/store/progressStore.ts:267 | The sort is a permutation: every log as often as before |
| Logs.NewestFirstMembers | src/core/storage/db.ts:117-121 | `getLogs` lists exactly the stored logs, each as often as stored |
| Logs.NewestFirstDescending | src/core/storage/db.ts:119-120 | `getLogs` lists the logs from the latest timestamp to the earliest |
| Logs.LastSortedIsLatest | src/store/progressStore.ts:267-275 | The last log of the ascending sort is one that no stored log is later than |
| Logs.FirstSortedIsEarliest | src/core/export/csvExport.ts:126-134 | The first log of the ascending sort is one that no stored log is earlier than |
| Logs.StrictLatestSortsLast | src/store/progressStore.ts:267-275 | A log strictly later than every other is the last one after sorting |
| Calculator.CeilDiv | src/core/algorithm/calculator.ts:47 | The rounded-up share of positive pages over positive days lies between 1 and the pages |
| Calculator.CeilDivIsLeast | src/core/algorithm/calculator.ts:46-47 | The rounded-up share q is the least with q·d ≥ r: (q − 1)·d < r |
| Calculator.CalculateDailyGoal | src/core/algorithm/calculator.ts:14-56 | Pages remaining is max(0, total − current). Days remaining is the Maghrib-aware count. The time is `now`. The flag is impossible iff pages remain and no day does. With no pages left the target is 0; when impossible, everything remaining; otherwise between 1 and the pages remaining |
| Calculator.DailyTargetMeetsDeadline | src/core/algorithm/calculator.ts:46-47 | With pages and days remaining, reading the target every day reaches the last page by the deadline, and reading one page a day less would not |
| Calculator.JsRem | src/core/algorithm/calculator.ts:67 | JavaScript's `%`: the remainder after division truncated toward zero, a = b · trunc(a / b) + r. It is Euclidean for a non-negative dividend, never positive for a negative one, and smaller than the divisor in size |
| Calculator.SplitByPrayers | src/core/algorithm/calculator.ts:65-78 | Five entries, never increasing from Fajr to Isha. For a non-negative total they are non-negative and sum to the total. Each is ⌊d/5⌋ or ⌊d/5⌋ + 1, and entry i gets the extra page iff i < d mod 5. For a negative total every entry is ⌊d/5⌋ |
| DateUtils.DifferenceInDays | src/core/algorithm/projections.ts:30-34 | Whole 24-hour periods between two instants, truncated toward zero, bracketed by the millisecond difference |
| DateUtils.AfterMaghribByMinute | src/core/algorithm/dateUtils.ts:19-25 | The clock is after today's Maghrib exactly when its hour:minute is past the Maghrib hh:mm, because the seconds are copied and the comparison is strict |
| DateUtils.CalculateDaysRemaining | src/core/algorithm/dateUtils.ts:11-34 | Never negative. It is 0 when the target's day is on or before the logical today. Before Maghrib it counts calendar days from today; after, one day less, floored at 0 |
| DateUtils.LogicalDayMonotonic | src/core/algorithm/dateUtils.ts:22-27 | The logical today never moves backward as the clock moves forward |
| DateUtils.DaysRemainingNonIncreasing | src/core/algorithm/dateUtils.ts:22-33 | The days remaining never increase as the clock moves forward |
| DateUtils.DaysRemainingDropAtMaghrib | src/core/algorithm/dateUtils.ts:25-33 | Crossing Maghrib within one calendar day takes one day off the count while any remain |
| DateUtils.DaysRemainingSteadyAtMidnight | src/core/algorithm/dateUtils.ts:25-33 | From after Maghrib to before the next Maghrib across midnight, the logical day and the count stay the same |
| DateUtils.GetCurrentIslamicDate | src/core/algorithm/dateUtils.ts:42-53 | The result is now, or now plus one day, and falls on the logical today at the clock's own time of day |
| DateUtils.IslamicDateAgreesWithDaysRemaining | src/core/algorithm/dateUtils.ts:22-30 | The days remaining are the calendar days from the Islamic date to the target, floored at 0: both use one day rule |
| DateUtils.IsToday | src/core/algorithm/dateUtils.ts:62-67 | A timestamp is today iff it falls on the calendar day of the logical today |
| Projections.Ceil | src/core/algorithm/projections.ts:44 | `Math.ceil`: the least integer at or above the value |
| Projections.AveragePagesPerDay | src/core/algorithm/projections.ts:26-41 | With logs, the pace times max(1, days elapsed) is the pages read. Without logs, the pace times max(1, days from start to target) is the page count. A zero pace becomes 1, so it is never 0, and it is positive for non-negative inputs |
| Projections.DaysNeeded | src/core/algorithm/projections.ts:44 | The days needed are the rounded-up pages over the pace. At a positive pace they cover the pages and one day less would not. They are ≤ 0 when nothing remains and ≥ 1 otherwise |
| Projections.CalculateProjection | src/core/algorithm/projections.ts:15-58 | The estimated completion is now plus the days needed, in whole days. Ahead/behind is max(0, days to target) minus the days needed, and on track iff that is ≥ 0 |
| Projections.FinishedIsOnTrack | src/core/algorithm/projections.ts:23-50 | A goal read to its last page is on track |
| NotificationTriggers.PercentageIsFloor | src/core/notifications/notificationTriggers.ts:36 | The percentage is the floor of 100 · current / total |
| NotificationTriggers.NextMilestoneFrom | src/core/notifications/notificationTriggers.ts:45-51 | The celebrated milestone is the first of 25, 50, 75 reached with its flag unset, and there is none exactly when no such milestone exists |
| NotificationTriggers.LowestUnsentFirst | src/core/notifications/notificationTriggers.ts:45-50 | Jumping past several thresholds celebrates the lowest unsent one first: a milestone reached and unsent, below which every milestone is sent or not reached, is the one celebrated |
| NotificationTriggers.MilestoneTracker.constructor | src/core/notifications/notificationTriggers.ts:11-12 | The flags start undefined, which reads as unset |
| NotificationTriggers.MilestoneTracker.ResetMilestones | src/core/notifications/notificationTriggers.ts:17-21 | The flags of 25, 50 and 75 become false and no other entry changes |
| NotificationTriggers.MilestoneTracker.CheckProgressNotifications | src/core/notifications/notificationTriggers.ts:26-52 | Disabled: nothing is sent and no flag changes. At or past the last page: the completion celebration, with no flag touched. Otherwise: the next unsent milestone reached, whose flag is then set. A milestone already sent is never sent again, and no flag is cleared |
| CsvExport.IntToString | src/core/export/csvExport.ts:33-36 | An integer's decimal text: digits, with a leading minus sign only for a negative number |
| CsvExport.IntRoundTrip | src/core/export/csvExport.ts:33-36 | Parsing an integer's text gives the integer back |
| CsvExport.EscapeQuotes | src/core/export/csvExport.ts:35 | Doubling the quotes leaves every quote in an adjacent pair, so the text can stand inside a quoted RFC 4180 field |
| CsvExport.UnescapeEscape | src/core/export/csvExport.ts:35 | Undoubling the quotes gives the original text back |
| CsvExport.NotesField | src/core/export/csvExport.ts:35 | The field is empty iff the notes are absent or empty. Otherwise it is quoted, and its inside decodes back to the notes |
| CsvExport.SplitJoin | src/core/export/csvExport.ts:53-57 | Joining parts that do not contain the separator is undone by splitting at it |
| CsvExport.HeaderLine | src/core/export/csvExport.ts:19-26 | The header line splits back into the six column names |
| CsvExport.Row | src/core/export/csvExport.ts:28-38 | A row has one field per header column |
| CsvExport.RowReadsBack | src/core/export/csvExport.ts:28-38 | With no comma in the formatted dates or the notes, a row line splits back into its six fields. The page, pages read and timestamp parse back to the log's values |
| CsvExport.Metadata | src/core/export/csvExport.ts:41-50 | No metadata without a goal; with one, six lines ending in a blank line |
| CsvExport.MetadataIsComments | src/core/export/csvExport.ts:44-48 | The first five metadata lines start with `# ` |
| CsvExport.MetadataHasNoBreak | src/core/export/csvExport.ts:41-50 | With no line break in the formatted dates, no metadata line holds one |
| CsvExport.RowLines | src/core/export/csvExport.ts:56 | One row line per log, the k-th being the k-th log's fields joined by commas |
| CsvExport.CsvLayout | src/core/export/csvExport.ts:53-57 | The document is the metadata (six lines with a goal, none without), then the header line, then the k-th log's row on the line k + 1 after the header, in input order |
| CsvExport.CsvTextSplitsIntoLines | src/core/export/csvExport.ts:53-57 | With no line break in the formatted dates or the notes, splitting the text at `\n` gives back exactly the lines |
| CsvExport.ConvertToCsv | src/core/export/csvExport.ts:18-60 | The text built with the metadata pushes is the document's lines joined by `\n` |
| CsvExport.ExportToCsv | src/core/export/csvExport.ts:85-108 | An empty log fails with "No reading logs to export". Otherwise the export succeeds, and the file is named after the formatted export date |
| CsvExport.ExportSortsLogs | src/core/export/csvExport.ts:93-97 | The exported document is the document of a permutation of the logs in ascending timestamp order |
| CsvExport.GetExportSummary | src/core/export/csvExport.ts:113-137 | The summary counts the logs and sums their pages read. The date range is absent iff there are no logs; otherwise it runs from an earliest log's timestamp to a latest one's |
| BrowserCheck.IndexFrom | src/core/compatibility/browserCheck.ts:40 | `indexOf`: the first occurrence at or after the start, or −1 exactly when there is none |
| BrowserCheck.ContainsMeans | src/core/compatibility/browserCheck.ts:40-52 | `indexOf(t) > -1` holds iff t occurs somewhere in the string |
| BrowserCheck.LowerAll | src/core/compatibility/browserCheck.ts:32-34 | Lowering keeps the length and lowers each character |
| BrowserCheck.IgnoringCaseOfLower | src/core/compatibility/browserCheck.ts:32-34 | A case-insensitive test cannot tell a string from its lower-case form |
| BrowserCheck.DigitRun | src/core/compatibility/browserCheck.ts:42 | `\d+` takes the longest run of digits at the start: a prefix, all digits, not followed by a digit |
| BrowserCheck.VersionFrom | src/core/compatibility/browserCheck.ts:42-55 | `token(\d+)` matches iff the token is followed by a digit somewhere. The match is the digit run after the leftmost such occurrence |
| BrowserCheck.VersionOf | src/core/compatibility/browserCheck.ts:42-55 | The version is "Unknown" or a non-empty run of digits |
| BrowserCheck.DetectBrowser | src/core/compatibility/browserCheck.ts:30-59 | The name follows the precedence Firefox, Edge (token `Edg`), Chrome, Safari, else Unknown. The version follows that browser's token (`Version/` for Safari), or is "Unknown". The iOS and Android flags come from the case-insensitive tests, and mobile is iOS or Android |
| BrowserCheck.EdgeBeforeChrome | src/core/compatibility/browserCheck.ts:44-51 | A user agent naming both Edge and Chrome, and not Firefox, is Edge |
| BrowserCheck.DeviceFlagsIgnoreCase | src/core/compatibility/browserCheck.ts:32-34 | The device flags do not depend on letter case |
| BrowserCheck.HasPWASupport | src/core/compatibility/browserCheck.ts:103-105 | PWA support implies a service worker |
| BrowserCheck.RaiseWarnings | src/core/compatibility/browserCheck.ts:123-146 | No storage is raised iff neither storage works. The iOS notification warning iff iOS and no notifications. Private browsing iff no IndexedDB but localStorage. The service-worker warning iff no service worker. They come in that fixed order |
| BrowserCheck.CheckCompatibility | src/core/compatibility/browserCheck.ts:110-158 | The browser is `DetectBrowser(ua)` and the features are the probes. Compatible iff some storage and a service worker, which is iff neither the storage nor the service-worker warning is raised. The warnings are as in `RaiseWarnings`, and the two storage warnings never come together |
| PageData.TableIncreasing | scripts/generate-page-data.js:11-15 | The table has 30 entries, starts at page 1 and is strictly increasing |
| PageData.ScanDown | scripts/generate-page-data.js:18-23 | The scan from index i down returns a juz between 1 and i + 1 |
| PageData.ScanDownBracket | scripts/generate-page-data.js:18-23 | The scan stops at an entry at most the page (unless it falls back to 1), and every entry it passed over is above the page |
| PageData.JuzForBracket | scripts/generate-page-data.js:17-24 | The juz is in 1..30. Its first page is at most the page (for pages from 1 on), and the next juz starts after the page |
| PageData.JuzForUnique | scripts/generate-page-data.js:18-21 | For a page from 1 on, the juz is the only r with juzPages[r − 1] ≤ page and page < juzPages[r] (when r < 30) |
| PageData.JuzForEnds | scripts/generate-page-data.js:11-23 | Pages below 22, including those below 1, are in juz 1; pages from 582 on are in juz 30 |
| PageData.JuzForMonotone | scripts/generate-page-data.js:11-21 | A later page is never in an earlier juz |
| PageData.JuzForStepsAtEntries | scripts/generate-page-data.js:11-21 | The juz steps up exactly at each table entry: the entry's page is in juz i + 1, and the page before it in juz i |
| PageData.GetJuzForPage | scripts/generate-page-data.js:17-24 | The loop returns `JuzFor(page)`, a juz in 1..30 |

## Left out

- Storage (`src/core/storage/db.ts`, `src/core/storage/localStorage.ts`) is collapsed into the ledger's fields. `logs` holds what `getLogs()` returns: every stored log, newest first. `initializeFromStorage`, which only reloads those fields, is not part of this model. Neither are the `isLoading`/`isInitialized` flags.
- `async`/`await` ordering and the `try`/`catch` blocks that only log errors are not modelled. Every storage call is taken to succeed.
- The clock, the random log ids and the settings are parameters:
  - One `now` serves a whole action, where the source reads `Date.now()` several times.
  - Ids are a parameter `id` (and `idFor(page)` for ranges), assumed fresh.
  - The Maghrib setting is read from the settings store in the source.
  - The notification settings are read from localStorage in the source.
- Logs.SortByTimestamp: logs with equal timestamps keep their insertion order. IndexedDB orders them by key, which is a random id, so the model fixes one tie order the source does not promise.
- ProgressStore.ProgressLedger.DeleteLog: the source deletes first and then returns early when there is no goal (`src/store/progressStore.ts:265`). In a consistent ledger a missing goal means an empty log, so the id lookup fails first. The model therefore changes nothing on that path.
- ProgressStore.AfterDeleteLog: deletion removes the logs whose page is at or above the deleted one's page, matched by value in the log. In the source, IndexedDB deletes each of them by its unique id.
- DateUtils.CalculateDaysRemaining: the Maghrib time is an hour and minute. Parsing the "HH:mm" string, and its default "18:00", are not modelled: the Maghrib time is a parameter.
- DateUtils.CalendarDay: local time is a plain millisecond count. Timezones and daylight-saving changes inside date-fns are not modelled.
- NotificationTriggers.PercentageIsFloor: the percentage is the exact floor of 100 · current / total. The source computes it in floating point, which could round differently just below a multiple.
- Delivering notifications (`src/core/notifications/notificationService.ts`: permissions, service worker, timers) is not part of this model. A check returns the celebration it would send.
- Projections.CalculateProjection: the average pace is an exact real. The one-decimal display rounding `Math.round(x * 10) / 10` is not applied.
- CsvExport.ConvertToCsv: date formatting is a function parameter `format(instant, pattern)` with no fixed meaning.
- `downloadCSV` (Blob, object URL and DOM link) is not modelled. A successful export returns the file name and text.
- CsvExport.IntToString: numbers are unbounded integers. JavaScript's exponent notation for very large numbers and its 2^53 precision limit are not modelled.
- CsvExport.RowReadsBack: reading a row back assumes no comma in the formatted dates or the notes. A quoted note with a comma is valid CSV, but splitting at every comma does not parse it.
- CsvExport.CsvTextSplitsIntoLines: the same holds for line breaks in the notes.
- BrowserCheck.CheckCompatibility: the feature probes (`hasIndexedDB`, `hasServiceWorker`, `hasNotifications`, `hasLocalStorage`, `BeforeInstallPromptEvent`) and `navigator.userAgent` are parameters. The probes themselves read `window`, `navigator` and `localStorage`.
- BrowserCheck.RaiseWarnings: warnings are values of a datatype, and `Warning.Message` gives the exact text the source pushes.
- BrowserCheck.Lower: case-insensitive matching lowers ASCII letters only. For the ASCII patterns the source uses this is exact: outside Unicode mode, no non-ASCII character folds onto an ASCII letter.
- `logCompatibilityInfo` and `getBrowserDisplayName` (console output and a display string) are not modelled.
- `fetchPage` and `generateAllPages` in `scripts/generate-page-data.js` (HTTP and file output) are not part of this model, and neither is `scripts/generate-icons.js`.
