# Attendance tracker core, in Dafny

This project models the core of a small student-attendance web application. Teachers mark
three lectures a day (8 AM, 10 AM, 1 PM) per student. The model covers two parts.

- **The two in-memory stores.**
  - The attendance ledger (`attendanceService`): per-student, per-date records. They are
    filtered by date, by student and by date range. `markAttendance` upserts on the
    (studentId, date) pair, a bulk mark applies a run of upserts, and records are deleted by Id.
  - The roster (`studentService`): create, read, update and delete, with `Id = max(Ids, 0) + 1`
    allocation.

  Both are Dafny classes whose `seq` field the methods reassign. Each method is proved
  against a pure function on the old contents (`Upsert`, `BulkUpsert`, `Remove`,
  `RosterCreate`, `RosterUpdate`, `RosterDelete`), and the lemmas state what those functions
  promise.
- **The analysis rules of the page components.** These include:
  - weekly pattern tags and statistics;
  - the history page's per-slot percentages, badges and CSV export;
  - the daily summary;
  - the student card;
  - the search filters;
  - the optimistic local upsert of the marking grid;
  - the chart selection;
  - the dashboard's hour-to-lecture rule.

  Where the component builds its result step by step (counters in a `forEach`, tags pushed
  onto an array, CSV rows pushed in a loop), the model is a method with a loop or a chain of
  pushes, proved against a specification function.

The initials avatar is the same expression on the student card, the history table
(AttendanceHistory.jsx:201), the management table (StudentManagement.jsx:285) and the pattern
cards (PatternAnalysis.jsx:178); `StudentCard.Initials` models all four.

Modelling choices:

- Dates are already-normalised `yyyy-MM-dd` strings, and JavaScript's string `<` is
  lexicographic order on characters. `Dates.LexIsChronological` proves that for zero-padded
  dates this order is calendar order.
- Percentages use exact integer round-half-up instead of floats:
  `round(100·p/t) = (200p + t) div 2t` for `t > 0`.
- An empty `notes` string stands for an omitted, `undefined` or `null` one. All of these are
  falsy in `notes || …`.

Some behaviours of the code as written are stated and proved as they are, not corrected:

- A student with no records in the week is tagged middle-skipper and late-starter
  (`PatternAnalysis.NoRecordsTags`).
- The summary trend is "up" for an empty roster as soon as one record is present
  (`AttendanceSummary.EmptyRosterTrend`).
- `create` with an explicit `Id` can duplicate an existing Id
  (`StudentService.CreateWithGivenIdCanDuplicate`).
- The marking grid's optimistic update gives a new record `Date.now()` as its Id, where the
  server gives it `max + 1` (`AttendanceGrid.LocalUpsertMatchesServer`). The two lists agree
  only when the grid's ISO date (`toISOString`, a UTC date) equals the service's normalised
  local date; west of UTC a new record's local date is a day later than the server's.

## Model

| member | source | states |
|---|---|---|
| AttendanceService.OnDateSpec | src/services/api/attendanceService.js:14-19 | `getByDate` returns exactly the records with that date, each as many times as it is stored, in store order |
| AttendanceService.ForStudentSpec | src/services/api/attendanceService.js:21-25 | `getByStudentId` returns exactly the student's records, each as many times as it is stored, in store order |
| AttendanceService.InRangeSpec | src/services/api/attendanceService.js:85-95 | `getAttendanceStats` returns exactly the records with `start <= date <= end` as strings, each as many times as it is stored, in store order |
| AttendanceService.RangeOfOneDay | src/services/api/attendanceService.js:90-92 | with start = end the range query equals the single-date query |
| AttendanceService.RangeIsCalendarInterval | src/services/api/attendanceService.js:90-92 | for zero-padded dates a record is in the range result iff its date lies in the calendar interval [start, end] |
| Dates.LexIsChronological | src/services/api/attendanceService.js:90-92 | for `yyyy-MM-dd` strings, string `<` holds iff the first date is earlier by (year, month, day) |
| Dates.InRangeIsChronological | src/services/api/attendanceService.js:90-92 | the inclusive string range test is the inclusive calendar interval test |
| AttendanceService.UpsertExisting | src/services/api/attendanceService.js:37-49 | an existing (studentId, date) record is replaced at its own index; only the named slot takes `present`; Id, student, date and the other slots are kept; notes are replaced only when non-empty; every other index and the length are unchanged |
| AttendanceService.UpsertNew | src/services/api/attendanceService.js:51-63 | without such a record one record is appended; its Id is `max(Ids, 0) + 1`: above every existing Id and either 1 or one more than an existing Id; only the named slot may be true; notes are the given ones or empty |
| AttendanceService.UpsertKeepsOnePerStudentDay | src/services/api/attendanceService.js:37-63 | the upsert keeps "at most one record per (studentId, date)"; afterwards the returned record is the only one for the pair and its slot equals `present` |
| AttendanceService.UpsertOtherPair | src/services/api/attendanceService.js:48-62 | the records of every other (studentId, date) pair are unchanged |
| AttendanceService.UpsertKeepsDistinctIds | src/services/api/attendanceService.js:52-54 | record Ids stay pairwise distinct |
| AttendanceService.BulkUpsert | src/services/api/attendanceService.js:67-83 | a bulk mark returns one result per item |
| AttendanceService.BulkResultIsCallResult | src/services/api/attendanceService.js:71-80 | the i-th result is what the i-th `markAttendance` call returned on the ledger left by the earlier calls |
| AttendanceService.BulkKeepsOnePerStudentDay | src/services/api/attendanceService.js:67-83 | a bulk mark keeps "at most one record per (studentId, date)" |
| AttendanceService.LastWriteWins | src/services/api/attendanceService.js:71-80 | if no later item names the same student, date and slot, the student has exactly one record on the date and it holds that item's value |
| AttendanceService.UpsertSamePairOtherSlot | src/services/api/attendanceService.js:43-48 | marking another slot of the same pair leaves this slot's value in the pair's single record |
| AttendanceService.RemoveMissing | src/services/api/attendanceService.js:99-102 | deleting an absent Id fails with "Attendance record not found" |
| AttendanceService.RemoveFirstMatch | src/services/api/attendanceService.js:99-106 | deleting a present Id removes and returns exactly its first record; the rest keep their order and the length drops by one |
| AttendanceService.AttendanceLedger.constructor | src/services/api/attendanceService.js:6 | the store starts as the seed data |
| AttendanceService.AttendanceLedger.GetAll | src/services/api/attendanceService.js:9-12 | returns the store contents |
| AttendanceService.AttendanceLedger.GetByDate | src/services/api/attendanceService.js:14-19 | returns `OnDate` of the store |
| AttendanceService.AttendanceLedger.GetByStudentId | src/services/api/attendanceService.js:21-25 | returns `ForStudent` of the store |
| AttendanceService.AttendanceLedger.GetTodaysAttendance | src/services/api/attendanceService.js:27-32 | returns `OnDate` of the store for the current date |
| AttendanceService.AttendanceLedger.MarkAttendance | src/services/api/attendanceService.js:34-65 | the new store and the returned record are exactly `Upsert` of the old store |
| AttendanceService.AttendanceLedger.BulkMarkAttendance | src/services/api/attendanceService.js:67-83 | the loop leaves the store and results of `BulkUpsert`, the left-to-right run of upserts |
| AttendanceService.AttendanceLedger.GetAttendanceStats | src/services/api/attendanceService.js:85-95 | returns `InRange` of the store |
| AttendanceService.AttendanceLedger.Delete | src/services/api/attendanceService.js:97-107 | on a missing Id returns the not-found error and leaves the store alone; otherwise the store and result are those of `Remove` |
| StudentService.NextId | src/services/api/studentService.js:24 | the allocated Id is `max(Ids, 0) + 1`: at least 1, above every roster Id, and either 1 or one more than a roster Id |
| StudentService.RosterGet | src/services/api/studentService.js:13-20 | fails with "Student not found" iff no student has the Id; otherwise returns the first student with it |
| StudentService.CreateAllocatesFreshId | src/services/api/studentService.js:22-31 | without an input Id, one student is appended with the Id `max(Ids, 0) + 1` (above all others, and 1 or one more than an existing Id) and the input's fields; unique Ids stay unique |
| StudentService.CreateKeepsGivenId | src/services/api/studentService.js:25-28 | an Id carried by the input overrides the allocated one |
| StudentService.CreateWithGivenIdCanDuplicate | src/services/api/studentService.js:25-28 | a concrete roster on which `create` with an explicit Id breaks unique Ids |
| StudentService.UpdateMissing | src/services/api/studentService.js:35-38 | `update` of a missing Id fails with "Student not found" |
| StudentService.UpdateInPlace | src/services/api/studentService.js:40-47 | `update` rewrites the first matching student at its index with the given fields and the old Id; others and the length are unchanged; unique Ids stay unique |
| StudentService.DeleteMissing | src/services/api/studentService.js:52-55 | `delete` of a missing Id fails with "Student not found" |
| StudentService.DeleteRemovesOne | src/services/api/studentService.js:52-59 | `delete` removes and returns the first matching student; the roster shrinks by one and keeps its order |
| StudentService.StudentRoster.constructor | src/services/api/studentService.js:5 | the roster starts as the seed data |
| StudentService.StudentRoster.GetAll | src/services/api/studentService.js:8-11 | returns the roster contents in order |
| StudentService.StudentRoster.GetById | src/services/api/studentService.js:13-20 | returns `RosterGet` of the roster |
| StudentService.StudentRoster.Create | src/services/api/studentService.js:22-31 | the new roster and the result are `RosterCreate` of the old roster |
| StudentService.StudentRoster.Update | src/services/api/studentService.js:33-48 | on a missing Id returns the error and keeps the roster; otherwise the roster and result are `RosterUpdate`'s |
| StudentService.StudentRoster.Delete | src/services/api/studentService.js:50-60 | on a missing Id returns the error and keeps the roster; otherwise the roster and result are `RosterDelete`'s |
| PatternAnalysis.Totals | src/components/organisms/PatternAnalysis.jsx:49-60 | `totalDays` is the number of records and each slot total is at most `totalDays` |
| PatternAnalysis.Tags | src/components/organisms/PatternAnalysis.jsx:63-102 | each tag is present iff its condition holds, and there are at most five |
| PatternAnalysis.CountSlots | src/components/organisms/PatternAnalysis.jsx:49-60 | the counting loop yields the slot totals of the records |
| PatternAnalysis.PushPatterns | src/components/organisms/PatternAnalysis.jsx:63-102 | the pushes yield exactly the tags of the five conditions, in the fixed order |
| PatternAnalysis.AnalyzeStudent | src/components/organisms/PatternAnalysis.jsx:45-109 | one student's entry holds their totals, tags and rounded percentage |
| PatternAnalysis.AnalyzeWeeklyPatterns | src/components/organisms/PatternAnalysis.jsx:44-113 | one entry per student, in roster order, each describing that student |
| PatternAnalysis.TagsInOrder | src/components/organisms/PatternAnalysis.jsx:63-102 | tags come in the order early-bird, middle-skipper, late-starter, irregular, poor-attendance, so none repeats |
| PatternAnalysis.EarlyBirdMeansEvery8am | src/components/organisms/PatternAnalysis.jsx:66-68 | early-bird iff there are records and every one has 8 AM attended |
| PatternAnalysis.DescribedEntry | src/components/organisms/PatternAnalysis.jsx:46-108 | totals bounded by `totalDays`; early-bird, middle-skipper (2·skips ≥ days), late-starter (2·late ≥ days), irregular (days > 1 and a partial day) and poor-attendance (no days or 100·attended < 180·days) each hold iff their condition does; the percentage lies in [0, 100] and is 0 without records |
| PatternAnalysis.NoRecordsTags | src/components/organisms/PatternAnalysis.jsx:63-108 | a student with no records gets exactly middle-skipper, late-starter and poor-attendance, at 0 percent |
| PatternAnalysis.EarlyBirdIsNotLateStarter | src/components/organisms/PatternAnalysis.jsx:66-83 | early-bird and late-starter never occur together |
| Entities.RoundDiv | src/components/organisms/PatternAnalysis.jsx:108 | the result is `a / b` rounded to the nearest integer, halves up |
| Entities.Percent | src/components/pages/AttendanceHistory.jsx:61-63 | 0 for a zero total; otherwise `100·part/total` rounded half up; in [0, 100] when part ≤ total |
| AttendanceHistory.StudentWeeklyStats | src/components/pages/AttendanceHistory.jsx:51-66 | `totalDays` is the number of the student's records, each present count is at most that, and the percentage is in [0, 100] and 0 without records |
| AttendanceHistory.StatsAreTotals | src/components/pages/AttendanceHistory.jsx:54-63 | the counts are the slot totals of the records and the percentage rounds attended over `3·totalDays` |
| AttendanceHistory.WeeklyStatsAgreeWithPatterns | src/components/pages/AttendanceHistory.jsx:51-66 | the history page's statistics equal the weekly pattern analysis's totals and percentage for the same student |
| AttendanceHistory.SlotPercent | src/components/pages/AttendanceHistory.jsx:215 | per-slot percentage: 0 without days, otherwise `100·present/days` rounded half up, in [0, 100] |
| AttendanceHistory.SlotPercentExtremes | src/components/pages/AttendanceHistory.jsx:215-231 | a slot attended every day shows 100 and one never attended shows 0 |
| AttendanceHistory.BadgeVariant | src/components/pages/AttendanceHistory.jsx:236-238 | success iff ≥ 80, warning iff 60–79, error iff < 60: the three partition the percentages |
| AttendanceHistory.BadgeMonotone | src/components/pages/AttendanceHistory.jsx:236-238 | a higher percentage never gets a worse badge |
| AttendanceHistory.ErrorBadgeMeansPoorAttendance | src/components/pages/AttendanceHistory.jsx:236-238 | a student with the error badge is tagged poor-attendance by the weekly analysis |
| AttendanceHistory.CsvRow | src/components/pages/AttendanceHistory.jsx:74-82 | a row has the header's seven fields and starts with the name and roll number |
| AttendanceHistory.CsvRowValues | src/components/pages/AttendanceHistory.jsx:74-82 | read back as decimals, fields 3–6 are the counts, and the last field is the percentage followed by `%` |
| AttendanceHistory.CsvTable | src/components/pages/AttendanceHistory.jsx:69-83 | the table is the header followed by one row per student |
| AttendanceHistory.CsvTableRow | src/components/pages/AttendanceHistory.jsx:72-83 | row i + 1 is the row of the i-th student, in roster order |
| AttendanceHistory.ExportRows | src/components/pages/AttendanceHistory.jsx:69-83 | the push loop builds exactly `CsvTable` |
| AttendanceHistory.CsvRowAvoidsNewline | src/components/pages/AttendanceHistory.jsx:85 | a row's line has no newline when the name and roll number have none |
| AttendanceHistory.CsvLineCount | src/components/pages/AttendanceHistory.jsx:85 | when no name or roll number holds a newline, the text splits into exactly the comma-joined rows: students + 1 lines |
| AttendanceSummary.TodayStatsOf | src/components/organisms/AttendanceSummary.jsx:41-46 | each slot count is at most the number of the day's records; `totalStudents` is the roster length |
| AttendanceSummary.TodayCountsAreSlotCounts | src/components/organisms/AttendanceSummary.jsx:41-46 | today's counts are the numbers of records with that slot attended |
| AttendanceSummary.MiddleSkipIsPartial | src/components/organisms/AttendanceSummary.jsx:67-76 | a middle-skip record is a partial record |
| AttendanceSummary.MiddleSkipsAtMostPartial | src/components/organisms/AttendanceSummary.jsx:67-76 | the middle-skip count is at most the partial count |
| AttendanceSummary.AnalyzeAttendancePatterns | src/components/organisms/AttendanceSummary.jsx:63-110 | entries come in the order middle-skip, partial, absent, each at most once, with a positive count equal to its kind's count and its kind's severity; middle-skip iff some record skips 10 AM, partial iff some record is partial, absent iff students outnumber records; middle-skip implies partial |
| AttendanceSummary.AttendancePercentage | src/components/organisms/AttendanceSummary.jsx:112-115 | 0 for a zero total; otherwise `100·present/total` rounded half up; in [0, 100] when present ≤ total |
| AttendanceSummary.SlotTrend | src/components/organisms/AttendanceSummary.jsx:139 | up iff `5·present > 4·totalStudents`, i.e. present > 0.8·total |
| AttendanceSummary.TrendAgreesWithPercentage | src/components/organisms/AttendanceSummary.jsx:139-140 | for a non-empty roster an up trend shows at least 80 %, and 81 % or more always shows up |
| AttendanceSummary.EmptyRosterTrend | src/components/organisms/AttendanceSummary.jsx:139-140 | for an empty roster the percentage is 0 and the trend is up iff any record is present |
| StudentCard.PresentCount | src/components/molecules/StudentCard.jsx:11-18 | in [0, 3]; 0 iff no record or no slot attended; 3 iff all three attended |
| StudentCard.AttendanceStatus | src/components/molecules/StudentCard.jsx:20-25 | present iff count 3, absent iff count 0 (including no record), partial iff one or two attended |
| StudentCard.ToggledValue | src/components/molecules/StudentCard.jsx:67 | the value sent is the negation of the slot, and true without a record |
| StudentCard.HandleToggle | src/components/molecules/StudentCard.jsx:27-31 | a call is made iff a handler exists, with the student's Id, the slot and the toggled value |
| StudentCard.ToggleTwice | src/components/molecules/StudentCard.jsx:27-31 | storing a click's value and clicking again sends the original value back |
| StudentCard.Initials | src/components/molecules/StudentCard.jsx:43 | at most two characters, a prefix of the words' first characters, and all of them when there are fewer than two |
| StudentCard.InitialsOfOneWord | src/components/molecules/StudentCard.jsx:43 | a one-word name gives its first character |
| StudentCard.InitialsOfFullName | src/components/molecules/StudentCard.jsx:43 | "first last …" gives the first characters of first and last |
| AttendanceGrid.FilterStudentsSpec | src/components/organisms/AttendanceGrid.jsx:48-59 | an empty term keeps everyone; otherwise exactly the students whose lower-cased name or roll number contains the lower-cased term, each as many times as on the roster, as an order-preserving subsequence |
| AttendanceGrid.EmptyTermMatchesAll | src/components/organisms/AttendanceGrid.jsx:54-57 | the empty term is contained in every name |
| AttendanceGrid.LocalUpsertExisting | src/components/organisms/AttendanceGrid.jsx:72-78 | with a record of the student, each of their records gets the slot set and nothing else changes; other records and the length stay the same |
| AttendanceGrid.LocalUpsertNew | src/components/organisms/AttendanceGrid.jsx:79-88 | without one, exactly one record is appended with Id `Date.now()`, the slot `present`, the other slots false and empty notes |
| AttendanceGrid.LocalUpsertMatchesServer | src/components/organisms/AttendanceGrid.jsx:61-90 | when the shown records are the ledger's records of the day and the grid's ISO date equals the service's normalised date, the local list equals the server's day after `markAttendance`, record for record, except for a new record's Id |
| AttendanceGrid.AllPresentUpdates | src/components/organisms/AttendanceGrid.jsx:103-108 | one update per student in roster order, each with that student's Id, the date, the slot and present true |
| AttendanceGrid.AllPresentMarksEveryone | src/components/organisms/AttendanceGrid.jsx:101-110 | after the bulk mark, every roster student has exactly one record on the date with the slot attended, also when a student is listed twice |
| StudentManagement.FilterStudentsSpec | src/components/pages/StudentManagement.jsx:48-60 | an empty term keeps everyone; otherwise exactly the students whose lower-cased name, roll number or email contains the lower-cased term, each as many times as on the roster, in order |
| StudentManagement.FindsAtLeastWhatGridFinds | src/components/pages/StudentManagement.jsx:54-58 | the management search shows every student the marking grid's search shows |
| StudentManagement.Submit | src/components/pages/StudentManagement.jsx:62-84 | no call iff a field is empty; otherwise `update` with the edited student's Id when editing, and `create` without an Id when not |
| StudentManagement.SubmitNewStudent | src/components/pages/StudentManagement.jsx:74-76 | a filled form for a new student appends one student with a fresh Id and the form's fields |
| StudentManagement.SubmitEditedStudent | src/components/pages/StudentManagement.jsx:71-73 | a filled form for an edited student rewrites that student in place with the form's fields and its Id |
| StudentManagement.ResetForm | src/components/pages/StudentManagement.jsx:108-112 | the form is emptied, nobody is being edited and the form is hidden |
| StudentManagement.SubmitAfterResetDoesNothing | src/components/pages/StudentManagement.jsx:62-68 | submitting a reset form makes no call |
| StudentManagement.HandleEdit | src/components/pages/StudentManagement.jsx:86-94 | the form shows the student's fields, remembers the student and is shown |
| StudentManagement.EditUnchangedIsNoOp | src/components/pages/StudentManagement.jsx:71-94 | editing a student and submitting without changes leaves the roster as it was |
| AttendanceCharts.ToggleStudent | src/components/organisms/AttendanceCharts.jsx:143-149 | the id is selected afterwards iff it was not before |
| AttendanceCharts.ToggleAppends | src/components/organisms/AttendanceCharts.jsx:144-147 | an unselected id is appended at the end |
| AttendanceCharts.ToggleRemoves | src/components/organisms/AttendanceCharts.jsx:145-146 | a selected id loses all its occurrences; every other id keeps its order and its number of occurrences, and the selection shrinks |
| AttendanceCharts.ToggleTwice | src/components/organisms/AttendanceCharts.jsx:143-149 | toggling an unselected id twice restores the selection |
| AttendanceCharts.SelectAll | src/components/organisms/AttendanceCharts.jsx:265 | the selection is the roster Ids in roster order |
| AttendanceCharts.ClearAll | src/components/organisms/AttendanceCharts.jsx:257 | the selection is empty |
| AttendanceCharts.SelectAllChecksEveryone | src/components/organisms/AttendanceCharts.jsx:257-265 | after Select All every roster student is selected; after Clear All none is |
| AttendanceCharts.StudentIdsArgument | src/components/organisms/AttendanceCharts.jsx:45 | an empty selection is passed as null, any other as itself |
| AttendanceCharts.SlotSumBounds | src/components/organisms/AttendanceCharts.jsx:335 | values within [lo, hi] sum to within n·[lo, hi] |
| AttendanceCharts.SlotAverage | src/components/organisms/AttendanceCharts.jsx:335-359 | the average is the sum over the length, rounded half up |
| AttendanceCharts.AverageWithinBounds | src/components/organisms/AttendanceCharts.jsx:335-359 | the average lies between the smallest and the largest possible value |
| AttendanceCharts.ConstantAverage | src/components/organisms/AttendanceCharts.jsx:335-359 | a slot with the same value everywhere averages to that value |
| AttendanceCharts.SummaryAverages | src/components/organisms/AttendanceCharts.jsx:327-359 | averages are shown iff the chart data is non-empty, and then they are the three slot averages |
| AttendanceDashboard.CurrentLecture | src/components/pages/AttendanceDashboard.jsx:21-34 | hours 8–9 give 8 AM, 10–12 give 10 AM, 13–15 give 1 PM, and all others give none |
| AttendanceDashboard.CurrentLectureFollowsTheDay | src/components/pages/AttendanceDashboard.jsx:25-33 | each lecture is current at its start hour, starts no later than the hour, and the current lecture never goes back during the day |
| AttendanceDashboard.CurrentLectureInfo | src/components/pages/AttendanceDashboard.jsx:36-43 | a banner exists iff a lecture is current, with the matching label |
| AttendanceDashboard.BannerIdentifiesLecture | src/components/pages/AttendanceDashboard.jsx:36-43 | different lectures have different labels, and a banner is shown exactly for hours 8–15 |

## Left out

- Simulated latency (`delay`), `Promise.all` and the search debounce. Every operation is synchronous, and races between concurrent calls are not modelled.
- Date normalisation with date-fns (`format(new Date(date), 'yyyy-MM-dd')`, `startOfWeek`/`endOfWeek`, week navigation) and the UTC `toISOString` of the marking grid. Dates are already-normalised strings. The current date, the current hour and `Date.now()` are parameters.
- Floating point. Percentages, averages and the 0.8 trend threshold are exact integer arithmetic with halves rounded up, so float rounding at exact .5 boundaries is not reproduced. Chart values are integers.
- Lower-casing covers ASCII letters only. `toLowerCase` on other Unicode letters is not modelled.
- StudentCard.Initials (with StudentCard.InitialsOfOneWord and StudentCard.InitialsOfFullName): characters are Unicode scalar values, while JavaScript's `n[0]` and `substring(0, 2)` count UTF-16 code units. The model's initials differ from the source's only when a word starts with a character outside the Basic Multilingual Plane, where the source takes a lone high surrogate.
- `attendanceService.getAttendanceTrends` is called by the charts page but defined nowhere in the service. The chart data is therefore a parameter of the averages.
- The JSON seed data is not shown. The initial store contents are constructor parameters.
- `parseInt` of ids and arbitrary slot strings as dynamic keys. Ids are integers and the slot is a three-valued datatype.
- Rendering, toasts, `window.confirm`, the CSV Blob download, the style and icon tables of the atoms, and the dashboard's refresh counter.
- StudentManagement `handleDelete` is only a confirmed call to `studentService.delete`, modelled as `StudentService.StudentRoster.Delete`. Pattern descriptions, colours and icons are constant lookups and are not modelled.
- AttendanceGrid.LocalUpsertMatchesServer: stated only for calls without notes, because the grid never passes notes, and only when the grid's ISO date equals the service's normalised date, because the UTC date of `toISOString` and the local date of `format` are not modelled.
