/** The daily summary panel: today's per-slot counts, the list of attendance-pattern entries
    for the day, the percentage shown under each slot card and its trend arrow. */
module AttendanceSummary {
  import opened Seqs
  import opened Entities
  import PatternAnalysis

  /** The `todayStats` object. */
  datatype TodayStats = TodayStats(present8am: nat, present10am: nat, present1pm: nat, totalStudents: nat)

  /** The `type` of a pattern entry. */
  datatype Kind = MiddleSkip | Partial | Absent

  /** The `severity` of a pattern entry. */
  datatype Severity = Warning | Info | Error

  /** One element of `analyzeAttendancePatterns`' result. */
  datatype SummaryEntry = SummaryEntry(kind: Kind, count: int, description: string, severity: Severity)

  /** The direction of a slot card's trend arrow. */
  datatype Trend = Up | Down

  /** The `filter` tests `r => r.lecture8am`, `r => r.lecture10am` and `r => r.lecture1pm`. */
  predicate Has8am(r: AttendanceRecord) { r.lecture8am }
  predicate Has10am(r: AttendanceRecord) { r.lecture10am }
  predicate Has1pm(r: AttendanceRecord) { r.lecture1pm }

  /** Today's statistics from the day's records and the roster. */
  function TodayStatsOf(todayAttendance: seq<AttendanceRecord>, students: seq<Student>): (stats: TodayStats)
    ensures stats.present8am <= |todayAttendance| && stats.present10am <= |todayAttendance|
    ensures stats.present1pm <= |todayAttendance|
    ensures stats.totalStudents == |students|
  {
    TodayStats(Count(todayAttendance, Has8am), Count(todayAttendance, Has10am),
               Count(todayAttendance, Has1pm), |students|)
  }

  /** Today's slot counts are the slot totals the weekly pattern analysis would count over
      the same records. */
  lemma TodayCountsAreSlotCounts(todayAttendance: seq<AttendanceRecord>, students: seq<Student>)
    ensures var stats := TodayStatsOf(todayAttendance, students);
      && stats.present8am == PatternAnalysis.SlotCount(todayAttendance, Lecture8am)
      && stats.present10am == PatternAnalysis.SlotCount(todayAttendance, Lecture10am)
      && stats.present1pm == PatternAnalysis.SlotCount(todayAttendance, Lecture1pm)
  {
    FilterAgree(todayAttendance, Has8am, PatternAnalysis.Attends(Lecture8am));
    FilterAgree(todayAttendance, Has10am, PatternAnalysis.Attends(Lecture10am));
    FilterAgree(todayAttendance, Has1pm, PatternAnalysis.Attends(Lecture1pm));
  }

  /** The position of each entry kind in the order the analysis pushes them. */
  function KindRank(k: Kind): nat
  {
    match k
    case MiddleSkip => 0
    case Partial => 1
    case Absent => 2
  }

  /** The number an entry of kind `k` reports: middle skippers, partial records, or roster
      size minus record count (which can be negative). */
  function KindCount(attendanceRecords: seq<AttendanceRecord>, students: seq<Student>, k: Kind): int
  {
    match k
    case MiddleSkip => Count(attendanceRecords, SkipsMiddle)
    case Partial => Count(attendanceRecords, IsPartial)
    case Absent => |students| - |attendanceRecords|
  }

  /** The severity attached to each kind. */
  function KindSeverity(k: Kind): Severity
  {
    match k
    case MiddleSkip => Warning
    case Partial => Info
    case Absent => Error
  }

  /** Some entry of `patterns` has kind `k`. */
  predicate HasKind(patterns: seq<SummaryEntry>, k: Kind)
  {
    exists i :: 0 <= i < |patterns| && patterns[i].kind == k
  }

  /** A record skipping only the 10am lecture has two lectures and so is partial. */
  lemma MiddleSkipIsPartial(r: AttendanceRecord)
    ensures SkipsMiddle(r) ==> IsPartial(r)
  {
  }

  /** There are never more middle skippers than partial records. */
  lemma MiddleSkipsAtMostPartial(attendanceRecords: seq<AttendanceRecord>)
    ensures Count(attendanceRecords, SkipsMiddle) <= Count(attendanceRecords, IsPartial)
  {
    forall r: AttendanceRecord
      ensures SkipsMiddle(r) ==> IsPartial(r)
    {
      MiddleSkipIsPartial(r);
    }
    CountMonotone(attendanceRecords, SkipsMiddle, IsPartial);
  }

  /** `analyzeAttendancePatterns(attendanceRecords, students)`: an entry per kind whose count
      is positive, in the order middle-skip, partial, absent. */
  method AnalyzeAttendancePatterns(attendanceRecords: seq<AttendanceRecord>, students: seq<Student>)
    returns (patterns: seq<SummaryEntry>)
    ensures forall i, j :: 0 <= i < j < |patterns| ==> KindRank(patterns[i].kind) < KindRank(patterns[j].kind)
    ensures forall i :: 0 <= i < |patterns| ==>
      && patterns[i].count == KindCount(attendanceRecords, students, patterns[i].kind)
      && patterns[i].count > 0
      && patterns[i].severity == KindSeverity(patterns[i].kind)
    ensures HasKind(patterns, MiddleSkip) <==> Count(attendanceRecords, SkipsMiddle) > 0
    ensures HasKind(patterns, Partial) <==> Count(attendanceRecords, IsPartial) > 0
    ensures HasKind(patterns, Absent) <==> |students| > |attendanceRecords|
    ensures HasKind(patterns, MiddleSkip) ==> HasKind(patterns, Partial)
  {
    patterns := [];
    var middleSkippers := Filter(attendanceRecords, SkipsMiddle);
    var partialAttendance := Filter(attendanceRecords, IsPartial);
    var totalAttendance := |attendanceRecords|;
    var absentCount := |students| - totalAttendance;
    MiddleSkipsAtMostPartial(attendanceRecords);

    if |middleSkippers| > 0 {
      HasKindSnoc(patterns, SummaryEntry(MiddleSkip, |middleSkippers|, "Students skipping 10 AM lecture", Warning));
      patterns := patterns + [SummaryEntry(MiddleSkip, |middleSkippers|, "Students skipping 10 AM lecture", Warning)];
    }
    if |partialAttendance| > 0 {
      HasKindSnoc(patterns, SummaryEntry(Partial, |partialAttendance|, "Students with partial attendance", Info));
      patterns := patterns + [SummaryEntry(Partial, |partialAttendance|, "Students with partial attendance", Info)];
    }
    if absentCount > 0 {
      HasKindSnoc(patterns, SummaryEntry(Absent, absentCount, "Students completely absent", Error));
      patterns := patterns + [SummaryEntry(Absent, absentCount, "Students completely absent", Error)];
    }
  }

  lemma HasKindSnoc(patterns: seq<SummaryEntry>, e: SummaryEntry)
    ensures forall k :: HasKind(patterns + [e], k) <==> HasKind(patterns, k) || e.kind == k
  {
    forall k | HasKind(patterns, k)
      ensures HasKind(patterns + [e], k)
    {
      var i :| 0 <= i < |patterns| && patterns[i].kind == k;
      assert (patterns + [e])[i] == patterns[i];
    }
    assert (patterns + [e])[|patterns|] == e;
  }

  /** `getAttendancePercentage(present, total)`. */
  function AttendancePercentage(present: nat, total: nat): (r: int)
    ensures total == 0 ==> r == 0
    ensures total > 0 ==> 2 * total * r - total <= 200 * present < 2 * total * r + total
    ensures present <= total ==> 0 <= r <= 100
  {
    Percent(present, total)
  }

  /** The arrow of a slot card: up exactly when more than 80% of the roster attended. */
  function SlotTrend(present: nat, totalStudents: nat): (t: Trend)
    ensures t == Up <==> 5 * present > 4 * totalStudents
  {
    if 5 * present > 4 * totalStudents then Up else Down
  }

  /** With a non-empty roster the arrow and the percentage beside it agree: an up arrow shows
      at least 80%, and a percentage of 81 or more always has an up arrow. */
  lemma TrendAgreesWithPercentage(present: nat, totalStudents: nat)
    requires totalStudents > 0
    ensures SlotTrend(present, totalStudents) == Up ==> AttendancePercentage(present, totalStudents) >= 80
    ensures AttendancePercentage(present, totalStudents) >= 81 ==> SlotTrend(present, totalStudents) == Up
  {
    var r := AttendancePercentage(present, totalStudents);
    if 5 * present > 4 * totalStudents {
      RoundsToAtLeast80(present, totalStudents, r);
    }
    if r >= 81 {
      AtLeast81MeansAbove80(present, totalStudents, r);
    }
  }

  /** With an empty roster the percentage is 0 while any present record turns the arrow up. */
  lemma EmptyRosterTrend(present: nat)
    ensures AttendancePercentage(present, 0) == 0
    ensures SlotTrend(present, 0) == Up <==> present > 0
  {
  }

  lemma RoundsToAtLeast80(p: nat, t: nat, r: int)
    requires t > 0 && 5 * p > 4 * t
    requires 200 * p < 2 * t * r + t
    ensures r >= 80
  {
    assert 2 * t * r + t > 160 * t;
    assert t * (2 * r - 159) > 0;
    if r < 80 {
      SignOfProduct(t, 2 * r - 159);
    }
  }

  lemma AtLeast81MeansAbove80(p: nat, t: nat, r: int)
    requires t > 0 && r >= 81
    requires 2 * t * r - t <= 200 * p
    ensures 5 * p > 4 * t
  {
    assert t * (2 * r - 1) >= t * 161 by {
      MultiplyAtLeast(t, 2 * r - 1, 161);
    }
  }

  lemma MultiplyAtLeast(t: nat, a: int, b: int)
    requires a >= b
    ensures t * a >= t * b
  {
  }
}
