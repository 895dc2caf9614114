/** The weekly pattern screen: per student, slot totals over the week's records, five
    pattern tags and an overall percentage. */
module PatternAnalysis {
  import opened Seqs
  import opened Entities
  import AttendanceService

  datatype Pattern = EarlyBird | MiddleSkipper | LateStarter | Irregular | PoorAttendance

  /** The position of each tag in the order the analysis pushes them. */
  function Rank(p: Pattern): nat
  {
    match p
    case EarlyBird => 0
    case MiddleSkipper => 1
    case LateStarter => 2
    case Irregular => 3
    case PoorAttendance => 4
  }

  /** The `stats` object. */
  datatype SlotTotals = SlotTotals(total8am: nat, total10am: nat, total1pm: nat, totalDays: nat)

  /** One element of the analysis result. */
  datatype StudentPattern = StudentPattern(student: Student, stats: SlotTotals, patterns: seq<Pattern>, percentage: int)

  /** The test "this record has `slot` attended". */
  function Attends(slot: Slot): AttendanceRecord -> bool
  {
    (r: AttendanceRecord) => r.Get(slot)
  }

  /** How many of the records have `slot` attended. */
  function SlotCount(recs: seq<AttendanceRecord>, slot: Slot): (n: nat)
    ensures n <= |recs|
  {
    Count(recs, Attends(slot))
  }

  /** The totals of a student's records, as the analysis should count them. */
  function Totals(recs: seq<AttendanceRecord>): (t: SlotTotals)
    ensures t.totalDays == |recs|
    ensures t.total8am <= t.totalDays && t.total10am <= t.totalDays && t.total1pm <= t.totalDays
  {
    SlotTotals(SlotCount(recs, Lecture8am), SlotCount(recs, Lecture10am), SlotCount(recs, Lecture1pm), |recs|)
  }

  /** `total8am + total10am + total1pm`. */
  function Attended(t: SlotTotals): nat
  {
    t.total8am + t.total10am + t.total1pm
  }

  predicate IsEarlyBird(t: SlotTotals)
  {
    t.total8am == t.totalDays && t.totalDays > 0
  }

  /** `middleSkips >= totalDays * 0.5`. */
  predicate IsMiddleSkipper(recs: seq<AttendanceRecord>)
  {
    2 * Count(recs, SkipsMiddle) >= |recs|
  }

  /** `lateStarts >= totalDays * 0.5`. */
  predicate IsLateStarter(recs: seq<AttendanceRecord>)
  {
    2 * Count(recs, OnlyAfternoon) >= |recs|
  }

  /** Some day with exactly one or two lectures attended, over more than one day. */
  predicate IsIrregular(recs: seq<AttendanceRecord>)
  {
    Any(recs, IsPartial) && |recs| > 1
  }

  /** `percentage < 60`, where the percentage is 0 without records. */
  predicate IsPoorAttendance(t: SlotTotals)
  {
    3 * t.totalDays == 0 || 100 * Attended(t) < 60 * (3 * t.totalDays)
  }

  /** `[p]` when the condition holds, else nothing. */
  function Opt(c: bool, p: Pattern): seq<Pattern>
  {
    if c then [p] else []
  }

  /** The tags whose conditions hold, in push order: each tag is present exactly when its
      condition holds. */
  function Tags(early: bool, middle: bool, late: bool, irregular: bool, poor: bool): (ps: seq<Pattern>)
    ensures EarlyBird in ps <==> early
    ensures MiddleSkipper in ps <==> middle
    ensures LateStarter in ps <==> late
    ensures Irregular in ps <==> irregular
    ensures PoorAttendance in ps <==> poor
    ensures |ps| <= 5
  {
    Opt(early, EarlyBird) + Opt(middle, MiddleSkipper) + Opt(late, LateStarter) +
    Opt(irregular, Irregular) + Opt(poor, PoorAttendance)
  }

  /** Tags in strictly increasing push order, hence each at most once. */
  ghost predicate InTagOrder(ps: seq<Pattern>)
  {
    forall i, j :: 0 <= i < j < |ps| ==> Rank(ps[i]) < Rank(ps[j])
  }

  /** The analysis entry for `student` over the week's records. */
  ghost predicate Describes(sp: StudentPattern, student: Student, records: seq<AttendanceRecord>)
  {
    var recs := AttendanceService.ForStudent(records, student.Id);
    && sp.student == student
    && sp.stats == Totals(recs)
    && sp.patterns == Tags(IsEarlyBird(sp.stats), IsMiddleSkipper(recs), IsLateStarter(recs),
                           IsIrregular(recs), IsPoorAttendance(sp.stats))
    && sp.percentage == Percent(Attended(sp.stats), 3 * sp.stats.totalDays)
  }

  /** The `forEach` that counts the attended slots. */
  method CountSlots(studentRecords: seq<AttendanceRecord>) returns (stats: SlotTotals)
    ensures stats == Totals(studentRecords)
  {
    stats := SlotTotals(0, 0, 0, |studentRecords|);
    for i := 0 to |studentRecords|
      invariant stats == SlotTotals(SlotCount(studentRecords[..i], Lecture8am),
                                    SlotCount(studentRecords[..i], Lecture10am),
                                    SlotCount(studentRecords[..i], Lecture1pm),
                                    |studentRecords|)
    {
      var record := studentRecords[i];
      assert studentRecords[..i + 1] == studentRecords[..i] + [record];
      CountSnoc(studentRecords[..i], record, Attends(Lecture8am));
      CountSnoc(studentRecords[..i], record, Attends(Lecture10am));
      CountSnoc(studentRecords[..i], record, Attends(Lecture1pm));
      if record.lecture8am { stats := stats.(total8am := stats.total8am + 1); }
      if record.lecture10am { stats := stats.(total10am := stats.total10am + 1); }
      if record.lecture1pm { stats := stats.(total1pm := stats.total1pm + 1); }
    }
    assert studentRecords[..|studentRecords|] == studentRecords;
  }

  /** The body of the `students.map` callback. */
  method AnalyzeStudent(attendanceRecords: seq<AttendanceRecord>, student: Student) returns (sp: StudentPattern)
    ensures Describes(sp, student, attendanceRecords)
  {
    var studentRecords := AttendanceService.ForStudent(attendanceRecords, student.Id);
    var stats := CountSlots(studentRecords);
    var patterns := PushPatterns(studentRecords, stats);
    var totalPossible := stats.totalDays * 3;
    var totalAttended := stats.total8am + stats.total10am + stats.total1pm;
    assert totalPossible == 3 * stats.totalDays;
    assert totalAttended == Attended(stats);
    sp := StudentPattern(student, stats, patterns, Percent(totalAttended, totalPossible));
  }

  /** The five `if (...) patterns.push(...)` tests of the callback, given a student's
      records and their counted totals. */
  method PushPatterns(studentRecords: seq<AttendanceRecord>, stats: SlotTotals) returns (patterns: seq<Pattern>)
    requires stats == Totals(studentRecords)
    ensures patterns == Tags(IsEarlyBird(stats), IsMiddleSkipper(studentRecords), IsLateStarter(studentRecords),
                             IsIrregular(studentRecords), IsPoorAttendance(stats))
  {
    patterns := [];
    if stats.total8am == stats.totalDays && stats.totalDays > 0 {
      patterns := patterns + [EarlyBird];
    }
    ghost var expected := Opt(IsEarlyBird(stats), EarlyBird);
    assert patterns == expected;
    var middleSkips := Count(studentRecords, SkipsMiddle);
    ghost var before := patterns;
    if 2 * middleSkips >= stats.totalDays {
      patterns := patterns + [MiddleSkipper];
    }
    assert patterns == before + Opt(IsMiddleSkipper(studentRecords), MiddleSkipper);
    expected := expected + Opt(IsMiddleSkipper(studentRecords), MiddleSkipper);
    var lateStarts := Count(studentRecords, OnlyAfternoon);
    before := patterns;
    if 2 * lateStarts >= stats.totalDays {
      patterns := patterns + [LateStarter];
    }
    assert patterns == before + Opt(IsLateStarter(studentRecords), LateStarter);
    expected := expected + Opt(IsLateStarter(studentRecords), LateStarter);
    var hasIrregular := Any(studentRecords, IsPartial);
    before := patterns;
    if hasIrregular && stats.totalDays > 1 {
      patterns := patterns + [Irregular];
    }
    assert patterns == before + Opt(IsIrregular(studentRecords), Irregular);
    expected := expected + Opt(IsIrregular(studentRecords), Irregular);
    var totalPossible := stats.totalDays * 3;
    var totalAttended := stats.total8am + stats.total10am + stats.total1pm;
    before := patterns;
    if totalPossible == 0 || 100 * totalAttended < 60 * totalPossible {
      patterns := patterns + [PoorAttendance];
    }
    assert patterns == before + Opt(IsPoorAttendance(stats), PoorAttendance);
  }

  /** `analyzeWeeklyPatterns`: one entry per student, in roster order. */
  method AnalyzeWeeklyPatterns(attendanceRecords: seq<AttendanceRecord>, students: seq<Student>)
    returns (studentPatterns: seq<StudentPattern>)
    ensures |studentPatterns| == |students|
    ensures forall i :: 0 <= i < |students| ==> Describes(studentPatterns[i], students[i], attendanceRecords)
  {
    studentPatterns := [];
    for i := 0 to |students|
      invariant |studentPatterns| == i
      invariant forall k :: 0 <= k < i ==> Describes(studentPatterns[k], students[k], attendanceRecords)
    {
      var sp := AnalyzeStudent(attendanceRecords, students[i]);
      studentPatterns := studentPatterns + [sp];
    }
  }

  /** Tags come in the fixed order early-bird, middle-skipper, late-starter, irregular,
      poor-attendance, so none occurs twice. */
  lemma TagsInOrder(early: bool, middle: bool, late: bool, irregular: bool, poor: bool)
    ensures InTagOrder(Tags(early, middle, late, irregular, poor))
  {
    var ps := Opt(early, EarlyBird);
    assert InTagOrder(ps) && RanksBelow(ps, Rank(MiddleSkipper));
    PushAfter(ps, middle, MiddleSkipper);
    ps := ps + Opt(middle, MiddleSkipper);
    PushAfter(ps, late, LateStarter);
    ps := ps + Opt(late, LateStarter);
    PushAfter(ps, irregular, Irregular);
    ps := ps + Opt(irregular, Irregular);
    PushAfter(ps, poor, PoorAttendance);
  }

  /** Every tag in `ps` ranks below `r`. */
  ghost predicate RanksBelow(ps: seq<Pattern>, r: nat)
  {
    forall i :: 0 <= i < |ps| ==> Rank(ps[i]) < r
  }

  /** Pushing a higher-ranked tag, or nothing, keeps an ordered list ordered. */
  lemma PushAfter(ps: seq<Pattern>, c: bool, p: Pattern)
    requires InTagOrder(ps) && RanksBelow(ps, Rank(p))
    ensures InTagOrder(ps + Opt(c, p)) && RanksBelow(ps + Opt(c, p), Rank(p) + 1)
  {
  }

  /** `early-bird` holds exactly when there are records and every one has 8am attended. */
  lemma EarlyBirdMeansEvery8am(recs: seq<AttendanceRecord>)
    ensures IsEarlyBird(Totals(recs)) <==> |recs| > 0 && forall i :: 0 <= i < |recs| ==> recs[i].lecture8am
  {
    CountAll(recs, Attends(Lecture8am));
    assert forall i :: 0 <= i < |recs| ==> recs[i] in recs && (recs[i].Get(Lecture8am) <==> recs[i].lecture8am);
  }

  /** A student's entry is fully determined by the student and the records: the counts, the
      tags' conditions and a percentage in [0, 100] that rounds the attended share. */
  lemma DescribedEntry(sp: StudentPattern, student: Student, records: seq<AttendanceRecord>)
    requires Describes(sp, student, records)
    ensures var recs := AttendanceService.ForStudent(records, student.Id);
      && sp.stats.totalDays == |recs|
      && sp.stats.total8am <= sp.stats.totalDays && sp.stats.total10am <= sp.stats.totalDays
      && sp.stats.total1pm <= sp.stats.totalDays
      && InTagOrder(sp.patterns)
      && (EarlyBird in sp.patterns <==> |recs| > 0 && forall i :: 0 <= i < |recs| ==> recs[i].lecture8am)
      && (MiddleSkipper in sp.patterns <==> 2 * Count(recs, SkipsMiddle) >= |recs|)
      && (LateStarter in sp.patterns <==> 2 * Count(recs, OnlyAfternoon) >= |recs|)
      && (Irregular in sp.patterns <==> |recs| > 1 && exists i :: 0 <= i < |recs| && IsPartial(recs[i]))
      && (PoorAttendance in sp.patterns <==> |recs| == 0 || 100 * Attended(sp.stats) < 180 * |recs|)
      && 0 <= sp.percentage <= 100
      && (|recs| == 0 ==> sp.percentage == 0)
  {
    var recs := AttendanceService.ForStudent(records, student.Id);
    EarlyBirdMeansEvery8am(recs);
    TagsInOrder(IsEarlyBird(sp.stats), IsMiddleSkipper(recs), IsLateStarter(recs), IsIrregular(recs), IsPoorAttendance(sp.stats));
  }

  /** A student without records in the week gets exactly middle-skipper, late-starter and
      poor-attendance, with 0 percent. */
  lemma NoRecordsTags(sp: StudentPattern, student: Student, records: seq<AttendanceRecord>)
    requires Describes(sp, student, records)
    requires AttendanceService.ForStudent(records, student.Id) == []
    ensures sp.patterns == [MiddleSkipper, LateStarter, PoorAttendance]
    ensures sp.percentage == 0
  {
  }

  /** `early-bird` and `late-starter` never occur together: attending 8am every day leaves no
      day with only 1pm. */
  lemma EarlyBirdIsNotLateStarter(sp: StudentPattern, student: Student, records: seq<AttendanceRecord>)
    requires Describes(sp, student, records)
    ensures !(EarlyBird in sp.patterns && LateStarter in sp.patterns)
  {
    var recs := AttendanceService.ForStudent(records, student.Id);
    TagsInOrder(IsEarlyBird(sp.stats), IsMiddleSkipper(recs), IsLateStarter(recs), IsIrregular(recs), IsPoorAttendance(sp.stats));
    if EarlyBird in sp.patterns {
      EarlyBirdMeansEvery8am(recs);
      FilterNone(recs, OnlyAfternoon);
    }
  }
}
