/** The attendance history page: per-student weekly statistics over the week's records, the
    per-slot and overall percentages shown in the table, the badge colour, and the CSV export. */
module AttendanceHistory {
  import opened Seqs
  import opened Text
  import opened Entities
  import AttendanceService
  import PatternAnalysis

  /** The object `getStudentWeeklyStats` returns. */
  datatype WeeklyStats = WeeklyStats(totalDays: nat, present8am: nat, present10am: nat, present1pm: nat, percentage: int)

  /** The colour of the overall-percentage badge. */
  datatype Variant = Success | Warning | Error

  /** The `filter` tests `r => r.lecture8am`, `r => r.lecture10am` and `r => r.lecture1pm`. */
  predicate Present8am(r: AttendanceRecord) { r.lecture8am }
  predicate Present10am(r: AttendanceRecord) { r.lecture10am }
  predicate Present1pm(r: AttendanceRecord) { r.lecture1pm }

  /** `getStudentWeeklyStats(studentId)` over the week's records `attendanceData`. */
  function StudentWeeklyStats(attendanceData: seq<AttendanceRecord>, studentId: int): (stats: WeeklyStats)
    ensures stats.totalDays == |AttendanceService.ForStudent(attendanceData, studentId)|
    ensures stats.present8am <= stats.totalDays && stats.present10am <= stats.totalDays
    ensures stats.present1pm <= stats.totalDays
    ensures 0 <= stats.percentage <= 100
    ensures stats.totalDays == 0 ==> stats.percentage == 0
  {
    WeeklyStatsOf(AttendanceService.ForStudent(attendanceData, studentId))
  }

  /** The statistics of one student's records `studentRecords`. */
  function WeeklyStatsOf(studentRecords: seq<AttendanceRecord>): (stats: WeeklyStats)
    ensures stats.totalDays == |studentRecords|
    ensures stats.present8am <= stats.totalDays && stats.present10am <= stats.totalDays
    ensures stats.present1pm <= stats.totalDays
    ensures 0 <= stats.percentage <= 100
    ensures stats.totalDays == 0 ==> stats.percentage == 0
  {
    var totalDays := |studentRecords|;
    var present8am := Count(studentRecords, Present8am);
    var present10am := Count(studentRecords, Present10am);
    var present1pm := Count(studentRecords, Present1pm);
    var totalPossible := totalDays * 3;
    var totalPresent := present8am + present10am + present1pm;
    WeeklyStats(totalDays, present8am, present10am, present1pm, Percent(totalPresent, totalPossible))
  }

  /** The weekly statistics of the history page agree with the counts and the percentage of the
      weekly pattern analysis for the same student and week. */
  lemma WeeklyStatsAgreeWithPatterns(sp: PatternAnalysis.StudentPattern, student: Student, attendanceData: seq<AttendanceRecord>)
    requires PatternAnalysis.Describes(sp, student, attendanceData)
    ensures var stats := StudentWeeklyStats(attendanceData, student.Id);
      && stats.totalDays == sp.stats.totalDays
      && stats.present8am == sp.stats.total8am
      && stats.present10am == sp.stats.total10am
      && stats.present1pm == sp.stats.total1pm
      && stats.percentage == sp.percentage
  {
    StatsAreTotals(AttendanceService.ForStudent(attendanceData, student.Id));
  }

  /** The history page's counts are the pattern analysis's slot totals of the same records, and
      its percentage rounds the attended share of the `3 * totalDays` lectures. */
  lemma StatsAreTotals(studentRecords: seq<AttendanceRecord>)
    ensures var stats, t := WeeklyStatsOf(studentRecords), PatternAnalysis.Totals(studentRecords);
      && stats.totalDays == t.totalDays
      && stats.present8am == t.total8am && stats.present10am == t.total10am && stats.present1pm == t.total1pm
      && stats.percentage == Percent(PatternAnalysis.Attended(t), 3 * t.totalDays)
  {
    var stats, t := WeeklyStatsOf(studentRecords), PatternAnalysis.Totals(studentRecords);
    SameCounts(studentRecords);
    assert stats.present8am == t.total8am && stats.present10am == t.total10am && stats.present1pm == t.total1pm;
    assert PatternAnalysis.Attended(t) == stats.present8am + stats.present10am + stats.present1pm;
  }

  /** Counting a slot with `r => r.lectureX` or through the slot lookup gives the same number. */
  lemma SameCounts(recs: seq<AttendanceRecord>)
    ensures Count(recs, Present8am) == PatternAnalysis.SlotCount(recs, Lecture8am)
    ensures Count(recs, Present10am) == PatternAnalysis.SlotCount(recs, Lecture10am)
    ensures Count(recs, Present1pm) == PatternAnalysis.SlotCount(recs, Lecture1pm)
  {
    FilterAgree(recs, Present8am, PatternAnalysis.Attends(Lecture8am));
    FilterAgree(recs, Present10am, PatternAnalysis.Attends(Lecture10am));
    FilterAgree(recs, Present1pm, PatternAnalysis.Attends(Lecture1pm));
  }

  /** The small percentage under each slot's `present/totalDays` cell. */
  function SlotPercent(present: nat, totalDays: nat): (r: int)
    requires present <= totalDays
    ensures 0 <= r <= 100
    ensures totalDays == 0 ==> r == 0
    ensures totalDays > 0 ==> 2 * totalDays * r - totalDays <= 200 * present < 2 * totalDays * r + totalDays
  {
    Percent(present, totalDays)
  }

  /** A slot attended on every recorded day shows 100%, and one never attended shows 0%. */
  lemma SlotPercentExtremes(totalDays: nat)
    requires totalDays > 0
    ensures SlotPercent(totalDays, totalDays) == 100
    ensures SlotPercent(0, totalDays) == 0
  {
    WholeRoundsToHundred(totalDays, SlotPercent(totalDays, totalDays));
    NoneRoundsToZero(totalDays, SlotPercent(0, totalDays));
  }

  lemma WholeRoundsToHundred(t: nat, r: int)
    requires t > 0 && 2 * t * r - t <= 200 * t < 2 * t * r + t
    ensures r == 100
  {
    assert t * (2 * r - 201) <= 0 && t * (2 * r - 199) > 0;
    SignOfProduct(t, 2 * r - 201);
    SignOfProduct(t, 199 - 2 * r);
  }

  lemma NoneRoundsToZero(t: nat, r: int)
    requires t > 0 && 2 * t * r - t <= 0 < 2 * t * r + t
    ensures r == 0
  {
    assert t * (2 * r - 1) <= 0 && t * (2 * r + 1) > 0;
    SignOfProduct(t, 2 * r - 1);
    SignOfProduct(t, -2 * r - 1);
  }

  /** The badge colour for an overall percentage. */
  function BadgeVariant(percentage: int): (v: Variant)
    ensures v == Success <==> percentage >= 80
    ensures v == Warning <==> 60 <= percentage < 80
    ensures v == Error <==> percentage < 60
  {
    if percentage >= 80 then Success
    else if percentage >= 60 then Warning
    else Error
  }

  /** A higher percentage never gets a worse badge. */
  lemma BadgeMonotone(p: int, q: int)
    requires p <= q
    ensures BadgeVariant(p) == Success ==> BadgeVariant(q) == Success
    ensures BadgeVariant(q) == Error ==> BadgeVariant(p) == Error
  {
  }

  /** A student shown with the error badge is also tagged poor-attendance by the pattern
      analysis. */
  lemma ErrorBadgeMeansPoorAttendance(sp: PatternAnalysis.StudentPattern, student: Student, attendanceData: seq<AttendanceRecord>)
    requires PatternAnalysis.Describes(sp, student, attendanceData)
    requires BadgeVariant(StudentWeeklyStats(attendanceData, student.Id).percentage) == Error
    ensures PatternAnalysis.PoorAttendance in sp.patterns
  {
    WeeklyStatsAgreeWithPatterns(sp, student, attendanceData);
    if sp.stats.totalDays > 0 {
      RoundedBelowSixty(PatternAnalysis.Attended(sp.stats), 3 * sp.stats.totalDays);
    }
  }

  /** A share that rounds to less than 60% is less than 60% exactly. */
  lemma RoundedBelowSixty(part: nat, total: nat)
    requires total > 0 && Percent(part, total) < 60
    ensures 100 * part < 60 * total
  {
    var r := Percent(part, total);
    assert 200 * part < 2 * total * r + total;
    assert total * (2 * r + 1) <= total * 119 by {
      MultiplyMonotone(total, 2 * r + 1, 119);
    }
  }

  lemma MultiplyMonotone(a: nat, b: int, c: int)
    requires b <= c
    ensures a * b <= a * c
  {
  }

  /** The header row of the export. */
  const Header: seq<string> := ["Student Name", "Roll Number", "Days Present", "8 AM", "10 AM", "1 PM", "Overall %"]

  /** The export row of a student with statistics `stats`: name, roll number, the decimal
      texts of the four counts, and the percentage followed by `%`. */
  function CsvRow(student: Student, stats: WeeklyStats): (row: seq<string>)
    requires 0 <= stats.percentage
    ensures |row| == |Header|
    ensures row[0] == student.name && row[1] == student.rollNumber
  {
    [student.name, student.rollNumber, NatToString(stats.totalDays), NatToString(stats.present8am),
     NatToString(stats.present10am), NatToString(stats.present1pm), NatToString(stats.percentage as nat) + "%"]
  }

  /** Read back as numbers, the fields of a row are the statistics it was made from. */
  lemma CsvRowValues(student: Student, stats: WeeklyStats)
    requires 0 <= stats.percentage
    ensures var row := CsvRow(student, stats);
      && IsDigits(row[2]) && DecimalValue(row[2]) == stats.totalDays
      && IsDigits(row[3]) && DecimalValue(row[3]) == stats.present8am
      && IsDigits(row[4]) && DecimalValue(row[4]) == stats.present10am
      && IsDigits(row[5]) && DecimalValue(row[5]) == stats.present1pm
      && IsDigits(row[6][..|row[6]| - 1]) && DecimalValue(row[6][..|row[6]| - 1]) == stats.percentage
      && row[6][|row[6]| - 1] == '%'
  {
    NatToStringValue(stats.totalDays);
    NatToStringValue(stats.present8am);
    NatToStringValue(stats.present10am);
    NatToStringValue(stats.present1pm);
    PercentField(stats.percentage as nat);
    var row := CsvRow(student, stats);
    assert row[2] == NatToString(stats.totalDays) && row[3] == NatToString(stats.present8am);
    assert row[4] == NatToString(stats.present10am) && row[5] == NatToString(stats.present1pm);
    assert row[6] == NatToString(stats.percentage as nat) + "%";
  }

  /** The last field: the percentage's digits, then `%`. */
  lemma PercentField(p: nat)
    ensures var field := NatToString(p) + "%";
      && IsDigits(field[..|field| - 1]) && DecimalValue(field[..|field| - 1]) == p
      && field[|field| - 1] == '%'
  {
    NatToStringValue(p);
    var digits := NatToString(p);
    assert (digits + "%")[..|digits|] == digits;
  }

  /** A row holds a newline only where the student's name or roll number does. */
  lemma CsvRowAvoidsNewline(student: Student, stats: WeeklyStats)
    requires 0 <= stats.percentage
    requires '\n' !in student.name && '\n' !in student.rollNumber
    ensures '\n' !in CsvLine(CsvRow(student, stats))
  {
    var row := CsvRow(student, stats);
    DigitsAvoid(NatToString(stats.totalDays), '\n');
    DigitsAvoid(NatToString(stats.present8am), '\n');
    DigitsAvoid(NatToString(stats.present10am), '\n');
    DigitsAvoid(NatToString(stats.present1pm), '\n');
    DigitsAvoid(NatToString(stats.percentage as nat), '\n');
    assert forall j :: 0 <= j < |row| ==> '\n' !in row[j];
    JoinAvoids(row, ",", '\n');
  }

  /** The row of `student` in the export of `attendanceData`. */
  function StudentRow(attendanceData: seq<AttendanceRecord>, student: Student): seq<string>
  {
    CsvRow(student, StudentWeeklyStats(attendanceData, student.Id))
  }

  /** `student => row of student`, the callback of the `students.forEach`. */
  function RowOf(attendanceData: seq<AttendanceRecord>): Student -> seq<string>
  {
    (student: Student) => StudentRow(attendanceData, student)
  }

  /** The `csvData` rows: the header, then one row per student in roster order. */
  function CsvTable(attendanceData: seq<AttendanceRecord>, students: seq<Student>): (table: seq<seq<string>>)
    ensures |table| == |students| + 1 && table[0] == Header
  {
    [Header] + Map(students, RowOf(attendanceData))
  }

  /** After the header, the export holds each student's row, in roster order. */
  lemma CsvTableRow(attendanceData: seq<AttendanceRecord>, students: seq<Student>, i: nat)
    requires i < |students|
    ensures CsvTable(attendanceData, students)[i + 1] == StudentRow(attendanceData, students[i])
  {
    assert Map(students, RowOf(attendanceData))[i] == RowOf(attendanceData)(students[i]);
  }

  /** The `csvData` construction of `exportData`. */
  method ExportRows(attendanceData: seq<AttendanceRecord>, students: seq<Student>) returns (csvData: seq<seq<string>>)
    ensures csvData == CsvTable(attendanceData, students)
  {
    csvData := [];
    csvData := csvData + [Header];
    for i := 0 to |students|
      invariant csvData == CsvTable(attendanceData, students[..i])
    {
      var student := students[i];
      var stats := StudentWeeklyStats(attendanceData, student.Id);
      var row := [student.name, student.rollNumber, NatToString(stats.totalDays),
                  NatToString(stats.present8am), NatToString(stats.present10am),
                  NatToString(stats.present1pm), NatToString(stats.percentage as nat) + "%"];
      assert row == RowOf(attendanceData)(student);
      TableSnoc(attendanceData, students, i);
      csvData := csvData + [row];
    }
    assert students[..|students|] == students;
  }

  /** Adding the next student to the roster adds that student's row to the table. */
  lemma TableSnoc(attendanceData: seq<AttendanceRecord>, students: seq<Student>, i: nat)
    requires i < |students|
    ensures CsvTable(attendanceData, students[..i + 1]) ==
            CsvTable(attendanceData, students[..i]) + [RowOf(attendanceData)(students[i])]
  {
    MapSnoc(students, RowOf(attendanceData), i);
  }

  /** One CSV line: the fields joined with commas, without quoting. */
  function CsvLine(row: seq<string>): string
  {
    Join(row, ",")
  }

  /** `csvData.map(row => row.join(',')).join('\n')`. */
  function CsvContent(rows: seq<seq<string>>): string
  {
    Join(Map(rows, CsvLine), "\n")
  }

  /** When no name or roll number contains a newline, the exported text has exactly one line
      per student plus the header line, and its lines are the comma-joined rows. */
  lemma CsvLineCount(attendanceData: seq<AttendanceRecord>, students: seq<Student>)
    requires forall i :: 0 <= i < |students| ==> '\n' !in students[i].name && '\n' !in students[i].rollNumber
    ensures var table := CsvTable(attendanceData, students);
      && Split(CsvContent(table), '\n') == Map(table, CsvLine)
      && |Split(CsvContent(table), '\n')| == |students| + 1
  {
    var lines := Map(CsvTable(attendanceData, students), CsvLine);
    forall k | 0 <= k < |lines|
      ensures '\n' !in lines[k]
    {
      LineAvoidsNewline(attendanceData, students, k);
    }
    SplitJoin(lines, '\n');
  }

  /** No line of the export holds a newline when no name or roll number does. */
  lemma LineAvoidsNewline(attendanceData: seq<AttendanceRecord>, students: seq<Student>, k: nat)
    requires forall i :: 0 <= i < |students| ==> '\n' !in students[i].name && '\n' !in students[i].rollNumber
    requires k <= |students|
    ensures '\n' !in CsvLine(CsvTable(attendanceData, students)[k])
  {
    if k == 0 {
      HeaderAvoidsNewline();
    } else {
      var student := students[k - 1];
      CsvTableRow(attendanceData, students, k - 1);
      CsvRowAvoidsNewline(student, StudentWeeklyStats(attendanceData, student.Id));
    }
  }

  lemma HeaderAvoidsNewline()
    ensures '\n' !in CsvLine(Header)
  {
    assert forall j :: 0 <= j < |Header| ==> '\n' !in Header[j];
    JoinAvoids(Header, ",", '\n');
  }
}
