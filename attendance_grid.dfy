/** The marking grid for one date: the roster search, the optimistic local update of the
    day's records after a slot is marked, and the updates sent by "mark all present". */
module AttendanceGrid {
  import opened Wrappers
  import opened Seqs
  import opened Text
  import opened Entities
  import AttendanceService

  /** `student.name.toLowerCase().includes(t) || student.rollNumber.toLowerCase().includes(t)`
      with `t` the lower-cased search term. */
  predicate NameOrRollMatches(term: string, student: Student)
  {
    Includes(ToLower(student.name), ToLower(term)) || Includes(ToLower(student.rollNumber), ToLower(term))
  }

  function MatchesTerm(term: string): Student -> bool
  {
    (student: Student) => NameOrRollMatches(term, student)
  }

  /** `filterStudents()`: everyone for an empty term, otherwise the matching students. */
  function FilterStudents(students: seq<Student>, searchTerm: string): seq<Student>
  {
    if searchTerm == [] then students else Filter(students, MatchesTerm(searchTerm))
  }

  /** The filtered list keeps exactly the matching students, each as often as it is on the
      roster, in roster order, and keeps everyone for an empty term. */
  lemma FilterStudentsSpec(students: seq<Student>, searchTerm: string)
    ensures var r := FilterStudents(students, searchTerm);
      && (searchTerm == [] ==> r == students)
      && (forall i :: 0 <= i < |r| ==> r[i] in students && NameOrRollMatches(searchTerm, r[i]))
      && (forall i :: 0 <= i < |students| && NameOrRollMatches(searchTerm, students[i]) ==> students[i] in r)
      && (forall x :: multiset(r)[x] == if NameOrRollMatches(searchTerm, x) then multiset(students)[x] else 0)
      && IsSubsequence(r, students)
  {
    FilterSpec(students, MatchesTerm(searchTerm));
    if searchTerm == [] {
      SelfIsSubsequence(students);
      EmptyTermMatchesAll(students);
      forall x: Student
        ensures NameOrRollMatches(searchTerm, x)
      {
        IncludesEmpty(ToLower(x.name));
      }
    }
  }

  /** Every student matches the empty term, so the early return for it changes nothing. */
  lemma EmptyTermMatchesAll(students: seq<Student>)
    ensures Filter(students, MatchesTerm([])) == students
  {
    forall i | 0 <= i < |students|
      ensures NameOrRollMatches([], students[i])
    {
      IncludesEmpty(ToLower(students[i].name));
    }
    FilterAll(students, MatchesTerm([]));
  }

  /** `r => r.studentId === studentId ? { ...r, [lectureSlot]: present } : r`. */
  function SetSlotOf(studentId: int, lectureSlot: Slot, present: bool): AttendanceRecord -> AttendanceRecord
  {
    (r: AttendanceRecord) => if r.studentId == studentId then r.With(lectureSlot, present) else r
  }

  /** The local update of the day's records after `markAttendance(studentId, …, lectureSlot,
      present)`: every record of the student gets the slot set, or a new record is appended
      with Id `now` (`Date.now()`) and the day `isoDate` (`toISOString().split('T')[0]`). */
  function LocalUpsert(prev: seq<AttendanceRecord>, studentId: int, lectureSlot: Slot, present: bool,
                       now: int, isoDate: string): seq<AttendanceRecord>
  {
    match Find(prev, AttendanceService.OfStudent(studentId))
    case Some(_) => Map(prev, SetSlotOf(studentId, lectureSlot, present))
    case None =>
      prev + [AttendanceRecord(
        now,
        studentId,
        isoDate,
        if lectureSlot == Lecture8am then present else false,
        if lectureSlot == Lecture10am then present else false,
        if lectureSlot == Lecture1pm then present else false,
        "")]
  }

  /** With a record of the student present, every such record gets the slot set and keeps
      everything else; the other records and the length stay the same. */
  lemma LocalUpsertExisting(prev: seq<AttendanceRecord>, studentId: int, lectureSlot: Slot, present: bool,
                            now: int, isoDate: string, k: nat)
    requires k < |prev| && prev[k].studentId == studentId
    ensures var next := LocalUpsert(prev, studentId, lectureSlot, present, now, isoDate);
      && |next| == |prev|
      && (forall i :: 0 <= i < |prev| && prev[i].studentId == studentId ==>
            next[i].Get(lectureSlot) == present && next[i] == prev[i].With(lectureSlot, present))
      && (forall i :: 0 <= i < |prev| && prev[i].studentId != studentId ==> next[i] == prev[i])
  {
    assert AttendanceService.OfStudent(studentId)(prev[k]);
  }

  /** With no record of the student, exactly one record is appended: the slot is `present`,
      the other two slots are false and the notes are empty. */
  lemma LocalUpsertNew(prev: seq<AttendanceRecord>, studentId: int, lectureSlot: Slot, present: bool,
                       now: int, isoDate: string)
    requires forall i :: 0 <= i < |prev| ==> prev[i].studentId != studentId
    ensures var next := LocalUpsert(prev, studentId, lectureSlot, present, now, isoDate);
      && |next| == |prev| + 1 && next[..|prev|] == prev
      && var added := next[|prev|];
      && added.Id == now && added.studentId == studentId && added.date == isoDate
      && added.Get(lectureSlot) == present
      && (forall other :: other != lectureSlot ==> !added.Get(other))
      && added.notes == ""
  {
    var next := LocalUpsert(prev, studentId, lectureSlot, present, now, isoDate);
    assert next[..|prev|] == prev;
  }

  /** The optimistic update agrees with what the server stores: when the shown records are the
      ledger's records of the day and notes are not given, the local list equals the day's
      records after `markAttendance`, record for record, except that a newly created record
      carries `Date.now()` instead of the server's Id. */
  lemma LocalUpsertMatchesServer(ledger: seq<AttendanceRecord>, item: AttendanceService.MarkItem, now: int)
    requires AttendanceService.OnePerStudentDay(ledger)
    requires item.notes == ""
    ensures var local := LocalUpsert(AttendanceService.OnDate(ledger, item.date), item.studentId,
                                     item.lectureSlot, item.present, now, item.date);
      var server := AttendanceService.OnDate(AttendanceService.Upsert(ledger, item).ledger, item.date);
      && |local| == |server|
      && forall i :: 0 <= i < |local| ==> local[i].(Id := server[i].Id) == server[i]
  {
    var prev := AttendanceService.OnDate(ledger, item.date);
    var k := FindIndex(ledger, AttendanceService.Key(item.studentId, item.date));
    AttendanceService.OnDateSpec(ledger, item.date);
    if k != -1 {
      ExistingMatchesServer(ledger, item, now, k);
    } else {
      forall i | 0 <= i < |prev|
        ensures prev[i].studentId != item.studentId
      {
        var j :| 0 <= j < |ledger| && ledger[j] == prev[i];
        assert !AttendanceService.Key(item.studentId, item.date)(ledger[j]);
      }
      NewMatchesServer(ledger, item, now);
    }
  }

  lemma ExistingMatchesServer(ledger: seq<AttendanceRecord>, item: AttendanceService.MarkItem, now: int, k: nat)
    requires AttendanceService.OnePerStudentDay(ledger)
    requires item.notes == ""
    requires k == FindIndex(ledger, AttendanceService.Key(item.studentId, item.date))
    ensures var local := LocalUpsert(AttendanceService.OnDate(ledger, item.date), item.studentId,
                                     item.lectureSlot, item.present, now, item.date);
      local == AttendanceService.OnDate(AttendanceService.Upsert(ledger, item).ledger, item.date)
  {
    var f := SetSlotOf(item.studentId, item.lectureSlot, item.present);
    var updated := ledger[k].With(item.lectureSlot, item.present);
    assert AttendanceService.Upsert(ledger, item).ledger == ledger[k := updated] by {
      assert updated.(notes := ledger[k].notes) == updated;
    }
    OthersOnDayUntouched(ledger, item, k);
    FilterUpdateAsMap(ledger, k, updated, AttendanceService.OnDay(item.date), f);
    StudentShownOnDay(ledger, item, k);
  }

  /** The other records of the day belong to other students, so setting the student's slot
      leaves them alone. */
  lemma OthersOnDayUntouched(ledger: seq<AttendanceRecord>, item: AttendanceService.MarkItem, k: nat)
    requires AttendanceService.OnePerStudentDay(ledger)
    requires k == FindIndex(ledger, AttendanceService.Key(item.studentId, item.date))
    ensures forall i :: 0 <= i < |ledger| && i != k && AttendanceService.OnDay(item.date)(ledger[i]) ==>
      SetSlotOf(item.studentId, item.lectureSlot, item.present)(ledger[i]) == ledger[i]
  {
    forall i | 0 <= i < |ledger| && i != k && ledger[i].date == item.date
      ensures ledger[i].studentId != item.studentId
    {
    }
  }

  /** The student's record is among the records shown for the day. */
  lemma StudentShownOnDay(ledger: seq<AttendanceRecord>, item: AttendanceService.MarkItem, k: nat)
    requires k == FindIndex(ledger, AttendanceService.Key(item.studentId, item.date))
    ensures Find(AttendanceService.OnDate(ledger, item.date), AttendanceService.OfStudent(item.studentId)).Some?
  {
    var prev := AttendanceService.OnDate(ledger, item.date);
    AttendanceService.OnDateSpec(ledger, item.date);
    assert ledger[k] in prev;
    var j :| 0 <= j < |prev| && prev[j] == ledger[k];
    assert AttendanceService.OfStudent(item.studentId)(prev[j]);
  }

  lemma NewMatchesServer(ledger: seq<AttendanceRecord>, item: AttendanceService.MarkItem, now: int)
    requires item.notes == ""
    requires FindIndex(ledger, AttendanceService.Key(item.studentId, item.date)) == -1
    requires forall i :: 0 <= i < |AttendanceService.OnDate(ledger, item.date)| ==>
      AttendanceService.OnDate(ledger, item.date)[i].studentId != item.studentId
    ensures var local := LocalUpsert(AttendanceService.OnDate(ledger, item.date), item.studentId,
                                     item.lectureSlot, item.present, now, item.date);
      var server := AttendanceService.OnDate(AttendanceService.Upsert(ledger, item).ledger, item.date);
      && |local| == |server|
      && forall i :: 0 <= i < |local| ==> local[i].(Id := server[i].Id) == server[i]
  {
    var prev := AttendanceService.OnDate(ledger, item.date);
    var m := AttendanceService.Upsert(ledger, item);
    assert m.ledger == ledger + [m.record] && m.record.date == item.date && m.record.notes == "";
    FilterAppend(ledger, [m.record], AttendanceService.OnDay(item.date));
    assert Filter([m.record], AttendanceService.OnDay(item.date)) == [m.record];
    var server := prev + [m.record];
    assert AttendanceService.OnDate(m.ledger, item.date) == server;
    var local := LocalUpsert(prev, item.studentId, item.lectureSlot, item.present, now, item.date);
    NoRecordOfStudent(prev, item.studentId);
    var added := local[|prev|];
    assert local == prev + [added];
    assert added.(Id := m.record.Id) == m.record;
    forall i | 0 <= i < |local|
      ensures local[i].(Id := server[i].Id) == server[i]
    {
      if i < |prev| {
        assert local[i] == server[i];
      }
    }
  }

  /** Without a record of the student, the local update appends. */
  lemma NoRecordOfStudent(prev: seq<AttendanceRecord>, studentId: int)
    requires forall i :: 0 <= i < |prev| ==> prev[i].studentId != studentId
    ensures Find(prev, AttendanceService.OfStudent(studentId)).None?
  {
  }

  /** One element of the `updates` list of `markAllPresent`. */
  function PresentUpdate(date: string, lectureSlot: Slot): Student -> AttendanceService.MarkItem
  {
    (student: Student) => AttendanceService.MarkItem(student.Id, date, lectureSlot, true, "")
  }

  /** `markAllPresent(lectureSlot)`'s `updates`: one per student, in roster order. */
  function AllPresentUpdates(students: seq<Student>, date: string, lectureSlot: Slot): (updates: seq<AttendanceService.MarkItem>)
    ensures |updates| == |students|
    ensures forall i :: 0 <= i < |students| ==>
      && updates[i].studentId == students[i].Id && updates[i].date == date
      && updates[i].lectureSlot == lectureSlot && updates[i].present && updates[i].notes == ""
  {
    Map(students, PresentUpdate(date, lectureSlot))
  }

  /** After "mark all present" every roster student has exactly one record on the date, with
      the slot attended; a student listed twice is marked by the later update, which also
      sets the slot. */
  lemma AllPresentMarksEveryone(ledger: seq<AttendanceRecord>, students: seq<Student>, date: string, lectureSlot: Slot, k: nat)
    requires AttendanceService.OnePerStudentDay(ledger)
    requires k < |students|
    ensures var after := AttendanceService.BulkUpsert(ledger, AllPresentUpdates(students, date, lectureSlot)).ledger;
      var recs := AttendanceService.RecordsOf(after, students[k].Id, date);
      |recs| == 1 && recs[0].Get(lectureSlot)
  {
    var updates := AllPresentUpdates(students, date, lectureSlot);
    var j := LastWithId(students, students[k].Id, |students|);
    AttendanceService.LastWriteWins(ledger, updates, j);
  }

  /** The last position below `n` of a student with Id `id`, or -1. */
  function LastWithId(students: seq<Student>, id: int, n: nat): (j: int)
    requires n <= |students|
    ensures -1 <= j < n
    ensures j >= 0 ==> students[j].Id == id
    ensures forall i :: j < i < n ==> students[i].Id != id
  {
    if n == 0 then -1
    else if students[n - 1].Id == id then n - 1
    else LastWithId(students, id, n - 1)
  }
}
