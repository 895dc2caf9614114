/** The attendance ledger: a module-level array of per-student, per-date records that the
    service filters, upserts into and deletes from. */
module AttendanceService {
  import opened Wrappers
  import opened Seqs
  import opened Entities
  import Dates

  const RecordNotFound := "Attendance record not found"

  /** The arguments of one `markAttendance` call. An empty `notes` stands for an omitted,
      `undefined` or `null` one: all of them are falsy in `notes || ...`. */
  datatype MarkItem = MarkItem(studentId: int, date: string, lectureSlot: Slot, present: bool, notes: string)

  /** The ledger after a call, with the record the call returns. */
  datatype Marked = Marked(ledger: seq<AttendanceRecord>, record: AttendanceRecord)
  datatype Bulk = Bulk(ledger: seq<AttendanceRecord>, results: seq<AttendanceRecord>)
  datatype Removed = Removed(ledger: seq<AttendanceRecord>, record: AttendanceRecord)

  /** The test `record.studentId === studentId && record.date === dateString`. */
  function Key(studentId: int, date: string): AttendanceRecord -> bool
  {
    (r: AttendanceRecord) => r.studentId == studentId && r.date == date
  }

  function Ids(rs: seq<AttendanceRecord>): seq<int>
  {
    Map(rs, (r: AttendanceRecord) => r.Id)
  }

  /** The ledger keeps at most one record per (studentId, date). */
  ghost predicate OnePerStudentDay(rs: seq<AttendanceRecord>)
  {
    forall i, j :: 0 <= i < j < |rs| ==> !(rs[i].studentId == rs[j].studentId && rs[i].date == rs[j].date)
  }

  /** Record Ids are pairwise distinct. */
  ghost predicate DistinctIds(rs: seq<AttendanceRecord>)
  {
    forall i, j :: 0 <= i < j < |rs| ==> rs[i].Id != rs[j].Id
  }

  /** The records of one student on one date. */
  function RecordsOf(rs: seq<AttendanceRecord>, studentId: int, date: string): seq<AttendanceRecord>
  {
    Filter(rs, Key(studentId, date))
  }

  /** `getByDate`: the records on `date`, in store order. */
  function OnDate(rs: seq<AttendanceRecord>, date: string): seq<AttendanceRecord>
  {
    Filter(rs, OnDay(date))
  }

  /** `getByStudentId`: the records of `studentId`, in store order. */
  function ForStudent(rs: seq<AttendanceRecord>, studentId: int): seq<AttendanceRecord>
  {
    Filter(rs, OfStudent(studentId))
  }

  /** `getAttendanceStats`: the records with `start <= date <= end` as strings, in store order. */
  function InRange(rs: seq<AttendanceRecord>, start: string, end: string): seq<AttendanceRecord>
  {
    Filter(rs, Between(start, end))
  }

  /** The test `record.date === dateString`. */
  function OnDay(date: string): AttendanceRecord -> bool
  {
    (r: AttendanceRecord) => r.date == date
  }

  /** The test `record.studentId === studentId`. */
  function OfStudent(studentId: int): AttendanceRecord -> bool
  {
    (r: AttendanceRecord) => r.studentId == studentId
  }

  /** The test `record.date >= startDate && record.date <= endDate` on date strings. */
  function Between(start: string, end: string): AttendanceRecord -> bool
  {
    (r: AttendanceRecord) => Dates.LexLessEq(start, r.date) && Dates.LexLessEq(r.date, end)
  }

  /** `getByDate` returns exactly the records on `date`, each as often as it is stored, in
      store order. */
  lemma OnDateSpec(rs: seq<AttendanceRecord>, date: string)
    ensures var r := OnDate(rs, date);
      && (forall i :: 0 <= i < |r| ==> r[i] in rs && r[i].date == date)
      && (forall i :: 0 <= i < |rs| && rs[i].date == date ==> rs[i] in r)
      && (forall x :: multiset(r)[x] == if x.date == date then multiset(rs)[x] else 0)
      && IsSubsequence(r, rs)
  {
    FilterSpec(rs, OnDay(date));
  }

  /** `getByStudentId` returns exactly the records of `studentId`, each as often as it is
      stored, in store order. */
  lemma ForStudentSpec(rs: seq<AttendanceRecord>, studentId: int)
    ensures var r := ForStudent(rs, studentId);
      && (forall i :: 0 <= i < |r| ==> r[i] in rs && r[i].studentId == studentId)
      && (forall i :: 0 <= i < |rs| && rs[i].studentId == studentId ==> rs[i] in r)
      && (forall x :: multiset(r)[x] == if x.studentId == studentId then multiset(rs)[x] else 0)
      && IsSubsequence(r, rs)
  {
    FilterSpec(rs, OfStudent(studentId));
  }

  /** `getAttendanceStats` returns exactly the records whose date string lies between `start`
      and `end` inclusive, in store order. */
  lemma InRangeSpec(rs: seq<AttendanceRecord>, start: string, end: string)
    ensures var r := InRange(rs, start, end);
      && (forall i :: 0 <= i < |r| ==> r[i] in rs && Dates.LexLessEq(start, r[i].date) && Dates.LexLessEq(r[i].date, end))
      && (forall i :: 0 <= i < |rs| && Dates.LexLessEq(start, rs[i].date) && Dates.LexLessEq(rs[i].date, end) ==> rs[i] in r)
      && (forall x :: multiset(r)[x] ==
            if Dates.LexLessEq(start, x.date) && Dates.LexLessEq(x.date, end) then multiset(rs)[x] else 0)
      && IsSubsequence(r, rs)
  {
    FilterSpec(rs, Between(start, end));
  }

  /** `markAttendance`: update the (studentId, date) record in place, or append a new one. */
  function Upsert(rs: seq<AttendanceRecord>, item: MarkItem): Marked
  {
    var i := FindIndex(rs, Key(item.studentId, item.date));
    if i != -1 then
      var updated := rs[i].With(item.lectureSlot, item.present)
                          .(notes := if item.notes != "" then item.notes else rs[i].notes);
      Marked(rs[i := updated], updated)
    else
      var created := AttendanceRecord(
        MaxOrZero(Ids(rs)) + 1,
        item.studentId,
        item.date,
        if item.lectureSlot == Lecture8am then item.present else false,
        if item.lectureSlot == Lecture10am then item.present else false,
        if item.lectureSlot == Lecture1pm then item.present else false,
        item.notes);
      Marked(rs + [created], created)
  }

  /** `bulkMarkAttendance`: `markAttendance` applied to the items from left to right. */
  function BulkUpsert(rs: seq<AttendanceRecord>, items: seq<MarkItem>): (b: Bulk)
    ensures |b.results| == |items|
    decreases |items|
  {
    if items == [] then Bulk(rs, [])
    else
      var before := BulkUpsert(rs, items[..|items| - 1]);
      var m := Upsert(before.ledger, items[|items| - 1]);
      Bulk(m.ledger, before.results + [m.record])
  }

  /** `delete`: remove the first record with `Id == id`, or fail. */
  function Remove(rs: seq<AttendanceRecord>, id: int): Result<Removed>
  {
    var i := FindIndex(rs, (x: AttendanceRecord) => x.Id == id);
    if i == -1 then Failure(RecordNotFound)
    else Success(Removed(rs[..i] + rs[i + 1..], rs[i]))
  }

  /** An existing record for (studentId, date) is replaced at its own index: only the named
      slot changes (and notes, when new ones are given); every other record stays put. */
  lemma UpsertExisting(rs: seq<AttendanceRecord>, item: MarkItem, k: nat)
    requires k < |rs| && rs[k].studentId == item.studentId && rs[k].date == item.date
    requires forall j :: 0 <= j < k ==> !(rs[j].studentId == item.studentId && rs[j].date == item.date)
    ensures var m := Upsert(rs, item);
      && |m.ledger| == |rs|
      && m.ledger[k] == m.record
      && (forall j :: 0 <= j < |rs| && j != k ==> m.ledger[j] == rs[j])
      && m.record.Id == rs[k].Id && m.record.studentId == rs[k].studentId && m.record.date == rs[k].date
      && m.record.Get(item.lectureSlot) == item.present
      && (forall s :: s != item.lectureSlot ==> m.record.Get(s) == rs[k].Get(s))
      && m.record.notes == (if item.notes == "" then rs[k].notes else item.notes)
  {
    var i := FindIndex(rs, Key(item.studentId, item.date));
    assert Key(item.studentId, item.date)(rs[k]);
  }

  /** Without a record for (studentId, date), one record is appended: its Id is one above
      every existing Id (1 on an empty ledger), only the named slot may be set, and notes
      default to the empty string. */
  lemma UpsertNew(rs: seq<AttendanceRecord>, item: MarkItem)
    requires forall j :: 0 <= j < |rs| ==> !(rs[j].studentId == item.studentId && rs[j].date == item.date)
    ensures var m := Upsert(rs, item);
      && m.ledger == rs + [m.record]
      && (forall j :: 0 <= j < |rs| ==> rs[j].Id < m.record.Id)
      && (rs == [] ==> m.record.Id == 1)
      && m.record.Id >= 1
      && (m.record.Id == 1 || exists i :: 0 <= i < |rs| && rs[i].Id == m.record.Id - 1)
      && m.record.studentId == item.studentId && m.record.date == item.date
      && m.record.Get(item.lectureSlot) == item.present
      && (forall s :: s != item.lectureSlot ==> !m.record.Get(s))
      && m.record.notes == item.notes
  {
    var ids := Ids(rs);
    forall j | 0 <= j < |rs| ensures rs[j].Id <= MaxOrZero(ids) {
      assert ids[j] == rs[j].Id && ids[j] in ids;
    }
  }

  /** An upsert keeps "at most one record per (studentId, date)"; afterwards exactly one
      record exists for the pair, it is the returned one, and its slot holds `present`. */
  lemma UpsertKeepsOnePerStudentDay(rs: seq<AttendanceRecord>, item: MarkItem)
    requires OnePerStudentDay(rs)
    ensures var m := Upsert(rs, item);
      && OnePerStudentDay(m.ledger)
      && RecordsOf(m.ledger, item.studentId, item.date) == [m.record]
      && m.record.Get(item.lectureSlot) == item.present
  {
    var p := Key(item.studentId, item.date);
    var i := FindIndex(rs, p);
    var m := Upsert(rs, item);
    if i != -1 {
      assert p(rs[i]);
      forall j | 0 <= j < |m.ledger| && j != i ensures !p(m.ledger[j]) {
        assert m.ledger[j] == rs[j];
        if j < i {
          assert !(rs[j].studentId == rs[i].studentId && rs[j].date == rs[i].date);
        } else {
          assert !(rs[i].studentId == rs[j].studentId && rs[i].date == rs[j].date);
        }
      }
      FilterSingle(m.ledger, i, p);
    } else {
      forall j | 0 <= j < |rs| ensures !p(rs[j]) {
      }
      FilterSingle(m.ledger, |rs|, p);
    }
  }

  /** An upsert for one (studentId, date) leaves the records of every other pair alone. */
  lemma UpsertOtherPair(rs: seq<AttendanceRecord>, item: MarkItem, studentId: int, date: string)
    requires !(item.studentId == studentId && item.date == date)
    ensures RecordsOf(Upsert(rs, item).ledger, studentId, date) == RecordsOf(rs, studentId, date)
  {
    var q := Key(studentId, date);
    var i := FindIndex(rs, Key(item.studentId, item.date));
    var m := Upsert(rs, item);
    if i != -1 {
      assert Key(item.studentId, item.date)(rs[i]);
      FilterUpdate(rs, i, m.record, q);
    } else {
      FilterAppend(rs, [m.record], q);
    }
  }

  /** An upsert keeps record Ids distinct. */
  lemma UpsertKeepsDistinctIds(rs: seq<AttendanceRecord>, item: MarkItem)
    requires DistinctIds(rs)
    ensures DistinctIds(Upsert(rs, item).ledger)
  {
    var i := FindIndex(rs, Key(item.studentId, item.date));
    if i == -1 {
      UpsertNew(rs, item);
    }
  }

  /** Marking one more item extends the bulk result by that item's call. */
  lemma BulkSnoc(rs: seq<AttendanceRecord>, items: seq<MarkItem>, i: nat)
    requires i < |items|
    ensures var b := BulkUpsert(rs, items[..i]);
      var m := Upsert(b.ledger, items[i]);
      BulkUpsert(rs, items[..i + 1]) == Bulk(m.ledger, b.results + [m.record])
  {
    assert items[..i + 1][..i] == items[..i];
  }

  /** The i-th result of a bulk mark is what the i-th `markAttendance` call returned on the
      ledger left by the calls before it. */
  lemma {:induction false} BulkResultIsCallResult(rs: seq<AttendanceRecord>, items: seq<MarkItem>, i: nat)
    requires i < |items|
    ensures BulkUpsert(rs, items).results[i] == Upsert(BulkUpsert(rs, items[..i]).ledger, items[i]).record
    decreases |items|
  {
    var n := |items| - 1;
    if i < n {
      BulkResultIsCallResult(rs, items[..n], i);
      assert items[..n][..i] == items[..i];
    } else {
      assert items[..i] == items[..n];
    }
  }

  /** A bulk mark keeps "at most one record per (studentId, date)". */
  lemma {:induction false} BulkKeepsOnePerStudentDay(rs: seq<AttendanceRecord>, items: seq<MarkItem>)
    requires OnePerStudentDay(rs)
    ensures OnePerStudentDay(BulkUpsert(rs, items).ledger)
    decreases |items|
  {
    if items != [] {
      var n := |items| - 1;
      BulkKeepsOnePerStudentDay(rs, items[..n]);
      UpsertKeepsOnePerStudentDay(BulkUpsert(rs, items[..n]).ledger, items[n]);
    }
  }

  /** Last write wins: if no later item names the same student, date and slot as item k,
      the bulk mark leaves exactly one record for that student and date, holding item k's value. */
  lemma {:induction false} LastWriteWins(rs: seq<AttendanceRecord>, items: seq<MarkItem>, k: nat)
    requires OnePerStudentDay(rs)
    requires k < |items|
    requires forall j :: k < j < |items| ==>
      !(items[j].studentId == items[k].studentId && items[j].date == items[k].date && items[j].lectureSlot == items[k].lectureSlot)
    ensures var recs := RecordsOf(BulkUpsert(rs, items).ledger, items[k].studentId, items[k].date);
      |recs| == 1 && recs[0].Get(items[k].lectureSlot) == items[k].present
    decreases |items|
  {
    var n := |items| - 1;
    var before := BulkUpsert(rs, items[..n]).ledger;
    assert BulkUpsert(rs, items).ledger == Upsert(before, items[n]).ledger;
    BulkKeepsOnePerStudentDay(rs, items[..n]);
    UpsertKeepsOnePerStudentDay(before, items[n]);
    if k < n {
      var it := items[k];
      assert items[..n][k] == it;
      assert forall j :: k < j < n ==> items[..n][j] == items[j];
      LastWriteWins(rs, items[..n], k);
      if items[n].studentId == it.studentId && items[n].date == it.date {
        UpsertSamePairOtherSlot(before, items[n], it.lectureSlot);
      } else {
        UpsertOtherPair(before, items[n], it.studentId, it.date);
      }
    }
  }

  /** Marking another slot of a (studentId, date) pair that has its one record leaves the
      value of this slot in that record. */
  lemma UpsertSamePairOtherSlot(rs: seq<AttendanceRecord>, item: MarkItem, slot: Slot)
    requires OnePerStudentDay(rs)
    requires |RecordsOf(rs, item.studentId, item.date)| == 1
    requires slot != item.lectureSlot
    ensures var recs := RecordsOf(Upsert(rs, item).ledger, item.studentId, item.date);
      |recs| == 1 && recs[0].Get(slot) == RecordsOf(rs, item.studentId, item.date)[0].Get(slot)
  {
    var p := Key(item.studentId, item.date);
    var i := FindIndex(rs, p);
    var found := RecordsOf(rs, item.studentId, item.date);
    FilterSpec(rs, p);
    assert found[0] in found && p(found[0]);
    assert i != -1;
    forall j | 0 <= j < |rs| && j != i ensures !p(rs[j]) {
      assert p(rs[i]);
      if j < i {
        assert !(rs[j].studentId == rs[i].studentId && rs[j].date == rs[i].date);
      } else {
        assert !(rs[i].studentId == rs[j].studentId && rs[i].date == rs[j].date);
      }
    }
    FilterSingle(rs, i, p);
    UpsertExisting(rs, item, i);
    UpsertKeepsOnePerStudentDay(rs, item);
  }

  /** With start = end the range query is the single-date query. */
  lemma RangeOfOneDay(rs: seq<AttendanceRecord>, date: string)
    ensures InRange(rs, date, date) == OnDate(rs, date)
  {
    forall i | 0 <= i < |rs| {
      Dates.LexBetweenSelf(rs[i].date, date);
    }
    FilterAgree(rs, Between(date, date), OnDay(date));
  }

  /** For zero-padded dates the range query keeps exactly the records whose date lies in the
      calendar interval [start, end]. */
  lemma RangeIsCalendarInterval(rs: seq<AttendanceRecord>, start: string, end: string)
    requires Dates.IsIsoDate(start) && Dates.IsIsoDate(end)
    requires forall i :: 0 <= i < |rs| ==> Dates.IsIsoDate(rs[i].date)
    ensures forall i :: 0 <= i < |rs| ==>
      (rs[i] in InRange(rs, start, end) <==>
       !Dates.ChronoLess(rs[i].date, start) && !Dates.ChronoLess(end, rs[i].date))
  {
    var r := InRange(rs, start, end);
    InRangeSpec(rs, start, end);
    forall i | 0 <= i < |rs|
      ensures rs[i] in r <==> !Dates.ChronoLess(rs[i].date, start) && !Dates.ChronoLess(end, rs[i].date)
    {
      Dates.InRangeIsChronological(rs[i].date, start, end);
      if rs[i] in r {
        var j :| 0 <= j < |r| && r[j] == rs[i];
      }
    }
  }

  /** Deleting an absent Id fails with "Attendance record not found". */
  lemma RemoveMissing(rs: seq<AttendanceRecord>, id: int)
    requires forall k :: 0 <= k < |rs| ==> rs[k].Id != id
    ensures Remove(rs, id) == Failure(RecordNotFound)
  {
  }

  /** Deleting a present Id removes exactly its first record, returns it, and keeps the
      others in their order. */
  lemma RemoveFirstMatch(rs: seq<AttendanceRecord>, id: int, k: nat)
    requires k < |rs| && rs[k].Id == id
    requires forall j :: 0 <= j < k ==> rs[j].Id != id
    ensures Remove(rs, id) == Success(Removed(rs[..k] + rs[k + 1..], rs[k]))
    ensures |rs[..k] + rs[k + 1..]| == |rs| - 1
    ensures IsSubsequence(rs[..k] + rs[k + 1..], rs)
  {
    RemoveAtIsSubsequence(rs, k);
  }

  /** The ledger: the service's module-level `attendanceRecords` array. */
  class AttendanceLedger {
    var records: seq<AttendanceRecord>

    /** The store starts as a copy of the seed data. */
    constructor (seed: seq<AttendanceRecord>)
      ensures records == seed
    {
      records := seed;
    }

    method GetAll() returns (r: seq<AttendanceRecord>)
      ensures r == records
    {
      r := records;
    }

    method GetByDate(date: string) returns (r: seq<AttendanceRecord>)
      ensures r == OnDate(records, date)
    {
      r := Filter(records, OnDay(date));
    }

    method GetByStudentId(studentId: int) returns (r: seq<AttendanceRecord>)
      ensures r == ForStudent(records, studentId)
    {
      r := Filter(records, OfStudent(studentId));
    }

    /** `getTodaysAttendance`: the records of `today`, the clock's current date. */
    method GetTodaysAttendance(today: string) returns (r: seq<AttendanceRecord>)
      ensures r == OnDate(records, today)
    {
      r := Filter(records, OnDay(today));
    }

    method MarkAttendance(studentId: int, date: string, lectureSlot: Slot, present: bool, notes: string)
      returns (record: AttendanceRecord)
      modifies this
      ensures Marked(records, record) == Upsert(old(records), MarkItem(studentId, date, lectureSlot, present, notes))
    {
      var existingIndex := FindIndex(records, Key(studentId, date));
      if existingIndex != -1 {
        var existing := records[existingIndex];
        var updatedRecord := existing.With(lectureSlot, present)
                                     .(notes := if notes != "" then notes else existing.notes);
        records := records[existingIndex := updatedRecord];
        record := updatedRecord;
      } else {
        var maxId := MaxOrZero(Ids(records));
        var newRecord := AttendanceRecord(
          maxId + 1,
          studentId,
          date,
          if lectureSlot == Lecture8am then present else false,
          if lectureSlot == Lecture10am then present else false,
          if lectureSlot == Lecture1pm then present else false,
          notes);
        records := records + [newRecord];
        record := newRecord;
      }
    }

    method BulkMarkAttendance(items: seq<MarkItem>) returns (results: seq<AttendanceRecord>)
      modifies this
      ensures Bulk(records, results) == BulkUpsert(old(records), items)
    {
      results := [];
      for i := 0 to |items|
        invariant Bulk(records, results) == BulkUpsert(old(records), items[..i])
      {
        var item := items[i];
        ghost var m := Upsert(records, item);
        BulkSnoc(old(records), items, i);
        var result := MarkAttendance(item.studentId, item.date, item.lectureSlot, item.present, item.notes);
        assert records == m.ledger && result == m.record;
        results := results + [result];
      }
      assert items[..|items|] == items;
    }

    method GetAttendanceStats(start: string, end: string) returns (r: seq<AttendanceRecord>)
      ensures r == InRange(records, start, end)
    {
      r := Filter(records, Between(start, end));
    }

    method Delete(id: int) returns (r: Result<AttendanceRecord>)
      modifies this
      ensures Remove(old(records), id).Failure? ==> r == Failure(RecordNotFound) && records == old(records)
      ensures Remove(old(records), id).Success? ==>
        r == Success(Remove(old(records), id).value.record) && records == Remove(old(records), id).value.ledger
    {
      var index := FindIndex(records, (x: AttendanceRecord) => x.Id == id);
      if index == -1 {
        return Failure(RecordNotFound);
      }
      var deletedRecord := records[index];
      records := records[..index] + records[index + 1..];
      r := Success(deletedRecord);
    }
  }
}
