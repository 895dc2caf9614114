/** The charts page: the selection of students whose trends are shown, and the per-slot
    averages under the chart. */
module AttendanceCharts {
  import opened Wrappers
  import opened Seqs
  import opened Entities

  /** One point of the chart data: a date and the attendance percentage of each lecture. */
  datatype TrendPoint = TrendPoint(date: string, lecture8am: int, lecture10am: int, lecture1pm: int)

  /** The three averages of the summary cards. */
  datatype Averages = Averages(average8am: int, average10am: int, average1pm: int)

  /** The test `id => id !== studentId`. */
  function Other(studentId: int): int -> bool
  {
    (id: int) => id != studentId
  }

  /** `handleStudentToggle(studentId)`: remove the id if it is selected, otherwise append it. */
  function ToggleStudent(prev: seq<int>, studentId: int): (next: seq<int>)
    ensures studentId in next <==> studentId !in prev
  {
    if studentId in prev then
      FilterSpec(prev, Other(studentId));
      Filter(prev, Other(studentId))
    else prev + [studentId]
  }

  /** An unselected id is appended at the end. */
  lemma ToggleAppends(prev: seq<int>, studentId: int)
    requires studentId !in prev
    ensures ToggleStudent(prev, studentId) == prev + [studentId]
  {
  }

  /** A selected id is removed with all its occurrences; every other id keeps its order and
      its number of occurrences. */
  lemma ToggleRemoves(prev: seq<int>, studentId: int)
    requires studentId in prev
    ensures var next := ToggleStudent(prev, studentId);
      && studentId !in next
      && IsSubsequence(next, prev)
      && (forall i :: 0 <= i < |prev| && prev[i] != studentId ==> prev[i] in next)
      && (forall x :: x != studentId ==> multiset(next)[x] == multiset(prev)[x])
      && |next| < |prev|
  {
    FilterSpec(prev, Other(studentId));
    var i :| 0 <= i < |prev| && prev[i] == studentId;
    RemovesOne(prev, studentId, i);
  }

  /** Filtering out an element that occurs makes the sequence shorter. */
  lemma {:induction false} RemovesOne(s: seq<int>, x: int, i: nat)
    requires i < |s| && s[i] == x
    ensures |Filter(s, Other(x))| < |s|
  {
    if i > 0 {
      RemovesOne(s[1..], x, i - 1);
    }
  }

  /** Toggling an unselected id twice gives the selection back. */
  lemma ToggleTwice(prev: seq<int>, studentId: int)
    requires studentId !in prev
    ensures ToggleStudent(ToggleStudent(prev, studentId), studentId) == prev
  {
    FilterAppend(prev, [studentId], Other(studentId));
    FilterAll(prev, Other(studentId));
    assert Filter([studentId], Other(studentId)) == [];
  }

  /** The "Select All" button: the roster Ids in roster order. */
  function SelectAll(students: seq<Student>): (selected: seq<int>)
    ensures |selected| == |students|
    ensures forall i :: 0 <= i < |students| ==> selected[i] == students[i].Id
  {
    Map(students, (s: Student) => s.Id)
  }

  /** The "Clear All" button. */
  function ClearAll(): (selected: seq<int>)
    ensures selected == []
  {
    []
  }

  /** After "Select All" every roster checkbox is checked; after "Clear All" none is. */
  lemma SelectAllChecksEveryone(students: seq<Student>)
    ensures forall i :: 0 <= i < |students| ==> students[i].Id in SelectAll(students)
    ensures forall i :: 0 <= i < |students| ==> students[i].Id !in ClearAll()
  {
    var all := SelectAll(students);
    forall i | 0 <= i < |students|
      ensures students[i].Id in all
    {
      assert all[i] == students[i].Id;
    }
  }

  /** `selectedStudents.length > 0 ? selectedStudents : null`. */
  function StudentIdsArgument(selected: seq<int>): (arg: Option<seq<int>>)
    ensures arg.None? <==> selected == []
    ensures arg.Some? ==> arg.value == selected
  {
    if |selected| > 0 then Some(selected) else None
  }

  /** The chart value of `slot` at a point. */
  function Value(point: TrendPoint, slot: Slot): int
  {
    match slot
    case Lecture8am => point.lecture8am
    case Lecture10am => point.lecture10am
    case Lecture1pm => point.lecture1pm
  }

  /** `chartData.reduce((sum, item) => sum + item[slot], 0)`. */
  function SlotSum(chartData: seq<TrendPoint>, slot: Slot): int
  {
    if chartData == [] then 0
    else SlotSum(chartData[..|chartData| - 1], slot) + Value(chartData[|chartData| - 1], slot)
  }

  /** Every value of `slot` in the data lies in `[lo, hi]`. */
  predicate ValuesWithin(chartData: seq<TrendPoint>, slot: Slot, lo: int, hi: int)
  {
    forall i :: 0 <= i < |chartData| ==> lo <= Value(chartData[i], slot) <= hi
  }

  /** Values within bounds add up to a sum within `n` times the bounds. */
  lemma {:induction false} SlotSumBounds(chartData: seq<TrendPoint>, slot: Slot, lo: int, hi: int)
    requires ValuesWithin(chartData, slot, lo, hi)
    ensures lo * |chartData| <= SlotSum(chartData, slot) <= hi * |chartData|
  {
    if chartData != [] {
      var n := |chartData| - 1;
      assert ValuesWithin(chartData[..n], slot, lo, hi) by {
        forall i | 0 <= i < n
          ensures lo <= Value(chartData[..n][i], slot) <= hi
        {
          assert chartData[..n][i] == chartData[i];
        }
      }
      SlotSumBounds(chartData[..n], slot, lo, hi);
      assert lo * (n + 1) == lo * n + lo && hi * (n + 1) == hi * n + hi;
    }
  }

  /** `Math.round(chartData.reduce(…) / chartData.length)`, on non-empty data. */
  function SlotAverage(chartData: seq<TrendPoint>, slot: Slot): (avg: int)
    requires |chartData| > 0
    ensures 2 * |chartData| * avg - |chartData| <= 2 * SlotSum(chartData, slot) < 2 * |chartData| * avg + |chartData|
  {
    RoundDiv(SlotSum(chartData, slot), |chartData|)
  }

  /** The average lies between the smallest and the largest possible value: with
      percentages as values it is a percentage. */
  lemma AverageWithinBounds(chartData: seq<TrendPoint>, slot: Slot, lo: int, hi: int)
    requires |chartData| > 0
    requires ValuesWithin(chartData, slot, lo, hi)
    ensures lo <= SlotAverage(chartData, slot) <= hi
  {
    var n := |chartData|;
    var avg := SlotAverage(chartData, slot);
    SlotSumBounds(chartData, slot, lo, hi);
    RoundedWithin(SlotSum(chartData, slot), n, avg, lo, hi);
  }

  lemma RoundedWithin(sum: int, n: int, avg: int, lo: int, hi: int)
    requires n > 0
    requires 2 * n * avg - n <= 2 * sum < 2 * n * avg + n
    requires lo * n <= sum <= hi * n
    ensures lo <= avg <= hi
  {
    assert n * (2 * avg - 2 * hi - 1) <= 0;
    assert n * (2 * lo - 2 * avg - 1) < 0;
    SignOfProduct(n, 2 * avg - 2 * hi - 1);
    SignOfProduct(n, 2 * lo - 2 * avg - 1);
  }

  /** The summary cards: shown only when the chart data is non-empty. */
  function SummaryAverages(chartData: seq<TrendPoint>): (r: Option<Averages>)
    ensures r.None? <==> chartData == []
    ensures r.Some? ==>
      && r.value.average8am == SlotAverage(chartData, Lecture8am)
      && r.value.average10am == SlotAverage(chartData, Lecture10am)
      && r.value.average1pm == SlotAverage(chartData, Lecture1pm)
  {
    if |chartData| > 0 then
      Some(Averages(SlotAverage(chartData, Lecture8am), SlotAverage(chartData, Lecture10am), SlotAverage(chartData, Lecture1pm)))
    else None
  }

  /** A slot with the same value at every point averages to that value. */
  lemma ConstantAverage(chartData: seq<TrendPoint>, slot: Slot, v: int)
    requires |chartData| > 0
    requires forall i :: 0 <= i < |chartData| ==> Value(chartData[i], slot) == v
    ensures SlotAverage(chartData, slot) == v
  {
    AverageWithinBounds(chartData, slot, v, v);
  }
}
