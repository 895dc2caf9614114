/** The two stored entities, the three lecture slots, and the integer percentage rule
    shared by every screen. */
module Entities {

  /** The three daily lectures, keyed `lecture8am`, `lecture10am` and `lecture1pm` in records. */
  datatype Slot = Lecture8am | Lecture10am | Lecture1pm

  /** One student's attendance on one date. */
  datatype AttendanceRecord = AttendanceRecord(
    Id: int,
    studentId: int,
    date: string,
    lecture8am: bool,
    lecture10am: bool,
    lecture1pm: bool,
    notes: string)
  {
    /** `record[slot]`. */
    function Get(slot: Slot): bool
    {
      match slot
      case Lecture8am => lecture8am
      case Lecture10am => lecture10am
      case Lecture1pm => lecture1pm
    }

    /** `{ ...record, [slot]: v }`. */
    function With(slot: Slot, v: bool): (r: AttendanceRecord)
      ensures r.Get(slot) == v
      ensures forall other :: other != slot ==> r.Get(other) == Get(other)
      ensures r.Id == Id && r.studentId == studentId && r.date == date && r.notes == notes
    {
      match slot
      case Lecture8am => this.(lecture8am := v)
      case Lecture10am => this.(lecture10am := v)
      case Lecture1pm => this.(lecture1pm := v)
    }

    /** `[lecture8am, lecture10am, lecture1pm].filter(Boolean).length`. */
    function PresentCount(): (n: nat)
      ensures n <= 3
      ensures n == 0 <==> !lecture8am && !lecture10am && !lecture1pm
      ensures n == 3 <==> lecture8am && lecture10am && lecture1pm
    {
      (if lecture8am then 1 else 0) + (if lecture10am then 1 else 0) + (if lecture1pm then 1 else 0)
    }
  }

  /** 8am and 1pm attended, 10am skipped. */
  predicate SkipsMiddle(r: AttendanceRecord)
  {
    r.lecture8am && !r.lecture10am && r.lecture1pm
  }

  /** Only the 1pm lecture attended. */
  predicate OnlyAfternoon(r: AttendanceRecord)
  {
    !r.lecture8am && !r.lecture10am && r.lecture1pm
  }

  /** One or two of the three lectures attended. */
  predicate IsPartial(r: AttendanceRecord)
  {
    0 < r.PresentCount() < 3
  }

  /** A roster entry. */
  datatype Student = Student(Id: int, name: string, rollNumber: string, email: string)

  /** `Math.round(a / b)` for b > 0, in exact integers: the nearest integer, halves rounded up. */
  function RoundDiv(a: int, b: int): (r: int)
    requires b > 0
    ensures 2 * b * r - b <= 2 * a < 2 * b * r + b
  {
    (2 * a + b) / (2 * b)
  }

  /** `total > 0 ? Math.round(part / total * 100) : 0`. */
  function Percent(part: nat, total: nat): (r: int)
    ensures total == 0 ==> r == 0
    ensures total > 0 ==> 2 * total * r - total <= 200 * part < 2 * total * r + total
    ensures part <= total ==> 0 <= r <= 100
  {
    if total == 0 then 0
    else
      var r := RoundDiv(100 * part, total);
      PercentBounds(part, total, r);
      r
  }

  lemma PercentBounds(part: nat, total: nat, r: int)
    requires total > 0
    requires 2 * total * r - total <= 200 * part < 2 * total * r + total
    ensures part <= total ==> 0 <= r <= 100
  {
    if part <= total {
      assert total * (2 * r - 201) <= 0 by {
        assert 200 * part <= 200 * total;
      }
      assert total * (2 * r + 1) > 0;
      SignOfProduct(total, 2 * r - 201);
      SignOfProduct(total, -(2 * r + 1));
    }
  }

  lemma SignOfProduct(t: int, k: int)
    requires t > 0 && t * k <= 0
    ensures k <= 0
  {
  }
}
