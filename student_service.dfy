/** The roster: a module-level array of students with create, read, update and delete. */
module StudentService {
  import opened Wrappers
  import opened Seqs
  import opened Entities

  const StudentNotFound := "Student not found"

  /** The object passed to `create`. Its fields are spread after the allocated Id, so an
      `Id` it carries wins over the allocated one. */
  datatype NewStudent = NewStudent(Id: Option<int>, name: string, rollNumber: string, email: string)

  /** The object passed to `update`: only the fields it carries overwrite the stored ones,
      and an `Id` it carries is ignored. */
  datatype StudentPatch = StudentPatch(Id: Option<int>, name: Option<string>, rollNumber: Option<string>, email: Option<string>)

  datatype Created = Created(roster: seq<Student>, student: Student)
  datatype Changed = Changed(roster: seq<Student>, student: Student)

  function Ids(ss: seq<Student>): seq<int>
  {
    Map(ss, (s: Student) => s.Id)
  }

  ghost predicate DistinctIds(ss: seq<Student>)
  {
    forall i, j :: 0 <= i < j < |ss| ==> ss[i].Id != ss[j].Id
  }

  function HasId(id: int): Student -> bool
  {
    (s: Student) => s.Id == id
  }

  /** `Math.max(...students.map(s => s.Id), 0) + 1`: above every Id in the roster. */
  function NextId(ss: seq<Student>): (id: int)
    ensures id >= 1
    ensures forall i :: 0 <= i < |ss| ==> ss[i].Id < id
    ensures ss == [] ==> id == 1
    ensures id == 1 || exists i :: 0 <= i < |ss| && ss[i].Id == id - 1
  {
    var ids := Ids(ss);
    assert forall i :: 0 <= i < |ss| ==> ids[i] == ss[i].Id && ids[i] in ids;
    MaxOrZero(ids) + 1
  }

  /** `getById`: the first student with the Id, or "Student not found". */
  function RosterGet(ss: seq<Student>, id: int): (r: Result<Student>)
    ensures r.Failure? <==> forall k :: 0 <= k < |ss| ==> ss[k].Id != id
    ensures r.Failure? ==> r.error == StudentNotFound
    ensures r.Success? ==>
      exists k :: 0 <= k < |ss| && ss[k] == r.value && r.value.Id == id && (forall j :: 0 <= j < k ==> ss[j].Id != id)
  {
    match Find(ss, HasId(id))
    case Some(s) => Success(s)
    case None => Failure(StudentNotFound)
  }

  /** `create`: `{ Id: maxId + 1, ...studentData }` appended at the end. */
  function RosterCreate(ss: seq<Student>, data: NewStudent): Created
  {
    var s := Student(NextId(ss), data.name, data.rollNumber, data.email);
    var s := if data.Id.Some? then s.(Id := data.Id.value) else s;
    Created(ss + [s], s)
  }

  /** `{ ...students[index], ...studentData, Id: students[index].Id }`. */
  function Merge(s: Student, patch: StudentPatch): Student
  {
    Student(s.Id, patch.name.GetOr(s.name), patch.rollNumber.GetOr(s.rollNumber), patch.email.GetOr(s.email))
  }

  /** `update`: merge at the index of the first student with the Id, or "Student not found". */
  function RosterUpdate(ss: seq<Student>, id: int, patch: StudentPatch): Result<Changed>
  {
    var i := FindIndex(ss, HasId(id));
    if i == -1 then Failure(StudentNotFound)
    else
      var updated := Merge(ss[i], patch);
      Success(Changed(ss[i := updated], updated))
  }

  /** `delete`: remove the first student with the Id, or "Student not found". */
  function RosterDelete(ss: seq<Student>, id: int): Result<Changed>
  {
    var i := FindIndex(ss, HasId(id));
    if i == -1 then Failure(StudentNotFound)
    else Success(Changed(ss[..i] + ss[i + 1..], ss[i]))
  }

  /** Without an `Id` in the input, `create` appends one student whose Id is above every
      existing one and whose fields are the input's; unique Ids stay unique. */
  lemma CreateAllocatesFreshId(ss: seq<Student>, data: NewStudent)
    requires data.Id.None?
    ensures var c := RosterCreate(ss, data);
      && c.roster == ss + [c.student]
      && |c.roster| == |ss| + 1
      && (forall i :: 0 <= i < |ss| ==> ss[i].Id < c.student.Id)
      && (ss == [] ==> c.student.Id == 1)
      && (c.student.Id == 1 || exists i :: 0 <= i < |ss| && ss[i].Id == c.student.Id - 1)
      && c.student.name == data.name && c.student.rollNumber == data.rollNumber && c.student.email == data.email
      && (DistinctIds(ss) ==> DistinctIds(c.roster))
  {
  }

  /** An `Id` in the input overrides the allocated one, so it may duplicate an existing Id. */
  lemma CreateKeepsGivenId(ss: seq<Student>, data: NewStudent)
    requires data.Id.Some?
    ensures RosterCreate(ss, data).student.Id == data.Id.value
    ensures RosterCreate(ss, data).roster == ss + [RosterCreate(ss, data).student]
  {
  }

  /** A concrete roster on which `create` with an explicit Id breaks unique Ids. */
  lemma CreateWithGivenIdCanDuplicate()
    ensures var ss := [Student(1, "A", "R1", "a@x")];
      DistinctIds(ss) && !DistinctIds(RosterCreate(ss, NewStudent(Some(1), "B", "R2", "b@x")).roster)
  {
    var ss := [Student(1, "A", "R1", "a@x")];
    var c := RosterCreate(ss, NewStudent(Some(1), "B", "R2", "b@x"));
    assert c.roster[0].Id == c.roster[1].Id;
  }

  /** `update` on a missing Id fails and changes nothing. */
  lemma UpdateMissing(ss: seq<Student>, id: int, patch: StudentPatch)
    requires forall k :: 0 <= k < |ss| ==> ss[k].Id != id
    ensures RosterUpdate(ss, id, patch) == Failure(StudentNotFound)
  {
  }

  /** `update` rewrites the first student with the Id in place: the given fields are taken,
      the Id is kept, other students and the length do not change, and unique Ids stay unique. */
  lemma UpdateInPlace(ss: seq<Student>, id: int, patch: StudentPatch, k: nat)
    requires k < |ss| && ss[k].Id == id
    requires forall j :: 0 <= j < k ==> ss[j].Id != id
    ensures RosterUpdate(ss, id, patch).Success?
    ensures var c := RosterUpdate(ss, id, patch).value;
      && |c.roster| == |ss|
      && c.roster[k] == c.student
      && c.student.Id == id
      && (forall j :: 0 <= j < |ss| && j != k ==> c.roster[j] == ss[j])
      && c.student.name == (if patch.name.Some? then patch.name.value else ss[k].name)
      && c.student.rollNumber == (if patch.rollNumber.Some? then patch.rollNumber.value else ss[k].rollNumber)
      && c.student.email == (if patch.email.Some? then patch.email.value else ss[k].email)
      && (DistinctIds(ss) ==> DistinctIds(c.roster))
  {
    assert HasId(id)(ss[k]);
  }

  /** `delete` on a missing Id fails and changes nothing. */
  lemma DeleteMissing(ss: seq<Student>, id: int)
    requires forall k :: 0 <= k < |ss| ==> ss[k].Id != id
    ensures RosterDelete(ss, id) == Failure(StudentNotFound)
  {
  }

  /** `delete` removes and returns the first student with the Id; the roster shrinks by one
      and keeps the others in order. */
  lemma DeleteRemovesOne(ss: seq<Student>, id: int, k: nat)
    requires k < |ss| && ss[k].Id == id
    requires forall j :: 0 <= j < k ==> ss[j].Id != id
    ensures RosterDelete(ss, id) == Success(Changed(ss[..k] + ss[k + 1..], ss[k]))
    ensures |ss[..k] + ss[k + 1..]| == |ss| - 1
    ensures IsSubsequence(ss[..k] + ss[k + 1..], ss)
  {
    assert HasId(id)(ss[k]);
    RemoveAtIsSubsequence(ss, k);
  }

  /** The roster: the service's module-level `students` array. */
  class StudentRoster {
    var students: seq<Student>

    constructor (seed: seq<Student>)
      ensures students == seed
    {
      students := seed;
    }

    /** `getAll`: the roster contents, in order. */
    method GetAll() returns (r: seq<Student>)
      ensures r == students
    {
      r := students;
    }

    method GetById(id: int) returns (r: Result<Student>)
      ensures r == RosterGet(students, id)
    {
      var student := Find(students, HasId(id));
      if student.None? {
        return Failure(StudentNotFound);
      }
      r := Success(student.value);
    }

    method Create(data: NewStudent) returns (student: Student)
      modifies this
      ensures Created(students, student) == RosterCreate(old(students), data)
    {
      var maxId := MaxOrZero(Ids(students));
      var newStudent := Student(maxId + 1, data.name, data.rollNumber, data.email);
      if data.Id.Some? {
        newStudent := newStudent.(Id := data.Id.value);
      }
      students := students + [newStudent];
      student := newStudent;
    }

    method Update(id: int, patch: StudentPatch) returns (r: Result<Student>)
      modifies this
      ensures RosterUpdate(old(students), id, patch).Failure? ==>
        r == Failure(StudentNotFound) && students == old(students)
      ensures RosterUpdate(old(students), id, patch).Success? ==>
        var c := RosterUpdate(old(students), id, patch).value;
        r == Success(c.student) && students == c.roster
    {
      var index := FindIndex(students, HasId(id));
      if index == -1 {
        return Failure(StudentNotFound);
      }
      var updatedStudent := Merge(students[index], patch);
      students := students[index := updatedStudent];
      r := Success(updatedStudent);
    }

    method Delete(id: int) returns (r: Result<Student>)
      modifies this
      ensures RosterDelete(old(students), id).Failure? ==>
        r == Failure(StudentNotFound) && students == old(students)
      ensures RosterDelete(old(students), id).Success? ==>
        var c := RosterDelete(old(students), id).value;
        r == Success(c.student) && students == c.roster
    {
      var index := FindIndex(students, HasId(id));
      if index == -1 {
        return Failure(StudentNotFound);
      }
      var deletedStudent := students[index];
      students := students[..index] + students[index + 1..];
      r := Success(deletedStudent);
    }
  }
}
