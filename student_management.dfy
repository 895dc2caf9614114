/** The student management page: the roster search, the add/edit form and the service call
    its submit makes. */
module StudentManagement {
  import opened Wrappers
  import opened Seqs
  import opened Text
  import opened Entities
  import StudentService
  import AttendanceGrid

  /** The `formData` object. */
  datatype FormData = FormData(name: string, rollNumber: string, email: string)

  /** The form's part of the page state: `formData`, `editingStudent` and `showAddForm`. */
  datatype FormState = FormState(formData: FormData, editingStudent: Option<Student>, showAddForm: bool)

  /** The service call a submit makes, if any. */
  datatype SubmitCall =
    | NoCall
    | UpdateCall(id: int, patch: StudentService.StudentPatch)
    | CreateCall(data: StudentService.NewStudent)

  /** The lower-cased term occurs in the lower-cased name, roll number or email. */
  predicate AnyFieldMatches(term: string, student: Student)
  {
    || Includes(ToLower(student.name), ToLower(term))
    || Includes(ToLower(student.rollNumber), ToLower(term))
    || Includes(ToLower(student.email), ToLower(term))
  }

  function MatchesTerm(term: string): Student -> bool
  {
    (student: Student) => AnyFieldMatches(term, student)
  }

  /** `filterStudents()`: everyone for an empty term, otherwise the matching students. */
  function FilterStudents(students: seq<Student>, searchTerm: string): seq<Student>
  {
    if searchTerm == [] then students else Filter(students, MatchesTerm(searchTerm))
  }

  /** The filtered list keeps exactly the matching students, each as often as it is on the
      roster, in roster order, and keeps everyone for an empty term. */
  lemma FilterStudentsSpec(students: seq<Student>, searchTerm: string)
    ensures var r := FilterStudents(students, searchTerm);
      && (searchTerm == [] ==> r == students)
      && (forall i :: 0 <= i < |r| ==> r[i] in students && AnyFieldMatches(searchTerm, r[i]))
      && (forall i :: 0 <= i < |students| && AnyFieldMatches(searchTerm, students[i]) ==> students[i] in r)
      && (forall x :: multiset(r)[x] == if AnyFieldMatches(searchTerm, x) then multiset(students)[x] else 0)
      && IsSubsequence(r, students)
  {
    FilterSpec(students, MatchesTerm(searchTerm));
    if searchTerm == [] {
      SelfIsSubsequence(students);
      forall x: Student
        ensures AnyFieldMatches(searchTerm, x)
      {
        IncludesEmpty(ToLower(x.name));
      }
    }
  }

  /** The management search also looks at emails, so it shows every student the marking
      grid's search shows for the same term. */
  lemma FindsAtLeastWhatGridFinds(students: seq<Student>, searchTerm: string)
    ensures forall i :: 0 <= i < |AttendanceGrid.FilterStudents(students, searchTerm)| ==>
      AttendanceGrid.FilterStudents(students, searchTerm)[i] in FilterStudents(students, searchTerm)
    ensures |AttendanceGrid.FilterStudents(students, searchTerm)| <= |FilterStudents(students, searchTerm)|
  {
    if searchTerm != [] {
      AttendanceGrid.FilterStudentsSpec(students, searchTerm);
      FilterStudentsSpec(students, searchTerm);
      var grid := AttendanceGrid.FilterStudents(students, searchTerm);
      forall i | 0 <= i < |grid|
        ensures grid[i] in FilterStudents(students, searchTerm)
      {
        var j :| 0 <= j < |students| && students[j] == grid[i];
        assert AnyFieldMatches(searchTerm, students[j]);
      }
      CountMonotone(students, AttendanceGrid.MatchesTerm(searchTerm), MatchesTerm(searchTerm));
    }
  }

  /** `handleSubmit`: nothing when a field is empty; otherwise `update` of the student being
      edited, or `create`, with the form's fields. */
  function Submit(state: FormState): (call: SubmitCall)
    ensures call.NoCall? <==>
      state.formData.name == [] || state.formData.rollNumber == [] || state.formData.email == []
    ensures call.UpdateCall? <==> !call.NoCall? && state.editingStudent.Some?
    ensures call.UpdateCall? ==> call.id == state.editingStudent.value.Id
    ensures call.CreateCall? ==> call.data.Id.None?
  {
    var f := state.formData;
    if f.name == [] || f.rollNumber == [] || f.email == [] then NoCall
    else match state.editingStudent
      case Some(s) => UpdateCall(s.Id, StudentService.StudentPatch(None, Some(f.name), Some(f.rollNumber), Some(f.email)))
      case None => CreateCall(StudentService.NewStudent(None, f.name, f.rollNumber, f.email))
  }

  /** A filled-in form for a new student appends a student with a fresh Id and exactly the
      form's fields. */
  lemma SubmitNewStudent(roster: seq<Student>, state: FormState)
    requires state.editingStudent.None?
    requires state.formData.name != [] && state.formData.rollNumber != [] && state.formData.email != []
    ensures Submit(state).CreateCall?
    ensures var c := StudentService.RosterCreate(roster, Submit(state).data);
      && c.roster == roster + [c.student]
      && (forall i :: 0 <= i < |roster| ==> roster[i].Id < c.student.Id)
      && c.student == Student(c.student.Id, state.formData.name, state.formData.rollNumber, state.formData.email)
  {
    StudentService.CreateAllocatesFreshId(roster, Submit(state).data);
  }

  /** A filled-in form for a student on the roster rewrites that student with the form's
      fields and keeps its Id. */
  lemma SubmitEditedStudent(roster: seq<Student>, state: FormState, k: nat)
    requires state.editingStudent.Some?
    requires state.formData.name != [] && state.formData.rollNumber != [] && state.formData.email != []
    requires k < |roster| && roster[k].Id == state.editingStudent.value.Id
    requires forall j :: 0 <= j < k ==> roster[j].Id != state.editingStudent.value.Id
    ensures Submit(state).UpdateCall?
    ensures var call := Submit(state);
      var r := StudentService.RosterUpdate(roster, call.id, call.patch);
      && r.Success?
      && r.value.roster == roster[k := Student(roster[k].Id, state.formData.name, state.formData.rollNumber, state.formData.email)]
  {
    var call := Submit(state);
    StudentService.UpdateInPlace(roster, call.id, call.patch, k);
  }

  /** The all-empty form. */
  const EmptyForm := FormData("", "", "")

  /** `resetForm()`. */
  function ResetForm(state: FormState): (next: FormState)
    ensures next.formData.name == [] && next.formData.rollNumber == [] && next.formData.email == []
    ensures next.editingStudent.None? && !next.showAddForm
  {
    FormState(EmptyForm, None, false)
  }

  /** After a reset, submitting makes no call. */
  lemma SubmitAfterResetDoesNothing(state: FormState)
    ensures Submit(ResetForm(state)) == NoCall
  {
  }

  /** `handleEdit(student)`: the form shows the student's fields and remembers the student. */
  function HandleEdit(state: FormState, student: Student): (next: FormState)
    ensures next.editingStudent == Some(student) && next.showAddForm
    ensures next.formData.name == student.name && next.formData.rollNumber == student.rollNumber
    ensures next.formData.email == student.email
  {
    FormState(FormData(student.name, student.rollNumber, student.email), Some(student), true)
  }

  /** Opening a roster student for editing and submitting without changes leaves the roster
      as it was. */
  lemma EditUnchangedIsNoOp(roster: seq<Student>, state: FormState, k: nat)
    requires k < |roster|
    requires forall j :: 0 <= j < k ==> roster[j].Id != roster[k].Id
    requires roster[k].name != [] && roster[k].rollNumber != [] && roster[k].email != []
    ensures var call := Submit(HandleEdit(state, roster[k]));
      && call.UpdateCall?
      && StudentService.RosterUpdate(roster, call.id, call.patch) ==
           Success(StudentService.Changed(roster, roster[k]))
  {
    var edited := HandleEdit(state, roster[k]);
    SubmitEditedStudent(roster, edited, k);
    assert roster[k := roster[k]] == roster;
  }
}
