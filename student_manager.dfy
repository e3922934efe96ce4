/**
 * StudentManagerImpl: validation of Student records and the create, update,
 * delete and read operations on the STUDENT table of its data source.
 */
module StudentManagement {
  import opened Common
  import opened Students
  import opened Store

  // ---------------------------------------------------------------------
  // Validation
  // ---------------------------------------------------------------------

  /** The character class [a-zA-Z ]. */
  predicate IsNameChar(c: char) {
    'a' <= c <= 'z' || 'A' <= c <= 'Z' || c == ' '
  }

  /** Pattern.matches("[a-zA-Z ]+", s): the whole string is one or more
      characters of the class, matched one repetition at a time. */
  function MatchesNamePattern(s: string): (r: bool)
    ensures r <==> |s| > 0 && forall i :: 0 <= i < |s| ==> IsNameChar(s[i])
  {
    if |s| <= 1 then |s| == 1 && IsNameChar(s[0])
    else
      assert forall i :: 1 <= i < |s| ==> s[i] == s[1..][i - 1];
      IsNameChar(s[0]) && MatchesNamePattern(s[1..])
  }

  /** A name or surname that validate accepts. */
  predicate ValidNamePart(part: Option<string>) {
    part.Some? && MatchesNamePattern(part.value)
  }

  /** The checks of validate after the null test, in the order they run. */
  datatype StudentCheck =
    NameNotNull | SurnameNotNull | NameNotEmpty | SurnameNotEmpty | NameMatches | SurnameMatches

  const StudentChecks: seq<StudentCheck> :=
    [NameNotNull, SurnameNotNull, NameNotEmpty, SurnameNotEmpty, NameMatches, SurnameMatches]

  predicate Holds(c: StudentCheck, v: StudentValue) {
    match c
    case NameNotNull => v.name.Some?
    case SurnameNotNull => v.surname.Some?
    case NameNotEmpty => v.name != Some("")
    case SurnameNotEmpty => v.surname != Some("")
    case NameMatches => ValidNamePart(v.name)
    case SurnameMatches => ValidNamePart(v.surname)
  }

  /** The message of the ValidationException a failed check raises. */
  function CheckMessage(c: StudentCheck): string {
    match c
    case NameNotNull => "student name is null"
    case SurnameNotNull => "student surname is null"
    case NameNotEmpty => "student name is empty"
    case SurnameNotEmpty => "student surname is empty"
    case NameMatches => "student name does not contain only characters"
    case SurnameMatches => "student surname does not contain only characters"
  }

  const StudentIsNull := "student is null"

  /** StudentManagerImpl.validate: accepts a non-null student whose name and
      surname are set and consist of letters and spaces; otherwise reports
      the first check that fails. */
  function Validate(student: Student?): (r: Outcome)
    reads student
    ensures r.Pass? <==> student != null && ValidNamePart(student.name) && ValidNamePart(student.surname)
    ensures student == null ==> r == Fail(IllegalArgument(StudentIsNull))
    ensures student != null && r.Fail? ==>
      exists i :: 0 <= i < |StudentChecks| &&
        r.error == Validation(CheckMessage(StudentChecks[i])) &&
        !Holds(StudentChecks[i], student.View()) &&
        forall j :: 0 <= j < i ==> Holds(StudentChecks[j], student.View())
  {
    if student == null then Fail(IllegalArgument(StudentIsNull))
    else
      var v := student.View();
      var checks := StudentChecks;
      if v.name.None? then assert checks[0] == NameNotNull; Fail(Validation(CheckMessage(NameNotNull)))
      else if v.surname.None? then assert checks[1] == SurnameNotNull; Fail(Validation(CheckMessage(SurnameNotNull)))
      else if v.name.value == "" then assert checks[2] == NameNotEmpty; Fail(Validation(CheckMessage(NameNotEmpty)))
      else if v.surname.value == "" then assert checks[3] == SurnameNotEmpty; Fail(Validation(CheckMessage(SurnameNotEmpty)))
      else if !MatchesNamePattern(v.name.value) then assert checks[4] == NameMatches; Fail(Validation(CheckMessage(NameMatches)))
      else if !MatchesNamePattern(v.surname.value) then assert checks[5] == SurnameMatches; Fail(Validation(CheckMessage(SurnameMatches)))
      else Pass
  }

  // ---------------------------------------------------------------------
  // Generated keys and affected-row counts
  // ---------------------------------------------------------------------

  /** DBUtils.checkUpdatesCount(count, entity, false), which is not part of
      this model: it lets a count of one through and rejects any other count
      with an error whose kind is not known here. */
  function CheckUpdatesCount(count: int): (r: Outcome)
    ensures r.Pass? <==> count == 1
    ensures r.Fail? ==> r.error == UpdatesCountRejected(count)
  {
    if count == 1 then Pass else Fail(UpdatesCountRejected(count))
  }

  /** getKey's failure texts, as the source concatenates them, without the
      entity's string form and the column count. */
  const KeyFailures := KeyMessages(
    "Internal Error: Generated keyretriving failed when trying to insert student - no key found",
    "Internal Error: Generated keyretriving failed when trying to insert student - wrong key fields count",
    "Internal Error: Generated keyretriving failed when trying to insert student - more keys found")

  const MoreRowsInserted := "Internal Error: More rows inserted when trying to insert student"
  const StudentIdAlreadySet := "student id is already set"
  const StudentIdIsNull := "student id is null"
  const IdIsNull := "id is null"

  // ---------------------------------------------------------------------
  // Reading rows back as objects
  // ---------------------------------------------------------------------

  /** The field values of the Student object built from the row stored under `id`. */
  function StudentRead(id: int, row: StudentRow): StudentValue {
    StudentValue(Some(id), Some(row.name), Some(row.surname))
  }

  /** Writing a student's name and surname as a row and reading that row
      back under key `k` gives the student's own values with id `k`. */
  lemma ReadAfterWrite(v: StudentValue, k: int)
    requires v.name.Some? && v.surname.Some?
    ensures StudentRead(k, StudentRow(v.name.value, v.surname.value)) == v.(id := Some(k))
  {
  }

  /** resultSetToStudent: a new Student filled from one row through its setters. */
  method ResultSetToStudent(id: int, row: StudentRow) returns (student: Student)
    ensures fresh(student)
    ensures student.View() == StudentRead(id, row)
  {
    student := new Student();
    student.SetId(Some(id));
    student.SetName(Some(row.name));
    student.SetSurname(Some(row.surname));
  }

  /** Every stored student satisfies the rule validate enforces. */
  ghost predicate StudentRowsValid(students: map<int, StudentRow>) {
    forall k :: k in students ==>
      MatchesNamePattern(students[k].name) && MatchesNamePattern(students[k].surname)
  }

  /** In a table of valid rows, every student read back passes validate's checks. */
  lemma StoredStudentsValidate(students: map<int, StudentRow>, k: int)
    requires StudentRowsValid(students) && k in students
    ensures ValidNamePart(StudentRead(k, students[k]).name) && ValidNamePart(StudentRead(k, students[k]).surname)
  {
  }

  // ---------------------------------------------------------------------
  // The manager
  // ---------------------------------------------------------------------

  class StudentManager {
    var dataSource: Database?

    /** `new StudentManagerImpl()`: no data source yet. */
    constructor ()
      ensures dataSource == null
    {
      dataSource := null;
    }

    method SetDataSource(dataSource: Database?)
      modifies this
      ensures this.dataSource == dataSource
    {
      this.dataSource := dataSource;
    }

    ghost predicate Valid()
      reads this, dataSource
    {
      dataSource != null ==> dataSource.Valid()
    }

    /** checkDataSource: every operation starts with it. */
    function CheckDataSource(): (r: Outcome)
      reads this
      ensures r.Pass? <==> dataSource != null
      ensures r.Fail? ==> r.error == IllegalState(NoDataSource)
    {
      if dataSource == null then Fail(IllegalState(NoDataSource)) else Pass
    }

    /** createStudent: after the data-source check, validation and the check
        that no id is set, inserts one row with the student's name and
        surname under a fresh id and writes that id into the student. Every
        failure leaves the table and the student as they were. */
    method CreateStudent(student: Student?) returns (r: Outcome)
      requires Valid()
      modifies dataSource, student
      ensures Valid()
      ensures r.Pass? <==> dataSource != null && old(Validate(student)).Pass? && old(student.id).None?
      ensures r.Fail? ==>
        r.error == (if dataSource == null then IllegalState(NoDataSource)
                    else if old(Validate(student)).Fail? then old(Validate(student)).error
                    else IllegalEntity(StudentIdAlreadySet))
      ensures r.Fail? ==> (dataSource != null ==> unchanged(dataSource)) && (student != null ==> unchanged(student))
      ensures r.Pass? ==>
        && student.name == old(student.name) && student.surname == old(student.surname)
        && student.id.Some? && student.id.value !in old(dataSource.students)
        && student.id.value == old(dataSource.nextStudentId)
        && dataSource.nextStudentId == old(dataSource.nextStudentId) + 1
        && dataSource.nextThesisId == old(dataSource.nextThesisId)
        && dataSource.students == old(dataSource.students)[student.id.value := StudentRow(student.name.value, student.surname.value)]
        && dataSource.theses == old(dataSource.theses)
      ensures dataSource != null && old(StudentRowsValid(dataSource.students)) ==> StudentRowsValid(dataSource.students)
    {
      r := CheckDataSource();
      if r.Fail? { return; }
      r := Validate(student);
      if r.Fail? { return; }
      if student.id.Some? {
        r := Fail(IllegalEntity(StudentIdAlreadySet));
        return;
      }
      var addedRows, keyRS := dataSource.InsertStudent(StudentRow(student.name.value, student.surname.value));
      if addedRows != 1 {
        r := Fail(ServiceFailure(MoreRowsInserted));
        return;
      }
      match GetKey(keyRS, KeyFailures)
      case Err(e) =>
        r := Fail(e);
      case Ok(key) =>
        student.SetId(Some(key));
        r := Pass;
    }

    /** updateStudent: after the data-source check, validation and the check
        that the id is set, replaces the name and surname of the row with the
        student's id and of no other row; an id that is not in the table
        affects no row, which checkUpdatesCount rejects. */
    method UpdateStudent(student: Student?) returns (r: Outcome)
      requires Valid()
      modifies dataSource
      ensures Valid()
      ensures r.Pass? <==>
        dataSource != null && Validate(student).Pass? && student.id.Some? && student.id.value in old(dataSource.students)
      ensures r.Fail? ==>
        r.error == (if dataSource == null then IllegalState(NoDataSource)
                    else if Validate(student).Fail? then Validate(student).error
                    else if student.id.None? then IllegalEntity(StudentIdIsNull)
                    else UpdatesCountRejected(0))
      ensures r.Fail? ==> dataSource != null ==> unchanged(dataSource)
      ensures r.Pass? ==>
        && dataSource.students == old(dataSource.students)[student.id.value := StudentRow(student.name.value, student.surname.value)]
        && dataSource.theses == old(dataSource.theses)
        && dataSource.nextStudentId == old(dataSource.nextStudentId)
        && dataSource.nextThesisId == old(dataSource.nextThesisId)
      ensures dataSource != null && old(StudentRowsValid(dataSource.students)) ==> StudentRowsValid(dataSource.students)
    {
      r := CheckDataSource();
      if r.Fail? { return; }
      r := Validate(student);
      if r.Fail? { return; }
      if student.id.None? {
        r := Fail(IllegalEntity(StudentIdIsNull));
        return;
      }
      var count := dataSource.UpdateStudent(student.id.value, StudentRow(student.name.value, student.surname.value));
      r := CheckUpdatesCount(count);
    }

    /** deleteStudent: after the data-source check and the checks that the
        student and its id are set, removes the row with that id and no
        other; an id that is not in the table affects no row, which
        checkUpdatesCount rejects. */
    method DeleteStudent(student: Student?) returns (r: Outcome)
      requires Valid()
      modifies dataSource
      ensures Valid()
      ensures r.Pass? <==>
        dataSource != null && student != null && student.id.Some? && student.id.value in old(dataSource.students)
      ensures r.Fail? ==>
        r.error == (if dataSource == null then IllegalState(NoDataSource)
                    else if student == null then IllegalArgument(StudentIsNull)
                    else if student.id.None? then IllegalEntity(StudentIdIsNull)
                    else UpdatesCountRejected(0))
      ensures r.Fail? ==> dataSource != null ==> unchanged(dataSource)
      ensures r.Pass? ==>
        && dataSource.students == old(dataSource.students) - {student.id.value}
        && dataSource.theses == old(dataSource.theses)
        && dataSource.nextStudentId == old(dataSource.nextStudentId)
        && dataSource.nextThesisId == old(dataSource.nextThesisId)
      ensures dataSource != null && old(StudentRowsValid(dataSource.students)) ==> StudentRowsValid(dataSource.students)
    {
      r := CheckDataSource();
      if r.Fail? { return; }
      if student == null {
        r := Fail(IllegalArgument(StudentIsNull));
        return;
      }
      if student.id.None? {
        r := Fail(IllegalEntity(StudentIdIsNull));
        return;
      }
      var count := dataSource.DeleteStudent(student.id.value);
      r := CheckUpdatesCount(count);
    }

    /** getStudentById: a new Student built from the row with that id, or
        null when there is none. */
    method GetStudentById(id: Option<int>) returns (r: Result<Student?>)
      ensures r.Ok? <==> dataSource != null && id.Some?
      ensures r.Err? ==> r.error == if dataSource == null then IllegalState(NoDataSource) else IllegalArgument(IdIsNull)
      ensures r.Ok? ==> (r.value == null <==> id.value !in dataSource.students)
      ensures r.Ok? && r.value != null ==>
        fresh(r.value) && r.value.View() == StudentRead(id.value, dataSource.students[id.value])
      ensures r.Ok? && r.value != null && StudentRowsValid(dataSource.students) ==> Validate(r.value).Pass?
    {
      var c := CheckDataSource();
      if c.Fail? { return Err(c.error); }
      if id.None? { return Err(IllegalArgument(IdIsNull)); }
      if id.value in dataSource.students {
        var student := ResultSetToStudent(id.value, dataSource.students[id.value]);
        r := Ok(student);
      } else {
        r := Ok(null);
      }
    }

    /** findAllStudents: one new Student per row of the table, in the order
        the query yields the rows, which the database does not fix. */
    method FindAllStudents() returns (r: Result<seq<Student>>)
      ensures r.Err? <==> dataSource == null
      ensures r.Err? ==> r.error == IllegalState(NoDataSource)
      ensures r.Ok? ==>
        var students := dataSource.students;
        && |r.value| == |students|
        && (forall i :: 0 <= i < |r.value| ==>
              && fresh(r.value[i])
              && r.value[i].id.Some? && r.value[i].id.value in students
              && r.value[i].View() == StudentRead(r.value[i].id.value, students[r.value[i].id.value]))
        && (forall i, j :: 0 <= i < j < |r.value| ==> r.value[i].id != r.value[j].id)
        && (forall k :: k in students ==> exists i :: 0 <= i < |r.value| && r.value[i].id == Some(k))
    {
      var c := CheckDataSource();
      if c.Fail? { return Err(c.error); }
      var rows := dataSource.students;
      var remaining := rows.Keys;
      var result: seq<Student> := [];
      ghost var order: seq<int> := [];  // the ids in the order the rows came
      while remaining != {}
        invariant remaining <= rows.Keys
        invariant |result| == |order| && |order| + |remaining| == |rows|
        invariant forall i :: 0 <= i < |order| ==>
          && order[i] in rows && order[i] !in remaining
          && fresh(result[i])
          && result[i].View() == StudentRead(order[i], rows[order[i]])
        invariant forall i, j :: 0 <= i < j < |order| ==> order[i] != order[j]
        invariant forall k :: k in rows && k !in remaining ==> k in order
        decreases remaining
      {
        var k := NextRow(remaining);
        var student := ResultSetToStudent(k, rows[k]);
        result, order := result + [student], order + [k];
        remaining := remaining - {k};
      }
      r := Ok(result);
    }
  }
}
