/**
 * ThesisManagerImpl: validation of Thesis records, the create, update and
 * delete operations on the THESIS table, and the reads, which rebuild each
 * thesis's author from the STUDENT table by the stored author id.
 */
module ThesisManagement {
  import opened Common
  import opened JavaInt
  import opened Students
  import opened Theses
  import opened Store
  import StudentManagement

  // ---------------------------------------------------------------------
  // Validation
  // ---------------------------------------------------------------------

  /** The checks of validate after the null test, in the order they run. */
  datatype ThesisCheck = NameNotNull | NameNotEmpty | AuthorNotNull | YearNotNegative | TypeNotNull

  const ThesisChecks: seq<ThesisCheck> := [NameNotNull, NameNotEmpty, AuthorNotNull, YearNotNegative, TypeNotNull]

  predicate Holds(c: ThesisCheck, v: ThesisValue) {
    match c
    case NameNotNull => v.name.Some?
    case NameNotEmpty => v.name != Some("")
    case AuthorNotNull => v.author.Some?
    case YearNotNegative => v.year >= 0
    case TypeNotNull => v.thesisType.Some?
  }

  /** The message of the ValidationException a failed check raises. */
  function CheckMessage(c: ThesisCheck): string {
    match c
    case NameNotNull => "thesis name is null"
    case NameNotEmpty => "thesis name is empty"
    case AuthorNotNull => "author is null"
    case YearNotNegative => "year is negative"
    case TypeNotNull => "type is null"
  }

  const ThesisIsNull := "thesis is null"

  /** The field values validate accepts. */
  predicate ValidThesis(v: ThesisValue) {
    v.name.Some? && v.name.value != "" && v.author.Some? && v.year >= 0 && v.thesisType.Some?
  }

  /** ThesisManagerImpl.validate: accepts a non-null thesis with a
      non-empty name, an author, a year of at least 0 and a type; otherwise
      reports the first check that fails. The author's own fields are not
      checked. */
  function Validate(thesis: Thesis?): (r: Outcome)
    reads thesis, if thesis != null then {thesis.author} else {}
    ensures r.Pass? <==> thesis != null && ValidThesis(thesis.View())
    ensures thesis == null ==> r == Fail(IllegalArgument(ThesisIsNull))
    ensures thesis != null && r.Fail? ==>
      exists i :: 0 <= i < |ThesisChecks| &&
        r.error == Validation(CheckMessage(ThesisChecks[i])) &&
        !Holds(ThesisChecks[i], thesis.View()) &&
        forall j :: 0 <= j < i ==> Holds(ThesisChecks[j], thesis.View())
  {
    if thesis == null then Fail(IllegalArgument(ThesisIsNull))
    else
      var v := thesis.View();
      var checks := ThesisChecks;
      if v.name.None? then assert checks[0] == NameNotNull; Fail(Validation(CheckMessage(NameNotNull)))
      else if v.name.value == "" then assert checks[1] == NameNotEmpty; Fail(Validation(CheckMessage(NameNotEmpty)))
      else if v.author.None? then assert checks[2] == AuthorNotNull; Fail(Validation(CheckMessage(AuthorNotNull)))
      else if v.year < 0 then assert checks[3] == YearNotNegative; Fail(Validation(CheckMessage(YearNotNegative)))
      else if v.thesisType.None? then assert checks[4] == TypeNotNull; Fail(Validation(CheckMessage(TypeNotNull)))
      else Pass
  }

  // ---------------------------------------------------------------------
  // Generated keys and affected-row counts
  // ---------------------------------------------------------------------

  const UpdateNotFound := "Thesis was not found in database!"
  const UpdateCountInvalid := "Invalid updated rows count detected (one row should be updated)"
  const DeleteNotFound := "thesis was not found in database!"
  const DeleteCountInvalid := "Invalid deleted rows count detected (one row should be updated)"

  /** The affected-row check of updateThesis: no row is "not found", more
      than one row is a service failure. */
  function CheckUpdateCount(count: nat): (r: Outcome)
    ensures r.Pass? <==> count == 1
    ensures r.Fail? ==> r.error == if count == 0 then EntityNotFound(UpdateNotFound) else ServiceFailure(UpdateCountInvalid)
  {
    if count == 0 then Fail(EntityNotFound(UpdateNotFound))
    else if count != 1 then Fail(ServiceFailure(UpdateCountInvalid))
    else Pass
  }

  /** The affected-row check of deleteThesis: unlike update, no row is an
      illegal argument. */
  function CheckDeleteCount(count: nat): (r: Outcome)
    ensures r.Pass? <==> count == 1
    ensures r.Fail? ==> r.error == if count == 0 then IllegalArgument(DeleteNotFound) else ServiceFailure(DeleteCountInvalid)
  {
    if count == 0 then Fail(IllegalArgument(DeleteNotFound))
    else if count != 1 then Fail(ServiceFailure(DeleteCountInvalid))
    else Pass
  }

  /** getKey's failure texts, as the source concatenates them, without the
      entity's string form and the column count. */
  const KeyFailures := KeyMessages(
    "Internal Error: Generated keyretriving failed when trying to insert thesis - no key found",
    "Internal Error: Generated keyretriving failed when trying to insert thesist - wrong key fields count",
    "Internal Error: Generated keyretriving failed when trying to insert thesis - more keys found")

  const MoreRowsInserted := "Internal Error: More rows inserted when trying to insert thesis"
  const ThesisIdAlreadySet := "thesis id is already set"
  const ThesisIdIsNull := "thesis id is null"
  const IdIsNull := "id is null"
  const StudentIsNull := "student is null"
  /** setLong(…, getId()) unboxes the Long; a null id throws there. */
  const UnboxedNullId := "null Long unboxed to long"

  /** The rule validate enforces on the columns of a stored THESIS row. */
  predicate ThesisRowValid(row: ThesisRow) {
    row.name != "" && row.year >= 0
  }

  /** The THESIS row the statement parameters of a valid thesis whose author
      has an id bind: it satisfies the stored-row rule. */
  function RowOf(thesis: Thesis): (r: ThesisRow)
    reads thesis, thesis.author
    requires ValidThesis(thesis.View()) && thesis.author.id.Some?
    ensures ThesisRowValid(r)
  {
    ThesisRow(thesis.name.value, thesis.thesisType.value, thesis.year, thesis.author.id.value)
  }

  // ---------------------------------------------------------------------
  // Reading rows back as objects
  // ---------------------------------------------------------------------

  /** The field values of the Thesis object that resultToThesis builds from
      the row stored under `id`, or None when it returns null because no
      student row has the stored author id. */
  function ThesisRead(id: int, row: ThesisRow, students: map<int, StudentRow>): Option<ThesisValue> {
    if row.authorId in students then
      Some(ThesisValue(Some(id), Some(row.name), row.year, Some(row.thesisType),
                       Some(StudentManagement.StudentRead(row.authorId, students[row.authorId]))))
    else None
  }

  /** Writing a valid thesis as a row and reading it back under key `k` gives
      the thesis's own values with id `k`, provided its author's values are
      those of the stored student row its author id names. */
  lemma ReadAfterWrite(v: ThesisValue, k: int, authorId: int, students: map<int, StudentRow>)
    requires ValidThesis(v) && authorId in students
    requires v.author == Some(StudentManagement.StudentRead(authorId, students[authorId]))
    ensures ThesisRead(k, ThesisRow(v.name.value, v.thesisType.value, v.year, authorId), students) == Some(v.(id := Some(k)))
  {
  }

  /** A thesis row whose author id names no student row reads back as null. */
  lemma MissingAuthorReadsNull(k: int, row: ThesisRow, students: map<int, StudentRow>)
    ensures ThesisRead(k, row, students).None? <==> row.authorId !in students
  {
  }

  /** `thesis` is the object a read yields for the value `v`: null for None,
      otherwise an object with those field values. */
  ghost predicate ReadsBack(thesis: Thesis?, v: Option<ThesisValue>)
    reads thesis, if thesis != null then {thesis.author} else {}
  {
    match v
    case None => thesis == null
    case Some(value) => thesis != null && thesis.View() == value
  }

  /** resultToThesis: a new Thesis filled from the row through its setters,
      with its author rebuilt from the STUDENT row of the stored author id;
      null when that row does not exist. */
  method ResultToThesis(id: int, row: ThesisRow, students: map<int, StudentRow>) returns (thesis: Thesis?)
    ensures ReadsBack(thesis, ThesisRead(id, row, students))
    ensures thesis != null ==> fresh(thesis) && fresh(thesis.author)
  {
    var t := new Thesis();
    t.SetId(Some(id));
    t.SetName(Some(row.name));
    t.SetYear(row.year);
    t.SetType(Some(row.thesisType));
    t.SetAuthor(null);
    var authorId := row.authorId;
    if authorId in students {
      var student := StudentManagement.ResultSetToStudent(authorId, students[authorId]);
      t.SetAuthor(student);
      thesis := t;
    } else {
      thesis := null;
    }
  }

  /** The loop of getAllTheses and getThesesForStudent over the rows a query
      selected: one entry per row, in the order the rows come (`order`),
      each the result of resultToThesis. */
  method ReadTheses(theses: map<int, ThesisRow>, students: map<int, StudentRow>, selected: set<int>)
    returns (result: seq<Thesis?>, ghost order: seq<int>)
    requires selected <= theses.Keys
    ensures |result| == |order| == |selected|
    ensures forall k :: k in order <==> k in selected
    ensures forall i, j :: 0 <= i < j < |order| ==> order[i] != order[j]
    ensures forall i :: 0 <= i < |order| ==>
      && ReadsBack(result[i], ThesisRead(order[i], theses[order[i]], students))
      && (result[i] != null ==> fresh(result[i]) && fresh(result[i].author))
  {
    var remaining := selected;
    result, order := [], [];
    while remaining != {}
      invariant remaining <= selected
      invariant |result| == |order| && |order| + |remaining| == |selected|
      invariant forall i :: 0 <= i < |order| ==>
        && order[i] in selected && order[i] !in remaining
        && ReadsBack(result[i], ThesisRead(order[i], theses[order[i]], students))
        && (result[i] != null ==> fresh(result[i]) && fresh(result[i].author))
      invariant forall i, j :: 0 <= i < j < |order| ==> order[i] != order[j]
      invariant forall k :: k in selected && k !in remaining ==> k in order
      decreases remaining
    {
      var k := NextRow(remaining);
      var thesis := ResultToThesis(k, theses[k], students);
      result, order := result + [thesis], order + [k];
      remaining := remaining - {k};
    }
  }

  /** The keys of the rows whose stored author id is `authorId`: what the
      query of getThesesForStudent selects. */
  function ThesesOf(theses: map<int, ThesisRow>, authorId: int): (r: set<int>)
    ensures r <= theses.Keys
  {
    set k | k in theses && theses[k].authorId == authorId
  }

  /** Every stored thesis satisfies the rule validate enforces on a row's own columns. */
  ghost predicate ThesisRowsValid(theses: map<int, ThesisRow>) {
    forall k :: k in theses ==> ThesisRowValid(theses[k])
  }

  /** In a table of valid rows, every thesis read back passes validate. */
  lemma StoredThesesValidate(theses: map<int, ThesisRow>, students: map<int, StudentRow>, k: int)
    requires ThesisRowsValid(theses) && k in theses && ThesisRead(k, theses[k], students).Some?
    ensures ValidThesis(ThesisRead(k, theses[k], students).value)
  {
  }

  // ---------------------------------------------------------------------
  // The manager
  // ---------------------------------------------------------------------

  class ThesisManager {
    var dataSource: Database?

    /** `new ThesisManagerImpl()`: no data source yet. */
    constructor ()
      ensures dataSource == null
    {
      dataSource := null;
    }

    method SetDataSource(dataSource: Database?)
      modifies this
      ensures this.dataSource == dataSource
    {
      this.dataSource := dataSource;
    }

    ghost predicate Valid()
      reads this, dataSource
    {
      dataSource != null ==> dataSource.Valid()
    }

    /** checkDataSource: every operation starts with it. */
    function CheckDataSource(): (r: Outcome)
      reads this
      ensures r.Pass? <==> dataSource != null
      ensures r.Fail? ==> r.error == IllegalState(NoDataSource)
    {
      if dataSource == null then Fail(IllegalState(NoDataSource)) else Pass
    }

    /** createThesis: after the data-source check, validation and the check
        that no id is set, inserts one row holding the name, type, year and
        the author's id under a fresh id, and writes that id into the
        thesis. An author without an id fails when it is bound. Nothing
        checks that the author id names a stored student. Every failure
        leaves the table and the thesis as they were. */
    method CreateThesis(thesis: Thesis?) returns (r: Outcome)
      requires Valid()
      modifies dataSource, thesis
      ensures Valid()
      ensures r.Pass? <==>
        dataSource != null && old(Validate(thesis)).Pass? && old(thesis.id).None? && old(thesis.author.id).Some?
      ensures r.Fail? ==>
        r.error == (if dataSource == null then IllegalState(NoDataSource)
                    else if old(Validate(thesis)).Fail? then old(Validate(thesis)).error
                    else if old(thesis.id).Some? then IllegalEntity(ThesisIdAlreadySet)
                    else NullPointer(UnboxedNullId))
      ensures r.Fail? ==> (dataSource != null ==> unchanged(dataSource)) && (thesis != null ==> unchanged(thesis))
      ensures r.Pass? ==>
        && thesis.name == old(thesis.name) && thesis.year == old(thesis.year)
        && thesis.thesisType == old(thesis.thesisType) && thesis.author == old(thesis.author)
        && thesis.id.Some? && thesis.id.value !in old(dataSource.theses)
        && thesis.id.value == old(dataSource.nextThesisId)
        && dataSource.nextStudentId == old(dataSource.nextStudentId)
        && dataSource.nextThesisId == old(dataSource.nextThesisId) + 1
        && dataSource.theses == old(dataSource.theses)[thesis.id.value := RowOf(thesis)]
        && dataSource.students == old(dataSource.students)
      ensures dataSource != null && old(ThesisRowsValid(dataSource.theses)) ==> ThesisRowsValid(dataSource.theses)
    {
      r := CheckDataSource();
      if r.Fail? { return; }
      r := Validate(thesis);
      if r.Fail? { return; }
      if thesis.id.Some? {
        r := Fail(IllegalEntity(ThesisIdAlreadySet));
        return;
      }
      if thesis.author.id.None? {
        r := Fail(NullPointer(UnboxedNullId));
        return;
      }
      var addedRows, keyRS := dataSource.InsertThesis(RowOf(thesis));
      if addedRows != 1 {
        r := Fail(ServiceFailure(MoreRowsInserted));
        return;
      }
      match GetKey(keyRS, KeyFailures)
      case Err(e) =>
        r := Fail(e);
      case Ok(key) =>
        thesis.SetId(Some(key));
        r := Pass;
    }

    /** updateThesis: after the data-source check, validation and the check
        that the id is set, replaces name, year, type and author id of the
        row with the thesis's id and of no other row; an id that is not in
        the table is "not found". */
    method UpdateThesis(thesis: Thesis?) returns (r: Outcome)
      requires Valid()
      modifies dataSource
      ensures Valid()
      ensures r.Pass? <==>
        && dataSource != null && Validate(thesis).Pass? && thesis.id.Some? && thesis.author.id.Some?
        && thesis.id.value in old(dataSource.theses)
      ensures r.Fail? ==>
        r.error == (if dataSource == null then IllegalState(NoDataSource)
                    else if Validate(thesis).Fail? then Validate(thesis).error
                    else if thesis.id.None? then IllegalEntity(ThesisIdIsNull)
                    else if thesis.author.id.None? then NullPointer(UnboxedNullId)
                    else EntityNotFound(UpdateNotFound))
      ensures r.Fail? ==> dataSource != null ==> unchanged(dataSource)
      ensures r.Pass? ==>
        && dataSource.theses == old(dataSource.theses)[thesis.id.value := RowOf(thesis)]
        && dataSource.students == old(dataSource.students)
        && dataSource.nextStudentId == old(dataSource.nextStudentId)
        && dataSource.nextThesisId == old(dataSource.nextThesisId)
      ensures dataSource != null && old(ThesisRowsValid(dataSource.theses)) ==> ThesisRowsValid(dataSource.theses)
    {
      r := CheckDataSource();
      if r.Fail? { return; }
      r := Validate(thesis);
      if r.Fail? { return; }
      if thesis.id.None? {
        r := Fail(IllegalEntity(ThesisIdIsNull));
        return;
      }
      if thesis.author.id.None? {
        r := Fail(NullPointer(UnboxedNullId));
        return;
      }
      var count := dataSource.UpdateThesis(thesis.id.value, RowOf(thesis));
      r := CheckUpdateCount(count);
    }

    /** deleteThesis: after the data-source check and the checks that the
        thesis and its id are set, removes the row with that id and no
        other; an id that is not in the table is an illegal argument. */
    method DeleteThesis(thesis: Thesis?) returns (r: Outcome)
      requires Valid()
      modifies dataSource
      ensures Valid()
      ensures r.Pass? <==>
        dataSource != null && thesis != null && thesis.id.Some? && thesis.id.value in old(dataSource.theses)
      ensures r.Fail? ==>
        r.error == (if dataSource == null then IllegalState(NoDataSource)
                    else if thesis == null then IllegalArgument(ThesisIsNull)
                    else if thesis.id.None? then IllegalEntity(ThesisIdIsNull)
                    else IllegalArgument(DeleteNotFound))
      ensures r.Fail? ==> dataSource != null ==> unchanged(dataSource)
      ensures r.Pass? ==>
        && dataSource.theses == old(dataSource.theses) - {thesis.id.value}
        && dataSource.students == old(dataSource.students)
        && dataSource.nextStudentId == old(dataSource.nextStudentId)
        && dataSource.nextThesisId == old(dataSource.nextThesisId)
      ensures dataSource != null && old(ThesisRowsValid(dataSource.theses)) ==> ThesisRowsValid(dataSource.theses)
    {
      r := CheckDataSource();
      if r.Fail? { return; }
      if thesis == null {
        r := Fail(IllegalArgument(ThesisIsNull));
        return;
      }
      if thesis.id.None? {
        r := Fail(IllegalEntity(ThesisIdIsNull));
        return;
      }
      var count := dataSource.DeleteThesis(thesis.id.value);
      r := CheckDeleteCount(count);
    }

    /** getThesisById: the thesis stored under the id with its author
        rebuilt, or null when there is no such row or no student row for its
        author. */
    method GetThesisById(id: Option<int>) returns (r: Result<Thesis?>)
      ensures r.Ok? <==> dataSource != null && id.Some?
      ensures r.Err? ==> r.error == if dataSource == null then IllegalState(NoDataSource) else IllegalArgument(IdIsNull)
      ensures r.Ok? ==>
        ReadsBack(r.value, if id.value in dataSource.theses
                           then ThesisRead(id.value, dataSource.theses[id.value], dataSource.students)
                           else None)
      ensures r.Ok? && r.value != null ==> fresh(r.value) && fresh(r.value.author)
      ensures r.Ok? && r.value != null && ThesisRowsValid(dataSource.theses) ==> Validate(r.value).Pass?
    {
      var c := CheckDataSource();
      if c.Fail? { return Err(c.error); }
      if id.None? { return Err(IllegalArgument(IdIsNull)); }
      if id.value in dataSource.theses {
        var thesis := ResultToThesis(id.value, dataSource.theses[id.value], dataSource.students);
        r := Ok(thesis);
      } else {
        r := Ok(null);
      }
    }

    /** getAllTheses: one entry per THESIS row, each what resultToThesis
        makes of it, in the order the rows come (`order`). */
    method GetAllTheses() returns (r: Result<seq<Thesis?>>, ghost order: seq<int>)
      ensures r.Err? <==> dataSource == null
      ensures r.Err? ==> r.error == IllegalState(NoDataSource)
      ensures r.Ok? ==>
        && |r.value| == |order| == |dataSource.theses|
        && (forall k :: k in order <==> k in dataSource.theses)
        && (forall i, j :: 0 <= i < j < |order| ==> order[i] != order[j])
        && (forall i :: 0 <= i < |order| ==>
              && ReadsBack(r.value[i], ThesisRead(order[i], dataSource.theses[order[i]], dataSource.students))
              && (r.value[i] != null ==> fresh(r.value[i]) && fresh(r.value[i].author)))
    {
      order := [];
      var c := CheckDataSource();
      if c.Fail? { return Err(c.error), order; }
      var result;
      result, order := ReadTheses(dataSource.theses, dataSource.students, dataSource.theses.Keys);
      r := Ok(result);
    }

    /** getThesesForStudent: like getAllTheses, restricted to exactly the
        rows whose stored author id is the student's id. */
    method GetThesesForStudent(student: Student?) returns (r: Result<seq<Thesis?>>, ghost order: seq<int>)
      ensures r.Ok? <==> dataSource != null && student != null && student.id.Some?
      ensures r.Err? ==>
        r.error == (if dataSource == null then IllegalState(NoDataSource)
                    else if student == null then IllegalArgument(StudentIsNull)
                    else NullPointer(UnboxedNullId))
      ensures r.Ok? ==>
        && |r.value| == |order| == |ThesesOf(dataSource.theses, student.id.value)|
        && (forall k :: k in order <==> k in ThesesOf(dataSource.theses, student.id.value))
        && (forall i, j :: 0 <= i < j < |order| ==> order[i] != order[j])
        && (forall i :: 0 <= i < |order| ==>
              && ReadsBack(r.value[i], ThesisRead(order[i], dataSource.theses[order[i]], dataSource.students))
              && (r.value[i] != null ==> fresh(r.value[i]) && fresh(r.value[i].author)))
    {
      order := [];
      var c := CheckDataSource();
      if c.Fail? { return Err(c.error), order; }
      if student == null { return Err(IllegalArgument(StudentIsNull)), order; }
      if student.id.None? { return Err(NullPointer(UnboxedNullId)), order; }
      var result;
      result, order := ReadTheses(dataSource.theses, dataSource.students, ThesesOf(dataSource.theses, student.id.value));
      r := Ok(result);
    }
  }
}
