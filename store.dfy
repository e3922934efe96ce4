/**
 * The relational store behind both managers: a STUDENT table and a THESIS
 * table keyed by their identity columns. Each method is one SQL statement
 * and returns what JDBC reports for it (the affected-row count, the
 * generated keys). The identity columns hand out increasing ids, so a new
 * row never reuses a key that is in the table.
 */
module Store {
  import opened Common
  import opened JavaInt
  import opened Theses

  /** A STUDENT row without its id. */
  datatype StudentRow = StudentRow(name: string, surname: string)

  /** A THESIS row without its id; `thesisType` is stored by its name and
      read back with Type.valueOf, which gives back the same constant. */
  datatype ThesisRow = ThesisRow(name: string, thesisType: ThesisType, year: Int, authorId: int)

  /** The generated-keys result set of an insert: the number of columns it
      has and the first-column value of each of its rows. */
  datatype KeyResultSet = KeyResultSet(columnCount: nat, keys: seq<int>)

  /** The three texts of getKey's service failures, which each manager
      words for its own entity. */
  datatype KeyMessages = KeyMessages(noKey: string, wrongCount: string, moreKeys: string)

  /** getKey, which both managers declare alike up to their messages: the
      single generated key, or a service failure when the result set has no
      row, a row of other than one column, or more than one row (checked in
      that order). */
  function GetKey(keyRS: KeyResultSet, messages: KeyMessages): (r: Result<int>)
    ensures r.Ok? <==> |keyRS.keys| == 1 && keyRS.columnCount == 1
    ensures r.Ok? ==> r.value == keyRS.keys[0]
    ensures r.Err? ==> r.error == ServiceFailure(
      if |keyRS.keys| == 0 then messages.noKey
      else if keyRS.columnCount != 1 then messages.wrongCount
      else messages.moreKeys)
  {
    if |keyRS.keys| > 0 then
      if keyRS.columnCount != 1 then Err(ServiceFailure(messages.wrongCount))
      else
        var result := keyRS.keys[0];
        if |keyRS.keys| > 1 then Err(ServiceFailure(messages.moreKeys))
        else Ok(result)
    else Err(ServiceFailure(messages.noKey))
  }

  /** The id of the row a query's result set yields next: any row not yet
      yielded, since the queries fix no order. */
  method NextRow(remaining: set<int>) returns (id: int)
    requires remaining != {}
    ensures id in remaining
  {
    if forall x :: x !in remaining {
      assert false;
    }
    id :| id in remaining;
  }

  class Database {
    var students: map<int, StudentRow>
    var theses: map<int, ThesisRow>
    var nextStudentId: int
    var nextThesisId: int

    /** Every stored id lies below the value its identity column hands out
        next, so an identity column never hands out a key twice, even one
        whose row was deleted. */
    ghost predicate Valid()
      reads this
    {
      && (forall k :: k in students ==> k < nextStudentId)
      && (forall k :: k in theses ==> k < nextThesisId)
    }

    /** Empty tables whose identity columns start at 1. */
    constructor ()
      ensures Valid() && students == map[] && theses == map[]
    {
      students, theses := map[], map[];
      nextStudentId, nextThesisId := 1, 1;
    }

    /** INSERT INTO STUDENT (name, surname) VALUES (?, ?), returning generated keys. */
    method InsertStudent(row: StudentRow) returns (added: nat, keyRS: KeyResultSet)
      requires Valid()
      modifies this`students, this`nextStudentId
      ensures Valid()
      ensures added == 1 && |keyRS.keys| == 1 && keyRS.columnCount == 1
      ensures keyRS.keys[0] == old(nextStudentId) && nextStudentId == old(nextStudentId) + 1
      ensures keyRS.keys[0] !in old(students)
      ensures students == old(students)[keyRS.keys[0] := row]
    {
      var id := nextStudentId;
      students := students[id := row];
      nextStudentId := nextStudentId + 1;
      added, keyRS := 1, KeyResultSet(1, [id]);
    }

    /** UPDATE Student SET name = ?, surname = ? WHERE id = ? */
    method UpdateStudent(id: int, row: StudentRow) returns (count: nat)
      modifies this`students
      ensures count == if id in old(students) then 1 else 0
      ensures students == if id in old(students) then old(students)[id := row] else old(students)
    {
      if id in students {
        students := students[id := row];
        count := 1;
      } else {
        count := 0;
      }
    }

    /** DELETE FROM Student WHERE id = ? */
    method DeleteStudent(id: int) returns (count: nat)
      modifies this`students
      ensures count == if id in old(students) then 1 else 0
      ensures students == old(students) - {id}
      ensures count == 0 ==> students == old(students)
    {
      count := if id in students then 1 else 0;
      students := students - {id};
    }

    /** INSERT INTO THESIS (name, type, yearOfPublication, authorId) VALUES (?, ?, ?, ?),
        returning generated keys. No foreign-key check is modelled: the author id is
        stored as given. */
    method InsertThesis(row: ThesisRow) returns (added: nat, keyRS: KeyResultSet)
      requires Valid()
      modifies this`theses, this`nextThesisId
      ensures Valid()
      ensures added == 1 && |keyRS.keys| == 1 && keyRS.columnCount == 1
      ensures keyRS.keys[0] == old(nextThesisId) && nextThesisId == old(nextThesisId) + 1
      ensures keyRS.keys[0] !in old(theses)
      ensures theses == old(theses)[keyRS.keys[0] := row]
    {
      var id := nextThesisId;
      theses := theses[id := row];
      nextThesisId := nextThesisId + 1;
      added, keyRS := 1, KeyResultSet(1, [id]);
    }

    /** UPDATE Thesis SET name = ?, yearOfPublication = ?, type = ?, authorId = ? WHERE id = ? */
    method UpdateThesis(id: int, row: ThesisRow) returns (count: nat)
      modifies this`theses
      ensures count == if id in old(theses) then 1 else 0
      ensures theses == if id in old(theses) then old(theses)[id := row] else old(theses)
    {
      if id in theses {
        theses := theses[id := row];
        count := 1;
      } else {
        count := 0;
      }
    }

    /** DELETE FROM thesis WHERE id = ? */
    method DeleteThesis(id: int) returns (count: nat)
      modifies this`theses
      ensures count == if id in old(theses) then 1 else 0
      ensures theses == old(theses) - {id}
      ensures count == 0 ==> theses == old(theses)
    {
      count := if id in theses then 1 else 0;
      theses := theses - {id};
    }
  }
}
