/**
 * Client sequences over the two managers sharing one database, in the shape
 * of the repository's own test cases: what a caller observes when it
 * creates, updates and reads back records.
 */
module Scenarios {
  import opened Common
  import opened Students
  import opened Theses
  import opened Store
  import opened StudentManagement
  import opened ThesisManagement

  /** createStudent then getStudentById: the id is set, and the student read
      back is a different object that equals the one created. */
  method CreateThenGetStudent(m: StudentManager, student: Student) returns (result: Student?)
    requires m.Valid() && m.dataSource != null
    requires StudentManagement.Validate(student).Pass? && student.id.None?
    modifies m.dataSource, student
    ensures student.id.Some?
    ensures result != null && result != student
    ensures result.EqualsDefined(student) && result.Equals(student)
  {
    var created := m.CreateStudent(student);
    var read := m.GetStudentById(student.id);
    result := read.value;
  }

  /** Two students are created, the first is renamed and updated: reading
      it back gives the new name with the old surname, and the second reads
      back exactly as it was created. */
  method UpdateOneOfTwoStudents(m: StudentManager, first: Student, second: Student, newName: string)
    returns (firstRead: Student?, secondRead: Student?)
    requires m.Valid() && m.dataSource != null && first != second
    requires StudentManagement.Validate(first).Pass? && first.id.None?
    requires StudentManagement.Validate(second).Pass? && second.id.None?
    requires MatchesNamePattern(newName)
    modifies m.dataSource, first, second
    ensures firstRead != null && secondRead != null
    ensures firstRead.name == Some(newName) && firstRead.surname == old(first.surname)
    ensures secondRead.View() == second.View() && secondRead.name == old(second.name)
  {
    var r1 := m.CreateStudent(first);
    var r2 := m.CreateStudent(second);
    first.SetName(Some(newName));
    var r3 := m.UpdateStudent(first);
    var g1 := m.GetStudentById(first.id);
    var g2 := m.GetStudentById(second.id);
    firstRead, secondRead := g1.value, g2.value;
  }

  /** A student is created through the student manager, then a thesis by
      that student through the thesis manager on the same database: the
      thesis read back is a different object, with a different author
      object, that equals the thesis created. */
  method CreateThenGetThesis(sm: StudentManager, tm: ThesisManager, author: Student, thesis: Thesis)
    returns (result: Thesis?)
    requires sm.Valid() && sm.dataSource != null && tm.dataSource == sm.dataSource
    requires StudentManagement.Validate(author).Pass? && author.id.None?
    requires thesis.author == author && ThesisManagement.Validate(thesis).Pass? && thesis.id.None?
    modifies sm.dataSource, author, thesis
    ensures thesis.id.Some?
    ensures result != null && result != thesis && result.author != author
    ensures result.View() == thesis.View()
    ensures result.EqualsDefined(thesis) && result.Equals(thesis)
  {
    var createdAuthor := sm.CreateStudent(author);
    var createdThesis := tm.CreateThesis(thesis);
    var read := tm.GetThesisById(thesis.id);
    result := read.value;
  }

  /** Two theses by one student are created and the first is deleted:
      reading the first back gives null and the second is still there. */
  method DeleteOneOfTwoTheses(sm: StudentManager, tm: ThesisManager, author: Student, first: Thesis, second: Thesis)
    returns (firstRead: Thesis?, secondRead: Thesis?)
    requires sm.Valid() && sm.dataSource != null && tm.dataSource == sm.dataSource && first != second
    requires StudentManagement.Validate(author).Pass? && author.id.None?
    requires first.author == author && ThesisManagement.Validate(first).Pass? && first.id.None?
    requires second.author == author && ThesisManagement.Validate(second).Pass? && second.id.None?
    modifies sm.dataSource, author, first, second
    ensures firstRead == null
    ensures secondRead != null && secondRead.View() == second.View()
  {
    var createdAuthor := sm.CreateStudent(author);
    var created1 := tm.CreateThesis(first);
    var created2 := tm.CreateThesis(second);
    var deleted := tm.DeleteThesis(first);
    var read1 := tm.GetThesisById(first.id);
    var read2 := tm.GetThesisById(second.id);
    firstRead, secondRead := read1.value, read2.value;
  }

  /** On an empty thesis table, a student and two theses by that student
      are created: getThesesForStudent yields exactly two entries, one
      equal in content to each thesis created. */
  method ThesesForStudent(sm: StudentManager, tm: ThesisManager, author: Student, first: Thesis, second: Thesis)
    returns (result: seq<Thesis?>)
    requires sm.Valid() && sm.dataSource != null && tm.dataSource == sm.dataSource && first != second
    requires sm.dataSource.theses == map[]
    requires StudentManagement.Validate(author).Pass? && author.id.None?
    requires first.author == author && ThesisManagement.Validate(first).Pass? && first.id.None?
    requires second.author == author && ThesisManagement.Validate(second).Pass? && second.id.None?
    modifies sm.dataSource, author, first, second
    ensures |result| == 2
    ensures forall i :: 0 <= i < |result| ==> result[i] != null && result[i] != first && result[i] != second
    ensures {result[0].View(), result[1].View()} == {first.View(), second.View()}
  {
    var createdAuthor := sm.CreateStudent(author);
    var created1 := tm.CreateThesis(first);
    var created2 := tm.CreateThesis(second);
    var read, order := tm.GetThesesForStudent(author);
    var k1, k2 := first.id.value, second.id.value;
    assert ThesesOf(sm.dataSource.theses, author.id.value) == {k1, k2};
    assert author.id.value in sm.dataSource.students;
    assert ThesisRead(k1, sm.dataSource.theses[k1], sm.dataSource.students) == Some(first.View());
    assert ThesisRead(k2, sm.dataSource.theses[k2], sm.dataSource.students) == Some(second.View());
    assert order[0] in {k1, k2} && order[1] in {k1, k2};
    result := read.value;
  }

  /** A student is created and deleted, then another is created: the
      identity column does not hand the deleted student's id out again, so
      theses that still carry it cannot come to name the new student. */
  method DeletedIdNotReused(m: StudentManager, first: Student, second: Student)
    requires m.Valid() && m.dataSource != null && first != second
    requires StudentManagement.Validate(first).Pass? && first.id.None?
    requires StudentManagement.Validate(second).Pass? && second.id.None?
    modifies m.dataSource, first, second
    ensures first.id.Some? && second.id.Some? && first.id != second.id
    ensures first.id.value !in m.dataSource.students
  {
    var created1 := m.CreateStudent(first);
    var deleted := m.DeleteStudent(first);
    var created2 := m.CreateStudent(second);
  }
}
