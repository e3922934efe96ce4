# Thesis and student records: a Dafny model

This project models the persistence core of a small Java application that
keeps university theses and their student authors in a relational database.
Two managers carry it. `StudentManagerImpl` and `ThesisManagerImpl` validate
`Student` and `Thesis` records and create, update, delete and read them over
one shared data source.

The pieces, file by file:

- `student.dfy` and `thesis.dfy` hold the entities as mutable classes. They
  have setters, `equals` with the Java null-pointer behaviour made a
  precondition, and `hashCode` with 32-bit wrap-around.
- `store.dfy` makes the database a class with two tables, STUDENT and
  THESIS. Each is a map from generated id to row, with identity counters
  that hand out fresh keys. Its methods are the SQL statements the managers
  issue: an insert that returns a generated-key result set, and update and
  delete by id that return the affected-row count.
- `student_manager.dfy` and `thesis_manager.dfy` are the managers. Every
  Java exception becomes a `Fail`/`Err` value of the `Error` datatype in
  `common.dfy`, and the contracts name the exact error each path raises.
  A thesis read rebuilds its author from the STUDENT table through the
  stored author id. When that row is missing the read gives `null`, as the
  Java code does.
- `scenarios.dfy` strings operations together the way the repository's
  tests do. Examples: create then read back an equal but distinct object;
  update one of two records; delete one of two theses; list a student's
  theses.

Both managers point at the same `Database` object.

## Model

| member | source | states |
|---|---|---|
| JavaInt.Wrap | Student.java:71-75 | Java `int` arithmetic: the result is congruent to the mathematical value mod 2^32 and equals it when it is in range |
| Students.Student.constructor | Student.java:11-15 | a new student has no id, name or surname |
| Students.Student.SetId | Student.java:21-23 | sets the id and changes nothing else |
| Students.Student.SetName | Student.java:29-31 | sets the name and changes nothing else |
| Students.Student.SetSurname | Student.java:37-39 | sets the surname and changes nothing else |
| Students.Student.Equals | Student.java:46-67 | true only for another Student, and for one exactly when id, name and surname all agree; defined only where the Java code does not dereference a null field |
| Students.EqualsReflexive | Student.java:46-67 | a student with all fields set equals itself |
| Students.EqualsSymmetric | Student.java:46-67 | for students with all fields set, equals is symmetric |
| Students.EqualsTransitive | Student.java:46-67 | for students with all fields set, equals is transitive |
| Students.Student.HashCode | Student.java:69-76 | the three wrapped steps of `hash = 37 * hash + …` give 7·37³ + 37²·h(id) + 37·h(name) + h(surname) reduced once to a Java `int` |
| Students.HashCodeDependsOnlyOnFields | Student.java:69-76 | two students with the same field values have the same hash code |
| Students.EqualStudentsHashEqually | Student.java:46-76 | the equals/hashCode contract: equal students hash equally |
| Theses.Thesis.constructor | Thesis.java:12-18 | a new thesis has no id, name, type or author, and year 0 |
| Theses.Thesis.SetId | Thesis.java:24-26 | sets the id and changes nothing else |
| Theses.Thesis.SetName | Thesis.java:32-34 | sets the name and changes nothing else |
| Theses.Thesis.SetYear | Thesis.java:40-42 | sets the year and changes nothing else |
| Theses.Thesis.SetType | Thesis.java:48-50 | sets the type and changes nothing else |
| Theses.Thesis.SetAuthor | Thesis.java:56-58 | sets the author reference and changes nothing else |
| Theses.Thesis.Equals | Thesis.java:65-87 | true only for another Thesis, and for one exactly when id, name, year, type and the author's fields all agree; defined only where no null is dereferenced |
| Theses.Thesis.HashCode | Thesis.java:89-98 | the five wrapped steps of `hash = 47 * hash + …` give 5·47⁵ + 47⁴·h(id) + 47³·h(name) + 47²·year + 47·h(type) + h(author) reduced once to a Java `int`, where h(author) is 0 for no author and its hashCode otherwise |
| Theses.HashCodeDependsOnlyOnFields | Thesis.java:89-98 | two theses with the same field values, author included, have the same hash code |
| Theses.EqualThesesHashEqually | Thesis.java:65-98 | equal theses hash equally |
| Store.NextRow | StudentManagerImpl.java:231-233 | each `rs.next()` of a read loop yields a row not yet yielded; the queries fix no order |
| Store.Database.constructor | StudentManagerImplTest.java:40-48 | the tables a test starts from: empty STUDENT and THESIS tables whose generated keys are all still unused |
| Store.Database.InsertStudent | StudentManagerImpl.java:44-60 | one row added under the identity column's next value, which then advances, so no key is handed out twice; all other rows kept; a one-column result set holding that key |
| Store.Database.UpdateStudent | StudentManagerImpl.java:127-134 | affects one row exactly when the id is present, and replaces that row only |
| Store.Database.DeleteStudent | StudentManagerImpl.java:162-167 | removes exactly the row with the id; the count says whether it existed |
| Store.Database.InsertThesis | ThesisManagerImpl.java:44-60 | as InsertStudent, for the THESIS table and its own identity column |
| Store.Database.UpdateThesis | ThesisManagerImpl.java:98-108 | as UpdateStudent, for the THESIS table |
| Store.Database.DeleteThesis | ThesisManagerImpl.java:129-135 | as DeleteStudent, for the THESIS table |
| StudentManagement.MatchesNamePattern | StudentManagerImpl.java:82-88 | `Pattern.matches("[a-zA-Z ]+", s)`, matched one repetition at a time, accepts exactly the non-empty strings of ASCII letters and spaces |
| StudentManagement.Validate | StudentManagerImpl.java:67-89 | passes exactly for a non-null student whose name and surname are set and match the pattern; null gives IllegalArgument; otherwise it fails with the message of the first check, in source order, that does not hold |
| Store.GetKey | StudentManagerImpl.java:91-110 | yields the key exactly when the result set has one row of one column; otherwise the failure for no row, then wrong column count, then more rows, each with the calling manager's own text; ThesisManagerImpl.java lines 295-314 have the same logic with thesis wording |
| StudentManagement.CheckUpdatesCount | StudentManagerImpl.java:134-135 | accepts exactly an affected-row count of one |
| StudentManagement.ReadAfterWrite | StudentManagerImpl.java:213-219 | a student written as a row and read back has the same name and surname, with the generated id |
| StudentManagement.ResultSetToStudent | StudentManagerImpl.java:213-219 | a new Student holding the row's id, name and surname |
| StudentManagement.StoredStudentsValidate | StudentManagerImpl.java:67-89 | in a table of valid rows, every student read back passes validation |
| StudentManagement.StudentManager.constructor | StudentManagerImpl.java:22-24 | a manager starts without a data source |
| StudentManagement.StudentManager.SetDataSource | StudentManagerImpl.java:26-28 | sets the data source |
| StudentManagement.StudentManager.CheckDataSource | StudentManagerImpl.java:30-34 | fails with IllegalState exactly when no data source is set |
| StudentManagement.StudentManager.CreateStudent | StudentManagerImpl.java:37-65 | succeeds exactly for a valid student without an id, with a data source; then one new row holds its name and surname under the STUDENT identity column's next value, which advances, and that key is written into the student; nothing else changes; each failure names its error and changes nothing; valid tables stay valid |
| StudentManagement.StudentManager.UpdateStudent | StudentManagerImpl.java:113-143 | succeeds exactly for a valid student whose id is stored; then only that row is replaced and the identity columns stay as they were; each failure names its error and changes nothing; valid tables stay valid |
| StudentManagement.StudentManager.DeleteStudent | StudentManagerImpl.java:146-176 | succeeds exactly for a non-null student whose id is stored; then only that row is removed and the identity columns stay as they were; each failure names its error and changes nothing |
| StudentManagement.StudentManager.GetStudentById | StudentManagerImpl.java:179-211 | null exactly when no row has the id; otherwise a new Student with the row's values, which passes validation when the table's rows are valid; a null id or a missing data source is an error |
| StudentManagement.StudentManager.FindAllStudents | StudentManagerImpl.java:222-240 | one new Student per row, with distinct ids covering the whole table, each holding its row's values |
| ThesisManagement.Validate | ThesisManagerImpl.java:68-87 | passes exactly for a non-null thesis with a non-empty name, an author, a non-negative year and a type; null gives IllegalArgument; otherwise the first failing check's message, in source order |
| ThesisManagement.CheckUpdateCount | ThesisManagerImpl.java:108-113 | accepts exactly a count of one; zero is EntityNotFound, more is ServiceFailure |
| ThesisManagement.CheckDeleteCount | ThesisManagerImpl.java:135-140 | accepts exactly a count of one; zero is IllegalArgument, more is ServiceFailure |
| ThesisManagement.RowOf | ThesisManagerImpl.java:49-52 | the values bound to the statement parameters of a valid thesis (the same four as lines 102-105 of updateThesis) form a row that satisfies the stored-row rule: a non-empty name and a year of at least 0 |
| ThesisManagement.ReadAfterWrite | ThesisManagerImpl.java:184-223 | a valid thesis written as a row and read back has the same values, with the generated id, when its author matches the stored student row |
| ThesisManagement.MissingAuthorReadsNull | ThesisManagerImpl.java:203-217 | a thesis row reads back as null exactly when no student row has its author id |
| ThesisManagement.ResultToThesis | ThesisManagerImpl.java:184-223 | a new Thesis with a new author object holding the row's values and the author's row, or null when the author row is missing |
| ThesisManagement.ReadTheses | ThesisManagerImpl.java:255-259 | one entry per selected row, each row visited once, each entry what ResultToThesis gives for it |
| ThesisManagement.ThesesOf | ThesisManagerImpl.java:276 | the rows whose author id matches are stored rows |
| ThesisManagement.StoredThesesValidate | ThesisManagerImpl.java:68-87 | in a table of valid rows, every thesis read back passes validation |
| ThesisManagement.ThesisManager.constructor | ThesisManagerImpl.java:21-23 | a manager starts without a data source |
| ThesisManagement.ThesisManager.SetDataSource | ThesisManagerImpl.java:25-27 | sets the data source |
| ThesisManagement.ThesisManager.CheckDataSource | ThesisManagerImpl.java:29-33 | fails with IllegalState exactly when no data source is set |
| ThesisManagement.ThesisManager.CreateThesis | ThesisManagerImpl.java:36-66 | succeeds exactly for a valid thesis without an id whose author has an id, with a data source; then one new row holds name, type, year and author id under the THESIS identity column's next value, which advances, and that key is written into the thesis; an author without an id is a null-pointer failure; no failure changes anything |
| ThesisManagement.ThesisManager.UpdateThesis | ThesisManagerImpl.java:90-118 | succeeds exactly for a valid thesis with a stored id whose author has an id; then only that row is replaced; the errors follow the source's order; no failure changes anything |
| ThesisManagement.ThesisManager.DeleteThesis | ThesisManagerImpl.java:121-146 | succeeds exactly for a non-null thesis whose id is stored; then only that row is removed; a missing row is IllegalArgument; no failure changes anything |
| ThesisManagement.ThesisManager.GetThesisById | ThesisManagerImpl.java:149-182 | what ResultToThesis gives for the row with the id, or null when there is none; a non-null result passes validation when the rows are valid |
| ThesisManagement.ThesisManager.GetAllTheses | ThesisManagerImpl.java:245-266 | one entry per THESIS row, each row once, each entry the row read with its author, or null where the author row is missing |
| ThesisManagement.ThesisManager.GetThesesForStudent | ThesisManagerImpl.java:269-293 | one entry per row whose author id is the student's id, and no others; a null student is IllegalArgument and a student without an id a null-pointer failure |
| Scenarios.CreateThenGetStudent | StudentManagerImplTest.java:66-78 | after createStudent the id is set, and getStudentById returns a distinct object equal to the student |
| Scenarios.UpdateOneOfTwoStudents | StudentManagerImplTest.java:167-184 | after renaming and updating one of two students, it reads back with the new name and the old surname; the other reads back unchanged |
| Scenarios.CreateThenGetThesis | ThesisManagerImplTest.java:71-84 | after creating an author and a thesis on one database, getThesisById returns a distinct thesis, with a distinct author object, equal to the one created |
| Scenarios.DeleteOneOfTwoTheses | ThesisManagerImplTest.java:261-275 | after deleting one of two theses, it reads back as null and the other is still found |
| Scenarios.DeletedIdNotReused | StudentManagerImplTest.java:43-45 | with the identity column of the test schema, a student created after another was deleted gets a different id, and the deleted id stays absent |
| Scenarios.ThesesForStudent | ThesisManagerImplTest.java:331-347 | on an empty table, two theses by one student are exactly what getThesesForStudent lists |

## Where the code and its Javadoc and tests differ

The model follows the code in each of these cases.

- The Javadoc of createStudent (StudentManager.java:19) and of
  createThesis (ThesisManager.java:18) promises an
  `IllegalArgumentException` for a record whose id is already set. The
  code raises `IllegalEntityException` (StudentManagerImpl.java:40-42,
  ThesisManagerImpl.java:40-42).
- The student tests expect `IllegalArgumentException` for a pre-set id on
  create (StudentManagerImplTest.java:90) and for deleting an id that is not
  stored (StudentManagerImplTest.java:318). The code raises
  `IllegalEntityException` for the first. For the second it defers to
  `DBUtils.checkUpdatesCount`, which is not part of this model.
- The Javadoc of getThesisById (ThesisManager.java:44) returns null exactly
  "if such thesis does not exist". The code also returns null for a stored
  thesis whose author has no STUDENT row (ThesisManagerImpl.java:215-217).
  The lists of getAllTheses and getThesesForStudent then contain `null`
  entries.
- createThesis binds the author's id as given (ThesisManagerImpl.java:52).
  An author without an id fails there with a null-pointer exception, and
  any other value is stored without looking it up.
- Both `equals` methods dereference the receiver's fields, so comparing a
  record with a null id (or name, type or author) raises a null-pointer
  exception. The model makes this a precondition (`EqualsDefined`).

## Left out

- SQLException and data-source faults (`getConnection`, statement
  preparation, a failing driver) are not modelled; every statement behaves
  as the database semantics say, so the "Error when …" service failures
  never arise.
- Transactions: the auto-commit switch, commit and rollback in
  updateStudent and deleteStudent are not modelled, since no fault can
  interrupt a statement.
- StudentManagement.CheckUpdatesCount: `DBUtils.checkUpdatesCount` is not
  part of this model; it stands for "a count other than one is an error",
  with the thrown exception left abstract as `UpdatesCountRejected`.
- The "more entities with the same id found" branches of
  getStudentById, getThesisById and resultToThesis are not modelled: a table
  is a map, so an id names at most one row.
- The `authorId == null` branch of resultToThesis is not modelled: `getLong`
  returns a primitive, so it never holds.
- resultSetToThesis and the private resultSetToStudent of
  ThesisManagerImpl: only used in the duplicate-row messages above, or the
  same as StudentManagerImpl's, which ResultToThesis calls instead.
- toString is not modelled. Error messages keep the source's fixed text,
  including the getKey wording "Generated keyretriving" and "insert
  thesist". They drop the entity's string form and the counts concatenated
  into them.
- Ids are unbounded integers rather than 64-bit `Long` values; identity
  columns never overflow.
- Students.Student.HashCode and Theses.Thesis.HashCode take the hash codes
  of `Long`, `String` and the `Type` enum as parameters, because those
  library hash functions are not part of this model.
- The database schema (table creation, any foreign key from THESIS to
  STUDENT) is not part of this model; no foreign key is enforced.
- The student tests' setUp calls a `StudentManagerImpl(DataSource)`
  constructor that the class does not declare; the model has only the
  no-argument constructor followed by SetDataSource.
- Getters are plain field reads and appear as field accesses.
- The order in which a query yields its rows is not fixed by the database;
  the list operations state it through a ghost `order` of row ids.
