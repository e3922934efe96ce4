/**
 * The Student entity: a mutable record with a nullable surrogate id, a
 * name and a surname, compared and hashed by all three fields.
 */
module Students {
  import opened Common
  import opened JavaInt

  /** The field values of a Student object at one moment. */
  datatype StudentValue = StudentValue(id: Option<int>, name: Option<string>, surname: Option<string>)

  /** Objects.hashCode: 0 for null, otherwise the value's own hash code. */
  function ObjectsHash<T>(x: Option<T>, hash: T -> int): int {
    match x
    case None => 0
    case Some(v) => hash(v)
  }

  class Student {
    var id: Option<int>
    var name: Option<string>
    var surname: Option<string>

    /** `new Student()`: every field is null. */
    constructor ()
      ensures id == None && name == None && surname == None
    {
      id, name, surname := None, None, None;
    }

    method SetId(id: Option<int>)
      modifies this`id
      ensures this.id == id
    {
      this.id := id;
    }

    method SetName(name: Option<string>)
      modifies this`name
      ensures this.name == name
    {
      this.name := name;
    }

    method SetSurname(surname: Option<string>)
      modifies this`surname
      ensures this.surname == surname
    {
      this.surname := surname;
    }

    function View(): StudentValue
      reads this
    {
      StudentValue(id, name, surname)
    }

    /** `equals` dereferences this object's id, and then its name and its
        surname as long as the previous fields compared equal; this holds
        exactly when none of those dereferences hits null. */
    predicate EqualsDefined(other: object?)
      reads this, other
    {
      other == null || !(other is Student) ||
      var o := other as Student;
      id.Some? && (id == o.id ==> name.Some? && (name == o.name ==> surname.Some?))
    }

    /** Student.equals(Object). */
    function Equals(other: object?): (r: bool)
      reads this, other
      requires EqualsDefined(other)
      ensures r ==> other != null && other is Student
      ensures other is Student ==> (r <==> View() == (other as Student).View())
    {
      if other == null then false
      else if !(other is Student) then false
      else
        var o := other as Student;
        if id != o.id then false
        else if name != o.name then false
        else if surname != o.surname then false
        else true
    }

    /** Student.hashCode(), with the hash codes of Long and String as
        parameters. */
    function HashCode(longHash: int -> int, stringHash: string -> int): (h: Int)
      reads this
      ensures h == Wrap(7 * 37 * 37 * 37 + 37 * 37 * ObjectsHash(id, longHash)
                        + 37 * ObjectsHash(name, stringHash) + ObjectsHash(surname, stringHash))
    {
      var hash := 7;
      var hash1 := Wrap(37 * hash + ObjectsHash(id, longHash));
      var hash2 := Wrap(37 * hash1 + ObjectsHash(name, stringHash));
      var hash3 := Wrap(37 * hash2 + ObjectsHash(surname, stringHash));
      WrapMulAdd(37, 37 * hash + ObjectsHash(id, longHash), ObjectsHash(name, stringHash));
      WrapMulAdd(37, 37 * (37 * hash + ObjectsHash(id, longHash)) + ObjectsHash(name, stringHash),
                 ObjectsHash(surname, stringHash));
      hash3
    }
  }

  /** A student whose fields are all set, as every stored row yields. */
  predicate Complete(s: Student)
    reads s
  {
    s.id.Some? && s.name.Some? && s.surname.Some?
  }

  lemma EqualsReflexive(s: Student)
    requires Complete(s)
    ensures s.EqualsDefined(s) && s.Equals(s)
  {
  }

  lemma EqualsSymmetric(a: Student, b: Student)
    requires Complete(a) && Complete(b)
    ensures a.Equals(b) == b.Equals(a)
  {
  }

  lemma EqualsTransitive(a: Student, b: Student, c: Student)
    requires Complete(a) && Complete(b) && Complete(c)
    requires a.Equals(b) && b.Equals(c)
    ensures a.Equals(c)
  {
  }

  /** hashCode reads nothing but the three fields. */
  lemma HashCodeDependsOnlyOnFields(a: Student, b: Student, longHash: int -> int, stringHash: string -> int)
    requires a.View() == b.View()
    ensures a.HashCode(longHash, stringHash) == b.HashCode(longHash, stringHash)
  {
  }

  /** The hashCode/equals contract: equal students hash equally. */
  lemma EqualStudentsHashEqually(a: Student, b: object?, longHash: int -> int, stringHash: string -> int)
    requires a.EqualsDefined(b) && a.Equals(b)
    ensures b is Student && a.HashCode(longHash, stringHash) == (b as Student).HashCode(longHash, stringHash)
  {
  }
}
