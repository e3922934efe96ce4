/**
 * The Thesis entity: a mutable record with a nullable id, a name, a year of
 * publication, a type and a reference to its author Student; compared and
 * hashed by all five fields, the author by Student.equals.
 */
module Theses {
  import opened Common
  import opened JavaInt
  import opened Students

  /** The enumeration Type. */
  datatype ThesisType = Bachelor | Master | PhD

  /** The field values of a Thesis object, with its author's field values. */
  datatype ThesisValue = ThesisValue(
    id: Option<int>, name: Option<string>, year: Int, thesisType: Option<ThesisType>,
    author: Option<StudentValue>)

  class Thesis {
    var id: Option<int>
    var name: Option<string>
    var year: Int
    var thesisType: Option<ThesisType>
    var author: Student?

    /** `new Thesis()`: references are null and the year is 0. */
    constructor ()
      ensures id == None && name == None && year == 0 && thesisType == None && author == null
    {
      id, name, year, thesisType, author := None, None, 0, None, null;
    }

    method SetId(id: Option<int>)
      modifies this`id
      ensures this.id == id
    {
      this.id := id;
    }

    method SetName(name: Option<string>)
      modifies this`name
      ensures this.name == name
    {
      this.name := name;
    }

    method SetYear(year: Int)
      modifies this`year
      ensures this.year == year
    {
      this.year := year;
    }

    method SetType(thesisType: Option<ThesisType>)
      modifies this`thesisType
      ensures this.thesisType == thesisType
    {
      this.thesisType := thesisType;
    }

    method SetAuthor(author: Student?)
      modifies this`author
      ensures this.author == author
    {
      this.author := author;
    }

    function View(): ThesisValue
      reads this, author
    {
      ThesisValue(id, name, year, thesisType, if author == null then None else Some(author.View()))
    }

    /** `equals` dereferences id, name, type and author in turn, each only
        when the fields before it compared equal, and then runs the author's
        own equals; this holds exactly when none of that hits null. */
    predicate EqualsDefined(other: object?)
      reads this, author, other, if other is Thesis then {(other as Thesis).author} else {}
    {
      other == null || !(other is Thesis) ||
      var o := other as Thesis;
      && id.Some?
      && (id == o.id ==> name.Some?)
      && (id == o.id && name == o.name && year == o.year ==> thesisType.Some?)
      && (id == o.id && name == o.name && year == o.year && thesisType == o.thesisType ==>
            author != null && author.EqualsDefined(o.author))
    }

    /** Thesis.equals(Object). */
    function Equals(other: object?): (r: bool)
      reads this, author, other, if other is Thesis then {(other as Thesis).author} else {}
      requires EqualsDefined(other)
      ensures r ==> other != null && other is Thesis
      ensures other is Thesis ==> (r <==> View() == (other as Thesis).View())
    {
      if other == null then false
      else if !(other is Thesis) then false
      else
        var o := other as Thesis;
        if id != o.id then false
        else if name != o.name then false
        else if year != o.year then false
        else if thesisType != o.thesisType then false
        else author.Equals(o.author)
    }

    /** Thesis.hashCode(), with the hash codes of Long, String and the enum
        constants as parameters; the author contributes its own hashCode. */
    function HashCode(longHash: int -> int, stringHash: string -> int, typeHash: ThesisType -> int): (h: Int)
      reads this, author
      ensures h == Wrap(5 * 47 * 47 * 47 * 47 * 47 + 47 * 47 * 47 * 47 * ObjectsHash(id, longHash)
                        + 47 * 47 * 47 * ObjectsHash(name, stringHash) + 47 * 47 * year
                        + 47 * ObjectsHash(thesisType, typeHash) + AuthorHash(longHash, stringHash))
    {
      var i, n, t, a := ObjectsHash(id, longHash), ObjectsHash(name, stringHash),
                        ObjectsHash(thesisType, typeHash), AuthorHash(longHash, stringHash);
      var hash := 5;
      var hash1 := Wrap(47 * hash + i);
      var hash2 := Wrap(47 * hash1 + n);
      var hash3 := Wrap(47 * hash2 + year);
      var hash4 := Wrap(47 * hash3 + t);
      var hash5 := Wrap(47 * hash4 + a);
      var e1 := 47 * hash + i;
      var e2 := 47 * e1 + n;
      var e3 := 47 * e2 + year;
      var e4 := 47 * e3 + t;
      WrapMulAdd(47, e1, n);
      assert hash2 == Wrap(e2);
      WrapMulAdd(47, e2, year);
      assert hash3 == Wrap(e3);
      WrapMulAdd(47, e3, t);
      assert hash4 == Wrap(e4);
      WrapMulAdd(47, e4, a);
      assert 47 * e4 + a == 5 * 47 * 47 * 47 * 47 * 47 + 47 * 47 * 47 * 47 * i + 47 * 47 * 47 * n
                            + 47 * 47 * year + 47 * t + a;
      hash5
    }

    /** Objects.hashCode(author): 0 for no author, else the author's hashCode. */
    function AuthorHash(longHash: int -> int, stringHash: string -> int): int
      reads this, author
    {
      if author == null then 0 else author.HashCode(longHash, stringHash)
    }
  }

  /** hashCode reads nothing but the five fields (and the author's fields). */
  lemma HashCodeDependsOnlyOnFields(a: Thesis, b: Thesis,
                                    longHash: int -> int, stringHash: string -> int, typeHash: ThesisType -> int)
    requires a.View() == b.View()
    ensures a.HashCode(longHash, stringHash, typeHash) == b.HashCode(longHash, stringHash, typeHash)
  {
    if a.author != null {
      Students.HashCodeDependsOnlyOnFields(a.author, b.author, longHash, stringHash);
    }
  }

  /** The hashCode/equals contract: equal theses hash equally. */
  lemma EqualThesesHashEqually(a: Thesis, b: object?,
                               longHash: int -> int, stringHash: string -> int, typeHash: ThesisType -> int)
    requires a.EqualsDefined(b) && a.Equals(b)
    ensures b is Thesis && a.HashCode(longHash, stringHash, typeHash) == (b as Thesis).HashCode(longHash, stringHash, typeHash)
  {
    HashCodeDependsOnlyOnFields(a, b as Thesis, longHash, stringHash, typeHash);
  }
}
