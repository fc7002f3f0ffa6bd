/** The shared base record of patients and staff: a name and an age. */
module PersonRecord {
  import opened Wrappers
  import opened Errors
  import opened JsonValue
  import opened Text

  datatype Person = Person(name: string, age: int)

  const PersonTypeMessage := "Name must be a string and age must be an integer!"

  /** Python's `isinstance(age, int)`, which also holds for `True` and `False`
      because `bool` is a subclass of `int`. */
  predicate IsPyInt(j: Json) {
    j.JInt? || j.JBool?
  }

  /** The integer a value passing `isinstance(_, int)` stands for. */
  function IntValue(j: Json): int
    requires IsPyInt(j)
  {
    if j.JInt? then j.i else if j.b then 1 else 0
  }

  /** The constructor's type check: the name must be a string and the age an
      integer. Any integer is accepted, negative ones included. */
  function NewPerson(name: Json, age: Json): (r: Result<Person, Error>)
    ensures r.Success? <==> name.JString? && IsPyInt(age)
    ensures r.Success? ==> r.value.name == name.s && r.value.age == IntValue(age)
    ensures r.Failure? ==> r.error == TypeError(PersonTypeMessage)
  {
    if name.JString? && IsPyInt(age) then Success(Person(name.s, IntValue(age)))
    else Failure(TypeError(PersonTypeMessage))
  }

  const InfoLabel := "Person Name: "
  const AgeLabel := ", Age: "

  /** The one-line summary `view_info` returns: the label, the name, then the
      age label and the age, where no later age label occurs. */
  function ViewInfo(p: Person): (line: string)
    ensures |InfoLabel| + |p.name| <= |line| && line[..|InfoLabel|] == InfoLabel
    ensures line[|InfoLabel|..|InfoLabel| + |p.name|] == p.name
    ensures OccursAt(AgeLabel, line, |InfoLabel| + |p.name|)
    ensures forall i :: |InfoLabel| + |p.name| < i ==> !OccursAt(AgeLabel, line, i)
    ensures line[|InfoLabel| + |p.name| + |AgeLabel|..] == IntToString(p.age)
  {
    var line := InfoLabel + p.name + AgeLabel + IntToString(p.age);
    var j := |InfoLabel| + |p.name|;
    assert line[..|InfoLabel|] == InfoLabel;
    assert line[|InfoLabel|..j] == p.name;
    assert line[j..j + |AgeLabel|] == AgeLabel;
    assert line[j + |AgeLabel|..] == IntToString(p.age);
    forall i | j < i
      ensures !OccursAt(AgeLabel, line, i)
    {
      NoLaterAgeLabel(p, line, i);
    }
    line
  }

  /** Reads a person back from a `view_info` line. The age label is searched
      from the right, because the rendered age never contains a comma while
      the name may contain anything. */
  function ReadInfo(line: string): Option<Person> {
    if |line| < |InfoLabel| || line[..|InfoLabel|] != InfoLabel then None
    else
      match LastIndexOf(line, AgeLabel)
      case None => None
      case Some(j) =>
        if j < |InfoLabel| then None
        else
          match ParseInt(line[j + |AgeLabel|..])
          case None => None
          case Some(age) => Some(Person(line[|InfoLabel|..j], age))
  }

  /** No occurrence of the age label starts after the one a person line
      writes before the age. */
  lemma NoLaterAgeLabel(p: Person, line: string, i: int)
    requires line == InfoLabel + p.name + AgeLabel + IntToString(p.age)
    requires |InfoLabel| + |p.name| < i
    ensures !OccursAt(AgeLabel, line, i)
  {
    var j := |InfoLabel| + |p.name|;
    var digits := IntToString(p.age);
    assert |line| == j + |AgeLabel| + |digits|;
    if i < |line| {
      if i < j + |AgeLabel| {
        assert line[i] == AgeLabel[i - j];
      } else {
        assert line[i] == digits[i - j - |AgeLabel|];
      }
      assert line[i] != ',';
      assert i + |AgeLabel| <= |line| ==> line[i..i + |AgeLabel|][0] == line[i];
    }
  }

  /** `view_info` loses nothing: the person is recovered from the line. */
  lemma ViewInfoReadsBack(p: Person)
    ensures ReadInfo(ViewInfo(p)) == Some(p)
  {
    var line := ViewInfo(p);
    var found := LastIndexOf(line, AgeLabel);
    assert found == Some(|InfoLabel| + |p.name|);
    IntToStringParses(p.age);
  }
}
