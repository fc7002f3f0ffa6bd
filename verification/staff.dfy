/** A staff member: a person with a free-form position such as "Doctor". */
module StaffRecord {
  import opened Wrappers
  import opened Errors
  import opened JsonValue
  import opened Text
  import PersonRecord

  datatype Staff = Staff(person: PersonRecord.Person, position: string)

  /** The constructor: the person part is checked as a person is; the position
      is not validated (the model admits only text there). */
  function NewStaff(name: Json, age: Json, position: Json): (r: Result<Staff, Error>)
    ensures r.Success? <==> PersonRecord.NewPerson(name, age).Success? && position.JString?
    ensures PersonRecord.NewPerson(name, age).Failure? ==> r == Failure(TypeError(PersonRecord.PersonTypeMessage))
    ensures r.Success? ==> r.value.person.name == name.s && r.value.person.age == PersonRecord.IntValue(age)
    ensures r.Success? ==> r.value.position == position.s
    ensures PersonRecord.NewPerson(name, age).Success? && !position.JString? ==> r == Failure(NonText("position"))
  {
    var person :- PersonRecord.NewPerson(name, age);
    if position.JString? then Success(Staff(person, position.s))
    else Failure(NonText("position"))
  }

  /** The line `view_info` returns: the person line with the word "Staff" in
      place of "Person", followed by the position. */
  function ViewInfo(s: Staff): (line: string)
    ensures line == "Staff" + PersonRecord.ViewInfo(s.person)[|"Person"|..] + ", Position: " + s.position
  {
    var tail := " Name: " + s.person.name + PersonRecord.AgeLabel + IntToString(s.person.age);
    var base := PersonRecord.ViewInfo(s.person);
    assert base == "Person" + tail by {
      assert "Person Name: " == "Person" + " Name: ";
    }
    assert base[|"Person"|..] == tail;
    "Staff" + tail + ", Position: " + s.position
  }
}
