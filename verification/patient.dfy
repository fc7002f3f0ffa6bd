/** A patient: a person with a free-form medical record. */
module PatientRecord {
  import opened Wrappers
  import opened Errors
  import opened JsonValue
  import opened Text
  import PersonRecord

  datatype Patient = Patient(person: PersonRecord.Person, medicalRecord: string)

  /** The constructor: the person part is checked as a person is; the medical
      record is stored as given (the model admits only text there). */
  function NewPatient(name: Json, age: Json, medicalRecord: Json): (r: Result<Patient, Error>)
    ensures r.Success? <==> PersonRecord.NewPerson(name, age).Success? && medicalRecord.JString?
    ensures PersonRecord.NewPerson(name, age).Failure? ==> r == Failure(TypeError(PersonRecord.PersonTypeMessage))
    ensures r.Success? ==> r.value.person.name == name.s && r.value.person.age == PersonRecord.IntValue(age)
    ensures r.Success? ==> r.value.medicalRecord == medicalRecord.s
    ensures PersonRecord.NewPerson(name, age).Success? && !medicalRecord.JString? ==> r == Failure(NonText("medical_record"))
  {
    var person :- PersonRecord.NewPerson(name, age);
    if medicalRecord.JString? then Success(Patient(person, medicalRecord.s))
    else Failure(NonText("medical_record"))
  }

  const RecordLabel := "Medical Record for "

  /** The line `view_record` returns: its label, the patient's name right
      after it, and ": " and the record at the end. */
  function ViewRecord(p: Patient): (line: string)
    ensures |RecordLabel| <= |line| && line[..|RecordLabel|] == RecordLabel
    ensures OccursAt(p.person.name, line, |RecordLabel|)
    ensures OccursAt(": " + p.medicalRecord, line, |line| - |p.medicalRecord| - 2)
    ensures |line| == |RecordLabel| + |p.person.name| + 2 + |p.medicalRecord|
  {
    var line := RecordLabel + p.person.name + ": " + p.medicalRecord;
    assert line[..|RecordLabel|] == RecordLabel;
    assert line[|RecordLabel|..|RecordLabel| + |p.person.name|] == p.person.name;
    assert line[|line| - |p.medicalRecord| - 2..] == ": " + p.medicalRecord;
    line
  }

  /** The line `view_info` returns: the person line with the word "Patient"
      in place of "Person", followed by the medical record. */
  function ViewInfo(p: Patient): (line: string)
    ensures line == "Patient" + PersonRecord.ViewInfo(p.person)[|"Person"|..] + MedicalLabel + p.medicalRecord
  {
    var tail := " Name: " + p.person.name + PersonRecord.AgeLabel + IntToString(p.person.age);
    var base := PersonRecord.ViewInfo(p.person);
    assert base == "Person" + tail by {
      assert "Person Name: " == "Person" + " Name: ";
    }
    assert base[|"Person"|..] == tail;
    "Patient" + tail + MedicalLabel + p.medicalRecord
  }

  /** The medical-record line does not depend on the age. */
  lemma ViewRecordIgnoresAge(p: Patient, otherAge: int)
    ensures ViewRecord(p.(person := p.person.(age := otherAge))) == ViewRecord(p)
  {
  }

  const MedicalLabel := ", Medical Record: "

  lemma ViewInfoParts(p: Patient)
    ensures ViewInfo(p) == "Patient" + " Name: " + p.person.name + PersonRecord.AgeLabel + IntToString(p.person.age)
                           + MedicalLabel + p.medicalRecord
  {
  }

  /** Moving `g + s + ml + b` across the boundary between two pieces keeps the whole. */
  lemma Regroup(h: string, a: string, g: string, s: string, ml: string, b: string, n: string, c: string)
    ensures h + a + g + s + ml + (b + g + n + ml + c) == h + (a + g + s + ml + b) + g + n + ml + c
  {
  }

  /** Unlike the person line, the patient line cannot always be read back:
      moving the text ", Age: n, Medical Record: b" between the name and the
      record yields a different patient with the same line. */
  lemma ViewInfoAmbiguous(a: string, m: int, b: string, n: int, c: string)
    ensures Patient(PersonRecord.Person(a, m), b + PersonRecord.AgeLabel + IntToString(n) + MedicalLabel + c)
         != Patient(PersonRecord.Person(a + PersonRecord.AgeLabel + IntToString(m) + MedicalLabel + b, n), c)
    ensures ViewInfo(Patient(PersonRecord.Person(a, m), b + PersonRecord.AgeLabel + IntToString(n) + MedicalLabel + c))
         == ViewInfo(Patient(PersonRecord.Person(a + PersonRecord.AgeLabel + IntToString(m) + MedicalLabel + b, n), c))
  {
    var age := PersonRecord.AgeLabel;
    var sm, sn := IntToString(m), IntToString(n);
    var first := Patient(PersonRecord.Person(a, m), b + age + sn + MedicalLabel + c);
    var second := Patient(PersonRecord.Person(a + age + sm + MedicalLabel + b, n), c);
    ViewInfoParts(first);
    ViewInfoParts(second);
    Regroup("Patient" + " Name: ", a, age, sm, MedicalLabel, b, sn, c);
  }
}
