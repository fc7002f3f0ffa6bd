/** `save_data` and `load_data`: the mapping between a hospital and the value
    tree written to and read from the data file. Opening the file and the JSON
    text encoding are outside the model; reading the file is summarised by a
    `ReadOutcome`. */
module Persistence {
  import opened Wrappers
  import opened Errors
  import opened JsonValue
  import PersonRecord
  import opened PatientRecord
  import opened StaffRecord
  import opened DepartmentRecord
  import opened HospitalRecord

  /** What opening the data file and running `json.load` on it gave. */
  datatype ReadOutcome =
    /** FileNotFoundError: there is no data file yet. */
    | FileMissing
    /** json.JSONDecodeError: the file is not well-formed JSON. */
    | NotJson
    /** Any other failure to open or read the file (permissions, invalid
        UTF-8); the program does not catch these. */
    | ReadFailed
    /** The decoded value. */
    | Parsed(value: Json)

  const DefaultName := "Cairo Hospital"
  const DefaultLocation := "Cairo, Egypt"

  /** The hospital the program starts with when there is no usable data file. */
  function DefaultHospital(): (h: Hospital)
    ensures h.name == DefaultName && h.location == DefaultLocation && |h.departments| == 0
  {
    NewHospital(JString(DefaultName), JString(DefaultLocation)).value
  }

  /** A patient's entry has exactly the keys `name`, `age` and
      `medical_record`, in that order, bound to its fields. */
  function PatientToJson(p: Patient): (j: Json)
    ensures j.JObject? && Keys(j.fields) == ["name", "age", "medical_record"]
    ensures Get(j, "name") == Success(JString(p.person.name))
    ensures Get(j, "age") == Success(JInt(p.person.age))
    ensures Get(j, "medical_record") == Success(JString(p.medicalRecord))
  {
    var fields := [("name", JString(p.person.name)), ("age", JInt(p.person.age)),
                   ("medical_record", JString(p.medicalRecord))];
    assert fields[0].0 != fields[1].0 && fields[0].0 != fields[2].0 && fields[1].0 != fields[2].0;
    GetLastBinding(fields, "name", 0);
    GetLastBinding(fields, "age", 1);
    GetLastBinding(fields, "medical_record", 2);
    KeysOfThree(fields[0].0, fields[1].0, fields[2].0, fields[0].1, fields[1].1, fields[2].1);
    JObject(fields)
  }

  /** A staff member's entry has exactly the keys `name`, `age` and
      `position`, in that order, bound to its fields. */
  function StaffToJson(s: Staff): (j: Json)
    ensures j.JObject? && Keys(j.fields) == ["name", "age", "position"]
    ensures Get(j, "name") == Success(JString(s.person.name))
    ensures Get(j, "age") == Success(JInt(s.person.age))
    ensures Get(j, "position") == Success(JString(s.position))
  {
    var fields := [("name", JString(s.person.name)), ("age", JInt(s.person.age)),
                   ("position", JString(s.position))];
    assert fields[0].0 != fields[1].0 && fields[0].0 != fields[2].0 && fields[1].0 != fields[2].0;
    GetLastBinding(fields, "name", 0);
    GetLastBinding(fields, "age", 1);
    GetLastBinding(fields, "position", 2);
    KeysOfThree(fields[0].0, fields[1].0, fields[2].0, fields[0].1, fields[1].1, fields[2].1);
    JObject(fields)
  }

  /** A list comprehension `[enc(x) for x in xs]`. */
  function EncodeEach<T>(xs: seq<T>, enc: T -> Json): (r: seq<Json>)
    ensures |r| == |xs|
    ensures forall k :: 0 <= k < |xs| ==> r[k] == enc(xs[k])
  {
    if xs == [] then [] else [enc(xs[0])] + EncodeEach(xs[1..], enc)
  }

  /** A department's entry binds `name` to its name, and `patients` and
      `staff` to its rosters encoded entry by entry, in order. */
  function DepartmentToJson(d: Department): (j: Json)
    ensures Get(j, "name") == Success(JString(d.name))
    ensures Get(j, "patients") == Success(JArray(EncodeEach(d.patients, PatientToJson)))
    ensures Get(j, "staff") == Success(JArray(EncodeEach(d.staff, StaffToJson)))
  {
    var fields := [("name", JString(d.name)),
                   ("patients", JArray(EncodeEach(d.patients, PatientToJson))),
                   ("staff", JArray(EncodeEach(d.staff, StaffToJson)))];
    assert fields[0].0 != fields[1].0 && fields[0].0 != fields[2].0 && fields[1].0 != fields[2].0;
    GetLastBinding(fields, "name", 0);
    GetLastBinding(fields, "patients", 1);
    GetLastBinding(fields, "staff", 2);
    JObject(fields)
  }

  /** A department's entry has exactly the keys `name`, `patients` and
      `staff`, in that order. */
  lemma DepartmentToJsonKeys(d: Department)
    ensures DepartmentToJson(d).JObject? && Keys(DepartmentToJson(d).fields) == ["name", "patients", "staff"]
  {
    var fields := DepartmentToJson(d).fields;
    assert fields[0].0 != fields[1].0 && fields[0].0 != fields[2].0 && fields[1].0 != fields[2].0;
    KeysOfThree(fields[0].0, fields[1].0, fields[2].0, fields[0].1, fields[1].1, fields[2].1);
  }

  /** The header entry has exactly the keys `name` and `location`, in that order. */
  function HeaderToJson(h: Hospital): (j: Json)
    ensures j.JObject? && Keys(j.fields) == ["name", "location"]
    ensures Get(j, "name") == Success(JString(h.name))
    ensures Get(j, "location") == Success(JString(h.location))
  {
    var fields := [("name", JString(h.name)), ("location", JString(h.location))];
    assert fields[0].0 != fields[1].0;
    GetLastBinding(fields, "name", 0);
    GetLastBinding(fields, "location", 1);
    KeysOfTwo(fields[0].0, fields[1].0, fields[0].1, fields[1].1);
    JObject(fields)
  }

  /** The value tree `save_data` hands to `json.dump`. */
  function SaveData(h: Hospital): Json {
    JObject([("hospital", HeaderToJson(h)), ("departments", JArray(EncodeEach(h.departments, DepartmentToJson)))])
  }

  /** What `SaveData` writes has exactly the keys `hospital` and
      `departments`, in that order: a header with the name and location, and
      the departments encoded entry by entry, in order. */
  lemma SaveDataFields(h: Hospital)
    ensures SaveData(h).JObject? && Keys(SaveData(h).fields) == ["hospital", "departments"]
    ensures Get(SaveData(h), "hospital") == Success(HeaderToJson(h))
    ensures Get(SaveData(h), "departments") == Success(JArray(EncodeEach(h.departments, DepartmentToJson)))
  {
    var fields := SaveData(h).fields;
    assert fields[1].0 != "hospital" && fields[0].0 != "departments";
    GetLastBinding(fields, "hospital", 0);
    GetLastBinding(fields, "departments", 1);
    KeysOfTwo(fields[0].0, fields[1].0, fields[0].1, fields[1].1);
  }

  /** A loop that builds one record per element and stops at the first
      exception, which propagates. */
  function LoadEach<T>(items: seq<Json>, load: Json -> Result<T, Error>): (r: Result<seq<T>, Error>)
    ensures r.Success? <==> forall k :: 0 <= k < |items| ==> load(items[k]).Success?
    ensures r.Success? ==> |r.value| == |items|
    ensures r.Success? ==> forall k :: 0 <= k < |items| ==> r.value[k] == load(items[k]).value
    ensures r.Failure? ==> exists k :: 0 <= k < |items| && load(items[k]) == Failure(r.error)
                                   && forall i :: 0 <= i < k ==> load(items[i]).Success?
  {
    if items == [] then Success([])
    else
      var x :- load(items[0]);
      var rest :- LoadEach(items[1..], load);
      Success([x] + rest)
  }

  /** `for x in j[key]`, building one record per element. */
  function LoadList<T>(j: Json, key: string, load: Json -> Result<T, Error>): (r: Result<seq<T>, Error>)
    ensures !HasKey(j, key) ==> r == Get(j, key).PropagateFailure()
    ensures HasKey(j, key) && Iterate(Get(j, key).value).Failure? ==> r == Failure(TypeError(NotIterable))
    ensures HasKey(j, key) && Iterate(Get(j, key).value).Success? ==> r == LoadEach(Iterate(Get(j, key).value).value, load)
  {
    var v :- Get(j, key);
    var items :- Iterate(v);
    LoadEach(items, load)
  }

  /** One patient entry: the three keys are read in order, then the
      constructor checks the types. */
  function LoadPatient(j: Json): (r: Result<Patient, Error>)
    ensures !j.JObject? ==> r == Failure(TypeError(NotSubscriptable))
    ensures j.JObject? && !HasKey(j, "name") ==> r == Failure(KeyError("name"))
    ensures HasKey(j, "name") && !HasKey(j, "age") ==> r == Failure(KeyError("age"))
    ensures HasKey(j, "name") && HasKey(j, "age") && !HasKey(j, "medical_record") ==> r == Failure(KeyError("medical_record"))
    ensures HasKey(j, "name") && HasKey(j, "age") && HasKey(j, "medical_record")
            && (!Get(j, "name").value.JString? || !PersonRecord.IsPyInt(Get(j, "age").value))
            ==> r == Failure(TypeError(PersonRecord.PersonTypeMessage))
    ensures HasKey(j, "name") && HasKey(j, "age") && HasKey(j, "medical_record")
            && Get(j, "name").value.JString? && PersonRecord.IsPyInt(Get(j, "age").value)
            && !Get(j, "medical_record").value.JString?
            ==> r == Failure(NonText("medical_record"))
    ensures HasKey(j, "name") && HasKey(j, "age") && HasKey(j, "medical_record")
            && Get(j, "name").value.JString? && PersonRecord.IsPyInt(Get(j, "age").value)
            && Get(j, "medical_record").value.JString?
            ==> r.Success?
    ensures r.Success? ==> Get(j, "name") == Success(JString(r.value.person.name))
    ensures r.Success? ==> PersonRecord.IsPyInt(Get(j, "age").value)
    ensures r.Success? ==> PersonRecord.IntValue(Get(j, "age").value) == r.value.person.age
    ensures r.Success? ==> Get(j, "medical_record") == Success(JString(r.value.medicalRecord))
  {
    var name :- Get(j, "name");
    var age :- Get(j, "age");
    var record :- Get(j, "medical_record");
    NewPatient(name, age, record)
  }

  /** One staff entry, read like a patient entry with `position` last. */
  function LoadStaff(j: Json): (r: Result<Staff, Error>)
    ensures !j.JObject? ==> r == Failure(TypeError(NotSubscriptable))
    ensures j.JObject? && !HasKey(j, "name") ==> r == Failure(KeyError("name"))
    ensures HasKey(j, "name") && !HasKey(j, "age") ==> r == Failure(KeyError("age"))
    ensures HasKey(j, "name") && HasKey(j, "age") && !HasKey(j, "position") ==> r == Failure(KeyError("position"))
    ensures HasKey(j, "name") && HasKey(j, "age") && HasKey(j, "position")
            && (!Get(j, "name").value.JString? || !PersonRecord.IsPyInt(Get(j, "age").value))
            ==> r == Failure(TypeError(PersonRecord.PersonTypeMessage))
    ensures HasKey(j, "name") && HasKey(j, "age") && HasKey(j, "position")
            && Get(j, "name").value.JString? && PersonRecord.IsPyInt(Get(j, "age").value)
            && !Get(j, "position").value.JString?
            ==> r == Failure(NonText("position"))
    ensures HasKey(j, "name") && HasKey(j, "age") && HasKey(j, "position")
            && Get(j, "name").value.JString? && PersonRecord.IsPyInt(Get(j, "age").value)
            && Get(j, "position").value.JString?
            ==> r.Success?
    ensures r.Success? ==> Get(j, "name") == Success(JString(r.value.person.name))
    ensures r.Success? ==> PersonRecord.IsPyInt(Get(j, "age").value)
    ensures r.Success? ==> PersonRecord.IntValue(Get(j, "age").value) == r.value.person.age
    ensures r.Success? ==> Get(j, "position") == Success(JString(r.value.position))
  {
    var name :- Get(j, "name");
    var age :- Get(j, "age");
    var position :- Get(j, "position");
    NewStaff(name, age, position)
  }

  /** One department entry: its name, then every patient, then every staff
      member. The program stores the name unchecked; the model checks that it
      is text only after everything the program checks of this entry. */
  function LoadDepartment(j: Json): (r: Result<Department, Error>)
    ensures !HasKey(j, "name") ==> r == Get(j, "name").PropagateFailure()
    ensures HasKey(j, "name") && LoadList(j, "patients", LoadPatient).Failure?
            ==> r == LoadList(j, "patients", LoadPatient).PropagateFailure()
    ensures HasKey(j, "name") && LoadList(j, "patients", LoadPatient).Success? && LoadList(j, "staff", LoadStaff).Failure?
            ==> r == LoadList(j, "staff", LoadStaff).PropagateFailure()
    ensures HasKey(j, "name") && LoadList(j, "patients", LoadPatient).Success? && LoadList(j, "staff", LoadStaff).Success?
            && !Get(j, "name").value.JString?
            ==> r == Failure(NonText("name"))
    ensures r.Success? <==> HasKey(j, "name") && Get(j, "name").value.JString?
                            && LoadList(j, "patients", LoadPatient).Success? && LoadList(j, "staff", LoadStaff).Success?
    ensures r.Success? ==> Get(j, "name") == Success(JString(r.value.name))
    ensures r.Success? ==> LoadList(j, "patients", LoadPatient) == Success(r.value.patients)
    ensures r.Success? ==> LoadList(j, "staff", LoadStaff) == Success(r.value.staff)
  {
    var name :- Get(j, "name");
    var patients :- LoadList(j, "patients", LoadPatient);
    var staff :- LoadList(j, "staff", LoadStaff);
    if name.JString? then Success(Department(name.s, patients, staff))
    else Failure(NonText("name"))
  }

  /** The header `{"name": ..., "location": ...}` read as a hospital with no
      departments yet: both keys are read, then the constructor checks them. */
  function LoadHeader(header: Json): (r: Result<Hospital, Error>)
    ensures !header.JObject? ==> r == Failure(TypeError(NotSubscriptable))
    ensures header.JObject? && !HasKey(header, "name") ==> r == Failure(KeyError("name"))
    ensures HasKey(header, "name") && !HasKey(header, "location") ==> r == Failure(KeyError("location"))
    ensures HasKey(header, "name") && HasKey(header, "location")
            ==> r == NewHospital(Get(header, "name").value, Get(header, "location").value)
  {
    var name :- Get(header, "name");
    var location :- Get(header, "location");
    NewHospital(name, location)
  }

  /** Rebuilds a hospital from a decoded value: the header first, then every
      department. Every exception raised on the way propagates: only an
      unreadable or missing file falls back to the default hospital, and that
      happens in `LoadData`. */
  function LoadTree(v: Json): (r: Result<Hospital, Error>)
    ensures !HasKey(v, "hospital") ==> r == Get(v, "hospital").PropagateFailure()
    ensures HasKey(v, "hospital") && LoadHeader(Get(v, "hospital").value).Failure?
            ==> r == LoadHeader(Get(v, "hospital").value).PropagateFailure()
    ensures HasKey(v, "hospital") && LoadHeader(Get(v, "hospital").value).Success?
            && LoadList(v, "departments", LoadDepartment).Failure?
            ==> r == LoadList(v, "departments", LoadDepartment).PropagateFailure()
    ensures r.Success? <==> HasKey(v, "hospital") && LoadHeader(Get(v, "hospital").value).Success?
                            && LoadList(v, "departments", LoadDepartment).Success?
    ensures r.Success? ==> Get(Get(v, "hospital").value, "name") == Success(JString(r.value.name))
    ensures r.Success? ==> Get(Get(v, "hospital").value, "location") == Success(JString(r.value.location))
    ensures r.Success? ==> LoadList(v, "departments", LoadDepartment) == Success(r.value.departments)
  {
    var hospitalValue :- Get(v, "hospital");
    var hospital :- LoadHeader(hospitalValue);
    var departments :- LoadList(v, "departments", LoadDepartment);
    Success(hospital.(departments := departments))
  }

  /** A department entry that fails to load makes the whole load fail. */
  lemma BadDepartmentFailsLoad(v: Json, k: int)
    requires HasKey(v, "departments") && Iterate(Get(v, "departments").value).Success?
    requires 0 <= k < |Iterate(Get(v, "departments").value).value|
    requires LoadDepartment(Iterate(Get(v, "departments").value).value[k]).Failure?
    ensures LoadData(Parsed(v)).Failure?
  {
  }

  /** A patient entry that fails to load makes its department fail. */
  lemma BadPatientFailsDepartment(j: Json, k: int)
    requires HasKey(j, "patients") && Iterate(Get(j, "patients").value).Success?
    requires 0 <= k < |Iterate(Get(j, "patients").value).value|
    requires LoadPatient(Iterate(Get(j, "patients").value).value[k]).Failure?
    ensures LoadDepartment(j).Failure?
  {
  }

  /** A patient entry that fails to load, in any department entry, makes the
      whole load fail. */
  lemma BadPatientFailsLoad(v: Json, k: int, m: int)
    requires HasKey(v, "departments") && Iterate(Get(v, "departments").value).Success?
    requires 0 <= k < |Iterate(Get(v, "departments").value).value|
    requires var d := Iterate(Get(v, "departments").value).value[k];
             HasKey(d, "patients") && Iterate(Get(d, "patients").value).Success?
             && 0 <= m < |Iterate(Get(d, "patients").value).value|
             && LoadPatient(Iterate(Get(d, "patients").value).value[m]).Failure?
    ensures LoadData(Parsed(v)).Failure?
  {
    BadPatientFailsDepartment(Iterate(Get(v, "departments").value).value[k], m);
    BadDepartmentFailsLoad(v, k);
  }

  /** A staff entry that fails to load makes its department fail. */
  lemma BadStaffFailsDepartment(j: Json, k: int)
    requires HasKey(j, "staff") && Iterate(Get(j, "staff").value).Success?
    requires 0 <= k < |Iterate(Get(j, "staff").value).value|
    requires LoadStaff(Iterate(Get(j, "staff").value).value[k]).Failure?
    ensures LoadDepartment(j).Failure?
  {
  }

  /** `load_data`: a missing or undecodable file gives the default hospital;
      any other read failure, and any failure while rebuilding, propagates. */
  function LoadData(outcome: ReadOutcome): (r: Result<Hospital, Error>)
    ensures outcome.FileMissing? || outcome.NotJson? ==> r == Success(DefaultHospital())
    ensures outcome.ReadFailed? ==> r == Failure(Unreadable)
    ensures outcome.Parsed? ==> r == LoadTree(outcome.value)
  {
    match outcome
    case FileMissing => Success(DefaultHospital())
    case NotJson => Success(DefaultHospital())
    case ReadFailed => Failure(Unreadable)
    case Parsed(v) => LoadTree(v)
  }

  lemma PatientRoundTrip(p: Patient)
    ensures LoadPatient(PatientToJson(p)) == Success(p)
  {
  }

  lemma StaffRoundTrip(s: Staff)
    ensures LoadStaff(StaffToJson(s)) == Success(s)
  {
  }

  /** Loading an encoded list stored under `key` gives the list back when
      each element does. */
  lemma ListRoundTrip<T>(j: Json, key: string, xs: seq<T>, enc: T -> Json, load: Json -> Result<T, Error>)
    requires Get(j, key) == Success(JArray(EncodeEach(xs, enc)))
    requires LoadEach(EncodeEach(xs, enc), load) == Success(xs)
    ensures LoadList(j, key, load) == Success(xs)
  {
  }

  /** Loading an encoded list gives the list back when each element does. */
  lemma EachRoundTrip<T>(xs: seq<T>, enc: T -> Json, load: Json -> Result<T, Error>)
    requires forall k :: 0 <= k < |xs| ==> load(enc(xs[k])) == Success(xs[k])
    ensures LoadEach(EncodeEach(xs, enc), load) == Success(xs)
  {
    var r := LoadEach(EncodeEach(xs, enc), load);
    assert r.value == xs;
  }

  lemma PatientsRoundTrip(ps: seq<Patient>)
    ensures LoadEach(EncodeEach(ps, PatientToJson), LoadPatient) == Success(ps)
  {
    forall k | 0 <= k < |ps|
      ensures LoadPatient(PatientToJson(ps[k])) == Success(ps[k])
    {
      PatientRoundTrip(ps[k]);
    }
    EachRoundTrip(ps, PatientToJson, LoadPatient);
  }

  lemma StaffListRoundTrip(ss: seq<Staff>)
    ensures LoadEach(EncodeEach(ss, StaffToJson), LoadStaff) == Success(ss)
  {
    forall k | 0 <= k < |ss|
      ensures LoadStaff(StaffToJson(ss[k])) == Success(ss[k])
    {
      StaffRoundTrip(ss[k]);
    }
    EachRoundTrip(ss, StaffToJson, LoadStaff);
  }

  lemma DepartmentRoundTrip(d: Department)
    ensures LoadDepartment(DepartmentToJson(d)) == Success(d)
  {
    var j := DepartmentToJson(d);
    PatientsRoundTrip(d.patients);
    ListRoundTrip(j, "patients", d.patients, PatientToJson, LoadPatient);
    StaffListRoundTrip(d.staff);
    ListRoundTrip(j, "staff", d.staff, StaffToJson, LoadStaff);
  }

  lemma DepartmentsRoundTrip(ds: seq<Department>)
    ensures LoadEach(EncodeEach(ds, DepartmentToJson), LoadDepartment) == Success(ds)
  {
    forall k | 0 <= k < |ds|
      ensures LoadDepartment(DepartmentToJson(ds[k])) == Success(ds[k])
    {
      DepartmentRoundTrip(ds[k]);
    }
    EachRoundTrip(ds, DepartmentToJson, LoadDepartment);
  }

  /** Saving then loading is the identity: name, location, departments in
      order, and every patient and staff member with all fields, in order. */
  lemma SaveLoadRoundTrip(h: Hospital)
    ensures LoadData(Parsed(SaveData(h))) == Success(h)
  {
    var j := SaveData(h);
    SaveDataFields(h);
    DepartmentsRoundTrip(h.departments);
    ListRoundTrip(j, "departments", h.departments, DepartmentToJson, LoadDepartment);
  }
}
