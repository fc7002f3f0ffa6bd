/** The root record: a hospital with a name, a location and ordered departments. */
module HospitalRecord {
  import opened Wrappers
  import opened Errors
  import opened JsonValue
  import opened DepartmentRecord

  datatype Hospital = Hospital(name: string, location: string, departments: seq<Department>)

  const HospitalTypeMessage := "Name and location must be strings!"

  /** The constructor's type check: name and location must both be strings. A
      new hospital has no departments. */
  function NewHospital(name: Json, location: Json): (r: Result<Hospital, Error>)
    ensures r.Success? <==> name.JString? && location.JString?
    ensures r.Success? ==> r.value.name == name.s && r.value.location == location.s
    ensures r.Success? ==> |r.value.departments| == 0
    ensures r.Failure? ==> r.error == TypeError(HospitalTypeMessage)
  {
    if name.JString? && location.JString? then Success(Hospital(name.s, location.s, []))
    else Failure(TypeError(HospitalTypeMessage))
  }

  /** `add_department`: appends at the end; name and location are unchanged. */
  function AddDepartment(h: Hospital, d: Department): (r: Hospital)
    ensures |r.departments| == |h.departments| + 1
    ensures r.departments[..|h.departments|] == h.departments
    ensures r.departments[|h.departments|] == d
    ensures r.name == h.name && r.location == h.location
  {
    h.(departments := h.departments + [d])
  }
}
