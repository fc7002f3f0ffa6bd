/** A department: a name and two ordered rosters, patients and staff. */
module DepartmentRecord {
  import PersonRecord
  import opened PatientRecord
  import opened StaffRecord

  datatype Department = Department(name: string, patients: seq<Patient>, staff: seq<Staff>)

  /** A new department has the given name and empty rosters. */
  function NewDepartment(name: string): (d: Department)
    ensures d.name == name
    ensures |d.patients| == 0 && |d.staff| == 0
  {
    Department(name, [], [])
  }

  /** `add_patient`: appends at the end of the patient roster only. There is no
      uniqueness check. */
  function AddPatient(d: Department, p: Patient): (r: Department)
    ensures |r.patients| == |d.patients| + 1
    ensures r.patients[..|d.patients|] == d.patients && r.patients[|d.patients|] == p
    ensures r.name == d.name && r.staff == d.staff
  {
    d.(patients := d.patients + [p])
  }

  /** `add_staff_member`: appends at the end of the staff roster only. */
  function AddStaffMember(d: Department, s: Staff): (r: Department)
    ensures |r.staff| == |d.staff| + 1
    ensures r.staff[..|d.staff|] == d.staff && r.staff[|d.staff|] == s
    ensures r.name == d.name && r.patients == d.patients
  {
    d.(staff := d.staff + [s])
  }

  /** Adding a patient who is already present keeps both entries. */
  lemma AddPatientKeepsDuplicates(d: Department, p: Patient)
    ensures multiset(AddPatient(d, p).patients)[p] == multiset(d.patients)[p] + 1
  {
    assert AddPatient(d, p).patients == d.patients + [p];
  }

  /** Adding a staff member who is already present keeps both entries. */
  lemma AddStaffMemberKeepsDuplicates(d: Department, s: Staff)
    ensures multiset(AddStaffMember(d, s).staff)[s] == multiset(d.staff)[s] + 1
  {
    assert AddStaffMember(d, s).staff == d.staff + [s];
  }

  /** Which of a department's two rosters an operation works on; the program
      repeats each roster operation once for patients and once for staff. */
  datatype Kind = PatientKind | StaffKind

  /** One roster entry, of either kind. */
  datatype Entry = PatientEntry(patient: Patient) | StaffEntry(member: Staff) {
    function Kind(): Kind {
      if PatientEntry? then PatientKind else StaffKind
    }

    function Person(): PersonRecord.Person {
      if PatientEntry? then patient.person else member.person
    }
  }

  function Size(d: Department, kind: Kind): nat {
    if kind == PatientKind then |d.patients| else |d.staff|
  }

  function EntryAt(d: Department, kind: Kind, i: nat): (e: Entry)
    requires i < Size(d, kind)
    ensures e.Kind() == kind
  {
    if kind == PatientKind then PatientEntry(d.patients[i]) else StaffEntry(d.staff[i])
  }

  function NameAt(d: Department, kind: Kind, i: nat): string
    requires i < Size(d, kind)
  {
    EntryAt(d, kind, i).Person().name
  }

  /** The names on one roster, in roster order. */
  function Names(d: Department, kind: Kind): (r: seq<string>)
    ensures |r| == Size(d, kind)
    ensures forall i :: 0 <= i < |r| ==> r[i] == NameAt(d, kind, i)
  {
    seq(Size(d, kind), i requires 0 <= i < Size(d, kind) => NameAt(d, kind, i))
  }

  /** Appends an entry to the roster of its kind, through `add_patient` or
      `add_staff_member`. */
  function Append(d: Department, e: Entry): (r: Department)
    ensures Size(r, e.Kind()) == Size(d, e.Kind()) + 1
    ensures forall i :: 0 <= i < Size(d, e.Kind()) ==> EntryAt(r, e.Kind(), i) == EntryAt(d, e.Kind(), i)
    ensures EntryAt(r, e.Kind(), Size(d, e.Kind())) == e
    ensures r.name == d.name
    ensures e.PatientEntry? ==> r.staff == d.staff
    ensures e.StaffEntry? ==> r.patients == d.patients
  {
    match e
    case PatientEntry(p) => AddPatient(d, p)
    case StaffEntry(s) => AddStaffMember(d, s)
  }

  /** Python's `roster.pop(i)`: removes the entry at `i`, keeping the order of
      the others, and leaves the other roster alone. */
  function RemoveAt(d: Department, kind: Kind, i: nat): (r: Department)
    requires i < Size(d, kind)
    ensures Size(r, kind) == Size(d, kind) - 1
    ensures forall k :: 0 <= k < i ==> EntryAt(r, kind, k) == EntryAt(d, kind, k)
    ensures forall k :: i <= k < Size(r, kind) ==> EntryAt(r, kind, k) == EntryAt(d, kind, k + 1)
    ensures r.name == d.name
    ensures kind == PatientKind ==> r.staff == d.staff
    ensures kind == StaffKind ==> r.patients == d.patients
  {
    if kind == PatientKind then d.(patients := d.patients[..i] + d.patients[i + 1..])
    else d.(staff := d.staff[..i] + d.staff[i + 1..])
  }
}
