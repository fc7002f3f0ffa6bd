/** The menu actions of the program that decide how the hospital changes or
    what is shown: adding patients, staff and departments, the statistics
    totals, search, and delete. Typed input becomes parameters; a number the
    program reads with `int(...)` is `None` when that conversion fails. */
module Actions {
  import opened Wrappers
  import opened JsonValue
  import opened Text
  import opened Scan
  import PersonRecord
  import opened PatientRecord
  import opened StaffRecord
  import opened DepartmentRecord
  import opened HospitalRecord
  import opened Persistence

  /** The outcome of one action: the hospital afterwards, what the action
      reported, and the value tree it saved, if it saved. Every action that
      changes the hospital saves it at once. */
  datatype Step<S> = Step(hospital: Hospital, status: S, written: Option<Json>)

  /** An action that changed the hospital and saved it. */
  function Commit<S>(h: Hospital, status: S): Step<S> {
    Step(h, status, Some(SaveData(h)))
  }

  /** What an auto-saving action writes loads back as the hospital it leaves. */
  lemma CommitReloads<S>(h: Hospital, status: S)
    ensures Commit(h, status).written.Some?
    ensures LoadData(Parsed(Commit(h, status).written.value)) == Success(h)
  {
    SaveLoadRoundTrip(h);
  }

  /** An action that left the hospital alone and did not save. */
  function Unchanged<S>(h: Hospital, status: S): Step<S> {
    Step(h, status, None)
  }

  function Other(kind: Kind): Kind {
    if kind == PatientKind then StaffKind else PatientKind
  }

  // ---------------------------------------------------------------- totals

  /** `sum(len(dept.<roster>) for dept in departments)`. */
  function Total(ds: seq<Department>, kind: Kind): (r: nat)
    ensures forall k :: 0 <= k < |ds| ==> Size(ds[k], kind) <= r
    ensures r == 0 <==> forall k :: 0 <= k < |ds| ==> Size(ds[k], kind) == 0
  {
    if ds == [] then 0
    else
      var front := ds[..|ds| - 1];
      assert forall k :: 0 <= k < |front| ==> front[k] == ds[k];
      Total(front, kind) + Size(ds[|ds| - 1], kind)
  }

  /** Replacing one department changes the total by the change in that
      department's roster size. */
  lemma {:induction false} TotalUpdate(ds: seq<Department>, i: nat, d: Department, kind: Kind)
    requires i < |ds|
    ensures Total(ds[i := d], kind) == Total(ds, kind) - Size(ds[i], kind) + Size(d, kind)
  {
    var n := |ds|;
    var ds' := ds[i := d];
    if i < n - 1 {
      assert ds'[..n - 1] == ds[..n - 1][i := d];
      TotalUpdate(ds[..n - 1], i, d, kind);
    } else {
      assert ds'[..n - 1] == ds[..n - 1];
    }
  }

  /** Appending a department adds its roster size to the total. */
  lemma TotalAppend(ds: seq<Department>, d: Department, kind: Kind)
    ensures Total(ds + [d], kind) == Total(ds, kind) + Size(d, kind)
  {
    assert (ds + [d])[..|ds|] == ds;
  }

  datatype DepartmentLine = DepartmentLine(name: string, patients: nat, staff: nat)

  datatype Statistics = Statistics(
    name: string, location: string,
    departments: nat, patients: nat, staff: nat,
    breakdown: seq<DepartmentLine>)

  /** The figures the statistics screen shows. */
  function ShowStatistics(h: Hospital): (r: Statistics)
    ensures r.name == h.name && r.location == h.location
    ensures r.departments == |h.departments| == |r.breakdown|
    ensures forall k :: 0 <= k < |r.breakdown| ==>
              r.breakdown[k] == DepartmentLine(h.departments[k].name, |h.departments[k].patients|, |h.departments[k].staff|)
    ensures r.patients == Total(h.departments, PatientKind)
    ensures r.staff == Total(h.departments, StaffKind)
  {
    var ds := h.departments;
    Statistics(h.name, h.location, |ds|, Total(ds, PatientKind), Total(ds, StaffKind),
               seq(|ds|, k requires 0 <= k < |ds| => DepartmentLine(ds[k].name, |ds[k].patients|, |ds[k].staff|)))
  }

  // ------------------------------------------------------------- searching

  /** The names on one roster of every department, in department order. */
  function Grid(h: Hospital, kind: Kind): (g: seq<seq<string>>)
    ensures |g| == |h.departments|
    ensures forall d :: 0 <= d < |g| ==> g[d] == Names(h.departments[d], kind)
  {
    seq(|h.departments|, d requires 0 <= d < |h.departments| => Names(h.departments[d], kind))
  }

  /** The record at `c` exists and its name contains `needle`, ignoring case. */
  predicate IsMatch(h: Hospital, kind: Kind, needle: string, c: Coord) {
    c.dept < |h.departments| && c.index < Size(h.departments[c.dept], kind)
    && NameMatches(needle, NameAt(h.departments[c.dept], kind, c.index))
  }

  lemma GridMatchesHospital(h: Hospital, kind: Kind, needle: string)
    ensures forall c :: MatchAt(Grid(h, kind), needle, c) <==> IsMatch(h, kind, needle, c)
  {
  }

  /** Every match on one roster of the hospital, each once, in scan order. */
  function Matches(h: Hospital, kind: Kind, needle: string): (r: seq<Coord>)
    ensures forall k :: 0 <= k < |r| ==> IsMatch(h, kind, needle, r[k])
    ensures forall c :: IsMatch(h, kind, needle, c) ==> c in r
    ensures forall k, l :: 0 <= k < l < |r| ==> Before(r[k], r[l])
  {
    GridMatchesHospital(h, kind, needle);
    FindAll(Grid(h, kind), needle)
  }

  /** The match on one roster that a scan meets first, if any. */
  function FirstMatch(h: Hospital, kind: Kind, needle: string): (r: Option<Coord>)
    ensures r.None? <==> forall c :: !IsMatch(h, kind, needle, c)
    ensures r.Some? ==> IsMatch(h, kind, needle, r.value)
    ensures r.Some? ==> forall c :: IsMatch(h, kind, needle, c) ==> c == r.value || Before(r.value, c)
  {
    GridMatchesHospital(h, kind, needle);
    FindFirst(Grid(h, kind), needle)
  }

  /** A search result: where the record is, its department's name, and the record. */
  datatype Hit = Hit(at: Coord, department: string, entry: Entry)

  /** The search results for the records at `found`. */
  function HitsAt(h: Hospital, kind: Kind, found: seq<Coord>): (r: seq<Hit>)
    requires forall k :: 0 <= k < |found| ==>
               found[k].dept < |h.departments| && found[k].index < Size(h.departments[found[k].dept], kind)
    ensures |r| == |found|
    ensures forall k :: 0 <= k < |r| ==> r[k].at == found[k]
    ensures forall k :: 0 <= k < |r| ==> r[k].department == h.departments[found[k].dept].name
    ensures forall k :: 0 <= k < |r| ==> r[k].entry == EntryAt(h.departments[found[k].dept], kind, found[k].index)
  {
    seq(|found|, k requires 0 <= k < |found| =>
      Hit(found[k], h.departments[found[k].dept].name, EntryAt(h.departments[found[k].dept], kind, found[k].index)))
  }

  lemma HitsCoverMatches(h: Hospital, kind: Kind, needle: string)
    ensures var hits := HitsAt(h, kind, Matches(h, kind, needle));
            forall c :: IsMatch(h, kind, needle, c) ==> exists k :: 0 <= k < |hits| && hits[k].at == c
  {
    var found := Matches(h, kind, needle);
    var hits := HitsAt(h, kind, found);
    forall c | IsMatch(h, kind, needle, c)
      ensures exists k :: 0 <= k < |hits| && hits[k].at == c
    {
      var k :| 0 <= k < |found| && found[k] == c;
      assert hits[k].at == c;
    }
  }

  /** `search_patient` / `search_staff`: every record whose lower-cased name
      contains the stripped, lower-cased query, each with its department, in
      department order and then roster order. An empty query searches nothing. */
  function Search(h: Hospital, kind: Kind, query: string): (r: Option<seq<Hit>>)
    ensures r.None? <==> Normalize(query) == []
    ensures r.Some? ==> forall k :: 0 <= k < |r.value| ==>
              IsMatch(h, kind, Normalize(query), r.value[k].at)
              && r.value[k].department == h.departments[r.value[k].at.dept].name
              && r.value[k].entry == EntryAt(h.departments[r.value[k].at.dept], kind, r.value[k].at.index)
    ensures r.Some? ==> forall c :: IsMatch(h, kind, Normalize(query), c) ==>
              exists k :: 0 <= k < |r.value| && r.value[k].at == c
    ensures r.Some? ==> forall k, l :: 0 <= k < l < |r.value| ==> Before(r.value[k].at, r.value[l].at)
  {
    var needle := Normalize(query);
    if needle == [] then None
    else
      var hits := HitsAt(h, kind, Matches(h, kind, needle));
      HitsCoverMatches(h, kind, needle);
      Some(hits)
  }

  // -------------------------------------------------------------- deleting

  datatype DeleteStatus =
    | EmptyQuery
    | NotFound
    | Cancelled(at: Coord)
    | Deleted(at: Coord, entry: Entry)

  /** The confirmation prompt accepts `y` after `.strip().lower()`. */
  function Confirms(answer: string): bool {
    Normalize(answer) == "y"
  }

  /** The accepted answers are exactly those holding one `y` or `Y` and
      otherwise only whitespace. */
  lemma ConfirmsExactlyOneY(answer: string)
    ensures Confirms(answer) <==>
              exists i :: 0 <= i < |answer| && (answer[i] == 'y' || answer[i] == 'Y')
                          && forall k :: 0 <= k < |answer| && k != i ==> IsSpace(answer[k])
  {
    StripSingle(answer, 'y');
    StripSingle(answer, 'Y');
    var t := Strip(answer);
    assert Lower(t) == "y" <==> t == "y" || t == "Y" by {
      if Lower(t) == "y" {
        assert |t| == 1 && LowerChar(t[0]) == 'y';
      }
    }
  }

  /** The hospital with the record at `c` popped from its roster. */
  function RemoveRecord(h: Hospital, kind: Kind, c: Coord): (r: Hospital)
    requires c.dept < |h.departments| && c.index < Size(h.departments[c.dept], kind)
    ensures r.name == h.name && r.location == h.location
    ensures |r.departments| == |h.departments|
    ensures forall d :: 0 <= d < |h.departments| && d != c.dept ==> r.departments[d] == h.departments[d]
    ensures r.departments[c.dept] == RemoveAt(h.departments[c.dept], kind, c.index)
    ensures Total(r.departments, kind) == Total(h.departments, kind) - 1
    ensures Total(r.departments, Other(kind)) == Total(h.departments, Other(kind))
  {
    var ds := h.departments;
    var d := RemoveAt(ds[c.dept], kind, c.index);
    TotalUpdate(ds, c.dept, d, kind);
    TotalUpdate(ds, c.dept, d, Other(kind));
    h.(departments := ds[c.dept := d])
  }

  /** `delete_patient` / `delete_staff`: finds the first record in scan order
      whose name matches the query and, only if the answer confirms, pops it
      and saves. Later matches are never considered. */
  function Delete(h: Hospital, kind: Kind, query: string, answer: string): (r: Step<DeleteStatus>)
    ensures r.status.EmptyQuery? <==> Normalize(query) == []
    ensures r.status.NotFound? <==> Normalize(query) != [] && forall c :: !IsMatch(h, kind, Normalize(query), c)
    ensures r.status.Deleted? <==> Normalize(query) != [] && (exists c :: IsMatch(h, kind, Normalize(query), c)) && Confirms(answer)
    ensures (r.status.Cancelled? || r.status.Deleted?) ==>
              IsMatch(h, kind, Normalize(query), r.status.at)
              && forall c :: IsMatch(h, kind, Normalize(query), c) ==> c == r.status.at || Before(r.status.at, c)
    ensures !r.status.Deleted? ==> r.hospital == h && r.written.None?
    ensures r.status.Deleted? ==> r.status.entry == EntryAt(h.departments[r.status.at.dept], kind, r.status.at.index)
    ensures r.status.Deleted? ==> r.hospital == RemoveRecord(h, kind, r.status.at)
    ensures r.status.Deleted? ==> r.written == Some(SaveData(r.hospital))
  {
    var needle := Normalize(query);
    if needle == [] then Unchanged(h, EmptyQuery) else DeleteFirstMatch(h, kind, needle, answer)
  }

  /** What `Delete` reports once the query has been normalised: the first
      match in scan order, and whether the answer confirms its removal. */
  function DeleteDecision(h: Hospital, kind: Kind, needle: string, answer: string): (s: DeleteStatus)
    ensures !s.EmptyQuery?
    ensures s.NotFound? <==> forall c :: !IsMatch(h, kind, needle, c)
    ensures s.Deleted? <==> (exists c :: IsMatch(h, kind, needle, c)) && Confirms(answer)
    ensures (s.Cancelled? || s.Deleted?) ==>
              IsMatch(h, kind, needle, s.at)
              && forall c :: IsMatch(h, kind, needle, c) ==> c == s.at || Before(s.at, c)
    ensures s.Deleted? ==> s.entry == EntryAt(h.departments[s.at.dept], kind, s.at.index)
  {
    if FirstMatch(h, kind, needle).None? then NotFound
    else if Confirms(answer) then
      Deleted(FirstMatch(h, kind, needle).value,
              EntryAt(h.departments[FirstMatch(h, kind, needle).value.dept], kind, FirstMatch(h, kind, needle).value.index))
    else Cancelled(FirstMatch(h, kind, needle).value)
  }

  /** The part of `Delete` after the query has been normalised. */
  function DeleteFirstMatch(h: Hospital, kind: Kind, needle: string, answer: string): (r: Step<DeleteStatus>)
    ensures r.status == DeleteDecision(h, kind, needle, answer)
    ensures !r.status.Deleted? ==> r.hospital == h && r.written.None?
    ensures r.status.Deleted? ==> r == DeleteAt(h, kind, r.status.at)
  {
    if DeleteDecision(h, kind, needle, answer).Deleted? then DeleteAt(h, kind, DeleteDecision(h, kind, needle, answer).at)
    else Unchanged(h, DeleteDecision(h, kind, needle, answer))
  }

  /** Pops the confirmed record at `c` and saves. */
  function DeleteAt(h: Hospital, kind: Kind, c: Coord): (r: Step<DeleteStatus>)
    requires c.dept < |h.departments| && c.index < Size(h.departments[c.dept], kind)
    ensures r.status == Deleted(c, EntryAt(h.departments[c.dept], kind, c.index))
    ensures r.hospital == RemoveRecord(h, kind, c) && r.written == Some(SaveData(r.hospital))
  {
    Commit(RemoveRecord(h, kind, c), Deleted(c, EntryAt(h.departments[c.dept], kind, c.index)))
  }

  // ---------------------------------------------------------------- adding

  datatype AddStatus = NoDepartments | EmptyName | InvalidNumber | InvalidDepartment | Added

  /** The record `add_patient` or `add_staff` constructs. */
  function NewEntry(kind: Kind, name: string, age: int, detail: string): (e: Entry)
    ensures e.Kind() == kind && e.Person() == PersonRecord.Person(name, age)
    ensures kind == PatientKind ==> e.patient.medicalRecord == detail
    ensures kind == StaffKind ==> e.member.position == detail
  {
    if kind == PatientKind then
      PatientEntry(NewPatient(JString(name), JInt(age), JString(detail)).value)
    else
      var s := NewStaff(JString(name), JInt(age), JString(detail)).value;
      assert s.person == PersonRecord.Person(name, age);
      assert kind == StaffKind;
      assert StaffEntry(s).Kind() == kind;
      assert StaffEntry(s).Person() == s.person;
      StaffEntry(s)
  }

  /** The hospital with `e` appended to the roster of its kind in department `i`. */
  function InsertRecord(h: Hospital, i: nat, e: Entry): (r: Hospital)
    requires i < |h.departments|
    ensures r.name == h.name && r.location == h.location
    ensures |r.departments| == |h.departments|
    ensures forall d :: 0 <= d < |h.departments| && d != i ==> r.departments[d] == h.departments[d]
    ensures r.departments[i] == Append(h.departments[i], e)
    ensures Total(r.departments, e.Kind()) == Total(h.departments, e.Kind()) + 1
    ensures Total(r.departments, Other(e.Kind())) == Total(h.departments, Other(e.Kind()))
  {
    var ds := h.departments;
    var d := Append(ds[i], e);
    TotalUpdate(ds, i, d, e.Kind());
    TotalUpdate(ds, i, d, Other(e.Kind()));
    h.(departments := ds[i := d])
  }

  /** `add_patient` / `add_staff`. The checks run in the program's order: a
      hospital without departments, an empty stripped name, an age or choice
      that is not a number, and a 1-based department choice out of range each
      abort without change. Otherwise the record, with stripped name and
      detail, is appended to the chosen department and the hospital saved. */
  function AddMember(h: Hospital, kind: Kind, name: string, age: Option<int>, detail: string, choice: Option<int>)
    : (r: Step<AddStatus>)
    ensures r.status.NoDepartments? <==> |h.departments| == 0
    ensures r.status.EmptyName? <==> |h.departments| > 0 && Strip(name) == []
    ensures r.status.InvalidNumber? <==> |h.departments| > 0 && Strip(name) != [] && (age.None? || choice.None?)
    ensures r.status.Added? <==>
              |h.departments| > 0 && Strip(name) != [] && age.Some? && choice.Some? && 1 <= choice.value <= |h.departments|
    ensures !r.status.Added? ==> r.hospital == h && r.written.None?
    ensures r.status.Added? ==>
              && r.hospital == InsertRecord(h, choice.value - 1, NewEntry(kind, Strip(name), age.value, Strip(detail)))
              && r.written == Some(SaveData(r.hospital))
  {
    if |h.departments| == 0 then Unchanged(h, NoDepartments)
    else AddStripped(h, kind, Strip(name), age, Strip(detail), choice)
  }

  /** The checks of `AddMember` after the name and detail have been stripped. */
  function AddStripped(h: Hospital, kind: Kind, name: string, age: Option<int>, detail: string, choice: Option<int>)
    : (r: Step<AddStatus>)
    ensures !r.status.NoDepartments?
    ensures r.status.EmptyName? <==> name == []
    ensures r.status.InvalidNumber? <==> name != [] && (age.None? || choice.None?)
    ensures r.status.Added? <==> name != [] && age.Some? && choice.Some? && 1 <= choice.value <= |h.departments|
    ensures !r.status.Added? ==> r.hospital == h && r.written.None?
    ensures r.status.Added? ==>
              && r.hospital == InsertRecord(h, choice.value - 1, NewEntry(kind, name, age.value, detail))
              && r.written == Some(SaveData(r.hospital))
  {
    if name == [] then Unchanged(h, EmptyName)
    else if age.None? || choice.None? then Unchanged(h, InvalidNumber)
    else if 1 <= choice.value <= |h.departments| then
      Commit(InsertRecord(h, choice.value - 1, NewEntry(kind, name, age.value, detail)), Added)
    else Unchanged(h, InvalidDepartment)
  }

  /** `add_department`: an empty stripped name changes nothing; otherwise one
      department with that name and empty rosters is appended and the
      hospital saved. */
  function AddDepartmentAction(h: Hospital, name: string): (r: Step<AddStatus>)
    ensures r.status == Added <==> Strip(name) != []
    ensures r.status != Added ==> r.status == EmptyName && r.hospital == h && r.written.None?
    ensures r.status == Added ==>
              && r.hospital.name == h.name && r.hospital.location == h.location
              && |r.hospital.departments| == |h.departments| + 1
              && r.hospital.departments[..|h.departments|] == h.departments
              && r.hospital.departments[|h.departments|] == Department(Strip(name), [], [])
              && r.written == Some(SaveData(r.hospital))
  {
    var n := Strip(name);
    if n == [] then Unchanged(h, EmptyName)
    else Commit(AddDepartment(h, NewDepartment(n)), Added)
  }
}
