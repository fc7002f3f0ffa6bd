# Hospital management system: a Dafny model of its core

The program is a terminal application that keeps one hospital in memory. A
hospital has a name, a location and an ordered list of departments. Each
department has a name and two ordered rosters, one of patients and one of
staff members. Patients and staff are persons, meaning a name and an age.
A patient also has a free-form medical record, and a staff member has a
position. The hospital is loaded from a JSON data file at start-up. Every
change is saved back to that file at once.

This project models:

- the five record classes, with their constructors' type checks and their
  `view_info` / `view_record` lines;
- the mapping between a hospital and the decoded JSON value that `save_data`
  writes and `load_data` reads, including each error `load_data` can raise
  and the fallback to a default hospital;
- the menu actions that change or inspect the hospital: adding a patient,
  a staff member or a department, the statistics totals, search, and
  delete.

The Python builtins these rely on are modelled over ASCII:
`str.strip()`, `str.lower()`, `needle in hay` and `str(int)`.

Layout, one module per concern:

| file | module | models |
|---|---|---|
| `wrappers.dfy` | `Wrappers`, `Errors` | `Option`/`Result`, and the exceptions loading can raise |
| `json.dfy` | `JsonValue` | the value `json.load` returns; `value[key]` and `for x in value` |
| `text.dfy` | `Text` | `strip`, `lower`, substring test, `str(int)` and reading it back |
| `person.dfy`, `patient.dfy`, `staff.dfy` | `PersonRecord`, `PatientRecord`, `StaffRecord` | `model/person.py`, `model/patient.py`, `model/staff.py` |
| `department.dfy`, `hospital.dfy` | `DepartmentRecord`, `HospitalRecord` | `model/department.py`, `model/hospital.py` |
| `scan.dfy` | `Scan` | the department-then-roster scan that search and delete share |
| `persistence.dfy` | `Persistence` | `save_data`, `load_data` |
| `actions.dfy` | `Actions` | the menu actions of `main.py` |

Modelling choices:

- **Terminal input becomes parameters.** Typed text is a `string`. A number
  read with `int(...)` is an `Option<int>`, where `None` means the
  conversion raised `ValueError`.
- **Actions return their results.** Each action that can change the
  hospital returns a `Step`: the hospital afterwards, a status naming the
  branch the program took, and the value tree written to the data file. The
  written value is `Some` exactly when the program calls `save_data`. Search
  returns the records it reports and the statistics screen returns its
  figures.
- **Reading the file is an outcome.** Opening and decoding the file is a
  `ReadOutcome`: the file is missing, the file is not JSON, some other read
  failure, or the decoded value.
- **Duplicate keys.** A decoded JSON object is an ordered list of bindings.
  The last binding of a key wins, as when `json.load` builds a dict.
- **No age range check.** Ages are not range-checked: the constructors
  accept any integer, negative ones included.
- **Booleans count as integers.** Because `isinstance(True, int)` holds in
  Python, a JSON `true` or `false` age is accepted as 1 or 0.

## Model

| member | source | states |
|---|---|---|
| JsonValue.Binding | main.py:58 | a key has a binding exactly when some entry carries it, and the value returned is the one at the key's last entry, as in a dict built by `json.load` |
| JsonValue.Get | main.py:62-63 | `value[key]` succeeds exactly on an object holding the key; it gives the last binding; it raises KeyError naming the key on an object without it, and TypeError on any other value |
| JsonValue.GetLastBinding | main.py:62-63 | for a key whose last entry is at position i, `value[key]` yields that entry's value |
| JsonValue.Keys | main.py:58 | the keys of a decoded object are its distinct keys, each once, in the order of their first binding, as in a dict built by `json.load` |
| JsonValue.Iterate | main.py:67 | `for x in value` visits an array's items in order, a string's characters one by one as strings, or an object's distinct keys in first-binding order; numbers, booleans and null raise TypeError |
| JsonValue.IterateRepeatedKey | main.py:58-67 | the object `{"a":1,"a":2}`, whose key is bound twice, is iterated as `["a"]` |
| Text.Strip | main.py:178 | the result is a contiguous piece of the input with only whitespace before and after it, and it neither starts nor ends with whitespace |
| Text.StripIdempotent | main.py:178 | stripping an already stripped string changes nothing |
| Text.StripEmptyIffBlank | main.py:178-179 | the stripped input is empty exactly when every character of the input is whitespace |
| Text.StripSingle | main.py:358 | the stripped input is one character c exactly when c is not whitespace, occurs once in the input, and everything else is whitespace |
| Text.Lower | main.py:294 | same length as the input, each character lowered in place |
| Text.LowerIdempotent | main.py:303 | lowering is idempotent and leaves no upper-case ASCII letter |
| Text.Contains | main.py:303 | `needle in hay` holds exactly when the needle occurs at some index of the haystack |
| Text.IntToString | model/person.py:21 | `str(age)` is non-empty, all digits apart from a leading minus sign, and starts with a minus sign exactly for a negative number; there is no leading zero, so only 0 itself starts with `0` and no negative number has `0` after its sign |
| Text.IntToStringParses | model/person.py:21 | the integer is recovered from its decimal text |
| PersonRecord.NewPerson | model/person.py:6-15 | construction succeeds exactly when the name is a string and the age passes `isinstance(_, int)`; otherwise it raises TypeError with the program's message; on success the fields hold the arguments |
| PersonRecord.ViewInfo | model/person.py:17-21 | the person line starts with "Person Name: " and the name, then ", Age: " at a position after which that text never occurs again, and ends with the decimal age |
| PersonRecord.NoLaterAgeLabel | model/person.py:21 | in a person line, the text ", Age: " occurs at no position after the one written before the age |
| PersonRecord.ViewInfoReadsBack | model/person.py:17-21 | the person line loses nothing: splitting it at the last ", Age: " gives back the name and age |
| PatientRecord.NewPatient | model/patient.py:10-21 | a patient is built exactly when the person part is valid and the record is text; the person's TypeError takes precedence; the fields hold the arguments |
| PatientRecord.ViewRecord | model/patient.py:23-30 | the record line starts with "Medical Record for ", names the patient right after it, and ends with ": " and the record; its length is exactly the sum of these four parts, so nothing else is in the line |
| PatientRecord.ViewRecordIgnoresAge | model/patient.py:30 | the record line does not depend on the patient's age |
| PatientRecord.ViewInfo | model/patient.py:32-40 | the patient line is the person line with "Patient" in place of "Person", followed by ", Medical Record: " and the record |
| PatientRecord.ViewInfoAmbiguous | model/patient.py:40 | two different patients can have the same line, because the name and the record may themselves contain ", Age: " and ", Medical Record: " |
| StaffRecord.NewStaff | model/staff.py:7-12 | a staff member is built exactly when the person part is valid and the position is text; the person's TypeError takes precedence; the fields hold the arguments |
| StaffRecord.ViewInfo | model/staff.py:14-16 | the staff line is the person line with "Staff" in place of "Person", followed by ", Position: " and the position |
| DepartmentRecord.NewDepartment | model/department.py:8-11 | a new department carries the given name and has no patients and no staff |
| DepartmentRecord.AddPatient | model/department.py:13-17 | the patient roster grows by one at its end, earlier entries unchanged; name and staff untouched |
| DepartmentRecord.AddStaffMember | model/department.py:19-23 | the staff roster grows by one at its end, earlier entries unchanged; name and patients untouched |
| DepartmentRecord.AddPatientKeepsDuplicates | model/department.py:13-17 | there is no uniqueness check: adding a patient already present raises that patient's count by one |
| DepartmentRecord.AddStaffMemberKeepsDuplicates | model/department.py:19-23 | there is no uniqueness check: adding a staff member already present raises that member's count by one |
| DepartmentRecord.Names | main.py:301-303 | the names scanned on one roster, one per entry, in roster order |
| DepartmentRecord.Append | model/department.py:13-23 | adding an entry of either kind grows only its own roster, at the end; the other roster and the name are untouched |
| DepartmentRecord.RemoveAt | main.py:361 | `roster.pop(i)` shortens the roster by one; entries before i keep their place and later ones move down by one; the other roster and the name are untouched |
| HospitalRecord.NewHospital | model/hospital.py:8-16 | construction succeeds exactly when name and location are strings, otherwise it raises TypeError with the program's message; a new hospital has no departments |
| HospitalRecord.AddDepartment | model/hospital.py:18-24 | the department is appended after the existing ones, which are unchanged; name and location are untouched |
| Scan.Normalize | main.py:294 | the typed query after `.strip().lower()` is no longer than the input, holds no upper-case letter, and is empty exactly when the input is all whitespace |
| Scan.NameMatches | main.py:303 | the empty query matches every name, and a matching query is no longer than the name |
| Scan.UpperNeedleNeverMatches | main.py:303 | a query holding an upper-case letter matches no name, since the name is lowered before the test |
| Scan.RowMatches | main.py:302-303 | the scan of one roster from a position on yields exactly the matching positions, in increasing order |
| Scan.GridMatches | main.py:301-303 | the scan of the departments from one on yields exactly the matches there, in department-then-roster order |
| Scan.FindAll | main.py:300-308 | every match in the grid is reported, nothing else is, and the order is the scan order |
| Scan.FindFirst | main.py:353-355 | no match exists exactly when none is returned; otherwise the one returned matches and every other match comes after it in scan order |
| Scan.SubstringIgnoresCase | main.py:303 | the query "an" matches both "Anna" and "Juan": matching ignores case and is a substring test, not a prefix test |
| Persistence.DefaultHospital | main.py:92-97 | the fallback hospital is "Cairo Hospital" in "Cairo, Egypt" with no departments |
| Persistence.PatientToJson | main.py:114-118 | a saved patient has exactly the keys `name`, `age` and `medical_record`, in that order, bound to its fields |
| Persistence.StaffToJson | main.py:122-126 | a saved staff member has exactly the keys `name`, `age` and `position`, in that order, bound to its fields |
| Persistence.DepartmentToJson | main.py:111-129 | a saved department binds `name` to its name, and `patients` and `staff` to its rosters encoded entry by entry, in order |
| Persistence.DepartmentToJsonKeys | main.py:111-129 | a saved department has exactly the keys `name`, `patients` and `staff`, in that order |
| Persistence.HeaderToJson | main.py:103-106 | the saved header has exactly the keys `name` and `location`, in that order, bound to the hospital's name and location |
| Persistence.SaveDataFields | main.py:100-130 | the saved value has exactly the keys `hospital` and `departments`, in that order; `hospital` is bound to the header and `departments` to the departments encoded entry by entry, in order |
| Persistence.EncodeEach | main.py:113-128 | a list comprehension encodes each element in place and keeps the length |
| Persistence.LoadEach | main.py:71-77 | a loading loop succeeds exactly when every element loads, giving the elements' values in order; otherwise it fails with the error of the first element that fails |
| Persistence.LoadList | main.py:67 | `for x in j[key]` propagates the error of a missing key, raises TypeError when the bound value is not iterable, and otherwise loads exactly the items iterating it visits |
| Persistence.LoadPatient | main.py:72-76 | a patient entry raises TypeError when not an object; KeyError for the first of name, age, medical_record that is missing; TypeError for a non-string name or non-integer age; `NonText` for a non-string record; otherwise it loads, and the record holds the entry's values |
| Persistence.LoadStaff | main.py:81-85 | a staff entry raises TypeError when not an object; KeyError for the first of name, age, position that is missing; TypeError for a non-string name or non-integer age; `NonText` for a non-string position; otherwise it loads, and the record holds the entry's values |
| Persistence.LoadDepartment | main.py:67-88 | a department entry loads exactly when it has a text name and both rosters load; otherwise the first failure in program order (the name, then the patients, then the staff) propagates, a `NonText` refusal counting as a failure of its own entry; on success it holds the entry's name and the loaded rosters |
| Persistence.BadPatientFailsDepartment | main.py:71-77 | one patient entry that fails to load makes its department fail |
| Persistence.BadStaffFailsDepartment | main.py:80-86 | one staff entry that fails to load makes its department fail |
| Persistence.LoadHeader | main.py:61-64 | the header raises TypeError when not an object and KeyError for the first of name, location that is missing; otherwise it is the hospital the constructor builds from them |
| Persistence.LoadTree | main.py:60-90 | a decoded value loads exactly when the header loads and every department loads; otherwise the first failure (the header, then the departments) propagates; on success name and location are the header's and the departments are the loaded ones, in order |
| Persistence.BadDepartmentFailsLoad | main.py:67-88 | one department entry that fails to load makes the whole load fail |
| Persistence.BadPatientFailsLoad | main.py:56-90 | one patient entry that fails to load, in any department, makes the whole load fail |
| Persistence.LoadData | main.py:54-97 | a missing or non-JSON file gives the default hospital; any other read failure propagates; a decoded value is rebuilt, and every error on the way propagates |
| Persistence.PatientRoundTrip | main.py:114-118 | loading a saved patient gives back the same patient |
| Persistence.StaffRoundTrip | main.py:122-126 | loading a saved staff member gives back the same staff member |
| Persistence.ListRoundTrip | main.py:67-88 | loading a list saved under a key, as an array, gives the list back when each element comes back |
| Persistence.EachRoundTrip | main.py:113-128 | loading an encoded list gives the list back when each element comes back |
| Persistence.PatientsRoundTrip | main.py:113-120 | loading a saved patient roster gives the same roster in the same order |
| Persistence.StaffListRoundTrip | main.py:121-128 | loading a saved staff roster gives the same roster in the same order |
| Persistence.DepartmentRoundTrip | main.py:111-129 | loading a saved department gives back its name and both rosters |
| Persistence.DepartmentsRoundTrip | main.py:110-130 | loading the saved departments gives the same departments in the same order |
| Persistence.SaveLoadRoundTrip | main.py:100-130 | what `save_data` writes, `load_data` reads back as the same hospital |
| Actions.CommitReloads | main.py:198 | an auto-saving action writes a value that loads back as the hospital it leaves |
| Actions.Total | main.py:271-272 | a roster total is at least every department's roster size, and is zero exactly when every such roster is empty |
| Actions.TotalUpdate | main.py:271-272 | replacing one department changes a roster total by exactly the change in that department's roster size |
| Actions.TotalAppend | main.py:271-272 | appending a department adds its roster size to the total |
| Actions.ShowStatistics | main.py:267-287 | the screen shows the name, location and department count; the patient and staff totals over all departments; and one line per department with its name and roster sizes, in order |
| Actions.Matches | main.py:301-303 | the records on one roster whose name matches, each once, in scan order |
| Actions.FirstMatch | main.py:353-355 | the first record in scan order whose name matches, or none exactly when nothing matches |
| Actions.HitsAt | main.py:305-308 | each reported record comes with its department's name and its own fields |
| Actions.HitsCoverMatches | main.py:300-311 | every matching record appears among the reported ones |
| Actions.Search | main.py:290-313 | covers both search actions (`search_staff` is main.py:316-339); an empty stripped query searches nothing; otherwise exactly the records whose lower-cased name contains the stripped, lower-cased query are reported, each with its department, in scan order |
| Actions.ConfirmsExactlyOneY | main.py:358-360 | the answer confirms exactly when it holds one `y` or `Y` and otherwise only whitespace |
| Actions.RemoveRecord | main.py:361 | popping one record lowers that roster's total by one; the other roster's total and every other department are unchanged |
| Actions.Delete | main.py:342-371 | covers both delete actions (`delete_staff` is main.py:374-403); an empty query does nothing; with no match nothing changes; otherwise the first match in scan order is the candidate, and it is removed and saved exactly when the answer strips and lowers to "y"; nothing is saved unless a record is removed |
| Actions.NewEntry | main.py:193 | the record built for the roster of the given kind carries the given name, age and medical record or position |
| Actions.InsertRecord | main.py:194 | appending to one department's roster raises that roster's total by one and leaves the other roster's total and every other department unchanged |
| Actions.AddMember | main.py:168-205 | covers both add actions (`add_staff` is main.py:208-245); with no departments, an empty stripped name, a failed number conversion or a choice outside 1..n nothing changes or is saved; otherwise the new record is appended to the chosen department and the hospital saved |
| Actions.AddDepartmentAction | main.py:248-264 | an empty stripped name changes nothing; otherwise a department with that name and empty rosters is appended and the hospital saved |

## Left out

- Terminal output is not modelled: the menu loop, `clear_screen`,
  `print_header`, `print_menu`, the "Press Enter" pauses and every message
  text. The status each action returns names the branch the program took.
- The data file's path, directory creation, and the JSON text encoding are
  not modelled: `json.dump` and `json.load` are represented by the value
  tree.
- Saving on exit and on KeyboardInterrupt, in `main`, is not modelled: it
  is I/O around the model's `SaveData`.
- `core/system_manager.py` and `model/core/system_manager.py` are not part
  of this model.
- The `isinstance(department, Department)` check in `add_department`
  (model/hospital.py:21-22) cannot fail under the model's static types.
- The ages a user types go through `int(...)`, which is represented only
  by its outcome, an `Option<int>`.
- Text.Strip, Text.Lower: whitespace and case are ASCII only, not Python's
  Unicode tables.
- Errors.TypeError: the messages of builtin TypeErrors (subscripting or
  iterating the wrong kind of value) are paraphrased. The constructors'
  own messages are exact.
- Persistence.ReadOutcome: any read failure other than a missing file or
  malformed JSON, such as permissions or invalid UTF-8, is one outcome.
  `load_data` does not catch these.
- JsonValue.Json: non-integer numbers carry a `real`, not a binary float.
  No record field holds one, so nothing else depends on it.
- PatientRecord.NewPatient: the program stores a non-string medical record
  unchecked; the model refuses it with `NonText`. All the program's own
  checks come first, so every input the program rejects is rejected the
  same way.
- StaffRecord.NewStaff: the program stores a non-string position unchecked;
  the model refuses it with `NonText`, after the program's checks.
- Persistence.LoadDepartment: the program stores a non-string department
  name unchecked; the model refuses it with `NonText`, after the program's
  checks.
- Persistence.LoadPatient: inherits the `NonText` refusal of a non-string
  medical record from PatientRecord.NewPatient, where `load_data` would
  store it.
- Persistence.LoadStaff: inherits the `NonText` refusal of a non-string
  position from StaffRecord.NewStaff, where `load_data` would store it.
- Persistence.LoadTree: inherits the three `NonText` refusals above, so a
  file holding a non-string department name, medical record or position
  fails to load where the program would load it.
- Persistence.LoadData: inherits the same `NonText` refusals through
  LoadTree.
- Persistence.LoadDepartment, Persistence.LoadTree, Persistence.LoadData:
  when an entry holding a non-string department name, medical record or
  position comes before a malformed entry, the model fails with that
  `NonText` where the program stores the first entry and raises the later
  entry's KeyError or TypeError. The model reports the first failure in
  program order only among inputs whose text fields are strings.
- PersonRecord.NewPerson: a boolean age is stored as 1 or 0. Python keeps
  `True` or `False`, which `view_info` would print by name and `save_data`
  would write back as a boolean.
