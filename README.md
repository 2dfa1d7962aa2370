# Student record store

A verified model of the in-memory roster of a small student-management
application. The store keeps an insertion-ordered list of student records
(id, name, age) and a counter `nextId` that starts at 1. It has five operations:

- create (`addStudent`) hands out the counter's value as the new id, advances the counter and appends the record;
- update (`updateStudent`) overwrites name and age of the first record with a given id;
- delete (`deleteStudent`) removes every record with a given id;
- list (`getAllStudents`) returns a copy of the list;
- lookup (`findById`) returns the first match, or nothing.

Layout:

- `wrappers.dfy`, module `Wrappers`: the `Option` type used for "found / not found".
- `student.dfy`, module `Students`: the `Student` record as an immutable datatype, and its display form
  `Student{id=<id>, name='<name>', age=<age>}` with decimal numerals that read back to the same number.
- `student_service.dfy`, module `Service`: the store's operations as functions on sequences
  (`FirstMatch`, `Find`, `Replace`, `Without`, `Count`) with their lemmas, and the class
  `StudentService`. Its fields `students: seq<Student>` and `nextId: int` are reassigned by its methods.
  The object invariant `Valid()` says three things: `nextId >= 1`; ids strictly increase along the list,
  so they are pairwise distinct; every id lies in `[1, nextId)`. Each mutating method keeps `Valid()`
  and states its new state through those functions. The first-match search of the stream pipeline is the loop
  method `Locate`. `UpdateStudent` and `FindById` both use it.
- `scenarios.dfy`, module `ServiceScenarios`: client methods that replay the unit tests' scenarios on a
  fresh store. Their postconditions state what each scenario observes.

Delete removes *every* record with the id (`removeIf`), and `Without` models exactly that. Under
`Valid()` ids are unique, so removing every match removes exactly one record, at its position
(`CountAtMostOne`, `WithoutUnique`).

## Model

| member | source | states |
|---|---|---|
| `Service.StudentService.constructor` | src/main/java/com/studentmanagement/StudentService.java:6-7 | a new store is empty, its counter is 1, and the invariant holds |
| `Service.StudentService.AddStudent` | src/main/java/com/studentmanagement/StudentService.java:8-12 | the result is `{old nextId, name, age}`; the counter grows by exactly 1; the list is the old list with the record appended at the end; the invariant is kept |
| `Service.StudentService.UpdateStudent` | src/main/java/com/studentmanagement/StudentService.java:13-20 | returns true iff some record has the id; the new list is `Replace` of the old one, i.e. unchanged when absent; the counter is unchanged; the invariant is kept |
| `Service.StudentService.DeleteStudent` | src/main/java/com/studentmanagement/StudentService.java:21-23 | returns true iff some record had the id; the new list is the old one without every record with that id; the counter is unchanged; the invariant is kept |
| `Service.StudentService.GetAllStudents` | src/main/java/com/studentmanagement/StudentService.java:24-26 | returns the current list, in order, as a value; nothing changes |
| `Service.StudentService.FindById` | src/main/java/com/studentmanagement/StudentService.java:27-29 | returns the first record with the id, which is a record of the store carrying that id, or nothing exactly when no record has it; nothing changes |
| `Service.StudentService.Locate` | src/main/java/com/studentmanagement/StudentService.java:28 | the linear search returns the index of the first record with the id, or nothing |
| `Service.FirstMatch` | src/main/java/com/studentmanagement/StudentService.java:14 | nothing iff no record has the id; otherwise an in-range index whose record has the id and before which no record has it |
| `Service.Find` | src/main/java/com/studentmanagement/StudentService.java:27-29 | nothing iff the id is absent; otherwise a member of the list carrying the id |
| `Service.Without` | src/main/java/com/studentmanagement/StudentService.java:22 | the result is no longer than the list; a record is in it iff it is in the list and has a different id |
| `Service.Count` | src/main/java/com/studentmanagement/StudentService.java:22 | the number of matches is at most the length, and zero iff the id is absent |
| `Service.FindEmpty` | src/test/java/com/studentmanagement/StudentServiceTest.java:179-184 | lookup on an empty store finds nothing |
| `Service.FirstMatchIsOnlyMatch` | src/main/java/com/studentmanagement/StudentService.java:14 | with increasing ids, any record carrying the id is the first match, so "first" decides nothing |
| `Service.FirstMatchDependsOnIdsOnly` | src/main/java/com/studentmanagement/StudentService.java:16-18 | lists with the same ids at every position have the same first match, so overwriting name and age does not move lookups |
| `Service.AppendKeepsInvariant` | src/main/java/com/studentmanagement/StudentService.java:9-10 | appending `{nextId, …}` keeps ids increasing and all below `nextId + 1` |
| `Service.FindAfterAppend` | src/main/java/com/studentmanagement/StudentService.java:8-11 | after create, looking up the returned id yields exactly the created record |
| `Service.FindAfterAppendOther` | src/main/java/com/studentmanagement/StudentService.java:10 | create does not change what an already present id finds |
| `Service.FirstMatchPrefix` | src/main/java/com/studentmanagement/StudentService.java:10 | appending does not move the first match of an id already present |
| `Service.Replace` | src/main/java/com/studentmanagement/StudentService.java:14-18 | update keeps the length and every id; when absent the list is unchanged; when present the first match becomes `{id, newName, newAge}` at the same position and every other record is untouched |
| `Service.ReplaceKeepsInvariant` | src/main/java/com/studentmanagement/StudentService.java:16-18 | update keeps ids increasing and below the counter |
| `Service.FindAfterReplace` | src/test/java/com/studentmanagement/StudentManagementAppTest.java:242-258 | after update of a present id, lookup yields `{id, newName, newAge}` with the id unchanged |
| `Service.FindOtherAfterReplace` | src/main/java/com/studentmanagement/StudentService.java:13-19 | update does not change what any other id finds |
| `Service.WithoutConcat` | src/main/java/com/studentmanagement/StudentService.java:22 | removal distributes over concatenation, so survivors keep their relative order |
| `Service.WithoutAbsent` | src/test/java/com/studentmanagement/StudentServiceTest.java:134-142 | deleting an absent id leaves the list exactly as it was |
| `Service.WithoutLength` | src/main/java/com/studentmanagement/StudentService.java:22 | the length drops by exactly the number of records with the id |
| `Service.WithoutRemovesAll` | src/main/java/com/studentmanagement/StudentService.java:22 | after delete no record has the id, so a second delete changes nothing (and returns false) |
| `Service.CountAtMostOne` | src/main/java/com/studentmanagement/StudentService.java:7-9 | with increasing ids at most one record carries any id |
| `Service.WithoutUnique` | src/main/java/com/studentmanagement/StudentService.java:21-23 | with increasing ids, deleting a present id removes exactly the one record at its position and keeps all others in order |
| `Service.WithoutKeepsIncreasing` | src/main/java/com/studentmanagement/StudentService.java:22 | delete keeps ids strictly increasing |
| `Service.WithoutKeepsIdsBelow` | src/main/java/com/studentmanagement/StudentService.java:22 | delete keeps every id in `[1, nextId)` |
| `Students.NatToString` | src/test/java/com/studentmanagement/StudentTest.java:72 | a non-empty string of decimal digits with no leading zero, `"0"` only for 0 |
| `Students.NatToStringRoundTrip` | src/test/java/com/studentmanagement/StudentTest.java:72 | reading the digits back gives the number |
| `Students.IntToString` | src/test/java/com/studentmanagement/StudentTest.java:72 | a canonical numeral (digits after an optional minus sign, no leading zero, no `-0`) that begins with a minus sign iff the number is negative |
| `Students.IntToStringRoundTrip` | src/test/java/com/studentmanagement/StudentTest.java:72 | reading the numeral back gives the integer |
| `Students.ToString` | src/test/java/com/studentmanagement/StudentTest.java:72 | the display form is `Student{id=` a numeral, `, name='`, the name as given, `', age=`, a numeral, `}`, where the numerals are canonical (no leading zero, no `-0`) and read back to the id and the age |
| `Students.ToStringExample` | src/test/java/com/studentmanagement/StudentTest.java:70-74 | `{1, "John Doe", 25}` displays as `Student{id=1, name='John Doe', age=25}` |
| `Students.ToStringAfterModificationExample` | src/test/java/com/studentmanagement/StudentTest.java:76-82 | `{1, "Jane Smith", 28}` displays as `Student{id=1, name='Jane Smith', age=28}` |
| `ServiceScenarios.IdsIncrementProperly` | src/test/java/com/studentmanagement/StudentServiceTest.java:186-197 | four creates on a fresh store get ids 1, 2, 3, 4 |
| `ServiceScenarios.IdsNotReusedAfterDelete` | src/main/java/com/studentmanagement/StudentService.java:7-9 | after create and delete of id 1, the next create gets id 2 and is the only record |
| `ServiceScenarios.CreateThenFind` | src/test/java/com/studentmanagement/StudentServiceTest.java:158-168 | after creating Alice and Bob, the first create returned `{1, "Alice", 22}` and lookup of id 1 finds it |
| `ServiceScenarios.InvalidIdHandling` | src/test/java/com/studentmanagement/StudentManagementAppTest.java:155-172 | update, delete and lookup of id 999 report not found and the list stays `[{1, "Alice", 22}]` |
| `ServiceScenarios.EmptyStore` | src/test/java/com/studentmanagement/StudentServiceTest.java:179-184 | on a fresh store lookup finds nothing and the listing is empty |
| `ServiceScenarios.SnapshotIndependence` | src/test/java/com/studentmanagement/StudentServiceTest.java:75-84 | a listing taken before a second create still holds one record; the later one holds both, in order |
| `ServiceScenarios.UpdateMultipleTimes` | src/test/java/com/studentmanagement/StudentServiceTest.java:107-120 | after each of two updates, lookup yields the latest name and age |
| `ServiceScenarios.MultipleOperationsSequence` | src/test/java/com/studentmanagement/StudentManagementAppTest.java:216-240 | create Alice, Bob, Charlie; update id 2; delete id 3: the listing is exactly `[{1,"Alice",22}, {2,"Bob Updated",25}]`, and a second delete of id 3 returns false |
| `ServiceScenarios.CompleteLifecycle` | src/test/java/com/studentmanagement/StudentServiceTest.java:221-242 | after update of id 1 and delete of id 2, one record remains, id 1 yields the updated record and id 2 yields nothing |

## Left out

- The interactive menu shell (`StudentManagementApp.java`) is left out: it is console input and output around the store. Its `readInt` retries on the parse exception of a library conversion, which is left out too.
- The record class's own source is not among the files modelled. The record is an immutable datatype; its setters become the datatype update inside `Replace`, and its display format follows the record's unit tests.
- Object aliasing is left out. In the source, the copy returned by `getAllStudents` is shallow. A later `updateStudent` mutates the shared `Student` objects through setters, so it also changes an earlier snapshot. Here records are values and update replaces the list element, so no snapshot ever changes.
- Service.StudentService.AddStudent: does not model the 32-bit wrap-around of `nextId++`. The counter is an unbounded integer, because no caller or test comes near 2^31 creates.
- The Java stream, `Optional` and `removeIf` machinery is expressed as a first-match search (`FirstMatch`, `Locate`) and a sequence filter (`Without`).
- `Students.ToString` puts the name between single quotes as given, escaping nothing. How the record class treats a quote inside a name is unknown here: the only test of the format uses a name without one.
