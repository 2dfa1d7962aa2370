/**
 * Clients of the store that replay the scenarios of its unit tests.  Each one
 * starts from a fresh store and states, in its postcondition, what the
 * scenario observes; the proofs use the store's method contracts and the
 * lemmas of module Service about the functions those contracts name.
 */
module ServiceScenarios {
  import opened Wrappers
  import opened Students
  import opened Service

  /** Four successive creates on a fresh store receive ids 1, 2, 3 and 4. */
  method IdsIncrementProperly() returns (ids: seq<int>)
    ensures ids == [1, 2, 3, 4]
  {
    var store := new StudentService();
    var s1 := store.AddStudent("First", 20);
    var s2 := store.AddStudent("Second", 21);
    var s3 := store.AddStudent("Third", 22);
    var s4 := store.AddStudent("Fourth", 23);
    ids := [s1.id, s2.id, s3.id, s4.id];
  }

  /** An id freed by a delete is not handed out again: the next create still gets a new one. */
  method IdsNotReusedAfterDelete() returns (first: Student, second: Student, all: seq<Student>)
    ensures first.id == 1 && second.id == 2
    ensures all == [Student(2, "Bob", 23)]
  {
    var store := new StudentService();
    first := store.AddStudent("Alice", 22);
    WithoutUnique(store.students, 1, 0);
    var deleted := store.DeleteStudent(1);
    second := store.AddStudent("Bob", 23);
    all := store.GetAllStudents();
  }

  /** Create two, then look up the first: it is found under its id with the given fields. */
  method CreateThenFind() returns (created: Student, found: Option<Student>)
    ensures created == Student(1, "Alice", 22)
    ensures found == Some(created)
  {
    var store := new StudentService();
    created := store.AddStudent("Alice", 22);
    FindAfterAppend([], 1, "Alice", 22);
    var one := store.students;
    assert one[0].id == 1;
    var bob := store.AddStudent("Bob", 23);
    FindAfterAppendOther(one, bob, 1);
    found := store.FindById(created.id);
  }

  /** Update, delete and lookup of an id that was never assigned all report "not found". */
  method InvalidIdHandling() returns (updated: bool, deleted: bool, found: Option<Student>, all: seq<Student>)
    ensures !updated && !deleted && found == None
    ensures all == [Student(1, "Alice", 22)]
  {
    var store := new StudentService();
    var alice := store.AddStudent("Alice", 22);
    updated := store.UpdateStudent(999, "Name", 25);
    WithoutAbsent(store.students, 999);
    deleted := store.DeleteStudent(999);
    found := store.FindById(999);
    all := store.GetAllStudents();
  }

  /** Lookups on an empty store find nothing, and its listing is empty. */
  method EmptyStore() returns (found: Option<Student>, all: seq<Student>)
    ensures found == None && all == []
  {
    var store := new StudentService();
    found := store.FindById(1);
    all := store.GetAllStudents();
  }

  /** A listing taken earlier is not affected by a later create. */
  method SnapshotIndependence() returns (first: seq<Student>, second: seq<Student>)
    ensures first == [Student(1, "Alice", 22)]
    ensures second == [Student(1, "Alice", 22), Student(2, "Bob", 23)]
  {
    var store := new StudentService();
    var alice := store.AddStudent("Alice", 22);
    first := store.GetAllStudents();
    var bob := store.AddStudent("Bob", 23);
    second := store.GetAllStudents();
  }

  /** Two updates in a row: lookup reflects the latest one each time. */
  method UpdateMultipleTimes() returns (afterFirst: Option<Student>, afterSecond: Option<Student>)
    ensures afterFirst == Some(Student(1, "Alice Updated", 23))
    ensures afterSecond == Some(Student(1, "Alice Final", 25))
  {
    var store := new StudentService();
    var alice := store.AddStudent("Alice", 22);
    assert store.students[0].id == 1;
    FindAfterReplace(store.students, 1, "Alice Updated", 23);
    var ok1 := store.UpdateStudent(1, "Alice Updated", 23);
    afterFirst := store.FindById(1);
    assert store.students[0].id == 1;
    FindAfterReplace(store.students, 1, "Alice Final", 25);
    var ok2 := store.UpdateStudent(1, "Alice Final", 25);
    afterSecond := store.FindById(1);
  }

  /**
   * Create Alice, Bob and Charlie, rename Bob, delete Charlie: the listing is
   * exactly Alice and the renamed Bob, in that order, and a second delete of
   * Charlie's id removes nothing.
   */
  method MultipleOperationsSequence() returns (all: seq<Student>, deletedAgain: bool)
    ensures all == [Student(1, "Alice", 22), Student(2, "Bob Updated", 25)]
    ensures !deletedAgain
  {
    var store := new StudentService();
    var alice := store.AddStudent("Alice", 22);
    var bob := store.AddStudent("Bob", 23);
    var charlie := store.AddStudent("Charlie", 24);
    var three := store.students;
    assert three == [alice, bob, charlie];
    FirstMatchIsOnlyMatch(three, 2, 1);
    var updated := store.UpdateStudent(2, "Bob Updated", 25);
    var renamed := store.students;
    assert renamed == [alice, Student(2, "Bob Updated", 25), charlie];
    WithoutUnique(renamed, 3, 2);
    var deleted := store.DeleteStudent(3);
    all := store.GetAllStudents();
    WithoutRemovesAll(renamed, 3);
    deletedAgain := store.DeleteStudent(3);
  }

  /** Create two, update the first, delete the second: only the updated first remains. */
  method CompleteLifecycle() returns (remaining: Option<Student>, gone: Option<Student>, size: nat)
    ensures remaining == Some(Student(1, "Alice Updated", 25))
    ensures gone == None
    ensures size == 1
  {
    var store := new StudentService();
    var alice := store.AddStudent("Alice", 22);
    var bob := store.AddStudent("Bob", 23);
    FirstMatchIsOnlyMatch(store.students, 1, 0);
    var updated := store.UpdateStudent(1, "Alice Updated", 25);
    var two := store.students;
    assert two == [Student(1, "Alice Updated", 25), bob];
    WithoutUnique(two, 2, 1);
    var deleted := store.DeleteStudent(2);
    var all := store.GetAllStudents();
    size := |all|;
    remaining := store.FindById(1);
    gone := store.FindById(2);
  }
}
