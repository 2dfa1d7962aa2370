/**
 * The in-memory record store: an insertion-ordered list of student records and
 * the counter that supplies the next id.  The functions and lemmas at the top
 * describe the store's operations on plain sequences; the class below keeps
 * the state and changes it in place, and each of its methods is proved against
 * those functions.
 */
module Service {
  import opened Wrappers
  import opened Students

  // ---------------------------------------------------------------------------
  // The list of records as a value

  /** Some record in `s` carries `id`. */
  predicate HasId(s: seq<Student>, id: int) {
    exists j :: 0 <= j < |s| && s[j].id == id
  }

  /** Ids strictly increase in list order (so no two records share an id). */
  predicate Increasing(s: seq<Student>) {
    forall i, j :: 0 <= i < j < |s| ==> s[i].id < s[j].id
  }

  /** Every id lies in the range the counter has handed out, 1 up to `next` exclusive. */
  predicate IdsBelow(s: seq<Student>, next: int) {
    forall j :: 0 <= j < |s| ==> 1 <= s[j].id < next
  }

  /** The position of the first record with `id`, as a stream filter followed by findFirst gives it. */
  function FirstMatch(s: seq<Student>, id: int): (r: Option<nat>)
    ensures r.None? <==> !HasId(s, id)
    ensures r.Some? ==> r.value < |s| && s[r.value].id == id
    ensures r.Some? ==> forall j :: 0 <= j < r.value ==> s[j].id != id
  {
    if s == [] then None
    else if s[0].id == id then Some(0)
    else match FirstMatch(s[1..], id)
      case None => None
      case Some(k) => Some(k + 1)
  }

  /** The first record with `id`, or nothing. */
  function Find(s: seq<Student>, id: int): (r: Option<Student>)
    ensures r.None? <==> !HasId(s, id)
    ensures r.Some? ==> r.value in s && r.value.id == id
  {
    match FirstMatch(s, id)
    case None => None
    case Some(k) => Some(s[k])
  }

  /**
   * The list after the first record with `id` had its name and age overwritten:
   * length and every id stay, an absent id leaves the list as it was, and only
   * the first match changes.
   */
  function Replace(s: seq<Student>, id: int, name: string, age: int): (r: seq<Student>)
    ensures |r| == |s|
    ensures forall j :: 0 <= j < |s| ==> r[j].id == s[j].id
    ensures !HasId(s, id) ==> r == s
    ensures HasId(s, id) ==>
      var k := FirstMatch(s, id).value;
      && r[k] == Student(id, name, age)
      && forall j :: 0 <= j < |s| && j != k ==> r[j] == s[j]
  {
    match FirstMatch(s, id)
    case None => s
    case Some(k) => s[k := s[k].(name := name, age := age)]
  }

  /** The list with every record carrying `id` removed. */
  function Without(s: seq<Student>, id: int): (r: seq<Student>)
    ensures |r| <= |s|
    ensures forall x :: x in r <==> x in s && x.id != id
  {
    if s == [] then []
    else if s[0].id == id then Without(s[1..], id)
    else [s[0]] + Without(s[1..], id)
  }

  /** How many records carry `id`. */
  function Count(s: seq<Student>, id: int): (n: nat)
    ensures n <= |s|
    ensures n == 0 <==> !HasId(s, id)
  {
    if s == [] then 0
    else (if s[0].id == id then 1 else 0) + Count(s[1..], id)
  }

  // ---------------------------------------------------------------------------
  // Lookup

  /** On an empty store nothing is found. */
  lemma FindEmpty(id: int)
    ensures Find([], id) == None
  {
  }

  /** With increasing ids, the first match is the only match, so "first" is no tie-break. */
  lemma FirstMatchIsOnlyMatch(s: seq<Student>, id: int, j: nat)
    requires Increasing(s)
    requires j < |s| && s[j].id == id
    ensures FirstMatch(s, id) == Some(j)
  {
  }

  /** Two lists whose ids agree position by position give the same first match. */
  lemma FirstMatchDependsOnIdsOnly(s: seq<Student>, t: seq<Student>, id: int)
    requires |s| == |t|
    requires forall j :: 0 <= j < |s| ==> s[j].id == t[j].id
    ensures FirstMatch(s, id) == FirstMatch(t, id)
  {
    match FirstMatch(s, id)
    case None =>
    case Some(k) =>
      assert t[k].id == id;
  }

  // ---------------------------------------------------------------------------
  // Create

  /** A record appended with a fresh id keeps the ids increasing and below the advanced counter. */
  lemma AppendKeepsInvariant(s: seq<Student>, next: int, name: string, age: int)
    requires 1 <= next && Increasing(s) && IdsBelow(s, next)
    ensures Increasing(s + [Student(next, name, age)])
    ensures IdsBelow(s + [Student(next, name, age)], next + 1)
  {
  }

  /** After an append with a fresh id, looking up that id finds exactly the new record. */
  lemma {:induction false} FindAfterAppend(s: seq<Student>, next: int, name: string, age: int)
    requires IdsBelow(s, next)
    ensures Find(s + [Student(next, name, age)], next) == Some(Student(next, name, age))
  {
    var t := s + [Student(next, name, age)];
    assert t[|s|].id == next;
    assert forall j :: 0 <= j < |s| ==> t[j].id != next by {
      forall j | 0 <= j < |s| ensures t[j].id != next {
        assert t[j] == s[j];
      }
    }
  }

  /** An append does not change what an id already in the list finds. */
  lemma {:induction false} FindAfterAppendOther(s: seq<Student>, x: Student, id: int)
    requires HasId(s, id)
    ensures Find(s + [x], id) == Find(s, id)
  {
    FirstMatchPrefix(s, x, id);
  }

  /** An append does not move the first match of an id already in the list. */
  lemma {:induction false} FirstMatchPrefix(s: seq<Student>, x: Student, id: int)
    requires HasId(s, id)
    ensures FirstMatch(s + [x], id) == FirstMatch(s, id)
  {
    var t := s + [x];
    var k := FirstMatch(s, id).value;
    assert t[k] == s[k];
    assert forall j :: 0 <= j < k ==> t[j].id != id by {
      forall j | 0 <= j < k ensures t[j].id != id {
        assert t[j] == s[j];
      }
    }
  }

  // ---------------------------------------------------------------------------
  // Update

  /** Update keeps the class invariant, because it changes no id. */
  lemma ReplaceKeepsInvariant(s: seq<Student>, next: int, id: int, name: string, age: int)
    requires Increasing(s) && IdsBelow(s, next)
    ensures Increasing(Replace(s, id, name, age)) && IdsBelow(Replace(s, id, name, age), next)
  {
  }

  /** Round trip: after an update of a present id, lookup yields {id, newName, newAge}. */
  lemma FindAfterReplace(s: seq<Student>, id: int, name: string, age: int)
    requires HasId(s, id)
    ensures Find(Replace(s, id, name, age), id) == Some(Student(id, name, age))
  {
    FirstMatchDependsOnIdsOnly(s, Replace(s, id, name, age), id);
  }

  /** Update does not change what any other id finds. */
  lemma FindOtherAfterReplace(s: seq<Student>, id: int, name: string, age: int, other: int)
    requires other != id
    ensures Find(Replace(s, id, name, age), other) == Find(s, other)
  {
    FirstMatchDependsOnIdsOnly(s, Replace(s, id, name, age), other);
  }

  // ---------------------------------------------------------------------------
  // Delete

  /** Removal distributes over concatenation, so the survivors keep their relative order. */
  lemma {:induction false} WithoutConcat(a: seq<Student>, b: seq<Student>, id: int)
    ensures Without(a + b, id) == Without(a, id) + Without(b, id)
  {
    if a != [] {
      assert (a + b)[1..] == a[1..] + b;
      WithoutConcat(a[1..], b, id);
    } else {
      assert a + b == b;
    }
  }

  /** Removing an absent id leaves the list as it was. */
  lemma {:induction false} WithoutAbsent(s: seq<Student>, id: int)
    requires !HasId(s, id)
    ensures Without(s, id) == s
  {
    if s != [] {
      assert !HasId(s[1..], id) by {
        forall j | 0 <= j < |s[1..]| ensures s[1..][j].id != id {
          assert s[1..][j] == s[j + 1];
        }
      }
      WithoutAbsent(s[1..], id);
      assert s == [s[0]] + s[1..];
    }
  }

  /** The list length drops by exactly the number of records removed. */
  lemma {:induction false} WithoutLength(s: seq<Student>, id: int)
    ensures |Without(s, id)| == |s| - Count(s, id)
  {
    if s != [] {
      WithoutLength(s[1..], id);
    }
  }

  /** A second delete of the same id finds nothing to remove. */
  lemma WithoutRemovesAll(s: seq<Student>, id: int)
    ensures !HasId(Without(s, id), id)
    ensures Without(Without(s, id), id) == Without(s, id)
  {
    var w := Without(s, id);
    assert forall j :: 0 <= j < |w| ==> w[j] in w;
    WithoutAbsent(w, id);
  }

  /** With increasing ids at most one record carries a given id. */
  lemma {:induction false} CountAtMostOne(s: seq<Student>, id: int)
    requires Increasing(s)
    ensures Count(s, id) <= 1
  {
    if s != [] {
      assert Increasing(s[1..]);
      CountAtMostOne(s[1..], id);
      if s[0].id == id {
        assert !HasId(s[1..], id) by {
          forall j | 0 <= j < |s[1..]| ensures s[1..][j].id != id {
            assert s[1..][j] == s[j + 1];
          }
        }
      }
    }
  }

  /** With increasing ids, delete of a present id removes exactly the one record at its position. */
  lemma WithoutUnique(s: seq<Student>, id: int, k: nat)
    requires Increasing(s)
    requires k < |s| && s[k].id == id
    ensures Without(s, id) == s[..k] + s[k + 1..]
  {
    assert s == s[..k] + ([s[k]] + s[k + 1..]);
    WithoutConcat(s[..k], [s[k]] + s[k + 1..], id);
    WithoutConcat([s[k]], s[k + 1..], id);
    assert !HasId(s[..k], id) by {
      forall j | 0 <= j < k ensures s[..k][j].id != id {
        assert s[..k][j] == s[j];
      }
    }
    var after := s[k + 1..];
    assert !HasId(after, id) by {
      forall j | 0 <= j < |after| ensures after[j].id != id {
        assert after[j] == s[k + 1 + j];
      }
    }
    WithoutAbsent(s[..k], id);
    WithoutAbsent(after, id);
    assert Without([s[k]], id) == [] by {
      assert [s[k]][1..] == [];
    }
  }

  /** A record whose id is below every id of an increasing list may go in front of it. */
  lemma ConsKeepsIncreasing(x: Student, w: seq<Student>)
    requires Increasing(w)
    requires forall y :: y in w ==> x.id < y.id
    ensures Increasing([x] + w)
  {
    var t := [x] + w;
    forall i, j | 0 <= i < j < |t| ensures t[i].id < t[j].id {
      assert t[j] == w[j - 1];
      if i > 0 {
        assert t[i] == w[i - 1];
      } else {
        assert w[j - 1] in w;
      }
    }
  }

  /** Delete keeps the ids increasing. */
  lemma {:induction false} WithoutKeepsIncreasing(s: seq<Student>, id: int)
    requires Increasing(s)
    ensures Increasing(Without(s, id))
  {
    if s != [] {
      var rest := s[1..];
      assert Increasing(rest);
      WithoutKeepsIncreasing(rest, id);
      if s[0].id != id {
        var w := Without(rest, id);
        forall y | y in w ensures s[0].id < y.id {
          var j :| 0 <= j < |rest| && rest[j] == y;
          assert rest[j] == s[j + 1];
        }
        ConsKeepsIncreasing(s[0], w);
      }
    }
  }

  /** Delete keeps every remaining id below the counter. */
  lemma WithoutKeepsIdsBelow(s: seq<Student>, next: int, id: int)
    requires IdsBelow(s, next)
    ensures IdsBelow(Without(s, id), next)
  {
    var w := Without(s, id);
    forall j | 0 <= j < |w| ensures 1 <= w[j].id < next {
      assert w[j] in s;
    }
  }

  // ---------------------------------------------------------------------------
  // The store

  class StudentService {
    /** The records, in insertion order. */
    var students: seq<Student>
    /** The id the next created record receives. */
    var nextId: int

    /** Ids strictly increase along the list and were all handed out by the counter. */
    ghost predicate Valid()
      reads this
    {
      1 <= nextId && Increasing(students) && IdsBelow(students, nextId)
    }

    /** A fresh store: no records, and the counter at 1. */
    constructor ()
      ensures Valid()
      ensures students == [] && nextId == 1
    {
      students := [];
      nextId := 1;
    }

    /** Creates a record with the counter's id, advances the counter and appends the record. */
    method AddStudent(name: string, age: int) returns (s: Student)
      requires Valid()
      modifies this
      ensures Valid()
      ensures s == Student(old(nextId), name, age)
      ensures nextId == old(nextId) + 1
      ensures students == old(students) + [s]
    {
      AppendKeepsInvariant(students, nextId, name, age);
      s := Student(nextId, name, age);
      nextId := nextId + 1;
      students := students + [s];
    }

    /** The position of the first record with `id`: the search of the stream filter and findFirst. */
    method Locate(id: int) returns (k: Option<nat>)
      ensures k == FirstMatch(students, id)
    {
      var i := 0;
      while i < |students|
        invariant 0 <= i <= |students|
        invariant forall j :: 0 <= j < i ==> students[j].id != id
      {
        if students[i].id == id {
          return Some(i);
        }
        i := i + 1;
      }
      return None;
    }

    /** Overwrites name and age of the first record with `id`, and says whether there was one. */
    method UpdateStudent(id: int, newName: string, newAge: int) returns (updated: bool)
      requires Valid()
      modifies this
      ensures Valid()
      ensures updated <==> HasId(old(students), id)
      ensures students == Replace(old(students), id, newName, newAge)
      ensures nextId == old(nextId)
    {
      ReplaceKeepsInvariant(students, nextId, id, newName, newAge);
      var k := Locate(id);
      match k
      case None =>
        updated := false;
      case Some(i) =>
        students := students[i := students[i].(name := newName, age := newAge)];
        updated := true;
    }

    /** Removes every record with `id`, and says whether any was removed. */
    method DeleteStudent(id: int) returns (removed: bool)
      requires Valid()
      modifies this
      ensures Valid()
      ensures removed <==> HasId(old(students), id)
      ensures students == Without(old(students), id)
      ensures nextId == old(nextId)
    {
      WithoutKeepsIncreasing(students, id);
      WithoutKeepsIdsBelow(students, nextId, id);
      WithoutLength(students, id);
      var before := |students|;
      students := Without(students, id);
      removed := |students| < before;
    }

    /** A snapshot of the records in insertion order. */
    method GetAllStudents() returns (all: seq<Student>)
      ensures all == students
    {
      all := students;
    }

    /** The first record with `id`, or nothing; the store is not changed. */
    method FindById(id: int) returns (r: Option<Student>)
      ensures r == Find(students, id)
      ensures r.Some? ==> r.value in students && r.value.id == id
      ensures r.None? <==> !HasId(students, id)
    {
      var k := Locate(id);
      match k
      case None =>
        r := None;
      case Some(i) =>
        r := Some(students[i]);
    }
  }
}
