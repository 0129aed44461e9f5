/**
 * `StudentLinkedList` as a value: the records reachable from `head`, in
 * order, together with the separately maintained `size` counter.  Every
 * mutating method of the class becomes a function from the old value to the
 * new one; the searches become pure selections.
 */
module Store {
  import opened Wrappers
  import opened Text
  import opened Queries

  datatype StudentList = StudentList(records: seq<Student>, size: int)

  /** The class invariant: `size` counts exactly the records reachable from `head`. */
  predicate Valid(st: StudentList)
  {
    st.size == |st.records|
  }

  /** `__init__`: no head, size 0. */
  function Empty(): (r: StudentList)
    ensures Valid(r)
    ensures forall k :: SearchByRollNo(r, k).None?
  {
    StudentList([], 0)
  }

  /** `insert_student`: append at the end and bump the counter. */
  function Insert(st: StudentList, x: Student): (r: StudentList)
    ensures Valid(st) ==> Valid(r)
    ensures r.size == st.size + 1
    ensures |r.records| == |st.records| + 1
    ensures r.records[..|st.records|] == st.records
    ensures r.records[|st.records|] == x
  {
    StudentList(st.records + [x], st.size + 1)
  }

  /**
   * `delete_student`: nothing happens on an empty list; a matching head is
   * unlinked; otherwise the scan looks for the first later record whose
   * roll number matches and unlinks it.  No match leaves the list alone.
   */
  function Delete(st: StudentList, key: int): (r: StudentList)
    ensures Valid(st) ==> Valid(r)
    ensures (forall i | 0 <= i < |st.records| :: st.records[i].rollNo != key) ==> r == st
    ensures FirstIndex(st.records, RollIs(key)).Some? ==>
      var i := FirstIndex(st.records, RollIs(key)).value;
      r.records == st.records[..i] + st.records[i + 1..] && r.size == st.size - 1
  {
    if |st.records| == 0 then st
    else if st.records[0].rollNo == key then StudentList(st.records[1..], st.size - 1)
    else match FirstIndex(st.records[1..], RollIs(key))
      case None => st
      case Some(j) => StudentList(st.records[..j + 1] + st.records[j + 2..], st.size - 1)
  }

  /** `search_by_roll_no`: the first record, in insertion order, with the given roll number. */
  function SearchByRollNo(st: StudentList, key: int): (r: Option<Student>)
    ensures r.None? <==> forall i | 0 <= i < |st.records| :: st.records[i].rollNo != key
    ensures r.Some? ==> r.value.rollNo == key
    ensures r.Some? ==> exists i | 0 <= i < |st.records| ::
      st.records[i] == r.value && forall j | 0 <= j < i :: st.records[j].rollNo != key
  {
    First(st.records, RollIs(key))
  }

  /** `search_by_exact_name`: the first record whose name equals `name` ignoring case. */
  function SearchByExactName(st: StudentList, name: string): (r: Option<Student>)
    ensures r.None? <==> forall i | 0 <= i < |st.records| :: Lower(st.records[i].name) != Lower(name)
    ensures r.Some? ==> Lower(r.value.name) == Lower(name)
    ensures r.Some? ==> exists i | 0 <= i < |st.records| ::
      st.records[i] == r.value && forall j | 0 <= j < i :: Lower(st.records[j].name) != Lower(name)
  {
    First(st.records, NameIs(name))
  }

  /** `search_by_partial_name`: every record whose lower-cased name contains the lower-cased term, in order. */
  function SearchByPartialName(st: StudentList, term: string): (r: seq<Student>)
    ensures forall x :: x in r <==> x in st.records && exists i :: OccursAt(Lower(x.name), Lower(term), i)
    ensures forall x | x in r :: multiset(r)[x] == multiset(st.records)[x]
  {
    var r := Select(st.records, NameContains(term));
    SelectMembership(st.records, NameContains(term));
    SelectMultiplicity(st.records, NameContains(term));
    forall x
      ensures x in r <==> x in st.records && exists i :: OccursAt(Lower(x.name), Lower(term), i)
    {
      ContainsIffOccurs(Lower(x.name), Lower(term));
    }
    r
  }

  /** `get_students_by_grade`: every record whose upper-cased grade equals the upper-cased query, in order. */
  function StudentsByGrade(st: StudentList, grade: string): (r: seq<Student>)
    ensures forall x :: x in r <==> x in st.records && Upper(x.grade) == Upper(grade)
    ensures forall x | x in r :: multiset(r)[x] == multiset(st.records)[x]
  {
    SelectMembership(st.records, GradeIs(grade));
    SelectMultiplicity(st.records, GradeIs(grade));
    Select(st.records, GradeIs(grade))
  }

  /** The empty search term occurs in every name, so it lists every record. */
  lemma EmptyTermListsAll(st: StudentList)
    ensures SearchByPartialName(st, "") == st.records
  {
    assert Lower("") == "";
    forall i | 0 <= i < |st.records|
      ensures Matches(NameContains(""), st.records[i])
    {
      EmptyTermOccurs(Lower(st.records[i].name));
    }
    SelectAllMatching(st.records, NameContains(""));
  }

  /** `count_students`: the counter, which under the invariant is the list length. */
  function CountStudents(st: StudentList): (r: int)
    requires Valid(st)
    ensures r == |st.records|
  {
    st.size
  }

  /** Inserting the given records one after another: they follow the stored ones, in order, and each raises the count by one. */
  function InsertAll(st: StudentList, xs: seq<Student>): (r: StudentList)
    ensures r.records == st.records + xs
    ensures r.size == st.size + |xs|
    decreases |xs|
  {
    if |xs| == 0 then st
    else
      assert st.records + [xs[0]] + xs[1..] == st.records + xs;
      InsertAll(Insert(st, xs[0]), xs[1..])
  }

  /** N inserts into a new list give exactly those N records, in insertion order, and a count of N. */
  lemma InsertAllAppends(st: StudentList, xs: seq<Student>)
    requires Valid(st)
    ensures Valid(InsertAll(st, xs))
    ensures InsertAll(st, xs).records == st.records + xs
    ensures CountStudents(InsertAll(st, xs)) == |st.records| + |xs|
  {
  }

  /** Duplicate roll numbers are accepted, and a lookup still finds the earliest record with that number. */
  lemma SearchAfterInsert(st: StudentList, x: Student, key: int)
    ensures SearchByRollNo(Insert(st, x), key) ==
      if SearchByRollNo(st, key).Some? then SearchByRollNo(st, key)
      else if x.rollNo == key then Some(x)
      else None
  {
    FirstAppend(st.records, [x], RollIs(key));
  }

  /** Insertion keeps the order of grade selections: the new record, if it matches, comes last. */
  lemma GradeSelectionAfterInsert(st: StudentList, x: Student, grade: string)
    ensures StudentsByGrade(Insert(st, x), grade) ==
      StudentsByGrade(st, grade) + Keep(x, GradeIs(grade))
  {
    SelectAppend(st.records, [x], GradeIs(grade));
  }

  /** Round trip: deleting the roll number just inserted, when it was not already present, restores the list. */
  lemma DeleteUndoesInsert(st: StudentList, x: Student)
    requires SearchByRollNo(st, x.rollNo).None?
    ensures Delete(Insert(st, x), x.rollNo) == st
  {
    var s := Insert(st, x).records;
    var n := |st.records|;
    FirstIndexIsUnique(s, RollIs(x.rollNo), n);
    assert s[..n] + s[n + 1..] == st.records;
  }

  /** Deleting a present roll number and then appending commutes with appending and then deleting. */
  lemma DeleteCommutesWithInsert(st: StudentList, x: Student, key: int)
    requires SearchByRollNo(st, key).Some?
    ensures Delete(Insert(st, x), key) == Insert(Delete(st, key), x)
  {
    var s := st.records;
    var i := FirstIndex(s, RollIs(key)).value;
    FirstIndexIsUnique(s + [x], RollIs(key), i);
    assert (s + [x])[..i] == s[..i];
    assert (s + [x])[i + 1..] == s[i + 1..] + [x];
    var left := Delete(Insert(st, x), key);
    var right := Insert(Delete(st, key), x);
    assert left.records == s[..i] + (s[i + 1..] + [x]);
    assert right.records == (s[..i] + s[i + 1..]) + [x];
    assert left.size == right.size;
  }

  /** The record a delete unlinks is the one the lookup returns, and every other record survives. */
  lemma DeleteRemovesFound(st: StudentList, key: int)
    requires SearchByRollNo(st, key).Some?
    ensures multiset(Delete(st, key).records) + multiset{SearchByRollNo(st, key).value} == multiset(st.records)
  {
    var s := st.records;
    FirstAtFirstIndex(s, RollIs(key));
    var i := FirstIndex(s, RollIs(key)).value;
    assert Delete(st, key).records == s[..i] + s[i + 1..];
    SpliceMultiset(s, i);
  }

  /** Cutting position `i` out of a sequence loses exactly one copy of the element there. */
  lemma SpliceMultiset(s: seq<Student>, i: nat)
    requires i < |s|
    ensures multiset(s[..i] + s[i + 1..]) + multiset{s[i]} == multiset(s)
  {
    assert s == s[..i] + [s[i]] + s[i + 1..];
  }

  /** A delete removes exactly one of the records carrying the key. */
  lemma {:induction false} DeleteDropsOneMatch(st: StudentList, key: int)
    requires SearchByRollNo(st, key).Some?
    ensures CountMatching(Delete(st, key).records, RollIs(key)) == CountMatching(st.records, RollIs(key)) - 1
  {
    var s := st.records;
    var q := RollIs(key);
    var i := FirstIndex(s, q).value;
    assert s == s[..i] + [s[i]] + s[i + 1..];
    SelectAppend(s[..i] + [s[i]], s[i + 1..], q);
    SelectAppend(s[..i], [s[i]], q);
    SelectAppend(s[..i], s[i + 1..], q);
    SelectEmptyIff(s[..i], q);
  }

  /** After a delete the key is gone exactly when no duplicate of it was stored. */
  lemma DeleteThenSearch(st: StudentList, key: int)
    requires SearchByRollNo(st, key).Some?
    ensures SearchByRollNo(Delete(st, key), key).None? <==> CountMatching(st.records, RollIs(key)) == 1
  {
    DeleteDropsOneMatch(st, key);
    FirstIsHeadOfSelect(Delete(st, key).records, RollIs(key));
  }
}
