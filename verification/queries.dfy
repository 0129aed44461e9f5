/**
 * Student records and the four linear-scan lookups the store offers.
 * Every lookup walks the records in insertion order; the by-roll-number and
 * by-exact-name lookups stop at the first match, the by-partial-name and
 * by-grade lookups keep every match.
 */
module Queries {
  import opened Wrappers
  import opened Text

  /** The data of one `StudentNode` (its `next` link lives in the linked-list model). */
  datatype Student = Student(
    name: string,
    fatherName: string,
    rollNo: int,
    marks: int,
    grade: string)

  /** What a lookup compares a record against. */
  datatype Query =
    | RollIs(rollNo: int)       // `current.roll_no == roll_no`
    | NameIs(name: string)      // `current.name.lower() == name.lower()`
    | NameContains(term: string) // `term.lower() in current.name.lower()`
    | GradeIs(grade: string)    // `current.grade.upper() == grade.upper()`

  /**
   * Whether record `x` answers query `q`. A name or grade always answers a
   * query for itself, the empty term answers every partial-name query, and a
   * name can only match a query of its own length or contain a term no longer
   * than itself.
   */
  function Matches(q: Query, x: Student): (r: bool)
    ensures q.NameIs? && x.name == q.name ==> r
    ensures q.NameIs? && r ==> |x.name| == |q.name|
    ensures q.NameContains? && (|q.term| == 0 || x.name == q.term) ==> r
    ensures q.NameContains? && r ==> |q.term| <= |x.name|
    ensures q.GradeIs? && x.grade == q.grade ==> r
  {
    match q
    case RollIs(k) => x.rollNo == k
    case NameIs(n) => Lower(x.name) == Lower(n)
    case NameContains(t) => Contains(Lower(x.name), Lower(t))
    case GradeIs(g) => Upper(x.grade) == Upper(g)
  }

  /**
   * The name and grade comparisons ignore case: a query term and its
   * upper-cased or lower-cased form answer for the same records.
   */
  lemma MatchesIgnoresCase(x: Student, t: string)
    ensures Matches(NameIs(t), x) <==> Matches(NameIs(Upper(t)), x)
    ensures Matches(NameContains(t), x) <==> Matches(NameContains(Upper(t)), x)
    ensures Matches(GradeIs(t), x) <==> Matches(GradeIs(Lower(t)), x)
  {
    LowerOfUpper(t);
    UpperOfLower(t);
  }

  /** Position of the first record matching `q`, scanning from the head. */
  function FirstIndex(s: seq<Student>, q: Query): (r: Option<nat>)
    ensures r.None? <==> forall i | 0 <= i < |s| :: !Matches(q, s[i])
    ensures r.Some? ==> r.value < |s| && Matches(q, s[r.value])
    ensures r.Some? ==> forall j | 0 <= j < r.value :: !Matches(q, s[j])
  {
    if |s| == 0 then None
    else if Matches(q, s[0]) then Some(0)
    else match FirstIndex(s[1..], q)
      case None => None
      case Some(i) => Some(i + 1)
  }

  /** The first record matching `q`, scanning from the head; `None` if there is none. */
  function First(s: seq<Student>, q: Query): (r: Option<Student>)
    ensures r.None? <==> forall i | 0 <= i < |s| :: !Matches(q, s[i])
    ensures r.Some? ==> Matches(q, r.value)
    ensures r.Some? ==> exists i | 0 <= i < |s| :: s[i] == r.value && forall j | 0 <= j < i :: !Matches(q, s[j])
  {
    if |s| == 0 then None
    else if Matches(q, s[0]) then Some(s[0])
    else
      var r := First(s[1..], q);
      if r.Some? then
        var i :| 0 <= i < |s[1..]| && s[1..][i] == r.value && forall j | 0 <= j < i :: !Matches(q, s[1..][j]);
        assert s[i + 1] == r.value;
        r
      else r
  }

  /** A matching position with no earlier match is the first-match index. */
  lemma FirstIndexIsUnique(s: seq<Student>, q: Query, i: nat)
    requires i < |s| && Matches(q, s[i])
    requires forall j | 0 <= j < i :: !Matches(q, s[j])
    ensures FirstIndex(s, q) == Some(i)
  {
    var r := FirstIndex(s, q);
    assert r.value <= i;
    assert !(r.value < i);
  }

  /** The record the first-match lookup returns sits at the position the first-match index names. */
  lemma {:induction false} FirstAtFirstIndex(s: seq<Student>, q: Query)
    ensures First(s, q).None? <==> FirstIndex(s, q).None?
    ensures FirstIndex(s, q).Some? ==> First(s, q) == Some(s[FirstIndex(s, q).value])
  {
    if |s| > 0 && !Matches(q, s[0]) {
      FirstAtFirstIndex(s[1..], q);
    }
  }

  /** What one step of a select-all scan contributes: the record when it matches, nothing otherwise. */
  function Keep(x: Student, q: Query): seq<Student>
  {
    if Matches(q, x) then [x] else []
  }

  /** Every record matching `q`, in insertion order. */
  function Select(s: seq<Student>, q: Query): (r: seq<Student>)
    ensures |r| <= |s|
    ensures forall i | 0 <= i < |r| :: Matches(q, r[i])
  {
    if |s| == 0 then []
    else
      var t := Select(s[1..], q);
      if Matches(q, s[0]) then
        assert forall i | 1 <= i < |t| + 1 :: ([s[0]] + t)[i] == t[i - 1];
        [s[0]] + t
      else t
  }

  /** Selection keeps every matching record as often as it is stored, and nothing else. */
  lemma {:induction false} SelectMultiplicity(s: seq<Student>, q: Query)
    ensures forall x :: multiset(Select(s, q))[x] == if Matches(q, x) then multiset(s)[x] else 0
  {
    if |s| > 0 {
      SelectMultiplicity(s[1..], q);
      assert s == [s[0]] + s[1..];
    }
  }

  /** A record is selected exactly when it is stored and matches. */
  lemma SelectMembership(s: seq<Student>, q: Query)
    ensures forall x {:trigger x in Select(s, q)} :: x in Select(s, q) <==> x in s && Matches(q, x)
  {
    SelectMultiplicity(s, q);
    forall x
      ensures x in Select(s, q) <==> x in s && Matches(q, x)
    {
      assert x in Select(s, q) <==> multiset(Select(s, q))[x] > 0;
      assert x in s <==> multiset(s)[x] > 0;
    }
  }

  /** Selection distributes over concatenation: the selected records keep their relative order. */
  lemma {:induction false} SelectAppend(a: seq<Student>, b: seq<Student>, q: Query)
    ensures Select(a + b, q) == Select(a, q) + Select(b, q)
  {
    if |a| == 0 {
      assert a + b == b;
    } else {
      assert (a + b)[0] == a[0];
      assert (a + b)[1..] == a[1..] + b;
      SelectAppend(a[1..], b, q);
      if Matches(q, a[0]) {
        assert Select(a + b, q) == [a[0]] + Select(a[1..] + b, q);
        assert [a[0]] + (Select(a[1..], q) + Select(b, q)) == ([a[0]] + Select(a[1..], q)) + Select(b, q);
      } else {
        assert Select(a + b, q) == Select(a[1..] + b, q);
      }
    }
  }

  /** A single record is selected exactly when it matches. */
  lemma SelectSingle(x: Student, q: Query)
    ensures Select([x], q) == Keep(x, q)
  {
    assert [x][1..] == [];
  }

  /** Extending the scanned prefix by one record appends that record exactly when it matches. */
  lemma SelectPrefixStep(s: seq<Student>, k: nat, q: Query)
    requires k < |s|
    ensures Select(s[..k + 1], q) == Select(s[..k], q) + Keep(s[k], q)
  {
    assert s[..k + 1] == s[..k] + [s[k]];
    SelectAppend(s[..k], [s[k]], q);
  }

  /** Nothing is selected exactly when no record matches. */
  lemma SelectEmptyIff(s: seq<Student>, q: Query)
    ensures Select(s, q) == [] <==> forall i | 0 <= i < |s| :: !Matches(q, s[i])
  {
    SelectMultiplicity(s, q);
    if Select(s, q) == [] {
      forall i | 0 <= i < |s|
        ensures !Matches(q, s[i])
      {
        assert multiset(s)[s[i]] > 0;
      }
    } else {
      var x := Select(s, q)[0];
      assert multiset(Select(s, q))[x] > 0;
      assert x in s;
    }
  }

  /** When every record matches, selection returns the whole list unchanged. */
  lemma {:induction false} SelectAllMatching(s: seq<Student>, q: Query)
    requires forall i | 0 <= i < |s| :: Matches(q, s[i])
    ensures Select(s, q) == s
  {
    if |s| > 0 {
      SelectAllMatching(s[1..], q);
      assert [s[0]] + s[1..] == s;
    }
  }

  /** Whenever something matches, the first match is the first selected record. */
  lemma {:induction false} FirstIsHeadOfSelect(s: seq<Student>, q: Query)
    ensures First(s, q).Some? <==> |Select(s, q)| > 0
    ensures First(s, q).Some? ==> First(s, q).value == Select(s, q)[0]
  {
    if |s| > 0 && !Matches(q, s[0]) {
      FirstIsHeadOfSelect(s[1..], q);
    }
  }

  /** The first match in `a + b` is the first match in `a` if `a` has one, otherwise the first in `b`. */
  lemma {:induction false} FirstAppend(a: seq<Student>, b: seq<Student>, q: Query)
    ensures First(a + b, q) == if First(a, q).Some? then First(a, q) else First(b, q)
  {
    if |a| == 0 {
      assert a + b == b;
    } else if !Matches(q, a[0]) {
      assert (a + b)[1..] == a[1..] + b;
      FirstAppend(a[1..], b, q);
    }
  }

  /** Number of records matching `q`. */
  function CountMatching(s: seq<Student>, q: Query): nat
  {
    |Select(s, q)|
  }
}
