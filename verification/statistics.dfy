/**
 * The aggregate queries of `StudentLinkedList`: `calculate_average_marks`,
 * `find_highest_marks` and the single traversal of `get_class_statistics`.
 * Every running value the source keeps in a loop is a fold over the prefix
 * of records visited so far, so each is defined on `s[..|s| - 1]` and the
 * last record.
 */
module Statistics {
  import opened Wrappers
  import opened Text
  import opened Queries
  import opened Store

  function Last(s: seq<Student>): Student
    requires |s| > 0
  {
    s[|s| - 1]
  }

  function Init(s: seq<Student>): seq<Student>
    requires |s| > 0
  {
    s[..|s| - 1]
  }

  /** The first `k + 1` records are the first `k` followed by record `k`. */
  lemma PrefixStep(s: seq<Student>, k: nat)
    requires k < |s|
    ensures Init(s[..k + 1]) == s[..k]
    ensures Last(s[..k + 1]) == s[k]
  {
  }

  /** The running `total += current.marks`. */
  function SumMarks(s: seq<Student>): int
  {
    if |s| == 0 then 0 else SumMarks(Init(s)) + Last(s).marks
  }

  /** Summing the two halves of a list separately gives the same total: the fold adds the records in any grouping. */
  lemma {:induction false} SumMarksAppend(a: seq<Student>, b: seq<Student>)
    ensures SumMarks(a + b) == SumMarks(a) + SumMarks(b)
    decreases |b|
  {
    if |b| == 0 {
      assert a + b == a;
    } else {
      assert Init(a + b) == a + Init(b);
      assert Last(a + b) == Last(b);
      SumMarksAppend(a, Init(b));
    }
  }

  /** The smallest marks of a non-empty list: the reference the statistics' `lowest` is checked against. */
  function MinMarks(s: seq<Student>): (r: int)
    requires |s| > 0
    ensures forall i | 0 <= i < |s| :: r <= s[i].marks
    ensures exists i | 0 <= i < |s| :: s[i].marks == r
  {
    if |s| == 1 then s[0].marks
    else
      var m := MinMarks(s[1..]);
      assert forall i | 1 <= i < |s| :: s[i] == s[1..][i - 1];
      if s[0].marks <= m then s[0].marks else m
  }

  /** The smallest marks of `k + 1` records are the smaller of those of the first `k` and record `k`'s. */
  lemma MinMarksStep(s: seq<Student>, k: nat)
    requires 0 < k < |s|
    ensures MinMarks(s[..k + 1]) == if s[k].marks < MinMarks(s[..k]) then s[k].marks else MinMarks(s[..k])
  {
    var p := s[..k];
    var q := s[..k + 1];
    var j :| 0 <= j < |p| && p[j].marks == MinMarks(p);
    assert q[j] == p[j];
    assert q[k] == s[k];
    var m :| 0 <= m < |q| && q[m].marks == MinMarks(q);
    if m < k {
      assert q[m] == p[m];
    }
  }

  /** The largest marks of a non-empty list. */
  function MaxMarks(s: seq<Student>): (r: int)
    requires |s| > 0
    ensures forall i | 0 <= i < |s| :: s[i].marks <= r
    ensures exists i | 0 <= i < |s| :: s[i].marks == r
  {
    if |s| == 1 then s[0].marks
    else
      var m := MaxMarks(s[1..]);
      assert forall i | 1 <= i < |s| :: s[i] == s[1..][i - 1];
      if s[0].marks >= m then s[0].marks else m
  }

  /**
   * The running `highest`, seeded with 0 and replaced whenever a record's
   * marks exceed it: the larger of 0 and every record's marks.
   */
  function RunningHighest(s: seq<Student>): (r: int)
    ensures r >= 0
    ensures forall i | 0 <= i < |s| :: s[i].marks <= r
    ensures r == 0 || exists i | 0 <= i < |s| :: s[i].marks == r
  {
    if |s| == 0 then 0
    else
      var h := RunningHighest(Init(s));
      assert forall i | 0 <= i < |s| - 1 :: s[i] == Init(s)[i];
      if Last(s).marks > h then Last(s).marks else h
  }

  /** `calculate_average_marks`: 0 on an empty list, otherwise the total divided by `size`. */
  function AverageMarks(st: StudentList): (r: real)
    requires Valid(st)
    ensures |st.records| == 0 ==> r == 0.0
    ensures |st.records| > 0 ==> r * (|st.records| as real) == SumMarks(st.records) as real
  {
    if |st.records| == 0 then 0.0 else SumMarks(st.records) as real / st.size as real
  }

  /** `find_highest_marks`: 0 on an empty list, otherwise the running maximum seeded with 0. */
  function FindHighestMarks(st: StudentList): (r: int)
    ensures |st.records| == 0 ==> r == 0
    ensures r >= 0
    ensures forall i | 0 <= i < |st.records| :: st.records[i].marks <= r
    ensures r == 0 || exists i | 0 <= i < |st.records| :: st.records[i].marks == r
  {
    if |st.records| == 0 then 0 else RunningHighest(st.records)
  }

  /** On a non-empty list the reported highest marks are the true maximum, floored at 0. */
  lemma HighestIsMaxFlooredAtZero(st: StudentList)
    requires |st.records| > 0
    ensures FindHighestMarks(st) == if MaxMarks(st.records) > 0 then MaxMarks(st.records) else 0
  {
    var h := FindHighestMarks(st);
    var m := MaxMarks(st.records);
    var i :| 0 <= i < |st.records| && st.records[i].marks == m;
    assert m <= h;
  }

  /** A lower bound on every record's marks bounds the total from below by that bound times the length. */
  lemma {:induction false} SumAtLeast(s: seq<Student>, lo: int)
    requires forall i | 0 <= i < |s| :: lo <= s[i].marks
    ensures lo * |s| <= SumMarks(s)
  {
    if |s| > 0 {
      assert forall i | 0 <= i < |s| - 1 :: Init(s)[i] == s[i];
      SumAtLeast(Init(s), lo);
      assert lo * |s| == lo * (|s| - 1) + lo;
    }
  }

  /** An upper bound on every record's marks bounds the total from above by that bound times the length. */
  lemma {:induction false} SumAtMost(s: seq<Student>, hi: int)
    requires forall i | 0 <= i < |s| :: s[i].marks <= hi
    ensures SumMarks(s) <= hi * |s|
  {
    if |s| > 0 {
      assert forall i | 0 <= i < |s| - 1 :: Init(s)[i] == s[i];
      SumAtMost(Init(s), hi);
      assert hi * |s| == hi * (|s| - 1) + hi;
    }
  }

  /** A whole-number bound on a total, times the count, bounds the real quotient from below. */
  lemma QuotientAtLeast(lo: int, sum: int, n: int)
    requires n > 0 && lo * n <= sum
    ensures lo as real <= sum as real / n as real
  {
    assert (lo * n) as real == lo as real * n as real;
    assert sum as real / n as real - lo as real == (sum as real - lo as real * n as real) / n as real;
  }

  /** A whole-number bound on a total, times the count, bounds the real quotient from above. */
  lemma QuotientAtMost(hi: int, sum: int, n: int)
    requires n > 0 && sum <= hi * n
    ensures sum as real / n as real <= hi as real
  {
    assert (hi * n) as real == hi as real * n as real;
    assert hi as real - sum as real / n as real == (hi as real * n as real - sum as real) / n as real;
  }

  /** The average of a non-empty list lies between its lowest and highest marks. */
  lemma AverageBetweenMinAndMax(st: StudentList)
    requires Valid(st) && |st.records| > 0
    ensures MinMarks(st.records) as real <= AverageMarks(st) <= MaxMarks(st.records) as real
  {
    SumAtLeast(st.records, MinMarks(st.records));
    QuotientAtLeast(MinMarks(st.records), SumMarks(st.records), |st.records|);
    SumAtMost(st.records, MaxMarks(st.records));
    QuotientAtMost(MaxMarks(st.records), SumMarks(st.records), |st.records|);
  }

  /** One entry of the grade distribution: a normalised grade label and its number of records. */
  datatype GradeCount = GradeCount(grade: string, count: nat)

  /** `grade_distribution.get(g, 0)` */
  function CountOf(d: seq<GradeCount>, g: string): nat
  {
    if |d| == 0 then 0 else if d[0].grade == g then d[0].count else CountOf(d[1..], g)
  }

  predicate DistinctGrades(d: seq<GradeCount>)
  {
    forall i, j | 0 <= i < j < |d| :: d[i].grade != d[j].grade
  }

  /**
   * What `grade_distribution.get(g, 0)` reads: 0 when no entry has grade `g`,
   * and otherwise, with distinct grades, the count of the one entry for `g`.
   */
  lemma {:induction false} CountOfLooksUp(d: seq<GradeCount>, g: string)
    requires DistinctGrades(d)
    ensures (forall i | 0 <= i < |d| :: d[i].grade != g) ==> CountOf(d, g) == 0
    ensures forall i | 0 <= i < |d| && d[i].grade == g :: CountOf(d, g) == d[i].count
  {
    if |d| > 0 && d[0].grade != g {
      assert forall i | 0 <= i < |d[1..]| :: d[1..][i] == d[i + 1];
      CountOfLooksUp(d[1..], g);
    }
  }

  /** The sum of all counts. */
  function TotalCount(d: seq<GradeCount>): nat
  {
    if |d| == 0 then 0 else d[0].count + TotalCount(d[1..])
  }

  /**
   * `grade_distribution[g] = grade_distribution.get(g, 0) + 1` on a dictionary
   * that keeps keys in first-insertion order: an existing entry is bumped in
   * place, a new grade goes at the end with count 1.
   */
  function Tally(d: seq<GradeCount>, g: string): (r: seq<GradeCount>)
    requires DistinctGrades(d)
    ensures DistinctGrades(r)
    ensures forall h :: CountOf(r, h) == CountOf(d, h) + (if h == g then 1 else 0)
    ensures forall i | 0 <= i < |r| :: r[i].grade == g || exists j | 0 <= j < |d| :: d[j].grade == r[i].grade
    ensures TotalCount(r) == TotalCount(d) + 1
  {
    if |d| == 0 then [GradeCount(g, 1)]
    else if d[0].grade == g then
      assert forall h :: h != g ==> CountOf(d, h) == CountOf(d[1..], h);
      [GradeCount(g, d[0].count + 1)] + d[1..]
    else
      var t := Tally(d[1..], g);
      var r := [d[0]] + t;
      assert forall i | 1 <= i < |r| :: r[i] == t[i - 1];
      assert forall j | 1 <= j < |d| :: d[j] == d[1..][j - 1];
      assert forall i | 0 <= i < |t| :: t[i].grade != d[0].grade by {
        forall i | 0 <= i < |t|
          ensures t[i].grade != d[0].grade
        {
          if t[i].grade != g {
            var j :| 0 <= j < |d[1..]| && d[1..][j].grade == t[i].grade;
            assert d[j + 1].grade == t[i].grade;
          }
        }
      }
      r
  }

  /** The dictionary built by the statistics loop, one `Tally` of the upper-cased grade per record visited. */
  function Distribution(s: seq<Student>): (r: seq<GradeCount>)
    ensures DistinctGrades(r)
    ensures forall i | 0 <= i < |r| :: exists j | 0 <= j < |s| :: Upper(s[j].grade) == r[i].grade
    ensures TotalCount(r) == |s|
  {
    if |s| == 0 then []
    else
      var d := Distribution(Init(s));
      assert forall j | 0 <= j < |s| - 1 :: s[j] == Init(s)[j];
      Tally(d, Upper(Last(s).grade))
  }

  /** A tally of `h` raises the count of `g` by one exactly when `g` is `h`. */
  lemma TallyCounts(d: seq<GradeCount>, h: string, g: string)
    requires DistinctGrades(d)
    ensures CountOf(Tally(d, h), g) == CountOf(d, g) + (if h == g then 1 else 0)
  {
  }

  /** Each grade's count is the number of records `get_students_by_grade` lists for it. */
  lemma {:induction false} DistributionCountsGrade(s: seq<Student>, grade: string)
    ensures CountOf(Distribution(s), Upper(grade)) == |Select(s, GradeIs(grade))|
  {
    if |s| > 0 {
      DistributionCountsGrade(Init(s), grade);
      TallyCounts(Distribution(Init(s)), Upper(Last(s).grade), Upper(grade));
      SelectPrefixStep(s, |s| - 1, GradeIs(grade));
      assert s[..|s| - 1] == Init(s) && s[..|s|] == s;
    }
  }

  /** The per-grade counts agree with `get_students_by_grade` for every grade at once. */
  lemma DistributionCountsEveryGrade(st: StudentList)
    ensures forall g :: CountOf(Distribution(st.records), Upper(g)) == |StudentsByGrade(st, g)|
  {
    forall g
      ensures CountOf(Distribution(st.records), Upper(g)) == |StudentsByGrade(st, g)|
    {
      DistributionCountsGrade(st.records, g);
    }
  }

  /** Every key is an upper-cased grade, so a key counts exactly the records whose normalised grade is that key. */
  lemma DistributionKeysAreUpper(s: seq<Student>)
    ensures forall i | 0 <= i < |Distribution(s)| :: Upper(Distribution(s)[i].grade) == Distribution(s)[i].grade
  {
    forall i | 0 <= i < |Distribution(s)|
      ensures Upper(Distribution(s)[i].grade) == Distribution(s)[i].grade
    {
      var j :| 0 <= j < |s| && Upper(s[j].grade) == Distribution(s)[i].grade;
      UpperIdempotent(s[j].grade);
    }
  }

  /** One iteration of the statistics loop: every running figure over `k + 1` records, from its value over `k`. */
  lemma StatisticsStep(s: seq<Student>, k: nat)
    requires k < |s|
    ensures SumMarks(s[..k + 1]) == SumMarks(s[..k]) + s[k].marks
    ensures RunningHighest(s[..k + 1]) ==
      if RunningHighest(s[..k]) >= s[k].marks then RunningHighest(s[..k]) else s[k].marks
    ensures k == 0 ==> MinMarks(s[..k + 1]) == s[k].marks
    ensures k > 0 ==>
      MinMarks(s[..k + 1]) == if s[k].marks < MinMarks(s[..k]) then s[k].marks else MinMarks(s[..k])
    ensures Distribution(s[..k + 1]) == Tally(Distribution(s[..k]), Upper(s[k].grade))
  {
    PrefixStep(s, k);
    if k > 0 {
      MinMarksStep(s, k);
    }
  }

  /**
   * The running figures of `get_class_statistics` after visiting the records
   * `s`: the total, the highest marks seeded with 0, the lowest marks (none
   * before the first record) and the grade distribution.
   */
  predicate StatisticsSoFar(s: seq<Student>, total: int, highest: int, lowest: Option<int>,
                            distribution: seq<GradeCount>)
  {
    && total == SumMarks(s)
    && highest == RunningHighest(s)
    && (lowest.None? <==> |s| == 0)
    && (lowest.Some? ==> |s| > 0 && lowest.value == MinMarks(s))
    && distribution == Distribution(s)
  }

  /** The running distribution of `get_class_statistics` never holds a grade twice. */
  lemma StatisticsSoFarDistinct(s: seq<Student>, total: int, highest: int, lowest: Option<int>,
                                distribution: seq<GradeCount>)
    requires StatisticsSoFar(s, total, highest, lowest, distribution)
    ensures DistinctGrades(distribution)
  {
  }

  /** One iteration of the loop of `get_class_statistics` keeps its running figures those of the records visited. */
  lemma StatisticsLoopStep(s: seq<Student>, k: nat, total: int, highest: int, lowest: Option<int>,
                           distribution: seq<GradeCount>, total': int, highest': int, lowest': Option<int>,
                           distribution': seq<GradeCount>)
    requires k < |s|
    requires StatisticsSoFar(s[..k], total, highest, lowest, distribution)
    requires total' == total + s[k].marks
    requires highest' == if highest >= s[k].marks then highest else s[k].marks
    requires lowest' == Some(if lowest.None? then s[k].marks
                             else if s[k].marks < lowest.value then s[k].marks else lowest.value)
    requires distribution' == Tally(distribution, Upper(s[k].grade))
    ensures StatisticsSoFar(s[..k + 1], total', highest', lowest', distribution')
  {
    StatisticsStep(s, k);
  }

  /**
   * The `grade_distribution` dictionary of a valid list: distinct keys, each
   * the upper-cased grade of some record, counts that add up to `size`, and for
   * every grade the number of records `get_students_by_grade` lists.
   */
  function GradeDistribution(st: StudentList): (d: seq<GradeCount>)
    requires Valid(st)
    ensures DistinctGrades(d) && TotalCount(d) == st.size
    ensures forall i | 0 <= i < |d| :: exists j | 0 <= j < |st.records| :: Upper(st.records[j].grade) == d[i].grade
    ensures forall g :: CountOf(d, Upper(g)) == |StudentsByGrade(st, g)|
  {
    GradeDistributionFacts(st);
    Distribution(st.records)
  }

  lemma GradeDistributionFacts(st: StudentList)
    requires Valid(st)
    ensures DistinctGrades(Distribution(st.records)) && TotalCount(Distribution(st.records)) == st.size
    ensures forall i | 0 <= i < |Distribution(st.records)| :: exists j | 0 <= j < |st.records| ::
      Upper(st.records[j].grade) == Distribution(st.records)[i].grade
    ensures forall g :: CountOf(Distribution(st.records), Upper(g)) == |StudentsByGrade(st, g)|
  {
    DistributionCountsEveryGrade(st);
  }

  /** The figures `get_class_statistics` reports. */
  datatype ClassStats = ClassStats(
    count: int,
    average: real,
    highest: int,
    lowest: int,
    distribution: seq<GradeCount>)

  /**
   * `get_class_statistics`: nothing on an empty list; otherwise the count,
   * the average, the running highest (seeded with 0), the true lowest (the
   * source seeds it with infinity) and the per-grade counts.
   */
  function ClassStatistics(st: StudentList): (r: Option<ClassStats>)
    requires Valid(st)
    ensures r.None? <==> |st.records| == 0
    ensures r.Some? ==> r.value.count == |st.records|
    ensures r.Some? ==> r.value.average == AverageMarks(st)
    ensures r.Some? ==> r.value.highest == FindHighestMarks(st)
    ensures r.Some? ==> forall i | 0 <= i < |st.records| :: r.value.lowest <= st.records[i].marks
    ensures r.Some? ==> exists i | 0 <= i < |st.records| :: st.records[i].marks == r.value.lowest
    ensures r.Some? ==> DistinctGrades(r.value.distribution) && TotalCount(r.value.distribution) == st.size
    ensures r.Some? ==> forall i | 0 <= i < |r.value.distribution| ::
      exists j | 0 <= j < |st.records| :: Upper(st.records[j].grade) == r.value.distribution[i].grade
    ensures r.Some? ==> forall g :: CountOf(r.value.distribution, Upper(g)) == |StudentsByGrade(st, g)|
  {
    if |st.records| == 0 then None
    else
      Some(ClassStats(st.size, AverageMarks(st), RunningHighest(st.records), MinMarks(st.records),
        GradeDistribution(st)))
  }
}
