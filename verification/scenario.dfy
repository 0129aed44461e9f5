/**
 * The demonstration in `main()`: five inserts, the three lookups, the
 * aggregates, and one delete, stated as facts about the model.
 */
module Scenario {
  import opened Wrappers
  import opened Text
  import opened Queries
  import opened Store
  import opened Statistics

  const Fatir := Student("Fatir", "M.Kausar", 40208, 900, "A")
  const Shoaib := Student("Shoaib", "M.Ali", 40209, 950, "A+")
  const Mirza := Student("Mirza", "M.Alyan", 40210, 1000, "A+")
  const Faraz := Student("M.Faraz", "Jimmy", 40211, 1100, "B")
  const Fahad := Student("Fahad Ali", "Mr.Random", 40212, 1000, "A+")

  function Sample(): seq<Student>
  {
    [Fatir, Shoaib, Mirza, Faraz, Fahad]
  }

  function Database(): StudentList
  {
    InsertAll(Empty(), Sample())
  }

  /** The five inserts leave the five records in insertion order, counted by `size`. */
  lemma DemoContents()
    ensures Valid(Database())
    ensures Database().records == Sample()
    ensures CountStudents(Database()) == 5
    ensures Database() == StudentList(Sample(), 5)
  {
    InsertAllAppends(Empty(), Sample());
  }

  /** `calculate_average_marks` gives (900 + 950 + 1000 + 1100 + 1000) / 5. */
  lemma DemoAverage()
    ensures AverageMarks(Database()) == 990.0
  {
    DemoContents();
    var s := Sample();
    assert Init(s) == [Fatir, Shoaib, Mirza, Faraz];
    assert Init(Init(s)) == [Fatir, Shoaib, Mirza];
    assert Init(Init(Init(s))) == [Fatir, Shoaib];
    assert Init(Init(Init(Init(s)))) == [Fatir];
    assert SumMarks([Fatir]) == 900;
    assert SumMarks(s) == 4950;
  }

  /** `find_highest_marks` gives 1100. */
  lemma DemoHighest()
    ensures FindHighestMarks(Database()) == 1100
  {
    DemoContents();
    var s := Sample();
    assert Init(s) == [Fatir, Shoaib, Mirza, Faraz];
    assert Init(Init(s)) == [Fatir, Shoaib, Mirza];
    assert Init(Init(Init(s))) == [Fatir, Shoaib];
    assert Init(Init(Init(Init(s)))) == [Fatir];
    assert RunningHighest([Fatir]) == 900;
    assert RunningHighest(s) == 1100;
  }

  lemma SampleGradeMatches()
    ensures !Matches(GradeIs("A+"), Fatir) && Matches(GradeIs("A+"), Shoaib) && Matches(GradeIs("A+"), Mirza)
    ensures !Matches(GradeIs("A+"), Faraz) && Matches(GradeIs("A+"), Fahad)
  {
    assert |Upper("A")| == 1 && |Upper("B")| == 1 && |Upper("A+")| == 2;
  }

  lemma SelectCons(x: Student, s: seq<Student>, q: Query)
    ensures Select([x] + s, q) == Keep(x, q) + Select(s, q)
  {
    assert ([x] + s)[0] == x;
    assert ([x] + s)[1..] == s;
  }

  /** Selecting from five records keeps those that match, in order. */
  lemma SelectFive(a: Student, b: Student, c: Student, d: Student, e: Student, q: Query)
    ensures Select([a, b, c, d, e], q) == Keep(a, q) + Select([b, c, d, e], q)
    ensures Select([b, c, d, e], q) == Keep(b, q) + Select([c, d, e], q)
    ensures Select([c, d, e], q) == Keep(c, q) + Select([d, e], q)
    ensures Select([d, e], q) == Keep(d, q) + Keep(e, q)
  {
    SelectCons(e, [], q);
    assert [e] + [] == [e];
    SelectCons(d, [e], q);
    assert [d] + [e] == [d, e];
    SelectCons(c, [d, e], q);
    assert [c] + [d, e] == [c, d, e];
    SelectCons(b, [c, d, e], q);
    assert [b] + [c, d, e] == [b, c, d, e];
    SelectCons(a, [b, c, d, e], q);
    assert [a] + [b, c, d, e] == [a, b, c, d, e];
  }

  lemma SampleSelectGrade()
    ensures Select(Sample(), GradeIs("A+")) == [Shoaib, Mirza, Fahad]
  {
    SampleGradeMatches();
    SelectFive(Fatir, Shoaib, Mirza, Faraz, Fahad, GradeIs("A+"));
  }

  lemma FatirMatchesFa()
    ensures Matches(NameContains("fa"), Fatir)
  {
    assert Lower("fa") == "fa";
    assert Lower("Fatir") == "fatir";
    assert OccursAt("fatir", "fa", 0);
    ContainsComplete("fatir", "fa", 0);
  }

  /** A non-empty term occurs only in text that contains its first character. */
  lemma ContainsNeedsFirstChar(hay: string, needle: string)
    requires |needle| > 0
    ensures Contains(hay, needle) ==> exists i | 0 <= i < |hay| :: hay[i] == needle[0]
  {
    if Contains(hay, needle) {
      ContainsSound(hay, needle);
      var i :| OccursAt(hay, needle, i);
      assert hay[i] == needle[0];
    }
  }

  lemma ShoaibMissesFa()
    ensures !Matches(NameContains("fa"), Shoaib)
  {
    assert Lower("fa") == "fa";
    assert Lower("Shoaib") == "shoaib";
    ContainsNeedsFirstChar("shoaib", "fa");
  }

  lemma MirzaMissesFa()
    ensures !Matches(NameContains("fa"), Mirza)
  {
    assert Lower("fa") == "fa";
    assert Lower("Mirza") == "mirza";
    ContainsNeedsFirstChar("mirza", "fa");
  }

  lemma FarazMatchesFa()
    ensures Matches(NameContains("fa"), Faraz)
  {
    assert Lower("fa") == "fa";
    assert Lower("M.Faraz") == "m.faraz";
    assert OccursAt("m.faraz", "fa", 2);
    ContainsComplete("m.faraz", "fa", 2);
  }

  lemma FahadMatchesFa()
    ensures Matches(NameContains("fa"), Fahad)
  {
    assert Lower("fa") == "fa";
    assert Lower("Fahad Ali") == "fahad ali";
    assert OccursAt("fahad ali", "fa", 0);
    ContainsComplete("fahad ali", "fa", 0);
  }

  /** `search_by_partial_name("fa")` finds Fatir, M.Faraz and Fahad Ali, in that order. */
  lemma DemoPartialName()
    ensures SearchByPartialName(Database(), "fa") == [Fatir, Faraz, Fahad]
  {
    DemoContents();
    SampleSelectPartial();
    assert SearchByPartialName(Database(), "fa") == Select(Sample(), NameContains("fa"));
  }

  lemma SampleSelectPartial()
    ensures Select(Sample(), NameContains("fa")) == [Fatir, Faraz, Fahad]
  {
    FatirMatchesFa();
    ShoaibMissesFa();
    MirzaMissesFa();
    FarazMatchesFa();
    FahadMatchesFa();
    SelectFive(Fatir, Shoaib, Mirza, Faraz, Fahad, NameContains("fa"));
  }

  /** `get_students_by_grade("A+")` lists 40209, 40210 and 40212, in that order. */
  lemma DemoGrade()
    ensures StudentsByGrade(Database(), "A+") == [Shoaib, Mirza, Fahad]
  {
    DemoContents();
    SampleSelectGrade();
  }

  /** `delete_student(40208)` unlinks the head, leaving four records and no 40208. */
  lemma DemoDelete()
    ensures CountStudents(Delete(Database(), 40208)) == 4
    ensures SearchByRollNo(Delete(Database(), 40208), 40208) == None
    ensures Delete(Database(), 40208).records == [Shoaib, Mirza, Faraz, Fahad]
  {
    DemoContents();
    var rest := [Shoaib, Mirza, Faraz, Fahad];
    assert Sample()[1..] == rest;
    assert Delete(StudentList(Sample(), 5), 40208) == StudentList(rest, 4);
    assert forall i | 0 <= i < |rest| :: rest[i].rollNo != 40208;
  }

  /** The exact-name lookup ignores case: "fatir" and "FATIR" both find Fatir. */
  lemma DemoExactName()
    ensures SearchByExactName(Database(), "fatir") == Some(Fatir)
    ensures SearchByExactName(Database(), "FATIR") == Some(Fatir)
  {
    DemoContents();
    assert Lower("Fatir") == "fatir";
    assert Lower("FATIR") == "fatir";
  }

  lemma GradeKeyIsUpper()
    ensures Upper("A+") == "A+"
  {
    assert UpperChar('A') == 'A' && UpperChar('+') == '+';
    assert Upper("A+") == [UpperChar('A'), UpperChar('+')];
  }

  /** The lowest marks of the sample are Fatir's 900. */
  lemma DemoLowest()
    ensures MinMarks(Database().records) == 900
  {
    DemoContents();
    var s := Sample();
    assert s[1..] == [Shoaib, Mirza, Faraz, Fahad];
    assert s[1..][1..] == [Mirza, Faraz, Fahad];
    assert s[1..][1..][1..] == [Faraz, Fahad];
    assert s[1..][1..][1..][1..] == [Fahad];
    assert MinMarks([Fahad]) == 1000;
    assert MinMarks(s) == 900;
  }

  /** `get_class_statistics`: lowest 900, highest 1100, and three records graded "A+". */
  lemma DemoStatistics()
    ensures ClassStatistics(Database()).Some?
    ensures ClassStatistics(Database()).value.count == 5
    ensures ClassStatistics(Database()).value.lowest == 900
    ensures ClassStatistics(Database()).value.highest == 1100
    ensures CountOf(ClassStatistics(Database()).value.distribution, "A+") == 3
  {
    DemoContents();
    SampleFigures();
    SampleGradeCount();
  }

  /** The figures of the sample's statistics, apart from the per-grade counts. */
  lemma SampleFigures()
    ensures ClassStatistics(StudentList(Sample(), 5)) ==
      Some(ClassStats(5, AverageMarks(StudentList(Sample(), 5)), 1100, 900, Distribution(Sample())))
  {
    DemoContents();
    DemoHighest();
    DemoLowest();
  }

  /** Three of the sample's records are graded "A+". */
  lemma SampleGradeCount()
    ensures CountOf(Distribution(Sample()), "A+") == 3
  {
    DemoContents();
    DemoGrade();
    GradeKeyIsUpper();
    DistributionCountsGrade(Sample(), "A+");
  }
}
