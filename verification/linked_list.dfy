/**
 * The node-level `StudentLinkedList`: a chain of `StudentNode`s reached
 * from `head`, plus the `size` counter.  Each method walks the chain the way
 * the source does, and its contract says that it computes exactly what the
 * value-level `Store` and `Statistics` functions compute on the abstract
 * contents.  The ghost `nodes` sequence lists the chain in order.
 */
module LinkedList {
  import opened Wrappers
  import opened Text
  import opened Queries
  import opened Store
  import opened Statistics

  /** `StudentNode`: a student's data and the link to the next node. */
  class StudentNode {
    const student: Student
    var next: StudentNode?

    constructor Create(x: Student)
      ensures student == x && next == null
    {
      student := x;
      next := null;
    }
  }

  class StudentLinkedList {
    var head: StudentNode?
    var size: int
    ghost var nodes: seq<StudentNode>
    ghost var contents: seq<Student>

    /**
     * `head` starts a null-terminated chain through exactly `nodes`, the
     * nodes are pairwise distinct (no cycle, no sharing), they carry
     * `contents`, and `size` counts them.
     */
    ghost predicate Valid()
      reads this, nodes
    {
      && size == |nodes|
      && |contents| == |nodes|
      && (forall i | 0 <= i < |nodes| :: nodes[i].student == contents[i])
      && head == (if |nodes| == 0 then null else nodes[0])
      && (forall i {:trigger nodes[i].next} | 0 <= i < |nodes| :: nodes[i].next == if i + 1 < |nodes| then nodes[i + 1] else null)
      && (forall i, j | 0 <= i < j < |nodes| :: nodes[i] != nodes[j])
    }

    /** The value this list stands for. */
    ghost function Model(): StudentList
      reads this
    {
      StudentList(contents, size)
    }

    /** `__init__` */
    constructor Create()
      ensures Valid()
      ensures Model() == Empty()
    {
      head := null;
      size := 0;
      nodes := [];
      contents := [];
    }

    /** `insert_student`: walk to the last node and link a new node after it. */
    method InsertStudent(x: Student)
      requires Valid()
      modifies this, nodes
      ensures Valid()
      ensures Model() == Insert(old(Model()), x)
    {
      var n := new StudentNode.Create(x);
      if head == null {
        head := n;
      } else {
        var current := head;
        ghost var k := 0;
        while current.next != null
          invariant Valid() && nodes == old(nodes) && contents == old(contents)
          invariant 0 <= k < |nodes| && current == nodes[k]
          decreases |nodes| - k
        {
          current := current.next;
          k := k + 1;
        }
        current.next := n;
      }
      nodes := nodes + [n];
      contents := contents + [x];
      size := size + 1;
    }

    /**
     * `delete_student`: unlink the head if it matches, otherwise walk with a
     * trailing node reference until the next node matches and unlink that node.
     */
    method DeleteStudent(key: int)
      requires Valid()
      modifies this, nodes
      ensures Valid()
      ensures Model() == Delete(old(Model()), key)
    {
      if head == null {
        return;
      }
      if head.student.rollNo == key {
        head := head.next;
        size := size - 1;
        nodes := nodes[1..];
        contents := contents[1..];
        FirstIndexIsUnique(old(contents), RollIs(key), 0);
        return;
      }
      var current := head;
      ghost var k := 0;
      while current.next != null && current.next.student.rollNo != key
        invariant Valid() && nodes == old(nodes) && contents == old(contents)
        invariant 0 <= k < |nodes| && current == nodes[k]
        invariant forall j | 0 <= j <= k :: contents[j].rollNo != key
        decreases |nodes| - k
      {
        current := current.next;
        k := k + 1;
      }
      if current.next == null {
        return;
      }
      FirstIndexIsUnique(contents, RollIs(key), k + 1);
      UnlinkAfter(current, k);
    }

    /** `current.next = current.next.next; self.size -= 1` with `current` the `k`-th node. */
    method UnlinkAfter(current: StudentNode, ghost k: nat)
      requires Valid()
      requires k + 1 < |nodes| && current == nodes[k]
      modifies this, current
      ensures Valid()
      ensures contents == old(contents[..k + 1] + contents[k + 2..])
      ensures size == old(size) - 1
    {
      current.next := current.next.next;
      size := size - 1;
      nodes := nodes[..k + 1] + nodes[k + 2..];
      contents := contents[..k + 1] + contents[k + 2..];
    }

    /** `search_by_roll_no` */
    method SearchByRollNo(key: int) returns (r: Option<Student>)
      requires Valid()
      ensures r == Store.SearchByRollNo(Model(), key)
    {
      var current := head;
      ghost var k := 0;
      while current != null
        invariant Valid()
        invariant 0 <= k <= |nodes|
        invariant current == if k < |nodes| then nodes[k] else null
        invariant forall j | 0 <= j < k :: contents[j].rollNo != key
        decreases |nodes| - k
      {
        if current.student.rollNo == key {
          FirstIndexIsUnique(contents, RollIs(key), k);
          FirstAtFirstIndex(contents, RollIs(key));
          return Some(current.student);
        }
        current := current.next;
        k := k + 1;
      }
      return None;
    }

    /** `search_by_exact_name`: stops at the first case-insensitive match. */
    method SearchByExactName(name: string) returns (r: Option<Student>)
      requires Valid()
      ensures r == Store.SearchByExactName(Model(), name)
    {
      var current := head;
      var lowered := Lower(name);
      ghost var k := 0;
      while current != null
        invariant Valid()
        invariant 0 <= k <= |nodes|
        invariant current == if k < |nodes| then nodes[k] else null
        invariant forall j | 0 <= j < k :: Lower(contents[j].name) != lowered
        decreases |nodes| - k
      {
        if Lower(current.student.name) == lowered {
          FirstIndexIsUnique(contents, NameIs(name), k);
          FirstAtFirstIndex(contents, NameIs(name));
          return Some(current.student);
        }
        current := current.next;
        k := k + 1;
      }
      return None;
    }

    /** `search_by_partial_name`: collects every case-insensitive substring match. */
    method SearchByPartialName(term: string) returns (found: seq<Student>)
      requires Valid()
      ensures found == Store.SearchByPartialName(Model(), term)
    {
      found := [];
      var current := head;
      var lowered := Lower(term);
      ghost var k := 0;
      while current != null
        invariant Valid()
        invariant 0 <= k <= |nodes|
        invariant current == if k < |nodes| then nodes[k] else null
        invariant found == Select(contents[..k], NameContains(term))
        decreases |nodes| - k
      {
        SelectPrefixStep(contents, k, NameContains(term));
        if Contains(Lower(current.student.name), lowered) {
          found := found + [current.student];
        }
        current := current.next;
        k := k + 1;
      }
      assert contents[..k] == contents;
    }

    /** `get_students_by_grade`: collects every record whose grade matches ignoring case. */
    method StudentsByGrade(grade: string) returns (found: seq<Student>)
      requires Valid()
      ensures found == Store.StudentsByGrade(Model(), grade)
    {
      found := [];
      var current := head;
      ghost var k := 0;
      while current != null
        invariant Valid()
        invariant 0 <= k <= |nodes|
        invariant current == if k < |nodes| then nodes[k] else null
        invariant found == Select(contents[..k], GradeIs(grade))
        decreases |nodes| - k
      {
        SelectPrefixStep(contents, k, GradeIs(grade));
        if Upper(current.student.grade) == Upper(grade) {
          found := found + [current.student];
        }
        current := current.next;
        k := k + 1;
      }
      assert contents[..k] == contents;
    }

    /** `count_students` */
    method CountStudents() returns (n: int)
      requires Valid()
      ensures n == |Model().records|
    {
      n := size;
    }

    /** `calculate_average_marks` */
    method CalculateAverageMarks() returns (average: real)
      requires Valid()
      ensures average == AverageMarks(Model())
    {
      if head == null {
        return 0.0;
      }
      var total := 0;
      var current := head;
      ghost var k := 0;
      while current != null
        invariant Valid()
        invariant 0 <= k <= |nodes|
        invariant current == if k < |nodes| then nodes[k] else null
        invariant total == SumMarks(contents[..k])
        decreases |nodes| - k
      {
        PrefixStep(contents, k);
        total := total + current.student.marks;
        current := current.next;
        k := k + 1;
      }
      assert contents[..k] == contents;
      average := total as real / size as real;
    }

    /** `find_highest_marks` */
    method FindHighestMarks() returns (highest: int)
      requires Valid()
      ensures highest == Statistics.FindHighestMarks(Model())
    {
      if head == null {
        return 0;
      }
      highest := 0;
      var current := head;
      ghost var k := 0;
      while current != null
        invariant Valid()
        invariant 0 <= k <= |nodes|
        invariant current == if k < |nodes| then nodes[k] else null
        invariant highest == RunningHighest(contents[..k])
        decreases |nodes| - k
      {
        PrefixStep(contents, k);
        if current.student.marks > highest {
          highest := current.student.marks;
        }
        current := current.next;
        k := k + 1;
      }
      assert contents[..k] == contents;
    }

    /**
     * The single traversal of `get_class_statistics`.  `lowest` starts as
     * `None`, standing for the source's `float('inf')` seed.
     */
    method ClassStatistics() returns (r: Option<ClassStats>)
      requires Valid()
      ensures r == Statistics.ClassStatistics(Model())
    {
      if head == null {
        return None;
      }
      var total := 0;
      var highest := 0;
      var lowest: Option<int> := None;
      var distribution: seq<GradeCount> := [];
      var current := head;
      ghost var k := 0;
      while current != null
        invariant Valid()
        invariant 0 <= k <= |nodes|
        invariant current == if k < |nodes| then nodes[k] else null
        invariant StatisticsSoFar(contents[..k], total, highest, lowest, distribution)
        decreases |nodes| - k
      {
        var student := current.student;
        assert student == contents[k];
        StatisticsSoFarDistinct(contents[..k], total, highest, lowest, distribution);
        var marks := student.marks;
        var total' := total + marks;
        var highest' := if highest >= marks then highest else marks;
        var lowest' := Some(if lowest.None? then marks else if marks < lowest.value then marks else lowest.value);
        var distribution' := Tally(distribution, Upper(student.grade));
        StatisticsLoopStep(contents, k, total, highest, lowest, distribution, total', highest', lowest', distribution');
        total, highest, lowest, distribution := total', highest', lowest', distribution';
        current := current.next;
        k := k + 1;
      }
      assert contents[..k] == contents;
      r := Some(ClassStats(size, total as real / size as real, highest, lowest.value, distribution));
    }
  }
}
