# Student records in a singly linked list, modelled in Dafny

This project models `StudentLinkedList` from `student_management.py`. It is an
in-memory store of student records (name, father's name, roll number, marks,
grade). The records sit in a singly linked chain of `StudentNode`s and a `size`
counter is kept beside the chain. The store can:

- append a record;
- delete the first record with a given roll number;
- look records up by roll number, by exact name, by partial name or by grade,
  ignoring case where the source does;
- count the records, average their marks, find the highest marks, and compute
  the class statistics (count, average, highest, lowest, per-grade counts).

The model has two layers.

- **Value layer** (`Store`, `Statistics`, on top of `Queries` and `Text`). The
  list is the value `StudentList(records, size)`. Every operation is a pure
  function of that value. The lookups that only print in the source return
  what they print: an `Option` for the first-match lookups, and the selected
  records in order for the others.
- **Node layer** (`LinkedList`). The class `StudentLinkedList` walks a real
  chain of `StudentNode` objects, as the source does. The ghost sequences
  `nodes` and `contents` describe the chain. Every method is proved to compute
  exactly what the value layer computes on `Model()`. The invariant `Valid()`
  says that `size` equals the number of reachable nodes and that the chain is
  null-terminated and free of cycles. The constructor establishes it, and
  `InsertStudent`, `DeleteStudent` and `UnlinkAfter` preserve it.

Files:

- `wrappers.dfy`: `Option`.
- `text.dfy`: ASCII `lower()`/`upper()` and the substring test `in`.
- `queries.dfy`: the record type, the four kinds of lookup, first-match and
  select-all scans.
- `store.dfy`: the list value and its operations.
- `statistics.dfy`: the aggregates.
- `linked_list.dfy`: the node-level class.
- `scenario.dfy`: the sample data of `main()` and what the demonstration shows.

Two points about what the operations return:

- `delete_student` returns nothing and only prints, so `Store.Delete` returns
  the new list. `Store.DeleteRemovesFound` shows that the record removed is the
  one `search_by_roll_no` returns.
- Of the four lookups, only `search_by_roll_no` returns a value: the node, or
  `None`. The other three print their matches, and the model returns them.

## Model

| member | source | states |
|---|---|---|
| Text.Lower | student_management.py:97-100 | `str.lower()` keeps the length, leaves no upper-case letter, turns each upper-case letter into the lower-case letter that `UpperChar` maps back to it, and keeps every other character. |
| Text.Upper | student_management.py:176 | `str.upper()` keeps the length, leaves no lower-case letter, turns each lower-case letter into the upper-case letter that `LowerChar` maps back to it, and keeps every other character. |
| Text.LowerOfUpper | student_management.py:97-100 | Lower-casing an upper-cased string gives the same result as lower-casing the original, so the name comparison cannot tell a name from its upper-cased form. |
| Text.UpperOfLower | student_management.py:176 | Upper-casing a lower-cased string gives the same result as upper-casing the original, so the grade comparison cannot tell a grade from its lower-cased form. |
| Text.Contains | student_management.py:81 | The substring test `term in name` is true exactly when the term occurs at some position of the name. Hence the empty term is always found, a found term is no longer than the name, and a found non-empty term's first character occurs in the name. |
| Text.ContainsIffOccurs | student_management.py:81 | The substring scan behind `term in name` is true exactly when the term occurs at some position of the name. |
| Text.ContainsSound | student_management.py:81 | When the substring scan says yes, there is a position where the term occurs. |
| Text.ContainsComplete | student_management.py:81 | Any occurrence of the term makes the substring scan say yes. |
| Queries.Matches | student_management.py:75-81 | The comparison behind every lookup (lines 81, 100, 122 and 176): a name or grade always answers a query for itself, the empty term answers every partial-name query, an exact-name match has the query's length, and a contained term is no longer than the name. |
| Queries.MatchesIgnoresCase | student_management.py:97-100 | The exact-name, partial-name and grade comparisons answer for the same records whether the query term is given as is or case-folded. |
| Queries.FirstIndex | student_management.py:199-207 | The scan position is absent exactly when no record matches. Otherwise it names a matching record with no match before it. |
| Queries.First | student_management.py:120-131 | The first-match scan returns nothing exactly when no record matches. Otherwise it returns a matching record that is stored at a position with no earlier match. |
| Queries.FirstIndexIsUnique | student_management.py:199-207 | A matching position with no earlier match is the first-match index. |
| Queries.FirstAtFirstIndex | student_management.py:120-131 | The record the lookup returns is the one at the position the delete scan stops at. |
| Queries.Select | student_management.py:80-84 | The select-all scan returns only matching records and never more than were stored. |
| Queries.SelectMultiplicity | student_management.py:175-179 | Each matching record is selected exactly as often as it is stored. A record that does not match is never selected. |
| Queries.SelectMembership | student_management.py:175-179 | A record is selected if and only if it is stored and matches. |
| Queries.SelectAppend | student_management.py:80-84 | Selecting from `a + b` gives the selection from `a` followed by the selection from `b`, so selections keep insertion order. |
| Queries.SelectPrefixStep | student_management.py:80-84 | Scanning one more record appends that record to the selection exactly when it matches. |
| Queries.SelectSingle | student_management.py:176-178 | A single record is selected exactly when it matches. |
| Queries.SelectEmptyIff | student_management.py:86-87 | Nothing is selected (the "no matching students" case) exactly when no record matches. |
| Queries.SelectAllMatching | student_management.py:80-84 | When every record matches, the selection is the whole list. |
| Queries.FirstIsHeadOfSelect | student_management.py:99-109 | A first match exists exactly when the select-all scan is non-empty, and it is the first record that scan selects. |
| Queries.FirstAppend | student_management.py:120-128 | The first match in `a + b` comes from `a` if `a` has one, and otherwise from `b`. |
| Store.Valid | student_management.py:30-46 | The class invariant: `size` equals the number of records reachable from `head`. It holds after `__init__` and `insert_student`, and every other operation keeps it. |
| Store.Empty | student_management.py:30-32 | A new list satisfies the size invariant and no roll number is found in it. |
| Store.Insert | student_management.py:34-46 | Insert keeps the size invariant and grows `size` by exactly one. Earlier records stay in place and the new record comes last. |
| Store.Delete | student_management.py:184-209 | Delete keeps the size invariant. With no matching roll number, the list and `size` stay unchanged. Otherwise exactly the first matching record is removed, the others keep their order, and `size` drops by one. |
| Store.SearchByRollNo | student_management.py:114-131 | The lookup returns `None` exactly when no record has the roll number. Otherwise it returns a record with that roll number that is stored at a position with no earlier match. |
| Store.SearchByExactName | student_management.py:89-112 | The same first-match guarantee for names compared after lower-casing. |
| Store.SearchByPartialName | student_management.py:67-87 | A record is listed exactly when it is stored and the lower-cased term occurs in its lower-cased name. It is listed as often as it is stored. |
| Store.StudentsByGrade | student_management.py:164-182 | A record is listed exactly when it is stored and its upper-cased grade equals the upper-cased query. It is listed as often as it is stored. |
| Store.CountStudents | student_management.py:160-162 | Under the invariant, the counter equals the number of records. |
| Store.InsertAll | student_management.py:256-260 | Repeated `insert_student` calls put the new records after the stored ones, in call order, and raise `size` by their number. |
| Store.InsertAllAppends | student_management.py:34-46 | N inserts into a valid list append those N records in order. The count grows by exactly N. |
| Store.SearchAfterInsert | student_management.py:114-131 | Duplicate roll numbers are accepted. After an insert, a lookup still returns the earliest record with that number. It finds the new record only when no earlier record has the number. |
| Store.GradeSelectionAfterInsert | student_management.py:164-182 | After an insert, the grade selection is the old selection, followed by the new record if its grade matches. |
| Store.EmptyTermListsAll | student_management.py:75-81 | The empty search term lists every record, as `'' in name` is always true. |
| Store.DeleteUndoesInsert | student_management.py:184-209 | Inserting a record whose roll number is absent and then deleting that number restores the original list and `size`. |
| Store.DeleteCommutesWithInsert | student_management.py:184-209 | When the roll number is already present, deleting it after an insert gives the same list as deleting it before the insert. |
| Store.DeleteRemovesFound | student_management.py:190-207 | Delete removes exactly the record that `search_by_roll_no` returns. Every other record stays, with its multiplicity. |
| Store.DeleteDropsOneMatch | student_management.py:190-207 | A successful delete lowers the number of records with that roll number by exactly one. |
| Store.DeleteThenSearch | student_management.py:190-207 | After a successful delete, the roll number can no longer be found exactly when no duplicate of it was stored. |
| Statistics.MinMarks | student_management.py:219-226 | The lowest marks of a non-empty list are at most every record's marks, and some record has them. |
| Statistics.MaxMarks | student_management.py:225 | The largest marks of a non-empty list are at least every record's marks, and some record has them. |
| Statistics.MinMarksStep | student_management.py:226 | The running minimum over one more record is the smaller of the previous minimum and that record's marks. |
| Statistics.RunningHighest | student_management.py:151-156 | The running maximum seeded with 0 is non-negative and at least every record's marks. It is 0 or some record's marks. |
| Statistics.AverageMarks | student_management.py:133-144 | The average is 0 on an empty list. Otherwise it times the number of records equals the total of the marks. |
| Statistics.FindHighestMarks | student_management.py:146-158 | The highest marks are 0 on an empty list. Otherwise they are non-negative, at least every record's marks, and 0 or some record's marks. |
| Statistics.HighestIsMaxFlooredAtZero | student_management.py:146-158 | On a non-empty list the highest marks are `max(0, largest marks)`. |
| Statistics.SumMarksAppend | student_management.py:138-142 | The running total of a list split in two is the sum of the two halves' totals, so the head-to-tail loop adds each record's marks exactly once whatever the split. |
| Statistics.SumAtLeast | student_management.py:138-142 | If every record's marks are at least `lo`, the total is at least `lo` times the count. |
| Statistics.SumAtMost | student_management.py:138-142 | If every record's marks are at most `hi`, the total is at most `hi` times the count. |
| Statistics.AverageBetweenMinAndMax | student_management.py:133-144 | The average of a non-empty list lies between its lowest and its highest marks. |
| Statistics.CountOfLooksUp | student_management.py:230 | `grade_distribution.get(g, 0)` is 0 when no entry has grade `g`, and with distinct grades it is the count of the entry for `g`. |
| Statistics.Tally | student_management.py:229-230 | `dist[g] = dist.get(g, 0) + 1` adds one to the count of `g` only, keeps the keys distinct, adds no key other than `g`, and raises the total by one. |
| Statistics.Distribution | student_management.py:220-232 | The grade distribution has distinct keys, each key is some record's upper-cased grade, and the counts add up to the number of records. |
| Statistics.DistributionCountsGrade | student_management.py:229-230 | The count of `upper(g)` equals the number of records `get_students_by_grade(g)` lists. |
| Statistics.DistributionKeysAreUpper | student_management.py:229 | Every key of the distribution is already upper-case. |
| Statistics.StatisticsStep | student_management.py:222-232 | One loop iteration updates the total, highest, lowest and distribution from their values over the previous records. |
| Statistics.StatisticsLoopStep | student_management.py:223-232 | When the running total, highest, lowest and distribution are those of the first `k` records, one more iteration makes them those of the first `k + 1`. |
| Statistics.GradeDistribution | student_management.py:220-230 | The `grade_distribution` dictionary has distinct keys, each the upper-cased grade of some record; its counts add up to `size`; and the count under any grade, upper-cased, is the number of records `get_students_by_grade` lists for it. |
| Statistics.GradeDistributionFacts | student_management.py:220-230 | The distribution that the loop builds has distinct keys, and each key is some record's upper-cased grade. Its counts add up to `size`, and each count matches `get_students_by_grade`. |
| Statistics.ClassStatistics | student_management.py:211-234 | No statistics on an empty list. Otherwise: the count is `size`; the average and highest agree with `calculate_average_marks` and `find_highest_marks`; the lowest is at most every record's marks and is some record's marks; the per-grade keys are distinct and each is the upper-cased grade of some record; the counts add up to `size`, and each matches `get_students_by_grade`. |
| LinkedList.StudentNode.Create | student_management.py:11-17 | A new node holds the given student's data and has no successor. |
| LinkedList.StudentLinkedList.Valid | student_management.py:194-204 | The chain from `head` runs through distinct nodes, with no cycle and no sharing, and ends in `None`. The nodes hold the abstract contents in order, and `size` counts them. Every method keeps this, including the two `size -= 1` unlinks in `delete_student`. |
| LinkedList.StudentLinkedList.Create | student_management.py:30-32 | `__init__` gives an empty chain with `size` 0 that satisfies `Valid()` and stands for `Store.Empty()`. |
| LinkedList.StudentLinkedList.InsertStudent | student_management.py:34-46 | Walking to the tail and linking a fresh node keeps the chain valid and does what `Store.Insert` does. |
| LinkedList.StudentLinkedList.DeleteStudent | student_management.py:184-209 | The head branch and the trailing-node branch keep the chain valid and do what `Store.Delete` does. |
| LinkedList.StudentLinkedList.UnlinkAfter | student_management.py:203-204 | Bypassing the node after the `k`-th keeps the chain valid, removes record `k + 1` and lowers `size` by one. |
| LinkedList.StudentLinkedList.SearchByRollNo | student_management.py:114-131 | The node walk returns what `Store.SearchByRollNo` returns. |
| LinkedList.StudentLinkedList.SearchByExactName | student_management.py:89-112 | The node walk stops at the same record `Store.SearchByExactName` returns. |
| LinkedList.StudentLinkedList.SearchByPartialName | student_management.py:67-87 | The node walk collects the same records, in the same order, as `Store.SearchByPartialName`. |
| LinkedList.StudentLinkedList.StudentsByGrade | student_management.py:164-182 | The node walk collects the same records, in the same order, as `Store.StudentsByGrade`. |
| LinkedList.StudentLinkedList.CountStudents | student_management.py:160-162 | The counter equals the number of records in the chain. |
| LinkedList.StudentLinkedList.CalculateAverageMarks | student_management.py:133-144 | The node walk's total divided by `size` is `Statistics.AverageMarks`. |
| LinkedList.StudentLinkedList.FindHighestMarks | student_management.py:146-158 | The node walk's running maximum is `Statistics.FindHighestMarks`. |
| LinkedList.StudentLinkedList.ClassStatistics | student_management.py:211-234 | The single node walk computes the same figures as `Statistics.ClassStatistics`. |
| Scenario.DemoContents | student_management.py:253-260 | The five sample inserts leave the five records in order, with a count of 5. |
| Scenario.DemoAverage | student_management.py:256-260 | The sample's average is 990. |
| Scenario.DemoHighest | student_management.py:256-260 | The sample's highest marks are 1100. |
| Scenario.DemoGrade | student_management.py:272 | The sample's grade "A+" lists roll numbers 40209, 40210 and 40212, in that order. |
| Scenario.DemoPartialName | student_management.py:266 | In the sample, "fa" finds Fatir, M.Faraz and Fahad Ali, in that order. |
| Scenario.ContainsNeedsFirstChar | student_management.py:266 | A non-empty term occurs only in a name holding the term's first character, which is why "fa" misses `shoaib` and `mirza`. |
| Scenario.DemoExactName | student_management.py:267 | In the sample, "fatir" and "FATIR" both find Fatir. |
| Scenario.DemoDelete | student_management.py:275 | Deleting 40208 from the sample leaves four records, in order, and 40208 is no longer found. |
| Scenario.DemoLowest | student_management.py:256-260 | The sample's lowest marks are 900. |
| Scenario.DemoStatistics | student_management.py:271 | The sample's statistics: count 5, lowest 900, highest 1100, and three records graded "A+". |

## Left out

- Console output is not modelled: every `print`, the emoji messages, `StudentNode.__str__` and `display_all_students`. They format text and hold no logic.
- `main()` is not an operation. Its scenario appears as the `Scenario` lemmas.
- Python's `str.lower()` and `str.upper()` fold all of Unicode. The model folds only the ASCII letters A-Z and a-z.
- Marks are unbounded integers. The source accepts any Python number, including floats.
- The average is a `real` quotient, not a binary floating-point value. On an empty list the source returns the integer `0` and the model returns `0.0`.
- The `float('inf')` seed of `lowest` has no counterpart. The model's lowest is the minimum of a non-empty list (`Statistics.MinMarks`). The node walk uses `None` as its seed.
- `search_by_roll_no` returns the node, and the model returns the record stored in it. The `next` link of a returned node is not exposed.
- `LinkedList.StudentLinkedList.DeleteStudent` merges the source's "match, unlink, return" inside the loop into a scan that stops before the matching node, followed by `UnlinkAfter`. The chain changes in the same way.
- Statistics.Distribution: its keys are kept in first-occurrence order, as Python's dict keeps them, but that order is not stated as a property. Only the keys and the counts are.
- Statistics.ClassStatistics: the source only prints these figures. The model returns them.
- Queries.Select: its own contract states only that every selected record matches and that no more are selected than stored. How often each record is kept is stated by `Queries.SelectMultiplicity`, and the order is stated by `Queries.SelectAppend`.
- Store.SearchByPartialName: its contract states membership and multiplicity but not order. Order follows from `Queries.SelectAppend`, and `LinkedList.StudentLinkedList.SearchByPartialName` is proved equal to it.
- Store.StudentsByGrade: as for `Store.SearchByPartialName`, order is not part of its own contract.
- Statistics.SumMarks: carries no contract of its own, because a contract on it enters every proof that mentions a total and makes the loop proofs too costly for the verifier. `Statistics.SumMarksAppend`, `Statistics.SumAtLeast` and `Statistics.SumAtMost` state what the total is.
- Statistics.CountOf: likewise carries no contract of its own. `Statistics.CountOfLooksUp` states what it reads.
