# Majority-vote grading of SQL submissions, in Dafny

This project models the grading core of a tool that grades students' SQL queries
without an answer key (`main.py`). Every student's query has already been run. Its
outcome is either the list of rows it returned or a marker string: `"TLE"` when it
ran out of time, `"ERROR: <message>"` when it failed. The core then does four things:

- **Normalisation** (`normalize_result`): a marker passes through unchanged. A row
  list becomes the set of its distinct rows, so row order and repeated rows do not
  matter. The query text passed alongside is ignored.
- **Majority** (`find_majority_result`): the row-set outcomes are counted. Markers
  are not counted, but they do count towards the number of students. The most
  frequent row set (the first one met, on a tie) is the majority only if more than
  half of all students returned it.
- **Verdicts** (`compare_results`): a marker is kept as the student's verdict. The
  majority row set gets `OK`. Any other row set gets `FAIL`, and with no majority
  every row set gets `FAIL`.
- **Collection** (the loop in `main`): only `.sql` files are kept. The student's
  name is the file name minus its last four characters. Outcome and query are
  stored under that name in two dictionaries; a later file of the same name
  overwrites an earlier one.

Modules, one per component:

- `Wrappers` (Option) and `Dict`, in `dict.dfy`. `Dict` is a Python dictionary kept
  as a sequence of key/value pairs in insertion order, with `Get` (`d.get(k)`) and
  `Put` (`d[k] = v`, which keeps an existing key in its place).
- `Outcomes`, in `outcomes.dfy`: rows, outcomes and normalisation.
- `Majority`, in `majority.dfy`: counting, `Counter.most_common(1)` with its
  first-met tie-break, and the strict-majority test.
- `Grading`, in `grading.dfy`: verdicts. `Deserved` states the majority rule
  directly: a marker is kept, and a row list is OK exactly when more than half of
  all students returned the same distinct rows. It uses no counter and no
  tie-break. `JudgeAgreesWithDeserved` proves that the code's route through
  `most_common` reaches the same verdict, and `CompareResults` promises `Deserved`
  for every student.
- `Submissions`, in `submissions.dfy`: the collection loop, and the whole grading
  run without I/O.

`compare_results` fills its `evaluation` dictionary in two loops, one per branch
on the majority. These loops are the method `AssignVerdicts`; `CompareResults`
normalises, finds the majority and calls it.

Three facts about the code that the model follows closely:

- A timeout is recorded as the marker string `"TLE"` (main.py:164), and a failure
  as `"ERROR: "` followed by the exception message (main.py:166). Both markers are
  kept as the student's verdict.
- The student name is the file name minus exactly four characters (main.py:249).
- A later file with the same student name overwrites the earlier one in place
  (`GatherLastWins`, `OverwriteKeepsPlaceExample`). The names in one directory are
  distinct, though, so two `.sql` files never yield the same student
  (`GatherDistinctNames`).

## Model

| member | source | states |
|---|---|---|
| `Dict.Get` | main.py:192 | `d.get(k)` is absent exactly when `k` is not a key, and otherwise is a value stored under `k` |
| `Dict.Put` | main.py:253-254 | `d[k] = v`: an existing key keeps its position and only its value changes; a new key is appended at the end; keys stay distinct |
| `Dict.GetPut` | main.py:253-254 | after `d[k] = v`, looking up `k` gives `v` and every other key's lookup is unchanged |
| `Outcomes.ErrorMarker` | main.py:165-166 | an error marker starts with `"ERROR: "` and the exception message follows it |
| `Outcomes.RowSet` | main.py:175 | `set(rows)` holds exactly the rows of the list, and has no more elements than the list |
| `Outcomes.NormalizeResult` | main.py:170-175 | a marker string is returned unchanged; a row list becomes a row set holding exactly its rows; the query text plays no part |
| `Outcomes.NormalizeRowsEqualIff` | main.py:175 | two row lists normalise to the same value exactly when every row of each list occurs in the other |
| `Outcomes.NormalizeOrderInsensitive` | main.py:173-175 | permuting the rows does not change the normalised outcome |
| `Outcomes.NormalizeDuplicateInsensitive` | main.py:175 | repeating a row does not change the normalised outcome |
| `Outcomes.NormalizeIdempotent` | main.py:175 | any listing of an already-normalised row set normalises back to that set |
| `Outcomes.RowSetOfDistinct` | main.py:175 | a row list without repetitions keeps all its rows: its set has as many elements as the list |
| `Outcomes.NormalizeAsWritten` | main.py:170-175 | a marker passes through; a row list fails exactly when two of its rows cannot be ordered by Python, and otherwise normalises as `NormalizeResult` does |
| `Outcomes.RowsComparableSelf` | main.py:175 | a row always compares with itself, so only two different rows can make the sort fail |
| `Outcomes.SortRaisesExample` | main.py:175 | the rows `(None,)` and `(1,)` make the code as written fail, while `NormalizeResult` gives their two-row set |
| `Outcomes.KeyColumnSortsExample` | main.py:175 | the rows `(1, None)`, `(2, 1)`, `(4, None)` sort without error, because the first column tells them apart |
| `Outcomes.NormalizeExample` | test_main.py:122-133 | `[(1,'a'), (2,'b'), (1,'a')]` normalises to a set containing both rows and of size 2 |
| `Outcomes.NormalizeErrorExample` | test_main.py:136-143 | an `"ERROR: ..."` marker is returned unchanged |
| `Majority.RowSets` | main.py:178 | the counted values are exactly the row sets among the outcomes; markers are dropped |
| `Majority.Count` | main.py:179 | a value's count never exceeds the number of entries, and is positive exactly when the value occurs |
| `Majority.MostCommonIndex` | main.py:185 | `most_common(1)` picks a value whose count is at least every other value's count, and no earlier value has the same count (first met wins a tie) |
| `Majority.ExceedsHalf` | main.py:186 | `count > total / 2` with true division holds exactly when `2 * count > total` |
| `Majority.FindMajorityResult` | main.py:177-188 | `(None, 0)` without row sets; otherwise the count is the highest frequency of any row set; a majority is returned if and only if `2 * count > total`, where `total` includes markers, and it has that count |
| `Majority.CountTwoValues` | main.py:185-187 | two different values together occur no more often than there are entries |
| `Majority.CountRowSets` | main.py:178-179 | the count of a row set equals how often it occurs among all normalised outcomes |
| `Majority.StrictMajorityUnique` | main.py:185-187 | once a value is held by more than half of the students, every other value is held by fewer than half, so the majority is unique |
| `Majority.MajorityIff` | main.py:185-188 | the majority found is `s` if and only if more than half of all students have row set `s`; the tie-break never decides it |
| `Majority.MajorityOrderIndependent` | main.py:178-188 | reordering the students does not change the majority found |
| `Majority.TieAtHalfExample` | main.py:186-188 | `{A, A, B, B}` has no majority: 2 is not more than half of 4 |
| `Majority.MarkerInTotalExample` | main.py:178-187 | `{A, A, TLE}` has majority `A` with count 2: the marker counts towards the total only |
| `Grading.Verdict.Text` | main.py:204-217 | the stored text of a kept marker is the marker itself; the text is `"OK"` exactly for OK or a marker reading `"OK"`, and `"FAIL"` exactly for FAIL or a marker reading `"FAIL"` |
| `Grading.NormalizeAll` | main.py:191-194 | `normalized_results` has the same students in the same order, each with its normalised outcome, whatever query is passed along |
| `Grading.NormalizeAllIgnoresQueries` | main.py:192 | the normalised outcomes are the same whatever queries are looked up for the students |
| `Grading.Support` | main.py:178-179 | the number of students who returned a given row set is at most the number of students |
| `Grading.SupportIsMultiplicity` | main.py:178-179 | that number is how often the row set occurs among the normalised outcomes |
| `Grading.SupportIsCount` | main.py:178-179 | that number is exactly what the counter holds for the row set |
| `Grading.Judge` | main.py:201-217 | a student's verdict is a kept marker exactly when the outcome is a marker, and then it is that marker; it is OK exactly when there is a majority and the outcome is that row set; otherwise it is FAIL |
| `Grading.JudgeAgreesWithDeserved` | main.py:196-217 | the verdict reached through `find_majority_result` equals the direct rule: marker kept, OK if and only if a strict majority shares the row set, FAIL otherwise |
| `Grading.NextKeyIsNew` | main.py:203-217 | while `evaluation` holds the first students in order, it has distinct keys and the next student is not yet in it |
| `Grading.AssignVerdicts` | main.py:199-217 | both loops record every student, in order, with the code's verdict for the majority found: the marker if the outcome is a marker, OK on the majority row set, FAIL otherwise |
| `Grading.CompareResults` | main.py:190-222 | `evaluation` has exactly the input's students in the input's order; every marker student keeps the marker; a row-set student gets OK if and only if more than half of all students share its distinct rows, and FAIL otherwise |
| `Grading.SupportAppend` | main.py:178-179 | counting the students of two groups adds up |
| `Grading.SupportPermutation` | main.py:178-179 | reordering the students does not change how many share a row set |
| `Grading.VerdictOrderIndependent` | main.py:178-217 | reordering the students changes nobody's verdict, so the insertion-order tie-break never matters |
| `Grading.NoMajorityNoOk` | main.py:201-208 | with no row set held by more than half, nobody is OK and every row-set student is FAIL |
| `Grading.MarkerTextDistinct` | main.py:164-166 | the `"TLE"` and `"ERROR: ..."` markers can never be read as `"OK"` or `"FAIL"` in the evaluation |
| `Grading.ClearMajorityExample` | test_main.py:146-166 | three students with `{(1,)}`, `{(1,)}`, `{(2,)}` get OK, OK, FAIL |
| `Grading.NoMajorityExample` | test_main.py:169-188 | three students with three different answers all get FAIL |
| `Submissions.IsSubmissionIff` | main.py:247 | a file name is kept exactly when it is at least four characters long and is its own stem followed by `.sql`, so any stem followed by `.sql` is kept |
| `Submissions.StudentName` | main.py:249 | the student name followed by `.sql` is the file name |
| `Submissions.Gather` | main.py:243-254 | the dictionary built by the loop never holds a student twice |
| `Submissions.SubmissionNames` | main.py:246-249 | a name is listed if and only if some `.sql` file carries it |
| `Submissions.CollectSubmissions` | main.py:243-254 | the loop builds `student_results` and `queries_by_student` as `Gather` of the outcomes and of the query texts |
| `Submissions.GradeSubmissions` | main.py:243-259 | every collected student, in collection order, gets the verdict of the majority rule among the collected outcomes |
| `Submissions.GatherKeys` | main.py:253-254 | the two dictionaries hold the same students in the same order |
| `Submissions.GatherStudents` | main.py:246-249 | a student is collected if and only if some `.sql` file carries the student's name |
| `Submissions.GatherLastWins` | main.py:253-254 | among files with the same student name, the last one's outcome is stored |
| `Submissions.OverwriteKeepsPlaceExample` | main.py:253-254 | files `a.sql`, `b.sql`, `a.sql` give `a` with the last outcome, still before `b` |
| `Submissions.GatherDistinctNames` | main.py:246-254 | with distinct file names, no student is overwritten: the students are the `.sql` names in listing order, one per file |
| `Submissions.CollectExample` | main.py:246-249 | `a.sql` is collected as student `a`; `a.txt` and `sql` are skipped |

## Left out

- Database provisioning (`load_tables_from_file`, `create_stable_database`, `create_random_database`, `insert_random_data`): this is sqlite, file I/O, `ast.literal_eval` and randomness.
- `run_query_with_timeout`: SIGALRM signals, the wall clock, sqlite and file reads. Its results are the `Outcome` datatype, and its two markers are the constant `TimeLimitExceeded` and the function `ErrorMarker`.
- `save_results_to_csv` and every `print` in `compare_results` and `main`. The `count` and `total` that `compare_results` computes only for printing are not kept.
- `os.listdir` and the file reads in `main`: `Submissions` takes a given sequence of (file name, query text, outcome) entries.
- Float cells: Python treats `1` and `1.0` as equal in a set, which an equality-only scalar type does not reproduce. Cells are null, integer, text or blob.
- `NormalizeAsWritten`: the condition under which `sorted` (main.py:175) raises is stated over the row set (`SortRaises`), not derived from the steps of Python's sort. `sorted(set(rows))` raises `TypeError` exactly when two distinct rows first differ at a column where one cell is `NULL` and the other is not, or where the cells are of different kinds among integer, text and blob. Whatever the sort compares, it must settle the order of such a pair. The list it returns is not modelled, since the `frozenset` discards it. The rest of the model grades with `NormalizeResult`; see "## Findings".
- Row sets handed to `compare_results` directly, as the tests do with frozensets, are represented by any list of their rows (`NormalizeIdempotent`).
- `ExceedsHalf`: Python's `total / 2` is a float, which is exact only below 2^53 students; the model compares exactly.
- `Grading.Support`: states only the bound; what it counts is stated by `SupportIsCount` and `SupportIsMultiplicity`.

## Findings

| source | as written | input that shows it | evidently intended | confidence | as-written member | corrected member |
|---|---|---|---|---|---|---|
| main.py:175 | `frozenset(sorted(set(result)))` sorts the distinct rows before freezing them. The sort raises `TypeError` when two rows first differ at `NULL` against a value, or at cells of different kinds. Neither `compare_results` (main.py:190-194) nor `main` (main.py:259) catches it, so the run ends with no verdicts and no CSV | `{(None,), (1,)}`, the rows of `SELECT parent_id FROM Courses` on the fixed data (main.py:54-60) | the set of distinct rows, whatever their kinds; the comment at main.py:173-174 says only that row order is to be ignored | high; not executed | `Outcomes.SortRaisesExample` | `Outcomes.NormalizeResult` |
