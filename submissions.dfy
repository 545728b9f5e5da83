/**
 * The collection loop of `main` in main.py, without the directory listing and
 * the file reads: it keeps the `.sql` files, names each student after the file
 * name without its extension, and records the outcome and the query text in two
 * dictionaries; then the results are graded.
 */
module Submissions {
  import opened Wrappers
  import opened Dict
  import opened Outcomes
  import opened Grading

  /** One directory entry: its file name, the query text it holds and the outcome of running it. */
  datatype SubmissionFile = SubmissionFile(name: string, query: string, outcome: Outcome)

  /** The extension of a submission file. */
  const Extension: string := ".sql"

  /** `file.endswith(".sql")`. */
  predicate IsSubmission(name: string) {
    |name| >= |Extension| && name[|name| - |Extension|..] == Extension
  }

  /** A name ends with `.sql` exactly when it is some stem followed by `.sql`. */
  lemma IsSubmissionIff(name: string, stem: string)
    ensures IsSubmission(name) <==> |name| >= |Extension| && name == name[..|name| - |Extension|] + Extension
    ensures name == stem + Extension ==> IsSubmission(name)
  {
  }

  /** `file[:-4]`: the student's name is the file name without its extension. */
  function StudentName(name: string): (student: string)
    requires IsSubmission(name)
    ensures student + Extension == name
  {
    name[..|name| - 4]
  }

  function OutcomeOf(file: SubmissionFile): Outcome { file.outcome }

  function QueryOf(file: SubmissionFile): string { file.query }

  /**
   * The dictionary the collection loop builds from `files`, storing `field` of
   * each submission under its student's name; a later file overwrites an earlier
   * one of the same name in place.
   */
  function Gather<V>(files: seq<SubmissionFile>, field: SubmissionFile -> V): (d: Dict<string, V>)
    ensures DistinctKeys(d)
  {
    if files == [] then []
    else
      var d := Gather(files[..|files| - 1], field);
      var file := files[|files| - 1];
      if IsSubmission(file.name) then Put(d, StudentName(file.name), field(file)) else d
  }

  /**
   * The student names the collection loop builds from the `.sql` files of `files`,
   * in order, one per file.
   */
  function SubmissionNames(files: seq<SubmissionFile>): (names: seq<string>)
    ensures forall n :: n in names <==> exists i :: 0 <= i < |files| && IsSubmission(files[i].name) && StudentName(files[i].name) == n
  {
    if files == [] then []
    else
      var names := SubmissionNames(files[..|files| - 1]);
      var file := files[|files| - 1];
      assert forall i :: 0 <= i < |files| - 1 ==> files[..|files| - 1][i] == files[i];
      if IsSubmission(file.name) then names + [StudentName(file.name)] else names
  }

  /**
   * The loop of `main` over the directory entries: `student_results` and
   * `queries_by_student` as built from `files`.
   */
  method CollectSubmissions(files: seq<SubmissionFile>)
    returns (studentResults: Dict<string, Outcome>, queriesByStudent: Dict<string, string>)
    ensures studentResults == Gather(files, OutcomeOf)
    ensures queriesByStudent == Gather(files, QueryOf)
  {
    studentResults, queriesByStudent := [], [];
    for i := 0 to |files|
      invariant studentResults == Gather(files[..i], OutcomeOf)
      invariant queriesByStudent == Gather(files[..i], QueryOf)
    {
      var file := files[i];
      if IsSubmission(file.name) {
        var studentName := StudentName(file.name);
        studentResults := Put(studentResults, studentName, file.outcome);
        queriesByStudent := Put(queriesByStudent, studentName, file.query);
      }
      assert files[..i + 1][..i] == files[..i];
    }
    assert files[..|files|] == files;
  }

  /**
   * `main` after provisioning and before writing the CSV: collect the submissions
   * and grade them. Every student of a `.sql` file gets the verdict `Deserved`
   * prescribes among the collected outcomes.
   */
  method GradeSubmissions(files: seq<SubmissionFile>) returns (evaluation: Dict<string, Verdict>)
    ensures Keys(evaluation) == Keys(Gather(files, OutcomeOf))
    ensures forall i :: 0 <= i < |evaluation| ==>
              evaluation[i].1 == Deserved(Gather(files, OutcomeOf), Gather(files, OutcomeOf)[i].1)
  {
    var studentResults, queriesByStudent := CollectSubmissions(files);
    evaluation := CompareResults(studentResults, queriesByStudent);
  }

  /** Whatever is stored, the two dictionaries of the loop hold the same students in the same order. */
  lemma {:induction false} GatherKeys<U, V>(files: seq<SubmissionFile>, f: SubmissionFile -> U, g: SubmissionFile -> V)
    ensures Keys(Gather(files, f)) == Keys(Gather(files, g))
  {
    if files != [] {
      GatherKeys(files[..|files| - 1], f, g);
    }
  }

  /** The students collected are exactly the names of the `.sql` files. */
  lemma {:induction false} GatherStudents<V>(files: seq<SubmissionFile>, field: SubmissionFile -> V, student: string)
    ensures student in Keys(Gather(files, field)) <==>
              exists i :: 0 <= i < |files| && IsSubmission(files[i].name) && StudentName(files[i].name) == student
  {
    if files != [] {
      var init, last := files[..|files| - 1], files[|files| - 1];
      GatherStudents(init, field, student);
      var before := Keys(Gather(init, field));
      var after := Keys(Gather(files, field));
      var isLast := IsSubmission(last.name) && StudentName(last.name) == student;
      assert after == if !IsSubmission(last.name) || StudentName(last.name) in before then before
                      else before + [StudentName(last.name)];
      assert student in after <==> student in before || isLast;
      if student in before {
        var i :| 0 <= i < |init| && IsSubmission(init[i].name) && StudentName(init[i].name) == student;
        assert files[i] == init[i];
      }
      if exists i :: 0 <= i < |files| && IsSubmission(files[i].name) && StudentName(files[i].name) == student {
        var i :| 0 <= i < |files| && IsSubmission(files[i].name) && StudentName(files[i].name) == student;
        if i < |init| {
          assert init[i] == files[i];
        }
      }
    }
  }

  /** Of several files with the same student name, the last one decides what is stored. */
  lemma {:induction false} GatherLastWins<V>(files: seq<SubmissionFile>, field: SubmissionFile -> V, i: nat)
    requires i < |files| && IsSubmission(files[i].name)
    requires forall j :: i < j < |files| && IsSubmission(files[j].name) ==> StudentName(files[j].name) != StudentName(files[i].name)
    ensures Get(Gather(files, field), StudentName(files[i].name)) == Some(field(files[i]))
  {
    var init := files[..|files| - 1];
    var last := files[|files| - 1];
    if i < |files| - 1 {
      assert init[i] == files[i];
      assert forall j :: i < j < |init| ==> init[j] == files[j];
      GatherLastWins(init, field, i);
      if IsSubmission(last.name) {
        GetPut(Gather(init, field), StudentName(last.name), field(last), StudentName(files[i].name));
      }
    } else {
      GetPut(Gather(init, field), StudentName(last.name), field(last), StudentName(last.name));
    }
  }

  /**
   * A later `a.sql` overwrites the earlier one in place: student `a` keeps the
   * first position and gets the last outcome.
   */
  lemma OverwriteKeepsPlaceExample()
    ensures var files := [SubmissionFile("a.sql", "SELECT 1", Rows([])),
                          SubmissionFile("b.sql", "SELECT 2", Marker(TimeLimitExceeded)),
                          SubmissionFile("a.sql", "SELECT 3", Rows([[Null]]))];
            Gather(files, OutcomeOf) == [("a", Rows([[Null]])), ("b", Marker(TimeLimitExceeded))]
  {
    var files := [SubmissionFile("a.sql", "SELECT 1", Rows([])),
                  SubmissionFile("b.sql", "SELECT 2", Marker(TimeLimitExceeded)),
                  SubmissionFile("a.sql", "SELECT 3", Rows([[Null]]))];
    assert StudentName("a.sql") == "a" && StudentName("b.sql") == "b";
    assert files[..1][..0] == [];
    assert Gather(files[..1], OutcomeOf) == [("a", Rows([]))];
    assert files[..2][..1] == files[..1];
    assert Gather(files[..2], OutcomeOf) == [("a", Rows([])), ("b", Marker(TimeLimitExceeded))];
    assert files[..2] == files[..|files| - 1];
    assert Keys(Gather(files[..2], OutcomeOf))[0] == "a";
  }

  /**
   * Within one directory no two entries share a name, so no student is ever
   * overwritten: the dictionary holds one student per `.sql` file, in listing order.
   */
  lemma {:induction false} GatherDistinctNames<V>(files: seq<SubmissionFile>, field: SubmissionFile -> V)
    requires forall i, j :: 0 <= i < j < |files| ==> files[i].name != files[j].name
    ensures Keys(Gather(files, field)) == SubmissionNames(files)
  {
    if files != [] {
      GatherDistinctNames(files[..|files| - 1], field);
    }
  }

  /** A file `a.sql` is the submission of student `a`; `a.txt` and a bare `sql` are skipped. */
  lemma CollectExample()
    ensures var files := [SubmissionFile("a.sql", "SELECT 1", Rows([])),
                          SubmissionFile("a.txt", "SELECT 2", Marker(TimeLimitExceeded)),
                          SubmissionFile("sql", "SELECT 3", Marker(TimeLimitExceeded))];
            Gather(files, OutcomeOf) == [("a", Rows([]))]
  {
    var files := [SubmissionFile("a.sql", "SELECT 1", Rows([])),
                  SubmissionFile("a.txt", "SELECT 2", Marker(TimeLimitExceeded)),
                  SubmissionFile("sql", "SELECT 3", Marker(TimeLimitExceeded))];
    assert StudentName("a.sql") == "a";
    assert files[..1][..0] == [];
    assert Gather(files[..1], OutcomeOf) == [("a", Rows([]))];
    assert !IsSubmission("a.txt") by { assert "a.txt"[1..] != Extension; }
    assert files[..2][..1] == files[..1];
    assert Gather(files[..2], OutcomeOf) == [("a", Rows([]))];
    assert files[..2] == files[..|files| - 1];
  }
}
