/**
 * `compare_results` in main.py: normalise every student's outcome, find the
 * majority, and give every student a verdict.
 */
module Grading {
  import opened Wrappers
  import opened Dict
  import opened Outcomes
  import opened Majority

  /** A student's verdict: OK, FAIL, or the marker of a query that timed out or failed. */
  datatype Verdict = Ok | Fail | Kept(marker: string) {

    /**
     * The string main.py stores for the verdict in the evaluation dictionary: a
     * kept marker is stored as it is, so it reads as "OK" or "FAIL" only when the
     * marker itself is that text.
     */
    function Text(): (t: string)
      ensures Kept? ==> t == marker
      ensures t == "OK" <==> Ok? || (Kept? && marker == "OK")
      ensures t == "FAIL" <==> Fail? || (Kept? && marker == "FAIL")
    {
      match this
      case Ok => "OK"
      case Fail => "FAIL"
      case Kept(m) => m
    }
  }

  /**
   * The `normalized_results` dictionary: each student's outcome normalised, with
   * the student's query (or `""`) passed along and ignored.
   */
  function NormalizeAll(results: Dict<string, Outcome>, queriesByStudent: Dict<string, string>): (normalized: Dict<string, Norm>)
    ensures Keys(normalized) == Keys(results)
    ensures forall i, query :: 0 <= i < |results| ==> normalized[i].1 == NormalizeResult(results[i].1, query)
  {
    seq(|results|, i requires 0 <= i < |results| =>
      (results[i].0, NormalizeResult(results[i].1, Get(queriesByStudent, results[i].0).GetOr(""))))
  }

  /** The normalised outcomes of `results`, in the students' order. */
  function Normalized(results: Dict<string, Outcome>): (ns: seq<Norm>)
    ensures |ns| == |results|
  {
    Values(NormalizeAll(results, []))
  }

  /** The queries handed to `normalize_result` have no bearing on the normalised outcomes. */
  lemma NormalizeAllIgnoresQueries(results: Dict<string, Outcome>, queriesByStudent: Dict<string, string>)
    ensures Values(NormalizeAll(results, queriesByStudent)) == Normalized(results)
  {
  }

  /** How many students returned rows whose distinct rows are exactly `s`. */
  function Support(results: Dict<string, Outcome>, s: set<Row>): (c: nat)
    ensures c <= |results|
  {
    if results == [] then 0
    else (if results[0].1.Rows? && RowSet(results[0].1.rows) == s then 1 else 0) + Support(results[1..], s)
  }

  /**
   * The majority rule, stated without counters or tie-breaks: a marker is kept as
   * the verdict; a row list is OK when more than half of all students returned the
   * same distinct rows, and FAIL otherwise.
   */
  function Deserved(results: Dict<string, Outcome>, outcome: Outcome): Verdict {
    match outcome
    case Marker(m) => Kept(m)
    case Rows(rows) => if 2 * Support(results, RowSet(rows)) > |results| then Ok else Fail
  }

  /**
   * The verdict main.py gives a normalised outcome once `find_majority_result` has
   * found `majority`: a marker is kept, the majority row set is OK, and any other
   * row set (every row set, when there is no majority) is FAIL.
   */
  function Judge(n: Norm, majority: Option<set<Row>>): (v: Verdict)
    ensures v.Kept? <==> n.NMarker?
    ensures n.NMarker? ==> v.marker == n.text
    ensures v == Ok <==> majority.Some? && n == NRows(majority.value)
  {
    match n
    case NMarker(m) => Kept(m)
    case NRows(s) => if majority == Some(s) then Ok else Fail
  }

  /** `Support` counts exactly the row sets `find_majority_result` counts. */
  lemma {:induction false} SupportIsCount(results: Dict<string, Outcome>, s: set<Row>)
    ensures Support(results, s) == Count(RowSets(Normalized(results)), s)
  {
    SupportIsMultiplicity(results, s);
    CountRowSets(Normalized(results), s);
  }

  lemma {:induction false} SupportIsMultiplicity(results: Dict<string, Outcome>, s: set<Row>)
    ensures Support(results, s) == multiset(Normalized(results))[NRows(s)]
  {
    if results != [] {
      var ns := Normalized(results);
      SupportIsMultiplicity(results[1..], s);
      assert ns == [ns[0]] + Normalized(results[1..]);
      assert multiset(ns)[NRows(s)] == multiset([ns[0]])[NRows(s)] + multiset(Normalized(results[1..]))[NRows(s)];
    }
  }

  /**
   * What main.py decides for a student, going through `Counter.most_common` and its
   * tie-break, is what `Deserved` prescribes.
   */
  lemma JudgeAgreesWithDeserved(results: Dict<string, Outcome>, i: nat)
    requires i < |results|
    ensures Judge(Normalized(results)[i], FindMajorityResult(Normalized(results)).0) == Deserved(results, results[i].1)
  {
    if results[i].1.Rows? {
      var s := RowSet(results[i].1.rows);
      SupportIsCount(results, s);
      MajorityIff(Normalized(results), s);
    }
  }

  /**
   * While the evaluation holds the first students of `results`, in order, it is a
   * well-formed dictionary and the next student is not yet in it.
   */
  lemma NextKeyIsNew<U, V>(results: Dict<string, U>, evaluation: Dict<string, V>)
    requires DistinctKeys(results) && |evaluation| <= |results|
    requires forall j :: 0 <= j < |evaluation| ==> evaluation[j].0 == results[j].0
    ensures DistinctKeys(evaluation) && Keys(evaluation) == Keys(results)[..|evaluation|]
    ensures |evaluation| < |results| ==> results[|evaluation|].0 !in Keys(evaluation)
  {
  }

  /**
   * The loops of `compare_results` that fill the `evaluation` dictionary, one
   * student at a time in the order of `normalized`, given the majority found.
   */
  method AssignVerdicts(normalized: Dict<string, Norm>, majority: Option<set<Row>>)
    returns (evaluation: Dict<string, Verdict>)
    requires DistinctKeys(normalized)
    ensures |evaluation| == |normalized|
    ensures forall i :: 0 <= i < |normalized| ==> evaluation[i] == (normalized[i].0, Judge(normalized[i].1, majority))
  {
    evaluation := [];
    if majority.None? {
      for i := 0 to |normalized|
        invariant |evaluation| == i
        invariant forall j :: 0 <= j < i ==> evaluation[j] == (normalized[j].0, Judge(normalized[j].1, majority))
      {
        var student := normalized[i].0;
        NextKeyIsNew(normalized, evaluation);
        evaluation := Put(evaluation, student, if normalized[i].1.NMarker? then Kept(normalized[i].1.text) else Fail);
      }
    } else {
      for i := 0 to |normalized|
        invariant |evaluation| == i
        invariant forall j :: 0 <= j < i ==> evaluation[j] == (normalized[j].0, Judge(normalized[j].1, majority))
      {
        var student, normResult := normalized[i].0, normalized[i].1;
        NextKeyIsNew(normalized, evaluation);
        if normResult == NRows(majority.value) {
          evaluation := Put(evaluation, student, Ok);
        } else if normResult.NMarker? {
          evaluation := Put(evaluation, student, Kept(normResult.text));
        } else {
          evaluation := Put(evaluation, student, Fail);
        }
      }
    }
  }

  /**
   * `compare_results(results, queries_by_student)`: every student of `results`, in
   * order, gets the verdict `Deserved` prescribes.
   */
  method CompareResults(results: Dict<string, Outcome>, queriesByStudent: Dict<string, string>)
    returns (evaluation: Dict<string, Verdict>)
    requires DistinctKeys(results)
    ensures DistinctKeys(evaluation)
    ensures Keys(evaluation) == Keys(results)
    ensures forall i :: 0 <= i < |results| ==> evaluation[i].1 == Deserved(results, results[i].1)
  {
    var normalized := NormalizeAll(results, queriesByStudent);
    assert DistinctKeys(normalized) by {
      forall i, j | 0 <= i < j < |normalized| ensures normalized[i].0 != normalized[j].0 {
        assert Keys(normalized)[i] == Keys(results)[i] && Keys(normalized)[j] == Keys(results)[j];
      }
    }
    NormalizeAllIgnoresQueries(results, queriesByStudent);
    var majority := FindMajorityResult(Values(normalized)).0;
    evaluation := AssignVerdicts(normalized, majority);
    forall i | 0 <= i < |results| ensures evaluation[i].0 == results[i].0 {
      assert Keys(normalized)[i] == Keys(results)[i];
    }
    NextKeyIsNew(results, evaluation);
    forall i | 0 <= i < |results| ensures evaluation[i].1 == Deserved(results, results[i].1) {
      assert Values(normalized)[i] == normalized[i].1;
      JudgeAgreesWithDeserved(results, i);
    }
  }

  /** Counting splits over concatenation. */
  lemma {:induction false} SupportAppend(a: Dict<string, Outcome>, b: Dict<string, Outcome>, s: set<Row>)
    ensures Support(a + b, s) == Support(a, s) + Support(b, s)
  {
    if a == [] {
      assert a + b == b;
    } else {
      assert (a + b)[0] == a[0];
      assert (a + b)[1..] == a[1..] + b;
      SupportAppend(a[1..], b, s);
    }
  }

  /** Reordering the students does not change how many share a row set. */
  lemma {:induction false} SupportPermutation(results: Dict<string, Outcome>, results': Dict<string, Outcome>, s: set<Row>)
    requires multiset(results) == multiset(results')
    ensures Support(results, s) == Support(results', s)
    decreases |results|
  {
    if results == [] {
      assert |results'| == |multiset(results')| == 0;
    } else {
      var x := results[0];
      assert x in multiset(results');
      var j :| 0 <= j < |results'| && results'[j] == x;
      var before, after := results'[..j], results'[j + 1..];
      assert results' == before + [x] + after;
      assert results == [x] + results[1..];
      assert multiset(results') == multiset(before) + multiset{x} + multiset(after);
      assert multiset(results) == multiset{x} + multiset(results[1..]);
      assert multiset(before + [x] + after) == multiset(before) + multiset([x]) + multiset(after);
      assert multiset(before + after) == multiset(before) + multiset(after);
      calc {
        multiset(results[1..]);
        multiset(results) - multiset{x};
        multiset(results') - multiset{x};
        multiset(before) + multiset(after);
        multiset(before + after);
      }
      SupportPermutation(results[1..], before + after, s);
      SupportAppend(before + [x], after, s);
      SupportAppend(before, [x], s);
      SupportAppend(before, after, s);
      assert Support([x], s) == Support(results, s) - Support(results[1..], s);
    }
  }

  /**
   * Reordering the students changes nobody's verdict: the insertion order that
   * breaks ties in `Counter.most_common` never reaches the result.
   */
  lemma VerdictOrderIndependent(results: Dict<string, Outcome>, results': Dict<string, Outcome>, outcome: Outcome)
    requires multiset(results) == multiset(results')
    ensures Deserved(results, outcome) == Deserved(results', outcome)
  {
    assert |results| == |multiset(results)| == |results'|;
    if outcome.Rows? {
      SupportPermutation(results, results', RowSet(outcome.rows));
    }
  }

  /** No student is OK unless some row set is shared by more than half of all students. */
  lemma NoMajorityNoOk(results: Dict<string, Outcome>, outcome: Outcome)
    requires forall s :: 2 * Support(results, s) <= |results|
    ensures Deserved(results, outcome) != Ok
    ensures outcome.Rows? ==> Deserved(results, outcome) == Fail
  {
  }

  /** The markers main.py produces never read as "OK" or "FAIL" in the evaluation. */
  lemma MarkerTextDistinct(message: string)
    ensures Kept(TimeLimitExceeded).Text() !in {"OK", "FAIL"}
    ensures Kept(ErrorMarker(message)).Text() !in {"OK", "FAIL"}
  {
  }

  /** Two of three students agree: they are OK, the third is FAIL. */
  lemma ClearMajorityExample()
    ensures var results := [("student1", Rows([[Integer(1)]])), ("student2", Rows([[Integer(1)]])),
                            ("student3", Rows([[Integer(2)]]))];
            Deserved(results, results[0].1) == Ok && Deserved(results, results[1].1) == Ok &&
            Deserved(results, results[2].1) == Fail
  {
  }

  /** Three students, three different answers: nobody has a majority, so all are FAIL. */
  lemma NoMajorityExample()
    ensures var results := [("student1", Rows([[Integer(1)]])), ("student2", Rows([[Integer(2)]])),
                            ("student3", Rows([[Integer(3)]]))];
            Deserved(results, results[0].1) == Fail && Deserved(results, results[1].1) == Fail &&
            Deserved(results, results[2].1) == Fail
  {
  }
}
