/**
 * What running one student's query produces, and the normalised form in which
 * outcomes are compared (`normalize_result` in main.py).
 */
module Outcomes {
  import opened Wrappers

  /** One cell of a result row, compared by value. */
  datatype Scalar = Null | Integer(i: int) | Text(s: string) | Blob(bytes: seq<bv8>)

  /** A result row: the tuple of cells the database returned. */
  type Row = seq<Scalar>

  /**
   * The outcome of one query: the rows it returned, in the engine's order, or a
   * marker string in their place (`"TLE"` on a timeout, `"ERROR: ..."` on a failure).
   */
  datatype Outcome = Rows(rows: seq<Row>) | Marker(text: string)

  /** A normalised outcome: the set of distinct rows, or the marker unchanged. */
  datatype Norm = NRows(rowSet: set<Row>) | NMarker(text: string)

  /** The marker a timed-out query yields. */
  const TimeLimitExceeded: string := "TLE"

  /** The prefix of the marker a failing query yields; the exception's message follows it. */
  const ErrorPrefix: string := "ERROR: "

  /** The marker for a query that raised an exception with message `message`. */
  function ErrorMarker(message: string): (m: string)
    ensures |m| >= |ErrorPrefix| && m[..|ErrorPrefix|] == ErrorPrefix
    ensures m[|ErrorPrefix|..] == message
  {
    ErrorPrefix + message
  }

  /** `set(rows)`: the distinct rows, built by adding the rows one at a time. */
  function RowSet(rows: seq<Row>): (s: set<Row>)
    ensures forall r :: r in s <==> r in rows
    ensures |s| <= |rows|
  {
    if rows == [] then {}
    else RowSet(rows[..|rows| - 1]) + {rows[|rows| - 1]}
  }

  /**
   * `normalize_result(result, query)`: a marker passes through, a row list
   * becomes the set of its distinct rows. The query text plays no part.
   */
  function NormalizeResult(result: Outcome, query: string): (n: Norm)
    ensures result.Marker? ==> n == NMarker(result.text)
    ensures result.Rows? ==> n.NRows? && forall r :: r in n.rowSet <==> r in result.rows
  {
    match result
    case Marker(text) => NMarker(text)
    case Rows(rows) => NRows(RowSet(rows))
  }

  /** Two row lists normalise alike exactly when they hold the same rows, whatever their order and repetitions. */
  lemma NormalizeRowsEqualIff(a: seq<Row>, b: seq<Row>, qa: string, qb: string)
    ensures NormalizeResult(Rows(a), qa) == NormalizeResult(Rows(b), qb) <==> (forall r :: r in a <==> r in b)
  {
  }

  /** Reordering the rows does not change the normalised outcome. */
  lemma NormalizeOrderInsensitive(a: seq<Row>, b: seq<Row>, query: string)
    requires multiset(a) == multiset(b)
    ensures NormalizeResult(Rows(a), query) == NormalizeResult(Rows(b), query)
  {
    forall r ensures r in a <==> r in b {
      assert r in a <==> r in multiset(a);
      assert r in b <==> r in multiset(b);
    }
    NormalizeRowsEqualIff(a, b, query, query);
  }

  /** Repeating a row does not change the normalised outcome. */
  lemma NormalizeDuplicateInsensitive(rows: seq<Row>, i: nat, query: string)
    requires i < |rows|
    ensures NormalizeResult(Rows(rows + [rows[i]]), query) == NormalizeResult(Rows(rows), query)
  {
  }

  /**
   * Normalising an already-normalised outcome changes nothing: a listing of a row
   * set, in any order, normalises back to that set.
   */
  lemma NormalizeIdempotent(s: set<Row>, listing: seq<Row>, query: string)
    requires forall r :: r in listing <==> r in s
    ensures NormalizeResult(Rows(listing), query) == NRows(s)
  {
  }

  /** A row list without repetitions loses no row on normalisation. */
  lemma {:induction false} RowSetOfDistinct(rows: seq<Row>)
    requires forall i, j :: 0 <= i < j < |rows| ==> rows[i] != rows[j]
    ensures |RowSet(rows)| == |rows|
  {
    if rows != [] {
      var init := rows[..|rows| - 1];
      RowSetOfDistinct(init);
      assert rows[|rows| - 1] !in RowSet(init);
    }
  }

  /** The row list `[(1, 'a'), (2, 'b'), (1, 'a')]` normalises to its two distinct rows. */
  lemma NormalizeExample()
    ensures var n := NormalizeResult(Rows([[Integer(1), Text("a")], [Integer(2), Text("b")], [Integer(1), Text("a")]]),
                                     "SELECT * FROM Students ORDER BY name");
            n.NRows? && [Integer(1), Text("a")] in n.rowSet && [Integer(2), Text("b")] in n.rowSet && |n.rowSet| == 2
  {
    var r1, r2 := [Integer(1), Text("a")], [Integer(2), Text("b")];
    assert r1 != r2 by { assert r1[0] != r2[0]; }
    RowSetOfDistinct([r1, r2]);
    assert [r1, r2, r1] == [r1, r2] + [[r1, r2][0]];
    NormalizeDuplicateInsensitive([r1, r2], 0, "SELECT * FROM Students ORDER BY name");
  }

  /** A marker, such as an error message, is returned unchanged. */
  lemma NormalizeErrorExample()
    ensures NormalizeResult(Marker(ErrorMarker("niečo sa pokazilo")), "") == NMarker("ERROR: niečo sa pokazilo")
  {
  }

  /**
   * Python orders two different cells only when they are of the same kind: two
   * integers, two texts or two blobs. `None` against anything, or cells of two
   * different kinds, raise `TypeError`.
   */
  predicate SameKind(x: Scalar, y: Scalar) {
    (x.Integer? && y.Integer?) || (x.Text? && y.Text?) || (x.Blob? && y.Blob?) || (x.Null? && y.Null?)
  }

  /**
   * Python's `a < b` on tuples goes to the first column where the rows differ and
   * compares those two cells there (a row that runs out first is the smaller one).
   * It raises exactly when that pair of cells cannot be ordered.
   */
  predicate RowsComparable(a: Row, b: Row) {
    if a == [] || b == [] then true
    else if a[0] == b[0] then RowsComparable(a[1..], b[1..])
    else SameKind(a[0], b[0])
  }

  /**
   * `sorted(set(rows))` raises exactly when two of the distinct rows cannot be
   * ordered. Whatever order the sort compares rows in, it must settle the order of
   * such a pair, or its result would be the same under two orderings of the cell
   * kinds that place the pair differently.
   */
  predicate SortRaises(s: set<Row>) {
    exists a, b :: a in s && b in s && !RowsComparable(a, b)
  }

  /**
   * `normalize_result` as written: the row list is sorted before it is frozen, so
   * it fails (`None`) when the rows cannot be ordered; otherwise it agrees with
   * `NormalizeResult`.
   */
  function NormalizeAsWritten(result: Outcome, query: string): (r: Option<Norm>)
    ensures result.Marker? ==> r == Some(NMarker(result.text))
    ensures result.Rows? ==> (r.None? <==> exists a, b :: a in result.rows && b in result.rows && !RowsComparable(a, b))
    ensures r.Some? ==> r.value == NormalizeResult(result, query)
  {
    match result
    case Marker(text) => Some(NMarker(text))
    case Rows(rows) => if SortRaises(RowSet(rows)) then None else Some(NRows(RowSet(rows)))
  }

  /**
   * `SELECT parent_id FROM Courses` returns `(None,)` and `(1,)`: the code as
   * written raises on them, while `NormalizeResult` yields their set.
   */
  lemma SortRaisesExample()
    ensures NormalizeAsWritten(Rows([[Null], [Integer(1)]]), "SELECT parent_id FROM Courses") == None
    ensures NormalizeResult(Rows([[Null], [Integer(1)]]), "SELECT parent_id FROM Courses") == NRows({[Null], [Integer(1)]})
  {
  }

  /**
   * A `NULL` column does no harm when an earlier column tells the rows apart:
   * `(1, None)`, `(2, 1)`, `(4, None)` from `SELECT id, parent_id FROM Courses` sort.
   */
  lemma KeyColumnSortsExample()
    ensures NormalizeAsWritten(Rows([[Integer(1), Null], [Integer(2), Integer(1)], [Integer(4), Null]]), "").Some?
  {
    var rows: seq<Row> := [[Integer(1), Null], [Integer(2), Integer(1)], [Integer(4), Null]];
    forall a: Row, b: Row | a in rows && b in rows ensures RowsComparable(a, b) {
      if a == b {
        RowsComparableSelf(a);
      } else {
        assert a == rows[0] || a == rows[1] || a == rows[2];
        assert b == rows[0] || b == rows[1] || b == rows[2];
        assert a[0].Integer? && b[0].Integer? && a[0] != b[0];
      }
    }
  }

  /** A row never fails to compare with itself: every column is equal. */
  lemma {:induction false} RowsComparableSelf(a: Row)
    ensures RowsComparable(a, a)
  {
    if a != [] {
      RowsComparableSelf(a[1..]);
    }
  }
}
