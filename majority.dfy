/**
 * `find_majority_result` in main.py: count the row-set outcomes, take the most
 * frequent one (`Counter.most_common(1)`), and accept it only when more than half
 * of all students, markers included, share it.
 */
module Majority {
  import opened Wrappers
  import opened Outcomes

  /** The row-set outcomes among `ns`, in order; markers are dropped. */
  function RowSets(ns: seq<Norm>): (vs: seq<set<Row>>)
    ensures |vs| <= |ns|
    ensures forall v :: v in vs <==> NRows(v) in ns
  {
    if ns == [] then []
    else if ns[0].NRows? then [ns[0].rowSet] + RowSets(ns[1..])
    else RowSets(ns[1..])
  }

  /** How often `v` occurs in `vs` (what a `Counter` over `vs` holds for `v`). */
  function Count(vs: seq<set<Row>>, v: set<Row>): (c: nat)
    ensures c <= |vs|
    ensures c > 0 <==> v in vs
  {
    if vs == [] then 0
    else (if vs[0] == v then 1 else 0) + Count(vs[1..], v)
  }

  /**
   * The position of the value `Counter.most_common(1)` reports among `vs[..k]`:
   * the first position whose value is at least as frequent as every other, so a
   * tie goes to the value encountered first.
   */
  function MostCommonIndex(vs: seq<set<Row>>, k: nat): (m: nat)
    requires 0 < k <= |vs|
    ensures m < k
    ensures forall j :: 0 <= j < k ==> Count(vs, vs[j]) <= Count(vs, vs[m])
    ensures forall j :: 0 <= j < m ==> Count(vs, vs[j]) < Count(vs, vs[m])
  {
    if k == 1 then 0
    else
      var m := MostCommonIndex(vs, k - 1);
      if Count(vs, vs[m]) < Count(vs, vs[k - 1]) then k - 1 else m
  }

  /** `count > total / 2`, where `/` is Python's true division, compared over the reals. */
  function ExceedsHalf(count: nat, total: nat): (b: bool)
    ensures b <==> 2 * count > total
  {
    count as real > total as real / 2.0
  }

  /**
   * `find_majority_result(normalized_results)` on the values of the dictionary:
   * `(None, 0)` without any row set; otherwise the highest frequency of a row set,
   * with that row set when it is shared by more than half of all students.
   */
  function FindMajorityResult(ns: seq<Norm>): (r: (Option<set<Row>>, nat))
    ensures RowSets(ns) == [] ==> r == (None, 0)
    ensures RowSets(ns) != [] ==>
              (exists v :: v in RowSets(ns) && Count(RowSets(ns), v) == r.1) &&
              forall v :: v in RowSets(ns) ==> Count(RowSets(ns), v) <= r.1
    ensures r.0.Some? <==> RowSets(ns) != [] && 2 * r.1 > |ns|
    ensures r.0.Some? ==> Count(RowSets(ns), r.0.value) == r.1
  {
    var countable := RowSets(ns);
    var total := |ns|;
    if countable == [] then (None, 0)
    else
      var m := MostCommonIndex(countable, |countable|);
      var count := Count(countable, countable[m]);
      if ExceedsHalf(count, total) then (Some(countable[m]), count) else (None, count)
  }

  /** Two different values together occur at most as often as there are entries. */
  lemma {:induction false} CountTwoValues(vs: seq<set<Row>>, a: set<Row>, b: set<Row>)
    requires a != b
    ensures Count(vs, a) + Count(vs, b) <= |vs|
  {
    if vs != [] {
      CountTwoValues(vs[1..], a, b);
    }
  }

  /** How often a row set is counted is how often it occurs among the normalised outcomes. */
  lemma {:induction false} CountRowSets(ns: seq<Norm>, v: set<Row>)
    ensures Count(RowSets(ns), v) == multiset(ns)[NRows(v)]
  {
    if ns != [] {
      var rest := ns[1..];
      CountRowSets(rest, v);
      assert ns == [ns[0]] + rest;
      assert multiset(ns)[NRows(v)] == multiset([ns[0]])[NRows(v)] + multiset(rest)[NRows(v)];
      if ns[0].NRows? {
        var vs := RowSets(ns);
        assert vs == [ns[0].rowSet] + RowSets(rest);
        assert vs[0] == ns[0].rowSet && vs[1..] == RowSets(rest);
        assert Count(vs, v) == (if ns[0].rowSet == v then 1 else 0) + Count(RowSets(rest), v);
      }
    }
  }

  /**
   * A value held by more than half of `total` entries leaves every other value
   * fewer than half of them, so at most one value can be the majority.
   */
  lemma StrictMajorityUnique(vs: seq<set<Row>>, total: nat, a: set<Row>, b: set<Row>)
    requires |vs| <= total && 2 * Count(vs, a) > total
    requires b != a
    ensures 2 * Count(vs, b) < total
  {
    CountTwoValues(vs, a, b);
  }

  /**
   * The majority `FindMajorityResult` reports is exactly the row set shared by more
   * than half of all outcomes; the tie-break of `most_common` never decides it.
   */
  lemma MajorityIff(ns: seq<Norm>, s: set<Row>)
    ensures FindMajorityResult(ns).0 == Some(s) <==> 2 * Count(RowSets(ns), s) > |ns|
  {
    var r := FindMajorityResult(ns);
    var vs := RowSets(ns);
    if 2 * Count(vs, s) > |ns| {
      assert s in vs;
      assert r.0.Some?;
      if r.0.value != s {
        StrictMajorityUnique(vs, |ns|, s, r.0.value);
      }
    }
  }

  /** Reordering the students does not change the majority. */
  lemma MajorityOrderIndependent(ns: seq<Norm>, ns': seq<Norm>)
    requires multiset(ns) == multiset(ns')
    ensures FindMajorityResult(ns).0 == FindMajorityResult(ns').0
  {
    assert |ns| == |multiset(ns)| == |ns'|;
    forall s ensures FindMajorityResult(ns).0 == Some(s) <==> FindMajorityResult(ns').0 == Some(s) {
      MajorityIff(ns, s);
      MajorityIff(ns', s);
      CountRowSets(ns, s);
      CountRowSets(ns', s);
    }
  }

  /** Four students `{A, A, B, B}`: two is not more than half of four, so there is no majority. */
  lemma TieAtHalfExample(a: set<Row>, b: set<Row>)
    requires a != b
    ensures FindMajorityResult([NRows(a), NRows(a), NRows(b), NRows(b)]).0 == None
  {
    var ns := [NRows(a), NRows(a), NRows(b), NRows(b)];
    CountRowSets(ns, a);
    CountRowSets(ns, b);
    assert multiset(ns)[NRows(a)] == 2;
    assert multiset(ns)[NRows(b)] == 2;
    MajorityIff(ns, a);
    MajorityIff(ns, b);
  }

  /** Three students `{A, A, TLE}`: the marker counts towards the total, and two of three is a majority. */
  lemma MarkerInTotalExample(a: set<Row>)
    ensures FindMajorityResult([NRows(a), NRows(a), NMarker(TimeLimitExceeded)]) == (Some(a), 2)
  {
    var ns := [NRows(a), NRows(a), NMarker(TimeLimitExceeded)];
    CountRowSets(ns, a);
    assert multiset(ns)[NRows(a)] == 2;
    MajorityIff(ns, a);
  }
}
