/** Facts about sequences used by the duplicate checks and the termination argument. */
module Seqs {

  /** No element occurs twice. */
  predicate Distinct<T(==)>(s: seq<T>) {
    forall j, k :: 0 <= j < k < |s| ==> s[j] != s[k]
  }

  function Elements<T>(s: seq<T>): set<T> {
    set x | x in s
  }

  /** A sequence has no duplicates exactly when its set of elements is as large as the sequence
      (the `len(x) != len(set(x))` test of the source). */
  lemma {:induction false} DistinctCardinality<T>(s: seq<T>)
    ensures |Elements(s)| <= |s|
    ensures Distinct(s) <==> |Elements(s)| == |s|
  {
    if s != [] {
      DistinctCardinality(s[1..]);
      assert Elements(s) == {s[0]} + Elements(s[1..]);
      if s[0] in s[1..] {
        assert Elements(s) == Elements(s[1..]);
        var k :| 0 <= k < |s[1..]| && s[1..][k] == s[0];
        assert s[0] == s[k + 1];
      } else {
        assert s[0] !in Elements(s[1..]);
        assert Distinct(s) <==> Distinct(s[1..]) by {
          if Distinct(s[1..]) {
            forall j, k | 0 <= j < k < |s| ensures s[j] != s[k] {
              if j == 0 {
                assert s[k] == s[1..][k - 1];
              } else {
                assert s[j] == s[1..][j - 1] && s[k] == s[1..][k - 1];
              }
            }
          }
          if Distinct(s) {
            forall j, k | 0 <= j < k < |s[1..]| ensures s[1..][j] != s[1..][k] {
              assert s[1..][j] == s[j + 1] && s[1..][k] == s[k + 1];
            }
          }
        }
      }
    }
  }

  lemma SubsetCardinality<T>(a: set<T>, b: set<T>)
    requires a <= b
    ensures |a| <= |b|
  {
    assert b == a + (b - a);
    assert a * (b - a) == {};
  }

  /** A duplicate-free sequence drawn from `pool` is no longer than `pool`. */
  lemma DistinctDrawnBound<T>(s: seq<T>, pool: seq<T>)
    requires Distinct(s)
    requires forall k :: 0 <= k < |s| ==> s[k] in pool
    ensures |s| <= |pool|
  {
    DistinctCardinality(s);
    DistinctCardinality(pool);
    SubsetCardinality(Elements(s), Elements(pool));
  }
}
