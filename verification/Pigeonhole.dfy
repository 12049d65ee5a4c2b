/** A sequence longer than the set its elements come from has a repetition. */
module Pigeonhole {
  ghost predicate Distinct(s: seq<nat>) {
    forall i, j :: 0 <= i < j < |s| ==> s[i] != s[j]
  }

  ghost function Elements(s: seq<nat>): set<nat> { set x | x in s }

  lemma {:induction false} DistinctCount(s: seq<nat>)
    requires Distinct(s)
    ensures |Elements(s)| == |s|
  {
    if s == [] {
    } else {
      var n := |s| - 1;
      DistinctCount(s[..n]);
      assert Elements(s) == Elements(s[..n]) + {s[n]};
    }
  }

  lemma SubsetCount(a: set<nat>, b: set<nat>)
    requires a <= b
    ensures |a| <= |b|
  {
    assert b == a + (b - a);
  }

  lemma MustRepeat(s: seq<nat>, pool: set<nat>) returns (i: nat, j: nat)
    requires Elements(s) <= pool && |s| > |pool|
    ensures i < j < |s| && s[i] == s[j]
  {
    SubsetCount(Elements(s), pool);
    if Distinct(s) {
      DistinctCount(s);
    }
    i, j :| 0 <= i < j < |s| && s[i] == s[j];
  }
}
