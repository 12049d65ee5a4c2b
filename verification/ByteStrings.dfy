/** Byte strings in `byteacmp` order: by the first byte in which they differ, a
    proper prefix coming first. */
module ByteStrings {

  type Byte = b: int | 0 <= b < 256

  type Bytes = seq<Byte>

  /** The order does not depend on how large a byte can be. */
  type Octets = seq<int>

  /** Length of the longest common prefix. */
  function CommonPrefix(a: Octets, b: Octets): (n: nat)
    ensures n <= |a| && n <= |b| && a[..n] == b[..n]
    ensures n < |a| && n < |b| ==> a[n] != b[n]
  {
    if a == [] || b == [] || a[0] != b[0] then 0
    else
      var n := 1 + CommonPrefix(a[1..], b[1..]);
      assert a[..n] == [a[0]] + a[1..][..n - 1] && b[..n] == [b[0]] + b[1..][..n - 1];
      n
  }

  /** `byteacmp`. */
  function Compare(a: Octets, b: Octets): int {
    var n := CommonPrefix(a, b);
    if n < |a| && n < |b| then (if a[n] < b[n] then -1 else 1)
    else if |a| < |b| then -1 else if |a| > |b| then 1 else 0
  }

  predicate Le(a: Octets, b: Octets) { Compare(a, b) <= 0 }

  predicate Lt(a: Octets, b: Octets) { Compare(a, b) < 0 }

  /** A common prefix that cannot be prolonged is the longest. */
  lemma {:induction false} CommonPrefixUnique(a: Octets, b: Octets, n: nat)
    requires n <= |a| && n <= |b| && a[..n] == b[..n]
    requires n < |a| && n < |b| ==> a[n] != b[n]
    ensures CommonPrefix(a, b) == n
  {
    if n == 0 {
    } else {
      assert a[..n][0] == b[..n][0];
      assert a[1..][..n - 1] == a[..n][1..] && b[1..][..n - 1] == b[..n][1..];
      CommonPrefixUnique(a[1..], b[1..], n - 1);
    }
  }

  lemma CommonPrefixSymmetric(a: Octets, b: Octets)
    ensures CommonPrefix(a, b) == CommonPrefix(b, a)
  {
    CommonPrefixUnique(b, a, CommonPrefix(a, b));
  }

  /** The order is total and antisymmetric. */
  lemma CompareFlips(a: Octets, b: Octets)
    ensures Compare(a, b) == -Compare(b, a)
    ensures Compare(a, b) == 0 <==> a == b
  {
    CommonPrefixSymmetric(a, b);
    if Compare(a, b) == 0 {
      assert a == a[..|a|] && b == b[..|b|];
    }
    if a == b {
      CommonPrefixUnique(a, b, |a|);
    }
  }

  lemma LeTransitive(a: Octets, b: Octets, c: Octets)
    requires Le(a, b) && Le(b, c)
    ensures Le(a, c) && CommonPrefix(a, c) == if CommonPrefix(a, b) < CommonPrefix(b, c) then CommonPrefix(a, b) else CommonPrefix(b, c)
    ensures a != b || b != c ==> Lt(a, c)
  {
    var m, n := CommonPrefix(a, b), CommonPrefix(b, c);
    var k := if m < n then m else n;
    assert a[..k] == a[..m][..k] == b[..m][..k] == b[..k];
    assert b[..k] == b[..n][..k] == c[..n][..k] == c[..k];
    if m < n && m < |b| {
      assert b[..n][m] == c[..n][m];
    }
    if n < m && n < |b| {
      assert a[..m][n] == b[..m][n];
    }
    CommonPrefixUnique(a, c, k);
    if a == b {
      CommonPrefixUnique(a, b, |a|);
    }
    if b == c {
      CommonPrefixUnique(b, c, |b|);
    }
    CompareFlips(a, b);
    CompareFlips(b, c);
  }

  predicate IsPrefix(a: Octets, b: Octets) { a <= b }

  lemma PrefixIsLe(a: Octets, b: Octets)
    requires IsPrefix(a, b)
    ensures Le(a, b) && CommonPrefix(a, b) == |a|
  {
    assert b[..|a|] == a == a[..|a|];
    CommonPrefixUnique(a, b, |a|);
  }

  lemma PrefixMeansCommon(a: Octets, b: Octets)
    ensures IsPrefix(a, b) <==> CommonPrefix(a, b) == |a|
  {
    if IsPrefix(a, b) {
      PrefixIsLe(a, b);
    }
    if CommonPrefix(a, b) == |a| {
      assert a == a[..|a|] == b[..|a|];
    }
  }

  /** Whatever lies between two strings shares their common prefix. */
  lemma BetweenShares(a: Octets, b: Octets, c: Octets)
    requires Le(a, b) && Le(b, c)
    ensures CommonPrefix(a, c) <= CommonPrefix(a, b) && CommonPrefix(a, c) <= CommonPrefix(b, c)
  {
    LeTransitive(a, b, c);
  }

  /** Between a string and an extension of it lie only extensions of it. */
  lemma BetweenExtension(a: Octets, b: Octets, c: Octets)
    requires Le(a, b) && Le(b, c) && IsPrefix(a, c)
    ensures IsPrefix(a, b)
  {
    BetweenShares(a, b, c);
    PrefixIsLe(a, c);
    PrefixMeansCommon(a, b);
  }

  /** Two extensions of a string agree at least up to its end. */
  lemma {:induction false} ExtensionsShare(u: Octets, a: Octets, b: Octets)
    requires IsPrefix(u, a) && IsPrefix(u, b)
    ensures CommonPrefix(a, b) >= |u|
  {
    if u == [] {
    } else {
      ExtensionsShare(u[1..], a[1..], b[1..]);
    }
  }

  /** Strings agree at most up to a place where they differ. */
  lemma {:induction false} DifferenceBounds(a: Octets, b: Octets, j: nat)
    requires j < |a| && j < |b| && a[j] != b[j]
    ensures CommonPrefix(a, b) <= j
  {
    if a[0] == b[0] {
      DifferenceBounds(a[1..], b[1..], j - 1);
    }
  }
}
