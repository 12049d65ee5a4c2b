/** Removing pairs with the same key, in place, after the pairs have been sorted. */
module HstoreUnique {
  import opened Optional
  import opened ByteStrings
  import opened HstoreLayout
  import opened HstoreText

  /** `Pairs`: `needfree` says who owns the strings; it also decides which of several
      pairs with the same key comes first. */
  datatype RawPair = RawPair(pair: Pair, needfree: bool)

  /** `comparePairs`. */
  function Compare(a: RawPair, b: RawPair): int {
    var d := KeyCompare(a.pair.key, b.pair.key);
    if |a.pair.key| == |b.pair.key| && d == 0 then
      (if a.needfree == b.needfree then 0 else if a.needfree then 1 else -1)
    else d
  }

  /** In the order in which `qsort` leaves the pairs. */
  predicate InOrder(s: seq<RawPair>) {
    forall i, j :: 0 <= i < j < |s| ==> Compare(s[i], s[j]) <= 0
  }

  function Last(s: seq<RawPair>): RawPair
    requires s != []
  {
    s[|s| - 1]
  }

  /** The first of each run of pairs with the same key. */
  function Firsts(s: seq<RawPair>): (r: seq<RawPair>)
    ensures |r| <= |s| && (s != [] ==> r != [])
  {
    if |s| <= 1 then s
    else
      var front := Firsts(s[..|s| - 1]);
      if Last(front).pair.key == Last(s).pair.key then front else front + [Last(s)]
  }

  function PairsOf(s: seq<RawPair>): (r: seq<Pair>)
    ensures |r| == |s|
  {
    seq(|s|, i requires 0 <= i < |s| => s[i].pair)
  }

  function Bytes(s: seq<RawPair>): nat {
    if s == [] then 0 else Bytes(s[..|s| - 1]) + |Last(s).pair.key| + |ValueBytes(Last(s).pair)|
  }

  /** `hstoreUniquePairs`, the array having been sorted.  Returns the number of pairs
      that remain and the bytes that their strings take. */
  method Unique(a: array<RawPair>) returns (n: nat, buflen: nat)
    modifies a
    ensures n <= a.Length && a[..n] == Firsts(old(a[..])) && buflen == Bytes(a[..n])
  {
    ghost var all := a[..];
    if a.Length < 2 {
      assert all[..a.Length] == all;
      buflen := if a.Length == 1 then |a[0].pair.key| + |ValueBytes(a[0].pair)| else 0;
      return a.Length, buflen;
    }
    var ptr, res := 1, 0;
    buflen := 0;
    ghost var kept := [a[0]];
    while ptr < a.Length
      invariant UpTo(all, a[..], kept, ptr, res) && kept == Firsts(all[..ptr]) && buflen == Bytes(kept[..res])
    {
      FirstsMore(all, ptr);
      if a[ptr].pair.key != a[res].pair.key {
        BytesMore(kept, res);
        buflen := buflen + |a[res].pair.key| + |ValueBytes(a[res].pair)|;
        TakeAll(kept, all[ptr]);
        Append(a, ptr, res, all, kept);
        res := res + 1;
        kept := kept + [all[ptr]];
      }
      ptr := ptr + 1;
    }
    BytesMore(kept, res);
    assert all[..a.Length] == all && a[..res + 1] == kept == kept[..res + 1];
    buflen := buflen + |a[res].pair.key| + |ValueBytes(a[res].pair)|;
    return res + 1, buflen;
  }

  /** The array `now` starts with the pairs kept so far, up to `res`, and from `ptr` on
      is as it was. */
  predicate UpTo(all: seq<RawPair>, now: seq<RawPair>, kept: seq<RawPair>, ptr: nat, res: nat) {
    && res < ptr <= |all| == |now| && |kept| == res + 1
    && (forall i :: 0 <= i <= res ==> now[i] == kept[i])
    && (forall i :: ptr <= i < |all| ==> now[i] == all[i])
  }

  /** One more pair is kept. */
  method Append(a: array<RawPair>, ptr: nat, res: nat, ghost all: seq<RawPair>, ghost kept: seq<RawPair>)
    requires UpTo(all, a[..], kept, ptr, res) && ptr < a.Length
    modifies a
    ensures UpTo(all, a[..], kept + [all[ptr]], ptr + 1, res + 1)
  {
    if res + 1 != ptr {
      a[res + 1] := a[ptr];
    }
  }

  lemma TakeAll(s: seq<RawPair>, x: RawPair)
    ensures s[..|s|] == s == (s + [x])[..|s|]
  {
  }

  lemma FirstsMore(all: seq<RawPair>, n: nat)
    requires 1 <= n < |all|
    ensures Firsts(all[..n + 1]) ==
            if Last(Firsts(all[..n])).pair.key == all[n].pair.key then Firsts(all[..n]) else Firsts(all[..n]) + [all[n]]
  {
    assert all[..n + 1][..n] == all[..n];
  }

  lemma BytesMore(s: seq<RawPair>, n: nat)
    requires n < |s|
    ensures Bytes(s[..n + 1]) == Bytes(s[..n]) + |s[n].pair.key| + |ValueBytes(s[n].pair)|
  {
    assert s[..n + 1][..n] == s[..n];
  }

  // --------------------------------------------------------- what remains, and why

  lemma CompareKeys(a: RawPair, b: RawPair)
    requires Compare(a, b) <= 0
    ensures a.pair.key == b.pair.key || KeyLess(a.pair.key, b.pair.key)
    ensures a.pair.key == b.pair.key && a.needfree ==> b.needfree
  {
    KeyOrder(a.pair.key, b.pair.key);
  }

  lemma InOrderPrefix(s: seq<RawPair>, n: nat)
    requires InOrder(s) && n <= |s|
    ensures InOrder(s[..n])
  {
  }

  /** Every pair that remains is one of the pairs given, and the last one has the
      greatest key. */
  lemma {:induction false} FirstsGiven(s: seq<RawPair>)
    requires InOrder(s)
    ensures forall x :: x in Firsts(s) ==> x in s
    ensures s != [] ==> Last(Firsts(s)).pair.key == Last(s).pair.key
  {
    if |s| <= 1 {
    } else {
      var (n, front) := (|s| - 1, Firsts(s[..|s| - 1]));
      InOrderPrefix(s, n);
      FirstsGiven(s[..n]);
      forall x | x in Firsts(s)
        ensures x in s
      {
        assert x in front ==> x in s[..n];
      }
    }
  }

  /** The keys that remain are strictly increasing. */
  lemma {:induction false} FirstsSorted(s: seq<RawPair>)
    requires InOrder(s)
    ensures Sorted(PairsOf(Firsts(s)))
  {
    if |s| <= 1 {
    } else {
      var (n, front) := (|s| - 1, Firsts(s[..|s| - 1]));
      InOrderPrefix(s, n);
      FirstsSorted(s[..n]);
      FirstsGiven(s[..n]);
      if Last(front).pair.key != s[n].pair.key {
        CompareKeys(s[n - 1], s[n]);
        assert Last(s[..n]) == s[n - 1];
        SortedMore(PairsOf(front), s[n].pair);
        assert PairsOf(front + [s[n]]) == PairsOf(front) + [s[n].pair];
      }
    }
  }

  lemma SortedMore(ps: seq<Pair>, p: Pair)
    requires Sorted(ps) && ps != [] && KeyLess(ps[|ps| - 1].key, p.key)
    ensures Sorted(ps + [p])
  {
    forall i | 0 <= i < |ps| - 1
      ensures KeyLess(ps[i].key, p.key)
    {
      KeyLessTransitive(ps[i].key, ps[|ps| - 1].key, p.key);
    }
  }

  lemma FirstsGrow(s: seq<RawPair>)
    requires |s| > 1
    ensures var front := Firsts(s[..|s| - 1]);
      && front <= Firsts(s) && (Last(front).pair.key != Last(s).pair.key ==> Last(s) in Firsts(s))
  {
  }

  /** Every key given remains, and with it a pair that need not be freed if there is one. */
  lemma {:induction false} FirstsKeep(s: seq<RawPair>, k: nat) returns (x: RawPair)
    requires InOrder(s) && k < |s|
    ensures x in Firsts(s) && x.pair.key == s[k].pair.key && (!s[k].needfree ==> !x.needfree)
  {
    var n := |s| - 1;
    if n == 0 {
      x := s[0];
    } else {
      var front := Firsts(s[..n]);
      InOrderPrefix(s, n);
      FirstsGrow(s);
      if k < n {
        x := FirstsKeep(s[..n], k);
      } else {
        FirstsGiven(s[..n]);
        if Last(front).pair.key == s[n].pair.key {
          x := Last(front);
          FoundBefore(s, n, x);
        } else {
          x := s[n];
        }
      }
    }
  }

  lemma FoundBefore(s: seq<RawPair>, n: nat, x: RawPair)
    requires InOrder(s) && n < |s| && x in s[..n] && x.pair.key == s[n].pair.key
    ensures !s[n].needfree ==> !x.needfree
  {
    var m :| 0 <= m < n && s[..n][m] == x;
    CompareKeys(s[m], s[n]);
  }

  // ------------------------------------------------- pairs that are sorted already

  /** The bytes reported are exactly those that packing the pairs takes. */
  lemma {:induction false} BytesAreSize(s: seq<RawPair>, n: nat)
    requires n <= |s|
    ensures Bytes(s[..n]) == Start(PairsOf(s), n)
  {
    if n == 0 {
    } else {
      BytesAreSize(s, n - 1);
      BytesMore(s, n - 1);
    }
  }

  lemma {:induction false} SortedStays(s: seq<RawPair>)
    requires Sorted(PairsOf(s))
    ensures Firsts(s) == s
  {
    if |s| <= 1 {
    } else {
      var n := |s| - 1;
      assert PairsOf(s[..n]) == PairsOf(s)[..n];
      SortedStays(s[..n]);
      assert KeyLess(PairsOf(s)[n - 1].key, PairsOf(s)[n].key);
      KeyOrder(s[n - 1].pair.key, s[n].pair.key);
      assert s == s[..n] + [s[n]];
    }
  }

  /** Pairs with strictly increasing keys have only one sorted order. */
  lemma {:induction false} OneOrder(s: seq<RawPair>, r: seq<RawPair>)
    requires Sorted(PairsOf(s)) && InOrder(r) && multiset(r) == multiset(s)
    ensures r == s
  {
    SameLength(s, r);
    if s == [] {
    } else {
      var n := |s| - 1;
      LastIsLast(s, r);
      DropLast(s, r);
      assert PairsOf(s[..n]) == PairsOf(s)[..n];
      InOrderPrefix(r, n);
      OneOrder(s[..n], r[..n]);
      assert s == s[..n] + [s[n]] && r == r[..n] + [r[n]];
    }
  }

  lemma SameLength(s: seq<RawPair>, r: seq<RawPair>)
    requires multiset(r) == multiset(s)
    ensures |r| == |s|
  {
    assert |multiset(r)| == |r| && |multiset(s)| == |s|;
  }

  lemma DropLast(s: seq<RawPair>, r: seq<RawPair>)
    requires |r| == |s| > 0 && multiset(r) == multiset(s) && Last(r) == Last(s)
    ensures multiset(r[..|r| - 1]) == multiset(s[..|s| - 1])
  {
    var n := |s| - 1;
    assert s == s[..n] + [s[n]] && r == r[..n] + [r[n]];
    assert multiset(s) == multiset(s[..n]) + multiset{s[n]};
    assert multiset(r) == multiset(r[..n]) + multiset{s[n]};
    assert multiset(r[..n]) == multiset(r) - multiset{s[n]};
    assert multiset(s[..n]) == multiset(s) - multiset{s[n]};
  }

  lemma LastIsLast(s: seq<RawPair>, r: seq<RawPair>)
    requires Sorted(PairsOf(s)) && InOrder(r) && multiset(r) == multiset(s) && |r| == |s| > 0
    ensures Last(r) == Last(s)
  {
    var n := |s| - 1;
    assert Last(r) in multiset(s) && Last(s) in multiset(r);
    var i :| 0 <= i <= n && s[i] == Last(r);
    var j :| 0 <= j <= n && r[j] == Last(s);
    if i < n && j < n {
      assert KeyLess(PairsOf(s)[i].key, PairsOf(s)[n].key);
      KeyOrder(s[i].pair.key, s[n].pair.key);
      CompareKeys(r[j], r[n]);
    }
  }

  /** `hstore_in` after `hstore_out`: whatever order the sort leaves the parsed pairs
      in, they are the pairs printed, none is dropped, and the size is theirs. */
  lemma TextIdentity(ps: seq<Pair>, parsed: seq<RawPair>, sorted: seq<RawPair>)
    requires Sorted(ps) && forall j :: 0 <= j < |ps| ==> Printable(ps[j])
    requires Parse(Text(ps, 0), WaitKey, []) == Pairs(PairsOf(parsed))
    requires InOrder(sorted) && multiset(sorted) == multiset(parsed)
    ensures PairsOf(Firsts(sorted)) == ps && Bytes(Firsts(sorted)) == Size(ps)
  {
    RoundTrip(ps);
    OneOrder(parsed, sorted);
    SortedStays(parsed);
    BytesAreSize(parsed, |parsed|);
    assert parsed[..|parsed|] == parsed;
  }
}
