/** GiST keys over variable-length values (`bytea`): an internal key holds a lower
    and an upper bound, both cut short, so the stored upper bound need not be one.
    The invariant `Covers` ties the length of the cut to the common prefix of the
    bounds; it is what makes the index scan complete at every height. */
module VarKeys {
  import opened Optional
  import opened ByteStrings

  /** A readable key; a leaf entry has the same value as both bounds. */
  datatype VarKey = VarKey(lower: Bytes, upper: Bytes)

  datatype Strategy = Less | LessEqual | Equal | GreaterEqual | Greater | NotEqual

  function Min(a: nat, b: nat): nat { if a < b then a else b }

  function Max(a: nat, b: nat): nat { if a < b then b else a }

  // ------------------------------------------------------------ the operations

  /** `gbt_var_node_cp_len` for a single-byte type. */
  method NodePrefixLength(node: VarKey) returns (n: nat)
    ensures n == CommonPrefix(node.lower, node.upper)
  {
    var ml := Min(|node.lower|, |node.upper|);
    if ml == 0 {
      return 0;
    }
    n := 0;
    while n < ml
      invariant n <= ml && node.lower[..n] == node.upper[..n]
    {
      if node.lower[n] != node.upper[n] {
        CommonPrefixUnique(node.lower, node.upper, n);
        return n;
      }
      assert node.lower[..n + 1] == node.lower[..n] + [node.lower[n]];
      assert node.upper[..n + 1] == node.upper[..n] + [node.upper[n]];
      n := n + 1;
    }
    CommonPrefixUnique(node.lower, node.upper, n);
  }

  /** `gbt_bytea_pf_match`: the first argument is a prefix of the second. */
  predicate PrefixMatch(pf: Bytes, query: Bytes) {
    |pf| <= |query| && query[..|pf|] == pf
  }

  predicate NodePrefixMatch(node: VarKey, query: Bytes) {
    PrefixMatch(node.lower, query) || PrefixMatch(node.upper, query)
  }

  /** `gbt_var_node_truncate`. */
  function Truncate(node: VarKey, cpf: nat): VarKey {
    VarKey(node.lower[..Min(|node.lower|, cpf + 1)], node.upper[..Min(|node.upper|, cpf + 1)])
  }

  /** The bounds of two keys together. */
  function Join(u: VarKey, e: VarKey): VarKey {
    VarKey(if Compare(u.lower, e.lower) > 0 then e.lower else u.lower,
           if Compare(u.upper, e.upper) < 0 then e.upper else u.upper)
  }

  predicate Encloses(k: VarKey, e: VarKey) { Le(k.lower, e.lower) && Le(e.upper, k.upper) }

  /** `r` encloses both keys, and each of its bounds is one of theirs. */
  predicate Around(r: VarKey, u: VarKey, e: VarKey) {
    && Encloses(r, u) && Encloses(r, e)
    && (r.lower == u.lower || r.lower == e.lower) && (r.upper == u.upper || r.upper == e.upper)
  }

  lemma JoinIsAround(u: VarKey, e: VarKey)
    ensures Around(Join(u, e), u, e)
  {
    CompareFlips(u.lower, u.lower);
    CompareFlips(u.upper, u.upper);
    CompareFlips(e.lower, e.lower);
    CompareFlips(e.upper, e.upper);
    CompareFlips(u.lower, e.lower);
    CompareFlips(u.upper, e.upper);
  }

  /** There is one such key. */
  lemma AroundIsJoin(r: VarKey, u: VarKey, e: VarKey)
    requires Around(r, u, e)
    ensures r == Join(u, e)
  {
    CompareFlips(u.lower, e.lower);
    CompareFlips(u.upper, e.upper);
  }

  /** `gbt_var_bin_union`, which overwrites the accumulated key. */
  method BinUnion(u: Option<VarKey>, e: VarKey) returns (r: Option<VarKey>)
    ensures r.Some? && if u.Some? then Around(r.value, u.value, e) else r.value == e
  {
    if u.Some? {
      JoinIsAround(u.value, e);
    }
    r := u;
    if u.Some? {
      var nr, update := u.value, false;
      if Compare(u.value.lower, e.lower) > 0 {
        nr := nr.(lower := e.lower);
        update := true;
      }
      if Compare(u.value.upper, e.upper) < 0 {
        nr := nr.(upper := e.upper);
        update := true;
      }
      if update {
        r := Some(nr);
      }
    } else {
      r := Some(e);
    }
  }

  /** The same, as the loops that take the hull of many keys use it. */
  method Accumulate(u: Option<VarKey>, e: VarKey) returns (r: Option<VarKey>)
    ensures r == Some(if u.Some? then Join(u.value, e) else e)
  {
    r := BinUnion(u, e);
    if u.Some? {
      AroundIsJoin(r.value, u.value, e);
    }
  }

  function Hull(keys: seq<VarKey>): VarKey
    requires keys != []
  {
    if |keys| == 1 then keys[0] else Join(Hull(keys[..|keys| - 1]), keys[|keys| - 1])
  }

  /** Both bounds of a key cut to `m + 2` bytes. */
  function Cut(k: VarKey, m: nat): VarKey { Truncate(k, m + 1) }

  function PrefixOf(k: VarKey): nat { CommonPrefix(k.lower, k.upper) }

  function UnionKey(keys: seq<VarKey>): VarKey
    requires keys != []
  {
    Cut(Hull(keys), PrefixOf(Hull(keys)))
  }

  /** `gbt_var_union`. */
  method Union(keys: seq<VarKey>) returns (r: VarKey)
    requires keys != []
    ensures r == UnionKey(keys)
  {
    var out := Some(keys[0]);
    assert keys[..1] == [keys[0]];
    for i := 1 to |keys|
      invariant out == Some(Hull(keys[..i]))
    {
      assert keys[..i + 1][..i] == keys[..i];
      out := Accumulate(out, keys[i]);
    }
    assert keys[..|keys|] == keys;
    var plen := NodePrefixLength(out.value);
    r := Truncate(out.value, plen + 1);
  }

  /** `gbt_var_consistent`. */
  predicate Consistent(k: VarKey, query: Bytes, s: Strategy, isLeaf: bool) {
    match s
    case LessEqual =>
      if isLeaf then Compare(query, k.lower) >= 0
      else Compare(query, k.lower) >= 0 || NodePrefixMatch(k, query)
    case Less =>
      if isLeaf then Compare(query, k.lower) > 0
      else Compare(query, k.lower) >= 0 || NodePrefixMatch(k, query)
    case Equal =>
      if isLeaf then Compare(query, k.lower) == 0
      else (Compare(k.lower, query) <= 0 && Compare(query, k.upper) <= 0) || NodePrefixMatch(k, query)
    case Greater =>
      if isLeaf then Compare(query, k.upper) < 0
      else Compare(query, k.upper) <= 0 || NodePrefixMatch(k, query)
    case GreaterEqual =>
      if isLeaf then Compare(query, k.upper) <= 0
      else Compare(query, k.upper) <= 0 || NodePrefixMatch(k, query)
    case NotEqual =>
      !(Compare(query, k.lower) == 0 && Compare(query, k.upper) == 0)
  }

  // ------------------------------------------------------- completeness of a scan

  /** What the operator of the strategy means for a stored value. */
  predicate Satisfies(x: Bytes, s: Strategy, query: Bytes) {
    match s
    case Less => Lt(x, query)
    case LessEqual => Le(x, query)
    case Equal => x == query
    case GreaterEqual => Le(query, x)
    case Greater => Lt(query, x)
    case NotEqual => x != query
  }

  /** A leaf entry answers every query exactly. */
  lemma LeafExact(x: Bytes, s: Strategy, query: Bytes)
    ensures Consistent(VarKey(x, x), query, s, true) <==> Satisfies(x, s, query)
  {
    CompareFlips(query, x);
  }

  /** No query that `x` satisfies is turned away at the internal key. */
  ghost predicate NeverTurnedAway(k: VarKey, x: Bytes) {
    forall query, s :: Satisfies(x, s, query) ==> Consistent(k, query, s, false)
  }

  predicate Ordered(k: VarKey) { Le(k.lower, k.upper) }

  /** The values that the consistent function, by its own tests, lets through. */
  predicate Admits(k: VarKey, x: Bytes) {
    && Le(k.lower, x)
    && (Le(x, k.upper) || IsPrefix(k.upper, x) || IsPrefix(k.lower, x))
    && (k.lower == k.upper ==> x == k.lower)
  }

  lemma AdmitsNeverTurnedAway(k: VarKey, x: Bytes, query: Bytes, s: Strategy)
    requires Ordered(k) && Admits(k, x) && Satisfies(x, s, query)
    ensures Consistent(k, query, s, false)
  {
    CompareFlips(query, k.lower);
    CompareFlips(query, k.upper);
    CompareFlips(query, x);
    match s
    case Less => LeTransitive(k.lower, x, query);
    case LessEqual => LeTransitive(k.lower, x, query);
    case Equal =>
    case NotEqual =>
    case GreaterEqual => BelowAdmitted(k, x, query);
    case Greater => BelowAdmitted(k, x, query);
  }

  lemma BelowAdmitted(k: VarKey, x: Bytes, query: Bytes)
    requires Ordered(k) && Admits(k, x) && Le(query, x)
    ensures Le(query, k.upper) || NodePrefixMatch(k, query)
  {
    CompareFlips(query, k.upper);
    if !Le(query, k.upper) {
      if Le(x, k.upper) {
        LeTransitive(query, x, k.upper);
      } else if IsPrefix(k.upper, x) {
        BetweenExtension(k.upper, query, x);
      } else {
        LeTransitive(k.lower, k.upper, query);
        BetweenExtension(k.lower, query, x);
      }
    }
  }

  /** `gbt_var_consistent` on an internal key lets through every query that `x`
      satisfies, for all six strategies, exactly when the key admits `x`. */
  lemma ConsistentExact(k: VarKey, x: Bytes)
    requires Ordered(k)
    ensures NeverTurnedAway(k, x) <==> Admits(k, x)
  {
    if Admits(k, x) {
      forall query, s | Satisfies(x, s, query)
        ensures Consistent(k, query, s, false)
      {
        AdmitsNeverTurnedAway(k, x, query, s);
      }
    }
    CompareFlips(k.lower, k.lower);
    assert k.lower == k.upper && x != k.lower ==>
      Satisfies(x, NotEqual, k.lower) && !Consistent(k, k.lower, NotEqual, false);
    if NeverTurnedAway(k, x) {
      CompareFlips(x, x);
      CompareFlips(k.lower, x);
      CompareFlips(k.upper, x);
      assert Satisfies(x, Equal, x) && Satisfies(x, LessEqual, x);
      assert Consistent(k, x, Equal, false) && Consistent(k, x, LessEqual, false);
      if PrefixMatch(k.upper, x) {
        PrefixIsLe(k.upper, x);
        LeTransitive(k.lower, k.upper, x);
      } else if PrefixMatch(k.lower, x) {
        PrefixIsLe(k.lower, x);
      }
    }
  }

  // ------------------------------------------------- the invariant on cut keys

  /** The upper bound is long enough to have been cut after the common prefix. */
  predicate MayBeCut(k: VarKey) { |k.upper| >= PrefixOf(k) + 2 }

  /** What an internal key promises about a value below it. */
  predicate Covers(k: VarKey, x: Bytes) {
    Le(k.lower, x) && (Le(x, k.upper) || (IsPrefix(k.upper, x) && MayBeCut(k)))
  }

  lemma CoversAdmits(k: VarKey, x: Bytes)
    requires Covers(k, x)
    ensures Admits(k, x)
  {
    CompareFlips(k.lower, x);
    CompareFlips(k.lower, k.upper);
  }

  lemma EnclosesTransitive(a: VarKey, b: VarKey, c: VarKey)
    requires Encloses(a, b) && Encloses(b, c)
    ensures Encloses(a, c)
  {
    LeTransitive(a.lower, b.lower, c.lower);
    LeTransitive(c.upper, b.upper, a.upper);
  }

  lemma {:induction false} HullBounds(keys: seq<VarKey>, i: nat)
    requires i < |keys|
    ensures Encloses(Hull(keys), keys[i])
  {
    var n := |keys| - 1;
    if n == 0 {
      JoinIsAround(keys[0], keys[0]);
    } else {
      JoinIsAround(Hull(keys[..n]), keys[n]);
      if i < n {
        HullBounds(keys[..n], i);
        EnclosesTransitive(Hull(keys), Hull(keys[..n]), keys[i]);
      }
    }
  }

  /** A key between the hull's bounds shares their common prefix. */
  lemma HullOf(keys: seq<VarKey>, i: nat)
    requires i < |keys| && Ordered(keys[i])
    ensures Ordered(Hull(keys)) && PrefixOf(Hull(keys)) <= PrefixOf(keys[i])
    ensures Le(Hull(keys).lower, keys[i].lower) && Le(keys[i].upper, Hull(keys).upper)
  {
    var h, k := Hull(keys), keys[i];
    HullBounds(keys, i);
    LeTransitive(k.lower, k.upper, h.upper);
    LeTransitive(h.lower, k.lower, h.upper);
  }

  lemma TakeIsPrefix(a: Bytes, n: nat)
    requires n <= |a|
    ensures IsPrefix(a[..n], a) && Le(a[..n], a)
  {
    PrefixIsLe(a[..n], a);
  }

  /** Cutting behind the common prefix keeps it, and keeps the bounds in order. */
  lemma CutKeepsPrefix(k: VarKey, m: nat)
    requires PrefixOf(k) <= m
    ensures PrefixOf(Cut(k, m)) == PrefixOf(k) && (Ordered(k) ==> Ordered(Cut(k, m)))
    ensures |Cut(k, m).upper| == Min(|k.upper|, m + 2)
  {
    var p, c := PrefixOf(k), Cut(k, m);
    assert c.lower[..p] == k.lower[..p] && c.upper[..p] == k.upper[..p];
    CommonPrefixUnique(c.lower, c.upper, p);
  }

  /** A value up to the uncut bound stays covered. */
  lemma CutCoversBelow(k: VarKey, m: nat, x: Bytes)
    requires Ordered(k) && PrefixOf(k) <= m && Le(k.lower, x) && Le(x, k.upper)
    ensures Covers(Cut(k, m), x)
  {
    var c := Cut(k, m);
    CutKeepsPrefix(k, m);
    TakeIsPrefix(k.lower, |c.lower|);
    TakeIsPrefix(k.upper, |c.upper|);
    LeTransitive(c.lower, k.lower, x);
    CompareFlips(x, c.upper);
    assert |c.upper| == |k.upper| ==> c.upper == k.upper;
    if !Le(x, c.upper) {
      BetweenExtension(c.upper, x, k.upper);
    }
  }

  /** A value past the hull's upper bound extends the bound of the key that covers
      it, and so does the hull's. */
  lemma PastTheHull(keys: seq<VarKey>, i: nat, x: Bytes)
    requires i < |keys| && Ordered(keys[i]) && Covers(keys[i], x) && !Le(x, Hull(keys).upper)
    ensures MayBeCut(keys[i]) && IsPrefix(keys[i].upper, x) && IsPrefix(keys[i].upper, Hull(keys).upper)
    ensures Le(Hull(keys).lower, x) && PrefixOf(Hull(keys)) + 2 <= |keys[i].upper|
  {
    var h, k := Hull(keys), keys[i];
    HullOf(keys, i);
    CompareFlips(x, h.upper);
    LeTransitive(h.lower, k.lower, x);
    if Le(x, k.upper) {
      LeTransitive(x, k.upper, h.upper);
    } else {
      BetweenExtension(k.upper, h.upper, x);
    }
  }

  /** The cut of the hull covers whatever one of its keys covers, as long as it is
      not longer than that key's upper bound. */
  lemma ShortCutCovers(keys: seq<VarKey>, m: nat, i: nat, x: Bytes)
    requires i < |keys| && Ordered(keys[i]) && Covers(keys[i], x) && PrefixOf(Hull(keys)) <= m
    requires !Le(x, Hull(keys).upper) ==> |Cut(Hull(keys), m).upper| <= |keys[i].upper|
    ensures Covers(Cut(Hull(keys), m), x)
  {
    var h, k := Hull(keys), keys[i];
    var r := Cut(h, m);
    HullOf(keys, i);
    if Le(x, h.upper) {
      LeTransitive(h.lower, k.lower, x);
      CutCoversBelow(h, m, x);
    } else {
      PastTheHull(keys, i, x);
      CutKeepsPrefix(h, m);
      CutLower(h, m, x);
      PrefixOfBoth(r.upper, k.upper, h.upper, x);
    }
  }

  lemma CutLower(h: VarKey, m: nat, x: Bytes)
    requires Le(h.lower, x)
    ensures Le(Cut(h, m).lower, x)
  {
    TakeIsPrefix(h.lower, |Cut(h, m).lower|);
    LeTransitive(Cut(h, m).lower, h.lower, x);
  }

  lemma PrefixOfBoth(r: Bytes, k: Bytes, h: Bytes, x: Bytes)
    requires IsPrefix(r, h) && IsPrefix(k, h) && IsPrefix(k, x) && |r| <= |k|
    ensures IsPrefix(r, x)
  {
    assert r == h[..|r|] == k[..|r|] == x[..|r|];
  }

  /** After the first `n` bytes all bytes are the greatest possible. */
  predicate MaximalFrom(a: Bytes, n: nat) {
    forall j :: n <= j < |a| ==> a[j] == 255
  }

  /** A value that extends a bound is below every maximal prolongation of it, or
      extends that too. */
  lemma BelowMaximal(u: Bytes, r: Bytes, x: Bytes)
    requires IsPrefix(u, r) && IsPrefix(u, x) && MaximalFrom(r, |u|)
    ensures Le(x, r) || IsPrefix(r, x)
  {
    var n := CommonPrefix(x, r);
    PrefixMeansCommon(r, x);
    CommonPrefixSymmetric(x, r);
    ExtensionsShare(u, x, r);
  }

  /** Cutting the hull `h` to `m + 2` bytes leaves an upper bound that prolongs the one
      of `k`, which may itself have been cut, by more than maximal bytes. */
  predicate Prolongs(k: VarKey, h: VarKey, m: nat) {
    && MayBeCut(k) && IsPrefix(k.upper, h.upper)
    && exists j :: |k.upper| <= j < |h.upper| && j < m + 2 && h.upper[j] != 255
  }

  lemma LongCutCovers(keys: seq<VarKey>, m: nat, i: nat, x: Bytes)
    requires i < |keys| && Ordered(keys[i]) && Covers(keys[i], x) && PrefixOf(Hull(keys)) <= m
    requires !Le(x, Hull(keys).upper) && !Prolongs(keys[i], Hull(keys), m)
    requires |Cut(Hull(keys), m).upper| > |keys[i].upper|
    ensures Covers(Cut(Hull(keys), m), x)
  {
    var h, k := Hull(keys), keys[i];
    var r := Cut(h, m);
    PastTheHull(keys, i, x);
    CutKeepsPrefix(h, m);
    CutLower(h, m, x);
    CutExtends(k.upper, h, m);
    BelowMaximal(k.upper, r.upper, x);
  }

  /** A cut not as short as a prefix of the bound extends that prefix. */
  lemma CutExtends(u: Bytes, h: VarKey, m: nat)
    requires IsPrefix(u, h.upper) && |u| <= |Cut(h, m).upper|
    ensures IsPrefix(u, Cut(h, m).upper)
    ensures forall j :: 0 <= j < |Cut(h, m).upper| ==> Cut(h, m).upper[j] == h.upper[j]
  {
    assert u == h.upper[..|u|] == Cut(h, m).upper[..|u|];
  }

  lemma CutCovers(keys: seq<VarKey>, m: nat, i: nat, x: Bytes)
    requires i < |keys| && Ordered(keys[i]) && Covers(keys[i], x) && PrefixOf(Hull(keys)) <= m
    requires !Prolongs(keys[i], Hull(keys), m)
    ensures Ordered(Cut(Hull(keys), m)) && Covers(Cut(Hull(keys), m), x)
  {
    HullOf(keys, i);
    CutKeepsPrefix(Hull(keys), m);
    if Le(x, Hull(keys).upper) || |Cut(Hull(keys), m).upper| <= |keys[i].upper| {
      ShortCutCovers(keys, m, i, x);
    } else {
      LongCutCovers(keys, m, i, x);
    }
  }

  /** Cut at its own common prefix, the hull prolongs no key. */
  lemma OwnPrefixShort(keys: seq<VarKey>, i: nat)
    requires i < |keys| && Ordered(keys[i])
    ensures !Prolongs(keys[i], Hull(keys), PrefixOf(Hull(keys)))
  {
    HullOf(keys, i);
  }

  /** One union step keeps every covered value covered. */
  lemma UnionCovers(keys: seq<VarKey>, i: nat, x: Bytes)
    requires i < |keys| && Ordered(keys[i]) && Covers(keys[i], x)
    ensures Ordered(UnionKey(keys)) && Covers(UnionKey(keys), x)
  {
    OwnPrefixShort(keys, i);
    CutCovers(keys, PrefixOf(Hull(keys)), i, x);
  }

  // -------------------------------------------------------- trees of any height

  /** How a key came about: from a stored value, as the union of the keys below, or as
      one half of a split, whose cut length `m` is shared with the other half. */
  datatype Built =
    | Datum(x: Bytes)
    | Merged(parts: seq<Built>)
    | SplitHalf(parts: seq<Built>, m: nat)

  function KeyOf(b: Built): VarKey
    decreases b, 1
  {
    match b
    case Datum(x) => VarKey(x, x)
    case Merged(parts) => if parts == [] then VarKey([], []) else UnionKey(KeysOf(parts))
    case SplitHalf(parts, m) => if parts == [] then VarKey([], []) else Cut(Hull(KeysOf(parts)), m)
  }

  function KeysOf(parts: seq<Built>): (keys: seq<VarKey>)
    ensures |keys| == |parts|
    decreases parts, 0
  {
    if parts == [] then [] else [KeyOf(parts[0])] + KeysOf(parts[1..])
  }

  lemma {:induction false} KeysOfAt(parts: seq<Built>, i: nat)
    requires i < |parts|
    ensures KeysOf(parts)[i] == KeyOf(parts[i])
  {
    if i == 0 {
    } else {
      KeysOfAt(parts[1..], i - 1);
    }
  }

  /** No page is empty, and no split prolongs a key. */
  predicate WellBuilt(b: Built) {
    match b
    case Datum(_) => true
    case Merged(parts) => parts != [] && forall p | p in parts :: WellBuilt(p)
    case SplitHalf(parts, m) => parts != [] && (forall p | p in parts :: WellBuilt(p)) && Unprolonged(KeysOf(parts), m)
  }

  predicate Unprolonged(keys: seq<VarKey>, m: nat)
    requires keys != []
  {
    PrefixOf(Hull(keys)) <= m && forall k | k in keys :: !Prolongs(k, Hull(keys), m)
  }

  /** Leaf entries have not been cut, so any split of them is well built. */
  lemma LeafSplit(parts: seq<Built>, m: nat)
    requires parts != [] && (forall p | p in parts :: p.Datum?) && PrefixOf(Hull(KeysOf(parts))) <= m
    ensures WellBuilt(SplitHalf(parts, m))
  {
    var keys := KeysOf(parts);
    forall k | k in keys
      ensures !Prolongs(k, Hull(keys), m)
    {
      var i :| 0 <= i < |keys| && keys[i] == k;
      KeysOfAt(parts, i);
      CompareFlips(k.lower, k.upper);
    }
  }

  predicate Below(x: Bytes, b: Built) {
    match b
    case Datum(y) => x == y
    case Merged(parts) => exists p | p in parts :: Below(x, p)
    case SplitHalf(parts, _) => exists p | p in parts :: Below(x, p)
  }

  /** Whatever its height, an internal key covers every value below it. */
  lemma {:induction false} BuiltCovers(b: Built, x: Bytes)
    requires WellBuilt(b) && Below(x, b)
    ensures Ordered(KeyOf(b)) && Covers(KeyOf(b), x)
  {
    CompareFlips(x, x);
    match b
    case Datum(_) =>
    case Merged(parts) =>
      var i :| 0 <= i < |parts| && Below(x, parts[i]);
      BuiltCovers(parts[i], x);
      KeysOfAt(parts, i);
      UnionCovers(KeysOf(parts), i, x);
    case SplitHalf(parts, m) =>
      var i :| 0 <= i < |parts| && Below(x, parts[i]);
      BuiltCovers(parts[i], x);
      KeysOfAt(parts, i);
      CutCovers(KeysOf(parts), m, i, x);
  }

  /** Index scans are complete: `gbt_var_consistent` on an internal key never turns
      away a query that some value below it satisfies. */
  lemma ScanComplete(b: Built, x: Bytes)
    requires WellBuilt(b) && Below(x, b)
    ensures NeverTurnedAway(KeyOf(b), x)
  {
    BuiltCovers(b, x);
    CoversAdmits(KeyOf(b), x);
    ConsistentExact(KeyOf(b), x);
  }
}
