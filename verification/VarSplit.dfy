/** Splitting a page of variable-length keys.  Both halves are cut at one length,
    taken from the half with the longer common prefix.  Over leaf entries that is
    sound; over keys that have been cut before it can lose values. */
module VarSplit {
  import opened Optional
  import opened ByteStrings
  import opened VarKeys

  /** `gbt_vsrt_cmp`. */
  function CompareKeys(a: VarKey, b: VarKey): int {
    var c := Compare(a.lower, b.lower);
    if c == 0 then Compare(a.upper, b.upper) else c
  }

  /** `order` lists every entry once, in the order the sort leaves them in. */
  ghost predicate SortedOrder(keys: seq<VarKey>, order: seq<nat>) {
    && |order| == |keys|
    && (forall j :: 0 <= j < |order| ==> order[j] < |keys|)
    && (forall i, j :: 0 <= i < j < |order| ==> order[i] != order[j])
    && (forall j :: 0 < j < |order| ==> CompareKeys(keys[order[j - 1]], keys[order[j]]) <= 0)
  }

  function At(keys: seq<VarKey>, order: seq<nat>): seq<VarKey>
    requires forall j :: 0 <= j < |order| ==> order[j] < |keys|
  {
    seq(|order|, j requires 0 <= j < |order| => keys[order[j]])
  }

  /** The cut length shared by the two halves of a split. */
  function SharedCut(left: seq<VarKey>, right: seq<VarKey>): nat
    requires left != [] && right != []
  {
    Max(PrefixOf(Hull(left)), PrefixOf(Hull(right)))
  }

  /** `gbt_var_picksplit`, given the order in which the sort leaves the entries. */
  method PickSplit(keys: seq<VarKey>, order: seq<nat>)
    returns (left: seq<nat>, right: seq<nat>, ldatum: VarKey, rdatum: VarKey)
    requires |keys| >= 2 && SortedOrder(keys, order)
    ensures left + right == order && |left| == |keys| / 2 && right != []
    ensures var arr, n := At(keys, order), |left|;
      && ldatum == Cut(Hull(arr[..n]), SharedCut(arr[..n], arr[n..]))
      && rdatum == Cut(Hull(arr[n..]), SharedCut(arr[..n], arr[n..]))
  {
    var half := |keys| / 2;
    var arr := At(keys, order);
    var l, r;
    left, right, l, r := Distribute(arr, order, half);
    WholeIsHalves(order, half);
    WholeIsHalves(arr, half);
    ldatum, rdatum := CutBoth(l.value, r.value);
  }

  /** The loop: the first half of the entries goes to the left. */
  method Distribute(arr: seq<VarKey>, order: seq<nat>, half: nat)
    returns (left: seq<nat>, right: seq<nat>, l: Option<VarKey>, r: Option<VarKey>)
    requires |arr| == |order| && half <= |arr|
    ensures left == order[0..half] && right == order[half..|arr|]
    ensures l == HullSoFar(arr, 0, half) && r == HullSoFar(arr, half, |arr|)
  {
    l, r := None, None;
    left, right := [], [];
    for i := 0 to |arr|
      invariant Sides(order, half, i, left, right) && Hulls(arr, half, i, l, r)
    {
      left, right, l, r := DistributeOne(arr, order, half, i, left, right, l, r);
    }
  }

  /** The loop's body. */
  method DistributeOne(arr: seq<VarKey>, order: seq<nat>, half: nat, i: nat,
                       left0: seq<nat>, right0: seq<nat>, l0: Option<VarKey>, r0: Option<VarKey>)
    returns (left: seq<nat>, right: seq<nat>, l: Option<VarKey>, r: Option<VarKey>)
    requires |arr| == |order| && i < |arr|
    requires Sides(order, half, i, left0, right0) && Hulls(arr, half, i, l0, r0)
    ensures Sides(order, half, i + 1, left, right) && Hulls(arr, half, i + 1, l, r)
  {
    SidesGrow(order, half, i, left0, right0);
    HullsGrow(arr, half, i, l0, r0);
    left, right, l, r := left0, right0, l0, r0;
    if i + 1 <= half {
      l := Accumulate(l, arr[i]);
      left := left + [order[i]];
    } else {
      r := Accumulate(r, arr[i]);
      right := right + [order[i]];
    }
  }

  /** Where the first `i` entries have gone. */
  predicate Sides(order: seq<nat>, half: nat, i: nat, left: seq<nat>, right: seq<nat>) {
    i <= |order| && left == order[0..Min(i, half)] && right == order[Min(i, half)..i]
  }

  lemma SidesGrow(order: seq<nat>, half: nat, i: nat, left: seq<nat>, right: seq<nat>)
    requires i < |order| && Sides(order, half, i, left, right)
    ensures i + 1 <= half ==> Sides(order, half, i + 1, left + [order[i]], right)
    ensures i + 1 > half ==> Sides(order, half, i + 1, left, right + [order[i]])
  {
    SliceGrows(order, if i + 1 <= half then 0 else half, i);
  }

  /** The unions of the first `i` entries on either side. */
  predicate Hulls(arr: seq<VarKey>, half: nat, i: nat, l: Option<VarKey>, r: Option<VarKey>) {
    i <= |arr| && l == HullSoFar(arr, 0, Min(i, half)) && r == HullSoFar(arr, Min(i, half), i)
  }

  lemma HullsGrow(arr: seq<VarKey>, half: nat, i: nat, l: Option<VarKey>, r: Option<VarKey>)
    requires i < |arr| && Hulls(arr, half, i, l, r)
    ensures i + 1 <= half ==> Hulls(arr, half, i + 1, Some(if l.Some? then Join(l.value, arr[i]) else arr[i]), r)
    ensures i + 1 > half ==> Hulls(arr, half, i + 1, l, Some(if r.Some? then Join(r.value, arr[i]) else arr[i]))
  {
    HullGrows(arr, if i + 1 <= half then 0 else half, i);
  }

  lemma WholeIsHalves<T>(s: seq<T>, half: nat)
    requires half <= |s|
    ensures s[0..half] == s[..half] && s[half..|s|] == s[half..] && s[..half] + s[half..] == s
  {
  }

  /** The final truncation of both halves. */
  method CutBoth(l: VarKey, r: VarKey) returns (ldatum: VarKey, rdatum: VarKey)
    ensures ldatum == Cut(l, Max(PrefixOf(l), PrefixOf(r)))
    ensures rdatum == Cut(r, Max(PrefixOf(l), PrefixOf(r)))
  {
    var ll := NodePrefixLength(l);
    var lr := NodePrefixLength(r);
    ll := Max(ll, lr) + 1;
    ldatum := Truncate(l, ll);
    rdatum := Truncate(r, ll);
  }

  lemma SliceGrows<T>(s: seq<T>, lo: nat, i: nat)
    requires lo <= i < |s|
    ensures s[lo..i + 1] == s[lo..i] + [s[i]]
  {
  }

  function HullSoFar(arr: seq<VarKey>, lo: nat, hi: nat): Option<VarKey>
    requires lo <= hi <= |arr|
  {
    if lo == hi then None else Some(Hull(arr[lo..hi]))
  }

  lemma HullGrows(arr: seq<VarKey>, lo: nat, i: nat)
    requires lo <= i < |arr|
    ensures HullSoFar(arr, lo, i + 1) == Some(if lo < i then Join(Hull(arr[lo..i]), arr[i]) else arr[i])
  {
    SliceGrows(arr, lo, i);
    HullMore(arr[lo..i], arr[i]);
  }

  lemma HullMore(keys: seq<VarKey>, e: VarKey)
    ensures Hull(keys + [e]) == if keys == [] then e else Join(Hull(keys), e)
  {
    assert (keys + [e])[..|keys|] == keys;
  }

  // ------------------------------------------------------- when a cut loses values

  /** The shared cut length prolongs the key's upper bound, and the hull's lower bound
      does not make up for it. */
  predicate Derails(k: VarKey, h: VarKey, m: nat) {
    Prolongs(k, h, m) && !IsPrefix(h.lower, k.upper)
  }

  lemma NotDerailedAdmits(keys: seq<VarKey>, m: nat, i: nat, x: Bytes)
    requires i < |keys| && Ordered(keys[i]) && Covers(keys[i], x) && PrefixOf(Hull(keys)) <= m
    requires !Derails(keys[i], Hull(keys), m)
    ensures Ordered(Cut(Hull(keys), m)) && Admits(Cut(Hull(keys), m), x)
  {
    HullOf(keys, i);
    CutKeepsPrefix(Hull(keys), m);
    if Le(x, Hull(keys).upper) {
      ShortCutCovers(keys, m, i, x);
      CoversAdmits(Cut(Hull(keys), m), x);
    } else if Prolongs(keys[i], Hull(keys), m) {
      LowerAdmits(keys, m, i, x);
    } else {
      CutCovers(keys, m, i, x);
      CoversAdmits(Cut(Hull(keys), m), x);
    }
  }

  /** Where the bound is prolonged, the cut does not reach the lower bound. */
  lemma LowerUncut(k: VarKey, h: VarKey, m: nat)
    requires Prolongs(k, h, m)
    ensures IsPrefix(Cut(h, m).lower, k.upper) <==> IsPrefix(h.lower, k.upper)
    ensures |k.upper| < |Cut(h, m).upper| && IsPrefix(k.upper, Cut(h, m).upper)
  {
    assert |h.lower| <= m + 2 ==> Cut(h, m).lower == h.lower;
    CutExtends(k.upper, h, m);
  }

  lemma LowerAdmits(keys: seq<VarKey>, m: nat, i: nat, x: Bytes)
    requires i < |keys| && Ordered(keys[i]) && Covers(keys[i], x) && !Le(x, Hull(keys).upper)
    requires Prolongs(keys[i], Hull(keys), m) && IsPrefix(Hull(keys).lower, keys[i].upper)
    ensures Admits(Cut(Hull(keys), m), x)
  {
    var k, r := keys[i], Cut(Hull(keys), m);
    PastTheHull(keys, i, x);
    LowerUncut(k, Hull(keys), m);
    assert r.lower == k.upper[..|r.lower|] == x[..|r.lower|];
    PrefixIsLe(r.lower, x);
  }

  /** The cut lower bound stays at or below every key's upper bound. */
  lemma LowerBelowUpper(keys: seq<VarKey>, m: nat, i: nat)
    requires i < |keys| && Ordered(keys[i])
    ensures Le(Cut(Hull(keys), m).lower, keys[i].upper)
  {
    var h, k, r := Hull(keys), keys[i], Cut(Hull(keys), m);
    HullOf(keys, i);
    TakeIsPrefix(h.lower, |r.lower|);
    LeTransitive(r.lower, h.lower, k.lower);
    LeTransitive(r.lower, k.lower, k.upper);
  }

  function Maximal(n: nat): (s: Bytes)
    ensures |s| == n && MaximalFrom(s, 0)
  {
    seq(n, _ => 255)
  }

  /** A value that a prolonged cut no longer covers: the bound itself prolonged by
      maximal bytes. */
  lemma ProlongedPasses(keys: seq<VarKey>, m: nat, i: nat) returns (x: Bytes)
    requires i < |keys| && Ordered(keys[i]) && Prolongs(keys[i], Hull(keys), m)
    ensures Covers(keys[i], x) && IsPrefix(keys[i].upper, x)
    ensures !Le(x, Cut(Hull(keys), m).upper) && !IsPrefix(Cut(Hull(keys), m).upper, x)
  {
    var k, h, r := keys[i], Hull(keys), Cut(Hull(keys), m);
    var n := |k.upper|;
    LowerUncut(k, h, m);
    x := k.upper + Maximal(|r.upper| - n);
    assert IsPrefix(k.upper, x);
    PrefixIsLe(k.upper, x);
    LeTransitive(k.lower, k.upper, x);
    var j :| n <= j < |h.upper| && j < m + 2 && h.upper[j] != 255;
    CutExtends(k.upper, h, m);
    PastProlonged(k.upper, r.upper, x, j);
  }

  lemma PastProlonged(u: Bytes, r: Bytes, x: Bytes, j: nat)
    requires IsPrefix(u, r) && IsPrefix(u, x) && MaximalFrom(x, |u|) && |x| == |r|
    requires |u| <= j < |r| && r[j] != 255
    ensures !Le(x, r) && !IsPrefix(r, x)
  {
    ExtensionsShare(u, x, r);
    DifferenceBounds(x, r, j);
    CommonPrefixSymmetric(x, r);
    PrefixMeansCommon(r, x);
  }

  /** A value lost by a derailed cut. */
  lemma DerailedLoses(keys: seq<VarKey>, m: nat, i: nat) returns (x: Bytes)
    requires i < |keys| && Ordered(keys[i]) && Derails(keys[i], Hull(keys), m)
    ensures Covers(keys[i], x) && !Admits(Cut(Hull(keys), m), x)
  {
    x := ProlongedPasses(keys, m, i);
    LowerBelowUpper(keys, m, i);
    LowerUncut(keys[i], Hull(keys), m);
    LowerNotPrefix(Cut(Hull(keys), m).lower, keys[i].upper, x);
  }

  lemma PrefixesNest(a: Bytes, u: Bytes, x: Bytes)
    requires IsPrefix(a, x) && IsPrefix(u, x)
    ensures IsPrefix(a, u) || IsPrefix(u, a)
  {
    assert if |a| <= |u| then a == x[..|a|] == u[..|a|] else u == x[..|u|] == a[..|u|];
  }

  lemma LowerNotPrefix(a: Bytes, u: Bytes, x: Bytes)
    requires Le(a, u) && IsPrefix(u, x) && !IsPrefix(a, u)
    ensures !IsPrefix(a, x)
  {
    if IsPrefix(a, x) {
      PrefixesNest(a, u, x);
      PrefixMeansCommon(u, a);
      CompareFlips(a, u);
    }
  }

  /** One half of a split, cut at a length `m` no shorter than its own common prefix,
      turns away no query on any value that its keys cover exactly when none of its
      keys is derailed. */
  lemma SplitExact(keys: seq<VarKey>, m: nat)
    requires keys != [] && PrefixOf(Hull(keys)) <= m
    requires forall i :: 0 <= i < |keys| ==> Ordered(keys[i])
    ensures (forall i, x :: 0 <= i < |keys| && Covers(keys[i], x) ==> NeverTurnedAway(Cut(Hull(keys), m), x))
      <==> (forall i :: 0 <= i < |keys| ==> !Derails(keys[i], Hull(keys), m))
  {
    var r := Cut(Hull(keys), m);
    HullOf(keys, 0);
    CutKeepsPrefix(Hull(keys), m);
    forall i, x | 0 <= i < |keys| && Covers(keys[i], x) && !Derails(keys[i], Hull(keys), m)
      ensures NeverTurnedAway(r, x)
    {
      NotDerailedAdmits(keys, m, i, x);
      ConsistentExact(r, x);
    }
    forall i | 0 <= i < |keys| && Derails(keys[i], Hull(keys), m)
      ensures exists x :: Covers(keys[i], x) && !NeverTurnedAway(r, x)
    {
      var x := DerailedLoses(keys, m, i);
      ConsistentExact(r, x);
    }
  }

  /** It keeps the invariant that makes all keys above it complete exactly when none of
      its keys is prolonged. */
  lemma SplitCoversExact(keys: seq<VarKey>, m: nat)
    requires keys != [] && PrefixOf(Hull(keys)) <= m
    requires forall i :: 0 <= i < |keys| ==> Ordered(keys[i])
    ensures (forall i, x :: 0 <= i < |keys| && Covers(keys[i], x) ==> Covers(Cut(Hull(keys), m), x))
      <==> (forall i :: 0 <= i < |keys| ==> !Prolongs(keys[i], Hull(keys), m))
  {
    forall i, x | 0 <= i < |keys| && Covers(keys[i], x) && !Prolongs(keys[i], Hull(keys), m)
      ensures Covers(Cut(Hull(keys), m), x)
    {
      CutCovers(keys, m, i, x);
    }
    forall i | 0 <= i < |keys| && Prolongs(keys[i], Hull(keys), m)
      ensures exists x :: Covers(keys[i], x) && !Covers(Cut(Hull(keys), m), x)
    {
      var x := ProlongedPasses(keys, m, i);
    }
  }

  // ------------------------------------------------------------- a lost value

  const LOST: Bytes := [1, 2, 9, 9, 9]

  /** An internal entry over two stored values. */
  function Entry(a: Bytes, b: Bytes): Built { Merged([Datum(a), Datum(b)]) }

  lemma EntryBuilt(a: Bytes, b: Bytes)
    ensures WellBuilt(Entry(a, b)) && Below(b, Entry(a, b))
  {
    var parts := [Datum(a), Datum(b)];
    assert parts[1] in parts && Below(b, parts[1]);
  }

  lemma EntryKeys(a: Bytes, b: Bytes)
    ensures KeysOf([Datum(a), Datum(b)]) == [VarKey(a, a), VarKey(b, b)]
  {
    KeysOfAt([Datum(a), Datum(b)], 0);
    KeysOfAt([Datum(a), Datum(b)], 1);
  }

  lemma HullOfValues(a: Bytes, b: Bytes)
    requires Lt(a, b)
    ensures Hull([VarKey(a, a), VarKey(b, b)]) == VarKey(a, b)
  {
    assert [VarKey(a, a), VarKey(b, b)][..1] == [VarKey(a, a)];
  }

  lemma PairKey(a: Bytes, b: Bytes, n: nat)
    requires n < |a| && n < |b| && a[..n] == b[..n] && a[n] < b[n]
    ensures WellBuilt(Entry(a, b)) && Below(b, Entry(a, b))
    ensures KeyOf(Entry(a, b)) == VarKey(a[..Min(|a|, n + 2)], b[..Min(|b|, n + 2)])
  {
    CommonPrefixUnique(a, b, n);
    EntryBuilt(a, b);
    EntryKeys(a, b);
    HullOfValues(a, b);
  }

  lemma PairHull(k: VarKey, e: VarKey, n: nat, m: nat)
    requires n < |k.lower| && n < |e.lower| && k.lower[..n] == e.lower[..n] && k.lower[n] < e.lower[n]
    requires m <= |k.upper| && m < |e.upper| && k.upper[..m] == e.upper[..m] && (m < |k.upper| ==> k.upper[m] < e.upper[m])
    ensures Hull([k, e]) == VarKey(k.lower, e.upper)
  {
    CommonPrefixUnique(k.lower, e.lower, n);
    CommonPrefixUnique(k.upper, e.upper, m);
    assert [k, e][..1] == [k];
  }

  const K0 := VarKey([1, 1, 1], [1, 2, 9])
  const K1 := VarKey([1, 2, 9, 1, 1], [1, 2, 9, 1, 2])
  const LEFT_KEY := VarKey([1, 1, 1], [1, 2, 9, 1, 2])
  const K2 := VarKey([5, 5, 5, 5, 5, 1], [5, 5, 5, 5, 5, 2])
  const K3 := VarKey([5, 5, 5, 5, 5, 3], [5, 5, 5, 5, 5, 4])

  /** `K0` is the key over two stored values, one of them `LOST`. */
  lemma LostEntry()
    ensures WellBuilt(Entry([1, 1, 1], LOST)) && Below(LOST, Entry([1, 1, 1], LOST))
    ensures KeyOf(Entry([1, 1, 1], LOST)) == K0
  {
    var a: Bytes := [1, 1, 1];
    assert a[..1] == LOST[..1];
    PairKey(a, LOST, 1);
    assert a[..3] == a && LOST[..3] == K0.upper;
  }

  /** The key over two stored values that differ in their last byte only: it is not cut. */
  function Twin(prefix: Bytes, a: Byte, b: Byte): VarKey { VarKey(prefix + [a], prefix + [b]) }

  ghost predicate IsEntry(k: VarKey) {
    WellBuilt(Entry(k.lower, k.upper)) && KeyOf(Entry(k.lower, k.upper)) == k
  }

  lemma TwinIsEntry(prefix: Bytes, a: Byte, b: Byte)
    requires a < b
    ensures IsEntry(Twin(prefix, a, b))
  {
    var k, n := Twin(prefix, a, b), |prefix|;
    assert k.lower[..n] == prefix == k.upper[..n];
    PairKey(k.lower, k.upper, n);
    assert k.lower[..n + 1] == k.lower && k.upper[..n + 1] == k.upper;
  }

  /** The other three keys are such keys. */
  lemma OtherEntries()
    ensures IsEntry(K1) && IsEntry(K2) && IsEntry(K3)
  {
    TwinIsEntry([1, 2, 9, 1], 1, 2);
    TwinIsEntry([5, 5, 5, 5, 5], 1, 2);
    TwinIsEntry([5, 5, 5, 5, 5], 3, 4);
    TwinsAre();
  }

  lemma TwinsAre()
    ensures K1 == Twin([1, 2, 9, 1], 1, 2)
    ensures K2 == Twin([5, 5, 5, 5, 5], 1, 2) && K3 == Twin([5, 5, 5, 5, 5], 3, 4)
  {
  }

  lemma KeyBefore(a: VarKey, b: VarKey, n: nat)
    requires n < |a.lower| && n < |b.lower| && a.lower[..n] == b.lower[..n] && a.lower[n] < b.lower[n]
    ensures CompareKeys(a, b) < 0
  {
    CommonPrefixUnique(a.lower, b.lower, n);
  }

  lemma KeysSorted()
    ensures CompareKeys(K0, K1) <= 0 && CompareKeys(K1, K2) <= 0 && CompareKeys(K2, K3) <= 0
  {
    assert K0.lower[..1] == K1.lower[..1] && K2.lower[..5] == K3.lower[..5];
    KeyBefore(K0, K1, 1);
    KeyBefore(K1, K2, 0);
    KeyBefore(K2, K3, 5);
  }

  lemma LeftHalf()
    ensures Hull([K0, K1]) == VarKey(K0.lower, K1.upper) && PrefixOf(Hull([K0, K1])) == 1
  {
    PairHull(K0, K1, 1, 3);
    assert K0.lower[..1] == K1.upper[..1];
    CommonPrefixUnique(K0.lower, K1.upper, 1);
  }

  lemma RightHalf()
    ensures PrefixOf(Hull([K2, K3])) == 5
  {
    PairHull(K2, K3, 5, 5);
    assert K2.lower[..5] == K3.upper[..5];
    CommonPrefixUnique(K2.lower, K3.upper, 5);
  }

  lemma LeftCut()
    ensures Cut(Hull([K0, K1]), SharedCut([K0, K1], [K2, K3])) == LEFT_KEY
  {
    LeftHalf();
    RightHalf();
    CutShort(LEFT_KEY, 5);
  }

  lemma CutShort(k: VarKey, m: nat)
    requires |k.lower| <= m + 2 && |k.upper| <= m + 2
    ensures Cut(k, m) == k
  {
  }

  lemma TurnedAway(k: VarKey, query: Bytes, n: nat)
    requires n < |query| && n < |k.upper| && query[..n] == k.upper[..n] && query[n] > k.upper[n]
    requires |k.lower| > 1 && |query| > 1 && k.lower[1] != query[1]
    ensures !Consistent(k, query, Equal, false)
  {
    CommonPrefixUnique(query, k.upper, n);
  }

  lemma LeftTurnsAway()
    ensures !Consistent(LEFT_KEY, LOST, Equal, false)
  {
    assert LOST[..3] == LEFT_KEY.upper[..3];
    TurnedAway(LEFT_KEY, LOST, 3);
  }

  lemma FourInOrder(a: VarKey, b: VarKey, c: VarKey, d: VarKey)
    requires CompareKeys(a, b) <= 0 && CompareKeys(b, c) <= 0 && CompareKeys(c, d) <= 0
    ensures SortedOrder([a, b, c, d], [0, 1, 2, 3])
  {
  }

  lemma HalvesOfFour(a: VarKey, b: VarKey, c: VarKey, d: VarKey)
    ensures var arr := At([a, b, c, d], [0, 1, 2, 3]); arr[..2] == [a, b] && arr[2..] == [c, d]
  {
  }

  /** Splitting a page of four entries that are in order. */
  method SplitFour(a: VarKey, b: VarKey, c: VarKey, d: VarKey) returns (left: seq<nat>, ldatum: VarKey)
    requires CompareKeys(a, b) <= 0 && CompareKeys(b, c) <= 0 && CompareKeys(c, d) <= 0
    ensures left == [0, 1] && ldatum == Cut(Hull([a, b]), SharedCut([a, b], [c, d]))
  {
    FourInOrder(a, b, c, d);
    HalvesOfFour(a, b, c, d);
    var right, rdatum;
    left, right, ldatum, rdatum := PickSplit([a, b, c, d], [0, 1, 2, 3]);
    assert left == (left + right)[..2];
  }

  /** Splitting the page of the entries `K0` to `K3` puts `K0` in the left half, which
      then turns away the query for `LOST`, stored below `K0`. */
  method SplitLosesValue() returns (left: seq<nat>, ldatum: VarKey)
    ensures left == [0, 1] && !Consistent(ldatum, LOST, Equal, false)
  {
    KeysSorted();
    left, ldatum := SplitFour(K0, K1, K2, K3);
    LeftCut();
    LeftTurnsAway();
  }
}
