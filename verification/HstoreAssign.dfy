/** Assignment to a subscript: one pair merged into a packed hstore. */
module HstoreAssign {
  import opened MachineWords
  import opened Optional
  import opened ByteStrings
  import opened HstoreLayout
  import opened HstorePack

  /** The sorted pairs with one put in its place, or over the one with its key. */
  function Updated(ps: seq<Pair>, p: Pair): seq<Pair> {
    if ps == [] then [p]
    else if KeyCompare(ps[0].key, p.key) < 0 then [ps[0]] + Updated(ps[1..], p)
    else if KeyCompare(ps[0].key, p.key) == 0 then [p] + ps[1..]
    else [p] + ps
  }

  lemma {:induction false} UpdatedKeys(ps: seq<Pair>, p: Pair, q: Pair)
    requires q in Updated(ps, p)
    ensures q == p || q in ps
  {
    if ps != [] && KeyCompare(ps[0].key, p.key) < 0 && q != ps[0] {
      assert q in Updated(ps[1..], p);
      UpdatedKeys(ps[1..], p, q);
    }
  }

  lemma {:induction false} UpdatedSorted(ps: seq<Pair>, p: Pair)
    requires Sorted(ps)
    ensures Sorted(Updated(ps, p))
  {
    if ps == [] {
    } else if KeyCompare(ps[0].key, p.key) < 0 {
      var rest := Updated(ps[1..], p);
      UpdatedSorted(ps[1..], p);
      forall j | 0 <= j < |rest|
        ensures KeyLess(ps[0].key, rest[j].key)
      {
        UpdatedKeys(ps[1..], p, rest[j]);
      }
    } else {
      KeyOrder(ps[0].key, p.key);
      KeyOrder(p.key, ps[0].key);
      forall j | 1 <= j < |ps|
        ensures KeyLess(p.key, ps[j].key)
      {
        if KeyCompare(ps[0].key, p.key) != 0 {
          KeyLessTransitive(p.key, ps[0].key, ps[j].key);
        }
      }
    }
  }

  lemma {:induction false} MapFromFront(p: Pair, ps: seq<Pair>)
    requires Sorted([p] + ps)
    ensures MapOf([p] + ps) == MapOf(ps)[p.key := p.val]
  {
    if ps == [] {
      assert [p] + ps == [p];
    } else {
      var n := |ps| - 1;
      var all := [p] + ps;
      assert all[..n + 1] == [p] + ps[..n] && all[n + 1] == ps[n];
      MapFromFront(p, ps[..n]);
      KeyOrder(all[0].key, all[n + 1].key);
    }
  }

  lemma SortedTail(p: Pair, ps: seq<Pair>)
    requires Sorted([p] + ps)
    ensures Sorted(ps)
  {
    forall i, j | 0 <= i < j < |ps|
      ensures KeyLess(ps[i].key, ps[j].key)
    {
      assert KeyLess(([p] + ps)[i + 1].key, ([p] + ps)[j + 1].key);
    }
  }

  lemma UpdatesSwap(m: map<Octets, Option<Octets>>, p: Pair, q: Pair)
    requires p.key != q.key
    ensures m[p.key := p.val][q.key := q.val] == m[q.key := q.val][p.key := p.val]
  {
  }

  /** The map is the old map updated at the key. */
  lemma {:induction false} UpdatedMap(ps: seq<Pair>, p: Pair)
    requires Sorted(ps)
    ensures MapOf(Updated(ps, p)) == MapOf(ps)[p.key := p.val]
  {
    UpdatedSorted(ps, p);
    if ps == [] {
    } else {
      assert ps == [ps[0]] + ps[1..];
      SortedTail(ps[0], ps[1..]);
      MapFromFront(ps[0], ps[1..]);
      KeyOrder(ps[0].key, p.key);
      if KeyCompare(ps[0].key, p.key) < 0 {
        MapFromFront(ps[0], Updated(ps[1..], p));
        UpdatedMap(ps[1..], p);
        UpdatesSwap(MapOf(ps[1..]), ps[0], p);
      } else if KeyCompare(ps[0].key, p.key) == 0 {
        MapFromFront(p, ps[1..]);
      } else {
        MapFromFront(p, ps);
      }
    }
  }

  /** An error is raised, or the result is built. */
  datatype Outcome = NullSubscript | TooLong | Done(out: HStore)

  /** `hstore_subscript_assign`.  The container may be null; then the result is a
      single pair. */
  method Assign(c: Codec, hs: Option<HStore>, ghost ps: seq<Pair>, subscript: Option<Octets>, value: Option<Octets>)
    returns (r: Outcome)
    requires Good(c) && (if hs.Some? then hs.value.Packs(c, ps) && Sorted(ps) else ps == [])
    ensures r.NullSubscript? <==> subscript.None?
    ensures r.Done? ==> fresh(r.out) && fresh(r.out.data) && r.out.Packs(c, Updated(ps, Pair(subscript.value, value)))
    ensures r.TooLong? ==> Large(ps, Pair(subscript.value, value))
  {
    if subscript.None? {
      return NullSubscript;
    }
    var p := Pair(subscript.value, value);
    if |p.key| > MAX_LEN || |ValueBytes(p)| > MAX_LEN {
      return TooLong;
    }
    if hs.None? {
      SizeFront(p, []);
      assert [p] + [] == [p];
      var one := PackPairs(c, [p], |p.key| + |ValueBytes(p)|);
      return if one.Some? then Done(one.value) else TooLong;
    }
    r := Merge(c, hs.value, ps, p);
  }

  /** More memory would be asked for than can be had. */
  predicate Large(ps: seq<Pair>, p: Pair) {
    DataSize(|ps| + 1, DataSize(|ps|, Size(ps)) + |Contents(p)|) > MAX_ALLOC
  }

  /** The new pair is the next to be written. */
  method AddNew(c: Codec, p: Pair, a: array<int>, base: nat, ent: nat, pos: nat, ghost qs: seq<Pair>, ghost count: nat)
    returns (ent': nat, pos': nat)
    requires Good(c) && count < |qs| && qs[count] == p && ent == 2 * count && pos == Start(qs, count)
    requires 8 * |qs| <= base && base + Size(qs) <= a.Length && Built(c, a[..], base, qs, count)
    modifies a
    ensures ent' == 2 * (count + 1) && pos' == Start(qs, count + 1) && Built(c, a[..], base, qs, count + 1)
  {
    EntriesAt(qs, count, |qs|);
    ent', pos' := AddItem(c, a, base, ent, pos, p, Entries(qs, count), Area(qs, count));
    BuiltMore(c, a[..], base, qs, count);
  }

  /** A pair of the old hstore is. */
  method CopyOld(c: Codec, mem: Octets, n: nat, i: nat, ghost ps: seq<Pair>, a: array<int>, base: nat, ent: nat, pos: nat,
                 ghost qs: seq<Pair>, ghost count: nat) returns (ent': nat, pos': nat)
    requires Good(c) && n == |ps| && Reads(c, mem, ps) && i < n
    requires count < |qs| && qs[count] == ps[i] && ent == 2 * count && pos == Start(qs, count)
    requires 8 * |qs| <= base && base + Size(qs) <= a.Length && Built(c, a[..], base, qs, count)
    modifies a
    ensures ent' == 2 * (count + 1) && pos' == Start(qs, count + 1) && Built(c, a[..], base, qs, count + 1)
  {
    EntriesAt(qs, count, |qs|);
    ReadsAt(c, mem, ps, i);
    var key, val := StringAt(c, mem, n, 2 * i), StringAt(c, mem, n, 2 * i + 1);
    ent', pos' := CopyItem(c, a, base, ent, pos, key + val, |key|, |val|, EntryAt(c, mem, 2 * i + 1).isnull,
                           ps[i], Entries(qs, count), Area(qs, count));
    BuiltMore(c, a[..], base, qs, count);
  }

  /** Which pair comes first: negative for the old one, zero if the new one replaces it. */
  method Difference(c: Codec, mem: Octets, n: nat, ghost ps: seq<Pair>, p: Pair, s1: nat, s2: nat) returns (difference: int)
    requires Good(c) && n == |ps| && Reads(c, mem, ps) && s1 <= n && s2 <= 1 && (s1 < n || s2 < 1)
    ensures difference < 0 <==> s1 < n && (s2 == 1 || KeyCompare(ps[s1].key, p.key) < 0)
    ensures difference == 0 <==> s1 < n && s2 == 0 && KeyCompare(ps[s1].key, p.key) == 0
  {
    if s1 >= n {
      difference := 1;
    } else if s2 >= 1 {
      difference := -1;
    } else {
      ReadsAt(c, mem, ps, s1);
      difference := KeyCompare(StringAt(c, mem, n, 2 * s1), p.key);
    }
  }

  /** One iteration of the merge: writes pair `count` of the result. */
  method MergeOne(c: Codec, mem: Octets, n: nat, ghost ps: seq<Pair>, p: Pair, a: array<int>, base: nat, ghost qs: seq<Pair>,
                  s1: nat, s2: nat, ent: nat, pos: nat, ghost count: nat) returns (s1': nat, s2': nat, ent': nat, pos': nat)
    requires Good(c) && n == |ps| && Reads(c, mem, ps) && 8 * |qs| <= base && base + Size(qs) <= a.Length
    requires s1 <= n && s2 <= 1 && (s1 < n || s2 < 1) && Remains(ps, p, s1, s2, qs, count)
    requires ent == 2 * count && pos == Start(qs, count) && Built(c, a[..], base, qs, count)
    modifies a
    ensures s1 <= s1' <= n && s2 <= s2' <= 1 && s1 + s2 < s1' + s2' && Remains(ps, p, s1', s2', qs, count + 1)
    ensures ent' == 2 * (count + 1) && pos' == Start(qs, count + 1) && Built(c, a[..], base, qs, count + 1)
  {
    RestUnfolds(ps, p, s1, s2, qs, count);
    s1', s2' := s1, s2;
    var difference := Difference(c, mem, n, ps, p, s1, s2);
    if difference >= 0 {
      ent', pos' := AddNew(c, p, a, base, ent, pos, qs, count);
      s2' := s2 + 1;
      if difference == 0 {
        s1' := s1 + 1;
      }
    } else {
      ent', pos' := CopyOld(c, mem, n, s1, ps, a, base, ent, pos, qs, count);
      s1' := s1 + 1;
    }
  }

  /** The merge loop: `mem` is the old hstore's memory, `a` the new one's. */
  method MergeInto(c: Codec, mem: Octets, n: nat, ghost ps: seq<Pair>, p: Pair, a: array<int>, base: nat, ghost qs: seq<Pair>)
    returns (count: nat, pos: nat)
    requires Good(c) && n == |ps| && Reads(c, mem, ps) && qs == Updated(ps, p)
    requires 8 * |qs| <= base && base + Size(qs) <= a.Length
    modifies a
    ensures count == |qs| && pos == Size(qs) && Built(c, a[..], base, qs, count)
  {
    var s1, s2, ent := 0, 0, 0;
    count, pos := 0, 0;
    NothingBuilt(c, a[..], base, qs);
    while s1 < n || s2 < 1
      invariant s1 <= n && s2 <= 1 && Remains(ps, p, s1, s2, qs, count)
      invariant ent == 2 * count && pos == Start(qs, count) && Built(c, a[..], base, qs, count)
      decreases n + 1 - s1 - s2
    {
      s1, s2, ent, pos := MergeOne(c, mem, n, ps, p, a, base, qs, s1, s2, ent, pos, count);
      count := count + 1;
    }
  }

  lemma NothingBuilt(c: Codec, mem: Octets, base: nat, qs: seq<Pair>)
    requires base <= |mem|
    ensures Built(c, mem, base, qs, 0)
  {
  }

  method Merge(c: Codec, hs: HStore, ghost ps: seq<Pair>, p: Pair) returns (r: Outcome)
    requires Good(c) && hs.Packs(c, ps) && Sorted(ps)
    ensures r.Done? || r.TooLong?
    ensures r.TooLong? <==> Large(ps, p)
    ensures r.Done? ==> fresh(r.out) && fresh(r.out.data) && r.out.Packs(c, Updated(ps, p))
  {
    var n := hs.count;
    var size := DataSize(n + 1, hs.varsize + |p.key| + |ValueBytes(p)|);
    if size > MAX_ALLOC {
      return TooLong;
    }
    var out := new HStore(size, n + 1);
    ghost var qs := Updated(ps, p);
    UpdatedSize(ps, p);
    HeldReads(c, hs.data[..], ps);
    var count, pos := MergeInto(c, hs.data[..], n, ps, p, out.data, 8 * (n + 1), qs);
    EndsFit(qs, |qs|);
    Finalize(c, out.data, n + 1, count, pos, Entries(qs, |qs|), Area(qs, |qs|));
    out.count := count;
    out.varsize := DataSize(count, pos);
    return Done(out);
  }

  /** What the loop has still to write. */
  function Rest(ps: seq<Pair>, p: Pair, s1: nat, s2: nat): seq<Pair>
    requires s1 <= |ps|
  {
    if s2 == 0 then Updated(ps[s1..], p) else ps[s1..]
  }

  predicate Remains(ps: seq<Pair>, p: Pair, s1: nat, s2: nat, qs: seq<Pair>, count: nat)
    requires s1 <= |ps|
  {
    count <= |qs| && Rest(ps, p, s1, s2) == qs[count..]
  }

  /** The pair that comes next, and what then remains. */
  lemma RestUnfolds(ps: seq<Pair>, p: Pair, s1: nat, s2: nat, qs: seq<Pair>, count: nat)
    requires s1 <= |ps| && s2 <= 1 && (s1 < |ps| || s2 < 1) && Remains(ps, p, s1, s2, qs, count)
    ensures count < |qs|
    ensures s1 < |ps| && (s2 == 1 || KeyCompare(ps[s1].key, p.key) < 0) ==>
              qs[count] == ps[s1] && Remains(ps, p, s1 + 1, s2, qs, count + 1)
    ensures s2 == 0 && (s1 == |ps| || KeyCompare(ps[s1].key, p.key) > 0) ==>
              qs[count] == p && Remains(ps, p, s1, 1, qs, count + 1)
    ensures s2 == 0 && s1 < |ps| && KeyCompare(ps[s1].key, p.key) == 0 ==>
              qs[count] == p && Remains(ps, p, s1 + 1, 1, qs, count + 1)
  {
    var rest := qs[count..];
    assert rest != [];
    assert qs[count] == rest[0] && qs[count + 1..] == rest[1..];
    if s1 < |ps| {
      assert ps[s1..][1..] == ps[s1 + 1..];
    }
  }

  lemma {:induction false} StartShift(x: Pair, ps: seq<Pair>, i: nat)
    requires i <= |ps|
    ensures Start([x] + ps, i + 1) == |x.key| + |ValueBytes(x)| + Start(ps, i)
  {
    if i == 0 {
    } else {
      StartShift(x, ps, i - 1);
      assert ([x] + ps)[i] == ps[i - 1];
    }
  }

  lemma SizeFront(x: Pair, ps: seq<Pair>)
    ensures Size([x] + ps) == |x.key| + |ValueBytes(x)| + Size(ps)
  {
    StartShift(x, ps, |ps|);
  }

  lemma {:induction false} UpdatedSize(ps: seq<Pair>, p: Pair)
    ensures |Updated(ps, p)| <= |ps| + 1 && Size(Updated(ps, p)) <= Size(ps) + |p.key| + |ValueBytes(p)|
  {
    if ps == [] {
      assert [p] == [p] + [];
      SizeFront(p, []);
    } else {
      assert ps == [ps[0]] + ps[1..];
      SizeFront(ps[0], ps[1..]);
      UpdatedSize(ps[1..], p);
      SizeFront(ps[0], Updated(ps[1..], p));
      SizeFront(p, ps[1..]);
      SizeFront(p, ps);
    }
  }
}
