/** Building packed hstores in a buffer: entries grow from the front, string bytes
    from the place where the string area of the expected number of pairs starts. */
module HstorePack {
  import opened MachineWords
  import opened Optional
  import opened ByteStrings
  import opened HstoreLayout

  /** The memory with some bytes overwritten. */
  function Splice(mem: Octets, at: nat, s: Octets): (r: Octets)
    requires at + |s| <= |mem|
    ensures |r| == |mem|
  {
    mem[..at] + s + mem[at + |s|..]
  }

  lemma SpliceAppends(mem: Octets, from: nat, at: nat, s: Octets)
    requires from <= at && at + |s| <= |mem|
    ensures Splice(mem, at, s)[from..at + |s|] == mem[from..at] + s
  {
  }

  lemma SpliceOutside(mem: Octets, at: nat, s: Octets, from: nat, to: nat)
    requires at + |s| <= |mem| && from <= to <= |mem| && (to <= at || at + |s| <= from)
    ensures Splice(mem, at, s)[from..to] == mem[from..to]
  {
  }

  /** Writing behind the entries leaves the strings alone, and the other way round. */
  lemma EntryAppended(c: Codec, mem: Octets, e: seq<Entry>, base: nat, a: Octets, x: Entry)
    requires Good(c) && 4 * |e| + 4 <= base <= |mem| && Regions(c, e, base, a)(mem)
    ensures Regions(c, e + [x], base, a)(Splice(mem, 4 * |e|, c.put(x)))
  {
    var r := Splice(mem, 4 * |e|, c.put(x));
    SpliceOutside(mem, 4 * |e|, c.put(x), base, base + |a|);
    forall k | 0 <= k < |e + [x]|
      ensures r[4 * k..4 * k + 4] == c.put((e + [x])[k])
    {
      if k < |e| {
        SpliceOutside(mem, 4 * |e|, c.put(x), 4 * k, 4 * k + 4);
      } else {
        SpliceAppends(mem, 4 * k, 4 * k, c.put(x));
      }
    }
  }

  lemma StringAppended(c: Codec, mem: Octets, e: seq<Entry>, base: nat, a: Octets, s: Octets)
    requires base + |a| + |s| <= |mem| && Regions(c, e, base, a)(mem)
    ensures Regions(c, e, base, a + s)(Splice(mem, base + |a|, s))
  {
    SpliceAppends(mem, base, base + |a|, s);
    forall k | 0 <= k < |e|
      ensures Splice(mem, base + |a|, s)[4 * k..4 * k + 4] == c.put(e[k])
    {
      SpliceOutside(mem, base + |a|, s, 4 * k, 4 * k + 4);
    }
  }

  // ------------------------------------------------------ an hstore being built

  /** The first `i` pairs are in: entries at the front, strings from `base` on. */
  ghost predicate Built(c: Codec, mem: Octets, base: nat, ps: seq<Pair>, i: nat)
    requires i <= |ps|
  {
    Regions(c, Entries(ps, i), base, Area(ps, i))(mem)
  }

  /** `memcpy` and `memmove`. */
  method Write(a: array<int>, at: nat, s: Octets)
    requires at + |s| <= a.Length
    modifies a
    ensures a[..] == Splice(old(a[..]), at, s)
  {
    ghost var mem := a[..];
    for i := 0 to |s|
      invariant forall j :: 0 <= j < a.Length ==> a[j] == if at <= j < at + i then s[j - at] else mem[j]
    {
      a[at + i] := s[i];
    }
    assert a[..] == Splice(mem, at, s);
  }

  method PutEntry(c: Codec, a: array<int>, k: nat, x: Entry, ghost e: seq<Entry>, ghost base: nat, ghost area: Octets)
    requires Good(c) && |e| == k && 4 * k + 4 <= base <= a.Length && Regions(c, e, base, area)(a[..])
    modifies a
    ensures Regions(c, e + [x], base, area)(a[..])
  {
    EntryAppended(c, a[..], e, base, area, x);
    Write(a, 4 * k, c.put(x));
  }

  method PutString(c: Codec, a: array<int>, at: nat, s: Octets, ghost e: seq<Entry>, base: nat, ghost area: Octets)
    requires |area| == at && base + at + |s| <= a.Length && Regions(c, e, base, area)(a[..])
    modifies a
    ensures Regions(c, e, base, area + s)(a[..])
  {
    StringAppended(c, a[..], e, base, area, s);
    Write(a, base + at, s);
  }

  lemma BuiltMore(c: Codec, mem: Octets, base: nat, ps: seq<Pair>, i: nat)
    requires i < |ps|
    requires Regions(c, Entries(ps, i) + [KeyEntry(Start(ps, i), ps[i])] + [ValueEntry(Start(ps, i), ps[i])], base,
                     Area(ps, i) + Contents(ps[i]))(mem)
    ensures Built(c, mem, base, ps, i + 1)
  {
    OnePairMore(ps, i);
  }

  lemma OnePairMore(ps: seq<Pair>, i: nat)
    requires i < |ps|
    ensures Entries(ps, i + 1) == Entries(ps, i) + [KeyEntry(Start(ps, i), ps[i])] + [ValueEntry(Start(ps, i), ps[i])]
    ensures Area(ps, i + 1) == Area(ps, i) + Contents(ps[i])
  {
    var (e, k, v) := (Entries(ps, i), KeyEntry(Start(ps, i), ps[i]), ValueEntry(Start(ps, i), ps[i]));
    assert e + [k] + [v] == e + [k, v];
  }

  /** `HS_ADDITEM`: `ent` is the next entry, `pos` the next place in the string area. */
  method AddItem(c: Codec, a: array<int>, base: nat, ent: nat, pos: nat, p: Pair, ghost e: seq<Entry>, ghost area: Octets)
    returns (ent': nat, pos': nat)
    requires Good(c) && ent == |e| && pos == |area| && 4 * ent + 8 <= base && base + pos + |Contents(p)| <= a.Length
    requires Regions(c, e, base, area)(a[..])
    modifies a
    ensures ent' == ent + 2 && pos' == pos + |Contents(p)|
    ensures Regions(c, e + [KeyEntry(pos, p)] + [ValueEntry(pos, p)], base, area + Contents(p))(a[..])
  {
    PutString(c, a, pos, p.key, e, base, area);
    pos' := pos + |p.key|;
    PutEntry(c, a, ent, Entry(false, false, pos'), e, base, area + p.key);
    pos' := AddValue(c, a, base, ent + 1, pos', p.val, e + [KeyEntry(pos, p)], area + p.key);
    ent' := ent + 2;
    assert (area + p.key) + ValueBytes(p) == area + Contents(p);
  }

  /** The second half of it. */
  method AddValue(c: Codec, a: array<int>, base: nat, ent: nat, pos: nat, val: Option<Octets>, ghost e: seq<Entry>, ghost area: Octets)
    returns (pos': nat)
    requires Good(c) && ent == |e| && pos == |area| && 4 * ent + 4 <= base
    requires base + pos + (if val.Some? then |val.value| else 0) <= a.Length
    requires Regions(c, e, base, area)(a[..])
    modifies a
    ensures pos' == pos + if val.Some? then |val.value| else 0
    ensures Regions(c, e + [Entry(false, val.None?, pos')], base, area + (if val.Some? then val.value else []))(a[..])
  {
    pos' := pos;
    if val.None? {
      PutEntry(c, a, ent, Entry(false, true, pos'), e, base, area);
      assert area + [] == area;
    } else {
      PutString(c, a, pos', val.value, e, base, area);
      pos' := pos' + |val.value|;
      PutEntry(c, a, ent, Entry(false, false, pos'), e, base, area + val.value);
    }
  }

  /** `HS_COPYITEM`: the bytes of the key and the value are copied in one go. */
  method CopyItem(c: Codec, a: array<int>, base: nat, ent: nat, pos: nat, src: Octets, klen: nat, vlen: nat, vnull: bool,
                  ghost p: Pair, ghost e: seq<Entry>, ghost area: Octets) returns (ent': nat, pos': nat)
    requires Good(c) && ent == |e| && pos == |area| && 4 * ent + 8 <= base && base + pos + |Contents(p)| <= a.Length
    requires Regions(c, e, base, area)(a[..])
    requires src == Contents(p) && klen == |p.key| && vlen == |ValueBytes(p)| && vnull == p.val.None?
    modifies a
    ensures ent' == ent + 2 && pos' == pos + |Contents(p)|
    ensures Regions(c, e + [KeyEntry(pos, p)] + [ValueEntry(pos, p)], base, area + Contents(p))(a[..])
  {
    PutString(c, a, pos, src, e, base, area);
    pos' := pos + klen + vlen;
    PutEntry(c, a, ent, Entry(false, false, pos' - vlen), e, base, area + src);
    PutEntry(c, a, ent + 1, Entry(false, vnull, pos'), e + [KeyEntry(pos, p)], base, area + src);
    ent' := ent + 2;
  }

  // -------------------------------------------------------------------- finishing

  /** Flagging the first entry in place. */
  lemma FlagWritten(c: Codec, mem: Octets, e: seq<Entry>, base: nat, a: Octets)
    requires Good(c) && e != [] && 4 <= |mem| && Regions(c, e, base, a)(mem)
    ensures Regions(c, Flagged(e), base, a)(Splice(mem, 0, c.put(e[0].(first := true))))
  {
    var s := c.put(e[0].(first := true));
    SpliceOutside(mem, 0, s, base, base + |a|);
    forall k | 0 <= k < |e|
      ensures Splice(mem, 0, s)[4 * k..4 * k + 4] == c.put(Flagged(e)[k])
    {
      if k == 0 {
        SpliceAppends(mem, 0, 0, s);
      } else {
        SpliceOutside(mem, 0, s, 4 * k, 4 * k + 4);
      }
    }
  }

  /** Moving the strings down to right behind the entries. */
  lemma StringsMoved(c: Codec, mem: Octets, e: seq<Entry>, base: nat, a: Octets)
    requires 4 * |e| + |a| <= |mem| && Regions(c, e, base, a)(mem)
    ensures Regions(c, e, 4 * |e|, a)(Splice(mem, 4 * |e|, a))
  {
    SpliceAppends(mem, 4 * |e|, 4 * |e|, a);
    forall k | 0 <= k < |e|
      ensures Splice(mem, 4 * |e|, a)[4 * k..4 * k + 4] == c.put(e[k])
    {
      SpliceOutside(mem, 4 * |e|, a, 4 * k, 4 * k + 4);
    }
  }

  method FlagFirst(c: Codec, a: array<int>, ghost e: seq<Entry>, ghost base: nat, ghost area: Octets)
    requires Good(c) && e != [] && e[0].endpos < TWO_30 && 4 <= a.Length && Regions(c, e, base, area)(a[..])
    modifies a
    ensures Regions(c, Flagged(e), base, area)(a[..])
  {
    FlagWritten(c, a[..], e, base, area);
    EntryRead(c, a[..], e, base, area, 0);
    assert a[..][0..4] == a[0..4];
    var x := c.get(a[0..4]);
    Write(a, 0, c.put(x.(first := true)));
  }

  method MoveStrings(c: Codec, a: array<int>, to: nat, from: nat, len: nat, ghost e: seq<Entry>, ghost area: Octets)
    requires to == 4 * |e| <= from && len == |area| && from + len <= a.Length && Regions(c, e, from, area)(a[..])
    modifies a
    ensures Regions(c, e, to, area)(a[..])
  {
    StringsMoved(c, a[..], e, from, area);
    Fits(c, e, from, area, a[..]);
    assert a[..][from..from + len] == a[from..from + len];
    Write(a, to, a[from..from + len]);
  }

  /** `HS_FINALIZE`: flags the first entry and, if fewer pairs were written than
      expected, moves the string area down. */
  method Finalize(c: Codec, a: array<int>, cap: nat, count: nat, pos: nat, ghost e: seq<Entry>, ghost area: Octets)
    requires Good(c) && |e| == 2 * count && |area| == pos && (forall x :: x in e ==> x.endpos < TWO_30)
    requires Regions(c, e, 8 * cap, area)(a[..])
    modifies a
    ensures Regions(c, Flagged(e), 8 * count, area)(a[..])
  {
    Fits(c, e, 8 * cap, area, a[..]);
    if count > 0 {
      FlagFirst(c, a, e, 8 * cap, area);
    }
    if count != cap {
      MoveStrings(c, a, 8 * count, 8 * cap, pos, Flagged(e), area);
    }
  }

  // -------------------------------------------------------------- whole hstores

  /** An hstore value: what follows its header, and the header's two fields. */
  class HStore {
    const data: array<int>
    var count: nat
    var varsize: nat

    constructor (size: nat, count: nat)
      requires size >= HEADER
      ensures fresh(data) && data.Length == size - HEADER && this.count == count && varsize == size
    {
      data := new int[size - HEADER];
      this.count, varsize := count, size;
    }

    /** It packs the pairs, and its size says so. */
    ghost predicate Packs(c: Codec, ps: seq<Pair>)
      reads this, data
    {
      Holds(c, data[..], ps) && count == |ps| && varsize == DataSize(|ps|, Size(ps))
    }
  }

  /** `hstorePairs`; nothing if the memory cannot be had. */
  method PackPairs(c: Codec, ps: seq<Pair>, buflen: nat) returns (out: Option<HStore>)
    requires Good(c) && buflen == Size(ps)
    ensures out.Some? <==> DataSize(|ps|, Size(ps)) <= MAX_ALLOC
    ensures out.Some? ==> fresh(out.value) && fresh(out.value.data) && out.value.Packs(c, ps)
  {
    var size := DataSize(|ps|, buflen);
    if size > MAX_ALLOC {
      return None;
    }
    var hs := new HStore(size, |ps|);
    var base, ent, pos := 8 * |ps|, 0, 0;
    for i := 0 to |ps|
      invariant ent == 2 * i && pos == Start(ps, i) && hs.count == |ps| && hs.varsize == size
      invariant Built(c, hs.data[..], base, ps, i)
    {
      EntriesAt(ps, i, |ps|);
      ent, pos := AddItem(c, hs.data, base, ent, pos, ps[i], Entries(ps, i), Area(ps, i));
      BuiltMore(c, hs.data[..], base, ps, i);
    }
    EndsFit(ps, |ps|);
    Finalize(c, hs.data, |ps|, |ps|, pos, Entries(ps, |ps|), Area(ps, |ps|));
    return Some(hs);
  }

  lemma {:induction false} EndsFit(ps: seq<Pair>, i: nat)
    requires i <= |ps|
    ensures forall x :: x in Entries(ps, i) ==> x.endpos <= Start(ps, i)
  {
    if i == 0 {
    } else {
      EndsFit(ps, i - 1);
    }
  }
}
