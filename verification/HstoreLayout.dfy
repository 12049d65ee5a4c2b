/** The packed form of an hstore: an array of 32-bit entries, two for each pair,
    followed by the bytes of the keys and values.  An entry holds the place where its
    string ends, and two flags. */
module HstoreLayout {
  import opened MachineWords
  import opened Optional
  import opened ByteStrings

  datatype Pair = Pair(key: Octets, val: Option<Octets>)

  // ------------------------------------------------------------------- entries

  /** An entry: the end of its string and the flags `HENTRY_ISFIRST` and
      `HENTRY_ISNULL`. */
  datatype Entry = Entry(first: bool, isnull: bool, endpos: nat)

  /** How an entry is laid out in four bytes. */
  datatype Codec = Codec(put: Entry -> Octets, get: Octets -> Entry)

  ghost predicate Good(c: Codec) {
    forall e {:trigger c.put(e)} :: |c.put(e)| == 4 && (e.endpos < TWO_30 ==> c.get(c.put(e)) == e)
  }

  /** Entry `k` of the memory. */
  function EntryAt(c: Codec, mem: Octets, k: nat): Entry
    requires 4 * k + 4 <= |mem|
  {
    c.get(mem[4 * k..4 * k + 4])
  }

  /** `HSE_OFF`: where the string of entry `k` starts. */
  function Offset(c: Codec, mem: Octets, k: nat): nat
    requires 4 * k + 4 <= |mem|
  {
    if k == 0 || EntryAt(c, mem, k).first then 0 else EntryAt(c, mem, k - 1).endpos
  }

  /** The string of entry `k` lies in the string area behind the entries of `count`
      pairs. */
  predicate InArea(c: Codec, mem: Octets, count: nat, k: nat) {
    && k < 2 * count && 8 * count <= |mem|
    && Offset(c, mem, k) <= EntryAt(c, mem, k).endpos <= |mem| - 8 * count
  }

  /** The bytes of entry `k` (`HSTORE_KEY` and `HSTORE_KEYLEN`, or those of a value). */
  function StringAt(c: Codec, mem: Octets, count: nat, k: nat): Octets
    requires InArea(c, mem, count, k)
  {
    mem[8 * count + Offset(c, mem, k)..8 * count + EntryAt(c, mem, k).endpos]
  }

  predicate Readable(c: Codec, mem: Octets, count: nat) {
    forall i :: 0 <= i < count ==> InArea(c, mem, count, 2 * i) && InArea(c, mem, count, 2 * i + 1)
  }

  /** Pair `i` as the accessor macros read it. */
  function PairAt(c: Codec, mem: Octets, count: nat, i: nat): Pair
    requires InArea(c, mem, count, 2 * i) && InArea(c, mem, count, 2 * i + 1)
  {
    Pair(StringAt(c, mem, count, 2 * i),
         if EntryAt(c, mem, 2 * i + 1).isnull then None else Some(StringAt(c, mem, count, 2 * i + 1)))
  }

  /** The pairs that a packed hstore stands for. */
  function Decode(c: Codec, mem: Octets, count: nat): (ps: seq<Pair>)
    requires Readable(c, mem, count)
    ensures |ps| == count
  {
    seq(count, i requires 0 <= i < count => PairAt(c, mem, count, i))
  }

  // ------------------------------------------------------------------ encoding

  function ValueBytes(p: Pair): Octets { if p.val.Some? then p.val.value else [] }

  function Contents(p: Pair): Octets { p.key + ValueBytes(p) }

  /** Where the strings of pair `i` start. */
  function Start(ps: seq<Pair>, i: nat): nat
    requires i <= |ps|
  {
    if i == 0 then 0 else Start(ps, i - 1) + |ps[i - 1].key| + |ValueBytes(ps[i - 1])|
  }

  /** The strings of the first `i` pairs. */
  function Area(ps: seq<Pair>, i: nat): (a: Octets)
    requires i <= |ps|
    ensures |a| == Start(ps, i)
  {
    if i == 0 then [] else Area(ps, i - 1) + Contents(ps[i - 1])
  }

  /** The entries of a pair whose strings start at `at`. */
  function KeyEntry(at: nat, p: Pair): Entry { Entry(false, false, at + |p.key|) }

  function ValueEntry(at: nat, p: Pair): Entry { Entry(false, p.val.None?, at + |p.key| + |ValueBytes(p)|) }

  /** The entries of the first `i` pairs, without the flag of the first. */
  function Entries(ps: seq<Pair>, i: nat): (e: seq<Entry>)
    requires i <= |ps|
    ensures |e| == 2 * i
  {
    if i == 0 then []
    else Entries(ps, i - 1) + [KeyEntry(Start(ps, i - 1), ps[i - 1]), ValueEntry(Start(ps, i - 1), ps[i - 1])]
  }

  /** The entries with that flag. */
  function Flagged(s: seq<Entry>): seq<Entry> {
    if s == [] then [] else s[0 := s[0].(first := true)]
  }

  /** The memory starts with the entries `e`, and has the strings `a` at `base`. */
  ghost predicate InPlace(c: Codec, e: seq<Entry>, base: nat, a: Octets, mem: Octets) {
    && 4 * |e| <= base && base + |a| <= |mem| && mem[base..base + |a|] == a
    && forall k {:trigger e[k]} :: 0 <= k < |e| ==> mem[4 * k..4 * k + 4] == c.put(e[k])
  }

  ghost function Regions(c: Codec, e: seq<Entry>, base: nat, a: Octets): Octets -> bool {
    (mem: Octets) => InPlace(c, e, base, a, mem)
  }

  lemma Fits(c: Codec, e: seq<Entry>, base: nat, a: Octets, mem: Octets)
    requires Regions(c, e, base, a)(mem)
    ensures 4 * |e| <= base && base + |a| <= |mem| && mem[base..base + |a|] == a
  {
  }

  const HEADER: nat := 8

  /** `HSTORE_MAX_KEY_LEN` and `HSTORE_MAX_VALUE_LEN`. */
  const MAX_LEN: nat := 0x3FFF_FFFF

  /** `CALCDATASIZE`. */
  function DataSize(count: nat, lenstr: nat): nat { 8 * count + HEADER + lenstr }

  function Size(ps: seq<Pair>): nat { Start(ps, |ps|) }

  /** The memory holds the packed form of the pairs. */
  ghost predicate Holds(c: Codec, mem: Octets, ps: seq<Pair>) {
    Size(ps) < TWO_30 && Regions(c, Flagged(Entries(ps, |ps|)), 8 * |ps|, Area(ps, |ps|))(mem)
  }

  /** What lies where. */
  lemma {:induction false} EntriesAt(ps: seq<Pair>, i: nat, n: nat)
    requires i < n <= |ps|
    ensures Entries(ps, n)[2 * i] == KeyEntry(Start(ps, i), ps[i])
    ensures Entries(ps, n)[2 * i + 1] == ValueEntry(Start(ps, i), ps[i])
    ensures Start(ps, i + 1) <= Start(ps, n)
  {
    if i == n - 1 {
    } else {
      EntriesAt(ps, i, n - 1);
    }
  }

  lemma {:induction false} AreaAt(ps: seq<Pair>, i: nat, n: nat)
    requires i < n <= |ps|
    ensures Start(ps, i + 1) <= Start(ps, n)
    ensures Area(ps, n)[Start(ps, i)..Start(ps, i + 1)] == Contents(ps[i])
  {
    assert Area(ps, n)[0..Start(ps, n - 1)] == Area(ps, n - 1);
    if i == n - 1 {
    } else {
      AreaAt(ps, i, n - 1);
      SliceOfSlice(Area(ps, n), 0, Start(ps, n - 1), Start(ps, i), Start(ps, i + 1));
    }
  }

  // ------------------------------------------------------------ reading back

  lemma EntryRead(c: Codec, mem: Octets, e: seq<Entry>, base: nat, a: Octets, k: nat)
    requires Good(c) && Regions(c, e, base, a)(mem) && k < |e| && e[k].endpos < TWO_30
    ensures 4 * k + 4 <= |mem|
    ensures EntryAt(c, mem, k) == e[k]
  {
    assert c.get(c.put(e[k])) == e[k];
  }

  lemma FlaggedAt(ps: seq<Pair>, i: nat)
    requires i < |ps|
    ensures Flagged(Entries(ps, |ps|))[2 * i] == KeyEntry(Start(ps, i), ps[i]).(first := i == 0)
    ensures Flagged(Entries(ps, |ps|))[2 * i + 1] == ValueEntry(Start(ps, i), ps[i])
    ensures Start(ps, i + 1) <= Size(ps)
    ensures i > 0 ==> Flagged(Entries(ps, |ps|))[2 * i - 1].endpos == Start(ps, i)
  {
    EntriesAt(ps, i, |ps|);
    if i > 0 {
      EntriesAt(ps, i - 1, |ps|);
    }
  }

  lemma PartOfArea(ps: seq<Pair>, i: nat)
    requires i < |ps|
    ensures Start(ps, i) + |ps[i].key| + |ValueBytes(ps[i])| <= |Area(ps, |ps|)|
    ensures Area(ps, |ps|)[Start(ps, i)..Start(ps, i) + |ps[i].key| + |ValueBytes(ps[i])|] == ps[i].key + ValueBytes(ps[i])
  {
    AreaAt(ps, i, |ps|);
    assert Start(ps, i + 1) == Start(ps, i) + |ps[i].key| + |ValueBytes(ps[i])|;
  }

  /** The accessors read a pair whose entries and strings are in place. */
  lemma Accessors(c: Codec, mem: Octets, e: seq<Entry>, count: nat, a: Octets, i: nat, at: nat, p: Pair)
    requires Good(c) && i < count && |e| == 2 * count && Regions(c, e, 8 * count, a)(mem) && |a| < TWO_30
    requires e[2 * i] == KeyEntry(at, p).(first := i == 0) && e[2 * i + 1] == ValueEntry(at, p)
    requires if i == 0 then at == 0 else e[2 * i - 1].endpos == at
    requires at + |p.key| + |ValueBytes(p)| <= |a| && a[at..at + |p.key| + |ValueBytes(p)|] == p.key + ValueBytes(p)
    ensures InArea(c, mem, count, 2 * i) && StringAt(c, mem, count, 2 * i) == p.key
    ensures InArea(c, mem, count, 2 * i + 1) && StringAt(c, mem, count, 2 * i + 1) == ValueBytes(p)
    ensures EntryAt(c, mem, 2 * i + 1).isnull == p.val.None?
  {
    Fits(c, e, 8 * count, a, mem);
    EntryRead(c, mem, e, 8 * count, a, 2 * i);
    EntryRead(c, mem, e, 8 * count, a, 2 * i + 1);
    if i > 0 {
      EntryRead(c, mem, e, 8 * count, a, 2 * i - 1);
    }
    StringsRead(c, mem, e, 8 * count, a, at, p.key, ValueBytes(p));
  }

  /** The strings and the null flag of a pair. */
  lemma PairRead(c: Codec, mem: Octets, ps: seq<Pair>, i: nat)
    requires Good(c) && Holds(c, mem, ps) && i < |ps|
    ensures InArea(c, mem, |ps|, 2 * i) && StringAt(c, mem, |ps|, 2 * i) == ps[i].key
    ensures InArea(c, mem, |ps|, 2 * i + 1) && StringAt(c, mem, |ps|, 2 * i + 1) == ValueBytes(ps[i])
    ensures EntryAt(c, mem, 2 * i + 1).isnull == ps[i].val.None?
  {
    FlaggedAt(ps, i);
    PartOfArea(ps, i);
    Accessors(c, mem, Flagged(Entries(ps, |ps|)), |ps|, Area(ps, |ps|), i, Start(ps, i), ps[i]);
  }

  lemma StringsRead(c: Codec, mem: Octets, e: seq<Entry>, base: nat, area: Octets, at: nat, k: Octets, v: Octets)
    requires Regions(c, e, base, area)(mem)
    requires at + |k| + |v| <= |area| && area[at..at + |k| + |v|] == k + v
    ensures base + at + |k| + |v| <= |mem|
    ensures mem[base + at..base + at + |k|] == k
    ensures mem[base + at + |k|..base + at + |k| + |v|] == v
  {
    Fits(c, e, base, area, mem);
    SliceOfSlice(mem, base, |area|, at, at + |k| + |v|);
    Halves(mem, base + at, k, v);
  }

  lemma Halves(mem: Octets, at: nat, k: Octets, v: Octets)
    requires at + |k| + |v| <= |mem| && mem[at..at + |k| + |v|] == k + v
    ensures mem[at..at + |k|] == k
    ensures mem[at + |k|..at + |k| + |v|] == v
  {
    var both := mem[at..at + |k| + |v|];
    assert mem[at..at + |k|] == both[..|k|];
    assert mem[at + |k|..at + |k| + |v|] == both[|k|..];
  }

  lemma SliceOfSlice(mem: Octets, base: nat, n: nat, from: nat, to: nat)
    requires base + n <= |mem| && from <= to <= n
    ensures mem[base..base + n][from..to] == mem[base + from..base + to]
  {
    var (x, y) := (mem[base..base + n][from..to], mem[base + from..base + to]);
    forall j | 0 <= j < |x|
      ensures x[j] == y[j]
    {
      assert x[j] == mem[base..base + n][from + j] == mem[base + from + j];
    }
  }

  /** The accessors read pair `i` as `p`. */
  predicate ReadsPair(c: Codec, mem: Octets, count: nat, p: Pair, i: nat) {
    && InArea(c, mem, count, 2 * i) && StringAt(c, mem, count, 2 * i) == p.key
    && InArea(c, mem, count, 2 * i + 1) && StringAt(c, mem, count, 2 * i + 1) == ValueBytes(p)
    && EntryAt(c, mem, 2 * i + 1).isnull == p.val.None?
  }

  /** They read all the pairs. */
  ghost predicate Reads(c: Codec, mem: Octets, ps: seq<Pair>) {
    forall i: nat {:trigger ReadsPair(c, mem, |ps|, ps[i], i)} :: i < |ps| ==> ReadsPair(c, mem, |ps|, ps[i], i)
  }

  lemma ReadsAt(c: Codec, mem: Octets, ps: seq<Pair>, i: nat)
    requires Reads(c, mem, ps) && i < |ps|
    ensures ReadsPair(c, mem, |ps|, ps[i], i)
  {
  }

  lemma HeldReads(c: Codec, mem: Octets, ps: seq<Pair>)
    requires Good(c) && Holds(c, mem, ps)
    ensures Reads(c, mem, ps)
  {
    forall i: nat | i < |ps|
      ensures ReadsPair(c, mem, |ps|, ps[i], i)
    {
      PairRead(c, mem, ps, i);
    }
  }

  /** Unpacking what was packed: the accessors read back every pair. */
  lemma DecodeHeld(c: Codec, mem: Octets, ps: seq<Pair>)
    requires Good(c) && Holds(c, mem, ps)
    ensures Readable(c, mem, |ps|) && Decode(c, mem, |ps|) == ps
  {
    forall i | 0 <= i < |ps|
      ensures InArea(c, mem, |ps|, 2 * i) && InArea(c, mem, |ps|, 2 * i + 1) && PairAt(c, mem, |ps|, i) == ps[i]
    {
      PairRead(c, mem, ps, i);
    }
  }

  // --------------------------------------------------------------- maps and order

  /** The map that the pairs stand for. */
  function MapOf(ps: seq<Pair>): map<Octets, Option<Octets>> {
    if ps == [] then map[] else MapOf(ps[..|ps| - 1])[ps[|ps| - 1].key := ps[|ps| - 1].val]
  }

  /** Keys are ordered by length, then byte by byte. */
  function KeyCompare(a: Octets, b: Octets): int {
    if |a| == |b| then Compare(a, b) else if |a| > |b| then 1 else -1
  }

  predicate KeyLess(a: Octets, b: Octets) { KeyCompare(a, b) < 0 }

  predicate Sorted(ps: seq<Pair>) {
    forall i, j :: 0 <= i < j < |ps| ==> KeyLess(ps[i].key, ps[j].key)
  }

  lemma KeyOrder(a: Octets, b: Octets)
    ensures KeyCompare(a, b) == 0 <==> a == b
    ensures KeyLess(a, b) <==> KeyCompare(b, a) > 0
  {
    CompareFlips(a, b);
  }

  lemma KeyLessTransitive(a: Octets, b: Octets, c: Octets)
    requires KeyLess(a, b) && KeyLess(b, c)
    ensures KeyLess(a, c)
  {
    if |a| == |b| == |c| {
      LeTransitive(a, b, c);
      CompareFlips(a, b);
    }
  }
}
