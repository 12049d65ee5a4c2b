/** The lossy signatures by which GiST indexes hstore values.  A signature is the set
    of its one bits; `crc` is the checksum whose value modulo the number of bits
    selects the bit of a key or value. */
module HstoreSign {
  import opened Optional
  import opened ByteStrings
  import opened HstoreLayout

  type Crc = Octets -> nat

  /** `GISTTYPE`: a signature, or the flag that stands for all bits. */
  datatype Sign = AllTrue | Bits(bits: set<nat>)

  function Full(n: nat): (r: set<nat>)
    ensures forall i :: i in r <==> 0 <= i < n
    ensures |r| == n
  {
    if n == 0 then {} else Full(n - 1) + {n - 1}
  }

  /** The bits of a signature of `n` bits. */
  function BitsOf(s: Sign, n: nat): set<nat> { if s.AllTrue? then Full(n) else s.bits }

  predicate Valid(s: Sign, n: nat) { s.Bits? ==> s.bits <= Full(n) }

  function Bit(crc: Crc, n: nat, s: Octets): nat
    requires n > 0
  {
    crc(s) % 0x1_0000_0000 % n
  }

  // ----------------------------------------------------------- leaves and unions

  /** The bits that one pair sets. */
  function PairBits(crc: Crc, n: nat, p: Pair): set<nat>
    requires n > 0
  {
    {Bit(crc, n, p.key)} + if p.val.Some? then {Bit(crc, n, p.val.value)} else {}
  }

  function LeafBits(crc: Crc, n: nat, ps: seq<Pair>, i: nat): set<nat>
    requires n > 0 && i <= |ps|
  {
    if i == 0 then {} else LeafBits(crc, n, ps, i - 1) + PairBits(crc, n, ps[i - 1])
  }

  /** `ghstore_compress` of a leaf value. */
  method CompressLeaf(crc: Crc, n: nat, ps: seq<Pair>) returns (r: Sign)
    requires n > 0
    ensures r == Bits(LeafBits(crc, n, ps, |ps|))
  {
    var bits := {};
    for i := 0 to |ps|
      invariant bits == LeafBits(crc, n, ps, i)
    {
      bits := bits + {Bit(crc, n, ps[i].key)};
      if ps[i].val.Some? {
        bits := bits + {Bit(crc, n, ps[i].val.value)};
      }
    }
    return Bits(bits);
  }

  /** `ghstore_compress` of an internal key: a signature with all bits becomes the flag. */
  method CompressInner(s: Sign, n: nat) returns (r: Sign)
    requires Valid(s, n)
    ensures Valid(r, n) && BitsOf(r, n) == BitsOf(s, n) && (r.AllTrue? <==> BitsOf(s, n) == Full(n))
  {
    if s.AllTrue? {
      return s;
    }
    for i := 0 to n
      invariant forall j :: 0 <= j < i ==> j in s.bits
    {
      if i !in s.bits {
        return s;
      }
    }
    return AllTrue;
  }

  /** `unionkey`: adds a signature to `base`; true if that makes all bits true. */
  method UnionKey(base: set<nat>, add: Sign) returns (r: set<nat>, all: bool)
    ensures all <==> add.AllTrue?
    ensures r == if all then base else base + add.bits
  {
    if add.AllTrue? {
      return base, true;
    }
    return base + add.bits, false;
  }

  function UnionTo(ss: seq<Sign>, n: nat, i: nat): set<nat>
    requires i <= |ss|
  {
    if i == 0 then {} else UnionTo(ss, n, i - 1) + BitsOf(ss[i - 1], n)
  }

  lemma {:induction false} UnionToValid(ss: seq<Sign>, n: nat, i: nat)
    requires i <= |ss| && forall k :: 0 <= k < |ss| ==> Valid(ss[k], n)
    ensures UnionTo(ss, n, i) <= Full(n)
  {
    if i == 0 {
    } else {
      UnionToValid(ss, n, i - 1);
    }
  }

  lemma {:induction false} UnionToGrows(ss: seq<Sign>, n: nat, i: nat, k: nat)
    requires i < k <= |ss|
    ensures BitsOf(ss[i], n) <= UnionTo(ss, n, k)
  {
    if i == k - 1 {
    } else {
      UnionToGrows(ss, n, i, k - 1);
    }
  }

  /** `ghstore_union`. */
  method Union(ss: seq<Sign>, n: nat) returns (r: Sign)
    requires forall k :: 0 <= k < |ss| ==> Valid(ss[k], n)
    ensures Valid(r, n) && BitsOf(r, n) == UnionTo(ss, n, |ss|)
  {
    var base := {};
    for i := 0 to |ss|
      invariant base == UnionTo(ss, n, i)
    {
      var all;
      base, all := UnionKey(base, ss[i]);
      if all {
        UnionToGrows(ss, n, i, |ss|);
        UnionToValid(ss, n, |ss|);
        return AllTrue;
      }
    }
    UnionToValid(ss, n, |ss|);
    return Bits(base);
  }

  // ------------------------------------------------------------------- queries

  datatype Query =
    | Contains(pairs: seq<Pair>)
    | Exists(key: Octets)
    | ExistsAll(keys: seq<Option<Octets>>)
    | ExistsAny(keys: seq<Option<Octets>>)

  predicate HasKey(ps: seq<Pair>, k: Octets) { exists i :: 0 <= i < |ps| && ps[i].key == k }

  /** What the query asks of an hstore; null array elements are disregarded. */
  predicate Satisfies(ps: seq<Pair>, q: Query) {
    match q
    case Contains(pairs) => forall i :: 0 <= i < |pairs| ==> pairs[i] in ps
    case Exists(key) => HasKey(ps, key)
    case ExistsAll(keys) => forall i :: 0 <= i < |keys| && keys[i].Some? ==> HasKey(ps, keys[i].value)
    case ExistsAny(keys) => exists i :: 0 <= i < |keys| && keys[i].Some? && HasKey(ps, keys[i].value)
  }

  /** The bits that the signature must have for the query. */
  predicate MayHold(crc: Crc, n: nat, bits: set<nat>, q: Query)
    requires n > 0
  {
    match q
    case Contains(pairs) => forall i :: 0 <= i < |pairs| ==> PairBits(crc, n, pairs[i]) <= bits
    case Exists(key) => Bit(crc, n, key) in bits
    case ExistsAll(keys) => forall i :: 0 <= i < |keys| && keys[i].Some? ==> Bit(crc, n, keys[i].value) in bits
    case ExistsAny(keys) => exists i :: 0 <= i < |keys| && keys[i].Some? && Bit(crc, n, keys[i].value) in bits
  }

  /** `ghstore_consistent`; a set flag admits everything, even a query for none. */
  method Consistent(crc: Crc, n: nat, s: Sign, q: Query) returns (res: bool)
    requires n > 0
    ensures res <==> s.AllTrue? || MayHold(crc, n, s.bits, q)
  {
    if s.AllTrue? {
      return true;
    }
    match q
    case Contains(pairs) =>
      for i := 0 to |pairs|
        invariant forall j :: 0 <= j < i ==> PairBits(crc, n, pairs[j]) <= s.bits
      {
        if Bit(crc, n, pairs[i].key) !in s.bits {
          assert !(PairBits(crc, n, pairs[i]) <= s.bits);
          return false;
        }
        if pairs[i].val.Some? && Bit(crc, n, pairs[i].val.value) !in s.bits {
          assert !(PairBits(crc, n, pairs[i]) <= s.bits);
          return false;
        }
      }
      return true;
    case Exists(key) =>
      return Bit(crc, n, key) in s.bits;
    case ExistsAll(keys) =>
      for i := 0 to |keys|
        invariant forall j :: 0 <= j < i && keys[j].Some? ==> Bit(crc, n, keys[j].value) in s.bits
      {
        if keys[i].Some? && Bit(crc, n, keys[i].value) !in s.bits {
          return false;
        }
      }
      return true;
    case ExistsAny(keys) =>
      for i := 0 to |keys|
        invariant forall j :: 0 <= j < i && keys[j].Some? ==> Bit(crc, n, keys[j].value) !in s.bits
      {
        if keys[i].Some? && Bit(crc, n, keys[i].value) in s.bits {
          return true;
        }
      }
      return false;
  }

  // ------------------------------------------------------------ no false negatives

  lemma {:induction false} LeafHasPair(crc: Crc, n: nat, ps: seq<Pair>, i: nat, k: nat)
    requires n > 0 && i < k <= |ps|
    ensures PairBits(crc, n, ps[i]) <= LeafBits(crc, n, ps, k)
  {
    if i == k - 1 {
    } else {
      LeafHasPair(crc, n, ps, i, k - 1);
    }
  }

  lemma KeyBitSet(crc: Crc, n: nat, ps: seq<Pair>, k: Octets)
    requires n > 0 && HasKey(ps, k)
    ensures Bit(crc, n, k) in LeafBits(crc, n, ps, |ps|)
  {
    var i :| 0 <= i < |ps| && ps[i].key == k;
    LeafHasPair(crc, n, ps, i, |ps|);
  }

  /** A value that satisfies the query has all the bits asked for. */
  lemma LeafMayHold(crc: Crc, n: nat, ps: seq<Pair>, q: Query)
    requires n > 0 && Satisfies(ps, q)
    ensures MayHold(crc, n, LeafBits(crc, n, ps, |ps|), q)
  {
    var bits := LeafBits(crc, n, ps, |ps|);
    match q
    case Contains(pairs) =>
      forall i | 0 <= i < |pairs|
        ensures PairBits(crc, n, pairs[i]) <= bits
      {
        var k :| 0 <= k < |ps| && ps[k] == pairs[i];
        LeafHasPair(crc, n, ps, k, |ps|);
      }
    case Exists(key) =>
      KeyBitSet(crc, n, ps, key);
    case ExistsAll(keys) =>
      forall i | 0 <= i < |keys| && keys[i].Some?
        ensures Bit(crc, n, keys[i].value) in bits
      {
        KeyBitSet(crc, n, ps, keys[i].value);
      }
    case ExistsAny(keys) =>
      var i :| 0 <= i < |keys| && keys[i].Some? && HasKey(ps, keys[i].value);
      KeyBitSet(crc, n, ps, keys[i].value);
  }

  lemma MoreBitsMayHold(crc: Crc, n: nat, few: set<nat>, many: set<nat>, q: Query)
    requires n > 0 && MayHold(crc, n, few, q) && few <= many
    ensures MayHold(crc, n, many, q)
  {
  }

  /** An index: an internal key has the bits of the keys below it, whether it comes
      from a union, from a split, or from compressing such a key. */
  datatype Tree = Leaf(pairs: seq<Pair>) | Node(key: Sign, children: seq<Tree>)

  function KeyOf(crc: Crc, n: nat, t: Tree): Sign
    requires n > 0
  {
    match t
    case Leaf(ps) => Bits(LeafBits(crc, n, ps, |ps|))
    case Node(key, _) => key
  }

  predicate WellBuilt(crc: Crc, n: nat, t: Tree)
    requires n > 0
  {
    t.Node? ==>
      && (forall c | c in t.children :: WellBuilt(crc, n, c))
      && BitsOf(t.key, n) == UnionTo(Keys(crc, n, t.children), n, |t.children|)
  }

  function Keys(crc: Crc, n: nat, ts: seq<Tree>): (ss: seq<Sign>)
    requires n > 0
    ensures |ss| == |ts|
  {
    seq(|ts|, i requires 0 <= i < |ts| => KeyOf(crc, n, ts[i]))
  }

  predicate Below(ps: seq<Pair>, t: Tree) {
    match t
    case Leaf(qs) => ps == qs
    case Node(_, children) => exists c | c in children :: Below(ps, c)
  }

  lemma {:induction false} KeyCovers(crc: Crc, n: nat, t: Tree, ps: seq<Pair>)
    requires n > 0 && WellBuilt(crc, n, t) && Below(ps, t)
    ensures LeafBits(crc, n, ps, |ps|) <= BitsOf(KeyOf(crc, n, t), n)
    decreases t
  {
    if t.Node? {
      var c :| c in t.children && Below(ps, c);
      KeyCovers(crc, n, c, ps);
      var i :| 0 <= i < |t.children| && t.children[i] == c;
      UnionToGrows(Keys(crc, n, t.children), n, i, |t.children|);
    }
  }

  /** At every height, a key is never turned down while a value below it satisfies the
      query, for all strategies. */
  lemma NoFalseNegatives(crc: Crc, n: nat, t: Tree, ps: seq<Pair>, q: Query)
    requires n > 0 && WellBuilt(crc, n, t) && Below(ps, t) && Satisfies(ps, q)
    ensures var s := KeyOf(crc, n, t); s.AllTrue? || MayHold(crc, n, s.bits, q)
  {
    KeyCovers(crc, n, t, ps);
    LeafMayHold(crc, n, ps, q);
    var s := KeyOf(crc, n, t);
    if s.Bits? {
      MoreBitsMayHold(crc, n, LeafBits(crc, n, ps, |ps|), s.bits, q);
    }
  }

  // ------------------------------------------------------------ Hamming distance

  function Differ(a: set<nat>, b: set<nat>): set<nat> { (a - b) + (b - a) }

  /** `hemdistsign`: the number of places below `i` where the signatures differ. */
  function DifferTo(a: set<nat>, b: set<nat>, i: nat): nat {
    if i == 0 then 0 else DifferTo(a, b, i - 1) + if (i - 1 in a) != (i - 1 in b) then 1 else 0
  }

  lemma {:induction false} DifferCounts(a: set<nat>, b: set<nat>, i: nat)
    ensures DifferTo(a, b, i) == |Differ(a, b) * Full(i)|
  {
    if i == 0 {
    } else {
      DifferCounts(a, b, i - 1);
      var d := Differ(a, b);
      assert i - 1 in d <==> (i - 1 in a) != (i - 1 in b);
      OneMoreBit(d, i);
    }
  }

  lemma OneMoreBit(d: set<nat>, i: nat)
    requires i > 0
    ensures |d * Full(i)| == |d * Full(i - 1)| + if i - 1 in d then 1 else 0
  {
    if i - 1 in d {
      assert d * Full(i) == d * Full(i - 1) + {i - 1};
    } else {
      assert d * Full(i) == d * Full(i - 1);
    }
  }

  /** `hemdist`, with its shortcuts for the flag. */
  function Distance(a: Sign, b: Sign, n: nat): int {
    if a.AllTrue? then (if b.AllTrue? then 0 else n - |b.bits|)
    else if b.AllTrue? then n - |a.bits|
    else DifferTo(a.bits, b.bits, n)
  }

  lemma MissingBits(b: set<nat>, n: nat)
    requires b <= Full(n)
    ensures |Full(n) - b| == n - |b|
  {
    assert Full(n) == (Full(n) - b) + b;
  }

  /** The shortcuts do not change the distance, which is the number of differing bits. */
  lemma DistanceExact(a: Sign, b: Sign, n: nat)
    requires Valid(a, n) && Valid(b, n)
    ensures Distance(a, b, n) == |Differ(BitsOf(a, n), BitsOf(b, n))| == Distance(b, a, n)
  {
    var (x, y) := (BitsOf(a, n), BitsOf(b, n));
    assert Differ(x, y) * Full(n) == Differ(x, y) && Differ(y, x) == Differ(x, y);
    DifferCounts(x, y, n);
    DifferCounts(y, x, n);
    MissingBits(x, n);
    MissingBits(y, n);
    if a.AllTrue? {
      assert Differ(x, y) == Full(n) - y;
    }
    if b.AllTrue? {
      assert Differ(x, y) == Full(n) - x;
    }
  }
}
