/** Bloom signatures: arrays of 16-bit words, a word being modelled as the set of
    its one bits.  A value's bits come from the reseeded generator and depend on
    nothing but its column, its hash and the index options. */
module BloomSign {
  import opened MachineWords
  import opened Optional
  import opened BloomRandom

  const WORD_BITS: nat := 16

  /** `bloomLength` counts words; `bitSize` has one entry per column. */
  datatype Options = Options(bloomLength: nat, bitSize: seq<nat>)

  predicate ValidOptions(o: Options) {
    && 1 <= o.bloomLength <= 256
    && |o.bitSize| <= 32
    && forall a :: 0 <= a < |o.bitSize| ==> 1 <= o.bitSize[a] <= 4095
  }

  function SignSize(o: Options): nat { o.bloomLength * WORD_BITS }

  type Words = seq<set<nat>>

  /** A column number and the hash of a value in that column. */
  type Key = (nat, int)

  predicate IsHash(h: int) { 0 <= h < TWO_32 }

  function Pow2(n: nat): (r: nat)
    ensures r > 0
  {
    if n == 0 then 1 else 2 * Pow2(n - 1)
  }

  lemma {:induction false} Pow2Adds(n: nat, m: nat)
    ensures Pow2(n + m) == Pow2(n) * Pow2(m)
  {
    if m == 0 {
    } else {
      Pow2Adds(n, m - 1);
    }
  }

  lemma Pow2Of32()
    ensures Pow2(32) == TWO_32
  {
    assert Pow2(4) == 16;
    Pow2Adds(4, 4);
    Pow2Adds(8, 8);
    Pow2Adds(16, 16);
  }

  /** Exclusive or of the lowest `n` bits. */
  function Xor(a: nat, b: nat, n: nat): nat {
    if n == 0 then 0 else (a % 2 + b % 2) % 2 + 2 * Xor(a / 2, b / 2, n - 1)
  }

  lemma {:induction false} XorBound(a: nat, b: nat, n: nat)
    ensures Xor(a, b, n) < Pow2(n)
  {
    if n == 0 {
    } else {
      XorBound(a / 2, b / 2, n - 1);
    }
  }

  lemma XorIsHash(a: nat, b: nat)
    ensures IsHash(Xor(a, b, 32))
  {
    XorBound(a, b, 32);
    Pow2Of32();
  }

  function Xor32(a: int, b: int): (r: int)
    requires IsHash(a) && IsHash(b)
    ensures IsHash(r)
  {
    XorIsHash(a, b);
    Xor(a, b, 32)
  }

  /** A column's first draw, with which the hashes of its values are mixed. */
  function ColumnDraw(attno: nat): (r: int)
    requires attno < 32
    ensures 0 <= r < M
  {
    StepMultiplies(Seeded(attno));
    Step(Seeded(attno)) - 1
  }

  /** The state from which a value's bits are drawn. */
  function ValueState(attno: nat, hash: int): int
    requires attno < 32 && IsHash(hash)
  {
    Seeded(Xor32(hash, ColumnDraw(attno)))
  }

  /** The value's seed is not one of the two that leave the generator at 0. */
  predicate Signable(attno: nat, hash: int)
    requires attno < 32 && IsHash(hash)
  {
    var seed := Xor32(hash, ColumnDraw(attno));
    seed != 0xFFFF_FFFF && seed != 0x8000_0001
  }

  lemma LowBit(p: nat, q: nat, y: nat)
    requires p < 2 && q < 2
    ensures var x := (p + q) % 2 + 2 * y; x / 2 == y && (x % 2 + q) % 2 == p
  {
  }

  lemma {:induction false} XorTwice(a: nat, b: nat, n: nat)
    requires a < Pow2(n)
    ensures Xor(Xor(a, b, n), b, n) == a
  {
    if n == 0 {
    } else {
      XorTwice(a / 2, b / 2, n - 1);
      LowBit(a % 2, b % 2, Xor(a / 2, b / 2, n - 1));
    }
  }

  lemma XorBack(a: int, b: int)
    requires IsHash(a) && IsHash(b)
    ensures Xor32(Xor32(a, b), b) == a
  {
    Pow2Of32();
    XorTwice(a, b, 32);
  }

  /** In every column exactly two hashes cannot be signed. */
  lemma TwoUnsignable(attno: nat, hash: int)
    requires attno < 32 && IsHash(hash)
    ensures !Signable(attno, hash) <==>
      hash == Xor32(0xFFFF_FFFF, ColumnDraw(attno)) || hash == Xor32(0x8000_0001, ColumnDraw(attno))
  {
    var draw := ColumnDraw(attno);
    XorBack(hash, draw);
    XorBack(0xFFFF_FFFF, draw);
    XorBack(0x8000_0001, draw);
  }

  lemma SignableGood(attno: nat, hash: int)
    requires attno < 32 && IsHash(hash)
    ensures Good(ValueState(attno, hash)) <==> Signable(attno, hash)
  {
    SeededGood(Xor32(hash, ColumnDraw(attno)));
  }

  predicate ValidKey(o: Options, key: Key) {
    ValidOptions(o) && key.0 < |o.bitSize| && IsHash(key.1)
  }

  /** The places of a value's bits in the signature. */
  function ValueBits(o: Options, key: Key): (bits: seq<int>)
    requires ValidKey(o, key)
  {
    Draws(ValueState(key.0, key.1), o.bitSize[key.0], SignSize(o))
  }

  lemma ValueBitsInRange(o: Options, key: Key)
    requires ValidKey(o, key) && Signable(key.0, key.1)
    ensures forall j :: 0 <= j < |ValueBits(o, key)| ==> 0 <= ValueBits(o, key)[j] < SignSize(o)
  {
    SignableGood(key.0, key.1);
    DrawsInRange(ValueState(key.0, key.1), o.bitSize[key.0], SignSize(o));
  }

  /** Every bit of such a value lies before the signature. */
  lemma UnsignableBits(o: Options, key: Key)
    requires ValidKey(o, key) && !Signable(key.0, key.1)
    ensures forall j :: 0 <= j < |ValueBits(o, key)| ==> ValueBits(o, key)[j] == -1
  {
    SeededRange(Xor32(key.1, ColumnDraw(key.0)));
    SignableGood(key.0, key.1);
    forall j | 0 <= j < o.bitSize[key.0]
      ensures ValueBits(o, key)[j] == -1
    {
      DrawFromZero(j, SignSize(o));
    }
  }

  // ------------------------------------------------------------ setting bits

  predicate Has(w: Words, i: nat) {
    i / WORD_BITS < |w| && i % WORD_BITS in w[i / WORD_BITS]
  }

  predicate WordsOk(w: Words) {
    forall j, x :: 0 <= j < |w| && x in w[j] ==> x < WORD_BITS
  }

  function SetBit(w: Words, i: nat): Words
    requires i / WORD_BITS < |w|
  {
    w[i / WORD_BITS := w[i / WORD_BITS] + {i % WORD_BITS}]
  }

  function SetBits(w: Words, bits: seq<int>): (r: Words)
    requires forall j :: 0 <= j < |bits| ==> 0 <= bits[j] < |w| * WORD_BITS
    ensures |r| == |w|
    decreases |bits|
  {
    if bits == [] then w
    else
      var n := |bits| - 1;
      SetBit(SetBits(w, bits[..n]), bits[n])
  }

  lemma {:induction false} SetBitsMeaning(w: Words, bits: seq<int>, i: nat)
    requires forall j :: 0 <= j < |bits| ==> 0 <= bits[j] < |w| * WORD_BITS
    requires i < |w| * WORD_BITS && WordsOk(w)
    ensures WordsOk(SetBits(w, bits))
    ensures Has(SetBits(w, bits), i) <==> Has(w, i) || i in bits
    decreases |bits|
  {
    if bits == [] {
    } else {
      var n := |bits| - 1;
      SetBitsMeaning(w, bits[..n], i);
      var b := bits[n];
      assert bits == bits[..n] + [b];
      assert i == b <==> i / WORD_BITS == b / WORD_BITS && i % WORD_BITS == b % WORD_BITS;
    }
  }

  function Zeros(n: nat): Words { seq(n, _ => {}) }

  /** Every bit that `draw` assigns to one of the keys lies in the signature. */
  predicate AllFit(n: nat, draw: Key -> seq<int>, keys: seq<Key>) {
    forall k, j :: 0 <= k < |keys| && 0 <= j < |draw(keys[k])| ==> 0 <= draw(keys[k])[j] < n * WORD_BITS
  }

  /** The signature of several keys, whose bits `draw` gives. */
  function SignWith(n: nat, draw: Key -> seq<int>, keys: seq<Key>): (w: Words)
    requires AllFit(n, draw, keys)
    ensures |w| == n
    decreases |keys|
  {
    if keys == [] then Zeros(n)
    else SetBits(SignWith(n, draw, keys[..|keys| - 1]), draw(keys[|keys| - 1]))
  }

  ghost predicate SetBySome(draw: Key -> seq<int>, keys: seq<Key>, i: nat) {
    exists k :: 0 <= k < |keys| && i in draw(keys[k])
  }

  /** A bit is set exactly when one of the keys sets it: the order in which they are
      signed, and what was signed before, make no difference. */
  lemma {:induction false} SignMeaning(n: nat, draw: Key -> seq<int>, keys: seq<Key>, i: nat)
    requires AllFit(n, draw, keys) && i < n * WORD_BITS
    ensures WordsOk(SignWith(n, draw, keys))
    ensures Has(SignWith(n, draw, keys), i) <==> SetBySome(draw, keys, i)
    decreases |keys|
  {
    if keys == [] {
    } else {
      var m := |keys| - 1;
      SignMeaning(n, draw, keys[..m], i);
      SetBitsMeaning(SignWith(n, draw, keys[..m]), draw(keys[m]), i);
      assert keys == keys[..m] + [keys[m]];
    }
  }

  /** Word by word, as the scan compares them: every bit of `s` is in `t`. */
  predicate SubsetWords(s: Words, t: Words)
    requires |s| == |t|
  {
    forall i :: 0 <= i < |s| ==> t[i] * s[i] == s[i]
  }

  /** Signing more keys never loses a bit: the signature of some of a row's values is
      a bitwise subset of the row's. */
  lemma FewerKeysSubset(n: nat, draw: Key -> seq<int>, few: seq<Key>, many: seq<Key>)
    requires AllFit(n, draw, few) && AllFit(n, draw, many)
    requires forall k :: 0 <= k < |few| ==> few[k] in many
    ensures SubsetWords(SignWith(n, draw, few), SignWith(n, draw, many))
  {
    forall i, x | 0 <= i < n && x in SignWith(n, draw, few)[i]
      ensures x in SignWith(n, draw, many)[i]
    {
      SignMeaning(n, draw, few, 0);
      var b := i * WORD_BITS + x;
      PlaceOfBit(i, x);
      SignMeaning(n, draw, few, b);
      SignMeaning(n, draw, many, b);
      SetBySomeMore(draw, few, many, b);
    }
  }

  lemma SetBySomeMore(draw: Key -> seq<int>, few: seq<Key>, many: seq<Key>, b: nat)
    requires SetBySome(draw, few, b) && forall k :: 0 <= k < |few| ==> few[k] in many
    ensures SetBySome(draw, many, b)
  {
    var k :| 0 <= k < |few| && b in draw(few[k]);
    var m :| 0 <= m < |many| && many[m] == few[k];
    assert b in draw(many[m]);
  }

  lemma PlaceOfBit(i: nat, x: nat)
    requires x < WORD_BITS
    ensures (i * WORD_BITS + x) / WORD_BITS == i && (i * WORD_BITS + x) % WORD_BITS == x
  {
  }

  // ------------------------------------------------------- signatures of an index

  function Drawn(o: Options): Key -> seq<int> {
    (key: Key) => if ValidKey(o, key) then ValueBits(o, key) else []
  }

  predicate AllSignable(o: Options, keys: seq<Key>) {
    forall k :: 0 <= k < |keys| ==> ValidKey(o, keys[k]) && Signable(keys[k].0, keys[k].1)
  }

  lemma SignableFit(o: Options, keys: seq<Key>)
    requires AllSignable(o, keys)
    ensures AllFit(o.bloomLength, Drawn(o), keys)
  {
    forall k, j | 0 <= k < |keys| && 0 <= j < |Drawn(o)(keys[k])|
      ensures 0 <= Drawn(o)(keys[k])[j] < o.bloomLength * WORD_BITS
    {
      ValueBitsInRange(o, keys[k]);
    }
  }

  /** The signature of several values of an index. */
  function SignOf(o: Options, keys: seq<Key>): (w: Words)
    requires AllSignable(o, keys)
    ensures |w| == o.bloomLength
  {
    SignableFit(o, keys);
    SignWith(o.bloomLength, Drawn(o), keys)
  }

  lemma SignOfSubset(o: Options, few: seq<Key>, many: seq<Key>)
    requires AllSignable(o, few) && AllSignable(o, many)
    requires forall k :: 0 <= k < |few| ==> few[k] in many
    ensures SubsetWords(SignOf(o, few), SignOf(o, many))
  {
    SignableFit(o, few);
    SignableFit(o, many);
    FewerKeysSubset(o.bloomLength, Drawn(o), few, many);
  }

  /** One more value signed. */
  function SignMore(o: Options, w: Words, key: Key): Words
    requires ValidKey(o, key) && Signable(key.0, key.1) && |w| == o.bloomLength
  {
    ValueBitsInRange(o, key);
    SetBits(w, ValueBits(o, key))
  }

  lemma SignOfMore(o: Options, keys: seq<Key>, key: Key)
    requires AllSignable(o, keys) && ValidKey(o, key) && Signable(key.0, key.1)
    ensures AllSignable(o, keys + [key])
    ensures SignOf(o, keys + [key]) == SignMore(o, SignOf(o, keys), key)
  {
    var more := keys + [key];
    assert more[..|keys|] == keys && more[|keys|] == key;
    SignableFit(o, more);
    SignableFit(o, keys);
  }

  // -------------------------------------------------------------- the operations

  /** Seeds the generator for a value. */
  method SeedFor(gen: Generator, attno: nat, hash: int)
    requires attno < 32 && IsHash(hash) && -M < gen.next < M
    modifies gen
    ensures gen.next == ValueState(attno, hash) && -M < gen.next < M
  {
    gen.Srand(attno);
    var r := gen.Rand();
    gen.Srand(Xor32(hash, r));
  }

  /** `signValue`.  With the state left at 0 it would shift by a negative count,
      which C leaves undefined; the model then stops and returns false. */
  method SignValue(gen: Generator, o: Options, sign: array<set<nat>>, key: Key) returns (ok: bool)
    requires ValidKey(o, key) && sign.Length == o.bloomLength && -M < gen.next < M
    modifies gen, sign
    ensures -M < gen.next < M
    ensures ok <==> Signable(key.0, key.1)
    ensures ok ==> sign[..] == SignMore(o, old(sign[..]), key)
  {
    var size := o.bloomLength * WORD_BITS;
    SeedFor(gen, key.0, key.1);
    SignableGood(key.0, key.1);
    ghost var start := gen.next;
    for j := 0 to o.bitSize[key.0]
      invariant -M < gen.next < M && gen.next == Iterate(start, j)
      invariant j > 0 ==> Good(start)
      invariant Good(start) ==> Signed(old(sign[..]), start, j, size, sign[..])
    {
      ghost var before := sign[..];
      ok := SetDrawnBit(gen, sign, start, j, size);
      if !ok {
        return;
      }
      SignedMore(old(sign[..]), start, j, size, before);
    }
    assert o.bitSize[key.0] >= 1;
    return true;
  }

  /** `w` with the first `j` draws set is `r`. */
  ghost predicate Signed(w: Words, start: int, j: nat, size: int, r: Words) {
    && size == |w| * WORD_BITS > 0 && InRange(Draws(start, j, size), size)
    && r == SetBits(w, Draws(start, j, size))
  }

  /** One draw and the bit it sets. */
  method SetDrawnBit(gen: Generator, sign: array<set<nat>>, ghost start: int, ghost j: nat, size: int) returns (ok: bool)
    requires -M < start < M && gen.next == Iterate(start, j) && -M < gen.next < M
    requires size == sign.Length * WORD_BITS > 0
    modifies gen, sign
    ensures gen.next == Iterate(start, j + 1) && -M < gen.next < M
    ensures ok <==> Good(start)
    ensures ok ==> 0 <= Draw(start, j, size) < size && sign[..] == SetBit(old(sign[..]), Draw(start, j, size))
  {
    var v := gen.Rand();
    var nBit := TruncMod(v, size);
    DrawExact(start, j, size);
    if nBit < 0 {
      return false;
    }
    sign[nBit / WORD_BITS] := sign[nBit / WORD_BITS] + {nBit % WORD_BITS};
    return true;
  }

  predicate InRange(bits: seq<int>, size: int) {
    forall j :: 0 <= j < |bits| ==> 0 <= bits[j] < size
  }

  /** A draw is a place in the signature exactly from a good state. */
  lemma DrawExact(start: int, j: nat, size: int)
    requires -M < start < M && size > 1
    ensures Draw(start, j, size) >= 0 <==> Good(start)
    ensures Draw(start, j, size) < size
  {
    if Good(start) {
      DrawsInRange(start, j + 1, size);
      assert 0 <= Draws(start, j + 1, size)[j] < size;
    } else {
      DrawFromZero(j, size);
    }
  }

  lemma SignedMore(w: Words, start: int, j: nat, size: int, r: Words)
    requires Signed(w, start, j, size, r) && Good(start)
    requires 0 <= Draw(start, j, size) < size
    ensures Signed(w, start, j + 1, size, SetBit(r, Draw(start, j, size)))
  {
    DrawsInRange(start, j + 1, size);
    assert Draws(start, j + 1, size)[..j] == Draws(start, j, size);
  }

  /** A heap tuple identifier and a signature. */
  datatype BloomTuple = BloomTuple(tid: (nat, nat), sign: Words)

  /** A row's hashes, one per column; null columns have none. */
  type Row = seq<Option<int>>

  predicate ValidRow(o: Options, row: Row) {
    && ValidOptions(o) && |row| == |o.bitSize|
    && forall i :: 0 <= i < |row| && row[i].Some? ==> IsHash(row[i].value)
  }

  /** The values of a row that are signed: those of the columns before `n`. */
  function RowKeys(row: Row, n: nat): seq<Key>
    requires n <= |row|
  {
    if n == 0 then []
    else RowKeys(row, n - 1) + (if row[n - 1].Some? then [(n - 1, row[n - 1].value)] else [])
  }

  lemma RowKeysMore(row: Row, i: nat)
    requires i < |row|
    ensures RowKeys(row, i + 1) == if row[i].Some? then RowKeys(row, i) + [(i, row[i].value)] else RowKeys(row, i)
  {
  }

  lemma {:induction false} RowKeyIn(row: Row, n: nat, attno: nat)
    requires attno < n <= |row| && row[attno].Some?
    ensures (attno, row[attno].value) in RowKeys(row, n)
  {
    if attno == n - 1 {
    } else {
      RowKeyIn(row, n - 1, attno);
    }
  }

  lemma {:induction false} RowKeysValid(o: Options, row: Row, n: nat)
    requires ValidRow(o, row) && n <= |row|
    ensures forall k :: 0 <= k < |RowKeys(row, n)| ==> ValidKey(o, RowKeys(row, n)[k])
  {
    if n == 0 {
    } else {
      RowKeysValid(o, row, n - 1);
    }
  }

  ghost predicate IsSignOf(o: Options, keys: seq<Key>, w: Words) {
    AllSignable(o, keys) && w == SignOf(o, keys)
  }

  lemma IsSignMore(o: Options, keys: seq<Key>, key: Key, w: Words)
    requires IsSignOf(o, keys, w) && ValidKey(o, key) && Signable(key.0, key.1)
    ensures IsSignOf(o, keys + [key], SignMore(o, w, key))
  {
    SignOfMore(o, keys, key);
  }

  /** Signs one more value after those of `keys`. */
  method SignNext(gen: Generator, o: Options, sign: array<set<nat>>, key: Key, ghost keys: seq<Key>) returns (ok: bool)
    requires ValidKey(o, key) && IsSignOf(o, keys, sign[..]) && sign.Length == o.bloomLength && -M < gen.next < M
    modifies gen, sign
    ensures -M < gen.next < M && (ok <==> Signable(key.0, key.1))
    ensures ok ==> IsSignOf(o, keys + [key], sign[..])
  {
    ghost var before := sign[..];
    ok := SignValue(gen, o, sign, key);
    if ok {
      IsSignMore(o, keys, key, before);
    }
  }

  /** `BloomFormTuple`. */
  method FormTuple(gen: Generator, o: Options, tid: (nat, nat), row: Row) returns (r: Option<BloomTuple>)
    requires ValidRow(o, row) && -M < gen.next < M
    modifies gen
    ensures r.Some? <==> AllSignable(o, RowKeys(row, |row|))
    ensures r.Some? ==> r.value == BloomTuple(tid, SignOf(o, RowKeys(row, |row|)))
  {
    var sign := new set<nat>[o.bloomLength](_ => {});
    assert sign[..] == Zeros(o.bloomLength);
    for i := 0 to |row|
      invariant -M < gen.next < M
      invariant IsSignOf(o, RowKeys(row, i), sign[..])
    {
      RowKeysMore(row, i);
      if row[i].Some? {
        var ok := SignNext(gen, o, sign, (i, row[i].value), RowKeys(row, i));
        if !ok {
          Unsignable(o, row, i);
          return None;
        }
      }
    }
    return Some(BloomTuple(tid, sign[..]));
  }

  lemma Unsignable(o: Options, row: Row, i: nat)
    requires ValidRow(o, row) && i < |row| && row[i].Some? && !Signable(i, row[i].value)
    ensures !AllSignable(o, RowKeys(row, |row|))
  {
    RowKeyIn(row, |row|, i);
    var k :| 0 <= k < |RowKeys(row, |row|)| && RowKeys(row, |row|)[k] == (i, row[i].value);
  }

  lemma TakeMore(keys: seq<Key>, i: nat)
    requires i < |keys|
    ensures keys[..i + 1] == keys[..i] + [keys[i]]
  {
  }

  lemma TakeAll(keys: seq<Key>)
    ensures keys[..|keys|] == keys
  {
  }

  /** The scan's signature: signs the keys one after the other. */
  method ScanSign(gen: Generator, o: Options, keys: seq<Key>) returns (r: Option<Words>)
    requires (forall k :: 0 <= k < |keys| ==> ValidKey(o, keys[k])) && ValidOptions(o) && -M < gen.next < M
    modifies gen
    ensures r.Some? <==> AllSignable(o, keys)
    ensures r.Some? ==> r.value == SignOf(o, keys)
  {
    var sign := new set<nat>[o.bloomLength](_ => {});
    assert sign[..] == Zeros(o.bloomLength);
    for i := 0 to |keys|
      invariant -M < gen.next < M
      invariant IsSignOf(o, keys[..i], sign[..])
    {
      var ok := SignNext(gen, o, sign, keys[i], keys[..i]);
      if !ok {
        return None;
      }
      TakeMore(keys, i);
    }
    TakeAll(keys);
    return Some(sign[..]);
  }

  /** The scan's signature is a bitwise subset of that of every row whose non-null
      columns have the hashes that the scan asks for. */
  lemma MatchingRowSubset(o: Options, keys: seq<Key>, row: Row)
    requires ValidRow(o, row) && AllSignable(o, keys) && AllSignable(o, RowKeys(row, |row|))
    requires forall k :: 0 <= k < |keys| ==> row[keys[k].0] == Some(keys[k].1)
    ensures SubsetWords(SignOf(o, keys), SignOf(o, RowKeys(row, |row|)))
  {
    forall k | 0 <= k < |keys|
      ensures keys[k] in RowKeys(row, |row|)
    {
      RowKeyIn(row, |row|, keys[k].0);
    }
    SignOfSubset(o, keys, RowKeys(row, |row|));
  }
}
