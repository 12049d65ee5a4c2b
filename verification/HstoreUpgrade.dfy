/** Reading hstore values of the old format: the entries are rewritten in place, the
    old and the new ones sharing the same memory. */
module HstoreUpgrade {
  import opened MachineWords
  import opened Optional
  import opened ByteStrings
  import opened HstoreLayout

  // ------------------------------------------------- words and what they stand for

  predicate IsWord(w: int) { 0 <= w < TWO_32 }

  predicate AllWords(w: seq<int>) { forall k :: 0 <= k < |w| ==> IsWord(w[k]) }

  /** `HEntry`: the end position in 30 bits, the flags above. */
  function ToWord(e: Entry): int {
    e.endpos % TWO_30 + (if e.isnull then TWO_30 else 0) + (if e.first then TWO_31 else 0)
  }

  function FromWord(w: int): Entry { Entry(w / TWO_31 % 2 == 1, w / TWO_30 % 2 == 1, w % TWO_30) }

  lemma WordRoundTrip(e: Entry)
    requires e.endpos < TWO_30
    ensures FromWord(ToWord(e)) == e
  {
  }

  /** `HOldEntry`: two 16-bit lengths in the first word; the null flag and the
      position in the second. */
  datatype OldEntry = OldEntry(keylen: nat, vallen: nat, isnull: bool, pos: nat)

  function OldFrom(w0: int, w1: int): OldEntry
    requires IsWord(w0) && IsWord(w1)
  {
    OldEntry(w0 % TWO_16, w0 / TWO_16, w1 % 2 == 1, w1 / 2)
  }

  /** The memory read as new entries, and as old ones. */
  function News(w: seq<int>): (es: seq<Entry>)
    ensures |es| == |w|
  {
    seq(|w|, k requires 0 <= k < |w| => FromWord(w[k]))
  }

  function Olds(w: seq<int>): (os: seq<OldEntry>)
    requires AllWords(w)
    ensures |os| == |w| / 2
  {
    seq(|w| / 2, i requires 0 <= i < |w| / 2 => OldFrom(w[2 * i], w[2 * i + 1]))
  }

  // -------------------------------------------------------------- what pairs are read

  function StoredLen(e: OldEntry): nat { e.keylen + if e.isnull then 0 else e.vallen }

  /** The pair that an old entry stands for, given the string area. */
  function OldPair(e: OldEntry, str: Octets): Pair
    requires e.pos + StoredLen(e) <= |str|
  {
    var mid := e.pos + e.keylen;
    Pair(str[e.pos..mid], if e.isnull then None else Some(str[mid..mid + e.vallen]))
  }

  function NewStart(es: seq<Entry>, k: nat): nat
    requires k < |es|
  {
    if k == 0 || es[k].first then 0 else es[k - 1].endpos
  }

  predicate NewInArea(es: seq<Entry>, str: Octets, k: nat) {
    k < |es| && NewStart(es, k) <= es[k].endpos <= |str|
  }

  /** The pair that the new entries `2 * i` and `2 * i + 1` stand for. */
  function NewPair(es: seq<Entry>, str: Octets, i: nat): Pair
    requires NewInArea(es, str, 2 * i) && NewInArea(es, str, 2 * i + 1)
  {
    Pair(str[NewStart(es, 2 * i)..es[2 * i].endpos],
         if es[2 * i + 1].isnull then None else Some(str[NewStart(es, 2 * i + 1)..es[2 * i + 1].endpos]))
  }

  /** The memory `mem` holds the entries `es` of `count` pairs. */
  predicate HoldsEntries(c: Codec, mem: Octets, count: nat, es: seq<Entry>) {
    |es| == 2 * count && 8 * count <= |mem| && forall k :: 0 <= k < |es| ==> EntryAt(c, mem, k) == es[k]
  }

  lemma StringAgrees(c: Codec, mem: Octets, count: nat, es: seq<Entry>, k: nat)
    requires HoldsEntries(c, mem, count, es) && NewInArea(es, mem[8 * count..], k)
    ensures InArea(c, mem, count, k)
    ensures StringAt(c, mem, count, k) == mem[8 * count..][NewStart(es, k)..es[k].endpos]
  {
    assert EntryAt(c, mem, k) == es[k] && (k > 0 ==> EntryAt(c, mem, k - 1) == es[k - 1]);
  }

  /** It is the pair that the accessor macros read. */
  lemma NewPairIsPairAt(c: Codec, mem: Octets, count: nat, es: seq<Entry>, i: nat)
    requires HoldsEntries(c, mem, count, es)
    requires NewInArea(es, mem[8 * count..], 2 * i) && NewInArea(es, mem[8 * count..], 2 * i + 1)
    ensures InArea(c, mem, count, 2 * i) && InArea(c, mem, count, 2 * i + 1)
    ensures PairAt(c, mem, count, i) == NewPair(es, mem[8 * count..], i)
  {
    StringAgrees(c, mem, count, es, 2 * i);
    StringAgrees(c, mem, count, es, 2 * i + 1);
  }

  predicate SamePair(e: OldEntry, es: seq<Entry>, str: Octets, i: nat) {
    && e.pos + StoredLen(e) <= |str|
    && NewInArea(es, str, 2 * i) && NewInArea(es, str, 2 * i + 1)
    && NewPair(es, str, i) == OldPair(e, str)
  }

  /** The new entries read as the same pairs as the old ones. */
  predicate SamePairs(os: seq<OldEntry>, es: seq<Entry>, str: Octets) {
    forall i :: 0 <= i < |os| ==> SamePair(os[i], es, str, i)
  }

  // ----------------------------------------------------------------- validity

  function Count(size: nat): nat { size % 0x1000_0000 }

  /** Where old entry `i` should start: right behind the strings before it. */
  function OldStart(os: seq<OldEntry>, i: nat): nat
    requires i <= |os|
  {
    if i == 0 then 0 else OldStart(os, i - 1) + StoredLen(os[i - 1])
  }

  predicate KeyNotShorter(os: seq<OldEntry>, i: nat)
    requires 1 <= i < |os|
  {
    os[i - 1].keylen <= os[i].keylen
  }

  predicate Contiguous(os: seq<OldEntry>, i: nat)
    requires i < |os|
  {
    os[i].pos == OldStart(os, i)
  }

  /** What `hstoreValidOldFormat` accepts: a count in range, key lengths that do not
      decrease, contiguous strings, and no more of them than there is room for. */
  predicate OldValid(os: seq<OldEntry>, size: nat, varsize: nat) {
    && size <= 0x0FFF_FFFF && |os| == size
    && (size > 0 ==>
          && (forall i :: 1 <= i < size ==> KeyNotShorter(os, i))
          && (forall i :: 0 <= i < size ==> Contiguous(os, i))
          && DataSize(size, OldStart(os, size)) <= varsize)
  }

  /** `hstoreValidOldFormat`, on a value without the new version's flag: 0 for
      invalid, 1 for valid with unused space behind the strings, 2 for exact. */
  method ValidOld(w: array<int>, size: nat, varsize: nat) returns (r: int)
    requires AllWords(w[..]) && w.Length == 2 * Count(size)
    ensures r != 0 <==> OldValid(Olds(w[..]), size, varsize)
    ensures r == 2 && size > 0 ==> DataSize(size, OldStart(Olds(w[..]), size)) == varsize
    ensures r != 0 && r != 2 ==> r == 1 && DataSize(size, OldStart(Olds(w[..]), size)) < varsize
  {
    ghost var os := Olds(w[..]);
    if size == 0 {
      return 2;
    }
    if size > 0x0FFF_FFFF || DataSize(size, 0) > varsize {
      return 0;
    }
    if OldFrom(w[0], w[1]).pos != 0 {
      assert os[0] == OldFrom(w[0], w[1]) && !Contiguous(os, 0);
      return 0;
    }
    var grow := KeysGrow(w, size);
    if !grow {
      return 0;
    }
    var contiguous, lastpos := StringsContiguous(w, size);
    if !contiguous {
      return 0;
    }
    var vsize := DataSize(size, lastpos);
    return if vsize > varsize then 0 else if vsize != varsize then 1 else 2;
  }

  method KeysGrow(w: array<int>, size: nat) returns (ok: bool)
    requires AllWords(w[..]) && w.Length == 2 * size && size > 0
    ensures ok <==> forall j :: 1 <= j < size ==> KeyNotShorter(Olds(w[..]), j)
  {
    ghost var os := Olds(w[..]);
    var i := 1;
    while i < size
      invariant 1 <= i <= size && forall j :: 1 <= j < i ==> KeyNotShorter(os, j)
    {
      var e, before := OldFrom(w[2 * i], w[2 * i + 1]), OldFrom(w[2 * i - 2], w[2 * i - 1]);
      assert os[i] == e && os[i - 1] == before;
      if e.keylen < before.keylen {
        assert !KeyNotShorter(os, i);
        return false;
      }
      i := i + 1;
    }
    return true;
  }

  method StringsContiguous(w: array<int>, size: nat) returns (ok: bool, lastpos: nat)
    requires AllWords(w[..]) && w.Length == 2 * size
    ensures ok <==> forall j :: 0 <= j < size ==> Contiguous(Olds(w[..]), j)
    ensures ok ==> lastpos == OldStart(Olds(w[..]), size)
  {
    ghost var os := Olds(w[..]);
    var i := 0;
    lastpos := 0;
    while i < size
      invariant 0 <= i <= size && lastpos == OldStart(os, i)
      invariant forall j :: 0 <= j < i ==> Contiguous(os, j)
    {
      var e := OldFrom(w[2 * i], w[2 * i + 1]);
      assert os[i] == e;
      if e.pos != lastpos {
        assert !Contiguous(os, i);
        return false, lastpos;
      }
      lastpos := lastpos + StoredLen(e);
      i := i + 1;
    }
    return true, lastpos;
  }

  predicate EndsInOrder(es: seq<Entry>, k: nat)
    requires 1 <= k < |es|
  {
    !es[k].first && es[k - 1].endpos <= es[k].endpos
  }

  function NewKeyLen(es: seq<Entry>, i: nat): int
    requires 2 * i < |es|
  {
    es[2 * i].endpos - NewStart(es, 2 * i)
  }

  predicate KeyInOrder(es: seq<Entry>, i: nat)
    requires 1 <= i && 2 * i < |es|
  {
    NewKeyLen(es, i - 1) <= NewKeyLen(es, i) && !es[2 * i].isnull
  }

  function StringsEnd(es: seq<Entry>): nat { if es == [] then 0 else es[|es| - 1].endpos }

  /** What `hstoreValidNewFormat` accepts. */
  predicate NewValid(es: seq<Entry>, count: nat, varsize: nat) {
    && |es| == 2 * count
    && (count > 0 ==>
          && es[0].first && DataSize(count, StringsEnd(es)) <= varsize
          && (forall k :: 1 <= k < |es| ==> EndsInOrder(es, k))
          && (forall i :: 1 <= i < count ==> KeyInOrder(es, i)))
  }

  /** `hstoreValidNewFormat`, on a value without the flag. */
  method ValidNew(w: array<int>, count: nat, varsize: nat) returns (r: int)
    requires w.Length == 2 * count
    ensures r != 0 <==> NewValid(News(w[..]), count, varsize)
  {
    var es := News(w[..]);
    if count == 0 {
      return 2;
    }
    var vsize := DataSize(count, es[2 * count - 1].endpos);
    if !es[0].first || vsize > varsize {
      return 0;
    }
    var k := 1;
    while k < 2 * count
      invariant 1 <= k <= 2 * count && forall j :: 1 <= j < k ==> EndsInOrder(es, j)
    {
      if es[k].first || es[k].endpos < es[k - 1].endpos {
        assert !EndsInOrder(es, k);
        return 0;
      }
      k := k + 1;
    }
    var i := 1;
    while i < count
      invariant 1 <= i <= count && forall j :: 1 <= j < i ==> KeyInOrder(es, j)
    {
      if NewKeyLen(es, i) < NewKeyLen(es, i - 1) || es[2 * i].isnull {
        assert !KeyInOrder(es, i);
        return 0;
      }
      i := i + 1;
    }
    return if vsize != varsize then 1 else 2;
  }

  // --------------------------------------------------------------- the rewriting

  /** The new entries for an old one. */
  function KeyFor(e: OldEntry, first: bool): Entry { Entry(first, false, e.pos + e.keylen) }

  function ValueFor(e: OldEntry): Entry { Entry(false, e.isnull, e.pos + StoredLen(e)) }

  /** Memory that the rewriting has gone through up to entry `n`; the flag of the first
      entry is set at the very end. */
  predicate Rewritten(v: seq<int>, n: nat, flagged: bool, w: seq<int>)
    requires AllWords(v)
  {
    && |w| == |v| && n <= |v| / 2
    && (forall i :: 0 <= i < n ==> RewrittenAt(Olds(v)[i], i, flagged, w))
    && (forall k :: 2 * n <= k < |v| ==> w[k] == v[k])
  }

  predicate RewrittenAt(e: OldEntry, i: nat, flagged: bool, w: seq<int>) {
    && 2 * i + 1 < |w|
    && w[2 * i] == ToWord(KeyFor(e, flagged && i == 0)) && w[2 * i + 1] == ToWord(ValueFor(e))
  }

  /** Setting `HENTRY_ISFIRST`. */
  function FlagWord(w: int): int { if w / TWO_31 % 2 == 1 then w else w + TWO_31 }

  lemma FlagKey(e: OldEntry)
    ensures FlagWord(ToWord(KeyFor(e, false))) == ToWord(KeyFor(e, true))
  {
  }

  /** One iteration of the rewriting loop. */
  method RewriteOne(w: array<int>, i: nat, ghost v: seq<int>)
    requires AllWords(v) && i < |v| / 2 && Rewritten(v, i, false, w[..])
    modifies w
    ensures Rewritten(v, i + 1, false, w[..])
  {
    ghost var before := w[..];
    assert before[2 * i] == v[2 * i] && before[2 * i + 1] == v[2 * i + 1];
    var e := OldFrom(w[2 * i], w[2 * i + 1]);
    var vallen := if e.isnull then 0 else e.vallen;
    w[2 * i] := ToWord(Entry(false, false, e.pos + e.keylen));
    w[2 * i + 1] := ToWord(Entry(false, e.isnull, e.pos + e.keylen + vallen));
    assert Olds(v)[i] == e && RewrittenAt(e, i, false, w[..]);
    forall j | 0 <= j < i
      ensures RewrittenAt(Olds(v)[j], j, false, w[..])
    {
      assert RewrittenAt(Olds(v)[j], j, false, before);
    }
  }

  /** The rewriting of the entries in place. */
  method Convert(w: array<int>, count: nat)
    requires w.Length == 2 * count && AllWords(w[..])
    modifies w
    ensures Rewritten(old(w[..]), count, true, w[..])
  {
    ghost var v := w[..];
    var i := 0;
    while i < count
      invariant 0 <= i <= count && Rewritten(v, i, false, w[..])
    {
      RewriteOne(w, i, v);
      i := i + 1;
    }
    if count > 0 {
      ghost var before := w[..];
      assert RewrittenAt(Olds(v)[0], 0, false, before);
      FlagKey(Olds(v)[0]);
      w[0] := FlagWord(w[0]);
      forall j | 0 <= j < count
        ensures RewrittenAt(Olds(v)[j], j, true, w[..])
      {
        assert RewrittenAt(Olds(v)[j], j, false, before);
      }
    }
  }

  /** A value as it is found: the entries, the word behind them, which a value without
      entries has in the place of its first, and the header's fields. */
  class Value {
    const words: array<int>
    const behind: int
    var flagged: bool
    var size: nat
    var varsize: nat

    constructor (words: array<int>, behind: int, flagged: bool, size: nat, varsize: nat)
      ensures this.words == words && this.behind == behind
      ensures this.flagged == flagged && this.size == size && this.varsize == varsize
    {
      this.words, this.behind, this.flagged, this.size, this.varsize := words, behind, flagged, size, varsize;
    }

    /** `hstoreUpgrade`; false when it raises an error. */
    method Upgrade() returns (ok: bool)
      requires AllWords(words[..]) && words.Length == 2 * Count(size)
      modifies this, words
      ensures old(flagged) ==> ok && unchanged(this) && unchanged(words)
      ensures !old(flagged) ==> (ok <==> Accepted(old(words[..]), behind, old(size), old(varsize)))
      ensures !old(flagged) && ok ==>
        && flagged && size == Count(old(size)) && varsize == DataSize(size, StringsEnd(News(words[..])))
        && UpgradedTo(old(words[..]), behind, old(size), old(varsize), words[..])
    {
      if flagged {
        return true;
      }
      if size == 0 || (varsize < 32768 && FromWord(if words.Length > 0 then words[0] else behind).first) {
        SetHeader();
        return true;
      }
      var validNew := ValidNew(words, Count(size), varsize);
      var validOld := ValidOld(words, size, varsize);
      if validOld == 0 {
        if validNew != 0 {
          SetHeader();
          return true;
        }
        return false;
      }
      Convert(words, size);
      SetHeader();
      return true;
    }

    /** `HS_SETCOUNT` and `HS_FIXSIZE`. */
    method SetHeader()
      requires words.Length == 2 * Count(size)
      modifies this
      ensures flagged && size == Count(old(size)) && varsize == DataSize(size, StringsEnd(News(words[..])))
    {
      flagged, size := true, Count(size);
      varsize := DataSize(size, if size > 0 then FromWord(words[2 * size - 1]).endpos else 0);
    }
  }

  /** The shortcut: an empty value, or a short one whose first entry has the flag that
      only new entries have, is not converted. */
  predicate TakenAsNew(w: seq<int>, behind: int, size: nat, varsize: nat) {
    size == 0 || (varsize < 32768 && FromWord(if w != [] then w[0] else behind).first)
  }

  predicate Accepted(w: seq<int>, behind: int, size: nat, varsize: nat)
    requires AllWords(w)
  {
    TakenAsNew(w, behind, size, varsize) || OldValid(Olds(w), size, varsize) || NewValid(News(w), Count(size), varsize)
  }

  /** The entries `w'` that a value with the entries `w` ends up with. */
  predicate UpgradedTo(w: seq<int>, behind: int, size: nat, varsize: nat, w': seq<int>)
    requires AllWords(w)
  {
    if !TakenAsNew(w, behind, size, varsize) && OldValid(Olds(w), size, varsize) then Rewritten(w, size, true, w') else w' == w
  }

  // -------------------------------------------------------- the pairs are kept

  lemma {:induction false} OldStartGrows(os: seq<OldEntry>, i: nat, n: nat)
    requires i <= n <= |os|
    ensures OldStart(os, i) <= OldStart(os, n)
  {
    if i == n {
    } else {
      OldStartGrows(os, i, n - 1);
    }
  }

  lemma OldPlaced(os: seq<OldEntry>, size: nat, varsize: nat, i: nat)
    requires OldValid(os, size, varsize) && i < size
    ensures os[i].pos == OldStart(os, i) && OldStart(os, i + 1) == OldStart(os, i) + StoredLen(os[i])
    ensures DataSize(size, OldStart(os, i + 1)) <= varsize
  {
    OldStartGrows(os, i + 1, size);
    assert Contiguous(os, i);
  }

  /** The rewritten words as entries. */
  lemma RewrittenReads(e: OldEntry, i: nat, w: seq<int>)
    requires RewrittenAt(e, i, true, w) && e.pos + StoredLen(e) < TWO_30
    ensures News(w)[2 * i] == KeyFor(e, i == 0) && News(w)[2 * i + 1] == ValueFor(e)
  {
    WordReads(w, 2 * i, KeyFor(e, i == 0));
    WordReads(w, 2 * i + 1, ValueFor(e));
  }

  lemma WordReads(w: seq<int>, k: nat, e: Entry)
    requires k < |w| && w[k] == ToWord(e) && e.endpos < TWO_30
    ensures News(w)[k] == e
  {
    WordRoundTrip(e);
  }

  lemma PairFromEntries(e: OldEntry, es: seq<Entry>, str: Octets, i: nat)
    requires e.pos + StoredLen(e) <= |str| && 2 * i + 1 < |es|
    requires es[2 * i] == KeyFor(e, i == 0) && es[2 * i + 1] == ValueFor(e)
    requires if i == 0 then e.pos == 0 else es[2 * i - 1].endpos == e.pos
    ensures SamePair(e, es, str, i)
  {
  }

  lemma RewrittenPair(os: seq<OldEntry>, w: seq<int>, str: Octets, size: nat, varsize: nat, i: nat)
    requires OldValid(os, size, varsize) && varsize < TWO_30 && |str| == varsize - HEADER - 8 * size
    requires i < size && RewrittenAt(os[i], i, true, w) && (i > 0 ==> RewrittenAt(os[i - 1], i - 1, true, w))
    ensures SamePair(os[i], News(w), str, i)
  {
    OldPlaced(os, size, varsize, i);
    RewrittenReads(os[i], i, w);
    if i > 0 {
      OldPlaced(os, size, varsize, i - 1);
      RewrittenReads(os[i - 1], i - 1, w);
    }
    PairFromEntries(os[i], News(w), str, i);
  }

  /** The rewriting keeps the meaning of every valid old value. */
  lemma RewrittenMeaning(w: seq<int>, w': seq<int>, str: Octets, size: nat, varsize: nat)
    requires AllWords(w) && OldValid(Olds(w), size, varsize) && Rewritten(w, size, true, w')
    requires varsize < TWO_30 && |str| == varsize - HEADER - 8 * size
    ensures SamePairs(Olds(w), News(w'), str)
  {
    forall i | 0 <= i < |Olds(w)|
      ensures SamePair(Olds(w)[i], News(w'), str, i)
    {
      RewrittenPair(Olds(w), w', str, size, varsize, i);
    }
  }

  /** A short value whose first pair is null but has a stored value length of 32768 or
      more. */
  predicate Misread(os: seq<OldEntry>, varsize: nat)
    requires os != []
  {
    varsize < 32768 && os[0].isnull && os[0].vallen >= 32768
  }

  lemma HighBit(w0: int)
    requires IsWord(w0)
    ensures FromWord(w0).first <==> w0 / TWO_16 >= 32768
  {
  }

  /** The shortcut is taken by a valid old value exactly in that case. */
  lemma ShortcutTaken(w: seq<int>, behind: int, size: nat, varsize: nat)
    requires AllWords(w) && OldValid(Olds(w), size, varsize) && size > 0
    ensures TakenAsNew(w, behind, size, varsize) <==> Misread(Olds(w), varsize)
  {
    HighBit(w[0]);
    OldPlaced(Olds(w), size, varsize, 0);
  }

  /** A null value at the front whose entry is not rewritten is no longer null. */
  lemma NullLost(w: seq<int>, str: Octets)
    requires AllWords(w) && |w| >= 2 && Olds(w)[0].pos == 0 && Olds(w)[0].isnull
    ensures !SamePair(Olds(w)[0], News(w), str, 0)
  {
    assert w[1] == 1;
    assert !News(w)[1].isnull;
  }

  /** `hstoreUpgrade` as a whole keeps the meaning of a valid old value unless its
      first pair is null with a large stored value length and the value is short:
      then the null value is lost. */
  lemma UpgradeExact(w: seq<int>, behind: int, w': seq<int>, str: Octets, size: nat, varsize: nat)
    requires AllWords(w) && OldValid(Olds(w), size, varsize) && size > 0 && UpgradedTo(w, behind, size, varsize, w')
    requires varsize < TWO_30 && |str| == varsize - HEADER - 8 * size
    ensures SamePairs(Olds(w), News(w'), str) <==> !Misread(Olds(w), varsize)
  {
    ShortcutTaken(w, behind, size, varsize);
    if Misread(Olds(w), varsize) {
      OldPlaced(Olds(w), size, varsize, 0);
      NullLost(w, str);
    } else {
      RewrittenMeaning(w, w', str, size, varsize);
    }
  }

  /** Such a value: an empty key with a null value. */
  lemma MisreadExists()
    ensures OldValid(Olds([0x8000_0000, 1]), 1, 16) && Misread(Olds([0x8000_0000, 1]), 16)
  {
    var os := Olds([0x8000_0000, 1]);
    assert os[0] == OldEntry(0, 0x8000, true, 0);
    assert OldStart(os, 1) == OldStart(os, 0) + StoredLen(os[0]);
  }

  // --------------------------------------------------------- entries in bytes

  function WordBytes(w: int): Octets { [w % 0x100, w / 0x100 % 0x100, w / 0x1_0000 % 0x100, w / 0x100_0000] }

  function BytesWord(s: Octets): int {
    if |s| == 4 then s[0] + 0x100 * s[1] + 0x1_0000 * s[2] + 0x100_0000 * s[3] else 0
  }

  lemma BytesRoundTrip(w: int)
    ensures BytesWord(WordBytes(w)) == w
  {
    var b := w / 0x100;
    var c := b / 0x100;
    assert w == b * 0x100 + w % 0x100 && b == c * 0x100 + b % 0x100 && c == c / 0x100 * 0x100 + c % 0x100;
    assert c == w / 0x1_0000 && c / 0x100 == w / 0x100_0000;
  }

  /** The layout of an entry in four bytes, the low byte first. */
  const HENTRY: Codec := Codec((e: Entry) => WordBytes(ToWord(e)), (s: Octets) => FromWord(BytesWord(s)))

  /** The layout in `hstore.h` is one for which the packed form can be read back. */
  lemma HEntryGood()
    ensures Good(HENTRY)
  {
    forall e: Entry
      ensures |HENTRY.put(e)| == 4 && (e.endpos < TWO_30 ==> HENTRY.get(HENTRY.put(e)) == e)
    {
      BytesRoundTrip(ToWord(e));
      if e.endpos < TWO_30 {
        WordRoundTrip(e);
      }
    }
  }
}
