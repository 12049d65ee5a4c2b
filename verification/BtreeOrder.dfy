/** `_bt_compare`, the verifier's `invariant_*` tests built on it, and the order
    they decide: keys compare column by column, a truncated attribute is minus
    infinity, and the heap TID is the last column. */
module BtreeOrder {
  import opened Optional
  import opened BtreePages

  /** An insertion scan key; omitted trailing attributes are not in `atts`. */
  datatype ScanKey = ScanKey(atts: seq<Attr>, scantid: Option<Tid>)

  function Min(a: nat, b: nat): nat { if a < b then a else b }

  function KeyAtts(ix: Index, t: IndexTuple): seq<Attr> {
    t.atts[..Min(KeyCount(ix), NAtts(t))]
  }

  /** `bt_mkscankey_pivotsearch`. */
  function MakeScanKey(ix: Index, t: IndexTuple): ScanKey {
    ScanKey(KeyAtts(ix, t), HeapTid(t))
  }

  /** The key whose tiebreaker is the largest TID of a posting list. */
  function MaxScanKey(ix: Index, t: IndexTuple): ScanKey {
    ScanKey(KeyAtts(ix, t), MaxHeapTid(t))
  }

  function CompareAttr(o: ColumnOption, key: Attr, item: Attr): int {
    match (key, item)
    case (Null, Null) => 0
    case (Null, Val(_, _)) => if o.nullsFirst then -1 else 1
    case (Val(_, _), Null) => if o.nullsFirst then 1 else -1
    case (Val(k, _), Val(i, _)) =>
      var c := if i < k then -1 else if i > k then 1 else 0;
      if o.desc then c else -c
  }

  function CompareAtts(ix: Index, key: seq<Attr>, item: seq<Attr>, from: nat, to: nat): int
    requires from <= to <= |key| && to <= |item| && to <= KeyCount(ix)
    decreases |key| - from
  {
    if from == to then 0
    else
      var c := CompareAttr(ix.columns[from], key[from], item[from]);
      if c != 0 then c else CompareAtts(ix, key, item, from + 1, to)
  }

  function CompareTids(a: Tid, b: Tid): int {
    if TidLess(a, b) then -1 else if TidLess(b, a) then 1 else 0
  }

  /** `_bt_compare` of a scan key against one tuple. */
  function Compare(ix: Index, key: ScanKey, t: IndexTuple): int
    requires |key.atts| <= KeyCount(ix)
  {
    var c := CompareAtts(ix, key.atts, t.atts, 0, Min(NAtts(t), |key.atts|));
    if c != 0 then c
    else if |key.atts| > NAtts(t) then 1
    else if key.scantid.None? then 0
    else if HeapTid(t).None? then 1
    else
      var d := CompareTids(key.scantid.value, HeapTid(t).value);
      if d <= 0 || !t.Posting? then d
      else if CompareTids(key.scantid.value, MaxHeapTid(t).value) > 0 then 1 else 0
  }

  /** `_bt_compare` against an item of a page: the first data item of an internal
      page always compares as less than the key. */
  function CompareOnPage(ix: Index, key: ScanKey, p: Page, offset: nat): int
    requires |key.atts| <= KeyCount(ix) && HasItem(p, offset)
  {
    if NegativeInfinity(p, offset) then 1 else Compare(ix, key, Item(p, offset))
  }

  /** `BTreeTupleGetHeapTIDCareful` accepts the tuple. */
  predicate CarefulTid(t: IndexTuple, nonpivot: bool) {
    (t.Pivot? <==> !nonpivot) && (nonpivot ==> HeapTid(t).value.posid != 0)
  }

  /** `invariant_l_offset` and `invariant_l_nontarget_offset`: the key is strictly
      less than the item.  False also stands for the errors raised on the way. */
  predicate LessThanItem(ix: Index, key: ScanKey, p: Page, offset: nat)
    requires |key.atts| <= KeyCount(ix)
  {
    HasItem(p, offset) &&
    var c := CompareOnPage(ix, key, p, offset);
    if c != 0 then c < 0
    else
      var t := Item(p, offset);
      var n := Min(KeyCount(ix), NAtts(t));
      && CarefulTid(t, p.leaf && offset >= FirstDataKey(p))
      && if |key.atts| == n then key.scantid.None? && HeapTid(t).Some? else |key.atts| < n
  }

  /** `invariant_leq_offset`. */
  predicate AtMostItem(ix: Index, key: ScanKey, p: Page, offset: nat)
    requires |key.atts| <= KeyCount(ix)
  {
    HasItem(p, offset) && CompareOnPage(ix, key, p, offset) <= 0
  }

  /** `invariant_g_offset`. */
  predicate GreaterThanItem(ix: Index, key: ScanKey, p: Page, offset: nat)
    requires |key.atts| <= KeyCount(ix)
  {
    HasItem(p, offset) && CompareOnPage(ix, key, p, offset) > 0
  }

  // ---------------------------------------------------------------- the order

  /** A point of the key space: a tuple's key attributes and tiebreaker TID. */
  datatype Position = Position(atts: seq<Attr>, tid: Option<Tid>)

  function LowPosition(ix: Index, t: IndexTuple): Position {
    Position(KeyAtts(ix, t), HeapTid(t))
  }

  function HighPosition(ix: Index, t: IndexTuple): Position {
    Position(KeyAtts(ix, t), MaxHeapTid(t))
  }

  /** Column `j` of `a` is below column `j` of `b`; an absent column is minus
      infinity, and column `KeyCount` is the heap TID. */
  predicate LessAt(ix: Index, a: Position, b: Position, j: nat) {
    if j < KeyCount(ix) then
      j < |b.atts| && (j >= |a.atts| || CompareAttr(ix.columns[j], a.atts[j], b.atts[j]) < 0)
    else
      b.tid.Some? && (a.tid.None? || TidLess(a.tid.value, b.tid.value))
  }

  predicate SameAt(ix: Index, a: Position, b: Position, j: nat) {
    if j < KeyCount(ix) then
      if j < |a.atts| && j < |b.atts|
      then CompareAttr(ix.columns[j], a.atts[j], b.atts[j]) == 0
      else j >= |a.atts| && j >= |b.atts|
    else
      if a.tid.Some? && b.tid.Some?
      then !TidLess(a.tid.value, b.tid.value) && !TidLess(b.tid.value, a.tid.value)
      else a.tid.None? && b.tid.None?
  }

  ghost predicate SameBelow(ix: Index, a: Position, b: Position, n: nat) {
    forall j: nat :: j < n ==> SameAt(ix, a, b, j)
  }

  /** `a` comes strictly before `b`. */
  ghost predicate Before(ix: Index, a: Position, b: Position) {
    exists j: nat :: j <= KeyCount(ix) && LessAt(ix, a, b, j) && SameBelow(ix, a, b, j)
  }

  ghost predicate SamePlace(ix: Index, a: Position, b: Position) {
    SameBelow(ix, a, b, KeyCount(ix) + 1)
  }

  ghost predicate NotAfter(ix: Index, a: Position, b: Position) {
    Before(ix, a, b) || SamePlace(ix, a, b)
  }

  /** Only a position with every key attribute may carry a TID. */
  predicate Regular(ix: Index, a: Position) {
    |a.atts| <= KeyCount(ix) && (a.tid.Some? ==> |a.atts| == KeyCount(ix))
  }

  lemma SameFlips(ix: Index, a: Position, b: Position, n: nat)
    requires SameBelow(ix, a, b, n)
    ensures SameBelow(ix, b, a, n)
  {
    forall j: nat | j < n
      ensures SameAt(ix, b, a, j)
    {
      assert SameAt(ix, a, b, j);
    }
  }

  lemma SameChains(ix: Index, a: Position, b: Position, c: Position, n: nat)
    requires SameBelow(ix, a, b, n) && SameBelow(ix, b, c, n)
    ensures SameBelow(ix, a, c, n)
  {
    forall j: nat | j < n
      ensures SameAt(ix, a, c, j)
    {
      assert SameAt(ix, a, b, j) && SameAt(ix, b, c, j);
    }
  }

  lemma BeforeTransitive(ix: Index, a: Position, b: Position, c: Position)
    requires Before(ix, a, b) && Before(ix, b, c)
    ensures Before(ix, a, c)
  {
    var j: nat :| j <= KeyCount(ix) && LessAt(ix, a, b, j) && SameBelow(ix, a, b, j);
    var k: nat :| k <= KeyCount(ix) && LessAt(ix, b, c, k) && SameBelow(ix, b, c, k);
    var m := Min(j, k);
    assert m < k ==> SameAt(ix, b, c, m);
    assert m < j ==> SameAt(ix, a, b, m);
    assert LessAt(ix, a, c, m);
    SameChains(ix, a, b, c, m);
  }

  lemma NotAfterThenBefore(ix: Index, a: Position, b: Position, c: Position)
    requires NotAfter(ix, a, b) && Before(ix, b, c)
    ensures Before(ix, a, c)
  {
    if SamePlace(ix, a, b) {
      var k: nat :| k <= KeyCount(ix) && LessAt(ix, b, c, k) && SameBelow(ix, b, c, k);
      assert SameAt(ix, a, b, k);
      assert LessAt(ix, a, c, k);
      SameChains(ix, a, b, c, k);
    } else {
      BeforeTransitive(ix, a, b, c);
    }
  }

  /** The order is strict. */
  lemma BeforeStrict(ix: Index, a: Position, b: Position)
    requires Before(ix, a, b)
    ensures !NotAfter(ix, b, a)
  {
    var j: nat :| j <= KeyCount(ix) && LessAt(ix, a, b, j) && SameBelow(ix, a, b, j);
    assert !SameAt(ix, b, a, j);
    forall k: nat
      ensures !(LessAt(ix, b, a, k) && SameBelow(ix, b, a, k) && k <= KeyCount(ix))
    {
      if k < j {
        assert SameAt(ix, a, b, k);
      }
    }
  }

  // ------------------------------------------- what the comparisons decide

  lemma {:induction false} CompareAttsMeaning(ix: Index, a: Position, b: Position, from: nat, to: nat)
    requires from <= to <= |a.atts| && to <= |b.atts| && to <= KeyCount(ix)
    requires SameBelow(ix, a, b, from)
    ensures CompareAtts(ix, a.atts, b.atts, from, to) == 0 ==> SameBelow(ix, a, b, to)
    ensures CompareAtts(ix, a.atts, b.atts, from, to) < 0 ==>
      exists j: nat :: j < to && LessAt(ix, a, b, j) && SameBelow(ix, a, b, j)
    ensures CompareAtts(ix, a.atts, b.atts, from, to) > 0 ==>
      exists j: nat :: j < to && LessAt(ix, b, a, j) && SameBelow(ix, b, a, j)
    decreases |a.atts| - from
  {
    if from == to {
    } else {
      var c := CompareAttr(ix.columns[from], a.atts[from], b.atts[from]);
      SameFlips(ix, a, b, from);
      if c < 0 {
        assert LessAt(ix, a, b, from);
      } else if c > 0 {
        assert LessAt(ix, b, a, from);
      } else {
        assert SameAt(ix, a, b, from);
        CompareAttsMeaning(ix, a, b, from + 1, to);
      }
    }
  }

  /** Columns past both tuples' attributes are minus infinity on both sides. */
  lemma SameTail(ix: Index, a: Position, b: Position, n: nat)
    requires Regular(ix, a) && Regular(ix, b)
    requires n == |a.atts| == |b.atts| && SameBelow(ix, a, b, n)
    ensures SameBelow(ix, a, b, KeyCount(ix))
  {
  }

  /** `_bt_compare` together with the extra step of `invariant_l_offset` decides
      exactly the strict order, reading a posting list by its first TID. */
  lemma LessThanItemMeaning(ix: Index, a: IndexTuple, p: Page, offset: nat)
    requires HasItem(p, offset) && !NegativeInfinity(p, offset)
    requires Regular(ix, LowPosition(ix, a)) && Regular(ix, LowPosition(ix, Item(p, offset)))
    requires NAtts(Item(p, offset)) <= KeyCount(ix)
    ensures LessThanItem(ix, MakeScanKey(ix, a), p, offset)
      ==> Before(ix, LowPosition(ix, a), LowPosition(ix, Item(p, offset)))
    ensures Before(ix, LowPosition(ix, a), LowPosition(ix, Item(p, offset)))
      && CarefulTid(Item(p, offset), p.leaf && offset >= FirstDataKey(p))
      ==> LessThanItem(ix, MakeScanKey(ix, a), p, offset)
  {
    var t := Item(p, offset);
    var x, y := LowPosition(ix, a), LowPosition(ix, t);
    assert y.atts == t.atts;
    var n := Min(|y.atts|, |x.atts|);
    CompareAttsMeaning(ix, x, y, 0, n);
    var c := CompareAtts(ix, x.atts, y.atts, 0, n);
    if c < 0 {
      assert Before(ix, x, y);
    } else if c > 0 {
      assert Before(ix, y, x);
      BeforeStrict(ix, y, x);
    } else if |x.atts| < |y.atts| {
      assert LessAt(ix, x, y, n);
      assert Before(ix, x, y);
    } else if |x.atts| > |y.atts| {
      SameFlips(ix, x, y, n);
      assert LessAt(ix, y, x, n);
      assert Before(ix, y, x);
      BeforeStrict(ix, y, x);
    } else {
      SameTail(ix, x, y, n);
      TidDecides(ix, x, y);
    }
  }

  lemma TidDecides(ix: Index, x: Position, y: Position)
    requires SameBelow(ix, x, y, KeyCount(ix))
    ensures Before(ix, x, y) <==> LessAt(ix, x, y, KeyCount(ix))
    ensures SamePlace(ix, x, y) <==> SameAt(ix, x, y, KeyCount(ix))
  {
    if Before(ix, x, y) {
      var j: nat :| j <= KeyCount(ix) && LessAt(ix, x, y, j) && SameBelow(ix, x, y, j);
      assert j < KeyCount(ix) ==> SameAt(ix, x, y, j);
    }
  }

  /** The cross-page test: the right page's first key is strictly above the last
      item, reading the last item's posting list by its greatest TID. */
  lemma GreaterThanItemMeaning(ix: Index, a: IndexTuple, p: Page, offset: nat)
    requires HasItem(p, offset) && !NegativeInfinity(p, offset)
    requires Regular(ix, LowPosition(ix, a)) && Regular(ix, HighPosition(ix, Item(p, offset)))
    requires NAtts(Item(p, offset)) <= KeyCount(ix)
    requires GreaterThanItem(ix, MakeScanKey(ix, a), p, offset)
    ensures Before(ix, HighPosition(ix, Item(p, offset)), LowPosition(ix, a))
  {
    var t := Item(p, offset);
    var x, y := LowPosition(ix, a), HighPosition(ix, t);
    assert y.atts == t.atts;
    var n := Min(|y.atts|, |x.atts|);
    CompareAttsMeaning(ix, x, y, 0, n);
    if CompareAtts(ix, x.atts, y.atts, 0, n) == 0 {
      SameFlips(ix, x, y, n);
      if |x.atts| > |y.atts| {
        assert LessAt(ix, y, x, n);
      } else {
        SameTail(ix, y, x, n);
        assert LessAt(ix, y, x, KeyCount(ix));
      }
    }
  }

  /** The high-key test on a leaf page, made with the item's greatest TID. */
  lemma AtMostItemMeaning(ix: Index, a: IndexTuple, p: Page, offset: nat)
    requires HasItem(p, offset) && !NegativeInfinity(p, offset) && Item(p, offset).Pivot?
    requires |KeyAtts(ix, a)| == KeyCount(ix) && HeapTid(a).Some?
    requires Regular(ix, LowPosition(ix, Item(p, offset)))
    requires NAtts(Item(p, offset)) <= KeyCount(ix)
    ensures AtMostItem(ix, MaxScanKey(ix, a), p, offset)
      <==> NotAfter(ix, HighPosition(ix, a), LowPosition(ix, Item(p, offset)))
  {
    var t := Item(p, offset);
    var x, y := HighPosition(ix, a), LowPosition(ix, t);
    assert y.atts == t.atts;
    var n := NAtts(t);
    CompareAttsMeaning(ix, x, y, 0, n);
    var c := CompareAtts(ix, x.atts, y.atts, 0, n);
    if c > 0 {
      assert Before(ix, y, x);
      BeforeStrict(ix, y, x);
    } else if c < 0 {
      assert Before(ix, x, y);
    } else if n < KeyCount(ix) {
      SameFlips(ix, x, y, n);
      assert LessAt(ix, y, x, n);
      assert Before(ix, y, x);
      BeforeStrict(ix, y, x);
    } else {
      TidDecides(ix, x, y);
    }
  }
}
