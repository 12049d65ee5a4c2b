/** The on-disk entities that the B-tree verifier reads: heap TIDs, index tuples,
    pages and the index itself, together with the sanity checks made on every
    page that is loaded (`palloc_btree_page`) and on every tuple's attribute
    count (`_bt_check_natts`).  Only version 4 ("heapkeyspace") indexes are modelled. */
module BtreePages {
  import opened Optional

  const P_NONE: nat := 0
  const BTREE_METAPAGE: nat := 0
  const INVALID_BLOCK: nat := 0xFFFF_FFFF
  const P_HIKEY: nat := 1
  const INVALID_OFFSET: nat := 0
  const MAX_TUPLES_PER_PAGE: nat := 408

  /** A heap tuple identifier (`ItemPointerData`). */
  datatype Tid = Tid(block: nat, posid: nat)

  predicate TidLess(a: Tid, b: Tid) {
    a.block < b.block || (a.block == b.block && a.posid < b.posid)
  }

  /** One attribute value.  `rank` is the value's place in the column's operator
      class order; `image` identifies its bytes, so equal ranks may differ. */
  datatype Attr = Null | Val(rank: real, image: nat)

  datatype ColumnOption = ColumnOption(desc: bool, nullsFirst: bool)

  /** `Pivot` tuples are high keys and separators: `block` is the downlink (or a
      half-dead leaf's top parent), trailing attributes may be truncated away and
      the tiebreaker heap TID may be absent.  `Plain` and `Posting` tuples live on
      leaf pages; a posting list has at least one TID. */
  datatype IndexTuple =
    | Pivot(block: nat, atts: seq<Attr>, heapTid: Option<Tid>)
    | Plain(atts: seq<Attr>, tid: Tid)
    | Posting(postingOffset: nat, atts: seq<Attr>, first: Tid, rest: seq<Tid>)

  function HeapTid(t: IndexTuple): Option<Tid> {
    match t
    case Pivot(_, _, h) => h
    case Plain(_, tid) => Some(tid)
    case Posting(_, _, first, _) => Some(first)
  }

  function MaxHeapTid(t: IndexTuple): Option<Tid> {
    if t.Posting? && |t.rest| > 0 then Some(t.rest[|t.rest| - 1]) else HeapTid(t)
  }

  /** `BTreeTupleGetDownLink`: the block number half of the tuple's `t_tid`. */
  function DownLink(t: IndexTuple): nat {
    match t
    case Pivot(block, _, _) => block
    case Plain(_, tid) => tid.block
    case Posting(offset, _, _, _) => offset
  }

  /** `items[k]` is the item at offset number `k + 1`. */
  datatype Page = Page(
    meta: bool, metaValid: bool,
    leaf: bool, root: bool, deleted: bool, halfDead: bool,
    incompleteSplit: bool, hasGarbage: bool, fullXid: bool,
    level: nat, prev: nat, next: nat, items: seq<IndexTuple>)

  predicate Ignore(p: Page) { p.deleted || p.halfDead }

  predicate Rightmost(p: Page) { p.next == P_NONE }

  function FirstDataKey(p: Page): nat { if Rightmost(p) then 1 else 2 }

  function MaxOffset(p: Page): nat { |p.items| }

  predicate HasItem(p: Page, offset: nat) { 1 <= offset <= MaxOffset(p) }

  function Item(p: Page, offset: nat): IndexTuple
    requires HasItem(p, offset)
  {
    p.items[offset - 1]
  }

  predicate NegativeInfinity(p: Page, offset: nat) {
    !p.leaf && offset == FirstDataKey(p)
  }

  /** An index: its column options (one per key attribute), whether it has INCLUDE
      columns, and its blocks. */
  datatype Index = Index(columns: seq<ColumnOption>, hasInclude: bool, pages: map<nat, Page>)

  function KeyCount(ix: Index): nat { |ix.columns| }

  /** Representation: non-pivot tuples carry a value for every key attribute (the
      tuple descriptor fixes their layout), and a block number is below
      `InvalidBlockNumber`. */
  ghost predicate Valid(ix: Index) {
    && KeyCount(ix) > 0
    && INVALID_BLOCK !in ix.pages
    && forall b, k {:trigger ix.pages[b].items[k]} ::
         b in ix.pages && 0 <= k < |ix.pages[b].items| && !ix.pages[b].items[k].Pivot?
         ==> |ix.pages[b].items[k].atts| == KeyCount(ix)
  }

  /** `palloc_btree_page` returns a page (false: it raises an error). */
  predicate Loads(ix: Index, blk: nat) {
    blk in ix.pages &&
    var p := ix.pages[blk];
    if blk == BTREE_METAPAGE then p.meta && p.metaValid
    else
      && !p.meta
      && (!p.deleted || p.fullXid ==> (p.leaf <==> p.level == 0))
      && MaxOffset(p) <= MAX_TUPLES_PER_PAGE
      && (!p.leaf && !p.deleted ==> MaxOffset(p) >= FirstDataKey(p))
      && (p.leaf && !p.deleted && !Rightmost(p) ==> MaxOffset(p) >= P_HIKEY)
      && (!p.leaf ==> !p.halfDead && !p.hasGarbage)
      && (p.fullXid ==> p.deleted)
      && !(p.deleted && p.halfDead)
  }

  /** Number of attributes stored (`BTreeTupleGetNAtts`, capped at the key
      attributes for non-pivot tuples). */
  function NAtts(t: IndexTuple): nat { |t.atts| }

  /** `_bt_check_natts` for a version 4 index. */
  predicate CheckNatts(ix: Index, p: Page, offset: nat)
    requires HasItem(p, offset)
  {
    var t := Item(p, offset);
    if Ignore(p) then true
    else if ix.hasInclude && t.Posting? then false
    else if p.leaf && offset >= FirstDataKey(p) then !t.Pivot?
    else if !p.leaf && offset == FirstDataKey(p) then t.Pivot? && NAtts(t) == 0
    else
      && t.Pivot?
      && (t.heapTid.Some? ==> NAtts(t) == KeyCount(ix))
      && 0 < NAtts(t) <= KeyCount(ix)
  }
}
