/** What a read-only run of the B-tree verifier accepts, stated without its loops:
    each walk over sibling links or downlinks is a path, and each check a predicate
    on the pages of that path. */
module BtreeSpec {
  import opened Optional
  import opened BtreePages
  import opened BtreeOrder

  // ------------------------------------------------------ walks over links

  /** The block that a walk along the links `f` reaches after `k` blocks of `path`. */
  function Reached(f: nat -> nat, first: nat, path: seq<nat>, k: nat): nat
    requires k <= |path|
  {
    if k == 0 then first else f(path[k - 1])
  }

  /** `path` starts at `first`, goes on along the links `f`, and each block is
      acceptable given the blocks before it. */
  ghost predicate Walk(f: nat -> nat, accept: (seq<nat>, nat) -> bool, first: nat, path: seq<nat>) {
    forall k {:trigger Reached(f, first, path, k)} :: 0 <= k < |path| ==>
      path[k] == Reached(f, first, path, k) && accept(path[..k], path[k])
  }

  lemma AcceptedAt(f: nat -> nat, accept: (seq<nat>, nat) -> bool, first: nat, path: seq<nat>, k: nat)
    requires Walk(f, accept, first, path) && k < |path|
    ensures path[k] == Reached(f, first, path, k) && accept(path[..k], path[k])
  {
  }

  lemma WalkExtends(f: nat -> nat, accept: (seq<nat>, nat) -> bool, first: nat, path: seq<nat>)
    requires Walk(f, accept, first, path) && accept(path, Reached(f, first, path, |path|))
    ensures Walk(f, accept, first, path + [Reached(f, first, path, |path|)])
  {
    var more := path + [Reached(f, first, path, |path|)];
    forall k | 0 <= k < |more|
      ensures more[k] == Reached(f, first, more, k) && accept(more[..k], more[k])
    {
      assert more[..k] == path[..k];
      if k < |path| {
        AcceptedAt(f, accept, first, path, k);
      }
    }
  }

  lemma WalkPrefix(f: nat -> nat, accept: (seq<nat>, nat) -> bool, first: nat, path: seq<nat>, n: nat)
    requires Walk(f, accept, first, path) && n <= |path|
    ensures Walk(f, accept, first, path[..n])
  {
    forall k | 0 <= k < n
      ensures path[..n][k] == Reached(f, first, path[..n], k) && accept(path[..n][..k], path[..n][k])
    {
      assert path[..n][..k] == path[..k];
      AcceptedAt(f, accept, first, path, k);
    }
  }

  /** A walk from where another one ends continues it. */
  lemma WalksJoin(f: nat -> nat, accept: (seq<nat>, nat) -> bool, accept': (seq<nat>, nat) -> bool,
                  first: nat, p: seq<nat>, q: seq<nat>)
    requires Walk(f, accept, first, p) && Walk(f, accept', Reached(f, first, p, |p|), q)
    requires forall m :: 0 <= m < |q| ==> accept(p + q[..m], q[m])
    ensures Walk(f, accept, first, p + q)
    ensures Reached(f, first, p + q, |p + q|) == Reached(f, Reached(f, first, p, |p|), q, |q|)
  {
    var all := p + q;
    forall j | 0 <= j < |all|
      ensures all[j] == Reached(f, first, all, j) && accept(all[..j], all[j])
    {
      if j < |p| {
        AcceptedAt(f, accept, first, p, j);
        assert all[..j] == p[..j];
      } else {
        AcceptedAt(f, accept', Reached(f, first, p, |p|), q, j - |p|);
        assert all[..j] == p + q[..j - |p|];
      }
    }
  }

  /** Part of a walk is a walk. */
  lemma WalkSlice(f: nat -> nat, accept: (seq<nat>, nat) -> bool, accept': (seq<nat>, nat) -> bool,
                  first: nat, path: seq<nat>, lo: nat, hi: nat)
    requires Walk(f, accept, first, path) && lo <= hi <= |path|
    requires forall j :: lo <= j < hi ==> accept'(path[lo..j], path[j])
    ensures Walk(f, accept', Reached(f, first, path, lo), path[lo..hi])
    ensures Reached(f, Reached(f, first, path, lo), path[lo..hi], hi - lo) == Reached(f, first, path, hi)
  {
    var q, start := path[lo..hi], Reached(f, first, path, lo);
    forall j | 0 <= j < |q|
      ensures q[j] == Reached(f, start, q, j) && accept'(q[..j], q[j])
    {
      AcceptedAt(f, accept, first, path, lo + j);
      assert q[..j] == path[lo..lo + j];
    }
  }

  /** Links lead one way only: two walks from the same block agree. */
  lemma {:induction false} WalksAgree(f: nat -> nat, accept: (seq<nat>, nat) -> bool, accept': (seq<nat>, nat) -> bool,
                                      first: nat, p: seq<nat>, q: seq<nat>)
    requires Walk(f, accept, first, p) && Walk(f, accept', first, q) && |p| <= |q|
    ensures p == q[..|p|]
    ensures Reached(f, first, p, |p|) == Reached(f, first, q, |p|)
  {
    if p == [] {
    } else {
      var n := |p| - 1;
      WalkPrefix(f, accept, first, p, n);
      WalksAgree(f, accept, accept', first, p[..n], q);
      AcceptedAt(f, accept, first, p, n);
      AcceptedAt(f, accept', first, q, n);
      assert p == p[..n] + [p[n]];
    }
  }

  /** No walk passes the block at which another one is refused. */
  lemma WalkStuck(f: nat -> nat, accept: (seq<nat>, nat) -> bool, first: nat, path: seq<nat>, q: seq<nat>)
    requires Walk(f, accept, first, path) && Walk(f, accept, first, q)
    requires !accept(path, Reached(f, first, path, |path|))
    ensures |q| <= |path| && q == path[..|q|]
    ensures Reached(f, first, q, |q|) == Reached(f, first, path, |q|)
  {
    if |q| <= |path| {
      WalksAgree(f, accept, accept, first, q, path);
    } else {
      AcceptedAt(f, accept, first, q, |path|);
      WalksAgree(f, accept, accept, first, path, q);
      assert false;
    }
  }

  /** Two walks from the same block that both end with the null link are one. */
  lemma WholeWalksAgree(f: nat -> nat, accept: (seq<nat>, nat) -> bool, accept': (seq<nat>, nat) -> bool,
                        first: nat, p: seq<nat>, q: seq<nat>)
    requires Walk(f, accept, first, p) && Walk(f, accept', first, q)
    requires Reached(f, first, p, |p|) == P_NONE && P_NONE !in q
    ensures |q| <= |p| && q == p[..|q|] && Reached(f, first, p, |q|) == Reached(f, first, q, |q|)
    ensures Reached(f, first, q, |q|) == P_NONE && P_NONE !in p ==> p == q
  {
    if |q| <= |p| {
      WalksAgree(f, accept', accept, first, q, p);
      if |q| < |p| {
        AcceptedAt(f, accept, first, p, |q|);
      }
    } else {
      AcceptedAt(f, accept', first, q, |p|);
      WalksAgree(f, accept, accept', first, p, q);
      assert false;
    }
  }

  /** A walk that ends never visits a block twice. */
  lemma {:induction false} EndingWalkDistinct(f: nat -> nat, accept: (seq<nat>, nat) -> bool, first: nat, path: seq<nat>, i: nat, j: nat)
    requires Walk(f, accept, first, path) && i < j < |path|
    requires Reached(f, first, path, |path|) == P_NONE && P_NONE !in path
    ensures path[i] != path[j]
    decreases |path| - j
  {
    AcceptedAt(f, accept, first, path, i + 1);
    if j + 1 < |path| {
      EndingWalkDistinct(f, accept, first, path, i + 1, j + 1);
      AcceptedAt(f, accept, first, path, j + 1);
    }
  }

  function RightLinks(ix: Index): nat -> nat {
    b => if b in ix.pages then ix.pages[b].next else P_NONE
  }

  function LeftLinks(ix: Index): nat -> nat {
    b => if b in ix.pages then ix.pages[b].prev else P_NONE
  }

  function FirstChildren(ix: Index): nat -> nat {
    b => if b in ix.pages then TargetLink(ix.pages[b], FirstDataKey(ix.pages[b])) else P_NONE
  }

  /** The downlink at an offset of a page; none where there is no item. */
  function TargetLink(p: Page, offset: nat): nat {
    if !HasItem(p, offset) then P_NONE else DownLink(Item(p, offset))
  }

  /** The last block of `path`, or `start` when nothing was visited yet. */
  function Last(start: nat, path: seq<nat>): nat {
    if path == [] then start else path[|path| - 1]
  }

  // ------------------------------------------ half-dead pages and deletions

  /** One step to the left onto a half-dead page that links back. */
  predicate HalfDeadStep(ix: Index, start: nat, from: nat, blk: nat) {
    && blk != P_NONE && Loads(ix, blk) && ix.pages[blk].halfDead
    && blk != start && blk != from && ix.pages[blk].next == from
  }

  function HalfDeadSteps(ix: Index, start: nat): (seq<nat>, nat) -> bool {
    (before: seq<nat>, blk: nat) => HalfDeadStep(ix, start, Last(start, before), blk)
  }

  /** Only half-dead pages lie to the left. */
  ghost predicate LeftmostIgnoringHalfDead(ix: Index, start: nat)
    requires start in ix.pages
  {
    exists path :: Walk(LeftLinks(ix), HalfDeadSteps(ix, start), ix.pages[start].prev, path)
      && Reached(LeftLinks(ix), ix.pages[start].prev, path, |path|) == P_NONE
  }

  function LevelBelow(level: nat): nat { if level == 0 then 0xFFFF_FFFF else level - 1 }

  /** One step of the descent along first downlinks, onto an internal page. */
  predicate DescentStep(ix: Index, from: nat, blk: nat) {
    && Loads(ix, blk) && !ix.pages[blk].leaf
    && from in ix.pages && ix.pages[blk].level == LevelBelow(ix.pages[from].level)
    && HasItem(ix.pages[blk], FirstDataKey(ix.pages[blk]))
  }

  function DescentSteps(ix: Index, top: nat): (seq<nat>, nat) -> bool {
    (before: seq<nat>, blk: nat) => DescentStep(ix, Last(top, before), blk)
  }

  /** `leaf` is a half-dead leaf whose high key names `top` as top parent. */
  predicate DeletionLeaf(ix: Index, top: nat, leaf: nat) {
    && Loads(ix, leaf)
    && var p := ix.pages[leaf];
       p.leaf && !p.deleted && p.halfDead && !Rightmost(p)
       && HasItem(p, P_HIKEY) && DownLink(Item(p, P_HIKEY)) == top
  }

  /** First downlinks lead from `top` to such a leaf. */
  ghost predicate InterruptedDeletion(ix: Index, top: nat)
    requires top in ix.pages
  {
    && HasItem(ix.pages[top], FirstDataKey(ix.pages[top]))
    && exists path :: Walk(FirstChildren(ix), DescentSteps(ix, top), FirstChildren(ix)(top), path)
         && DeletionLeaf(ix, top, Reached(FirstChildren(ix), FirstChildren(ix)(top), path, |path|))
  }

  /** A live page may lack a downlink (`bt_downlink_missing_check` is silent). */
  ghost predicate Excused(ix: Index, rightsplit: bool, blk: nat)
    requires blk in ix.pages
  {
    ix.pages[blk].root || rightsplit || (!ix.pages[blk].leaf && InterruptedDeletion(ix, blk))
  }

  // --------------------------------------- the child level, one downlink at a time

  /** What `state->prevrightlink` and `state->previncompletesplit` remember. */
  datatype ChildState = ChildState(prevrightlink: nat, incomplete: bool)

  const FRESH := ChildState(INVALID_BLOCK, false)

  /** The current target page and the high key of its left sibling. */
  datatype Target = Target(page: Page, lowkey: Option<IndexTuple>)

  /** `bt_pivot_tuple_identical`: equal in everything but the block number. */
  predicate Identical(a: IndexTuple, b: IndexTuple) {
    match (a, b)
    case (Pivot(_, x, t), Pivot(_, y, u)) => x == y && t == u
    case (Plain(x, t), Plain(y, u)) => x == y && t.posid == u.posid
    case (Posting(_, x, t, r), Posting(_, y, u, s)) => x == y && t == u && r == s
    case _ => false
  }

  /** The separator on the parent level that follows the child `blk`, wherever it
      is stored: the next pivot, the target's high key or its left sibling's. */
  function Separator(t: Target, offset: nat, blk: nat): Option<IndexTuple> {
    var pivot := if blk == TargetLink(t.page, offset) then offset + 1 else offset;
    if NegativeInfinity(t.page, pivot) then t.lowkey
    else if pivot > MaxOffset(t.page) then
      if !Rightmost(t.page) && HasItem(t.page, P_HIKEY) then Some(Item(t.page, P_HIKEY)) else None
    else if HasItem(t.page, pivot) then Some(Item(t.page, pivot)) else None
  }

  predicate HasHighKeyToMatch(p: Page) {
    !p.incompleteSplit && !Rightmost(p) && !p.halfDead
  }

  /** The child page's high key equals the separator that follows it. */
  predicate HighKeyMatches(t: Target, offset: nat, blk: nat, c: Page) {
    HasHighKeyToMatch(c) ==>
      && HasItem(c, P_HIKEY)
      && Separator(t, offset, blk).Some?
      && Identical(Item(c, P_HIKEY), Separator(t, offset, blk).value)
  }

  function SegmentStart(t: Target, offset: nat, st: ChildState): nat {
    if st.prevrightlink == INVALID_BLOCK then TargetLink(t.page, offset) else st.prevrightlink
  }

  /** The page left of the next one on the walk was split without a new downlink. */
  predicate SplitBefore(ix: Index, st: ChildState, before: seq<nat>) {
    if before == [] then st.prevrightlink != INVALID_BLOCK && st.incomplete
    else Last(P_NONE, before) in ix.pages && ix.pages[Last(P_NONE, before)].incompleteSplit
  }

  /** The page `blk`, met after the blocks `before` of the segment, passes every
      check of `bt_child_highkey_check`. */
  ghost predicate VisitOk(ix: Index, t: Target, offset: nat, st: ChildState, before: seq<nat>, blk: nat) {
    && blk != P_NONE && Loads(ix, blk)
    && var c := ix.pages[blk];
       && (before == [] && st.prevrightlink == INVALID_BLOCK ==> LeftmostIgnoringHalfDead(ix, blk))
       && (!c.deleted || c.fullXid ==> c.level == LevelBelow(t.page.level))
       && !(before != [] && blk == st.prevrightlink)
       && blk != c.prev
       && (blk != TargetLink(t.page, offset) && !Ignore(c) ==> Excused(ix, SplitBefore(ix, st, before), blk))
       && HighKeyMatches(t, offset, blk, c)
  }

  ghost function Visits(ix: Index, t: Target, offset: nat, st: ChildState): (seq<nat>, nat) -> bool {
    (before: seq<nat>, blk: nat) => VisitOk(ix, t, offset, st, before, blk)
  }

  ghost predicate SegmentWalk(ix: Index, t: Target, offset: nat, st: ChildState, path: seq<nat>) {
    Walk(RightLinks(ix), Visits(ix, t, offset, st), SegmentStart(t, offset, st), path)
  }

  /** A whole segment of the child level: up to the downlink, or to the end of the
      level when there is no downlink left. */
  ghost predicate SegmentShape(ix: Index, t: Target, offset: nat, st: ChildState, path: seq<nat>) {
    && SegmentWalk(ix, t, offset, st, path)
    && (forall k :: 0 <= k < |path| - 1 ==> path[k] != TargetLink(t.page, offset))
    && if TargetLink(t.page, offset) == P_NONE
       then Reached(RightLinks(ix), SegmentStart(t, offset, st), path, |path|) == P_NONE
       else |path| > 0 && path[|path| - 1] == TargetLink(t.page, offset)
  }

  ghost function Segment(ix: Index, t: Target, offset: nat, st: ChildState): seq<nat> -> bool {
    (path: seq<nat>) => SegmentShape(ix, t, offset, st, path)
  }

  ghost predicate SegmentOk(ix: Index, t: Target, offset: nat, st: ChildState) {
    exists path :: Segment(ix, t, offset, st)(path)
  }

  function StateAfter(ix: Index, downlink: nat): ChildState {
    if downlink == P_NONE || downlink !in ix.pages then FRESH
    else ChildState(ix.pages[downlink].next, ix.pages[downlink].incompleteSplit)
  }

  /** `ok` holds of every offset from `lo` up to but not including `hi`. */
  ghost predicate All(ok: nat -> bool, lo: nat, hi: nat) {
    forall o: nat :: lo <= o < hi ==> ok(o)
  }

  /** The key is strictly below the child's item at `o`, if that is a real item. */
  function BelowItems(ix: Index, key: ScanKey, child: Page): nat -> bool
    requires |key.atts| <= KeyCount(ix)
  {
    (o: nat) => NegativeInfinity(child, o) || LessThanItem(ix, key, child, o)
  }

  /** The downlink's key is a strict lower bound on the child's items. */
  ghost predicate AboveDownlink(ix: Index, pivot: IndexTuple, child: Page) {
    All(BelowItems(ix, MakeScanKey(ix, pivot), child), FirstDataKey(child), MaxOffset(child) + 1)
  }

  /** `bt_child_check` for the downlink at `offset`. */
  ghost predicate ChildOk(ix: Index, t: Target, offset: nat, st: ChildState)
    requires HasItem(t.page, offset)
  {
    && Loads(ix, TargetLink(t.page, offset))
    && SegmentOk(ix, t, offset, st)
    && !ix.pages[TargetLink(t.page, offset)].deleted
    && AboveDownlink(ix, Item(t.page, offset), ix.pages[TargetLink(t.page, offset)])
  }

  // ------------------------------------------------------------ the target page

  function PostingTid(t: IndexTuple, i: nat): Tid
    requires t.Posting? && i <= |t.rest|
  {
    if i == 0 then t.first else t.rest[i - 1]
  }

  predicate TidsIncrease(t: IndexTuple) {
    t.Posting? ==> forall i :: 0 <= i < |t.rest| ==> TidLess(PostingTid(t, i), t.rest[i])
  }

  predicate WithinHighKey(ix: Index, p: Page, offset: nat)
    requires HasItem(p, offset)
  {
    Rightmost(p) ||
    if p.leaf then AtMostItem(ix, MaxScanKey(ix, Item(p, offset)), p, P_HIKEY)
    else LessThanItem(ix, MaxScanKey(ix, Item(p, offset)), p, P_HIKEY)
  }

  predicate SteppedOver(ix: Index, blk: nat) {
    Loads(ix, blk) && Ignore(ix.pages[blk]) && !Rightmost(ix.pages[blk])
  }

  function StepsOver(ix: Index): (seq<nat>, nat) -> bool {
    (before: seq<nat>, blk: nat) => SteppedOver(ix, blk)
  }

  /** `blk` is the page that `bt_right_page_check_scankey` settles on. */
  ghost predicate RightNeighbour(ix: Index, p: Page, blk: nat) {
    && Loads(ix, blk) && !SteppedOver(ix, blk)
    && exists path :: Walk(RightLinks(ix), StepsOver(ix), p.next, path)
         && Reached(RightLinks(ix), p.next, path, |path|) == blk
  }

  /** There is one such page. */
  lemma NeighbourUnique(ix: Index, p: Page, path: seq<nat>, blk: nat)
    requires Walk(RightLinks(ix), StepsOver(ix), p.next, path)
    requires blk == Reached(RightLinks(ix), p.next, path, |path|) && !SteppedOver(ix, blk)
    ensures forall b :: RightNeighbour(ix, p, b) ==> b == blk
  {
    var f, accept := RightLinks(ix), StepsOver(ix);
    forall b, q | Walk(f, accept, p.next, q) && Reached(f, p.next, q, |q|) == b && !SteppedOver(ix, b)
      ensures b == blk
    {
      WalkStuck(f, accept, p.next, path, q);
      if |q| < |path| {
        AcceptedAt(f, accept, p.next, path, |q|);
      }
    }
  }

  /** The first real item's key, skipping an internal page's negative infinity item. */
  function FirstKey(ix: Index, p: Page): Option<ScanKey> {
    var offset := if p.leaf then FirstDataKey(p) else FirstDataKey(p) + 1;
    if HasItem(p, offset) then Some(MakeScanKey(ix, Item(p, offset))) else None
  }

  predicate BelowFirstKey(ix: Index, p: Page, right: Page) {
    FirstKey(ix, right).Some? ==> GreaterThanItem(ix, FirstKey(ix, right).value, p, MaxOffset(p))
  }

  ghost predicate LastBeforeRight(ix: Index, p: Page) {
    Rightmost(p) || exists blk :: RightNeighbour(ix, p, blk) && BelowFirstKey(ix, p, ix.pages[blk])
  }

  ghost predicate ItemOk(ix: Index, p: Page, offset: nat) {
    && HasItem(p, offset)
    && CheckNatts(ix, p, offset)
    && (!NegativeInfinity(p, offset) ==>
          && TidsIncrease(Item(p, offset))
          && WithinHighKey(ix, p, offset)
          && (offset < MaxOffset(p) ==> LessThanItem(ix, MakeScanKey(ix, Item(p, offset)), p, offset + 1))
          && (offset == MaxOffset(p) ==> LastBeforeRight(ix, p)))
  }

  ghost function Items(ix: Index, p: Page): nat -> bool {
    (o: nat) => ItemOk(ix, p, o)
  }

  /** The state in which the downlink at `offset` is checked, when the page's
      first downlink is checked in state `st`. */
  function StateAt(ix: Index, p: Page, offset: nat, st: ChildState): ChildState {
    if offset <= FirstDataKey(p) then st else StateAfter(ix, TargetLink(p, offset - 1))
  }

  ghost predicate DownlinkOk(ix: Index, t: Target, offset: nat, st: ChildState) {
    HasItem(t.page, offset) &&
    if NegativeInfinity(t.page, offset) then SegmentOk(ix, t, offset, StateAt(ix, t.page, offset, st))
    else ChildOk(ix, t, offset, StateAt(ix, t.page, offset, st))
  }

  ghost function Downlinks(ix: Index, t: Target, st: ChildState): nat -> bool {
    (o: nat) => DownlinkOk(ix, t, o, st)
  }

  /** Every downlink, and past the last of a rightmost page the rest of the level. */
  ghost predicate ChildrenOk(ix: Index, t: Target, st: ChildState) {
    && All(Downlinks(ix, t, st), FirstDataKey(t.page), MaxOffset(t.page) + 1)
    && (Rightmost(t.page) ==> SegmentOk(ix, t, INVALID_OFFSET, StateAt(ix, t.page, MaxOffset(t.page) + 1, st)))
  }

  /** `bt_target_page_check` raises no error. */
  ghost predicate TargetOk(ix: Index, t: Target, st: ChildState) {
    && (!Rightmost(t.page) ==> HasItem(t.page, P_HIKEY) && CheckNatts(ix, t.page, P_HIKEY))
    && All(Items(ix, t.page), FirstDataKey(t.page), MaxOffset(t.page) + 1)
    && (!t.page.leaf ==> ChildrenOk(ix, t, st))
  }

  /** The child state once the target page has been processed. */
  function StateAfterTarget(ix: Index, p: Page, st: ChildState): ChildState {
    if p.leaf then st
    else if Rightmost(p) then FRESH
    else StateAt(ix, p, MaxOffset(p) + 1, st)
  }

  // ------------------------------------------------------------- a whole level

  datatype Level = Level(level: nat, leftmost: nat, trueRoot: bool)

  const INVALID_LEVEL: nat := 0xFFFF_FFFF

  predicate Live(ix: Index, blk: nat) { blk in ix.pages && !Ignore(ix.pages[blk]) }

  /** The child state after the pages `path` of the level. */
  function StateBefore(ix: Index, path: seq<nat>): ChildState {
    if path == [] then FRESH
    else
      var n := |path| - 1;
      if Live(ix, path[n]) then StateAfterTarget(ix, ix.pages[path[n]], StateBefore(ix, path[..n]))
      else StateBefore(ix, path[..n])
  }

  /** The high key of the page just visited, kept for its right sibling. */
  function LowKey(ix: Index, path: seq<nat>): Option<IndexTuple> {
    if path == [] || Last(P_NONE, path) !in ix.pages then None
    else
      var p := ix.pages[Last(P_NONE, path)];
      if !Rightmost(p) && HasItem(p, P_HIKEY) then Some(Item(p, P_HIKEY)) else None
  }

  predicate NoneLive(ix: Index, path: seq<nat>) {
    forall k :: 0 <= k < |path| ==> !Live(ix, path[k])
  }

  /** What is asked of a live page, apart from its items and children. */
  ghost predicate PlacedOk(ix: Index, lv: Level, before: seq<nat>, blk: nat)
    requires blk in ix.pages
  {
    var p := ix.pages[blk];
    && (NoneLive(ix, before) ==> LeftmostIgnoringHalfDead(ix, blk) && (lv.trueRoot ==> p.root || p.incompleteSplit))
    && (before != [] ==> p.prev == Last(P_NONE, before))
    && p.level == lv.level
  }

  /** One iteration of `bt_check_level_from_leftmost`. */
  ghost predicate LevelStepOk(ix: Index, lv: Level, before: seq<nat>, blk: nat) {
    && blk != P_NONE && Loads(ix, blk)
    && var p := ix.pages[blk];
       && (Ignore(p) ==> !p.deleted && !Rightmost(p))
       && (!Ignore(p) ==> PlacedOk(ix, lv, before, blk))
       && (!Ignore(p) ==> TargetOk(ix, Target(p, LowKey(ix, before)), StateBefore(ix, before)))
       && blk != Last(P_NONE, before) && blk != p.prev
       && (!Rightmost(p) ==> HasItem(p, P_HIKEY))
  }

  ghost function LevelSteps(ix: Index, lv: Level): (seq<nat>, nat) -> bool {
    (before: seq<nat>, blk: nat) => LevelStepOk(ix, lv, before, blk)
  }

  ghost predicate LevelWalk(ix: Index, lv: Level, path: seq<nat>) {
    Walk(RightLinks(ix), LevelSteps(ix, lv), lv.leftmost, path)
  }

  /** `path` is a whole level that is checked without an error. */
  ghost predicate LevelOk(ix: Index, lv: Level, path: seq<nat>) {
    && LevelWalk(ix, lv, path)
    && |path| > 0 && Reached(RightLinks(ix), lv.leftmost, path, |path|) == P_NONE
  }

  /** The level to check next, taken from the first live page. */
  function NextLevel(ix: Index, path: seq<nat>): Level {
    if path == [] then Level(INVALID_LEVEL, INVALID_BLOCK, false)
    else
      var n := |path| - 1;
      var left := NextLevel(ix, path[..n]);
      if left.leftmost != INVALID_BLOCK || !Live(ix, path[n]) then left
      else
        var p := ix.pages[path[n]];
        if p.leaf then Level(INVALID_LEVEL, P_NONE, false)
        else Level(LevelBelow(p.level), TargetLink(p, FirstDataKey(p)), false)
  }

  /** Every level from `lv` down is checked without an error. */
  ghost predicate TreeOk(ix: Index, lv: Level)
    decreases lv.level
  {
    lv.leftmost == P_NONE ||
    exists path :: LevelOk(ix, lv, path) && DescendsOk(ix, lv, NextLevel(ix, path))
  }

  ghost predicate DescendsOk(ix: Index, lv: Level, next: Level)
    decreases lv.level, 0
  {
    && next.leftmost != INVALID_BLOCK
    && (next.leftmost == P_NONE || (next.level < lv.level && TreeOk(ix, next)))
  }
}
