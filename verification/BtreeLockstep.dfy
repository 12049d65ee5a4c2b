/** What a clean check of an internal level says about the level below it: the
    downlinks, read from left to right, are an in-order subsequence of one chain of
    right links that runs from the leftmost page to the end of the level. */
module BtreeLockstep {
  import opened BtreePages
  import opened BtreeOrder
  import opened BtreeSpec

  /** One downlink of the level: the page it is on and its offset there. */
  datatype Slot = Slot(t: Target, offset: nat)

  function Link(s: Slot): nat { TargetLink(s.t.page, s.offset) }

  function PageSlots(t: Target): seq<Slot> {
    if t.page.leaf || MaxOffset(t.page) < FirstDataKey(t.page) then []
    else seq(MaxOffset(t.page) + 1 - FirstDataKey(t.page), (i: nat) => Slot(t, FirstDataKey(t.page) + i))
  }

  /** All downlinks of the live pages of `path`, from left to right. */
  function Slots(ix: Index, path: seq<nat>): seq<Slot> {
    if path == [] then []
    else
      var n := |path| - 1;
      if Live(ix, path[n]) then Slots(ix, path[..n]) + PageSlots(Target(ix.pages[path[n]], LowKey(ix, path[..n])))
      else Slots(ix, path[..n])
  }

  /** The state in which slot `i` is checked: what its predecessor left behind. */
  function StateOf(ix: Index, s: seq<Slot>, i: nat): ChildState
    requires i <= |s|
  {
    if i == 0 then FRESH else StateAfter(ix, Link(s[i - 1]))
  }

  ghost function SlotChecks(ix: Index, s: seq<Slot>): nat -> bool {
    (i: nat) => i < |s| && HasItem(s[i].t.page, s[i].offset) && SegmentOk(ix, s[i].t, s[i].offset, StateOf(ix, s, i))
  }

  /** Every downlink is checked right after its predecessor. */
  ghost predicate SlotsOk(ix: Index, s: seq<Slot>) { All(SlotChecks(ix, s), 0, |s|) }

  lemma DownlinkSegment(ix: Index, t: Target, st: ChildState, o: nat)
    requires All(Downlinks(ix, t, st), FirstDataKey(t.page), MaxOffset(t.page) + 1)
    requires FirstDataKey(t.page) <= o <= MaxOffset(t.page)
    ensures SegmentOk(ix, t, o, StateAt(ix, t.page, o, st))
  {
    assert Downlinks(ix, t, st)(o);
  }

  lemma PageSlotsOk(ix: Index, s: seq<Slot>, t: Target, st: ChildState)
    requires SlotsOk(ix, s) && st == StateOf(ix, s, |s|)
    requires !t.page.leaf && MaxOffset(t.page) >= FirstDataKey(t.page)
    requires All(Downlinks(ix, t, st), FirstDataKey(t.page), MaxOffset(t.page) + 1)
    ensures SlotsOk(ix, s + PageSlots(t))
    ensures StateOf(ix, s + PageSlots(t), |s + PageSlots(t)|) == StateAt(ix, t.page, MaxOffset(t.page) + 1, st)
  {
    var more := PageSlots(t);
    forall i: nat | i < |s + more|
      ensures SlotChecks(ix, s + more)(i)
    {
      if i < |s| {
        OlderSlot(ix, s, more, i);
      } else {
        PageSlot(ix, s, t, st, FirstDataKey(t.page) + (i - |s|));
      }
    }
    StateAfterSlots(ix, s, t, st);
  }

  lemma StateAfterSlots(ix: Index, s: seq<Slot>, t: Target, st: ChildState)
    requires !t.page.leaf && MaxOffset(t.page) >= FirstDataKey(t.page)
    ensures StateOf(ix, s + PageSlots(t), |s + PageSlots(t)|) == StateAt(ix, t.page, MaxOffset(t.page) + 1, st)
  {
  }

  lemma OlderSlot(ix: Index, s: seq<Slot>, more: seq<Slot>, i: nat)
    requires SlotsOk(ix, s) && i < |s|
    ensures SlotChecks(ix, s + more)(i)
  {
    assert SlotChecks(ix, s)(i);
    assert StateOf(ix, s + more, i) == StateOf(ix, s, i);
  }

  lemma PageSlot(ix: Index, s: seq<Slot>, t: Target, st: ChildState, o: nat)
    requires st == StateOf(ix, s, |s|) && !t.page.leaf
    requires All(Downlinks(ix, t, st), FirstDataKey(t.page), MaxOffset(t.page) + 1)
    requires FirstDataKey(t.page) <= o <= MaxOffset(t.page)
    ensures SlotChecks(ix, s + PageSlots(t))(|s| + o - FirstDataKey(t.page))
  {
    var all, i := s + PageSlots(t), |s| + o - FirstDataKey(t.page);
    assert all[i] == Slot(t, o);
    assert StateOf(ix, all, i) == StateAt(ix, t.page, o, st);
    DownlinkSegment(ix, t, st, o);
  }

  /** What a clean level check asks of the children of one of its live pages. */
  lemma LivePage(ix: Index, lv: Level, before: seq<nat>, blk: nat)
    requires LevelStepOk(ix, lv, before, blk) && Live(ix, blk)
    ensures ix.pages[blk].level == lv.level && (ix.pages[blk].leaf <==> lv.level == 0)
    ensures lv.level > 0 ==>
      && MaxOffset(ix.pages[blk]) >= FirstDataKey(ix.pages[blk])
      && ChildrenOk(ix, Target(ix.pages[blk], LowKey(ix, before)), StateBefore(ix, before))
  {
  }

  /** A clean level check is a check of its slots in order, the pages' boundaries
      making no difference. */
  lemma {:induction false} LevelSlots(ix: Index, lv: Level, path: seq<nat>)
    requires LevelWalk(ix, lv, path) && lv.level > 0
    ensures SlotsOk(ix, Slots(ix, path))
    ensures path == [] || RightLinks(ix)(Last(P_NONE, path)) != P_NONE ==>
      StateBefore(ix, path) == StateOf(ix, Slots(ix, path), |Slots(ix, path)|)
    ensures path != [] && RightLinks(ix)(Last(P_NONE, path)) == P_NONE ==>
      Last(P_NONE, path) in ix.pages &&
      SegmentOk(ix, EndTarget(ix, path), INVALID_OFFSET, StateOf(ix, Slots(ix, path), |Slots(ix, path)|))
  {
    if path == [] {
    } else {
      var n := |path| - 1;
      var f, accept := RightLinks(ix), LevelSteps(ix, lv);
      WalkPrefix(f, accept, lv.leftmost, path, n);
      AcceptedAt(f, accept, lv.leftmost, path, n);
      LevelSlots(ix, lv, path[..n]);
      assert n > 0 ==> f(Last(P_NONE, path[..n])) == path[n];
      if Live(ix, path[n]) {
        LivePage(ix, lv, path[..n], path[n]);
        var t := Target(ix.pages[path[n]], LowKey(ix, path[..n]));
        PageSlotsOk(ix, Slots(ix, path[..n]), t, StateBefore(ix, path[..n]));
      }
    }
  }

  /** The last page of the level, as a target. */
  function EndTarget(ix: Index, path: seq<nat>): Target
    requires path != [] && Last(P_NONE, path) in ix.pages
  {
    Target(ix.pages[Last(P_NONE, path)], LowKey(ix, path[..|path| - 1]))
  }

  // -------------------------------------------------- the chain of child pages

  function Loadable(ix: Index): (seq<nat>, nat) -> bool {
    (before: seq<nat>, blk: nat) => blk != P_NONE && Loads(ix, blk)
  }

  /** The checks made on one page of the child level while looking for slot `s`. */
  ghost predicate Checked(ix: Index, s: Slot, left: nat, blk: nat) {
    && Loads(ix, blk)
    && var c := ix.pages[blk];
       && (!c.deleted || c.fullXid ==> c.level == LevelBelow(s.t.page.level))
       && (blk != Link(s) && !Ignore(c) ==> Excused(ix, SplitLeft(ix, left), blk))
       && HighKeyMatches(s.t, s.offset, blk, c)
  }

  ghost function Checks(ix: Index, s: Slot, chain: seq<nat>): nat -> bool {
    (j: nat) => j < |chain| && Checked(ix, s, Last(P_NONE, chain[..j]), chain[j])
  }

  /** Where the segment of slot `i` begins in the chain. */
  function SegmentFrom(at: seq<nat>, i: nat): nat
    requires i <= |at|
  {
    if i == 0 then 0 else at[i - 1] + 1
  }

  /** The segment of slot `s` is `chain[lo..hi + 1]`: it ends at the first page that
      the downlink names, and all its pages were checked on the way. */
  ghost predicate Placed(ix: Index, s: Slot, chain: seq<nat>, lo: nat, hi: nat) {
    && lo <= hi < |chain| && chain[hi] == Link(s)
    && (forall j :: lo <= j < hi ==> chain[j] != Link(s))
    && All(Checks(ix, s, chain), lo, hi + 1)
  }

  ghost function Places(ix: Index, s: seq<Slot>, chain: seq<nat>, at: seq<nat>): nat -> bool {
    (i: nat) => i < |s| && i < |at| && Placed(ix, s[i], chain, SegmentFrom(at, i), at[i])
  }

  /** `chain` is a walk along right links, and `at[i]` is the place in it of
      downlink `i`, for the first `|at|` downlinks. */
  ghost predicate Chained(ix: Index, s: seq<Slot>, chain: seq<nat>, at: seq<nat>) {
    && 0 < |at| <= |s|
    && Walk(RightLinks(ix), Loadable(ix), Link(s[0]), chain)
    && All(Places(ix, s, chain, at), 0, |at|)
  }

  /** The whole child level: the chain goes on to the end of the level, and the
      pages after the last downlink were checked by the final call. */
  ghost predicate ChildLevel(ix: Index, s: seq<Slot>, end: Target, chain: seq<nat>, at: seq<nat>) {
    && Chained(ix, s, chain, at) && |at| == |s|
    && |chain| > 0 && chain[0] in ix.pages && LeftmostIgnoringHalfDead(ix, chain[0])
    && Reached(RightLinks(ix), Link(s[0]), chain, |chain|) == P_NONE
    && All(Checks(ix, Slot(end, INVALID_OFFSET), chain), SegmentFrom(at, |at|), |chain|)
  }

  /** The right link out of `left` is not yet backed by a downlink. */
  predicate SplitLeft(ix: Index, left: nat) {
    left != P_NONE && left in ix.pages && ix.pages[left].incompleteSplit
  }

  lemma VisitIsCheck(ix: Index, s: Slot, st: ChildState, before: seq<nat>, left: nat, blk: nat)
    requires VisitOk(ix, s.t, s.offset, st, before, blk)
    requires SplitBefore(ix, st, before) <==> SplitLeft(ix, left)
    ensures Checked(ix, s, left, blk) && blk != P_NONE
  {
  }

  lemma SegmentVisit(ix: Index, s: Slot, st: ChildState, seg: seq<nat>, m: nat)
    requires SegmentWalk(ix, s.t, s.offset, st, seg) && m < |seg|
    ensures VisitOk(ix, s.t, s.offset, st, seg[..m], seg[m])
    ensures seg[m] == Reached(RightLinks(ix), SegmentStart(s.t, s.offset, st), seg, m)
  {
    AcceptedAt(RightLinks(ix), Visits(ix, s.t, s.offset, st), SegmentStart(s.t, s.offset, st), seg, m);
  }

  lemma SegmentCheck(ix: Index, s: Slot, st: ChildState, chain: seq<nat>, seg: seq<nat>, m: nat)
    requires SegmentWalk(ix, s.t, s.offset, st, seg) && m < |seg|
    requires SplitBefore(ix, st, []) <==> SplitLeft(ix, Last(P_NONE, chain))
    ensures Checked(ix, s, Last(P_NONE, chain + seg[..m]), seg[m])
  {
    SegmentVisit(ix, s, st, seg, m);
    if m > 0 {
      SegmentVisit(ix, s, st, seg, m - 1);
    }
    VisitIsCheck(ix, s, st, seg[..m], Last(P_NONE, chain + seg[..m]), seg[m]);
  }

  /** The pages of a segment were checked, wherever the segment is put. */
  lemma SegmentChecks(ix: Index, s: Slot, st: ChildState, chain: seq<nat>, seg: seq<nat>)
    requires SegmentWalk(ix, s.t, s.offset, st, seg)
    requires SplitBefore(ix, st, []) <==> SplitLeft(ix, Last(P_NONE, chain))
    ensures All(Checks(ix, s, chain + seg), |chain|, |chain + seg|)
  {
    forall j: nat | |chain| <= j < |chain + seg|
      ensures Checks(ix, s, chain + seg)(j)
    {
      assert (chain + seg)[..j] == chain + seg[..j - |chain|];
      SegmentCheck(ix, s, st, chain, seg, j - |chain|);
    }
  }

  lemma ChecksStay(ix: Index, s: Slot, chain: seq<nat>, seg: seq<nat>, lo: nat, hi: nat)
    requires All(Checks(ix, s, chain), lo, hi) && hi <= |chain|
    ensures All(Checks(ix, s, chain + seg), lo, hi)
  {
    forall j: nat | lo <= j < hi
      ensures Checks(ix, s, chain + seg)(j)
    {
      assert Checks(ix, s, chain)(j);
      assert (chain + seg)[..j] == chain[..j];
    }
  }

  lemma ChainWalk(ix: Index, s: Slot, st: ChildState, first: nat, chain: seq<nat>, seg: seq<nat>)
    requires Walk(RightLinks(ix), Loadable(ix), first, chain)
    requires SegmentWalk(ix, s.t, s.offset, st, seg)
    requires SegmentStart(s.t, s.offset, st) == Reached(RightLinks(ix), first, chain, |chain|)
    ensures Walk(RightLinks(ix), Loadable(ix), first, chain + seg)
    ensures Reached(RightLinks(ix), first, chain + seg, |chain + seg|)
         == Reached(RightLinks(ix), SegmentStart(s.t, s.offset, st), seg, |seg|)
  {
    forall m | 0 <= m < |seg|
      ensures Loadable(ix)(chain + seg[..m], seg[m])
    {
      SegmentVisit(ix, s, st, seg, m);
    }
    WalksJoin(RightLinks(ix), Loadable(ix), Visits(ix, s.t, s.offset, st), first, chain, seg);
  }

  /** Links that do not derail the walk: a real downlink, and a child whose right
      link is not taken for the absence of one. */
  predicate SaneLink(ix: Index, blk: nat) {
    blk != P_NONE && blk in ix.pages && ix.pages[blk].next != INVALID_BLOCK
  }

  lemma PlacedStays(ix: Index, s: Slot, chain: seq<nat>, seg: seq<nat>, lo: nat, hi: nat)
    requires Placed(ix, s, chain, lo, hi)
    ensures Placed(ix, s, chain + seg, lo, hi)
  {
    ChecksStay(ix, s, chain, seg, lo, hi + 1);
  }

  lemma SegmentPlaced(ix: Index, s: Slot, st: ChildState, chain: seq<nat>, seg: seq<nat>)
    requires Segment(ix, s.t, s.offset, st)(seg) && Link(s) != P_NONE
    requires SplitBefore(ix, st, []) <==> SplitLeft(ix, Last(P_NONE, chain))
    ensures |seg| > 0 && Placed(ix, s, chain + seg, |chain|, |chain + seg| - 1)
  {
    SegmentChecks(ix, s, st, chain, seg);
    assert forall j :: |chain| <= j < |chain + seg| - 1 ==> (chain + seg)[j] == seg[j - |chain|];
  }

  lemma FirstPlaced(ix: Index, s: seq<Slot>, seg: seq<nat>)
    requires |s| > 0 && |seg| > 0 && Placed(ix, s[0], seg, 0, |seg| - 1)
    ensures All(Places(ix, s, seg, [|seg| - 1]), 0, 1)
  {
    assert Places(ix, s, seg, [|seg| - 1])(0);
  }

  lemma ChainStarts(ix: Index, s: seq<Slot>, seg: seq<nat>)
    requires |s| > 0 && Segment(ix, s[0].t, s[0].offset, FRESH)(seg) && Link(s[0]) != P_NONE
    ensures |seg| > 0 && Chained(ix, s, seg, [|seg| - 1])
  {
    assert [] + seg == seg;
    SegmentPlaced(ix, s[0], FRESH, [], seg);
    FirstPlaced(ix, s, seg);
    ChainWalk(ix, s[0], FRESH, Link(s[0]), [], seg);
  }

  lemma PlacesExtend(ix: Index, s: seq<Slot>, chain: seq<nat>, at: seq<nat>, seg: seq<nat>)
    requires 0 < |at| < |s| && at[|at| - 1] == |chain| - 1 && |seg| > 0
    requires All(Places(ix, s, chain, at), 0, |at|)
    requires Placed(ix, s[|at|], chain + seg, |chain|, |chain + seg| - 1)
    ensures All(Places(ix, s, chain + seg, at + [|chain + seg| - 1]), 0, |at| + 1)
  {
    var at' := at + [|chain + seg| - 1];
    forall i: nat | i < |at'|
      ensures Places(ix, s, chain + seg, at')(i)
    {
      assert SegmentFrom(at', i) == SegmentFrom(at, i);
      if i < |at| {
        assert Places(ix, s, chain, at)(i);
        PlacedStays(ix, s[i], chain, seg, SegmentFrom(at, i), at[i]);
      }
    }
  }

  /** The state left by a sane link continues the chain where it ended. */
  lemma ChainEnd(ix: Index, s: seq<Slot>, slot: Slot, chain: seq<nat>, at: seq<nat>)
    requires Chained(ix, s, chain, at) && at[|at| - 1] == |chain| - 1
    requires SaneLink(ix, Link(s[|at| - 1]))
    ensures SplitBefore(ix, StateOf(ix, s, |at|), []) <==> SplitLeft(ix, Last(P_NONE, chain))
    ensures SegmentStart(slot.t, slot.offset, StateOf(ix, s, |at|)) == Reached(RightLinks(ix), Link(s[0]), chain, |chain|)
  {
    assert Places(ix, s, chain, at)(|at| - 1);
  }

  lemma ChainExtends(ix: Index, s: seq<Slot>, chain: seq<nat>, at: seq<nat>, seg: seq<nat>)
    requires Chained(ix, s, chain, at) && at[|at| - 1] == |chain| - 1 && |at| < |s|
    requires SaneLink(ix, Link(s[|at| - 1])) && Link(s[|at|]) != P_NONE
    requires Segment(ix, s[|at|].t, s[|at|].offset, StateOf(ix, s, |at|))(seg)
    ensures |seg| > 0
    ensures Chained(ix, s, chain + seg, at + [|chain| + |seg| - 1])
  {
    assert |chain + seg| == |chain| + |seg|;
    var slot, st := s[|at|], StateOf(ix, s, |at|);
    ChainEnd(ix, s, slot, chain, at);
    ChainWalk(ix, slot, st, Link(s[0]), chain, seg);
    SegmentPlaced(ix, slot, st, chain, seg);
    PlacesExtend(ix, s, chain, at, seg);
  }

  lemma SlotSegment(ix: Index, s: seq<Slot>, i: nat) returns (seg: seq<nat>)
    requires SlotsOk(ix, s) && i < |s|
    ensures Segment(ix, s[i].t, s[i].offset, StateOf(ix, s, i))(seg)
  {
    assert SlotChecks(ix, s)(i);
    seg :| Segment(ix, s[i].t, s[i].offset, StateOf(ix, s, i))(seg);
  }

  lemma FirstLinkLeftmost(ix: Index, s: seq<Slot>)
    requires SlotsOk(ix, s) && |s| > 0 && Link(s[0]) != P_NONE
    ensures Link(s[0]) in ix.pages && LeftmostIgnoringHalfDead(ix, Link(s[0]))
  {
    var seg := SlotSegment(ix, s, 0);
    SegmentVisit(ix, s[0], FRESH, seg, 0);
  }

  predicate NoNullLink(s: seq<Slot>) {
    forall i {:trigger Link(s[i])} :: 0 <= i < |s| ==> Link(s[i]) != P_NONE
  }

  /** The links of the first `n` slots do not derail the walk. */
  predicate SaneLinks(ix: Index, s: seq<Slot>, n: nat)
    requires n <= |s|
  {
    forall i {:trigger Link(s[i])} :: 0 <= i < n ==> SaneLink(ix, Link(s[i]))
  }

  lemma StartChain(ix: Index, s: seq<Slot>) returns (chain: seq<nat>, at: seq<nat>)
    requires SlotsOk(ix, s) && 0 < |s| && NoNullLink(s)
    ensures Chained(ix, s, chain, at) && |at| == 1 && at[0] == |chain| - 1
  {
    chain := SlotSegment(ix, s, 0);
    ChainStarts(ix, s, chain);
    at := [|chain| - 1];
  }

  /** The segment of the next slot is added to the chain. */
  lemma ContinueChain(ix: Index, s: seq<Slot>, chain: seq<nat>, at: seq<nat>) returns (chain': seq<nat>, at': seq<nat>)
    requires SlotsOk(ix, s) && NoNullLink(s) && Chained(ix, s, chain, at) && at[|at| - 1] == |chain| - 1 && |at| < |s|
    requires SaneLink(ix, Link(s[|at| - 1]))
    ensures Chained(ix, s, chain', at') && |at'| == |at| + 1 && at'[|at|] == |chain'| - 1
  {
    var seg := SlotSegment(ix, s, |at|);
    ChainExtends(ix, s, chain, at, seg);
    chain', at' := chain + seg, at + [|chain| + |seg| - 1];
  }

  /** The segments of the first `n` slots, put together. */
  lemma {:induction false} BuildChain(ix: Index, s: seq<Slot>, n: nat) returns (chain: seq<nat>, at: seq<nat>)
    requires SlotsOk(ix, s) && 0 < n <= |s| && SaneLinks(ix, s, n - 1) && NoNullLink(s)
    ensures Chained(ix, s, chain, at) && |at| == n && at[n - 1] == |chain| - 1
  {
    if n == 1 {
      chain, at := StartChain(ix, s);
    } else {
      chain, at := BuildChain(ix, s, n - 1);
      chain, at := ContinueChain(ix, s, chain, at);
    }
  }

  lemma ChainedStays(ix: Index, s: seq<Slot>, chain: seq<nat>, at: seq<nat>, seg: seq<nat>)
    requires Chained(ix, s, chain, at) && Walk(RightLinks(ix), Loadable(ix), Link(s[0]), chain + seg)
    ensures Chained(ix, s, chain + seg, at)
  {
    forall i: nat | i < |at|
      ensures Places(ix, s, chain + seg, at)(i)
    {
      assert Places(ix, s, chain, at)(i);
      PlacedStays(ix, s[i], chain, seg, SegmentFrom(at, i), at[i]);
    }
  }

  /** The final call of the level carries the chain to the end. */
  lemma FinishChain(ix: Index, s: seq<Slot>, end: Target, chain: seq<nat>, at: seq<nat>) returns (whole: seq<nat>)
    requires Chained(ix, s, chain, at) && |at| == |s| && at[|s| - 1] == |chain| - 1
    requires SaneLink(ix, Link(s[|s| - 1]))
    requires SegmentOk(ix, end, INVALID_OFFSET, StateOf(ix, s, |s|))
    requires Link(s[0]) in ix.pages && LeftmostIgnoringHalfDead(ix, Link(s[0]))
    ensures ChildLevel(ix, s, end, whole, at)
  {
    var slot, st := Slot(end, INVALID_OFFSET), StateOf(ix, s, |s|);
    var seg :| Segment(ix, end, INVALID_OFFSET, st)(seg);
    ChainEnd(ix, s, slot, chain, at);
    ChainWalk(ix, slot, st, Link(s[0]), chain, seg);
    SegmentChecks(ix, slot, st, chain, seg);
    ChainedStays(ix, s, chain, at, seg);
    whole := chain + seg;
    AcceptedAt(RightLinks(ix), Loadable(ix), Link(s[0]), whole, 0);
  }

  lemma ChildLevelIsSane(ix: Index, s: seq<Slot>, end: Target, chain: seq<nat>, at: seq<nat>)
    requires INVALID_BLOCK !in ix.pages && ChildLevel(ix, s, end, chain, at)
    ensures SaneLinks(ix, s, |s|)
  {
    forall i | 0 <= i < |s|
      ensures SaneLink(ix, Link(s[i]))
    {
      assert Places(ix, s, chain, at)(i);
      AcceptedAt(RightLinks(ix), Loadable(ix), Link(s[0]), chain, at[i]);
      if at[i] + 1 < |chain| {
        AcceptedAt(RightLinks(ix), Loadable(ix), Link(s[0]), chain, at[i] + 1);
      }
    }
  }

  lemma {:induction false} LevelHasSlots(ix: Index, lv: Level, path: seq<nat>)
    requires LevelOk(ix, lv, path) && lv.level > 0
    ensures |Slots(ix, path)| > 0 && Last(P_NONE, path) in ix.pages
  {
    var n := |path| - 1;
    AcceptedAt(RightLinks(ix), LevelSteps(ix, lv), lv.leftmost, path, n);
    LivePage(ix, lv, path[..n], path[n]);
  }

  /** After a clean check of an internal level, the downlinks of its live pages, read
      from left to right, are an in-order subsequence of one chain that covers the
      whole level below, every page off the sequence being excused, exactly when no
      downlink is the null block and no child's right link is `InvalidBlockNumber`. */
  lemma Lockstep(ix: Index, lv: Level, path: seq<nat>)
    requires INVALID_BLOCK !in ix.pages && LevelOk(ix, lv, path) && lv.level > 0
    ensures |Slots(ix, path)| > 0 && Last(P_NONE, path) in ix.pages
    ensures SaneLinks(ix, Slots(ix, path), |Slots(ix, path)|)
      <==> exists chain, at :: ChildLevel(ix, Slots(ix, path), EndTarget(ix, path), chain, at)
  {
    var s := Slots(ix, path);
    LevelHasSlots(ix, lv, path);
    LevelSlots(ix, lv, path);
    var end := EndTarget(ix, path);
    forall chain, at | ChildLevel(ix, s, end, chain, at)
      ensures SaneLinks(ix, s, |s|)
    {
      ChildLevelIsSane(ix, s, end, chain, at);
    }
    if SaneLinks(ix, s, |s|) {
      var chain := SaneChain(ix, s, end);
    }
  }

  lemma SaneChain(ix: Index, s: seq<Slot>, end: Target) returns (whole: seq<nat>)
    requires SlotsOk(ix, s) && |s| > 0 && SaneLinks(ix, s, |s|)
    requires SegmentOk(ix, end, INVALID_OFFSET, StateOf(ix, s, |s|))
    ensures exists at :: ChildLevel(ix, s, end, whole, at)
  {
    FirstLinkLeftmost(ix, s);
    var chain, at := BuildChain(ix, s, |s|);
    whole := FinishChain(ix, s, end, chain, at);
  }
}
