/** The read-only B-tree verifier as the program runs it: one object whose fields
    are updated while it walks each level from left to right and, in lockstep, the
    level below.  Every method is proved to raise an error exactly when the pages
    violate the specification in `BtreeSpec`.

    A link chain in a corrupt index may be circular, and the program's loops end
    then only when the query is cancelled.  `limit` is the number of iterations a
    loop makes before that happens; the outcome is then `Interrupted`, and links lead
    through that many pages.  If there are not so many, the chain is circular. */
module BtreeCheck {
  import opened Optional
  import opened BtreePages
  import opened BtreeOrder
  import opened BtreeSpec
  import opened Pigeonhole

  datatype Outcome = Clean | Corrupt | Interrupted

  // ------------------------------------------------------------------ long chains

  function InIndex(ix: Index): (seq<nat>, nat) -> bool {
    (before: seq<nat>, blk: nat) => blk in ix.pages
  }

  /** Right links, or first downlinks, lead through `n` pages. */
  ghost predicate LongChain(ix: Index, n: nat) {
    exists first, path :: |path| == n &&
      (Walk(RightLinks(ix), InIndex(ix), first, path) || Walk(FirstChildren(ix), InIndex(ix), first, path))
  }

  ghost function Chains(ix: Index): nat -> bool {
    (n: nat) => LongChain(ix, n)
  }

  /** Some page comes twice on a chain of links. */
  ghost predicate CircularChain(ix: Index) {
    exists first, path, i, j :: Repeats(ix, first, path, i, j)
  }

  ghost predicate Repeats(ix: Index, first: nat, path: seq<nat>, i: nat, j: nat) {
    && i < j < |path| && path[i] == path[j]
    && (Walk(RightLinks(ix), InIndex(ix), first, path) || Walk(FirstChildren(ix), InIndex(ix), first, path))
  }

  lemma IsLong(ix: Index, f: nat -> nat, accept: (seq<nat>, nat) -> bool, first: nat, path: seq<nat>)
    requires Walk(f, accept, first, path) && (f == RightLinks(ix) || f == FirstChildren(ix))
    requires forall before, b :: accept(before, b) ==> b in ix.pages
    ensures Chains(ix)(|path|)
  {
    forall k | 0 <= k < |path|
      ensures path[k] == Reached(f, first, path, k) && InIndex(ix)(path[..k], path[k])
    {
      AcceptedAt(f, accept, first, path, k);
    }
    assert Walk(f, InIndex(ix), first, path);
  }

  lemma SegmentIsLong(ix: Index, t: Target, offset: nat, st: ChildState, path: seq<nat>)
    requires SegmentWalk(ix, t, offset, st, path)
    ensures Chains(ix)(|path|)
  {
    IsLong(ix, RightLinks(ix), Visits(ix, t, offset, st), SegmentStart(t, offset, st), path);
  }

  lemma LevelIsLong(ix: Index, lv: Level, path: seq<nat>)
    requires LevelWalk(ix, lv, path)
    ensures Chains(ix)(|path|)
  {
    IsLong(ix, RightLinks(ix), LevelSteps(ix, lv), lv.leftmost, path);
  }

  lemma ChainInIndex(ix: Index, f: nat -> nat, first: nat, path: seq<nat>)
    requires Walk(f, InIndex(ix), first, path)
    ensures Elements(path) <= ix.pages.Keys
  {
    forall k | 0 <= k < |path|
      ensures path[k] in ix.pages
    {
      AcceptedAt(f, InIndex(ix), first, path, k);
    }
  }

  /** A run given more iterations than there are pages is interrupted only on an
      index in which a chain of links is circular. */
  lemma LongMeansCircular(ix: Index, limit: nat)
    requires Chains(ix)(limit) && limit > |ix.pages.Keys|
    ensures CircularChain(ix)
  {
    var first, path :| |path| == limit &&
      (Walk(RightLinks(ix), InIndex(ix), first, path) || Walk(FirstChildren(ix), InIndex(ix), first, path));
    if Walk(RightLinks(ix), InIndex(ix), first, path) {
      ChainInIndex(ix, RightLinks(ix), first, path);
    } else {
      ChainInIndex(ix, FirstChildren(ix), first, path);
    }
    var i, j := MustRepeat(path, ix.pages.Keys);
    assert Repeats(ix, first, path, i, j);
  }

  /** `bt_leftmost_ignoring_half_dead`; false also when a page cannot be loaded.
      The walk always ends: every page it accepts links back to the one before. */
  method CheckLeftmost(ix: Index, start: nat) returns (leftmost: bool)
    requires start in ix.pages
    ensures leftmost <==> LeftmostIgnoringHalfDead(ix, start)
  {
    ghost var f, accept, first := LeftLinks(ix), HalfDeadSteps(ix, start), ix.pages[start].prev;
    var reached, reachedFrom := ix.pages[start].prev, start;
    ghost var path: seq<nat> := [];
    while reached != P_NONE
      invariant Walk(f, accept, first, path) && Distinct(path)
      invariant reachedFrom == Last(start, path) && reachedFrom in ix.pages
      invariant reached == Reached(f, first, path, |path|)
      decreases ix.pages.Keys - Elements(path)
    {
      if !HalfDeadStep(ix, start, reachedFrom, reached) {
        LeftmostStuck(ix, start, path);
        return false;
      }
      LeftwardNew(ix, start, path, reached);
      WalkExtends(f, accept, first, path);
      path := path + [reached];
      reachedFrom := reached;
      reached := ix.pages[reached].prev;
    }
    return true;
  }

  lemma LeftmostStuck(ix: Index, start: nat, path: seq<nat>)
    requires start in ix.pages
    requires Walk(LeftLinks(ix), HalfDeadSteps(ix, start), ix.pages[start].prev, path)
    requires Reached(LeftLinks(ix), ix.pages[start].prev, path, |path|) != P_NONE
    requires !HalfDeadStep(ix, start, Last(start, path), Reached(LeftLinks(ix), ix.pages[start].prev, path, |path|))
    ensures !LeftmostIgnoringHalfDead(ix, start)
  {
    var f, accept, first := LeftLinks(ix), HalfDeadSteps(ix, start), ix.pages[start].prev;
    forall q | Walk(f, accept, first, q)
      ensures Reached(f, first, q, |q|) != P_NONE
    {
      WalkStuck(f, accept, first, path, q);
      if |q| < |path| {
        AcceptedAt(f, accept, first, path, |q|);
      }
    }
  }

  /** Since each page links back to the one it was reached from, no page repeats. */
  lemma LeftwardNew(ix: Index, start: nat, path: seq<nat>, reached: nat)
    requires start in ix.pages && Distinct(path)
    requires Walk(LeftLinks(ix), HalfDeadSteps(ix, start), ix.pages[start].prev, path)
    requires HalfDeadStep(ix, start, Last(start, path), reached)
    ensures reached !in path && Distinct(path + [reached])
    ensures Elements(path + [reached]) == Elements(path) + {reached}
  {
    forall j | 0 <= j < |path|
      ensures path[j] != reached
    {
      AcceptedAt(LeftLinks(ix), HalfDeadSteps(ix, start), ix.pages[start].prev, path, j);
      AcceptedAt(LeftLinks(ix), HalfDeadSteps(ix, start), ix.pages[start].prev, path, |path| - 1);
    }
  }

  /** `bt_downlink_missing_check`. */
  method CheckDownlinkMissing(ix: Index, limit: nat, rightsplit: bool, blk: nat) returns (r: Outcome)
    requires Loads(ix, blk) && !Ignore(ix.pages[blk])
    ensures r == Clean ==> Excused(ix, rightsplit, blk)
    ensures r == Corrupt ==> !Excused(ix, rightsplit, blk)
    ensures r == Interrupted ==> Chains(ix)(limit)
  {
    var page := ix.pages[blk];
    if page.root || rightsplit {
      return Clean;
    }
    if page.leaf || !HasItem(page, FirstDataKey(page)) {
      return Corrupt;
    }
    ghost var f, accept, first := FirstChildren(ix), DescentSteps(ix, blk), FirstChildren(ix)(blk);
    var level := page.level;
    var child := DownLink(Item(page, FirstDataKey(page)));
    ghost var path: seq<nat> := [];
    for n := 0 to limit
      invariant Walk(f, accept, first, path) && |path| == n
      invariant child == Reached(f, first, path, |path|)
      invariant Last(blk, path) in ix.pages && level == ix.pages[Last(blk, path)].level
    {
      if !Loads(ix, child) {
        DescentStuck(ix, blk, path);
        return Corrupt;
      }
      var c := ix.pages[child];
      if c.leaf {
        if !c.deleted && c.halfDead && !Rightmost(c) && HasItem(c, P_HIKEY) && DownLink(Item(c, P_HIKEY)) == blk {
          return Clean;
        }
        DescentStuck(ix, blk, path);
        return Corrupt;
      }
      if c.level != LevelBelow(level) || !HasItem(c, FirstDataKey(c)) {
        DescentStuck(ix, blk, path);
        return Corrupt;
      }
      WalkExtends(f, accept, first, path);
      path := path + [child];
      level := c.level;
      child := DownLink(Item(c, FirstDataKey(c)));
    }
    IsLong(ix, f, accept, first, path);
    return Interrupted;
  }

  lemma DescentStuck(ix: Index, top: nat, path: seq<nat>)
    requires top in ix.pages
    requires Walk(FirstChildren(ix), DescentSteps(ix, top), FirstChildren(ix)(top), path)
    requires !DescentStep(ix, Last(top, path), Reached(FirstChildren(ix), FirstChildren(ix)(top), path, |path|))
    requires !DeletionLeaf(ix, top, Reached(FirstChildren(ix), FirstChildren(ix)(top), path, |path|))
    ensures !InterruptedDeletion(ix, top)
  {
    var f, accept, first := FirstChildren(ix), DescentSteps(ix, top), FirstChildren(ix)(top);
    forall q | Walk(f, accept, first, q)
      ensures !DeletionLeaf(ix, top, Reached(f, first, q, |q|))
    {
      WalkStuck(f, accept, first, path, q);
      if |q| < |path| {
        AcceptedAt(f, accept, first, path, |q|);
      }
    }
  }

  /** A walk that meets an unacceptable page before the downlink is no segment. */
  lemma SegmentStuck(ix: Index, t: Target, offset: nat, st: ChildState, path: seq<nat>, blk: nat)
    requires SegmentWalk(ix, t, offset, st, path)
    requires TargetLink(t.page, offset) !in path
    requires blk == Reached(RightLinks(ix), SegmentStart(t, offset, st), path, |path|)
    requires !VisitOk(ix, t, offset, st, path, blk)
    requires !(blk == P_NONE && TargetLink(t.page, offset) == P_NONE)
    ensures !SegmentOk(ix, t, offset, st)
  {
    var f, accept, first := RightLinks(ix), Visits(ix, t, offset, st), SegmentStart(t, offset, st);
    forall q | Walk(f, accept, first, q)
      ensures !Segment(ix, t, offset, st)(q)
    {
      WalkStuck(f, accept, first, path, q);
      if |q| < |path| {
        AcceptedAt(f, accept, first, path, |q|);
      }
      assert |q| > 0 ==> q[|q| - 1] == path[|q| - 1];
    }
  }

  lemma SegmentExtends(ix: Index, t: Target, offset: nat, st: ChildState, path: seq<nat>, blk: nat)
    requires SegmentWalk(ix, t, offset, st, path) && TargetLink(t.page, offset) !in path
    requires blk == Reached(RightLinks(ix), SegmentStart(t, offset, st), path, |path|)
    requires VisitOk(ix, t, offset, st, path, blk)
    ensures SegmentWalk(ix, t, offset, st, path + [blk])
    ensures blk == TargetLink(t.page, offset) ==> SegmentOk(ix, t, offset, st)
  {
    WalkExtends(RightLinks(ix), Visits(ix, t, offset, st), SegmentStart(t, offset, st), path);
    if blk == TargetLink(t.page, offset) {
      assert Segment(ix, t, offset, st)(path + [blk]);
    }
  }

  lemma SegmentEnds(ix: Index, t: Target, offset: nat, st: ChildState, path: seq<nat>)
    requires SegmentWalk(ix, t, offset, st, path) && TargetLink(t.page, offset) == P_NONE && P_NONE !in path
    requires Reached(RightLinks(ix), SegmentStart(t, offset, st), path, |path|) == P_NONE
    ensures SegmentOk(ix, t, offset, st)
  {
    assert Segment(ix, t, offset, st)(path);
  }

  lemma AllMore(ok: nat -> bool, lo: nat, hi: nat)
    requires All(ok, lo, hi) && ok(hi)
    ensures All(ok, lo, hi + 1)
  {
  }

  /** The mutable state of a verification run. */
  class BtreeCheckState {
    const ix: Index
    const limit: nat
    var target: Page
    var lowkey: Option<IndexTuple>
    var prevrightlink: nat
    var previncompletesplit: bool

    ghost function Parent(): Target
      reads this
    {
      Target(target, lowkey)
    }

    ghost function Child(): ChildState
      reads this
    {
      ChildState(prevrightlink, previncompletesplit)
    }

    constructor (ix: Index, limit: nat, blk: nat)
      requires blk in ix.pages
      ensures this.ix == ix && this.limit == limit
      ensures lowkey == None && Child() == FRESH
    {
      this.ix, this.limit := ix, limit;
      target := ix.pages[blk];
      lowkey, prevrightlink, previncompletesplit := None, INVALID_BLOCK, false;
    }

    /** The high key comparison of `bt_child_highkey_check`. */
    method MatchHighKey(offset: nat, blkno: nat) returns (ok: bool)
      requires blkno in ix.pages
      ensures ok <==> HighKeyMatches(Parent(), offset, blkno, ix.pages[blkno])
    {
      var page := ix.pages[blkno];
      if page.incompleteSplit || Rightmost(page) || page.halfDead {
        return true;
      }
      if !HasItem(page, P_HIKEY) {
        return false;
      }
      var pivotkey := if blkno == TargetLink(target, offset) then offset + 1 else offset;
      var itup;
      if !NegativeInfinity(target, pivotkey) {
        if pivotkey > MaxOffset(target) {
          if Rightmost(target) {
            return false;
          }
          pivotkey := P_HIKEY;
        }
        if !HasItem(target, pivotkey) {
          return false;
        }
        itup := Item(target, pivotkey);
      } else {
        if lowkey == None {
          return false;
        }
        itup := lowkey.value;
      }
      return Identical(Item(page, P_HIKEY), itup);
    }

    /** The checks on one page met on the child level. */
    method VisitChild(offset: nat, ghost before: seq<nat>, first: bool, rightsplit: bool, blkno: nat) returns (r: Outcome)
      requires first <==> before == []
      requires rightsplit <==> SplitBefore(ix, Child(), before)
      ensures r == Clean ==> VisitOk(ix, Parent(), offset, Child(), before, blkno)
      ensures r == Corrupt ==> !VisitOk(ix, Parent(), offset, Child(), before, blkno)
      ensures r == Interrupted ==> Chains(ix)(limit)
    {
      if blkno == P_NONE || !Loads(ix, blkno) {
        return Corrupt;
      }
      var c := ix.pages[blkno];
      if first && prevrightlink == INVALID_BLOCK {
        var leftmost := CheckLeftmost(ix, blkno);
        if !leftmost {
          return Corrupt;
        }
      }
      if (!c.deleted || c.fullXid) && c.level != LevelBelow(target.level) {
        return Corrupt;
      }
      if (!first && blkno == prevrightlink) || blkno == c.prev {
        return Corrupt;
      }
      if blkno != TargetLink(target, offset) && !Ignore(c) {
        var m := CheckDownlinkMissing(ix, limit, rightsplit, blkno);
        if m != Clean {
          return m;
        }
      }
      var ok := MatchHighKey(offset, blkno);
      return if ok then Clean else Corrupt;
    }

    /** `bt_child_highkey_check`: walk right on the child level up to the downlink
        at `offset`, or to the end of the level for `INVALID_OFFSET`. */
    method CheckChildHighKeys(offset: nat) returns (r: Outcome)
      modifies this`prevrightlink, this`previncompletesplit
      ensures r == Clean ==>
        SegmentOk(ix, Parent(), offset, old(Child())) && Child() == StateAfter(ix, TargetLink(target, offset))
      ensures r == Corrupt ==> !SegmentOk(ix, Parent(), offset, old(Child()))
      ensures r == Interrupted ==> Chains(ix)(limit)
    {
      var downlink := TargetLink(target, offset);
      var blkno := if prevrightlink == INVALID_BLOCK then downlink else prevrightlink;
      var rightsplit := prevrightlink != INVALID_BLOCK && previncompletesplit;
      var first := true;
      ghost var path: seq<nat> := [];
      for n := 0 to limit
        invariant Child() == old(Child())
        invariant SegmentWalk(ix, Parent(), offset, Child(), path) && downlink !in path && |path| == n
        invariant blkno == Reached(RightLinks(ix), SegmentStart(Parent(), offset, Child()), path, |path|)
        invariant first <==> path == []
        invariant rightsplit <==> SplitBefore(ix, Child(), path)
      {
        if blkno == P_NONE && downlink == P_NONE {
          SegmentEnds(ix, Parent(), offset, Child(), path);
          prevrightlink, previncompletesplit := INVALID_BLOCK, false;
          return Clean;
        }
        r := VisitChild(offset, path, first, rightsplit, blkno);
        if r == Corrupt {
          SegmentStuck(ix, Parent(), offset, Child(), path, blkno);
        }
        if r != Clean {
          return;
        }
        SegmentExtends(ix, Parent(), offset, Child(), path, blkno);
        path := path + [blkno];
        rightsplit := ix.pages[blkno].incompleteSplit;
        if blkno == downlink {
          prevrightlink, previncompletesplit := ix.pages[blkno].next, rightsplit;
          return Clean;
        }
        blkno := ix.pages[blkno].next;
        first := false;
      }
      SegmentIsLong(ix, Parent(), offset, Child(), path);
      return Interrupted;
    }

    /** `bt_child_check`: the connectivity check, then the downlink's key against
        every item of the child. */
    method CheckChild(offset: nat) returns (r: Outcome)
      requires HasItem(target, offset)
      modifies this`prevrightlink, this`previncompletesplit
      ensures r == Clean ==>
        ChildOk(ix, Parent(), offset, old(Child())) && Child() == StateAfter(ix, TargetLink(target, offset))
      ensures r == Corrupt ==> !ChildOk(ix, Parent(), offset, old(Child()))
      ensures r == Interrupted ==> Chains(ix)(limit)
    {
      var childblock := DownLink(Item(target, offset));
      if !Loads(ix, childblock) {
        return Corrupt;
      }
      var child := ix.pages[childblock];
      r := CheckChildHighKeys(offset);
      if r != Clean {
        return;
      }
      if child.deleted {
        return Corrupt;
      }
      var above := CheckLowerBound(MakeScanKey(ix, Item(target, offset)), child);
      return if above then Clean else Corrupt;
    }

    /** The key against every item of the child page. */
    method CheckLowerBound(key: ScanKey, child: Page) returns (above: bool)
      requires |key.atts| <= KeyCount(ix)
      ensures above <==> All(BelowItems(ix, key, child), FirstDataKey(child), MaxOffset(child) + 1)
    {
      var o := FirstDataKey(child);
      while o <= MaxOffset(child)
        invariant All(BelowItems(ix, key, child), FirstDataKey(child), o)
      {
        if !NegativeInfinity(child, o) && !LessThanItem(ix, key, child, o) {
          assert !BelowItems(ix, key, child)(o);
          return false;
        }
        o := o + 1;
      }
      return true;
    }

    /** `bt_right_page_check_scankey`: the key of the first item to the right. */
    method RightPageScanKey() returns (r: Outcome, key: Option<ScanKey>, ghost blk: nat)
      requires !Rightmost(target)
      ensures r == Clean ==> RightNeighbour(ix, target, blk) && key == FirstKey(ix, ix.pages[blk])
      ensures r == Clean ==> forall b :: RightNeighbour(ix, target, b) ==> b == blk
      ensures r == Corrupt ==> forall b :: !RightNeighbour(ix, target, b)
      ensures r == Interrupted ==> Chains(ix)(limit)
    {
      var targetnext := target.next;
      ghost var path: seq<nat> := [];
      for n := 0 to limit
        invariant Walk(RightLinks(ix), StepsOver(ix), target.next, path) && |path| == n
        invariant targetnext == Reached(RightLinks(ix), target.next, path, |path|)
      {
        if !Loads(ix, targetnext) {
          NeighbourUnique(ix, target, path, targetnext);
          return Corrupt, None, targetnext;
        }
        var right := ix.pages[targetnext];
        if !Ignore(right) || Rightmost(right) {
          NeighbourUnique(ix, target, path, targetnext);
          blk := targetnext;
          var nline, firstkey := MaxOffset(right), FirstDataKey(right);
          if right.leaf && nline >= firstkey {
            return Clean, Some(MakeScanKey(ix, Item(right, firstkey))), blk;
          } else if !right.leaf && nline >= firstkey + 1 {
            return Clean, Some(MakeScanKey(ix, Item(right, firstkey + 1))), blk;
          }
          return Clean, None, blk;
        }
        WalkExtends(RightLinks(ix), StepsOver(ix), target.next, path);
        path := path + [targetnext];
        targetnext := right.next;
      }
      IsLong(ix, RightLinks(ix), StepsOver(ix), target.next, path);
      return Interrupted, None, targetnext;
    }

    /** A posting list's TIDs in order. */
    method CheckPosting(t: IndexTuple) returns (ok: bool)
      ensures ok <==> TidsIncrease(t)
    {
      if !t.Posting? {
        return true;
      }
      var last := t.first;
      for i := 0 to |t.rest|
        invariant last == PostingTid(t, i)
        invariant forall j :: 0 <= j < i ==> TidLess(PostingTid(t, j), t.rest[j])
      {
        if !TidLess(last, t.rest[i]) {
          return false;
        }
        last := t.rest[i];
      }
      return true;
    }

    /** The same-level checks made on one item of the target page. */
    method CheckItem(offset: nat) returns (r: Outcome)
      requires HasItem(target, offset)
      ensures r == Clean ==> ItemOk(ix, target, offset)
      ensures r == Corrupt ==> !ItemOk(ix, target, offset)
      ensures r == Interrupted ==> Chains(ix)(limit)
    {
      if !CheckNatts(ix, target, offset) {
        return Corrupt;
      }
      if NegativeInfinity(target, offset) {
        return Clean;
      }
      var itup := Item(target, offset);
      var sorted := CheckPosting(itup);
      if !sorted {
        return Corrupt;
      }
      var skey := MakeScanKey(ix, itup);
      var scantid := skey.scantid;
      if itup.Posting? {
        skey := skey.(scantid := MaxHeapTid(itup));
      }
      if !Rightmost(target) &&
         !(if target.leaf then AtMostItem(ix, skey, target, P_HIKEY) else LessThanItem(ix, skey, target, P_HIKEY)) {
        return Corrupt;
      }
      skey := skey.(scantid := scantid);
      if offset < MaxOffset(target) && !LessThanItem(ix, skey, target, offset + 1) {
        return Corrupt;
      }
      if offset == MaxOffset(target) && !Rightmost(target) {
        var rightkey;
        ghost var blk;
        r, rightkey, blk := RightPageScanKey();
        if r != Clean {
          return;
        }
        if rightkey.Some? && !GreaterThanItem(ix, rightkey.value, target, MaxOffset(target)) {
          return Corrupt;
        }
        assert BelowFirstKey(ix, target, ix.pages[blk]);
      }
      return Clean;
    }

    /** The connectivity checks made for one downlink of the target page. */
    method CheckDownlink(offset: nat, ghost st: ChildState) returns (r: Outcome)
      requires HasItem(target, offset) && Child() == StateAt(ix, target, offset, st)
      requires offset >= FirstDataKey(target)
      modifies this`prevrightlink, this`previncompletesplit
      ensures r == Clean ==> DownlinkOk(ix, Parent(), offset, st) && Child() == StateAt(ix, target, offset + 1, st)
      ensures r == Corrupt ==> !DownlinkOk(ix, Parent(), offset, st)
      ensures r == Interrupted ==> Chains(ix)(limit)
    {
      if NegativeInfinity(target, offset) {
        r := CheckChildHighKeys(offset);
      } else {
        r := CheckChild(offset);
      }
    }

    /** One iteration of the loop over the target's items. */
    method CheckOffset(offset: nat, ghost st: ChildState) returns (r: Outcome)
      requires HasItem(target, offset) && offset >= FirstDataKey(target)
      requires Child() == if target.leaf then st else StateAt(ix, target, offset, st)
      modifies this`prevrightlink, this`previncompletesplit
      ensures r == Clean ==> Items(ix, target)(offset) && (!target.leaf ==> Downlinks(ix, Parent(), st)(offset))
      ensures r == Clean ==> Child() == if target.leaf then st else StateAt(ix, target, offset + 1, st)
      ensures r == Corrupt ==> !Items(ix, target)(offset) || (!target.leaf && !Downlinks(ix, Parent(), st)(offset))
      ensures r == Interrupted ==> Chains(ix)(limit)
    {
      r := CheckItem(offset);
      if r == Clean && !target.leaf {
        r := CheckDownlink(offset, st);
      }
    }

    /** The loop over the target's items. */
    method CheckOffsets(ghost st: ChildState) returns (r: Outcome)
      requires Child() == st && (!target.leaf ==> MaxOffset(target) >= FirstDataKey(target))
      modifies this`prevrightlink, this`previncompletesplit
      ensures r == Clean ==> All(Items(ix, target), FirstDataKey(target), MaxOffset(target) + 1)
      ensures r == Clean && !target.leaf ==>
        All(Downlinks(ix, Parent(), st), FirstDataKey(target), MaxOffset(target) + 1)
      ensures r == Clean ==> Child() == if target.leaf then st else StateAt(ix, target, MaxOffset(target) + 1, st)
      ensures r == Corrupt ==>
        || !All(Items(ix, target), FirstDataKey(target), MaxOffset(target) + 1)
        || (!target.leaf && !All(Downlinks(ix, Parent(), st), FirstDataKey(target), MaxOffset(target) + 1))
      ensures r == Interrupted ==> Chains(ix)(limit)
    {
      ghost var ok, down := Items(ix, target), Downlinks(ix, Parent(), st);
      var first := FirstDataKey(target);
      var offset := first;
      while offset <= MaxOffset(target)
        invariant offset == first || first < offset <= MaxOffset(target) + 1
        invariant All(ok, first, offset) && (!target.leaf ==> All(down, first, offset))
        invariant Child() == if target.leaf then st else StateAt(ix, target, offset, st)
      {
        r := CheckOffset(offset, st);
        if r != Clean {
          return;
        }
        AllMore(ok, first, offset);
        if !target.leaf {
          AllMore(down, first, offset);
        }
        offset := offset + 1;
      }
      return Clean;
    }

    /** `bt_target_page_check`. */
    method CheckTargetPage() returns (r: Outcome)
      requires !target.leaf ==> MaxOffset(target) >= FirstDataKey(target)
      requires !Rightmost(target) ==> HasItem(target, P_HIKEY)
      modifies this`prevrightlink, this`previncompletesplit
      ensures r == Clean ==>
        TargetOk(ix, Parent(), old(Child())) && Child() == StateAfterTarget(ix, target, old(Child()))
      ensures r == Corrupt ==> !TargetOk(ix, Parent(), old(Child()))
      ensures r == Interrupted ==> Chains(ix)(limit)
    {
      if !Rightmost(target) && !CheckNatts(ix, target, P_HIKEY) {
        return Corrupt;
      }
      r := CheckOffsets(Child());
      if r == Clean && !target.leaf && Rightmost(target) {
        r := CheckChildHighKeys(INVALID_OFFSET);
      }
    }

    /** `bt_check_level_from_leftmost`: the whole level starting at `lv.leftmost`. */
    method CheckLevel(lv: Level) returns (r: Outcome, next: Level, ghost path: seq<nat>)
      requires lv.leftmost != P_NONE && lowkey == None && INVALID_BLOCK !in ix.pages
      modifies this
      ensures r == Clean ==> LevelOk(ix, lv, path) && next == NextLevel(ix, path) && lowkey == None
      ensures r == Corrupt ==> forall q :: !LevelOk(ix, lv, q)
      ensures r == Interrupted ==> Chains(ix)(limit)
    {
      var leftcurrent, current := P_NONE, lv.leftmost;
      next := Level(INVALID_LEVEL, INVALID_BLOCK, false);
      prevrightlink, previncompletesplit := INVALID_BLOCK, false;
      path := [];
      for n := 0 to limit
        invariant LevelWalk(ix, lv, path) && |path| == n
        invariant current == Reached(RightLinks(ix), lv.leftmost, path, |path|) != P_NONE
        invariant leftcurrent == Last(P_NONE, path) && P_NONE !in path
        invariant next == NextLevel(ix, path) && (next.leftmost == INVALID_BLOCK <==> NoneLive(ix, path))
        invariant lowkey == LowKey(ix, path) && Child() == StateBefore(ix, path)
      {
        r, next := CheckLevelStep(lv, path, leftcurrent, current, next);
        if r == Corrupt {
          LevelStuck(ix, lv, path, current);
        }
        if r != Clean {
          return;
        }
        LevelAdvances(ix, lv, path, current);
        path := path + [current];
        leftcurrent := current;
        current := target.next;
        if current == P_NONE {
          lowkey := None;
          return Clean, next, path;
        }
      }
      LevelIsLong(ix, lv, path);
      return Interrupted, next, path;
    }

    /** A live page of the level; the first one also determines the next level. */
    method CheckLivePage(lv: Level, ghost path: seq<nat>, leftcurrent: nat, current: nat, nextIn: Level)
      returns (r: Outcome, next: Level)
      requires Loads(ix, current) && target == ix.pages[current] && !Ignore(target) && current != P_NONE
      requires leftcurrent == Last(P_NONE, path) && P_NONE !in path
      requires nextIn == NextLevel(ix, path) && (nextIn.leftmost == INVALID_BLOCK <==> NoneLive(ix, path))
      requires Child() == StateBefore(ix, path)
      modifies this`prevrightlink, this`previncompletesplit
      ensures r == Clean ==> PlacedOk(ix, lv, path, current) && TargetOk(ix, Parent(), StateBefore(ix, path))
      ensures r == Clean ==>
        next == NextLevel(ix, path + [current]) && Child() == StateAfterTarget(ix, target, StateBefore(ix, path))
      ensures r == Corrupt ==> !(PlacedOk(ix, lv, path, current) && TargetOk(ix, Parent(), StateBefore(ix, path)))
      ensures r == Interrupted ==> Chains(ix)(limit)
    {
      assert (path + [current])[..|path|] == path;
      next := nextIn;
      if next.leftmost == INVALID_BLOCK {
        var leftmost := CheckLeftmost(ix, current);
        if !leftmost || (lv.trueRoot && !target.root && !target.incompleteSplit) {
          return Corrupt, next;
        }
        if !target.leaf {
          next := Level(LevelBelow(target.level), DownLink(Item(target, FirstDataKey(target))), false);
        } else {
          next := Level(INVALID_LEVEL, P_NONE, false);
        }
      }
      if target.prev != leftcurrent && leftcurrent != P_NONE {
        return Corrupt, next;
      }
      if lv.level != target.level {
        return Corrupt, next;
      }
      r := CheckTargetPage();
    }

    /** One iteration of the level's loop, on the page `current`. */
    method CheckLevelStep(lv: Level, ghost path: seq<nat>, leftcurrent: nat, current: nat, nextIn: Level)
      returns (r: Outcome, next: Level)
      requires current != P_NONE && leftcurrent == Last(P_NONE, path) && P_NONE !in path
      requires nextIn == NextLevel(ix, path) && (nextIn.leftmost == INVALID_BLOCK <==> NoneLive(ix, path))
      requires lowkey == LowKey(ix, path) && Child() == StateBefore(ix, path)
      modifies this
      ensures r == Clean ==>
        && LevelStepOk(ix, lv, path, current) && target == ix.pages[current]
        && next == NextLevel(ix, path + [current])
        && lowkey == LowKey(ix, path + [current]) && Child() == StateBefore(ix, path + [current])
      ensures r == Corrupt ==> !LevelStepOk(ix, lv, path, current)
      ensures r == Interrupted ==> Chains(ix)(limit)
    {
      assert (path + [current])[..|path|] == path;
      next := nextIn;
      if !Loads(ix, current) {
        return Corrupt, next;
      }
      target := ix.pages[current];
      if Ignore(target) {
        if target.deleted || Rightmost(target) {
          return Corrupt, next;
        }
      } else {
        r, next := CheckLivePage(lv, path, leftcurrent, current, next);
        if r != Clean {
          return;
        }
      }
      if current == leftcurrent || current == target.prev {
        return Corrupt, next;
      }
      var ok := SaveLowKey();
      return if ok then Clean else Corrupt, next;
    }

    /** Keeps the target's high key for its right sibling. */
    method SaveLowKey() returns (ok: bool)
      modifies this`lowkey
      ensures ok <==> Rightmost(target) || HasItem(target, P_HIKEY)
      ensures ok ==> lowkey == if Rightmost(target) then None else Some(Item(target, P_HIKEY))
    {
      lowkey := None;
      if !Rightmost(target) {
        if !HasItem(target, P_HIKEY) {
          return false;
        }
        lowkey := Some(Item(target, P_HIKEY));
      }
      return true;
    }

    /** `bt_check_every_level`: from the true root's level down to the leaves. */
    method CheckEveryLevel(root: Level) returns (r: Outcome)
      requires lowkey == None && INVALID_BLOCK !in ix.pages
      modifies this
      ensures r == Clean ==> TreeOk(ix, root)
      ensures r == Corrupt ==> !TreeOk(ix, root)
      ensures r == Interrupted ==> Chains(ix)(limit)
    {
      var current := root;
      while current.leftmost != P_NONE
        invariant lowkey == None && (TreeOk(ix, root) <==> TreeOk(ix, current))
        decreases if current.leftmost == P_NONE then 0 else current.level + 1
      {
        var next;
        ghost var path;
        r, next, path := CheckLevel(current);
        if r != Clean {
          return;
        }
        TreeUnfolds(ix, current, path);
        if next.leftmost == INVALID_BLOCK {
          return Corrupt;
        }
        NextLevelLower(ix, current, path);
        current := next;
      }
      return Clean;
    }
  }

  lemma {:induction false} FreshUntilLive(ix: Index, path: seq<nat>)
    requires NoneLive(ix, path)
    ensures StateBefore(ix, path) == FRESH
  {
    if path == [] {
    } else {
      assert !Live(ix, path[|path| - 1]);
      FreshUntilLive(ix, path[..|path| - 1]);
    }
  }

  /** The first downlink of a level's first live page can be followed. */
  lemma LevelAdvances(ix: Index, lv: Level, path: seq<nat>, current: nat)
    requires INVALID_BLOCK !in ix.pages
    requires LevelWalk(ix, lv, path) && current == Reached(RightLinks(ix), lv.leftmost, path, |path|)
    requires LevelStepOk(ix, lv, path, current)
    requires NextLevel(ix, path).leftmost == INVALID_BLOCK <==> NoneLive(ix, path)
    ensures LevelWalk(ix, lv, path + [current])
    ensures NextLevel(ix, path + [current]).leftmost == INVALID_BLOCK <==> NoneLive(ix, path + [current])
  {
    WalkExtends(RightLinks(ix), LevelSteps(ix, lv), lv.leftmost, path);
    var more := path + [current];
    assert more[..|path|] == path;
    assert NoneLive(ix, more) <==> NoneLive(ix, path) && !Live(ix, current) by {
      assert forall k :: 0 <= k < |path| ==> more[k] == path[k];
      assert more[|path|] == current;
    }
    if NoneLive(ix, path) && Live(ix, current) && !ix.pages[current].leaf {
      FreshUntilLive(ix, path);
      FirstDownlinkLoads(ix, Target(ix.pages[current], LowKey(ix, path)));
    }
  }

  lemma FirstDownlinkLoads(ix: Index, t: Target)
    requires INVALID_BLOCK !in ix.pages
    requires !t.page.leaf && HasItem(t.page, FirstDataKey(t.page)) && TargetOk(ix, t, FRESH)
    ensures TargetLink(t.page, FirstDataKey(t.page)) != INVALID_BLOCK
  {
    var o := FirstDataKey(t.page);
    assert Downlinks(ix, t, FRESH)(o);
    var path :| Segment(ix, t, o, FRESH)(path);
    if path != [] {
      AcceptedAt(RightLinks(ix), Visits(ix, t, o, FRESH), SegmentStart(t, o, FRESH), path, 0);
    }
  }

  lemma {:induction false} NextLevelLower(ix: Index, lv: Level, path: seq<nat>)
    requires LevelWalk(ix, lv, path)
    ensures NextLevel(ix, path).leftmost in {INVALID_BLOCK, P_NONE} || NextLevel(ix, path).level < lv.level
  {
    if path == [] {
    } else {
      var n := |path| - 1;
      WalkPrefix(RightLinks(ix), LevelSteps(ix, lv), lv.leftmost, path, n);
      NextLevelLower(ix, lv, path[..n]);
      AcceptedAt(RightLinks(ix), LevelSteps(ix, lv), lv.leftmost, path, n);
    }
  }

  lemma LevelUnique(ix: Index, lv: Level, p: seq<nat>, q: seq<nat>)
    requires LevelOk(ix, lv, p) && LevelOk(ix, lv, q) && |p| <= |q|
    ensures p == q
  {
    var f, accept := RightLinks(ix), LevelSteps(ix, lv);
    var n: nat := |p|;
    WalksAgree(f, accept, accept, lv.leftmost, p, q);
    if n < |q| {
      AcceptedAt(f, accept, lv.leftmost, q, n);
      assert false;
    }
  }

  lemma TreeUnfolds(ix: Index, lv: Level, path: seq<nat>)
    requires LevelOk(ix, lv, path) && lv.leftmost != P_NONE
    ensures TreeOk(ix, lv) <==> DescendsOk(ix, lv, NextLevel(ix, path))
  {
    forall q | LevelOk(ix, lv, q)
      ensures q == path
    {
      if |q| <= |path| {
        LevelUnique(ix, lv, q, path);
      } else {
        LevelUnique(ix, lv, path, q);
      }
    }
  }

  lemma LevelStuck(ix: Index, lv: Level, path: seq<nat>, current: nat)
    requires LevelWalk(ix, lv, path)
    requires current == Reached(RightLinks(ix), lv.leftmost, path, |path|) != P_NONE
    requires !LevelStepOk(ix, lv, path, current)
    ensures forall q :: !LevelOk(ix, lv, q)
  {
    var f, accept, first := RightLinks(ix), LevelSteps(ix, lv), lv.leftmost;
    forall q | Walk(f, accept, first, q)
      ensures Reached(f, first, q, |q|) != P_NONE
    {
      WalkStuck(f, accept, first, path, q);
      if |q| < |path| {
        AcceptedAt(f, accept, first, path, |q|);
      }
    }
  }
}
