/** What clean checks of two adjacent levels say together. */
module BtreeTree {
  import opened Optional
  import opened BtreePages
  import opened BtreeOrder
  import opened BtreeSpec
  import opened BtreeLockstep
  import opened BtreeLeaves

  /** The next level starts at the first downlink. */
  lemma {:induction false} NextLevelStart(ix: Index, lv: Level, path: seq<nat>)
    requires INVALID_BLOCK !in ix.pages && LevelWalk(ix, lv, path) && lv.level > 0
    ensures NextLevel(ix, path).leftmost ==
      if |Slots(ix, path)| == 0 then INVALID_BLOCK else Link(Slots(ix, path)[0])
    ensures |Slots(ix, path)| > 0 ==> Link(Slots(ix, path)[0]) != INVALID_BLOCK
  {
    if path == [] {
    } else {
      var n := |path| - 1;
      WalkPrefix(RightLinks(ix), LevelSteps(ix, lv), lv.leftmost, path, n);
      AcceptedAt(RightLinks(ix), LevelSteps(ix, lv), lv.leftmost, path, n);
      NextLevelStart(ix, lv, path[..n]);
      if Live(ix, path[n]) {
        LivePage(ix, lv, path[..n], path[n]);
        FirstSlot(ix, path);
        FirstLinkValid(ix, lv, path);
      }
    }
  }

  /** The first downlink of a level that ends with a live internal page. */
  lemma FirstSlot(ix: Index, path: seq<nat>)
    requires path != [] && Live(ix, path[|path| - 1])
    requires
      var p := ix.pages[path[|path| - 1]];
      !p.leaf && MaxOffset(p) >= FirstDataKey(p)
    ensures
      var p, older := ix.pages[path[|path| - 1]], Slots(ix, path[..|path| - 1]);
      && |Slots(ix, path)| > 0
      && Link(Slots(ix, path)[0]) == if |older| > 0 then Link(older[0]) else TargetLink(p, FirstDataKey(p))
  {
    var n := |path| - 1;
    var own := PageSlots(Target(ix.pages[path[n]], LowKey(ix, path[..n])));
    assert Slots(ix, path) == Slots(ix, path[..n]) + own && |own| > 0;
  }

  lemma FirstLinkValid(ix: Index, lv: Level, path: seq<nat>)
    requires INVALID_BLOCK !in ix.pages && LevelWalk(ix, lv, path) && lv.level > 0 && |Slots(ix, path)| > 0
    ensures Link(Slots(ix, path)[0]) != INVALID_BLOCK
  {
    LevelSlots(ix, lv, path);
    if Link(Slots(ix, path)[0]) != P_NONE {
      FirstLinkLeftmost(ix, Slots(ix, path));
    }
  }

  /** The links of the first `n` slots are sane when the level below is itself
      checked without an error from the first downlink on. */
  lemma {:induction false} LinksSaneBelow(ix: Index, s: seq<Slot>, lv: Level, below: seq<nat>, n: nat)
    requires INVALID_BLOCK !in ix.pages && SlotsOk(ix, s) && NoNullLink(s) && 0 < |s| && n <= |s|
    requires LevelOk(ix, lv, below) && lv.leftmost == Link(s[0])
    ensures SaneLinks(ix, s, n)
  {
    if n == 0 {
    } else {
      LinksSaneBelow(ix, s, lv, below, n - 1);
      LinkSaneBelow(ix, s, lv, below, n);
      SaneMore(ix, s, n);
    }
  }

  lemma SaneMore(ix: Index, s: seq<Slot>, n: nat)
    requires 0 < n <= |s| && SaneLinks(ix, s, n - 1) && SaneLink(ix, Link(s[n - 1]))
    ensures SaneLinks(ix, s, n)
  {
    assert forall i {:trigger Link(s[i])} :: 0 <= i < n ==> i < n - 1 || Link(s[i]) == Link(s[n - 1]);
  }

  lemma LinkSaneBelow(ix: Index, s: seq<Slot>, lv: Level, below: seq<nat>, n: nat)
    requires INVALID_BLOCK !in ix.pages && SlotsOk(ix, s) && NoNullLink(s) && 0 < n <= |s|
    requires LevelOk(ix, lv, below) && lv.leftmost == Link(s[0]) && SaneLinks(ix, s, n - 1)
    ensures SaneLink(ix, Link(s[n - 1]))
  {
    var chain, at := BuildChain(ix, s, n);
    ChainMeets(ix, s, chain, at, lv, below);
  }

  /** A walk `q` without the null link is the beginning of a walk `p` that ends with
      it, so what follows its last block is that link or a block that `p` accepts. */
  lemma NextOnWalk(f: nat -> nat, accept: (seq<nat>, nat) -> bool, accept': (seq<nat>, nat) -> bool,
                   first: nat, p: seq<nat>, q: seq<nat>) returns (next: nat)
    requires Walk(f, accept, first, p) && Walk(f, accept', first, q) && q != []
    requires Reached(f, first, p, |p|) == P_NONE && P_NONE !in q
    ensures next == f(q[|q| - 1])
    ensures next == P_NONE || (|q| < |p| && next == p[|q|] && accept(p[..|q|], next))
  {
    WholeWalksAgree(f, accept, accept', first, p, q);
    next := Reached(f, first, q, |q|);
    if |q| < |p| {
      AcceptedAt(f, accept, first, p, |q|);
    }
  }

  /** A chain that leads to a downlink is the beginning of the level below. */
  lemma ChainMeets(ix: Index, s: seq<Slot>, chain: seq<nat>, at: seq<nat>, lv: Level, below: seq<nat>)
    requires INVALID_BLOCK !in ix.pages && Chained(ix, s, chain, at) && at[|at| - 1] == |chain| - 1
    requires LevelOk(ix, lv, below) && lv.leftmost == Link(s[0])
    ensures SaneLink(ix, Link(s[|at| - 1]))
  {
    LastIsDownlink(ix, s, chain, at);
    LastIsSane(ix, chain, lv, below);
  }

  lemma LastIsDownlink(ix: Index, s: seq<Slot>, chain: seq<nat>, at: seq<nat>)
    requires Chained(ix, s, chain, at) && at[|at| - 1] == |chain| - 1
    ensures chain != [] && chain[|chain| - 1] == Link(s[|at| - 1])
  {
    assert Places(ix, s, chain, at)(|at| - 1);
  }

  lemma LastIsSane(ix: Index, chain: seq<nat>, lv: Level, below: seq<nat>)
    requires INVALID_BLOCK !in ix.pages && chain != [] && LevelOk(ix, lv, below)
    requires Walk(RightLinks(ix), Loadable(ix), lv.leftmost, chain)
    ensures SaneLink(ix, chain[|chain| - 1])
  {
    NoNullIn(ix, lv.leftmost, chain);
    var next := NextOnWalk(RightLinks(ix), LevelSteps(ix, lv), Loadable(ix), lv.leftmost, below, chain);
    if next != P_NONE {
      StepLoads(ix, lv, below[..|chain|], next);
    }
    AcceptedAt(RightLinks(ix), Loadable(ix), lv.leftmost, chain, |chain| - 1);
  }

  lemma StepLoads(ix: Index, lv: Level, before: seq<nat>, blk: nat)
    requires LevelSteps(ix, lv)(before, blk)
    ensures blk in ix.pages
  {
  }

  lemma NoNullIn(ix: Index, first: nat, chain: seq<nat>)
    requires Walk(RightLinks(ix), Loadable(ix), first, chain)
    ensures P_NONE !in chain
  {
    forall k | 0 <= k < |chain|
      ensures chain[k] != P_NONE
    {
      AcceptedAt(RightLinks(ix), Loadable(ix), first, chain, k);
    }
  }

  lemma NoNullOnLevel(ix: Index, lv: Level, path: seq<nat>)
    requires LevelWalk(ix, lv, path)
    ensures P_NONE !in path
  {
    forall k | 0 <= k < |path|
      ensures path[k] != P_NONE
    {
      AcceptedAt(RightLinks(ix), LevelSteps(ix, lv), lv.leftmost, path, k);
    }
  }

  /** In a clean run without null downlinks, the chain that an internal level's
      downlinks are found on is the level below itself, every page of it once. */
  lemma LevelsInLockstep(ix: Index, lv: Level, path: seq<nat>, below: seq<nat>)
    requires INVALID_BLOCK !in ix.pages && lv.level > 0
    requires LevelOk(ix, lv, path) && LevelOk(ix, NextLevel(ix, path), below)
    requires NoNullLink(Slots(ix, path))
    ensures Last(P_NONE, path) in ix.pages
    ensures exists at :: ChildLevel(ix, Slots(ix, path), EndTarget(ix, path), below, at)
    ensures forall i, j :: 0 <= i < j < |below| ==> below[i] != below[j]
  {
    var s := Slots(ix, path);
    LevelHasSlots(ix, lv, path);
    LevelSlots(ix, lv, path);
    NextLevelStart(ix, lv, path);
    LinksSaneBelow(ix, s, NextLevel(ix, path), below, |s|);
    var chain := SaneChain(ix, s, EndTarget(ix, path));
    var next := NextLevel(ix, path);
    NoNullIn(ix, Link(s[0]), chain);
    NoNullOnLevel(ix, next, below);
    WholeWalksAgree(RightLinks(ix), LevelSteps(ix, next), Loadable(ix), next.leftmost, below, chain);
    forall i, j | 0 <= i < j < |below|
      ensures below[i] != below[j]
    {
      EndingWalkDistinct(RightLinks(ix), LevelSteps(ix, next), next.leftmost, below, i, j);
    }
  }

  // ------------------------------------------------------- separators and children

  /** The separator that follows the downlink at `o`: the next pivot, or the page's
      own high key after its last downlink. */
  function NextSeparator(p: Page, o: nat): Option<IndexTuple> {
    if o < MaxOffset(p) then Some(Item(p, o + 1))
    else if !Rightmost(p) && HasItem(p, P_HIKEY) then Some(Item(p, P_HIKEY)) else None
  }

  /** A live page of an internal level, with the state its children are checked in. */
  lemma InternalPage(ix: Index, lv: Level, path: seq<nat>, k: nat)
    requires LevelWalk(ix, lv, path) && lv.level > 0 && k < |path| && Live(ix, path[k])
    ensures !ix.pages[path[k]].leaf && MaxOffset(ix.pages[path[k]]) >= FirstDataKey(ix.pages[path[k]])
    ensures var p := ix.pages[path[k]];
      All(Downlinks(ix, Target(p, LowKey(ix, path[..k])), StateBefore(ix, path[..k])), FirstDataKey(p), MaxOffset(p) + 1)
  {
    AcceptedAt(RightLinks(ix), LevelSteps(ix, lv), lv.leftmost, path, k);
    LivePage(ix, lv, path[..k], path[k]);
  }

  lemma LinkedChildVisited(ix: Index, t: Target, o: nat, st: ChildState)
    requires SegmentOk(ix, t, o, st) && TargetLink(t.page, o) != P_NONE
    ensures Loads(ix, TargetLink(t.page, o))
    ensures HighKeyMatches(t, o, TargetLink(t.page, o), ix.pages[TargetLink(t.page, o)])
  {
    var seg :| Segment(ix, t, o, st)(seg);
    SegmentVisit(ix, Slot(t, o), st, seg, |seg| - 1);
  }

  /** The high key of a child that has one to match is, up to the block number, the
      next separator on the parent level; there is one unless the child is last. */
  lemma ChildHighKey(ix: Index, lv: Level, path: seq<nat>, k: nat, o: nat)
    requires LevelWalk(ix, lv, path) && lv.level > 0 && k < |path| && Live(ix, path[k])
    requires FirstDataKey(ix.pages[path[k]]) <= o <= MaxOffset(ix.pages[path[k]])
    requires TargetLink(ix.pages[path[k]], o) != P_NONE
    ensures var c := TargetLink(ix.pages[path[k]], o);
      && Loads(ix, c)
      && (HasHighKeyToMatch(ix.pages[c]) ==>
            && HasItem(ix.pages[c], P_HIKEY) && NextSeparator(ix.pages[path[k]], o).Some?
            && Identical(Item(ix.pages[c], P_HIKEY), NextSeparator(ix.pages[path[k]], o).value))
  {
    InternalPage(ix, lv, path, k);
    var t := Target(ix.pages[path[k]], LowKey(ix, path[..k]));
    var st := StateBefore(ix, path[..k]);
    DownlinkSegment(ix, t, st, o);
    LinkedChildVisited(ix, t, o, StateAt(ix, t.page, o, st));
  }

  /** A separator is a proper pivot: it was checked as an item of its page. */
  lemma PivotRegular(ix: Index, lv: Level, path: seq<nat>, k: nat, o: nat)
    requires LevelWalk(ix, lv, path) && lv.level > 0 && k < |path| && Live(ix, path[k])
    requires FirstDataKey(ix.pages[path[k]]) < o <= MaxOffset(ix.pages[path[k]])
    ensures Regular(ix, LowPosition(ix, Item(ix.pages[path[k]], o)))
  {
    AcceptedAt(RightLinks(ix), LevelSteps(ix, lv), lv.leftmost, path, k);
    assert Items(ix, ix.pages[path[k]])(o);
    LivePage(ix, lv, path[..k], path[k]);
  }

  /** The lower bound: the downlink's key is strictly below every item of the leaf. */
  lemma AboveSeparator(ix: Index, lv: Level, path: seq<nat>, k: nat, o: nat, leaf: nat, x: nat)
    requires Valid(ix) && LevelWalk(ix, lv, path) && lv.level > 0 && k < |path| && Live(ix, path[k])
    requires FirstDataKey(ix.pages[path[k]]) < o <= MaxOffset(ix.pages[path[k]])
    requires leaf == TargetLink(ix.pages[path[k]], o) && LeafOk(ix, leaf)
    requires FirstDataKey(ix.pages[leaf]) <= x <= MaxOffset(ix.pages[leaf])
    ensures Before(ix, LowPosition(ix, Item(ix.pages[path[k]], o)), LowPosition(ix, Item(ix.pages[leaf], x)))
  {
    var p, c := ix.pages[path[k]], ix.pages[leaf];
    InternalPage(ix, lv, path, k);
    var t, st := Target(p, LowKey(ix, path[..k])), StateBefore(ix, path[..k]);
    assert Downlinks(ix, t, st)(o);
    assert BelowItems(ix, MakeScanKey(ix, Item(p, o)), c)(x);
    PivotRegular(ix, lv, path, k, o);
    LeafItem(ix, leaf, x);
    LessThanItemMeaning(ix, Item(p, o), c, x);
  }

  /** The upper bound: no item of the leaf, by its last TID, is past its high key. */
  lemma WithinOwnHighKey(ix: Index, leaf: nat, x: nat)
    requires Valid(ix) && LeafOk(ix, leaf) && !Rightmost(ix.pages[leaf])
    requires HasItem(ix.pages[leaf], P_HIKEY) && CheckNatts(ix, ix.pages[leaf], P_HIKEY)
    requires FirstDataKey(ix.pages[leaf]) <= x <= MaxOffset(ix.pages[leaf])
    ensures NotAfter(ix, HighPosition(ix, Item(ix.pages[leaf], x)), LowPosition(ix, Item(ix.pages[leaf], P_HIKEY)))
  {
    LeafItem(ix, leaf, x);
    LeafItemOk(ix, leaf, x);
    AtMostItemMeaning(ix, Item(ix.pages[leaf], x), ix.pages[leaf], P_HIKEY);
  }

  /** After clean checks of the level above the leaves and of the leaf level, every
      item of a live leaf lies strictly above the separator of its downlink, unless
      that is minus infinity, and at most at the next separator, unless the leaf is
      the last, incompletely split or half-dead. */
  lemma SeparatorBounds(ix: Index, lv: Level, path: seq<nat>, lw: Level, below: seq<nat>, k: nat, o: nat, j: nat, x: nat)
    requires Valid(ix) && lv.level > 0 && LevelWalk(ix, lv, path) && k < |path| && Live(ix, path[k])
    requires lw.level == 0 && LevelWalk(ix, lw, below) && j < |below| && Live(ix, below[j])
    requires FirstDataKey(ix.pages[path[k]]) <= o <= MaxOffset(ix.pages[path[k]])
    requires below[j] == TargetLink(ix.pages[path[k]], o)
    requires FirstDataKey(ix.pages[below[j]]) <= x <= MaxOffset(ix.pages[below[j]])
    ensures o > FirstDataKey(ix.pages[path[k]]) ==>
      Before(ix, LowPosition(ix, Item(ix.pages[path[k]], o)), LowPosition(ix, Item(ix.pages[below[j]], x)))
    ensures HasHighKeyToMatch(ix.pages[below[j]]) ==>
      && NextSeparator(ix.pages[path[k]], o).Some?
      && NotAfter(ix, HighPosition(ix, Item(ix.pages[below[j]], x)),
                  LowPosition(ix, NextSeparator(ix.pages[path[k]], o).value))
  {
    var leaf := below[j];
    LeafOnLevel(ix, lw, below, j);
    NoNullOnLevel(ix, lw, below);
    if o > FirstDataKey(ix.pages[path[k]]) {
      AboveSeparator(ix, lv, path, k, o, leaf, x);
    }
    if HasHighKeyToMatch(ix.pages[leaf]) {
      ChildHighKey(ix, lv, path, k, o);
      WithinOwnHighKey(ix, leaf, x);
      assert LowPosition(ix, Item(ix.pages[leaf], P_HIKEY)) == LowPosition(ix, NextSeparator(ix.pages[path[k]], o).value);
    }
  }

  // ------------------------------------------------------ gaps between siblings

  /** Separators on a live internal page increase. */
  lemma NextSeparatorAfter(ix: Index, lv: Level, path: seq<nat>, k: nat, o: nat)
    requires LevelWalk(ix, lv, path) && lv.level > 0 && k < |path| && Live(ix, path[k])
    requires FirstDataKey(ix.pages[path[k]]) < o < MaxOffset(ix.pages[path[k]])
    ensures var p := ix.pages[path[k]]; Before(ix, LowPosition(ix, Item(p, o)), LowPosition(ix, Item(p, o + 1)))
  {
    var p := ix.pages[path[k]];
    PivotRegular(ix, lv, path, k, o);
    PivotRegular(ix, lv, path, k, o + 1);
    SeparatorItem(ix, lv, path, k, o);
    SeparatorItem(ix, lv, path, k, o + 1);
    LessThanItemMeaning(ix, Item(p, o), p, o + 1);
  }

  lemma SeparatorItem(ix: Index, lv: Level, path: seq<nat>, k: nat, o: nat)
    requires LevelWalk(ix, lv, path) && lv.level > 0 && k < |path| && Live(ix, path[k])
    requires FirstDataKey(ix.pages[path[k]]) < o <= MaxOffset(ix.pages[path[k]])
    ensures var p := ix.pages[path[k]];
      && !NegativeInfinity(p, o) && NAtts(Item(p, o)) <= KeyCount(ix)
      && (o < MaxOffset(p) ==> LessThanItem(ix, MakeScanKey(ix, Item(p, o)), p, o + 1))
  {
    AcceptedAt(RightLinks(ix), LevelSteps(ix, lv), lv.leftmost, path, k);
    assert Items(ix, ix.pages[path[k]])(o);
    LivePage(ix, lv, path[..k], path[k]);
  }

  lemma {:induction false} SeparatorsIncrease(ix: Index, lv: Level, path: seq<nat>, k: nat, o: nat, o': nat)
    requires LevelWalk(ix, lv, path) && lv.level > 0 && k < |path| && Live(ix, path[k])
    requires FirstDataKey(ix.pages[path[k]]) < o < o' <= MaxOffset(ix.pages[path[k]])
    ensures var p := ix.pages[path[k]]; Before(ix, LowPosition(ix, Item(p, o)), LowPosition(ix, Item(p, o')))
    decreases o'
  {
    var p := ix.pages[path[k]];
    NextSeparatorAfter(ix, lv, path, k, o' - 1);
    if o == o' - 1 {
    } else {
      SeparatorsIncrease(ix, lv, path, k, o, o' - 1);
      BeforeTransitive(ix, LowPosition(ix, Item(p, o)), LowPosition(ix, Item(p, o' - 1)), LowPosition(ix, Item(p, o')));
    }
  }

  /** The two leaves are linked from page `k` of the level above, in this order. */
  predicate LinkedFrom(ix: Index, path: seq<nat>, left: nat, right: nat, k: nat, o: nat, o': nat) {
    && k < |path| && Live(ix, path[k])
    && FirstDataKey(ix.pages[path[k]]) <= o < o' <= MaxOffset(ix.pages[path[k]])
    && left == TargetLink(ix.pages[path[k]], o) && right == TargetLink(ix.pages[path[k]], o')
  }

  /** They are siblings, and the left one has a high key that was matched. */
  ghost predicate Siblings(ix: Index, path: seq<nat>, left: nat, right: nat) {
    && left in ix.pages && HasHighKeyToMatch(ix.pages[left])
    && exists k, o, o' :: LinkedFrom(ix, path, left, right, k, o, o')
  }

  /** An item of the left leaf is not past the separator that follows it, and this is
      before every item of the right one. */
  lemma SiblingItems(ix: Index, lv: Level, path: seq<nat>, lw: Level, below: seq<nat>,
                     k: nat, o: nat, o': nat, i: nat, x: nat, j: nat, y: nat)
    requires Valid(ix) && lv.level > 0 && LevelWalk(ix, lv, path) && lw.level == 0 && LevelWalk(ix, lw, below)
    requires i < |below| && j < |below| && Live(ix, below[i]) && Live(ix, below[j])
    requires LinkedFrom(ix, path, below[i], below[j], k, o, o') && HasHighKeyToMatch(ix.pages[below[i]])
    requires FirstDataKey(ix.pages[below[i]]) <= x <= MaxOffset(ix.pages[below[i]])
    requires FirstDataKey(ix.pages[below[j]]) <= y <= MaxOffset(ix.pages[below[j]])
    ensures Before(ix, HighPosition(ix, Item(ix.pages[below[i]], x)), LowPosition(ix, Item(ix.pages[below[j]], y)))
  {
    var p := ix.pages[path[k]];
    var a, b := HighPosition(ix, Item(ix.pages[below[i]], x)), LowPosition(ix, Item(ix.pages[below[j]], y));
    SeparatorBounds(ix, lv, path, lw, below, k, o, i, x);
    SeparatorBounds(ix, lv, path, lw, below, k, o', j, y);
    var next, sep := LowPosition(ix, Item(p, o + 1)), LowPosition(ix, Item(p, o'));
    if o + 1 < o' {
      SeparatorsIncrease(ix, lv, path, k, o + 1, o');
      BeforeTransitive(ix, next, sep, b);
    }
    NotAfterThenBefore(ix, a, next, b);
  }

  lemma EndItems(p: Page)
    requires DataItems(p) != []
    ensures 1 <= FirstDataKey(p) <= MaxOffset(p)
    ensures DataItems(p)[0] == Item(p, FirstDataKey(p)) && LastOf(DataItems(p)) == Item(p, MaxOffset(p))
  {
  }

  lemma SiblingsInOrder(ix: Index, full: bool, lv: Level, path: seq<nat>, lw: Level, below: seq<nat>, i: nat, j: nat)
    requires Valid(ix) && lv.level > 0 && LevelWalk(ix, lv, path) && lw.level == 0 && LevelWalk(ix, lw, below)
    requires i < |below| && j < |below| && !Bare(ix, below[i]) && !Bare(ix, below[j])
    requires Siblings(ix, path, below[i], below[j])
    ensures InOrder(ix, full, below[i], below[j])
  {
    var k, o, o' :| LinkedFrom(ix, path, below[i], below[j], k, o, o');
    var l, r := ix.pages[below[i]], ix.pages[below[j]];
    EndItems(l);
    EndItems(r);
    SiblingItems(ix, lv, path, lw, below, k, o, o', i, MaxOffset(l), j, FirstDataKey(r));
    LeafOnLevel(ix, lw, below, i);
    LeafItem(ix, below[i], MaxOffset(l));
    UpperBefore(ix, full, Item(l, MaxOffset(l)), LowPosition(ix, Item(r, FirstDataKey(r))));
  }

  /** Across the gaps between leaves that are not siblings the items are in order. */
  ghost predicate CousinGapsOk(ix: Index, full: bool, path: seq<nat>, below: seq<nat>) {
    forall k: nat, m: nat {:trigger Gap(ix, below, k, m)} ::
      Gap(ix, below, k, m) && !Siblings(ix, path, below[k], below[m]) ==> InOrder(ix, full, below[k], below[m])
  }

  /** After a clean check of the leaf level and the level above, only empty leaves
      between leaves with different parents can hide a disorder: the separators keep
      siblings in order. */
  lemma LeafOrderBelow(ix: Index, lv: Level, path: seq<nat>, lw: Level, below: seq<nat>)
    requires Valid(ix) && lv.level > 0 && LevelOk(ix, lv, path) && lw.level == 0 && LevelOk(ix, lw, below)
    ensures Ascending(ix, false, LevelItems(ix, below)) <==> CousinGapsOk(ix, false, path, below)
    ensures Ascending(ix, true, LevelItems(ix, below)) <==> AllSeparate(ix, below) && CousinGapsOk(ix, true, path, below)
  {
    GapsAreCousins(ix, false, lv, path, lw, below);
    GapsAreCousins(ix, true, lv, path, lw, below);
    LeafOrder(ix, lw, below);
    LeafTidOrder(ix, lw, below);
  }

  lemma GapsAreCousins(ix: Index, full: bool, lv: Level, path: seq<nat>, lw: Level, below: seq<nat>)
    requires Valid(ix) && lv.level > 0 && LevelWalk(ix, lv, path) && lw.level == 0 && LevelWalk(ix, lw, below)
    ensures GapsOk(ix, full, below) <==> CousinGapsOk(ix, full, path, below)
  {
    forall k: nat, m: nat | Gap(ix, below, k, m) && Siblings(ix, path, below[k], below[m])
      ensures InOrder(ix, full, below[k], below[m])
    {
      SiblingsInOrder(ix, full, lv, path, lw, below, k, m);
    }
  }
}
