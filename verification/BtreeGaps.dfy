/** Indexes that a read-only run accepts although a reader of its checks might not
    expect it.  They show that the conditions of the theorems on lockstep and on
    leaf order cannot be dropped. */
module BtreeGaps {
  import opened Optional
  import opened BtreePages
  import opened BtreeOrder
  import opened BtreeSpec
  import opened BtreeLockstep
  import opened BtreeLeaves

  const COLUMN := ColumnOption(false, false)

  function Leaf(prev: nat, next: nat, split: bool, items: seq<IndexTuple>): Page {
    Page(false, false, true, false, false, false, split, false, false, 0, prev, next, items)
  }

  function Root(items: seq<IndexTuple>): Page {
    Page(false, false, false, true, false, false, false, false, false, 1, 0, 0, items)
  }

  function Key(k: int): seq<Attr> { [Val(k as real, 0)] }

  lemma Leftmost(ix: Index, blk: nat)
    requires blk in ix.pages && ix.pages[blk].prev == P_NONE
    ensures LeftmostIgnoringHalfDead(ix, blk)
  {
    assert Walk(LeftLinks(ix), HalfDeadSteps(ix, blk), P_NONE, []);
  }

  lemma EmptySegment(ix: Index, t: Target, offset: nat, st: ChildState)
    requires TargetLink(t.page, offset) == P_NONE && SegmentStart(t, offset, st) == P_NONE
    ensures SegmentOk(ix, t, offset, st)
  {
    assert Walk(RightLinks(ix), Visits(ix, t, offset, st), P_NONE, []);
    assert Segment(ix, t, offset, st)([]);
  }

  /** A segment that consists of the linked child alone. */
  lemma OneVisit(ix: Index, t: Target, offset: nat, st: ChildState)
    requires TargetLink(t.page, offset) != P_NONE && SegmentStart(t, offset, st) == TargetLink(t.page, offset)
    requires VisitOk(ix, t, offset, st, [], TargetLink(t.page, offset))
    ensures SegmentOk(ix, t, offset, st)
  {
    var blk := TargetLink(t.page, offset);
    WalkExtends(RightLinks(ix), Visits(ix, t, offset, st), blk, []);
    assert [] + [blk] == [blk];
    assert Segment(ix, t, offset, st)([blk]);
  }

  lemma LevelOfOne(ix: Index, lv: Level, blk: nat)
    requires lv.leftmost == blk && LevelStepOk(ix, lv, [], blk) && ix.pages[blk].next == P_NONE
    ensures LevelOk(ix, lv, [blk])
  {
    WalkExtends(RightLinks(ix), LevelSteps(ix, lv), blk, []);
    assert [] + [blk] == [blk];
  }

  // ------------------------------------------------------------ a null downlink

  /** A root whose only downlink is block 0, the metapage. */
  function NullIndex(): Index {
    Index([COLUMN], false, map[1 := Root([Pivot(0, [], None)])])
  }

  /** The whole run is clean: the null downlink is taken for the end of the child
      level, and then for the leaf level having been reached. */
  lemma NullDownlinkPasses()
    ensures TreeOk(NullIndex(), Level(1, 1, true))
    ensures !NoNullLink(Slots(NullIndex(), [1]))
  {
    var ix, lv := NullIndex(), Level(1, 1, true);
    var p := ix.pages[1];
    var t := Target(p, None);
    Leftmost(ix, 1);
    EmptySegment(ix, t, 1, FRESH);
    EmptySegment(ix, t, INVALID_OFFSET, FRESH);
    assert All(Items(ix, p), 1, 2);
    assert DownlinkOk(ix, t, 1, FRESH);
    assert All(Downlinks(ix, t, FRESH), 1, 2);
    assert TargetOk(ix, t, FRESH);
    assert LevelStepOk(ix, lv, [], 1);
    LevelOfOne(ix, lv, 1);
    assert NextLevel(ix, []) == Level(INVALID_LEVEL, INVALID_BLOCK, false);
    assert [1][..0] == [];
    assert NextLevel(ix, [1]) == Level(0, P_NONE, false);
    assert Slots(ix, [1]) == PageSlots(t);
    assert Link(Slots(ix, [1])[0]) == P_NONE;
  }

  // ------------------------------------------------ overlapping posting lists

  /** One leaf: a posting list for TIDs 1 and 9, then a plain tuple for TID 5, all
      with the same key. */
  function OverlapIndex(): Index {
    Index([COLUMN], false, map[1 := Leaf(0, 0, false,
      [Posting(0, Key(1), Tid(0, 1), [Tid(0, 9)]), Plain(Key(1), Tid(0, 5))]).(root := true)])
  }

  lemma OverlapItems()
    ensures All(Items(OverlapIndex(), OverlapIndex().pages[1]), 1, 3)
  {
    var ix := OverlapIndex();
    var p := ix.pages[1];
    var a, b := p.items[0], p.items[1];
    assert CompareAtts(ix, a.atts, b.atts, 0, 1) == CompareAtts(ix, a.atts, b.atts, 1, 1);
    assert LessThanItem(ix, MakeScanKey(ix, a), p, 2);
    assert ItemOk(ix, p, 1) && ItemOk(ix, p, 2);
  }

  lemma OverlapOrder()
    ensures !Ascending(OverlapIndex(), true, OverlapIndex().pages[1].items)
  {
    var ix := OverlapIndex();
    var s := ix.pages[1].items;
    var x, y := HighPosition(ix, s[0]), LowPosition(ix, s[1]);
    assert SameAt(ix, x, y, 0);
    assert SameBelow(ix, x, y, 1);
    TidDecides(ix, x, y);
    assert !Before(ix, Upper(ix, true, s[0]), LowPosition(ix, s[1]));
  }

  /** The leaf level is checked without an error. */
  lemma OverlapPasses()
    ensures LevelOk(OverlapIndex(), Level(0, 1, true), [1])
  {
    var ix, lv := OverlapIndex(), Level(0, 1, true);
    Leftmost(ix, 1);
    OverlapItems();
    assert TargetOk(ix, Target(ix.pages[1], None), FRESH);
    assert LevelStepOk(ix, lv, [], 1);
    LevelOfOne(ix, lv, 1);
  }

  lemma LeafItemsMore(ix: Index, path: seq<nat>, blk: nat)
    requires Live(ix, blk)
    ensures LevelItems(ix, path + [blk]) == LevelItems(ix, path) + DataItems(ix.pages[blk])
  {
    assert (path + [blk])[..|path|] == path;
  }

  lemma OverlapItemsInOrder()
    ensures LevelItems(OverlapIndex(), [1]) == OverlapIndex().pages[1].items
  {
    LeafItemsMore(OverlapIndex(), [], 1);
    assert [] + [1] == [1];
  }

  lemma OverlapValid()
    ensures Valid(OverlapIndex())
  {
  }

  /** Its posting lists' TIDs are not in order. */
  lemma OverlapOutOfOrder()
    ensures Valid(OverlapIndex())
    ensures !Ascending(OverlapIndex(), true, LevelItems(OverlapIndex(), [1]))
  {
    OverlapOrder();
    OverlapItemsInOrder();
    OverlapValid();
  }

  // --------------------------------------------------------------- an empty leaf

  function Inner(prev: nat, next: nat, items: seq<IndexTuple>): Page {
    Page(false, false, false, false, false, false, false, false, false, 1, prev, next, items)
  }

  function TopPage(): Page { Root([Pivot(2, [], None), Pivot(3, Key(9), None)]).(level := 2) }

  function LeftPage(): Page { Inner(0, 3, [Pivot(0, Key(9), None), Pivot(4, [], None), Pivot(5, Key(7), None)]) }

  function RightPage(): Page { Inner(2, 0, [Pivot(6, [], None)]) }

  function FiveLeaf(): Page { Leaf(0, 5, false, [Pivot(0, Key(7), None), Plain(Key(5), Tid(0, 1))]) }

  function BareLeaf(): Page { Leaf(4, 6, false, [Pivot(0, Key(9), None)]) }

  function ThreeLeaf(): Page { Leaf(5, 0, false, [Plain(Key(3), Tid(0, 2))]) }

  /** A root, two internal pages below it, and three leaves: the first two under the
      left internal page and holding 5 and nothing, the third under the right one and
      holding 3.  No split is incomplete and no page half-dead. */
  function EmptyLeafIndex(): Index {
    Index([COLUMN], false, map[1 := TopPage(), 2 := LeftPage(), 3 := RightPage(), 4 := FiveLeaf(), 5 := BareLeaf(), 6 := ThreeLeaf()])
  }

  predicate OneColumn(ix: Index) { ix.columns == [COLUMN] && !ix.hasInclude }

  predicate PageIs(ix: Index, blk: nat, p: Page) { blk in ix.pages && ix.pages[blk] == p }

  predicate InnerPages(ix: Index) { PageIs(ix, 1, TopPage()) && PageIs(ix, 2, LeftPage()) && PageIs(ix, 3, RightPage()) }

  predicate LeafPages(ix: Index) { PageIs(ix, 4, FiveLeaf()) && PageIs(ix, 5, BareLeaf()) && PageIs(ix, 6, ThreeLeaf()) }

  lemma RightNext(ix: Index, p: Page)
    requires Loads(ix, p.next) && !SteppedOver(ix, p.next)
    ensures RightNeighbour(ix, p, p.next)
  {
    assert Walk(RightLinks(ix), StepsOver(ix), p.next, []);
    assert Reached(RightLinks(ix), p.next, [], 0) == p.next;
  }

  lemma AllTwo(ok: nat -> bool, o: nat)
    requires ok(o) && ok(o + 1)
    ensures All(ok, o, o + 2)
  {
  }

  lemma KeyBelow(ix: Index, a: int, b: int)
    requires OneColumn(ix) && a < b
    ensures CompareAtts(ix, Key(a), Key(b), 0, 1) == -1
  {
  }

  // the root

  lemma EmptyLeafRootFirst(ix: Index)
    requires InnerPages(ix)
    ensures DownlinkOk(ix, Target(TopPage(), None), 1, FRESH)
  {
    Leftmost(ix, 2);
    OneVisit(ix, Target(TopPage(), None), 1, FRESH);
  }

  lemma EmptyLeafRootSecond(ix: Index)
    requires InnerPages(ix)
    ensures DownlinkOk(ix, Target(TopPage(), None), 2, FRESH)
  {
    OneVisit(ix, Target(TopPage(), None), 2, ChildState(3, false));
    assert StateAfter(ix, 2) == ChildState(3, false);
  }

  lemma EmptyLeafRootChildren(ix: Index)
    requires InnerPages(ix)
    ensures ChildrenOk(ix, Target(TopPage(), None), FRESH)
  {
    var t := Target(TopPage(), None);
    EmptyLeafRootFirst(ix);
    EmptyLeafRootSecond(ix);
    EmptySegment(ix, t, INVALID_OFFSET, StateAfter(ix, 3));
    assert All(Downlinks(ix, t, FRESH), 1, 3);
  }

  lemma EmptyLeafRootItems(ix: Index)
    requires OneColumn(ix)
    ensures All(Items(ix, TopPage()), 1, 3)
  {
    assert ItemOk(ix, TopPage(), 1) && ItemOk(ix, TopPage(), 2);
  }

  lemma EmptyLeafRoot(ix: Index)
    requires OneColumn(ix) && InnerPages(ix)
    ensures LevelOk(ix, Level(2, 1, true), [1])
  {
    var lv := Level(2, 1, true);
    Leftmost(ix, 1);
    EmptyLeafRootItems(ix);
    EmptyLeafRootChildren(ix);
    assert LevelStepOk(ix, lv, [], 1);
    LevelOfOne(ix, lv, 1);
  }

  // the internal pages

  /** The last separator is below the high key, and the right page has no first key. */
  lemma EmptyLeafLeftLast(ix: Index)
    requires OneColumn(ix) && InnerPages(ix)
    ensures ItemOk(ix, LeftPage(), 3)
  {
    var p := LeftPage();
    RightNext(ix, p);
    assert BelowFirstKey(ix, p, ix.pages[3]);
    KeyBelow(ix, 7, 9);
    assert WithinHighKey(ix, p, 3);
  }

  lemma EmptyLeafLeftFirst(ix: Index)
    requires OneColumn(ix)
    ensures ItemOk(ix, LeftPage(), 2)
  {
  }

  lemma EmptyLeafLeftItems(ix: Index)
    requires OneColumn(ix) && InnerPages(ix)
    ensures All(Items(ix, LeftPage()), 2, 4)
  {
    EmptyLeafLeftLast(ix);
    EmptyLeafLeftFirst(ix);
    AllTwo(Items(ix, LeftPage()), 2);
  }

  lemma EmptyLeafLeftFirstChild(ix: Index)
    requires LeafPages(ix)
    ensures DownlinkOk(ix, Target(LeftPage(), None), 2, FRESH)
  {
    Leftmost(ix, 4);
    OneVisit(ix, Target(LeftPage(), None), 2, FRESH);
  }

  lemma EmptyLeafLeftSecondChild(ix: Index)
    requires LeafPages(ix)
    ensures DownlinkOk(ix, Target(LeftPage(), None), 3, FRESH)
  {
    OneVisit(ix, Target(LeftPage(), None), 3, ChildState(5, false));
    assert StateAfter(ix, 4) == ChildState(5, false);
  }

  lemma EmptyLeafLeftChildren(ix: Index)
    requires LeafPages(ix)
    ensures ChildrenOk(ix, Target(LeftPage(), None), FRESH)
  {
    EmptyLeafLeftFirstChild(ix);
    EmptyLeafLeftSecondChild(ix);
    assert All(Downlinks(ix, Target(LeftPage(), None), FRESH), 2, 4);
  }

  lemma EmptyLeafRightTarget(ix: Index, low: Option<IndexTuple>)
    requires OneColumn(ix) && InnerPages(ix) && LeafPages(ix)
    ensures TargetOk(ix, Target(ix.pages[3], low), ChildState(6, false))
  {
    var st := ChildState(6, false);
    var t := Target(ix.pages[3], low);
    assert ItemOk(ix, t.page, 1);
    assert All(Items(ix, t.page), 1, 2);
    OneVisit(ix, t, 1, st);
    EmptySegment(ix, t, INVALID_OFFSET, StateAfter(ix, 6));
    assert DownlinkOk(ix, t, 1, st);
    assert All(Downlinks(ix, t, st), 1, 2);
  }

  lemma EmptyLeafLeftStep(ix: Index)
    requires OneColumn(ix) && InnerPages(ix) && LeafPages(ix)
    ensures LevelStepOk(ix, Level(1, 2, false), [], 2)
  {
    Leftmost(ix, 2);
    EmptyLeafLeftItems(ix);
    EmptyLeafLeftChildren(ix);
  }

  lemma EmptyLeafRightStep(ix: Index)
    requires OneColumn(ix) && InnerPages(ix) && LeafPages(ix)
    ensures LevelStepOk(ix, Level(1, 2, false), [2], 3)
  {
    assert [2][..0] == [];
    assert StateBefore(ix, [2]) == ChildState(6, false);
    EmptyLeafRightTarget(ix, LowKey(ix, [2]));
    assert Live(ix, [2][0]);
  }

  lemma EmptyLeafInner(ix: Index)
    requires OneColumn(ix) && InnerPages(ix) && LeafPages(ix)
    ensures LevelOk(ix, Level(1, 2, false), [2, 3])
  {
    var lv := Level(1, 2, false);
    EmptyLeafLeftStep(ix);
    WalkExtends(RightLinks(ix), LevelSteps(ix, lv), 2, []);
    assert [] + [2] == [2];
    EmptyLeafRightStep(ix);
    WalkExtends(RightLinks(ix), LevelSteps(ix, lv), 2, [2]);
    assert [2] + [3] == [2, 3];
  }

  // the leaves

  lemma EmptyLeafFirst(ix: Index)
    requires OneColumn(ix) && LeafPages(ix)
    ensures TargetOk(ix, Target(ix.pages[4], None), FRESH)
  {
    var p := ix.pages[4];
    RightNext(ix, p);
    assert BelowFirstKey(ix, p, ix.pages[5]);
    assert ItemOk(ix, p, 2);
    assert All(Items(ix, p), 2, 3);
  }

  lemma EmptyLeafLast(ix: Index, low: Option<IndexTuple>, st: ChildState)
    requires OneColumn(ix) && LeafPages(ix)
    ensures TargetOk(ix, Target(ix.pages[6], low), st)
    ensures TargetOk(ix, Target(ix.pages[5], low), st)
  {
    assert ItemOk(ix, ix.pages[6], 1);
    assert All(Items(ix, ix.pages[6]), 1, 2);
  }

  lemma EmptyLeafFirstStep(ix: Index)
    requires OneColumn(ix) && LeafPages(ix)
    ensures LevelStepOk(ix, Level(0, 4, false), [], 4)
  {
    Leftmost(ix, 4);
    EmptyLeafFirst(ix);
  }

  lemma EmptyLeafOtherSteps(ix: Index)
    requires OneColumn(ix) && LeafPages(ix)
    ensures LevelStepOk(ix, Level(0, 4, false), [4], 5) && LevelStepOk(ix, Level(0, 4, false), [4, 5], 6)
  {
    EmptyLeafLast(ix, LowKey(ix, [4]), StateBefore(ix, [4]));
    EmptyLeafLast(ix, LowKey(ix, [4, 5]), StateBefore(ix, [4, 5]));
    assert Live(ix, [4][0]) && Live(ix, [4, 5][0]);
  }

  lemma EmptyLeafLeaves(ix: Index)
    requires OneColumn(ix) && LeafPages(ix)
    ensures LevelOk(ix, Level(0, 4, false), [4, 5, 6])
  {
    var lv := Level(0, 4, false);
    var f, steps := RightLinks(ix), LevelSteps(ix, lv);
    EmptyLeafFirstStep(ix);
    WalkExtends(f, steps, 4, []);
    assert [] + [4] == [4];
    EmptyLeafOtherSteps(ix);
    WalkExtends(f, steps, 4, [4]);
    assert [4] + [5] == [4, 5];
    WalkExtends(f, steps, 4, [4, 5]);
    assert [4, 5] + [6] == [4, 5, 6];
  }

  /** What comes below a level whose first page is live. */
  lemma {:induction false} NextFromFirst(ix: Index, path: seq<nat>)
    requires path != [] && Live(ix, path[0])
    requires ix.pages[path[0]].leaf || TargetLink(ix.pages[path[0]], FirstDataKey(ix.pages[path[0]])) != INVALID_BLOCK
    ensures
      var p := ix.pages[path[0]];
      NextLevel(ix, path) == if p.leaf then Level(INVALID_LEVEL, P_NONE, false)
                             else Level(LevelBelow(p.level), TargetLink(p, FirstDataKey(p)), false)
  {
    if |path| > 1 {
      NextFromFirst(ix, path[..|path| - 1]);
    } else {
      assert path[..0] == [];
    }
  }

  lemma EmptyLeafTree(ix: Index)
    requires OneColumn(ix) && InnerPages(ix) && LeafPages(ix)
    ensures TreeOk(ix, Level(2, 1, true))
  {
    EmptyLeafLeaves(ix);
    NextFromFirst(ix, [4, 5, 6]);
    EmptyLeafInner(ix);
    NextFromFirst(ix, [2, 3]);
    EmptyLeafRoot(ix);
    NextFromFirst(ix, [1]);
    TreeFrom(ix, Level(0, 4, false), [4, 5, 6]);
    TreeFrom(ix, Level(1, 2, false), [2, 3]);
    TreeFrom(ix, Level(2, 1, true), [1]);
  }

  lemma TreeFrom(ix: Index, lv: Level, path: seq<nat>)
    requires LevelOk(ix, lv, path) && DescendsOk(ix, lv, NextLevel(ix, path))
    ensures TreeOk(ix, lv)
  {
  }

  /** The whole run is clean. */
  lemma EmptyLeafPasses()
    ensures TreeOk(EmptyLeafIndex(), Level(2, 1, true))
  {
    EmptyLeafTree(EmptyLeafIndex());
  }

  lemma EmptyLeafOrder(ix: Index)
    requires OneColumn(ix)
    ensures !Ascending(ix, false, [Plain(Key(5), Tid(0, 1)), Plain(Key(3), Tid(0, 2))])
  {
    var s := [Plain(Key(5), Tid(0, 1)), Plain(Key(3), Tid(0, 2))];
    var x, y := LowPosition(ix, s[0]), LowPosition(ix, s[1]);
    assert LessAt(ix, y, x, 0) && SameBelow(ix, y, x, 0);
    BeforeStrict(ix, y, x);
    assert !Before(ix, Upper(ix, false, s[0]), LowPosition(ix, s[1]));
  }

  lemma EmptyLeafItems(ix: Index)
    requires LeafPages(ix)
    ensures LevelItems(ix, [4, 5, 6]) == [Plain(Key(5), Tid(0, 1)), Plain(Key(3), Tid(0, 2))]
  {
    LeafItemsMore(ix, [], 4);
    LeafItemsMore(ix, [4], 5);
    LeafItemsMore(ix, [4, 5], 6);
    assert [] + [4] == [4] && [4] + [5] == [4, 5] && [4, 5] + [6] == [4, 5, 6];
    assert DataItems(ix.pages[4]) == [Plain(Key(5), Tid(0, 1))];
    assert DataItems(ix.pages[5]) == [];
    assert DataItems(ix.pages[6]) == [Plain(Key(3), Tid(0, 2))];
  }

  lemma EmptyLeafSlots(ix: Index)
    requires InnerPages(ix)
    ensures NoNullLink(Slots(ix, [2, 3]))
  {
    assert [2, 3][..1] == [2] && [2][..0] == [];
    var l, r := Target(LeftPage(), None), Target(RightPage(), LowKey(ix, [2]));
    assert Slots(ix, [2]) == PageSlots(l);
    assert Slots(ix, [2, 3]) == PageSlots(l) + PageSlots(r);
  }

  lemma EmptyLeafSound()
    ensures Valid(EmptyLeafIndex())
    ensures forall b :: b in EmptyLeafIndex().pages ==>
      !EmptyLeafIndex().pages[b].incompleteSplit && !Ignore(EmptyLeafIndex().pages[b])
  {
  }

  /** Its leaf level is not in order: the empty leaf hides its neighbours from each
      other, and the right one, as first child of its parent, has no separator. */
  lemma EmptyLeafOutOfOrder()
    ensures Valid(EmptyLeafIndex()) && NoNullLink(Slots(EmptyLeafIndex(), [2, 3]))
    ensures LevelOk(EmptyLeafIndex(), Level(1, 2, false), [2, 3]) && LevelOk(EmptyLeafIndex(), Level(0, 4, false), [4, 5, 6])
    ensures forall b :: b in EmptyLeafIndex().pages ==>
      !EmptyLeafIndex().pages[b].incompleteSplit && !Ignore(EmptyLeafIndex().pages[b])
    ensures !Ascending(EmptyLeafIndex(), false, LevelItems(EmptyLeafIndex(), [4, 5, 6]))
  {
    EmptyLeafSound();
    EmptyLeafSlots(EmptyLeafIndex());
    EmptyLeafInner(EmptyLeafIndex());
    EmptyLeafLeaves(EmptyLeafIndex());
    EmptyLeafItems(EmptyLeafIndex());
    EmptyLeafOrder(EmptyLeafIndex());
  }

  // ------------------------------------------------------ a dangling right link

  /** A root over two leaves, the left one's right link being `InvalidBlockNumber`
      and its split incomplete. */
  function DanglingIndex(): Index {
    Index([COLUMN], false, map[
      1 := Root([Pivot(2, [], None), Pivot(3, Key(5), None)]),
      2 := Leaf(0, INVALID_BLOCK, true, [Pivot(0, Key(5), None)]),
      3 := Leaf(0, 0, false, [])])
  }

  lemma DanglingSegment(o: nat, st: ChildState)
    requires o in {1, 2} && st.prevrightlink == INVALID_BLOCK
    ensures SegmentOk(DanglingIndex(), Target(DanglingIndex().pages[1], None), o, st)
  {
    var ix := DanglingIndex();
    var t := Target(ix.pages[1], None);
    var blk := TargetLink(t.page, o);
    Leftmost(ix, blk);
    OneVisit(ix, t, o, st);
  }

  lemma DanglingTarget()
    ensures TargetOk(DanglingIndex(), Target(DanglingIndex().pages[1], None), FRESH)
  {
    var ix := DanglingIndex();
    var p := ix.pages[1];
    var t := Target(p, None);
    assert ItemOk(ix, p, 1) && ItemOk(ix, p, 2);
    assert All(Items(ix, p), 1, 3);
    DanglingSegment(1, FRESH);
    DanglingSegment(2, StateAfter(ix, 2));
    assert DownlinkOk(ix, t, 1, FRESH) && DownlinkOk(ix, t, 2, FRESH);
    assert All(Downlinks(ix, t, FRESH), 1, 3);
    EmptySegment(ix, t, INVALID_OFFSET, StateAfter(ix, 3));
  }

  lemma DanglingLinks()
    ensures |Slots(DanglingIndex(), [1])| == 2
    ensures Link(Slots(DanglingIndex(), [1])[0]) == 2 && Link(Slots(DanglingIndex(), [1])[1]) == 3
  {
    assert [1][..0] == [];
    assert Slots(DanglingIndex(), [1]) == PageSlots(Target(DanglingIndex().pages[1], None));
  }

  lemma DanglingSlots()
    ensures |Slots(DanglingIndex(), [1])| == 2 && NoNullLink(Slots(DanglingIndex(), [1]))
    ensures !SaneLinks(DanglingIndex(), Slots(DanglingIndex(), [1]), 2)
  {
    DanglingLinks();
  }

  /** The upper level is clean although the right link leads nowhere: remembered as
      `prevrightlink`, it reads as "no page visited yet". */
  lemma DanglingRightLinkPasses()
    ensures INVALID_BLOCK !in DanglingIndex().pages
    ensures LevelOk(DanglingIndex(), Level(1, 1, true), [1])
    ensures |Slots(DanglingIndex(), [1])| == 2 && NoNullLink(Slots(DanglingIndex(), [1]))
    ensures !SaneLinks(DanglingIndex(), Slots(DanglingIndex(), [1]), 2)
  {
    var ix, lv := DanglingIndex(), Level(1, 1, true);
    Leftmost(ix, 1);
    DanglingTarget();
    assert LevelStepOk(ix, lv, [], 1);
    LevelOfOne(ix, lv, 1);
    DanglingSlots();
  }
}
