/** The order of the leaf level after a clean check. */
module BtreeLeaves {
  import opened BtreePages
  import opened BtreeOrder
  import opened BtreeSpec

  /** The data items of a page, without its high key. */
  function DataItems(p: Page): seq<IndexTuple> {
    if MaxOffset(p) < FirstDataKey(p) then [] else p.items[FirstDataKey(p) - 1..]
  }

  /** The data items of the live pages of `path`, from left to right. */
  function LevelItems(ix: Index, path: seq<nat>): seq<IndexTuple> {
    if path == [] then []
    else
      var n := |path| - 1;
      LevelItems(ix, path[..n]) + (if Live(ix, path[n]) then DataItems(ix.pages[path[n]]) else [])
  }

  /** The end of a tuple that its successor is compared with: the last TID of a
      posting list, or only the first one. */
  function Upper(ix: Index, full: bool, t: IndexTuple): Position {
    if full then HighPosition(ix, t) else LowPosition(ix, t)
  }

  /** Every item lies strictly before all later ones. */
  ghost predicate Ascending(ix: Index, full: bool, s: seq<IndexTuple>) {
    forall i, j :: 0 <= i < j < |s| ==> Before(ix, Upper(ix, full, s[i]), LowPosition(ix, s[j]))
  }

  ghost predicate Upright(ix: Index, full: bool, s: seq<IndexTuple>) {
    forall i :: 0 <= i < |s| ==> NotAfter(ix, LowPosition(ix, s[i]), Upper(ix, full, s[i]))
  }

  lemma {:induction false} FirstTidLeast(t: IndexTuple, n: nat)
    requires t.Posting? && TidsIncrease(t) && 0 < n <= |t.rest|
    ensures TidLess(t.first, PostingTid(t, n))
  {
    if n <= 1 {
    } else {
      FirstTidLeast(t, n - 1);
    }
    assert TidLess(PostingTid(t, n - 1), t.rest[n - 1]);
  }

  lemma LowBeforeHigh(ix: Index, full: bool, t: IndexTuple)
    requires TidsIncrease(t)
    ensures NotAfter(ix, LowPosition(ix, t), Upper(ix, full, t))
  {
    var a, b := LowPosition(ix, t), Upper(ix, full, t);
    assert SameBelow(ix, a, b, KeyCount(ix));
    TidDecides(ix, a, b);
    if full && t.Posting? && |t.rest| > 0 {
      FirstTidLeast(t, |t.rest|);
    }
  }

  lemma AscendingJoin(ix: Index, full: bool, a: seq<IndexTuple>, b: seq<IndexTuple>)
    requires Ascending(ix, full, a) && Ascending(ix, full, b) && Upright(ix, full, a) && Upright(ix, full, b)
    requires a != [] && b != [] ==> Before(ix, Upper(ix, full, a[|a| - 1]), LowPosition(ix, b[0]))
    ensures Ascending(ix, full, a + b) && Upright(ix, full, a + b)
  {
    forall i, j | 0 <= i < |a| && 0 <= j < |b|
      ensures Before(ix, Upper(ix, full, a[i]), LowPosition(ix, b[j]))
    {
      AcrossJoin(ix, full, a, b, i, j);
    }
  }

  lemma AcrossJoin(ix: Index, full: bool, a: seq<IndexTuple>, b: seq<IndexTuple>, i: nat, j: nat)
    requires Ascending(ix, full, a) && Ascending(ix, full, b) && Upright(ix, full, a) && Upright(ix, full, b)
    requires i < |a| && j < |b| && Before(ix, Upper(ix, full, a[|a| - 1]), LowPosition(ix, b[0]))
    ensures Before(ix, Upper(ix, full, a[i]), LowPosition(ix, b[j]))
  {
    var ai, al := Upper(ix, full, a[i]), a[|a| - 1];
    var b0, bj := LowPosition(ix, b[0]), LowPosition(ix, b[j]);
    if i < |a| - 1 {
      NotAfterThenBefore(ix, LowPosition(ix, al), Upper(ix, full, al), b0);
      BeforeTransitive(ix, ai, LowPosition(ix, al), b0);
    }
    assert Before(ix, ai, b0);
    if j > 0 {
      NotAfterThenBefore(ix, b0, Upper(ix, full, b[0]), bj);
      BeforeTransitive(ix, ai, b0, bj);
    }
  }

  /** Neighbours in order are enough. */
  lemma {:induction false} AscendingFromNeighbours(ix: Index, full: bool, s: seq<IndexTuple>)
    requires Upright(ix, full, s)
    requires forall i {:trigger s[i]} :: 0 <= i < |s| - 1 ==> Before(ix, Upper(ix, full, s[i]), LowPosition(ix, s[i + 1]))
    ensures Ascending(ix, full, s)
  {
    if |s| <= 1 {
    } else {
      var n := |s| - 1;
      var a, b := s[..n], s[n..];
      AscendingFromNeighbours(ix, full, a);
      AscendingJoin(ix, full, a, b);
      assert s == a + b;
    }
  }

  // ------------------------------------------------------------- one leaf page

  predicate LeafAt(ix: Index, blk: nat) {
    Live(ix, blk) && ix.pages[blk].leaf
  }

  /** Every data item of the page passed its checks. */
  ghost predicate LeafOk(ix: Index, blk: nat) {
    LeafAt(ix, blk) && All(Items(ix, ix.pages[blk]), FirstDataKey(ix.pages[blk]), MaxOffset(ix.pages[blk]) + 1)
  }

  lemma LeafPage(ix: Index, lv: Level, before: seq<nat>, blk: nat)
    requires LevelStepOk(ix, lv, before, blk) && Live(ix, blk) && lv.level == 0
    ensures LeafOk(ix, blk)
    ensures !Rightmost(ix.pages[blk]) ==> HasItem(ix.pages[blk], P_HIKEY) && CheckNatts(ix, ix.pages[blk], P_HIKEY)
  {
  }

  lemma LeafItem(ix: Index, blk: nat, o: nat)
    requires Valid(ix) && LeafOk(ix, blk)
    requires FirstDataKey(ix.pages[blk]) <= o <= MaxOffset(ix.pages[blk])
    ensures var t := Item(ix.pages[blk], o);
      && !t.Pivot? && |t.atts| == KeyCount(ix) && KeyAtts(ix, t) == t.atts
      && Regular(ix, LowPosition(ix, t)) && Regular(ix, HighPosition(ix, t)) && TidsIncrease(t)
  {
    LeafItemOk(ix, blk, o);
    assert ix.pages[blk].items[o - 1] == Item(ix.pages[blk], o);
  }

  lemma LeafItemOk(ix: Index, blk: nat, o: nat)
    requires LeafOk(ix, blk) && FirstDataKey(ix.pages[blk]) <= o <= MaxOffset(ix.pages[blk])
    ensures HasItem(ix.pages[blk], o) && CheckNatts(ix, ix.pages[blk], o) && !NegativeInfinity(ix.pages[blk], o)
    ensures TidsIncrease(Item(ix.pages[blk], o)) && WithinHighKey(ix, ix.pages[blk], o)
    ensures o < MaxOffset(ix.pages[blk]) ==>
              LessThanItem(ix, MakeScanKey(ix, Item(ix.pages[blk], o)), ix.pages[blk], o + 1)
  {
    assert Items(ix, ix.pages[blk])(o);
  }

  /** No posting list reaches the first TID of the next item on the same page. */
  ghost predicate Separate(ix: Index, blk: nat)
    requires blk in ix.pages
  {
    var s := DataItems(ix.pages[blk]);
    forall i {:trigger s[i]} :: 0 <= i < |s| - 1 ==> Before(ix, HighPosition(ix, s[i]), LowPosition(ix, s[i + 1]))
  }

  lemma DataItemAt(p: Page, i: nat)
    requires i < |DataItems(p)|
    ensures HasItem(p, FirstDataKey(p) + i) && DataItems(p)[i] == Item(p, FirstDataKey(p) + i)
  {
  }

  /** The item order check covers neighbours on a page by their first TIDs. */
  lemma NeighboursOnPage(ix: Index, blk: nat, i: nat)
    requires Valid(ix) && LeafOk(ix, blk) && i + 1 < |DataItems(ix.pages[blk])|
    ensures Before(ix, LowPosition(ix, DataItems(ix.pages[blk])[i]), LowPosition(ix, DataItems(ix.pages[blk])[i + 1]))
  {
    var p := ix.pages[blk];
    DataItemAt(p, i);
    DataItemAt(p, i + 1);
    NextOnPage(ix, blk, FirstDataKey(p) + i);
  }

  lemma NextOnPage(ix: Index, blk: nat, o: nat)
    requires Valid(ix) && LeafOk(ix, blk) && FirstDataKey(ix.pages[blk]) <= o < MaxOffset(ix.pages[blk])
    ensures Before(ix, LowPosition(ix, Item(ix.pages[blk], o)), LowPosition(ix, Item(ix.pages[blk], o + 1)))
  {
    LeafItem(ix, blk, o);
    LeafItem(ix, blk, o + 1);
    LeafItemOk(ix, blk, o);
    LessThanItemMeaning(ix, Item(ix.pages[blk], o), ix.pages[blk], o + 1);
  }

  lemma PageAscending(ix: Index, full: bool, blk: nat)
    requires Valid(ix) && LeafOk(ix, blk) && (full ==> Separate(ix, blk))
    ensures Ascending(ix, full, DataItems(ix.pages[blk])) && Upright(ix, full, DataItems(ix.pages[blk]))
  {
    var p := ix.pages[blk];
    var s := DataItems(p);
    forall i | 0 <= i < |s|
      ensures NotAfter(ix, LowPosition(ix, s[i]), Upper(ix, full, s[i]))
    {
      DataItemAt(p, i);
      LeafItem(ix, blk, FirstDataKey(p) + i);
      LowBeforeHigh(ix, full, s[i]);
    }
    forall i {:trigger s[i]} | 0 <= i < |s| - 1
      ensures Before(ix, Upper(ix, full, s[i]), LowPosition(ix, s[i + 1]))
    {
      NeighboursOnPage(ix, blk, i);
    }
    AscendingFromNeighbours(ix, full, s);
  }

  // ------------------------------------------------------------ the whole level

  /** The page adds no items to the level. */
  predicate Bare(ix: Index, blk: nat) {
    Live(ix, blk) ==> DataItems(ix.pages[blk]) == []
  }

  /** Pages `k` and `m` of the level have items, those between have none, and at least
      one of them is a live leaf that has become empty. */
  ghost predicate Gap(ix: Index, path: seq<nat>, k: nat, m: nat) {
    && k < m < |path| && !Bare(ix, path[k]) && !Bare(ix, path[m])
    && (forall j {:trigger path[j]} :: k < j < m ==> Bare(ix, path[j]))
    && (exists j {:trigger path[j]} :: k < j < m && Live(ix, path[j]))
  }

  function LastOf(s: seq<IndexTuple>): IndexTuple
    requires s != []
  {
    s[|s| - 1]
  }

  /** The last item of one leaf lies before the first of another. */
  ghost predicate InOrder(ix: Index, full: bool, left: nat, right: nat)
    requires !Bare(ix, left) && !Bare(ix, right)
  {
    Before(ix, Upper(ix, full, LastOf(DataItems(ix.pages[left]))), LowPosition(ix, DataItems(ix.pages[right])[0]))
  }

  ghost predicate GapsOk(ix: Index, full: bool, path: seq<nat>) {
    forall k: nat, m: nat {:trigger Gap(ix, path, k, m)} :: Gap(ix, path, k, m) ==> InOrder(ix, full, path[k], path[m])
  }

  ghost predicate AllSeparate(ix: Index, path: seq<nat>) {
    forall k {:trigger Live(ix, path[k])} :: 0 <= k < |path| && Live(ix, path[k]) ==> Separate(ix, path[k])
  }

  lemma GapsPrefix(ix: Index, full: bool, path: seq<nat>, n: nat)
    requires GapsOk(ix, full, path) && n <= |path|
    ensures GapsOk(ix, full, path[..n])
  {
    forall k: nat, m: nat | Gap(ix, path[..n], k, m)
      ensures InOrder(ix, full, path[..n][k], path[..n][m])
    {
      var j :| k < j < m && Live(ix, path[..n][j]);
      assert Live(ix, path[j]);
      assert forall i :: k < i < m ==> path[i] == path[..n][i];
      assert Gap(ix, path, k, m);
    }
  }

  lemma SteppedOnLevel(ix: Index, lv: Level, path: seq<nat>, j: nat)
    requires LevelWalk(ix, lv, path) && j < |path|
    ensures Loads(ix, path[j]) && path[j] == Reached(RightLinks(ix), lv.leftmost, path, j)
    ensures SteppedOver(ix, path[j]) <==> !Live(ix, path[j])
  {
    AcceptedAt(RightLinks(ix), LevelSteps(ix, lv), lv.leftmost, path, j);
  }

  /** Between two live pages with none between, the walk over ignorable pages that
      looks for the right neighbour finds exactly the second. */
  lemma LiveNeighbour(ix: Index, lv: Level, path: seq<nat>, k: nat, m: nat)
    requires LevelWalk(ix, lv, path) && k < m < |path| && Live(ix, path[k]) && Live(ix, path[m])
    requires forall j {:trigger Live(ix, path[j])} :: k < j < m ==> !Live(ix, path[j])
    ensures RightNeighbour(ix, ix.pages[path[k]], path[m])
    ensures forall b :: RightNeighbour(ix, ix.pages[path[k]], b) ==> b == path[m]
  {
    NextReached(ix, lv, path, k);
    SteppedSlice(ix, lv, path, k + 1, m);
    SteppedOnLevel(ix, lv, path, m);
    OneNeighbour(ix, ix.pages[path[k]], path[k + 1..m], path[m]);
  }

  lemma NextReached(ix: Index, lv: Level, path: seq<nat>, k: nat)
    requires k < |path| && path[k] in ix.pages
    ensures Reached(RightLinks(ix), lv.leftmost, path, k + 1) == ix.pages[path[k]].next
  {
  }

  lemma SteppedSlice(ix: Index, lv: Level, path: seq<nat>, lo: nat, hi: nat)
    requires LevelWalk(ix, lv, path) && lo <= hi <= |path|
    requires forall j {:trigger Live(ix, path[j])} :: lo <= j < hi ==> !Live(ix, path[j])
    ensures
      var start := Reached(RightLinks(ix), lv.leftmost, path, lo);
      && Walk(RightLinks(ix), StepsOver(ix), start, path[lo..hi])
      && Reached(RightLinks(ix), start, path[lo..hi], |path[lo..hi]|) == Reached(RightLinks(ix), lv.leftmost, path, hi)
  {
    AllStepped(ix, lv, path, lo, hi);
    WalkSlice(RightLinks(ix), LevelSteps(ix, lv), StepsOver(ix), lv.leftmost, path, lo, hi);
  }

  lemma OneNeighbour(ix: Index, p: Page, path: seq<nat>, blk: nat)
    requires Walk(RightLinks(ix), StepsOver(ix), p.next, path)
    requires blk == Reached(RightLinks(ix), p.next, path, |path|) && Loads(ix, blk) && !SteppedOver(ix, blk)
    ensures RightNeighbour(ix, p, blk)
    ensures forall b :: RightNeighbour(ix, p, b) ==> b == blk
  {
    NeighbourUnique(ix, p, path, blk);
  }

  lemma AllStepped(ix: Index, lv: Level, path: seq<nat>, lo: nat, hi: nat)
    requires LevelWalk(ix, lv, path) && lo <= hi <= |path|
    requires forall j {:trigger Live(ix, path[j])} :: lo <= j < hi ==> !Live(ix, path[j])
    ensures forall j :: lo <= j < hi ==> StepsOver(ix)(path[lo..j], path[j])
  {
    forall j | lo <= j < hi
      ensures StepsOver(ix)(path[lo..j], path[j])
    {
      assert !Live(ix, path[j]);
      SteppedOnLevel(ix, lv, path, j);
    }
  }

  lemma RightChecked(ix: Index, blk: nat, right: nat)
    requires LeafOk(ix, blk) && !Rightmost(ix.pages[blk]) && DataItems(ix.pages[blk]) != []
    requires right in ix.pages && forall b :: RightNeighbour(ix, ix.pages[blk], b) ==> b == right
    ensures BelowFirstKey(ix, ix.pages[blk], ix.pages[right])
  {
    assert Items(ix, ix.pages[blk])(MaxOffset(ix.pages[blk]));
  }

  /** The cross-page check: the last item of a leaf, by its last TID, is before the
      first item of the next live leaf. */
  lemma AcrossPages(ix: Index, blk: nat, right: nat)
    requires Valid(ix) && LeafOk(ix, blk) && LeafOk(ix, right) && !Rightmost(ix.pages[blk])
    requires DataItems(ix.pages[blk]) != [] && DataItems(ix.pages[right]) != []
    requires forall b :: RightNeighbour(ix, ix.pages[blk], b) ==> b == right
    ensures var d := DataItems(ix.pages[blk]);
      Before(ix, HighPosition(ix, d[|d| - 1]), LowPosition(ix, DataItems(ix.pages[right])[0]))
  {
    var p, r := ix.pages[blk], ix.pages[right];
    RightChecked(ix, blk, right);
    DataItemAt(p, |DataItems(p)| - 1);
    DataItemAt(r, 0);
    LeafItem(ix, blk, MaxOffset(p));
    LeafItem(ix, right, FirstDataKey(r));
    GreaterThanItemMeaning(ix, Item(r, FirstDataKey(r)), p, MaxOffset(p));
  }

  /** `k` is one more than the index of the last page of `path` with items, the last
      of which ends the level's items so far. */
  ghost predicate EndsAt(ix: Index, path: seq<nat>, items: seq<IndexTuple>, k: nat) {
    && k <= |path| && (k == 0 ==> items == [])
    && (forall j {:trigger path[j]} :: k <= j < |path| ==> Bare(ix, path[j]))
    && (k > 0 ==> !Bare(ix, path[k - 1]) && items != []
                  && items[|items| - 1] == LastOf(DataItems(ix.pages[path[k - 1]])))
  }

  lemma EndsHere(ix: Index, path: seq<nat>, items: seq<IndexTuple>)
    requires path != [] && !Bare(ix, path[|path| - 1])
    ensures EndsAt(ix, path, items + DataItems(ix.pages[path[|path| - 1]]), |path|)
  {
  }

  lemma EndsEarlier(ix: Index, path: seq<nat>, items: seq<IndexTuple>, k: nat)
    requires path != [] && Bare(ix, path[|path| - 1]) && EndsAt(ix, path[..|path| - 1], items, k)
    ensures EndsAt(ix, path, items, k)
  {
    var older := path[..|path| - 1];
    forall j | k <= j < |path|
      ensures Bare(ix, path[j])
    {
      assert j < |older| ==> Bare(ix, older[j]);
    }
  }

  lemma LeafOnLevel(ix: Index, lv: Level, path: seq<nat>, k: nat)
    requires LevelWalk(ix, lv, path) && lv.level == 0 && k < |path| && Live(ix, path[k])
    ensures LeafOk(ix, path[k])
    ensures !Rightmost(ix.pages[path[k]]) ==>
      HasItem(ix.pages[path[k]], P_HIKEY) && CheckNatts(ix, ix.pages[path[k]], P_HIKEY)
    ensures k < |path| - 1 ==> !Rightmost(ix.pages[path[k]])
  {
    AcceptedAt(RightLinks(ix), LevelSteps(ix, lv), lv.leftmost, path, k);
    LeafPage(ix, lv, path[..k], path[k]);
    if k < |path| - 1 {
      AcceptedAt(RightLinks(ix), LevelSteps(ix, lv), lv.leftmost, path, k + 1);
    }
  }

  lemma UpperBefore(ix: Index, full: bool, t: IndexTuple, b: Position)
    requires TidsIncrease(t) && Before(ix, HighPosition(ix, t), b)
    ensures Before(ix, Upper(ix, full, t), b)
  {
    LowBeforeHigh(ix, true, t);
    NotAfterThenBefore(ix, LowPosition(ix, t), HighPosition(ix, t), b);
  }

  lemma JoinLeaves(ix: Index, full: bool, blk: nat, right: nat)
    requires Valid(ix) && LeafOk(ix, blk) && LeafOk(ix, right) && !Rightmost(ix.pages[blk])
    requires DataItems(ix.pages[blk]) != [] && DataItems(ix.pages[right]) != []
    requires forall b :: RightNeighbour(ix, ix.pages[blk], b) ==> b == right
    ensures InOrder(ix, full, blk, right)
  {
    var d := DataItems(ix.pages[blk]);
    AcrossPages(ix, blk, right);
    DataItemAt(ix.pages[blk], |d| - 1);
    LeafItem(ix, blk, MaxOffset(ix.pages[blk]));
    UpperBefore(ix, full, d[|d| - 1], LowPosition(ix, DataItems(ix.pages[right])[0]));
  }

  /** Two pages with items and none with items between are in order: by the cross-page
      check if no live page lies between, and else by the condition on gaps. */
  lemma JoinPages(ix: Index, full: bool, lv: Level, path: seq<nat>, k: nat, m: nat)
    requires Valid(ix) && LevelWalk(ix, lv, path) && lv.level == 0 && GapsOk(ix, full, path)
    requires k < m < |path| && !Bare(ix, path[k]) && !Bare(ix, path[m])
    requires forall j {:trigger path[j]} :: k < j < m ==> Bare(ix, path[j])
    ensures InOrder(ix, full, path[k], path[m])
  {
    if j :| k < j < m && Live(ix, path[j]) {
      assert Gap(ix, path, k, m);
    } else {
      LeafOnLevel(ix, lv, path, k);
      LeafOnLevel(ix, lv, path, m);
      LiveNeighbour(ix, lv, path, k, m);
      JoinLeaves(ix, full, path[k], path[m]);
    }
  }

  /** One more leaf with items keeps the order. */
  lemma LevelGrows(ix: Index, full: bool, lv: Level, path: seq<nat>, items: seq<IndexTuple>, k: nat)
    requires Valid(ix) && LevelWalk(ix, lv, path) && lv.level == 0 && path != []
    requires GapsOk(ix, full, path) && (full ==> AllSeparate(ix, path)) && !Bare(ix, path[|path| - 1])
    requires EndsAt(ix, path[..|path| - 1], items, k)
    requires Ascending(ix, full, items) && Upright(ix, full, items)
    ensures Ascending(ix, full, items + DataItems(ix.pages[path[|path| - 1]]))
    ensures Upright(ix, full, items + DataItems(ix.pages[path[|path| - 1]]))
  {
    var n := |path| - 1;
    LeafOnLevel(ix, lv, path, n);
    PageAscending(ix, full, path[n]);
    if k > 0 {
      assert forall j {:trigger path[j]} :: k - 1 < j < n ==> path[j] == path[..n][j];
      JoinPages(ix, full, lv, path, k - 1, n);
    }
    AscendingJoin(ix, full, items, DataItems(ix.pages[path[n]]));
  }

  lemma SeparatePrefix(ix: Index, path: seq<nat>, n: nat)
    requires AllSeparate(ix, path) && n <= |path|
    ensures AllSeparate(ix, path[..n])
  {
    forall k | 0 <= k < n && Live(ix, path[..n][k])
      ensures Separate(ix, path[..n][k])
    {
      assert Live(ix, path[k]);
    }
  }

  lemma {:induction false} LevelAscending(ix: Index, full: bool, lv: Level, path: seq<nat>) returns (k: nat)
    requires Valid(ix) && LevelWalk(ix, lv, path) && lv.level == 0
    requires GapsOk(ix, full, path) && (full ==> AllSeparate(ix, path))
    ensures Ascending(ix, full, LevelItems(ix, path)) && Upright(ix, full, LevelItems(ix, path))
    ensures EndsAt(ix, path, LevelItems(ix, path), k)
  {
    if path == [] {
      return 0;
    }
    var n := |path| - 1;
    WalkPrefix(RightLinks(ix), LevelSteps(ix, lv), lv.leftmost, path, n);
    GapsPrefix(ix, full, path, n);
    if full {
      SeparatePrefix(ix, path, n);
    }
    k := LevelAscending(ix, full, lv, path[..n]);
    var items := LevelItems(ix, path[..n]);
    if Bare(ix, path[n]) {
      assert items + [] == items;
      EndsEarlier(ix, path, items, k);
    } else {
      LevelGrows(ix, full, lv, path, items, k);
      EndsHere(ix, path, items);
      k := |path|;
    }
  }

  // ------------------------------------------------- the conditions are necessary

  lemma {:induction false} LevelPrefix(ix: Index, path: seq<nat>, n: nat)
    requires n <= |path|
    ensures LevelItems(ix, path[..n]) <= LevelItems(ix, path)
  {
    if n == |path| {
      assert path[..n] == path;
    } else {
      var older := path[..|path| - 1];
      LevelPrefix(ix, older, n);
      assert older[..n] == path[..n];
    }
  }

  /** Where the items of page `k` are among those of the level. */
  lemma PageOnLevel(ix: Index, path: seq<nat>, k: nat)
    requires k < |path| && Live(ix, path[k])
    ensures LevelItems(ix, path[..k]) + DataItems(ix.pages[path[k]]) == LevelItems(ix, path[..k + 1])
    ensures LevelItems(ix, path[..k + 1]) <= LevelItems(ix, path)
  {
    assert path[..k + 1][..k] == path[..k];
    LevelPrefix(ix, path, k + 1);
  }

  lemma PagesFollow(ix: Index, path: seq<nat>, k: nat, m: nat)
    requires k < m < |path| && Live(ix, path[k])
    ensures |LevelItems(ix, path[..k + 1])| <= |LevelItems(ix, path[..m])|
  {
    LevelPrefix(ix, path[..m], k + 1);
    assert path[..m][..k + 1] == path[..k + 1];
  }

  lemma AscendingInOrder(ix: Index, full: bool, path: seq<nat>, k: nat, m: nat)
    requires Ascending(ix, full, LevelItems(ix, path))
    requires k < m < |path| && !Bare(ix, path[k]) && !Bare(ix, path[m])
    ensures InOrder(ix, full, path[k], path[m])
  {
    PageOnLevel(ix, path, k);
    PageOnLevel(ix, path, m);
    PagesFollow(ix, path, k, m);
    var s, e, b := LevelItems(ix, path), |LevelItems(ix, path[..k + 1])|, |LevelItems(ix, path[..m])|;
    assert s[e - 1] == LastOf(DataItems(ix.pages[path[k]]));
    assert s[b] == DataItems(ix.pages[path[m]])[0];
  }

  lemma AscendingSeparates(ix: Index, path: seq<nat>, k: nat)
    requires Ascending(ix, true, LevelItems(ix, path)) && k < |path| && Live(ix, path[k])
    ensures Separate(ix, path[k])
  {
    PageOnLevel(ix, path, k);
    AscendingPart(ix, LevelItems(ix, path), LevelItems(ix, path[..k]), DataItems(ix.pages[path[k]]));
  }

  lemma AscendingPart(ix: Index, s: seq<IndexTuple>, a: seq<IndexTuple>, d: seq<IndexTuple>)
    requires Ascending(ix, true, s) && a + d <= s
    ensures Ascending(ix, true, d)
  {
    forall i, j | 0 <= i < j < |d|
      ensures Before(ix, Upper(ix, true, d[i]), LowPosition(ix, d[j]))
    {
      assert s[|a| + i] == (a + d)[|a| + i] == d[i] && s[|a| + j] == (a + d)[|a| + j] == d[j];
    }
  }

  /** After a clean check of the leaf level the data items of the live leaves, read
      from left to right, are strictly increasing by key and then heap TID, a posting
      list being read by its first TID, exactly when they are so across the gaps that
      empty leaves leave: the cross-page check looks no further than the next leaf. */
  lemma LeafOrder(ix: Index, lv: Level, path: seq<nat>)
    requires Valid(ix) && LevelOk(ix, lv, path) && lv.level == 0
    ensures Ascending(ix, false, LevelItems(ix, path)) <==> GapsOk(ix, false, path)
  {
    if GapsOk(ix, false, path) {
      var k := LevelAscending(ix, false, lv, path);
    }
    if Ascending(ix, false, LevelItems(ix, path)) {
      AscendingGaps(ix, false, path);
    }
  }

  lemma AscendingGaps(ix: Index, full: bool, path: seq<nat>)
    requires Ascending(ix, full, LevelItems(ix, path))
    ensures GapsOk(ix, full, path)
  {
    forall k: nat, m: nat | Gap(ix, path, k, m)
      ensures InOrder(ix, full, path[k], path[m])
    {
      AscendingInOrder(ix, full, path, k, m);
    }
  }

  /** The same holds of all TIDs of the posting lists exactly when, besides, no posting
      list reaches the first TID of the next item on its page: the cross-page check
      covers whole posting lists, the check within a page does not. */
  lemma LeafTidOrder(ix: Index, lv: Level, path: seq<nat>)
    requires Valid(ix) && LevelOk(ix, lv, path) && lv.level == 0
    ensures Ascending(ix, true, LevelItems(ix, path)) <==> AllSeparate(ix, path) && GapsOk(ix, true, path)
  {
    if AllSeparate(ix, path) && GapsOk(ix, true, path) {
      var k := LevelAscending(ix, true, lv, path);
    }
    if Ascending(ix, true, LevelItems(ix, path)) {
      AscendingGaps(ix, true, path);
      forall k | 0 <= k < |path| && Live(ix, path[k])
        ensures Separate(ix, path[k])
      {
        AscendingSeparates(ix, path, k);
      }
    }
  }
}
