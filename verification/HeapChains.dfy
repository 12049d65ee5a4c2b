/** The update chains of one heap page, as the heap verifier checks them. */
module HeapChains {
  import opened Optional
  import opened Pigeonhole

  datatype Status = Committed | InProgress | Aborted

  /** What the check looks at in a tuple header.  `status` is the commit status of xmin
      if the tuple check found one; `running` says whether xmin is still in progress
      when that is asked again. */
  datatype Tuple = Tuple(
    heapOnly: bool, hotUpdated: bool, xmin: nat, updateXid: nat,
    ctidHere: bool, ctidOffset: nat, status: Option<Status>, running: bool)

  /** A line pointer; a normal one may have a bad offset or length. */
  datatype Item = Unused | Dead | Redirect(target: nat) | Normal(valid: bool, tuple: Tuple)

  /** Offsets count from 1. */
  type Page = seq<Item>

  predicate OnPage(page: Page, i: nat) { 1 <= i <= |page| }

  function At(page: Page, i: nat): Item
    requires OnPage(page, i)
  {
    page[i - 1]
  }

  const NONE: nat := 0

  // --------------------------------------------------------------- specification

  /** The item passes the first loop's checks. */
  predicate ItemOk(page: Page, i: nat)
    requires OnPage(page, i)
  {
    match At(page, i)
    case Redirect(to) => OnPage(page, to) && At(page, to).Normal?
    case Normal(valid, _) => valid
    case _ => true
  }

  predicate Usable(page: Page, i: nat)
    requires OnPage(page, i)
  {
    (At(page, i).Redirect? || At(page, i).Normal?) && ItemOk(page, i)
  }

  /** The offset recorded as successor, or none. */
  function Successor(page: Page, i: nat): nat
    requires OnPage(page, i)
  {
    match At(page, i)
    case Redirect(to) => if ItemOk(page, i) then to else NONE
    case Normal(valid, t) =>
      if valid && t.ctidHere && t.ctidOffset != i && OnPage(page, t.ctidOffset) then t.ctidOffset else NONE
    case _ => NONE
  }

  /** `i` links to `j`: a redirect, or a tuple whose update made the tuple at `j`. */
  predicate Link(page: Page, i: nat, j: nat)
    requires OnPage(page, i) && OnPage(page, j)
  {
    && Successor(page, i) == j && Usable(page, j)
    && (At(page, i).Redirect? ||
        (At(page, j).Normal? && At(page, i).Normal? && At(page, i).tuple.updateXid != 0
         && At(page, i).tuple.updateXid == At(page, j).tuple.xmin))
  }

  /** What is asked of a link. */
  predicate LinkOk(page: Page, i: nat, j: nat)
    requires OnPage(page, i) && OnPage(page, j) && Link(page, i, j)
  {
    if At(page, i).Redirect? then At(page, j).Normal? && At(page, j).tuple.heapOnly
    else
      var (a, b) := (At(page, i).tuple, At(page, j).tuple);
      && a.hotUpdated == b.heapOnly
      && !(a.status == Some(InProgress) && b.status == Some(Committed) && a.running)
      && !(a.status == Some(Aborted) && (b.status == Some(InProgress) || b.status == Some(Committed)))
  }

  /** A tuple that is visible to someone, and so must not be a heap-only root. */
  predicate Alive(page: Page, j: nat)
    requires OnPage(page, j)
  {
    At(page, j).Normal? && At(page, j).valid && (At(page, j).tuple.status == Some(Committed) || At(page, j).tuple.status == Some(InProgress))
  }

  ghost predicate HasPredecessor(page: Page, j: nat)
    requires OnPage(page, j)
  {
    exists i: nat :: OnPage(page, i) && Link(page, i, j)
  }

  ghost predicate ItemsOk(page: Page) { forall i: nat :: OnPage(page, i) ==> ItemOk(page, i) }

  /** Nothing before `i` links to `j`. */
  ghost predicate FirstToLink(page: Page, i: nat, j: nat)
    requires OnPage(page, i) && OnPage(page, j)
  {
    forall h: nat :: 1 <= h < i ==> !Link(page, h, j)
  }

  /** The link that starts at `i`, if there is one, is sound and the first to its target. */
  ghost predicate StartOk(page: Page, i: nat)
    requires OnPage(page, i)
  {
    var j := Successor(page, i);
    j != NONE && Link(page, i, j) ==> LinkOk(page, i, j) && FirstToLink(page, i, j)
  }

  ghost predicate LinksOk(page: Page) { forall i: nat :: OnPage(page, i) ==> StartOk(page, i) }

  /** A live heap-only tuple is not the root of its chain. */
  ghost predicate RootOk(page: Page, j: nat)
    requires OnPage(page, j)
  {
    Alive(page, j) && At(page, j).tuple.heapOnly ==> HasPredecessor(page, j)
  }

  ghost predicate RootsOk(page: Page) { forall j: nat :: OnPage(page, j) ==> RootOk(page, j) }

  ghost predicate PageOk(page: Page) { ItemsOk(page) && LinksOk(page) && RootsOk(page) }

  lemma SuccessorOnPage(page: Page, i: nat)
    requires OnPage(page, i)
    ensures Successor(page, i) != NONE ==> OnPage(page, Successor(page, i))
  {
  }

  /** The predecessor found when the offsets below `k` have been looked at. */
  function Predecessor(page: Page, j: nat, k: nat): nat
    requires OnPage(page, j) && k <= |page| + 1
  {
    if k <= 1 then NONE
    else if Predecessor(page, j, k - 1) != NONE then Predecessor(page, j, k - 1)
    else if Link(page, k - 1, j) then k - 1 else NONE
  }

  lemma {:induction false} PredecessorMeaning(page: Page, j: nat, k: nat)
    requires OnPage(page, j) && k <= |page| + 1
    ensures
      var p := Predecessor(page, j, k);
      if p == NONE then forall h: nat :: 1 <= h < k ==> !Link(page, h, j)
      else 1 <= p < k && Link(page, p, j)
  {
    if k <= 1 {
    } else {
      PredecessorMeaning(page, j, k - 1);
    }
  }

  lemma PredecessorExact(page: Page, j: nat)
    requires OnPage(page, j)
    ensures Predecessor(page, j, |page| + 1) != NONE <==> HasPredecessor(page, j)
  {
    PredecessorMeaning(page, j, |page| + 1);
    var p := Predecessor(page, j, |page| + 1);
    assert p != NONE ==> OnPage(page, p) && Link(page, p, j);
  }

  // --------------------------------------------------------------------- the loops

  /** The first loop: line pointers and successors. */
  method ScanItems(page: Page) returns (reports: nat, successor: array<nat>, lpValid: array<bool>)
    ensures fresh(successor) && fresh(lpValid) && successor.Length == lpValid.Length == |page| + 1
    ensures forall i: nat :: OnPage(page, i) ==> successor[i] == Successor(page, i) && lpValid[i] == Usable(page, i)
    ensures reports == 0 <==> ItemsOk(page)
  {
    successor, lpValid, reports := new nat[|page| + 1], new bool[|page| + 1], 0;
    var i := 1;
    while i <= |page|
      invariant 1 <= i <= |page| + 1
      invariant forall h: nat :: 1 <= h < i ==> successor[h] == Successor(page, h) && lpValid[h] == Usable(page, h)
      invariant reports == 0 <==> forall h: nat :: 1 <= h < i ==> ItemOk(page, h)
    {
      successor[i], lpValid[i] := NONE, false;
      var item := At(page, i);
      if item.Redirect? {
        if item.target < 1 || item.target > |page| || !At(page, item.target).Normal? {
          reports := reports + 1;
        } else {
          lpValid[i], successor[i] := true, item.target;
        }
      } else if item.Normal? {
        if !item.valid {
          reports := reports + 1;
        } else {
          lpValid[i] := true;
          if item.tuple.ctidHere && item.tuple.ctidOffset != i && 1 <= item.tuple.ctidOffset <= |page| {
            successor[i] := item.tuple.ctidOffset;
          }
        }
      }
      i := i + 1;
    }
  }

  /** What the second loop does at one offset: the number of reports, and whether `i`
      is recorded as predecessor of its successor. */
  method CheckStart(page: Page, i: nat, next: nat, nextValid: bool, known: nat) returns (reports: nat, record: bool)
    requires OnPage(page, i) && next == Successor(page, i)
    requires next != NONE ==> OnPage(page, next) && nextValid == Usable(page, next) && known == Predecessor(page, next, i)
    ensures reports == 0 <==> StartOk(page, i)
    ensures record <==> next != NONE && Link(page, i, next) && known == NONE
  {
    reports, record := 0, false;
    if next == NONE || !nextValid {
      return;
    }
    PredecessorMeaning(page, next, i);
    var curr, target := At(page, i), At(page, next);
    if curr.Redirect? {
      if !target.tuple.heapOnly {
        reports := reports + 1;
      }
      if known != NONE {
        reports := reports + 1;
        return;
      }
      record := true;
      return;
    }
    if target.Redirect? {
      return;
    }
    if curr.tuple.updateXid == 0 || curr.tuple.updateXid != target.tuple.xmin {
      return;
    }
    if known != NONE {
      reports := reports + 1;
      return;
    }
    record := true;
    reports := CheckPair(curr.tuple, target.tuple);
  }

  /** The flags and commit statuses of a tuple and its new version. */
  method CheckPair(a: Tuple, b: Tuple) returns (reports: nat)
    ensures reports == 0 <==>
      && a.hotUpdated == b.heapOnly
      && !(a.status == Some(InProgress) && b.status == Some(Committed) && a.running)
      && !(a.status == Some(Aborted) && (b.status == Some(InProgress) || b.status == Some(Committed)))
  {
    reports := 0;
    if !a.hotUpdated && b.heapOnly {
      reports := reports + 1;
    }
    if a.hotUpdated && !b.heapOnly {
      reports := reports + 1;
    }
    if a.status == Some(InProgress) && b.status == Some(Committed) && a.running {
      reports := reports + 1;
    }
    if a.status == Some(Aborted) && b.status.Some? {
      if b.status.value.InProgress? || b.status.value.Committed? {
        reports := reports + 1;
      }
    }
  }

  /** The second loop: predecessors. */
  method LinkItems(page: Page, successor: array<nat>, lpValid: array<bool>) returns (reports: nat, predecessor: array<nat>)
    requires successor.Length == lpValid.Length == |page| + 1
    requires forall i: nat :: OnPage(page, i) ==> successor[i] == Successor(page, i) && lpValid[i] == Usable(page, i)
    ensures fresh(predecessor) && predecessor.Length == |page| + 1
    ensures forall j: nat :: OnPage(page, j) ==> predecessor[j] == Predecessor(page, j, |page| + 1)
    ensures reports == 0 <==> LinksOk(page)
  {
    predecessor, reports := new nat[|page| + 1](_ => NONE), 0;
    var i := 1;
    while i <= |page|
      invariant 1 <= i <= |page| + 1
      invariant forall j: nat :: OnPage(page, j) ==> predecessor[j] == Predecessor(page, j, i)
      invariant reports == 0 <==> forall h: nat :: 1 <= h < i ==> StartOk(page, h)
    {
      SuccessorOnPage(page, i);
      var next := successor[i];
      var r, record := CheckStart(page, i, next, next != NONE && lpValid[next], if next != NONE then predecessor[next] else NONE);
      reports := reports + r;
      if record {
        predecessor[next] := i;
      }
      i := i + 1;
    }
  }

  /** The third loop: roots. */
  method CheckRoots(page: Page, predecessor: array<nat>) returns (reports: nat)
    requires predecessor.Length == |page| + 1
    requires forall j: nat :: OnPage(page, j) ==> predecessor[j] == Predecessor(page, j, |page| + 1)
    ensures reports == 0 <==> RootsOk(page)
  {
    reports := 0;
    var j := 1;
    while j <= |page|
      invariant 1 <= j <= |page| + 1
      invariant reports == 0 <==> forall h: nat :: 1 <= h < j ==> RootOk(page, h)
    {
      PredecessorExact(page, j);
      var item := At(page, j);
      var bad := item.Normal? && item.valid && predecessor[j] == NONE && item.tuple.heapOnly
                 && (item.tuple.status == Some(Committed) || item.tuple.status == Some(InProgress));
      assert RootOk(page, j) <==> !bad;
      if bad {
        reports := reports + 1;
      }
      j := j + 1;
    }
  }

  /** The three loops report nothing exactly when the page's chains are sound. */
  method CheckPage(page: Page) returns (reports: nat)
    ensures reports == 0 <==> PageOk(page)
  {
    var r1, successor, lpValid := ScanItems(page);
    var r2, predecessor := LinkItems(page, successor, lpValid);
    var r3 := CheckRoots(page, predecessor);
    return r1 + r2 + r3;
  }

  // ------------------------------------------------------- what a silent check says

  /** On a sound page no two items link to the same one. */
  lemma OnePredecessor(page: Page, i: nat, h: nat, j: nat)
    requires LinksOk(page) && OnPage(page, i) && OnPage(page, h) && OnPage(page, j)
    requires Link(page, i, j) && Link(page, h, j)
    ensures i == h
  {
    assert StartOk(page, i) && StartOk(page, h);
  }

  /** The recorded predecessors invert the successors along all links. */
  lemma PredecessorInverts(page: Page, i: nat, j: nat)
    requires LinksOk(page) && OnPage(page, i) && OnPage(page, j)
    ensures Link(page, i, j) <==> Predecessor(page, j, |page| + 1) == i
    ensures Link(page, i, j) ==> Successor(page, i) == j
  {
    PredecessorMeaning(page, j, |page| + 1);
    var p := Predecessor(page, j, |page| + 1);
    if Link(page, i, j) {
      assert p != NONE;
      OnePredecessor(page, i, p, j);
    }
  }

  /** What is known of every link of a sound page, and of every live heap-only tuple. */
  lemma ChainsSound(page: Page, i: nat, j: nat)
    requires PageOk(page) && OnPage(page, i) && OnPage(page, j)
    ensures Link(page, i, j) && At(page, i).Redirect? ==> At(page, j).Normal? && At(page, j).tuple.heapOnly
    ensures Link(page, i, j) && !At(page, i).Redirect? ==> At(page, i).tuple.hotUpdated == At(page, j).tuple.heapOnly
    ensures Alive(page, j) && At(page, j).tuple.heapOnly ==>
      var p := Predecessor(page, j, |page| + 1); OnPage(page, p) && Link(page, p, j)
  {
    assert StartOk(page, i) && RootOk(page, j);
    PredecessorExact(page, j);
    PredecessorMeaning(page, j, |page| + 1);
  }

  /** The item reached from `j` after `n` steps back along the recorded predecessors. */
  function Back(page: Page, j: nat, n: nat): (r: nat)
    requires OnPage(page, j)
    ensures r == NONE || OnPage(page, r)
  {
    if n == 0 then j
    else
      var p := Back(page, j, n - 1);
      if p == NONE then NONE
      else
        PredecessorMeaning(page, p, |page| + 1);
        Predecessor(page, p, |page| + 1)
  }

  /** The walk back from `j` ends. */
  ghost predicate WalkEnds(page: Page, j: nat)
    requires OnPage(page, j)
  {
    exists n: nat :: Back(page, j, n) == NONE
  }

  /** It comes round to `j` again. */
  ghost predicate ComesRound(page: Page, j: nat)
    requires OnPage(page, j)
  {
    exists n: nat :: n > 0 && Back(page, j, n) == j
  }

  /** Where two steps back meet they came from the same item. */
  lemma BackInjective(page: Page, x: nat, y: nat)
    requires OnPage(page, x) && OnPage(page, y)
    requires Predecessor(page, x, |page| + 1) == Predecessor(page, y, |page| + 1) != NONE
    ensures x == y
  {
    PredecessorMeaning(page, x, |page| + 1);
    PredecessorMeaning(page, y, |page| + 1);
  }

  lemma {:induction false} BackMeets(page: Page, j: nat, a: nat, b: nat)
    requires OnPage(page, j) && a < b && Back(page, j, a) == Back(page, j, b) != NONE
    ensures Back(page, j, b - a) == j
  {
    if a == 0 {
    } else {
      BackInjective(page, Back(page, j, a - 1), Back(page, j, b - 1));
      BackMeets(page, j, a - 1, b - 1);
    }
  }

  lemma {:induction false} BackStops(page: Page, j: nat, n: nat, m: nat)
    requires OnPage(page, j) && Back(page, j, n) == NONE && n <= m
    ensures Back(page, j, m) == NONE
  {
    if n == m {
    } else {
      BackStops(page, j, n, m - 1);
    }
  }

  lemma {:induction false} BackAgain(page: Page, j: nat, n: nat, m: nat)
    requires OnPage(page, j) && Back(page, j, n) == j
    ensures Back(page, j, n + m) == Back(page, j, m)
  {
    if m == 0 {
    } else {
      BackAgain(page, j, n, m - 1);
    }
  }

  lemma {:induction false} BackRounds(page: Page, j: nat, n: nat, k: nat)
    requires OnPage(page, j) && Back(page, j, n) == j
    ensures Back(page, j, k * n) == j
  {
    if k == 0 {
    } else {
      BackRounds(page, j, n, k - 1);
      BackAgain(page, j, n, (k - 1) * n);
      assert k * n == n + (k - 1) * n;
    }
  }

  /** The offsets of a page with `n` items. */
  function Offsets(n: nat): (r: set<nat>)
    ensures |r| == n && forall i :: i in r <==> 1 <= i <= n
  {
    if n == 0 then {} else Offsets(n - 1) + {n}
  }

  /** The walk back ends exactly when it does not come round. */
  lemma EndsOrComesRound(page: Page, j: nat)
    requires OnPage(page, j)
    ensures WalkEnds(page, j) <==> !ComesRound(page, j)
  {
    if ComesRound(page, j) && WalkEnds(page, j) {
      var n: nat :| n > 0 && Back(page, j, n) == j;
      var m: nat :| Back(page, j, m) == NONE;
      BackRounds(page, j, n, m);
      assert m <= m * n;
      BackStops(page, j, m, m * n);
    }
    if !WalkEnds(page, j) {
      var walk := seq(|page| + 1, (n: nat) => Back(page, j, n));
      assert Elements(walk) <= Offsets(|page|);
      var a, b := MustRepeat(walk, Offsets(|page|));
      BackMeets(page, j, a, b);
    }
  }

  /** The chain of `j` starts with an item that may start one: not with a live heap-only tuple. */
  ghost predicate StartsProperly(page: Page, j: nat)
    requires OnPage(page, j)
  {
    exists n: nat :: StartsAt(page, j, n)
  }

  ghost predicate StartsAt(page: Page, j: nat, n: nat)
    requires OnPage(page, j)
  {
    var r := Back(page, j, n);
    r != NONE && Back(page, j, n + 1) == NONE && !(Alive(page, r) && At(page, r).tuple.heapOnly)
  }

  lemma {:induction false} LastBack(page: Page, j: nat, n: nat)
    requires PageOk(page) && OnPage(page, j) && Back(page, j, n) == NONE
    ensures StartsProperly(page, j)
  {
    var r := Back(page, j, n - 1);
    if r == NONE {
      LastBack(page, j, n - 1);
    } else {
      assert RootOk(page, r);
      PredecessorExact(page, r);
      assert StartsAt(page, j, n - 1);
    }
  }

  /** On a page without report every chain starts properly, except exactly the circular ones. */
  lemma CircularOrStarted(page: Page, j: nat)
    requires PageOk(page) && OnPage(page, j)
    ensures StartsProperly(page, j) <==> !ComesRound(page, j)
  {
    EndsOrComesRound(page, j);
    if WalkEnds(page, j) {
      var n: nat :| Back(page, j, n) == NONE;
      LastBack(page, j, n);
    }
  }

  /** Two heap-only tuples, each the new version of the other. */
  function Circle(): Page {
    [Normal(true, Tuple(true, true, 7, 8, true, 2, Some(Committed), false)),
     Normal(true, Tuple(true, true, 8, 7, true, 1, Some(Committed), false))]
  }

  lemma CircleRound()
    ensures ComesRound(Circle(), 1)
  {
    var page := Circle();
    assert Link(page, 1, 2) && Link(page, 2, 1);
    assert !Link(page, 1, 1) && !Link(page, 2, 2);
    PredecessorMeaning(page, 1, 3);
    PredecessorMeaning(page, 2, 3);
    assert Predecessor(page, 1, 3) == 2 && Predecessor(page, 2, 3) == 1;
    assert Back(page, 1, 0) == 1;
    assert Back(page, 1, 1) == 2;
    assert Back(page, 1, 2) == 1;
  }

  /** The check is silent about them although no chain leads to them from an item that may
      start one. */
  lemma CircleIsSilent()
    ensures PageOk(Circle())
    ensures Link(Circle(), 1, 2) && Link(Circle(), 2, 1)
    ensures At(Circle(), 1).tuple.heapOnly && At(Circle(), 2).tuple.heapOnly && !StartsProperly(Circle(), 1)
  {
    var page := Circle();
    assert Link(page, 1, 2) && Link(page, 2, 1);
    assert StartOk(page, 1) && StartOk(page, 2);
    assert RootOk(page, 1) && RootOk(page, 2);
    CircleRound();
    CircularOrStarted(page, 1);
  }
}
