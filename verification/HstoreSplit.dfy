/** Splitting a page of hstore signatures. */
module HstoreSplit {
  import opened HstoreSign

  /** Positions on the page count from 1. */
  predicate OnPage(ss: seq<Sign>, j: nat) { 1 <= j <= |ss| }

  function At(ss: seq<Sign>, j: nat): Sign
    requires OnPage(ss, j)
  {
    ss[j - 1]
  }

  predicate AllOnPage(ss: seq<Sign>, js: seq<nat>) { forall k :: 0 <= k < |js| ==> OnPage(ss, js[k]) }

  predicate AllValid(ss: seq<Sign>, n: nat) { forall k :: 0 <= k < |ss| ==> Valid(ss[k], n) }

  /** The union of the bits of the signatures at some positions. */
  function UnionAt(ss: seq<Sign>, n: nat, js: seq<nat>): set<nat>
    requires AllOnPage(ss, js)
  {
    if js == [] then {} else UnionAt(ss, n, js[..|js| - 1]) + BitsOf(At(ss, js[|js| - 1]), n)
  }

  lemma UnionAtMore(ss: seq<Sign>, n: nat, js: seq<nat>, j: nat)
    requires AllOnPage(ss, js) && OnPage(ss, j)
    ensures UnionAt(ss, n, js + [j]) == UnionAt(ss, n, js) + BitsOf(At(ss, j), n)
  {
    assert (js + [j])[..|js|] == js;
  }

  lemma {:induction false} UnionAtHas(ss: seq<Sign>, n: nat, js: seq<nat>, j: nat)
    requires AllOnPage(ss, js) && j in js
    ensures BitsOf(At(ss, j), n) <= UnionAt(ss, n, js)
  {
    var m := |js| - 1;
    if js[m] != j {
      UnionAtHas(ss, n, js[..m], j);
    }
  }

  // ---------------------------------------------------------------------- seeds

  function Distances(ss: seq<Sign>, n: nat): (nat, nat) -> int {
    (k: nat, j: nat) => if OnPage(ss, k) && OnPage(ss, j) then Distance(At(ss, k), At(ss, j), n) else 0
  }

  /** Two of the positions below `last` as far apart as any two; the last position
      itself is not looked at. */
  method ChooseSeeds(last: nat, dist: (nat, nat) -> int) returns (seed1: nat, seed2: nat)
    requires last >= 2 && forall k, j :: dist(k, j) >= 0
    ensures 1 <= seed1 < seed2 <= last
    ensures forall k, j :: 1 <= k < j < last ==> dist(k, j) <= dist(seed1, seed2)
  {
    var maxoff, waste := last - 1, -1;
    seed1, seed2 := 0, 0;
    var k := 1;
    while k < maxoff
      invariant 1 <= k && Farthest(dist, last, k, k + 1, seed1, seed2, waste)
    {
      var j := k + 1;
      while j <= maxoff
        invariant k < j <= maxoff + 1 && Farthest(dist, last, k, j, seed1, seed2, waste)
      {
        var d := dist(k, j);
        if d > waste {
          waste, seed1, seed2 := d, k, j;
        }
        j := j + 1;
      }
      k := k + 1;
    }
    if seed1 == 0 || seed2 == 0 {
      seed1, seed2 := 1, 2;
    }
  }

  /** The pair `(x, y)` comes before `(k, j)` in the order of the loops. */
  predicate Seen(last: nat, k: nat, j: nat, x: nat, y: nat) {
    1 <= x < y < last && (x < k || (x == k && y < j))
  }

  ghost predicate Farthest(dist: (nat, nat) -> int, last: nat, k: nat, j: nat, seed1: nat, seed2: nat, waste: int) {
    && (if waste < 0 then seed1 == 0 && seed2 == 0 else 1 <= seed1 < seed2 < last && waste == dist(seed1, seed2))
    && (forall x, y :: Seen(last, k, j, x, y) ==> dist(x, y) <= waste)
  }

  lemma DistancesPositive(ss: seq<Sign>, n: nat)
    requires AllValid(ss, n)
    ensures forall k, j :: Distances(ss, n)(k, j) >= 0
  {
    forall k: nat, j: nat
      ensures Distances(ss, n)(k, j) >= 0
    {
      if OnPage(ss, k) && OnPage(ss, j) {
        DistanceExact(At(ss, k), At(ss, j), n);
      }
    }
  }

  // ----------------------------------------------------------------- the two sides

  /** `WISH_F`: a bonus for the side with fewer entries. */
  function Wish(left: int, right: int): real {
    var d := left - right;
    -((d * d * d) as real) * 0.0001
  }

  /** A side's datum after an entry has been added to the side. */
  function Added(datum: Sign, s: Sign, n: nat): Sign {
    if datum.AllTrue? || s.AllTrue? then (if datum.AllTrue? then datum else Bits(Full(n)))
    else Bits(datum.bits + s.bits)
  }

  lemma AddedBits(datum: Sign, s: Sign, n: nat)
    requires Valid(datum, n) && Valid(s, n)
    ensures Valid(Added(datum, s, n), n) && BitsOf(Added(datum, s, n), n) == BitsOf(datum, n) + BitsOf(s, n)
  {
  }

  /** The entries `js` have gone to the side that started with the entry `seed`. */
  predicate Side(ss: seq<Sign>, n: nat, seed: nat, js: seq<nat>, datum: Sign) {
    && OnPage(ss, seed) && AllOnPage(ss, js) && Valid(datum, n)
    && BitsOf(datum, n) == BitsOf(At(ss, seed), n) + UnionAt(ss, n, js)
  }

  lemma SideSeed(ss: seq<Sign>, n: nat, seed: nat, js: seq<nat>, datum: Sign)
    requires Side(ss, n, seed, js, datum)
    ensures Side(ss, n, seed, js + [seed], datum)
  {
    UnionAtMore(ss, n, js, seed);
  }

  lemma SideMore(ss: seq<Sign>, n: nat, seed: nat, js: seq<nat>, datum: Sign, j: nat)
    requires AllValid(ss, n) && Side(ss, n, seed, js, datum) && OnPage(ss, j)
    ensures Side(ss, n, seed, js + [j], Added(datum, At(ss, j), n))
  {
    UnionAtMore(ss, n, js, j);
    AddedBits(datum, At(ss, j), n);
  }

  /** The positions of the page, each once, in the order in which they are dealt with. */
  predicate Positions(ss: seq<Sign>, order: seq<nat>) {
    && |order| == |ss| && AllOnPage(ss, order)
    && (forall j :: 1 <= j <= |ss| ==> j in order)
  }

  /** `ghstore_picksplit`, given the order in which the entries are sorted by cost. */
  method PickSplit(ss: seq<Sign>, n: nat, order: seq<nat>)
    returns (left: seq<nat>, right: seq<nat>, ldatum: Sign, rdatum: Sign)
    requires |ss| >= 2 && AllValid(ss, n) && Positions(ss, order)
    ensures multiset(left) + multiset(right) == multiset(order)
    ensures left != [] && right != [] && AllOnPage(ss, left) && AllOnPage(ss, right)
    ensures Valid(ldatum, n) && BitsOf(ldatum, n) == UnionAt(ss, n, left)
    ensures Valid(rdatum, n) && BitsOf(rdatum, n) == UnionAt(ss, n, right)
  {
    DistancesPositive(ss, n);
    var seed1, seed2 := ChooseSeeds(|ss|, Distances(ss, n));
    left, right, ldatum, rdatum := DealAll(ss, n, order, seed1, seed2);
    SideDone(ss, n, seed1, left, ldatum);
    SideDone(ss, n, seed2, right, rdatum);
  }

  lemma SideDone(ss: seq<Sign>, n: nat, seed: nat, js: seq<nat>, datum: Sign)
    requires Side(ss, n, seed, js, datum) && seed in js
    ensures BitsOf(datum, n) == UnionAt(ss, n, js)
  {
    UnionAtHas(ss, n, js, seed);
  }

  /** The loop. */
  method DealAll(ss: seq<Sign>, n: nat, order: seq<nat>, seed1: nat, seed2: nat)
    returns (left: seq<nat>, right: seq<nat>, ldatum: Sign, rdatum: Sign)
    requires AllValid(ss, n) && Positions(ss, order) && OnPage(ss, seed1) && OnPage(ss, seed2) && seed1 != seed2
    ensures multiset(left) + multiset(right) == multiset(order) && seed1 in left && seed2 in right
    ensures Side(ss, n, seed1, left, ldatum) && Side(ss, n, seed2, right, rdatum)
  {
    ldatum, rdatum := At(ss, seed1), At(ss, seed2);
    left, right := [], [];
    for k := 0 to |order|
      invariant Side(ss, n, seed1, left, ldatum) && Side(ss, n, seed2, right, rdatum)
      invariant Dealt(order, k, seed1, seed2, left, right)
    {
      DealtMore(order, k, seed1, seed2, left, right);
      left, right, ldatum, rdatum := Deal(ss, n, seed1, seed2, order[k], left, right, ldatum, rdatum);
    }
    assert order[..|order|] == order;
  }

  /** The loop's body: where entry `j` goes. */
  method Deal(ss: seq<Sign>, n: nat, seed1: nat, seed2: nat, j: nat, l: seq<nat>, r: seq<nat>, ld: Sign, rd: Sign)
    returns (left: seq<nat>, right: seq<nat>, ldatum: Sign, rdatum: Sign)
    requires AllValid(ss, n) && OnPage(ss, j) && Side(ss, n, seed1, l, ld) && Side(ss, n, seed2, r, rd)
    ensures Side(ss, n, seed1, left, ldatum) && Side(ss, n, seed2, right, rdatum)
    ensures (left == l + [j] && right == r && (j == seed1 || j != seed2)) || (left == l && right == r + [j] && j != seed1)
  {
    left, right, ldatum, rdatum := l, r, ld, rd;
    if j == seed1 {
      SideSeed(ss, n, seed1, left, ldatum);
      left := left + [j];
    } else if j == seed2 {
      SideSeed(ss, n, seed2, right, rdatum);
      right := right + [j];
    } else {
      var alpha, beta := Distance(ldatum, At(ss, j), n), Distance(rdatum, At(ss, j), n);
      if alpha as real < beta as real + Wish(|left|, |right|) {
        SideMore(ss, n, seed1, left, ldatum, j);
        ldatum := Added(ldatum, At(ss, j), n);
        left := left + [j];
      } else {
        SideMore(ss, n, seed2, right, rdatum, j);
        rdatum := Added(rdatum, At(ss, j), n);
        right := right + [j];
      }
    }
  }

  /** The first `k` positions have been dealt to the two sides, the seeds to their own. */
  predicate Dealt(order: seq<nat>, k: nat, seed1: nat, seed2: nat, left: seq<nat>, right: seq<nat>)
    requires k <= |order|
  {
    && multiset(left) + multiset(right) == multiset(order[..k])
    && (seed1 in order[..k] ==> seed1 in left) && (seed2 in order[..k] ==> seed2 in right)
  }

  lemma DealtMore(order: seq<nat>, k: nat, seed1: nat, seed2: nat, left: seq<nat>, right: seq<nat>)
    requires k < |order| && Dealt(order, k, seed1, seed2, left, right)
    ensures order[k] != seed2 ==> Dealt(order, k + 1, seed1, seed2, left + [order[k]], right)
    ensures order[k] != seed1 ==> Dealt(order, k + 1, seed1, seed2, left, right + [order[k]])
  {
    assert order[..k + 1] == order[..k] + [order[k]];
  }
}
