/** Ordering boxes by distance: an internal key's distance is a lower bound on that of
    every leaf below it. */
module CubeDistance {
  import opened Optional
  import opened Cubes

  // ------------------------------------------------------------- on one axis

  /** `distance_1D`. */
  function Distance1D(a1: real, a2: real, b1: real, b2: real): real {
    if a1 <= b1 && a2 <= b1 && a1 <= b2 && a2 <= b2 then Min(b1, b2) - Max(a1, a2)
    else if a1 > b1 && a2 > b1 && a1 > b2 && a2 > b2 then Min(a1, a2) - Max(b1, b2)
    else 0.0
  }

  /** The gap between the projections on axis `i`. */
  function Gap(a: Cube, b: Cube, i: nat): real
    requires Valid(a) && Valid(b)
  {
    if Hi(a, i) < Lo(b, i) then Lo(b, i) - Hi(a, i)
    else if Hi(b, i) < Lo(a, i) then Lo(a, i) - Hi(b, i)
    else 0.0
  }

  lemma Distance1DIsGap(a1: real, a2: real, b1: real, b2: real)
    ensures Distance1D(a1, a2, b1, b2) ==
      if Max(a1, a2) < Min(b1, b2) then Min(b1, b2) - Max(a1, a2)
      else if Max(b1, b2) < Min(a1, a2) then Min(a1, a2) - Max(b1, b2) else 0.0
    ensures Distance1D(a1, a2, b1, b2) >= 0.0
  {
  }

  lemma GapSymmetric(a: Cube, b: Cube, i: nat)
    requires Valid(a) && Valid(b)
    ensures Gap(a, b, i) == Gap(b, a, i) >= 0.0
  {
  }

  /** A larger box is nearer. */
  lemma GapShrinks(k: Cube, c: Cube, q: Cube, i: nat)
    requires Valid(k) && Valid(c) && Valid(q) && CoversAt(k, c, i)
    ensures 0.0 <= Gap(k, q, i) <= Gap(c, q, i)
  {
  }

  function Gaps(a: Cube, b: Cube): nat -> real
    requires Valid(a) && Valid(b)
  {
    (i: nat) => Gap(a, b, i)
  }

  // -------------------------------------------------------- sums and maxima of gaps

  function Square(r: real): real { r * r }

  function Squares(f: nat -> real): nat -> real { (i: nat) => Square(f(i)) }

  function Sum(f: nat -> real, n: nat): real {
    if n == 0 then 0.0 else Sum(f, n - 1) + f(n - 1)
  }

  function Greatest(f: nat -> real, n: nat): real {
    if n == 0 then 0.0 else Max(Greatest(f, n - 1), f(n - 1))
  }

  /** The axes on which two boxes can be apart. */
  function Axes(a: Cube, b: Cube): nat { if a.dim < b.dim then b.dim else a.dim }

  lemma {:induction false} SumGrows(f: nat -> real, g: nat -> real, m: nat, n: nat)
    requires m <= n && (forall i: nat :: i < n ==> 0.0 <= f(i) <= g(i)) && forall i: nat :: m <= i < n ==> f(i) == 0.0
    ensures Sum(f, n) <= Sum(g, m)
  {
    if n == 0 {
    } else {
      if m == n {
        SumGrows(f, g, m - 1, n - 1);
      } else {
        SumGrows(f, g, m, n - 1);
      }
    }
  }

  lemma {:induction false} GreatestGrows(f: nat -> real, g: nat -> real, m: nat, n: nat)
    requires m <= n && (forall i: nat :: i < n ==> 0.0 <= f(i) <= g(i)) && forall i: nat :: m <= i < n ==> f(i) == 0.0
    ensures 0.0 <= Greatest(f, n) <= Greatest(g, m)
  {
    if n == 0 {
    } else {
      if m == n {
        GreatestGrows(f, g, m - 1, n - 1);
      } else {
        GreatestGrows(f, g, m, n - 1);
      }
    }
  }

  lemma SquareAt(f: nat -> real, i: nat, e: real)
    requires e == f(i)
    ensures Sum(Squares(f), i + 1) == Sum(Squares(f), i) + Square(e)
  {
  }

  lemma SquareGrows(a: real, b: real)
    requires 0.0 <= a <= b
    ensures 0.0 <= Square(a) <= Square(b)
  {
    assert a * a <= a * b <= b * b;
  }

  // ------------------------------------------------------------- the distance loops

  /** The coordinates of `b` on axis `i`, zero where it has none. */
  function Corners(b: Cube, i: nat): (real, real)
    requires Valid(b)
  {
    if i < b.dim then (LowerLeft(b, i), UpperRight(b, i)) else (0.0, 0.0)
  }

  lemma AxisDistance(a: Cube, b: Cube, i: nat)
    requires Valid(a) && Valid(b) && i < a.dim
    ensures Distance1D(LowerLeft(a, i), UpperRight(a, i), Corners(b, i).0, Corners(b, i).1) == Gap(a, b, i) >= 0.0
  {
    Distance1DIsGap(LowerLeft(a, i), UpperRight(a, i), Corners(b, i).0, Corners(b, i).1);
  }

  function Abs(r: real): real { if r < 0.0 then -r else r }

  /** Larger box first, as all three distances arrange it. */
  method Arrange(a: Cube, b: Cube) returns (large: Cube, small: Cube)
    requires Valid(a) && Valid(b)
    ensures Valid(large) && Valid(small) && small.dim <= large.dim == Axes(a, b)
    ensures (large, small) == (a, b) || (large, small) == (b, a)
    ensures forall i: nat :: Gap(large, small, i) == Gaps(a, b)(i)
  {
    forall i: nat
      ensures Gap(b, a, i) == Gap(a, b, i)
    {
      GapSymmetric(a, b, i);
    }
    if a.dim < b.dim {
      return b, a;
    }
    return a, b;
  }

  /** `distance_taxicab`. */
  method Taxicab(a: Cube, b: Cube) returns (d: real)
    requires Valid(a) && Valid(b)
    ensures d == Sum(Gaps(a, b), Axes(a, b))
  {
    var large, small := Arrange(a, b);
    d := 0.0;
    for i := 0 to large.dim
      invariant d == Sum(Gaps(a, b), i)
    {
      AxisDistance(large, small, i);
      var (b1, b2) := Corners(small, i);
      d := d + Abs(Distance1D(LowerLeft(large, i), UpperRight(large, i), b1, b2));
    }
  }

  /** `cube_distance` before the square root is taken. */
  method EuclidSquared(a: Cube, b: Cube) returns (d: real)
    requires Valid(a) && Valid(b)
    ensures d == Sum(Squares(Gaps(a, b)), Axes(a, b))
  {
    var large, small := Arrange(a, b);
    d := 0.0;
    for i := 0 to large.dim
      invariant d == Sum(Squares(Gaps(a, b)), i)
    {
      AxisDistance(large, small, i);
      var (b1, b2) := Corners(small, i);
      var e := Distance1D(LowerLeft(large, i), UpperRight(large, i), b1, b2);
      SquareAt(Gaps(a, b), i, e);
      d := d + Square(e);
    }
  }

  /** `distance_chebyshev`. */
  method Chebyshev(a: Cube, b: Cube) returns (d: real)
    requires Valid(a) && Valid(b)
    ensures d == Greatest(Gaps(a, b), Axes(a, b))
  {
    var large, small := Arrange(a, b);
    d := 0.0;
    for i := 0 to large.dim
      invariant d == Greatest(Gaps(a, b), i)
    {
      AxisDistance(large, small, i);
      var (b1, b2) := Corners(small, i);
      var e := Abs(Distance1D(LowerLeft(large, i), UpperRight(large, i), b1, b2));
      if e > d {
        d := e;
      }
    }
  }

  // ------------------------------------------------------------------ lower bounds

  lemma GapsBounded(k: Cube, c: Cube, q: Cube)
    requires Valid(k) && Valid(c) && Valid(q) && Covers(k, c)
    ensures Axes(c, q) <= Axes(k, q)
    ensures forall i: nat :: 0.0 <= Gaps(k, q)(i) <= Gaps(c, q)(i)
    ensures forall i: nat :: Axes(c, q) <= i ==> Gaps(k, q)(i) == 0.0
  {
    forall i: nat
      ensures 0.0 <= Gap(k, q, i) <= Gap(c, q, i)
    {
      assert CoversAt(k, c, i);
      GapShrinks(k, c, q, i);
    }
  }

  /** In all three metrics a key is no farther from the query than a box it covers. */
  lemma DistanceBound(k: Cube, c: Cube, q: Cube)
    requires Valid(k) && Valid(c) && Valid(q) && Covers(k, c)
    ensures Sum(Gaps(k, q), Axes(k, q)) <= Sum(Gaps(c, q), Axes(c, q))
    ensures Greatest(Gaps(k, q), Axes(k, q)) <= Greatest(Gaps(c, q), Axes(c, q))
    ensures Sum(Squares(Gaps(k, q)), Axes(k, q)) <= Sum(Squares(Gaps(c, q)), Axes(c, q))
  {
    GapsBounded(k, c, q);
    SumGrows(Gaps(k, q), Gaps(c, q), Axes(c, q), Axes(k, q));
    GreatestGrows(Gaps(k, q), Gaps(c, q), Axes(c, q), Axes(k, q));
    SquaresBound(Gaps(k, q), Gaps(c, q), Axes(c, q), Axes(k, q));
  }

  lemma SquaresBound(f: nat -> real, g: nat -> real, m: nat, n: nat)
    requires m <= n && (forall i: nat :: 0.0 <= f(i) <= g(i)) && forall i: nat :: m <= i ==> f(i) == 0.0
    ensures Sum(Squares(f), n) <= Sum(Squares(g), m)
  {
    forall i: nat
      ensures 0.0 <= Squares(f)(i) <= Squares(g)(i)
    {
      SquareGrows(f(i), g(i));
    }
    SumGrows(Squares(f), Squares(g), m, n);
  }

  // ---------------------------------------------------------------- coordinates

  /** The coordinate part of `g_cube_distance`; nothing for the coordinate 0, which is an
      error. */
  function CoordDistance(c: Cube, coord: int, isLeaf: bool): Option<real>
    requires Valid(c)
  {
    if coord == 0 then None
    else
      var inverse := coord < 0;
      var n := if inverse then -coord else coord;
      var value :=
        if n <= 2 * c.dim then
          var index := (n - 1) / 2;
          var upper := (n - 1) % 2 == 1;
          if c.point then c.x[index]
          else if (if isLeaf then upper else inverse) then Max(c.x[index], c.x[index + c.dim])
          else Min(c.x[index], c.x[index + c.dim])
        else 0.0;
      Some(if inverse then -value else value)
  }

  /** The bound of axis `i` that a coordinate number selects. */
  function Bound(c: Cube, i: nat, upper: bool): real
    requires Valid(c)
  {
    if upper then Hi(c, i) else Lo(c, i)
  }

  lemma CoordMeaning(c: Cube, coord: int, isLeaf: bool)
    requires Valid(c) && coord != 0
    ensures
      var n := if coord < 0 then -coord else coord;
      var value := Bound(c, (n - 1) / 2, if isLeaf then (n - 1) % 2 == 1 else coord < 0);
      CoordDistance(c, coord, isLeaf) == Some(if coord < 0 then -value else value)
  {
  }

  /** Ordering by a coordinate, in either direction: the key's value bounds the leaf's. */
  lemma CoordBound(k: Cube, c: Cube, coord: int)
    requires Valid(k) && Valid(c) && Covers(k, c) && coord != 0
    ensures CoordDistance(k, coord, false).Some? && CoordDistance(c, coord, true).Some?
    ensures CoordDistance(k, coord, false).value <= CoordDistance(c, coord, true).value
  {
    var n := if coord < 0 then -coord else coord;
    assert CoversAt(k, c, (n - 1) / 2);
    CoordMeaning(k, coord, false);
    CoordMeaning(c, coord, true);
  }

  // --------------------------------------------------------------------- trees

  /** An index: every key covers the keys below it, as unions do. */
  datatype Tree = Leaf(cube: Cube) | Node(key: Cube, children: seq<Tree>)

  function KeyOf(t: Tree): Cube { if t.Leaf? then t.cube else t.key }

  ghost predicate WellBuilt(t: Tree) {
    Valid(KeyOf(t)) &&
    (t.Node? ==> forall u | u in t.children :: WellBuilt(u) && Covers(t.key, KeyOf(u)))
  }

  predicate Below(c: Cube, t: Tree) {
    match t
    case Leaf(d) => c == d
    case Node(_, children) => exists u | u in children :: Below(c, u)
  }

  lemma {:induction false} RootCovers(t: Tree, c: Cube)
    requires WellBuilt(t) && Below(c, t)
    ensures Valid(c) && Covers(KeyOf(t), c)
    decreases t
  {
    if t.Node? {
      var u :| u in t.children && Below(c, u);
      RootCovers(u, c);
      CoversTransitive(t.key, KeyOf(u), c);
    }
  }

  /** At every height: distances and coordinates of a key are lower bounds for what is
      below, and no leaf that answers a query by overlap, equality or containment is
      turned down on the way. */
  lemma TreeBounds(t: Tree, c: Cube, q: Cube, coord: int, s: Strategy)
    requires WellBuilt(t) && Below(c, t) && Valid(q) && coord != 0 && !s.ByContained?
    ensures Valid(c)
    ensures var k := KeyOf(t); CoordDistance(k, coord, false).value <= CoordDistance(c, coord, true).value
    ensures var k := KeyOf(t); Sum(Gaps(k, q), Axes(k, q)) <= Sum(Gaps(c, q), Axes(c, q))
    ensures var k := KeyOf(t); Greatest(Gaps(k, q), Axes(k, q)) <= Greatest(Gaps(c, q), Axes(c, q))
    ensures var k := KeyOf(t); Sum(Squares(Gaps(k, q)), Axes(k, q)) <= Sum(Squares(Gaps(c, q)), Axes(c, q))
    ensures LeafConsistent(c, q, s) ==> InternalConsistent(KeyOf(t), q, s)
  {
    RootCovers(t, c);
    DistanceBound(KeyOf(t), c, q);
    CoordBound(KeyOf(t), c, coord);
    if LeafConsistent(c, q, s) {
      KeyNotTurnedDown(KeyOf(t), c, q, s);
    }
  }
}
