/** Boxes of any dimension.  A dimension that a box does not have counts as zero;
    coordinates are reals. */
module Cubes {

  /** `NDBOX`: the lower left corner, then the upper right one unless the point flag is
      set.  The corners may be given in either order. */
  datatype Cube = Cube(point: bool, dim: nat, x: seq<real>)

  predicate Valid(c: Cube) { |c.x| == if c.point then c.dim else 2 * c.dim }

  function LowerLeft(c: Cube, i: nat): real
    requires Valid(c) && i < c.dim
  {
    c.x[i]
  }

  function UpperRight(c: Cube, i: nat): real
    requires Valid(c) && i < c.dim
  {
    if c.point then c.x[i] else c.x[i + c.dim]
  }

  function Min(a: real, b: real): real { if a < b then a else b }

  function Max(a: real, b: real): real { if a > b then a else b }

  /** The projection on axis `i`. */
  function Lo(c: Cube, i: nat): real
    requires Valid(c)
  {
    if i < c.dim then Min(LowerLeft(c, i), UpperRight(c, i)) else 0.0
  }

  function Hi(c: Cube, i: nat): (r: real)
    requires Valid(c)
    ensures Lo(c, i) <= r
  {
    if i < c.dim then Max(LowerLeft(c, i), UpperRight(c, i)) else 0.0
  }

  /** On every axis the projection of `k` covers that of `c`; `k` has no fewer dimensions. */
  ghost predicate Covers(k: Cube, c: Cube)
    requires Valid(k) && Valid(c)
  {
    c.dim <= k.dim && forall i: nat :: CoversAt(k, c, i)
  }

  predicate CoversAt(k: Cube, c: Cube, i: nat)
    requires Valid(k) && Valid(c)
  {
    Lo(k, i) <= Lo(c, i) && Hi(c, i) <= Hi(k, i)
  }

  lemma CoversTransitive(a: Cube, b: Cube, c: Cube)
    requires Valid(a) && Valid(b) && Valid(c) && Covers(a, b) && Covers(b, c)
    ensures Covers(a, c)
  {
    forall i: nat
      ensures CoversAt(a, c, i)
    {
      assert CoversAt(a, b, i) && CoversAt(b, c, i);
    }
  }

  // ---------------------------------------------------------------------- union

  /** The smallest box around two: on every axis, of the axes of either. */
  ghost predicate IsUnion(r: Cube, a: Cube, b: Cube)
    requires Valid(r) && Valid(a) && Valid(b)
  {
    && r.dim == (if a.dim < b.dim then b.dim else a.dim)
    && forall i: nat :: UnionAt(r, a, b, i)
  }

  predicate UnionAt(r: Cube, a: Cube, b: Cube, i: nat)
    requires Valid(r) && Valid(a) && Valid(b)
  {
    Lo(r, i) == Min(Lo(a, i), Lo(b, i)) && Hi(r, i) == Max(Hi(a, i), Hi(b, i))
  }

  /** `cube_union_v0`; `same` tells that both arguments are the same object. */
  method Union(a: Cube, b: Cube, same: bool) returns (r: Cube)
    requires Valid(a) && Valid(b) && (same ==> a == b)
    ensures Valid(r) && IsUnion(r, a, b)
  {
    if same {
      return a;
    }
    if a.dim < b.dim {
      r := UnionLarger(b, a);
      assert forall i: nat :: UnionAt(r, b, a, i) ==> UnionAt(r, a, b, i);
    } else {
      r := UnionLarger(a, b);
    }
  }

  /** The union with `a` having no fewer dimensions than `b`. */
  method UnionLarger(a: Cube, b: Cube) returns (r: Cube)
    requires Valid(a) && Valid(b) && b.dim <= a.dim
    ensures Valid(r) && r.dim == a.dim && forall i: nat :: UnionAt(r, a, b, i)
  {
    var x := new real[2 * a.dim](_ => 0.0);
    FillBoth(a, b, x);
    FillRest(a, b, x);
    r := Cube(false, a.dim, x[..]);
    FilledIsUnion(a, b, r);
    var isPoint := IsPoint(r);
    if isPoint {
      ShortenPoint(r);
      r := Cube(true, a.dim, r.x[..a.dim]);
    }
  }

  /** The axes of both boxes. */
  method FillBoth(a: Cube, b: Cube, x: array<real>)
    requires Valid(a) && Valid(b) && b.dim <= a.dim && x.Length == 2 * a.dim
    modifies x
    ensures Filled(a, b, x[..], b.dim)
  {
    for i := 0 to b.dim
      invariant Filled(a, b, x[..], i)
    {
      x[i] := Min(Min(LowerLeft(a, i), UpperRight(a, i)), Min(LowerLeft(b, i), UpperRight(b, i)));
      x[i + a.dim] := Max(Max(LowerLeft(a, i), UpperRight(a, i)), Max(LowerLeft(b, i), UpperRight(b, i)));
    }
  }

  /** The axes that only the larger box has. */
  method FillRest(a: Cube, b: Cube, x: array<real>)
    requires Valid(a) && Valid(b) && b.dim <= a.dim && x.Length == 2 * a.dim && Filled(a, b, x[..], b.dim)
    modifies x
    ensures Filled(a, b, x[..], a.dim)
  {
    for i := b.dim to a.dim
      invariant Filled(a, b, x[..], i)
    {
      x[i] := Min(0.0, Min(LowerLeft(a, i), UpperRight(a, i)));
      x[i + a.dim] := Max(0.0, Max(LowerLeft(a, i), UpperRight(a, i)));
    }
  }

  /** The first `n` axes of the result are there. */
  predicate Filled(a: Cube, b: Cube, x: seq<real>, n: nat)
    requires Valid(a) && Valid(b)
  {
    |x| == 2 * a.dim && n <= a.dim &&
    forall i :: 0 <= i < n ==> x[i] == Min(Lo(a, i), Lo(b, i)) && x[i + a.dim] == Max(Hi(a, i), Hi(b, i))
  }

  lemma FilledIsUnion(a: Cube, b: Cube, r: Cube)
    requires Valid(a) && Valid(b) && b.dim <= a.dim == r.dim && !r.point && Filled(a, b, r.x, a.dim)
    ensures Valid(r) && forall i: nat :: UnionAt(r, a, b, i)
  {
    forall i: nat
      ensures UnionAt(r, a, b, i)
    {
      if i < a.dim {
        assert r.x[i] == Min(Lo(a, i), Lo(b, i)) <= Max(Hi(a, i), Hi(b, i)) == r.x[i + a.dim];
      }
    }
  }

  /** `cube_is_point_internal` on a box without the flag. */
  method IsPoint(c: Cube) returns (p: bool)
    requires Valid(c)
    ensures p <==> c.point || forall i :: 0 <= i < c.dim ==> LowerLeft(c, i) == UpperRight(c, i)
  {
    if c.point {
      return true;
    }
    for i := 0 to c.dim
      invariant forall j :: 0 <= j < i ==> LowerLeft(c, j) == UpperRight(c, j)
    {
      if LowerLeft(c, i) != UpperRight(c, i) {
        return false;
      }
    }
    return true;
  }

  /** Dropping the second corner of a box that is a point changes no projection. */
  lemma ShortenPoint(c: Cube)
    requires Valid(c) && !c.point && forall i :: 0 <= i < c.dim ==> LowerLeft(c, i) == UpperRight(c, i)
    ensures
      var p := Cube(true, c.dim, c.x[..c.dim]);
      Valid(p) && forall i: nat :: Lo(p, i) == Lo(c, i) && Hi(p, i) == Hi(c, i)
  {
  }

  lemma UnionCovers(r: Cube, a: Cube, b: Cube)
    requires Valid(r) && Valid(a) && Valid(b) && IsUnion(r, a, b)
    ensures Covers(r, a) && Covers(r, b)
  {
    forall i: nat
      ensures CoversAt(r, a, i) && CoversAt(r, b, i)
    {
      assert UnionAt(r, a, b, i);
    }
  }

  /** `k` covers the first `n` boxes. */
  ghost predicate CoversAll(k: Cube, cs: seq<Cube>, n: nat)
    requires Valid(k) && n <= |cs| && forall j :: 0 <= j < |cs| ==> Valid(cs[j])
  {
    forall j :: 0 <= j < n ==> Covers(k, cs[j])
  }

  /** It is the smallest box that does. */
  ghost predicate Smallest(r: Cube, cs: seq<Cube>, n: nat)
    requires Valid(r) && n <= |cs| && forall j :: 0 <= j < |cs| ==> Valid(cs[j])
  {
    CoversAll(r, cs, n) && forall k | Valid(k) && CoversAll(k, cs, n) :: Covers(k, r)
  }

  lemma SmallestGrows(r: Cube, cs: seq<Cube>, n: nat, r': Cube)
    requires n < |cs| && forall j :: 0 <= j < |cs| ==> Valid(cs[j])
    requires Valid(r) && Smallest(r, cs, n) && Valid(r') && IsUnion(r', r, cs[n])
    ensures Smallest(r', cs, n + 1)
  {
    UnionCovers(r', r, cs[n]);
    forall j | 0 <= j < n + 1
      ensures Covers(r', cs[j])
    {
      if j < n {
        CoversTransitive(r', r, cs[j]);
      }
    }
    forall k | Valid(k) && CoversAll(k, cs, n + 1)
      ensures Covers(k, r')
    {
      assert CoversAll(k, cs, n) && Covers(k, cs[n]) && Covers(k, r);
      forall i: nat
        ensures CoversAt(k, r', i)
      {
        assert CoversAt(k, r, i) && CoversAt(k, cs[n], i) && UnionAt(r', r, cs[n], i);
      }
    }
  }

  /** `g_cube_union`, which is given two entries or more. */
  method UnionAll(cs: seq<Cube>) returns (r: Cube)
    requires |cs| >= 2 && forall j :: 0 <= j < |cs| ==> Valid(cs[j])
    ensures Valid(r) && Smallest(r, cs, |cs|)
  {
    r := cs[0];
    assert Covers(r, r);
    for i := 1 to |cs|
      invariant Valid(r) && Smallest(r, cs, i)
    {
      var u := Union(r, cs[i], false);
      SmallestGrows(r, cs, i, u);
      r := u;
    }
  }

  // ------------------------------------------------------------ the three predicates

  predicate OverlapAt(a: Cube, b: Cube, i: nat)
    requires Valid(a) && Valid(b)
  {
    Lo(a, i) <= Hi(b, i) && Lo(b, i) <= Hi(a, i)
  }

  /** The boxes have a point in common. */
  ghost predicate Overlap(a: Cube, b: Cube)
    requires Valid(a) && Valid(b)
  {
    forall i: nat :: OverlapAt(a, b, i)
  }

  /** `cube_overlap_v0`. */
  method Overlaps(a: Cube, b: Cube) returns (r: bool)
    requires Valid(a) && Valid(b)
    ensures r <==> Overlap(a, b)
  {
    if a.dim < b.dim {
      r := OverlapsLarger(b, a);
      assert forall i: nat :: OverlapAt(a, b, i) <==> OverlapAt(b, a, i);
    } else {
      r := OverlapsLarger(a, b);
    }
  }

  method OverlapsLarger(a: Cube, b: Cube) returns (r: bool)
    requires Valid(a) && Valid(b) && b.dim <= a.dim
    ensures r <==> Overlap(a, b)
  {
    var i := 0;
    while i < a.dim
      invariant 0 <= i <= a.dim && forall j: nat :: j < i ==> OverlapAt(a, b, j)
    {
      var (lo, hi) := if i < b.dim
                      then (Min(LowerLeft(b, i), UpperRight(b, i)), Max(LowerLeft(b, i), UpperRight(b, i)))
                      else (0.0, 0.0);
      if Min(LowerLeft(a, i), UpperRight(a, i)) > hi || Max(LowerLeft(a, i), UpperRight(a, i)) < lo {
        assert !OverlapAt(a, b, i);
        return false;
      }
      i := i + 1;
    }
    return true;
  }

  /** What `cube_contains_v0` decides: axes that only `b` has must be zero; axes that only
      `a` has are disregarded. */
  predicate ContainsAt(a: Cube, b: Cube, i: nat)
    requires Valid(a) && Valid(b)
  {
    if i < a.dim && i < b.dim then Lo(a, i) <= Lo(b, i) && Hi(b, i) <= Hi(a, i)
    else i < b.dim ==> LowerLeft(b, i) == 0.0 && UpperRight(b, i) == 0.0
  }

  ghost predicate Contains(a: Cube, b: Cube)
    requires Valid(a) && Valid(b)
  {
    forall i: nat :: ContainsAt(a, b, i)
  }

  /** `cube_contains_v0`. */
  method DoesContain(a: Cube, b: Cube) returns (r: bool)
    requires Valid(a) && Valid(b)
    ensures r <==> Contains(a, b)
  {
    var i := a.dim;
    while i < b.dim
      invariant a.dim <= i && (a.dim < b.dim ==> i <= b.dim) && forall j: nat :: a.dim <= j < i ==> ContainsAt(a, b, j)
    {
      if LowerLeft(b, i) != 0.0 || UpperRight(b, i) != 0.0 {
        assert !ContainsAt(a, b, i);
        return false;
      }
      i := i + 1;
    }
    i := 0;
    while i < a.dim && i < b.dim
      invariant 0 <= i <= a.dim && forall j: nat :: j < i ==> ContainsAt(a, b, j)
    {
      if Lo(a, i) > Lo(b, i) || Hi(a, i) < Hi(b, i) {
        assert !ContainsAt(a, b, i);
        return false;
      }
      i := i + 1;
    }
    return true;
  }

  /** When `cube_cmp_v0` finds no difference: boxes of the same dimension with the same
      projections. */
  ghost predicate Same(a: Cube, b: Cube)
    requires Valid(a) && Valid(b)
  {
    a.dim == b.dim && forall i: nat :: Lo(a, i) == Lo(b, i) && Hi(a, i) == Hi(b, i)
  }

  // -------------------------------------------------------------- internal consistency

  datatype Strategy = ByOverlap | BySame | ByContains | ByContained

  ghost predicate LeafConsistent(c: Cube, q: Cube, s: Strategy)
    requires Valid(c) && Valid(q)
  {
    match s
    case ByOverlap => Overlap(c, q)
    case BySame => Same(c, q)
    case ByContains => Contains(c, q)
    case ByContained => Contains(q, c)
  }

  /** `g_cube_internal_consistent`. */
  ghost predicate InternalConsistent(k: Cube, q: Cube, s: Strategy)
    requires Valid(k) && Valid(q)
  {
    if s.BySame? || s.ByContains? then Contains(k, q) else Overlap(k, q)
  }

  /** A key that covers a leaf that answers the query by overlap, equality or containing
      it is never turned down. */
  lemma KeyNotTurnedDown(k: Cube, c: Cube, q: Cube, s: Strategy)
    requires Valid(k) && Valid(c) && Valid(q) && Covers(k, c) && !s.ByContained? && LeafConsistent(c, q, s)
    ensures InternalConsistent(k, q, s)
  {
    forall i: nat
      ensures s.ByOverlap? ==> OverlapAt(k, q, i)
      ensures !s.ByOverlap? ==> ContainsAt(k, q, i)
    {
      assert CoversAt(k, c, i);
      if s.ByOverlap? {
        assert OverlapAt(c, q, i);
      } else if s.ByContains? {
        assert ContainsAt(c, q, i);
      } else {
        assert Lo(c, i) == Lo(q, i) && Hi(c, i) == Hi(q, i);
      }
    }
  }

  /** The query's axes beyond those of the leaf include zero. */
  ghost predicate ZeroBeyond(q: Cube, dim: nat)
    requires Valid(q)
  {
    forall i: nat :: dim <= i ==> Lo(q, i) <= 0.0 <= Hi(q, i)
  }

  /** A leaf that is contained in the query is found under every key that covers it
      exactly when the query includes zero on the axes that the leaf lacks. */
  lemma ContainedExact(c: Cube, q: Cube)
    requires Valid(c) && Valid(q) && LeafConsistent(c, q, ByContained)
    ensures (forall k | Valid(k) && Covers(k, c) :: InternalConsistent(k, q, ByContained)) <==> ZeroBeyond(q, c.dim)
  {
    if ZeroBeyond(q, c.dim) {
      forall k | Valid(k) && Covers(k, c)
        ensures Overlap(k, q)
      {
        forall i: nat
          ensures OverlapAt(k, q, i)
        {
          assert CoversAt(k, c, i) && ContainsAt(q, c, i);
        }
      }
    } else {
      var i: nat :| c.dim <= i && !(Lo(q, i) <= 0.0 <= Hi(q, i));
      assert !OverlapAt(c, q, i);
      assert Covers(c, c);
      assert !InternalConsistent(c, q, ByContained);
    }
  }

  /** A one-dimensional point within a box that does not touch the first axis. */
  lemma ContainedLost()
    ensures
      var (c, q) := (Cube(true, 1, [1.0]), Cube(false, 2, [0.0, 5.0, 2.0, 6.0]));
      Valid(c) && Valid(q) && LeafConsistent(c, q, ByContained) && !InternalConsistent(c, q, ByContained)
  {
    var (c, q) := (Cube(true, 1, [1.0]), Cube(false, 2, [0.0, 5.0, 2.0, 6.0]));
    assert forall i: nat :: ContainsAt(q, c, i);
    assert !OverlapAt(c, q, 1);
  }
}
