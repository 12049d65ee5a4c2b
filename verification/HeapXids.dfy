/** Transaction ids in the heap verifier: a 32-bit id is widened to 64 bits relative to
    the next id to be assigned, and checked against the horizons. */
module HeapXids {
  import opened MachineWords

  const FIRST_NORMAL: int := 3

  predicate IsXid(x: int) { 0 <= x < TWO_32 }

  /** A 64-bit id that can be the next one: normal, with a normal low half. */
  predicate IsNext(next: int) { FIRST_NORMAL <= next < TWO_64 && next % TWO_32 >= FIRST_NORMAL }

  /** The difference of the low halves as a signed 32-bit number. */
  function Difference(xid: int, next: int): (d: int)
    ensures -TWO_31 <= d < TWO_31
  {
    var u := (next % TWO_32 - xid) % TWO_32;
    if u >= TWO_31 then u - TWO_32 else u
  }

  /** `FullTransactionIdFromXidAndCtx`. */
  function Widen(xid: int, next: int): int {
    if xid < FIRST_NORMAL then xid
    else
      var diff := Difference(xid, next);
      if diff > 0 && next - FIRST_NORMAL < diff then FIRST_NORMAL else (next - diff) % TWO_64
  }

  /** The id lies before the first epoch. */
  predicate BeforeTime(xid: int, next: int) { next - Difference(xid, next) < FIRST_NORMAL }

  lemma DifferenceCongruent(xid: int, next: int)
    requires IsXid(xid)
    ensures (next - Difference(xid, next)) % TWO_32 == xid
  {
    var (m, q) := (next % TWO_32, next / TWO_32);
    assert next == q * TWO_32 + m;
    var d := Difference(xid, next);
    assert d == m - xid || d == m - xid + TWO_32 || d == m - xid - TWO_32;
    assert next - d == q * TWO_32 + xid || next - d == (q - 1) * TWO_32 + xid || next - d == (q + 1) * TWO_32 + xid;
  }

  /** The id lies past the last 64-bit one. */
  predicate PastTime(xid: int, next: int) { next - Difference(xid, next) >= TWO_64 }

  /** A normal id is widened to an id congruent to it, except that one before the first
      epoch is clamped, which needs epoch 0.  That id is the nearest to the next one
      exactly when there is one so near: past the last 64-bit id the subtraction wraps.
      The result is always normal. */
  lemma WidenMeaning(xid: int, next: int)
    requires IsXid(xid) && xid >= FIRST_NORMAL && IsNext(next)
    ensures BeforeTime(xid, next) ==> Widen(xid, next) == FIRST_NORMAL && next < TWO_32
    ensures !BeforeTime(xid, next) ==> Widen(xid, next) % TWO_32 == xid
    ensures !BeforeTime(xid, next) ==> (-TWO_31 < Widen(xid, next) - next <= TWO_31 <==> !PastTime(xid, next))
    ensures PastTime(xid, next) ==> Widen(xid, next) < TWO_31
    ensures FIRST_NORMAL <= Widen(xid, next) < TWO_64
  {
    DifferenceCongruent(xid, next);
    var d := Difference(xid, next);
    if d <= 0 || next - FIRST_NORMAL >= d {
      WrapCongruent(next - d);
    }
  }

  /** Taking the low 64 bits keeps the low 32. */
  lemma WrapCongruent(x: int)
    requires 0 <= x < TWO_64 + TWO_64
    ensures x % TWO_64 % TWO_32 == x % TWO_32
    ensures x % TWO_64 == if x < TWO_64 then x else x - TWO_64
  {
    assert x >= TWO_64 ==> x == (x - TWO_64) + TWO_32 * TWO_32;
  }

  /** An id that wraps: it is four ahead of the next id and comes out as the oldest. */
  lemma WidenWraps()
    ensures IsXid(FIRST_NORMAL) && IsNext(TWO_64 - 1) && PastTime(FIRST_NORMAL, TWO_64 - 1)
    ensures Widen(FIRST_NORMAL, TWO_64 - 1) == FIRST_NORMAL
  {
    assert TWO_64 - 1 == (TWO_32 - 1) * TWO_32 + (TWO_32 - 1);
    assert (TWO_64 - 1) % TWO_32 == TWO_32 - 1;
    assert Difference(FIRST_NORMAL, TWO_64 - 1) == -4;
  }

  lemma MultipleOf(k: int)
    requires k % TWO_32 == 0 && -TWO_32 < k < TWO_32
    ensures k == 0
  {
  }

  lemma CongruentDiffer(a: int, b: int)
    requires a % TWO_32 == b % TWO_32
    ensures (a - b) % TWO_32 == 0
  {
    assert a - b == (a / TWO_32 - b / TWO_32) * TWO_32;
  }

  /** It is the only congruent 64-bit id within reach. */
  lemma WidenUnique(xid: int, next: int, f: int)
    requires IsXid(xid) && xid >= FIRST_NORMAL && IsNext(next)
    requires f % TWO_32 == xid && -TWO_31 < f - next <= TWO_31 && FIRST_NORMAL <= f < TWO_64
    ensures Widen(xid, next) == f
  {
    DifferenceCongruent(xid, next);
    var g := next - Difference(xid, next);
    CongruentDiffer(f, g);
    MultipleOf(f - g);
    WidenMeaning(xid, next);
    assert g % TWO_64 == g;
  }

  // ------------------------------------------------------------------ the horizons

  datatype Bounds = Invalid | InFuture | PrecedesClusterMin | PrecedesRelMin | Ok

  /** What a shared-memory read of the id range yields. */
  datatype Range = Range(next: int, oldestXid: int)

  predicate IsRange(r: Range) { IsNext(r.next) && IsXid(r.oldestXid) }

  /** The cached part of `HeapCheckContext`. */
  class Context {
    var next: int
    var oldest: int
    const relfrozen: int

    constructor (r: Range, relfrozenXid: int)
      requires IsRange(r) && IsXid(relfrozenXid)
      ensures next == r.next && oldest == Widen(r.oldestXid, r.next) && relfrozen == Widen(relfrozenXid, r.next)
    {
      next, oldest, relfrozen := r.next, Widen(r.oldestXid, r.next), Widen(relfrozenXid, r.next);
    }

    /** `update_cached_xid_range`. */
    method Update(r: Range)
      requires IsRange(r)
      modifies this
      ensures next == r.next && oldest == Widen(r.oldestXid, r.next)
    {
      next, oldest := r.next, Widen(r.oldestXid, r.next);
    }

    /** The bounds part of `get_xid_status`; `now` is the id range at the time. */
    method CheckBounds(xid: int, now: Range) returns (b: Bounds)
      requires IsXid(xid) && IsRange(now)
      modifies this
      ensures b.Invalid? <==> xid == 0
      ensures xid in {1, 2} ==> b == Ok
      ensures xid >= FIRST_NORMAL ==>
        (b == Ok <==> Widen(xid, next) < next && Widen(xid, next) >= oldest && Widen(xid, next) >= relfrozen)
      ensures b.InFuture? <==> xid >= FIRST_NORMAL && Widen(xid, next) >= next
      ensures b.PrecedesClusterMin? <==> xid >= FIRST_NORMAL && Widen(xid, next) < next && Widen(xid, next) < oldest
      ensures
        if xid < FIRST_NORMAL || old(oldest) <= Widen(xid, old(next)) < old(next)
        then next == old(next) && oldest == old(oldest)
        else next == now.next && oldest == Widen(now.oldestXid, now.next)
    {
      if xid == 0 {
        return Invalid;
      }
      if xid == 1 || xid == 2 {
        return Ok;
      }
      var fxid := Widen(xid, next);
      if !(oldest <= fxid && fxid < next) {
        Update(now);
        fxid := Widen(xid, next);
      }
      if next <= fxid {
        return InFuture;
      }
      if fxid < oldest {
        return PrecedesClusterMin;
      }
      if fxid < relfrozen {
        return PrecedesRelMin;
      }
      return Ok;
    }
  }

  /** Two ids that are in bounds compare as their widened forms, that is, the widening
      keeps the age: an id in bounds widens to the same value until the next id has
      moved on by half the 32-bit range. */
  lemma WidenStable(xid: int, next: int, later: int)
    requires IsXid(xid) && xid >= FIRST_NORMAL && IsNext(next) && IsNext(later)
    requires !BeforeTime(xid, next) && next <= later < Widen(xid, next) + TWO_31 && Widen(xid, next) < next
    ensures Widen(xid, later) == Widen(xid, next)
  {
    WidenMeaning(xid, next);
    WidenUnique(xid, later, Widen(xid, next));
  }
}
