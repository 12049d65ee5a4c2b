/** The bloom index's own random generator: Park and Miller's minimal standard
    generator, reseeded for every value that is signed.  The generator works in
    32-bit signed arithmetic; every intermediate value is shown to fit. */
module BloomRandom {
  import opened MachineWords

  const M: int := 0x7fff_ffff
  const SEED_MODULUS: int := 0x7fff_fffe

  predicate FitsInt32(x: int) { -TWO_31 <= x < TWO_31 }

  /** C's division and remainder, which truncate toward zero. */
  function TruncDiv(a: int, b: int): int
    requires b > 0
  {
    if a >= 0 then a / b else -((-a) / b)
  }

  function TruncMod(a: int, b: int): int
    requires b > 0
  {
    a - TruncDiv(a, b) * b
  }

  /** A 32-bit unsigned value stored into a signed variable. */
  function ToInt32(u: int): int
    requires 0 <= u < TWO_32
  {
    if u < TWO_31 then u else u - TWO_32
  }

  /** `mySrand`: the state after seeding. */
  function Seeded(seed: int): int
    requires 0 <= seed < TWO_32
  {
    TruncMod(ToInt32(seed), SEED_MODULUS) + 1
  }

  /** `myRand` up to its last line: the next state. */
  function Step(next: int): int {
    var hi := TruncDiv(next, 127773);
    var lo := TruncMod(next, 127773);
    var x := 16807 * lo - 2836 * hi;
    if x < 0 then x + M else x
  }

  /** States from which the generator runs as intended. */
  predicate Good(next: int) { next != 0 && -M < next < M }

  lemma SeededRange(seed: int)
    requires 0 <= seed < TWO_32
    ensures -M < Seeded(seed) < M
  {
  }

  /** The seeding arithmetic leaves the state 0, from which the generator never
      moves, for exactly two seeds; the signed remainder of both is -1. */
  lemma SeededGood(seed: int)
    requires 0 <= seed < TWO_32
    ensures Good(Seeded(seed)) <==> seed != 0xFFFF_FFFF && seed != 0x8000_0001
  {
    SeededRange(seed);
  }

  lemma StepParts(next: int)
    requires -M < next < M
    ensures var hi, lo := TruncDiv(next, 127773), TruncMod(next, 127773);
      && next == 127773 * hi + lo && -127773 < lo < 127773 && -16807 <= hi <= 16807
      && (next >= 0 ==> hi >= 0 && lo >= 0) && (next <= 0 ==> hi <= 0 && lo <= 0)
  {
  }

  /** No intermediate result of `myRand` overflows 32 bits. */
  lemma StepFits(next: int)
    requires -M < next < M
    ensures var hi, lo := TruncDiv(next, 127773), TruncMod(next, 127773);
      && FitsInt32(hi) && FitsInt32(lo) && FitsInt32(16807 * lo) && FitsInt32(2836 * hi)
      && FitsInt32(16807 * lo - 2836 * hi) && FitsInt32(Step(next))
  {
    StepParts(next);
  }

  /** The difference in `myRand` vanishes only in state 0.  The witness uses
      5790 * 2836 - 977 * 16807 == 1. */
  lemma DifferenceNonzero(lo: int, hi: int)
    requires 16807 * lo == 2836 * hi && -16807 <= hi <= 16807
    requires -M < 127773 * hi + lo < M
    ensures lo == 0 && hi == 0
  {
    var k := 5790 * lo - 977 * hi;
    assert lo == 2836 * k;
    assert hi == 16807 * k;
  }

  /** `myRand` multiplies the state by 16807 modulo 2^31 - 1, from every state that
      seeding can produce, negative ones included, and lands strictly between 0 and
      the modulus unless it started at 0. */
  lemma StepMultiplies(next: int)
    requires -M < next < M
    ensures Step(next) == (16807 * next) % M
    ensures if next == 0 then Step(next) == 0 else 1 <= Step(next) <= M - 1
  {
    StepParts(next);
    var hi, lo := TruncDiv(next, 127773), TruncMod(next, 127773);
    var x := 16807 * lo - 2836 * hi;
    assert 16807 * next == M * hi + x;
    if x == 0 {
      DifferenceNonzero(lo, hi);
    }
    ModUnique(16807 * next, if x < 0 then hi - 1 else hi, Step(next));
  }

  lemma ModUnique(a: int, q: int, r: int)
    requires a == M * q + r && 0 <= r < M
    ensures a % M == r
  {
  }

  /** The state after `n` steps. */
  function Iterate(next: int, n: nat): int
    decreases n
  {
    if n == 0 then next else Step(Iterate(next, n - 1))
  }

  /** Over any number of steps the generator stays in range and away from 0. */
  lemma {:induction false} IterateGood(next: int, n: nat)
    requires -M < next < M
    ensures -M < Iterate(next, n) < M
    ensures Good(next) ==> Good(Iterate(next, n)) && (n > 0 ==> Iterate(next, n) >= 1)
    ensures next == 0 ==> Iterate(next, n) == 0
    decreases n
  {
    if n == 0 {
    } else {
      IterateGood(next, n - 1);
      StepMultiplies(Iterate(next, n - 1));
    }
  }

  /** The `i`-th value that `myRand` returns after state `next`, reduced as
      `signValue` reduces it to a place in a signature of `size` bits. */
  function Draw(next: int, i: nat, size: int): int
    requires size > 0
  {
    TruncMod(Iterate(next, i + 1) - 1, size)
  }

  function Draws(next: int, n: nat, size: int): seq<int>
    requires size > 0
  {
    seq(n, (i: nat) => Draw(next, i, size))
  }

  /** From a good state every draw is a place in the signature, however many. */
  lemma DrawsInRange(next: int, n: nat, size: int)
    requires size > 0 && Good(next)
    ensures forall j :: 0 <= j < |Draws(next, n, size)| ==> 0 <= Draws(next, n, size)[j] < size
  {
    forall j | 0 <= j < n
      ensures 0 <= Draw(next, j, size) < size
    {
      IterateGood(next, j + 1);
      RemainderInRange(Iterate(next, j + 1) - 1, size);
    }
  }

  lemma RemainderInRange(x: int, size: int)
    requires x >= 0 && size > 0
    ensures 0 <= TruncMod(x, size) < size
  {
  }

  lemma MinusOneRemains(size: int)
    requires size > 1
    ensures TruncMod(-1, size) == -1
  {
    var q := 1 / size;
    assert 1 == size * q + 1 % size;
    assert q >= 1 ==> size * q >= size;
    assert q <= -1 ==> size * q <= -size;
  }

  /** From state 0 every draw is -1, which is no place in the signature. */
  lemma DrawFromZero(i: nat, size: int)
    requires size > 1
    ensures Draw(0, i, size) == -1
  {
    IterateGood(0, i + 1);
    MinusOneRemains(size);
  }

  /** The generator's global state. */
  class Generator {
    var next: int

    constructor (start: int)
      requires -M < start < M
      ensures next == start
    {
      next := start;
    }

    /** `mySrand`. */
    method Srand(seed: int)
      requires 0 <= seed < TWO_32
      modifies this
      ensures next == Seeded(seed) && -M < next < M
    {
      next := ToInt32(seed);
      next := TruncMod(next, SEED_MODULUS) + 1;
      SeededRange(seed);
    }

    /** `myRand`. */
    method Rand() returns (r: int)
      requires -M < next < M
      modifies this
      ensures next == Step(old(next)) && r == next - 1 && -M < next < M
    {
      StepMultiplies(next);
      var hi := TruncDiv(next, 127773);
      var lo := TruncMod(next, 127773);
      var x := 16807 * lo - 2836 * hi;
      if x < 0 {
        x := x + M;
      }
      next := x;
      return x - 1;
    }
  }
}
