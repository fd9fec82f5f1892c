/** The random number generator of the Bloom access method (contrib/bloom/blutils.c): Schrage's way
    of computing 16807 * x mod (2^31 - 1) in 32-bit signed arithmetic. */
module BloomRand {
  import opened Machine

  const MODULUS: int := 0x7fff_ffff
  const MULTIPLIER: int := 16807
  const INVERSE: int := 1407677000

  /** C division and remainder truncate towards zero. */
  function CDiv(a: int, b: int): int
    requires b > 0
  {
    if a >= 0 then a / b else -((-a) / b)
  }

  function CMod(a: int, b: int): int
    requires b > 0
  {
    if a >= 0 then a % b else -((-a) % b)
  }

  /** The generator's successor function. */
  function Successor(x: int): int { (MULTIPLIER * x) % MODULUS }

  function Predecessor(y: int): int { (INVERSE * y) % MODULUS }

  /** The state mySrand leaves for a seed. */
  function Seeded(seed: nat): int { CMod(ToInt32(seed), 0x7fff_fffe) + 1 }

  class Generator {
    var next: int

    constructor ()
      ensures next == 0
    {
      next := 0;
    }

    /** myRand: no intermediate value leaves the int32 range, whatever the state. */
    method MyRand() returns (r: int)
      requires IsInt32(next)
      modifies this
      ensures next == Successor(old(next)) && r == next - 1
      ensures 0 <= next < MODULUS
    {
      var hi := CDiv(next, 127773);
      var lo := CMod(next, 127773);
      assert IsInt32(16807 * lo) && IsInt32(2836 * hi);
      var x := 16807 * lo - 2836 * hi;
      assert IsInt32(x);
      assert 16807 * next == MODULUS * hi + x;
      ghost var k := hi;
      if x < 0 {
        x := x + 0x7fffffff;
        k := k - 1;
      }
      SameResidue(16807 * next, k, x);
      next := x;
      r := x - 1;
    }

    /** mySrand */
    method MySrand(seed: nat)
      requires seed < 0x1_0000_0000
      modifies this
      ensures next == Seeded(seed) && IsInt32(next)
    {
      next := ToInt32(seed);
      next := CMod(next, 0x7fff_fffe) + 1;
    }
  }

  lemma SameResidue(a: int, k: int, x: int)
    requires 0 <= x < MODULUS && a == MODULUS * k + x
    ensures a % MODULUS == x
  {
  }

  /** On 1 .. 2^31 - 2 the generator is a permutation: each step stays in the range and can be undone,
      and each value is the step of another. */
  lemma StepUndone(x: int)
    requires 1 <= x < MODULUS
    ensures 1 <= Successor(x) < MODULUS && Predecessor(Successor(x)) == x
  {
    var q, y := (MULTIPLIER * x) / MODULUS, Successor(x);
    assert MULTIPLIER * x == MODULUS * q + y;
    SameResidue(INVERSE * y, 11017 * x - INVERSE * q, x);
  }

  lemma StepReached(y: int)
    requires 1 <= y < MODULUS
    ensures 1 <= Predecessor(y) < MODULUS && Successor(Predecessor(y)) == y
  {
    var q, x := (INVERSE * y) / MODULUS, Predecessor(y);
    assert INVERSE * y == MODULUS * q + x;
    SameResidue(MULTIPLIER * x, 11017 * y - MULTIPLIER * q, y);
  }

  /** A step from a state that is no multiple of the modulus lands in 1 .. 2^31 - 2, and 0 stays 0. */
  lemma StepInRange(x: int)
    requires -MODULUS < x < MODULUS
    ensures 0 <= Successor(x) < MODULUS
    ensures Successor(x) == 0 <==> x == 0
  {
    if x < 0 {
      StepUndone(x + MODULUS);
      var y := Successor(x + MODULUS);
      var k := (MULTIPLIER * (x + MODULUS)) / MODULUS;
      assert MULTIPLIER * (x + MODULUS) == MODULUS * k + y;
      SameResidue(MULTIPLIER * x, k - MULTIPLIER, y);
    } else if x > 0 {
      StepUndone(x);
    }
  }

  /** The seeds that leave the state at 0, outside the range the comments promise, are these two. */
  lemma BadSeeds(seed: nat)
    requires seed < 0x1_0000_0000
    ensures -MODULUS < Seeded(seed) < MODULUS
    ensures Seeded(seed) == 0 <==> seed == 0xFFFF_FFFF || seed == 0x8000_0001
  {
  }
}
