/** The pseudo-random generator: Schrage's division-splitting step for a multiplicative generator. */
module Rand {
  import opened Numbers

  const MODULUS: nat := 0x7FFF_FFFF
  const FACTOR: nat := 16807
  const QUOTIENT: nat := 127773
  const REST: nat := 2836
  const INVERSE: nat := 1407677000
  const ZERO_SEED: nat := 123459876
  const RAND_MAX: nat := 0x7FFF_FFFD
  const UINTS: nat := 0x1_0000_0000
  const INT_MIN: int := -0x8000_0000
  const INT_MAX: int := 0x7FFF_FFFF

  /** A value of the source's signed int, computed without overflow. */
  type Int = x: int | INT_MIN <= x <= INT_MAX

  /** One step of the ideal generator. */
  function Step(x: nat): (y: nat)
    ensures y < MODULUS
  {
    FACTOR * x % MODULUS
  }

  function Power(b: nat, k: nat): nat {
    if k == 0 then 1 else b * Power(b, k - 1)
  }

  class Generator {
    var next: nat

    ghost predicate Valid()
      reads this
    {
      next < UINTS
    }

    constructor ()
      ensures Valid() && next == 1
    {
      next := 1;
    }

    method Seed(seed: nat)
      requires seed < UINTS
      modifies this
      ensures Valid() && next == seed
    {
      next := seed;
    }

    /** Steps the generator; no intermediate value leaves the range of a signed int. */
    method Next() returns (r: nat)
      requires Valid()
      modifies this
      ensures Valid() && next == Step(if old(next) == 0 then ZERO_SEED else old(next))
      ensures r <= RAND_MAX && r == if next == MODULUS - 1 then 0 else next
    {
      if next == 0 { next := ZERO_SEED; }
      Split(next);
      var hi: Int := next / QUOTIENT;
      var lo: Int := next % QUOTIENT;
      var low: Int := FACTOR * lo;
      var high: Int := REST * hi;
      var x: Int := low - high;
      Schrage(next, hi, lo);
      if x < 0 { x := x + MODULUS; }
      next := x;
      r := next % (RAND_MAX + 1);
    }
  }

  lemma Split(n: nat)
    requires n < UINTS
    ensures n / QUOTIENT <= 33614 && n % QUOTIENT < QUOTIENT && n == QUOTIENT * (n / QUOTIENT) + n % QUOTIENT
  {
  }

  /** The split computation is the modular product. */
  lemma Schrage(n: nat, hi: int, lo: int)
    requires 0 <= hi <= 33614 && 0 <= lo < QUOTIENT && n == QUOTIENT * hi + lo
    ensures var x := FACTOR * lo - REST * hi;
            -0x7FFF_FFFF < x < MODULUS && Step(n) == if x < 0 then x + MODULUS else x
  {
    var x := FACTOR * lo - REST * hi;
    assert FACTOR * n == x + MODULUS * hi;
    if x < 0 { Remainder(x + MODULUS, hi - 1); } else { Remainder(x, hi); }
  }

  lemma Remainder(y: int, t: int)
    requires 0 <= y < MODULUS
    ensures (y + MODULUS * t) % MODULUS == y
  {
    Commute(MODULUS, t);
    DivUnique(y + MODULUS * t, MODULUS, t, y);
  }

  function Back(y: nat): (x: nat)
    ensures x < MODULUS
  {
    INVERSE * y % MODULUS
  }

  /** Each step can be undone, so it permutes the numbers below the modulus and keeps zero apart. */
  lemma StepPermutes(x: nat)
    requires x < MODULUS
    ensures Back(Step(x)) == x && Step(Back(x)) == x
    ensures Step(x) == 0 <==> x == 0
  {
    Undo(x, FACTOR, INVERSE);
    Undo(x, INVERSE, FACTOR);
  }

  lemma Undo(x: nat, a: nat, b: nat)
    requires x < MODULUS && a * b == 1 + MODULUS * 11017
    ensures b * (a * x % MODULUS) % MODULUS == x
  {
    var q := a * x / MODULUS;
    var y := a * x % MODULUS;
    assert a * x == MODULUS * q + y;
    calc {
      b * y;
      b * (a * x - MODULUS * q);
      { Spread(b, a, x, q); }
      (a * b) * x - MODULUS * (b * q);
      (1 + MODULUS * 11017) * x - MODULUS * (b * q);
      { Gather(x, b * q); }
      x + MODULUS * (11017 * x - b * q);
    }
    Remainder(x, 11017 * x - b * q);
  }

  lemma Spread(b: nat, a: nat, x: nat, q: nat)
    ensures b * (a * x - MODULUS * q) == (a * b) * x - MODULUS * (b * q)
  {
    assert b * (a * x - MODULUS * q) == b * (a * x) - b * (MODULUS * q);
    assert b * (a * x) == (a * b) * x;
  }

  lemma Gather(x: nat, z: int)
    ensures (1 + MODULUS * 11017) * x - MODULUS * z == x + MODULUS * (11017 * x - z)
  {
  }

  /** The state after `k` steps. */
  function After(seed: nat, k: nat): nat {
    if k == 0 then seed else Step(After(seed, k - 1))
  }

  /** From a seed in range, `k` steps give the seed times the k-th power of the factor, and never zero. */
  lemma {:induction false} AfterIsPower(seed: nat, k: nat)
    requires 0 < seed < MODULUS
    ensures 0 < After(seed, k) < MODULUS && After(seed, k) == Power(FACTOR, k) * seed % MODULUS
  {
    if k > 0 {
      AfterIsPower(seed, k - 1);
      StepPermutes(After(seed, k - 1));
      var p := Power(FACTOR, k - 1) * seed;
      ModMul(p, FACTOR, MODULUS);
      Commute(p % MODULUS, FACTOR);
      Commute(p, FACTOR);
      assert FACTOR * p == Power(FACTOR, k) * seed;
    }
  }
}
