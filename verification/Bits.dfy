/** Bitwise or and and on numbers. */
module Bits {
  import opened Numbers

  function BitOr(a: nat, b: nat): nat {
    if a == 0 && b == 0 then 0 else 2 * BitOr(a / 2, b / 2) + (if a % 2 == 1 || b % 2 == 1 then 1 else 0)
  }

  function BitAnd(a: nat, b: nat): nat {
    if a == 0 || b == 0 then 0 else 2 * BitAnd(a / 2, b / 2) + (if a % 2 == 1 && b % 2 == 1 then 1 else 0)
  }

  lemma {:induction false} OrZero(a: nat)
    ensures BitOr(a, 0) == a && BitOr(0, a) == a
  {
    if a > 0 { OrZero(a / 2); }
  }

  lemma OrHalves(a: nat, b: nat)
    ensures BitOr(a, b) / 2 == BitOr(a / 2, b / 2)
    ensures BitOr(a, b) % 2 == if a % 2 == 1 || b % 2 == 1 then 1 else 0
  {
  }

  lemma {:induction false} OrShr(a: nat, b: nat, n: nat)
    ensures Shr(BitOr(a, b), n) == BitOr(Shr(a, n), Shr(b, n))
  {
    hide BitOr, Shr;
    if n == 0 {
      ShrZero(a);
      ShrZero(b);
      ShrZero(BitOr(a, b));
    } else {
      OrHalves(a, b);
      OrShr(a / 2, b / 2, n - 1);
      ShrHalf(a, n);
      ShrHalf(b, n);
      ShrHalf(BitOr(a, b), n);
    }
  }

  lemma ShrHalf(x: nat, n: nat)
    requires n > 0
    ensures Shr(x, n) == Shr(x / 2, n - 1)
  {
    DivDiv(x, 2, Pow2(n - 1));
  }

  /** The low bits, one bit at a time. */
  lemma ModHalves(x: nat, n: nat)
    requires n > 0
    ensures x % Pow2(n) == 2 * (x / 2 % Pow2(n - 1)) + x % 2
  {
    var m := Pow2(n - 1);
    var q, r := x / 2 / m, x / 2 % m;
    DivRange(x / 2, m);
    Assoc(q, m, 2);
    Commute(m, 2);
    DivUnique(x, 2 * m, q, 2 * r + x % 2);
  }

  lemma {:induction false} OrMod(a: nat, b: nat, n: nat)
    ensures BitOr(a, b) % Pow2(n) == BitOr(a % Pow2(n), b % Pow2(n))
  {
    hide BitOr;
    if n == 0 {
      Pow2Zero();
      OrZero(0);
    } else {
      OrHalves(a, b);
      OrMod(a / 2, b / 2, n - 1);
      ModHalves(a, n);
      ModHalves(b, n);
      ModHalves(BitOr(a, b), n);
      hide Pow2;
      var x, y := a % Pow2(n), b % Pow2(n);
      assert x / 2 == a / 2 % Pow2(n - 1) && x % 2 == a % 2 && y / 2 == b / 2 % Pow2(n - 1) && y % 2 == b % 2;
      OrHalves(x, y);
    }
  }

  /** Bits below a place stay below it. */
  lemma OrBound(a: nat, b: nat, n: nat)
    requires a < Pow2(n) && b < Pow2(n)
    ensures BitOr(a, b) < Pow2(n)
  {
    OrMod(a, b, n);
  }

  lemma {:induction false} AndMask(x: nat, n: nat)
    ensures BitAnd(x, Pow2(n) - 1) == x % Pow2(n)
  {
    if n > 0 {
      AndMask(x / 2, n - 1);
      ModHalves(x, n);
      assert (Pow2(n) - 1) / 2 == Pow2(n - 1) - 1 && (Pow2(n) - 1) % 2 == 1;
    }
  }

  // ----- Bit fields

  lemma {:induction false} Doubled(b: nat, n: nat)
    requires n > 0
    ensures b * Pow2(n) == 2 * (b * Pow2(n - 1))
  {
    Assoc(b, 2, Pow2(n - 1));
    Commute(b, 2);
    Assoc(2, b, Pow2(n - 1));
  }

  /** Numbers without a common bit add up. */
  lemma {:induction false} OrAbove(a: nat, b: nat, n: nat)
    requires a < Pow2(n)
    ensures b * Pow2(n) >= 0 && BitOr(a, b * Pow2(n)) == a + b * Pow2(n)
  {
    NotNegative(b, Pow2(n));
    if n == 0 {
      OrZero(b);
    } else {
      var y := b * Pow2(n - 1);
      NotNegative(b, Pow2(n - 1));
      OrAbove(a / 2, b, n - 1);
      Doubled(b, n);
      hide BitOr, Pow2;
      OrHalves(a, 2 * y);
    }
  }

  /** A bit is set in one of the numbers or in both. */
  lemma {:induction false} OrBit(a: nat, b: nat, n: nat)
    ensures Shr(BitOr(a, b), n) % 2 == 1 <==> Shr(a, n) % 2 == 1 || Shr(b, n) % 2 == 1
  {
    hide BitOr, Shr;
    OrShr(a, b, n);
    OrHalves(Shr(a, n), Shr(b, n));
  }

  lemma {:induction false} AndBit(a: nat, b: nat, n: nat)
    ensures Shr(BitAnd(a, b), n) % 2 == 1 <==> Shr(a, n) % 2 == 1 && Shr(b, n) % 2 == 1
  {
    hide BitAnd, Shr;
    if n == 0 {
      ShrZero(a);
      ShrZero(b);
      ShrZero(BitAnd(a, b));
      AndHalves(a, b);
    } else {
      AndHalves(a, b);
      AndBit(a / 2, b / 2, n - 1);
      ShrHalf(a, n);
      ShrHalf(b, n);
      ShrHalf(BitAnd(a, b), n);
    }
  }

  lemma AndHalves(a: nat, b: nat)
    ensures BitAnd(a, b) / 2 == BitAnd(a / 2, b / 2)
    ensures BitAnd(a, b) % 2 == if a % 2 == 1 && b % 2 == 1 then 1 else 0
  {
  }
}
