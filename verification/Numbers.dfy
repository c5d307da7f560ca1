/** Products, quotients and powers of two: the arithmetic the other modules share. */
module Numbers {
  lemma Assoc(a: int, b: int, c: int)
    ensures (a * b) * c == a * (b * c)
  {
  }

  lemma Commute(a: int, b: int)
    ensures a * b == b * a
  {
  }

  lemma Distribute(a: int, b: int, c: int)
    ensures (a + b) * c == a * c + b * c
  {
  }

  lemma NotNegative(a: int, b: int)
    requires a >= 0 && b >= 0
    ensures a * b >= 0
  {
  }

  lemma Positive(a: int, b: int)
    requires a > 0 && b > 0
    ensures a * b > 0
  {
  }

  /** Products keep the order of their first factors. */
  lemma MulMonotone(a: int, b: int, c: int)
    requires a <= b && c >= 0
    ensures a * c <= b * c
  {
    NotNegative(b - a, c);
    Distribute(a, b - a, c);
  }

  /** Quotient and remainder are the only ones. */
  lemma DivUnique(x: int, m: int, q: int, r: int)
    requires m > 0 && x == q * m + r && 0 <= r < m
    ensures x / m == q && x % m == r
  {
    var p := x / m;
    assert x == p * m + x % m by { Commute(p, m); }
    if p < q {
      MulMonotone(p + 1, q, m);
      Distribute(p, 1, m);
    } else if q < p {
      MulMonotone(q + 1, p, m);
      Distribute(q, 1, m);
    }
  }

  lemma DivRange(x: nat, m: nat)
    requires m > 0
    ensures x / m >= 0 && 0 <= x % m < m && x == (x / m) * m + x % m
  {
    Commute(x / m, m);
  }

  lemma DivBounds(y: nat, b: nat)
    requires b > 0
    ensures (y / b) * b <= y < (y / b + 1) * b
  {
    DivRange(y, b);
    Distribute(y / b, 1, b);
  }

  lemma DivIs(y: nat, q: nat, b: nat)
    requires b > 0 && q * b <= y < (q + 1) * b
    ensures y / b == q
  {
    Distribute(q, 1, b);
    DivUnique(y, b, q, y - q * b);
  }

  lemma MulMod(q: nat, b: nat)
    requires b > 0
    ensures (q * b) % b == 0
  {
    DivUnique(q * b, b, q, 0);
  }

  lemma Regroup(a: int, b: int, s: int, t: int, r: int)
    requires a > 0 && b > 0 && 0 <= r < a && 0 <= t < b
    ensures (s * b + t) * a + r == s * (a * b) + (t * a + r) && a * b > 0 && 0 <= t * a + r < a * b
  {
    Distribute(s * b, t, a);
    Assoc(s, b, a);
    Commute(a, b);
    Positive(a, b);
    NotNegative(t, a);
    MulMonotone(t + 1, b, a);
    Distribute(t, 1, a);
  }

  lemma DivDiv(x: nat, a: nat, b: nat)
    requires a > 0 && b > 0
    ensures a * b > 0 && (x / a) / b == x / (a * b)
  {
    var q := x / a;
    DivRange(x, a);
    DivRange(q, b);
    Regroup(a, b, q / b, q % b, x % a);
    DivUnique(x, a * b, q / b, q % b * a + x % a);
  }

  lemma ModMul(x: nat, a: nat, m: nat)
    requires m > 0
    ensures (x % m) * a % m == x * a % m
  {
    var q, y := x / m, (x % m) * a;
    DivRange(x, m);
    NotNegative(x % m, a);
    DivRange(y, m);
    Distribute(q * m, x % m, a);
    Assoc(q, m, a);
    Commute(m, a);
    Assoc(q, a, m);
    Distribute(q * a, y / m, m);
    DivUnique(x * a, m, q * a + y / m, y % m);
  }

  // ----- Powers of two

  function Pow2(n: nat): (r: nat)
    ensures r >= 1
  {
    if n == 0 then 1 else 2 * Pow2(n - 1)
  }

  lemma Pow2Zero()
    ensures Pow2(0) == 1
  {
  }

  lemma {:induction false} Pow2Add(a: nat, b: nat)
    ensures Pow2(a + b) == Pow2(a) * Pow2(b)
  {
    if a > 0 {
      Pow2Add(a - 1, b);
      Assoc(2, Pow2(a - 1), Pow2(b));
    }
  }

  lemma {:induction false} Pow2Monotone(a: nat, b: nat)
    requires a <= b
    ensures Pow2(a) <= Pow2(b)
    ensures a < b ==> 2 * Pow2(a) <= Pow2(b)
  {
    if a < b { Pow2Monotone(a, b - 1); }
  }

  /** A number without its low `n` bits. */
  function Shr(x: nat, n: nat): nat {
    DivRange(x, Pow2(n));
    x / Pow2(n)
  }

  lemma ShrZero(x: nat)
    ensures Shr(x, 0) == x
  {
  }

  lemma ShrAdd(x: nat, a: nat, b: nat)
    ensures Shr(Shr(x, a), b) == Shr(x, a + b)
  {
    hide Pow2;
    DivDiv(x, Pow2(a), Pow2(b));
    Pow2Add(a, b);
  }
}
