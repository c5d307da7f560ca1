/** 64-bit registers as numbers: shifts, bitwise operations and bit fields. */
module ConstraintBits {
  import opened Numbers
  import opened Bits

  const MAX_SHIFT: nat := 16
  const REG_SIZE: nat := 64
  const WORD: nat := 0x1_0000_0000_0000_0000

  datatype Result<+T> = Ok(value: T) | Panic

  lemma Pow2Values()
    ensures Pow2(16) == 65536 && Pow2(64) == WORD
  {
    assert Pow2(8) == 256;
    Pow2Add(8, 8);
    Pow2Add(16, 16);
    Pow2Add(32, 32);
  }

  // ----- Chunked shifts

  lemma ShiftStep(val: nat, done: nat, k: nat)
    ensures (val * Pow2(done) % WORD) * Pow2(k) % WORD == val * Pow2(done + k) % WORD
  {
    hide Pow2;
    ModMul(val * Pow2(done), Pow2(k), WORD);
    Pow2Add(done, k);
    Assoc(val, Pow2(done), Pow2(k));
  }

  /** A left shift made of shifts by at most 16 is the product with a power of two, cut to 64 bits. */
  method ShiftLeft(val: nat, shamnt: nat) returns (r: Result<nat>)
    requires val < WORD
    ensures r == if shamnt > REG_SIZE then Panic else Ok(val * Pow2(shamnt) % WORD)
  {
    hide Pow2;
    if shamnt > REG_SIZE { return Panic; }
    var res := val;
    var chunks := shamnt / MAX_SHIFT;
    assert Pow2(0) == 1 by { Pow2Zero(); }
    if shamnt > MAX_SHIFT {
      for i := 0 to chunks + 1
        invariant res == val * Pow2(if i <= chunks then MAX_SHIFT * i else shamnt) % WORD
      {
        if i == chunks {
          ShiftStep(val, MAX_SHIFT * i, shamnt % MAX_SHIFT);
          res := res * Pow2(shamnt % MAX_SHIFT) % WORD;
        } else {
          ShiftStep(val, MAX_SHIFT * i, MAX_SHIFT);
          res := res * Pow2(MAX_SHIFT) % WORD;
        }
      }
    } else {
      res := res * Pow2(shamnt) % WORD;
    }
    r := Ok(res);
  }

  /** A right shift made of shifts by at most 16 is the quotient by a power of two. */
  method ShiftRight(val: nat, shamnt: nat) returns (r: Result<nat>)
    requires val < WORD
    ensures r == if shamnt > REG_SIZE then Panic else Ok(Shr(val, shamnt))
  {
    ShrZero(val);
    hide Shr;
    if shamnt > REG_SIZE { return Panic; }
    var res := val;
    var chunks := shamnt / MAX_SHIFT;
    if shamnt > MAX_SHIFT {
      for i := 0 to chunks + 1
        invariant res == Shr(val, if i <= chunks then MAX_SHIFT * i else shamnt)
      {
        var n := if i == chunks then shamnt % MAX_SHIFT else MAX_SHIFT;
        ShrAdd(val, MAX_SHIFT * i, n);
        res := Shr(res, n);
      }
    } else {
      res := Shr(res, shamnt);
    }
    r := Ok(res);
  }

  /** The field of `width` bits from bit `start` of a register. */
  function Extract(x: nat, start: nat, width: nat): nat {
    Shr(x, start) % Pow2(width)
  }

  lemma ExtractOr(a: nat, b: nat, start: nat, width: nat)
    ensures Extract(BitOr(a, b), start, width) == BitOr(Extract(a, start, width), Extract(b, start, width))
  {
    hide BitOr, Pow2, Shr;
    OrShr(a, b, start);
    OrMod(Shr(a, start), Shr(b, start), width);
  }

  lemma ExtractOwn(v: nat, start: nat, width: nat)
    requires v < Pow2(width)
    ensures Extract(v * Pow2(start), start, width) == v
  {
    hide Pow2;
    DivUnique(v * Pow2(start), Pow2(start), v, 0);
    DivUnique(v, Pow2(width), 0, v);
  }

  /** A value in one field shows nothing in a field apart from it. */
  lemma ExtractApart(v: nat, at: nat, wide: nat, start: nat, width: nat)
    requires v < Pow2(wide) && (at + wide <= start || start + width <= at)
    ensures Extract(v * Pow2(at), start, width) == 0
  {
    hide Pow2, Extract;
    if at + wide <= start {
      FieldBound(v, at, wide);
      Pow2Monotone(at + wide, start);
      ExtractBelow(v * Pow2(at), start, width);
    } else {
      var k := at - start - width;
      Pow2Add(start, width + k);
      Pow2Add(width, k);
      Reorder(v, Pow2(start), Pow2(width), Pow2(k));
      NotNegative(v, Pow2(k));
      ExtractAbove(v * Pow2(k), start, width);
    }
  }

  lemma ExtractBelow(x: nat, start: nat, width: nat)
    requires x < Pow2(start)
    ensures Extract(x, start, width) == 0
  {
    hide Pow2;
    DivUnique(x, Pow2(start), 0, x);
    DivUnique(0, Pow2(width), 0, 0);
  }

  lemma ExtractAbove(y: nat, start: nat, width: nat)
    requires y * Pow2(width) * Pow2(start) >= 0
    ensures Extract(y * Pow2(width) * Pow2(start), start, width) == 0
  {
    hide Pow2;
    var z := y * Pow2(width);
    NotNegative(y, Pow2(width));
    DivUnique(z * Pow2(start), Pow2(start), z, 0);
    DivUnique(z, Pow2(width), y, 0);
  }

  lemma Reorder(v: int, s: int, w: int, k: int)
    ensures v * (s * (w * k)) == ((v * k) * w) * s
  {
    Assoc(v, k, w);
    Assoc(v, w * k, s);
    Commute(s, w * k);
    Commute(w, k);
  }

  lemma FieldBound(v: nat, start: nat, width: nat)
    requires v < Pow2(width)
    ensures v * Pow2(start) < Pow2(start + width)
  {
    hide Pow2;
    Pow2Add(start, width);
    Below(v, Pow2(width), Pow2(start));
  }

  lemma Below(v: int, w: int, s: int)
    requires v < w && s > 0
    ensures v * s < s * w
  {
    MulMonotone(v + 1, w, s);
    Distribute(v, 1, s);
    Commute(w, s);
  }
}
