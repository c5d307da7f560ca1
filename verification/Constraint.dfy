/** Constraints on the bit fields of a call's argument registers, and the registers generated from them. */
module Constraint {
  import opened ConstraintBits
  import opened Bits
  import opened Numbers

  const SVALUE := 0
  const RANGE := 1
  const VECTOR := 2

  const ACCMODE := 0
  const EXCMODE := 1

  datatype Limit = Value(v: nat) | Range(lo: nat, hi: nat) | Vector(vs: seq<nat>)

  predicate Admits(c: Limit, v: nat) {
    match c
    case Value(x) => v == x
    case Range(lo, hi) => lo <= v <= hi
    case Vector(vs) => v in vs
  }

  /** Every number of the constraint fits in so many bits. */
  predicate Fits(c: Limit, width: nat) {
    match c
    case Value(x) => x < Pow2(width)
    case Range(lo, hi) => lo < Pow2(width) && hi < Pow2(width)
    case Vector(vs) => forall i | 0 <= i < |vs| :: vs[i] < Pow2(width)
  }

  /** What a call can put in a list. */
  predicate Storable(c: Limit) {
    Fits(c, REG_SIZE) && (c.Vector? ==> |c.vs| >= 2)
  }

  // ----- A field's list of constraints

  /** The list after one more call. */
  function Extend(list: seq<Limit>, c: Limit, mode: int): seq<Limit> {
    if list == [] || mode == EXCMODE then [c]
    else if mode == ACCMODE && c !in list then list + [c]
    else list
  }

  datatype Call = Call(c: Limit, mode: int)

  function Run(calls: seq<Call>): seq<Limit> {
    if calls == [] then [] else
    var n := |calls| - 1;
    Extend(Run(calls[..n]), calls[n].c, calls[n].mode)
  }

  /** The call puts its constraint in the list and no later exclusive call takes it out again. */
  predicate Stands(calls: seq<Call>, i: nat)
    ensures Stands(calls, i) ==> i < |calls|
  {
    && i < |calls| && (i == 0 || calls[i].mode == ACCMODE || calls[i].mode == EXCMODE)
    && forall j | i < j < |calls| :: calls[j].mode != EXCMODE
  }

  /** Some standing call before `end` asked for the constraint. */
  ghost predicate Asked(calls: seq<Call>, c: Limit, end: nat) {
    exists i: nat :: i < end && Stands(calls, i) && calls[i].c == c
  }

  /** The list holds the constraints of the standing calls, each once, in the order they first came. */
  ghost predicate Holds(list: seq<Limit>, calls: seq<Call>) {
    && (forall a, b | 0 <= a < b < |list| :: list[a] != list[b])
    && (forall c :: c in list <==> Asked(calls, c, |calls|))
    && (forall a, b, j: nat | 0 <= a < b < |list| && Stands(calls, j) && calls[j].c == list[b] :: Asked(calls, list[a], j))
  }

  /** After any calls the list is the distinct constraints since the last exclusive one. */
  lemma {:induction false} RunHolds(calls: seq<Call>)
    ensures Holds(Run(calls), calls)
    ensures calls != [] ==> Run(calls) != []
  {
    if calls != [] {
      var n := |calls| - 1;
      var was, last := calls[..n], calls[n];
      RunHolds(was);
      if n == 0 || last.mode == EXCMODE {
        Alone(calls);
      } else {
        Kept(calls);
        if last.mode == ACCMODE && last.c !in Run(was) { Joined(calls, Run(was)); } else { Unchanged(calls, Run(was)); }
      }
    }
  }

  lemma Alone(calls: seq<Call>)
    requires calls != [] && (|calls| == 1 || calls[|calls| - 1].mode == EXCMODE)
    ensures Holds([calls[|calls| - 1].c], calls)
  {
    var n := |calls| - 1;
    assert Stands(calls, n);
    forall i: nat | Stands(calls, i) ensures i == n {}
  }

  /** Without an exclusive call at the end, the earlier calls stand as before. */
  lemma Kept(calls: seq<Call>)
    requires |calls| > 1 && calls[|calls| - 1].mode != EXCMODE
    ensures forall i: nat | i < |calls| - 1 :: Stands(calls, i) <==> Stands(calls[..|calls| - 1], i)
    ensures Stands(calls, |calls| - 1) <==> calls[|calls| - 1].mode == ACCMODE
    ensures forall c, end: nat | end < |calls| :: Asked(calls, c, end) <==> Asked(calls[..|calls| - 1], c, end)
  {
    var n := |calls| - 1;
    forall i: nat | i < n ensures Stands(calls, i) <==> Stands(calls[..n], i) {
      if Stands(calls[..n], i) {
        forall j | i < j < |calls| ensures calls[j].mode != EXCMODE { if j < n { assert calls[..n][j] == calls[j]; } }
      }
      if Stands(calls, i) {
        forall j | i < j < n ensures calls[..n][j].mode != EXCMODE { assert calls[..n][j] == calls[j]; }
      }
    }
    forall c, end: nat | end < |calls| ensures Asked(calls, c, end) <==> Asked(calls[..n], c, end) {
      if Asked(calls, c, end) {
        var i: nat :| i < end && Stands(calls, i) && calls[i].c == c;
        assert Stands(calls[..n], i) && calls[..n][i].c == c;
      }
      if Asked(calls[..n], c, end) {
        var i: nat :| i < end && Stands(calls[..n], i) && calls[..n][i].c == c;
        assert Stands(calls, i) && calls[i].c == c;
      }
    }
  }

  lemma Joined(calls: seq<Call>, list: seq<Limit>)
    requires |calls| > 1 && calls[|calls| - 1].mode == ACCMODE && calls[|calls| - 1].c !in list
    requires Holds(list, calls[..|calls| - 1])
    ensures Holds(list + [calls[|calls| - 1].c], calls)
  {
    var n := |calls| - 1;
    var was, c, now := calls[..n], calls[n].c, list + [calls[n].c];
    Kept(calls);
    hide Stands;
    forall d ensures d in now <==> Asked(calls, d, |calls|) {
      if d in list { assert Asked(was, d, n); assert Asked(calls, d, n); }
      if d == c { assert Stands(calls, n); }
      if Asked(calls, d, |calls|) && d != c {
        var i: nat :| i < |calls| && Stands(calls, i) && calls[i].c == d;
        assert Asked(calls, d, n);
        assert Asked(was, d, n);
      }
    }
    forall a, b, j: nat | 0 <= a < b < |now| && Stands(calls, j) && calls[j].c == now[b] ensures Asked(calls, now[a], j) {
      assert Asked(was, now[a], n);
      if b < |list| {
        assert j < n;
        assert Stands(was, j) && was[j].c == list[b];
        assert Asked(was, list[a], j);
      }
    }
  }

  lemma Unchanged(calls: seq<Call>, list: seq<Limit>)
    requires |calls| > 1 && calls[|calls| - 1].mode != EXCMODE
    requires calls[|calls| - 1].mode == ACCMODE ==> calls[|calls| - 1].c in list
    requires Holds(list, calls[..|calls| - 1])
    ensures Holds(list, calls)
  {
    Kept(calls);
  }

  // ----- Values generated for a field

  /** The range does not span the whole register or end just before it starts, either of which would be
      a division by zero. */
  predicate Divides(c: Limit) {
    c.Range? ==> (c.hi - c.lo + 1) % WORD != 0
  }

  predicate Ordered(c: Limit) {
    c.Range? ==> c.lo <= c.hi
  }

  /** The value a draw gives in a range, computed on 64 bits. */
  function InRange(lo: nat, hi: nat, draw: nat): nat
    requires Divides(Range(lo, hi))
  {
    (draw % ((hi - lo + 1) % WORD) + lo) % WORD
  }

  /** A range yields values of its own exactly when it is ordered. */
  lemma RangeAdmits(lo: nat, hi: nat, draw: nat)
    requires Divides(Range(lo, hi)) && lo < WORD && hi < WORD
    ensures Admits(Range(lo, hi), InRange(lo, hi, draw)) <==> Ordered(Range(lo, hi))
  {
    if lo <= hi {
      Small(hi - lo + 1);
      var span := (hi - lo + 1) % WORD;
      DivRange(draw, span);
      Small(draw % span + lo);
    }
  }

  /** Every value of an ordered range has a draw that gives it. */
  lemma RangeReaches(lo: nat, hi: nat, v: nat)
    requires Divides(Range(lo, hi)) && lo <= v <= hi < WORD
    ensures InRange(lo, hi, v - lo) == v
  {
    Small(hi - lo + 1);
    DivUnique(v - lo, hi - lo + 1, 0, v - lo);
    Small(v);
  }

  /** What two draws give: the first selects a constraint of the list, the second a value in it; the default where
      there is no constraint. */
  function Answer(list: seq<Limit>, defval: nat, width: nat, draw: nat, inside: nat): Result<nat>
    requires forall i | 0 <= i < |list| :: Divides(list[i]) && Storable(list[i])
  {
    if list == [] then (if defval < Pow2(width) then Ok(defval) else Panic) else
    DivRange(draw, |list|);
    var c := list[draw % |list|];
    assert Storable(c);
    if !Fits(c, width) then Panic else
    match c
    case Value(x) => Ok(x)
    case Range(lo, hi) => Ok(InRange(lo, hi, inside))
    case Vector(vs) => DivRange(inside, |vs|); Ok(vs[inside % |vs|])
  }

  /** A range in order, and one whose ends are not. */
  lemma InRangeIs(lo: nat, hi: nat, draw: nat)
    requires Divides(Range(lo, hi)) && lo < WORD && hi < WORD
    ensures lo <= hi ==> InRange(lo, hi, draw) == lo + draw % (hi - lo + 1)
    ensures lo > hi ==> lo - hi != 1 && InRange(lo, hi, draw) == (draw % (WORD - (lo - hi - 1)) + lo) % WORD
  {
    if lo <= hi {
      Small(hi - lo + 1);
      DivRange(draw, hi - lo + 1);
      Small(draw % (hi - lo + 1) + lo);
    } else {
      SpanWraps(lo, hi);
    }
  }

  lemma SpanWraps(lo: nat, hi: nat)
    requires hi < lo < WORD && (hi - lo + 1) % WORD != 0
    ensures lo - hi != 1 && (hi - lo + 1) % WORD == WORD - (lo - hi - 1)
  {
    if lo - hi != 1 { DivUnique(hi - lo + 1, WORD, -1, WORD - (lo - hi - 1)); }
  }

  /** The answer of entry `i` of the list, for every draw that selects it. */
  lemma DrawGives(list: seq<Limit>, defval: nat, width: nat, draw: nat, inside: nat, i: nat)
    requires (forall k | 0 <= k < |list| :: Divides(list[k]) && Storable(list[k])) && i < |list| && draw % |list| == i
    ensures var c, r := list[i], Answer(list, defval, width, draw, inside);
            && (c.Value? ==> r == if c.v < Pow2(width) then Ok(c.v) else Panic)
            && (c.Range? ==> (r.Panic? <==> c.lo >= Pow2(width) || c.hi >= Pow2(width)))
            && (c.Range? && r.Ok? && c.lo <= c.hi ==> r.value == c.lo + inside % (c.hi - c.lo + 1))
            && (c.Range? && r.Ok? && c.lo > c.hi ==> c.lo - c.hi != 1 && r.value == (inside % (WORD - (c.lo - c.hi - 1)) + c.lo) % WORD)
            && (c.Vector? ==> (r.Panic? <==> exists k :: 0 <= k < |c.vs| && c.vs[k] >= Pow2(width)))
            && (c.Vector? && r.Ok? ==> 0 <= inside % |c.vs| < |c.vs| && r.value == c.vs[inside % |c.vs|])
  {
    hide Pow2, Answer;
    var c := list[i];
    if c.Value? { DrawsValue(list, defval, width, draw, inside, i); }
    if c.Range? {
      DrawsRange(list, defval, width, draw, inside, i);
      FitsRegister(c);
      InRangeIs(c.lo, c.hi, inside);
    }
    if c.Vector? { DrawsVector(list, defval, width, draw, inside, i); }
  }

  lemma DrawsValue(list: seq<Limit>, defval: nat, width: nat, draw: nat, inside: nat, i: nat)
    requires (forall k | 0 <= k < |list| :: Divides(list[k]) && Storable(list[k])) && i < |list| && draw % |list| == i && list[i].Value?
    ensures Answer(list, defval, width, draw, inside) == if list[i].v < Pow2(width) then Ok(list[i].v) else Panic
  {
    hide Pow2, InRange;
  }

  lemma DrawsRange(list: seq<Limit>, defval: nat, width: nat, draw: nat, inside: nat, i: nat)
    requires (forall k | 0 <= k < |list| :: Divides(list[k]) && Storable(list[k])) && i < |list| && draw % |list| == i && list[i].Range?
    ensures var c := list[i];
            Answer(list, defval, width, draw, inside) == if c.lo < Pow2(width) && c.hi < Pow2(width) then Ok(InRange(c.lo, c.hi, inside)) else Panic
  {
    hide Pow2, InRange;
  }

  lemma DrawsVector(list: seq<Limit>, defval: nat, width: nat, draw: nat, inside: nat, i: nat)
    requires (forall k | 0 <= k < |list| :: Divides(list[k]) && Storable(list[k])) && i < |list| && draw % |list| == i && list[i].Vector?
    ensures var c, r := list[i], Answer(list, defval, width, draw, inside);
            && (r.Panic? <==> exists k :: 0 <= k < |c.vs| && c.vs[k] >= Pow2(width))
            && (r.Ok? ==> 0 <= inside % |c.vs| < |c.vs| && r.value == c.vs[inside % |c.vs|])
  {
    hide Pow2, InRange;
    assert Storable(list[i]);
    DivRange(inside, |list[i].vs|);
  }

  /** Every value that a constraint of the list admits and that fits the field comes from some pair of draws, and
      with ordered ranges nothing else does. */
  lemma EveryValueDrawn(list: seq<Limit>, defval: nat, width: nat, v: nat)
    requires list != [] && forall k | 0 <= k < |list| :: Divides(list[k]) && Storable(list[k])
    ensures (exists i :: 0 <= i < |list| && Fits(list[i], width) && Admits(list[i], v)) ==>
            exists draw: nat, inside: nat :: Answer(list, defval, width, draw, inside) == Ok(v)
    ensures (forall i | 0 <= i < |list| :: Ordered(list[i])) && (exists draw: nat, inside: nat :: Answer(list, defval, width, draw, inside) == Ok(v)) ==>
            v < Pow2(width) && exists i :: 0 <= i < |list| && Fits(list[i], width) && Admits(list[i], v)
  {
    hide Fits, Admits, Answer;
    if i :| 0 <= i < |list| && Fits(list[i], width) && Admits(list[i], v) {
      var inside := InsideFor(list, defval, width, v, i);
      assert Answer(list, defval, width, i, inside) == Ok(v);
    }
    if (forall i | 0 <= i < |list| :: Ordered(list[i])) && exists draw: nat, inside: nat :: Answer(list, defval, width, draw, inside) == Ok(v) {
      var draw: nat, inside: nat :| Answer(list, defval, width, draw, inside) == Ok(v);
      DivRange(draw, |list|);
      AnswerAdmitted(list, defval, width, draw, inside);
    }
  }

  lemma InsideFor(list: seq<Limit>, defval: nat, width: nat, v: nat, i: nat) returns (inside: nat)
    requires i < |list| && (forall k | 0 <= k < |list| :: Divides(list[k]) && Storable(list[k])) && Fits(list[i], width) && Admits(list[i], v)
    ensures Answer(list, defval, width, i, inside) == Ok(v)
  {
    hide Pow2;
    var c := list[i];
    FitsRegister(c);
    DivUnique(i, |list|, 0, i);
    if c.Value? {
      inside := 0;
    } else if c.Range? {
      inside := v - c.lo;
      RangeReaches(c.lo, c.hi, v);
    } else {
      inside :| inside < |c.vs| && c.vs[inside] == v;
      DivUnique(inside, |c.vs|, 0, inside);
    }
  }

  /** With an ordered constraint the answer is one of its values and fits the field. */
  lemma AnswerAdmitted(list: seq<Limit>, defval: nat, width: nat, draw: nat, inside: nat)
    requires list != [] && (forall k | 0 <= k < |list| :: Divides(list[k]) && Storable(list[k])) && Answer(list, defval, width, draw, inside).Ok?
    ensures 0 <= draw % |list| < |list|
    ensures var c, v := list[draw % |list|], Answer(list, defval, width, draw, inside).value;
            Fits(c, width) && (Ordered(c) ==> v < Pow2(width) && Admits(c, v))
  {
    hide Pow2;
    DivRange(draw, |list|);
    var c := list[draw % |list|];
    if c.Range? {
      FitsRegister(c);
      RangeAdmits(c.lo, c.hi, inside);
    } else if c.Vector? {
      DivRange(inside, |c.vs|);
    }
  }

  lemma Small(x: nat)
    ensures x < WORD ==> x % WORD == x
    ensures x == WORD ==> x % WORD == 0
  {
  }

  lemma AnswerWord(list: seq<Limit>, defval: nat, width: nat, draw: nat, inside: nat)
    requires (forall k | 0 <= k < |list| :: Divides(list[k]) && Storable(list[k])) && defval < WORD
    ensures var r := Answer(list, defval, width, draw, inside); r.Ok? ==> r.value < WORD
  {
    hide Pow2;
    if list != [] {
      DivRange(draw, |list|);
      var c := list[draw % |list|];
      FitsRegister(c);
      if c.Vector? { DivRange(inside, |c.vs|); }
    }
  }

  /** A bit field of an argument register. */
  class Field {
    const start: nat
    const width: nat
    const defval: nat
    var list: seq<Limit>

    ghost predicate Valid()
      reads this
    {
      && start + width <= REG_SIZE && defval < WORD
      && forall i | 0 <= i < |list| :: Storable(list[i])
    }

    constructor (start: nat, width: nat, defval: nat)
      requires start + width <= REG_SIZE && defval < WORD
      ensures Valid() && list == Run([]) && this.start == start && this.width == width && this.defval == defval
    {
      this.start, this.width, this.defval, this.list := start, width, defval, [];
    }

    /** Constrains the field further, or to this constraint alone. */
    method SetConstraint(contype: int, vec: seq<nat>, mode: int) returns (ok: bool)
      requires Valid() && forall i | 0 <= i < |vec| :: vec[i] < WORD
      modifies this
      ensures Valid()
      ensures ok <==> mode <= 2 && ((contype == 0 && |vec| >= 1) || ((contype == 1 || contype == 2) && |vec| >= 2))
      ensures ok ==> list == Extend(old(list), if contype == 0 then Value(vec[0]) else if contype == 1 then Range(vec[0], vec[1]) else Vector(vec), mode)
      ensures !ok ==> list == old(list)
    {
      Pow2Values();
      hide Pow2;
      if contype > VECTOR || contype < 0 || mode > 2 { return false; }
      if |vec| < (if contype == SVALUE then 1 else 2) { return false; }
      var c := if contype == SVALUE then Value(vec[0]) else if contype == RANGE then Range(vec[0], vec[1]) else Vector(vec);
      ok := true;
      if list == [] {
        list := [c];
        return;
      }
      if mode == ACCMODE {
        for i := 0 to |list|
          invariant c !in list[..i] && list == old(list)
        {
          if list[i] == c { return; }
        }
        list := list + [c];
      }
      if mode == EXCMODE { list := [c]; }
    }

    /** The greatest number the field holds. */
    method Greatest() returns (n: nat)
      requires Valid()
      ensures n == Pow2(width) - 1
    {
      var shifted := ShiftLeft(1, width);
      n := (shifted.value + WORD - 1) % WORD;
      OneShifted(width);
    }

    /** A value for the field from two draws: which constraint, and what in it. */
    method Pick(draw: nat, inside: nat) returns (r: Result<nat>)
      requires Valid() && forall i | 0 <= i < |list| :: Divides(list[i])
      ensures r == Answer(list, defval, width, draw, inside)
    {
      hide Pow2;
      var most := Greatest();
      if list == [] { return if defval > most then Panic else Ok(defval); }
      DivRange(draw, |list|);
      var c := list[draw % |list|];
      FitsRegister(c);
      if c.Value? { return if c.v > most then Panic else Ok(c.v); }
      if c.Range? {
        if c.lo > most || c.hi > most { return Panic; }
        return Ok(InRange(c.lo, c.hi, inside));
      }
      for j := 0 to |c.vs|
        invariant forall i | 0 <= i < j :: c.vs[i] <= most
      {
        if c.vs[j] > most { return Panic; }
      }
      DivRange(inside, |c.vs|);
      r := Ok(c.vs[inside % |c.vs|]);
    }

    /** What a register holds in the field. */
    method GetGenerated(x: nat) returns (v: nat)
      requires Valid() && x < WORD
      ensures v == Extract(x, start, width)
    {
      var shifted := ShiftRight(x, start);
      var most := Greatest();
      v := BitAnd(shifted.value, most);
      AndMask(shifted.value, width);
    }
  }

  lemma OneShifted(width: nat)
    requires width <= REG_SIZE
    ensures (1 * Pow2(width) % WORD + WORD - 1) % WORD == Pow2(width) - 1
  {
    hide Pow2;
    Pow2Values();
    Pow2Monotone(width, REG_SIZE);
    Wrapped(Pow2(width));
  }

  lemma Wrapped(x: nat)
    requires 1 <= x <= WORD
    ensures (x % WORD + WORD - 1) % WORD == x - 1
  {
    Small(x);
  }

  lemma FitsRegister(c: Limit)
    requires Fits(c, REG_SIZE)
    ensures c.Value? ==> c.v < WORD
    ensures c.Range? ==> c.lo < WORD && c.hi < WORD
    ensures c.Vector? ==> forall i | 0 <= i < |c.vs| :: c.vs[i] < WORD
  {
    Pow2Values();
    hide Pow2;
  }

  // ----- A register made of fields

  /** Putting a value in its field of a register leaves the fields apart from it as they were. */
  lemma OrField(reg: nat, v: nat, at: nat, wide: nat, start: nat, width: nat)
    requires v < Pow2(wide) && at + wide <= REG_SIZE
    ensures var now := BitOr(reg, v * Pow2(at) % WORD);
            && (at + wide <= start || start + width <= at ==> Extract(now, start, width) == Extract(reg, start, width))
            && (Extract(reg, at, wide) == 0 ==> Extract(now, at, wide) == v)
  {
    Pow2Values();
    hide Pow2, BitOr, Extract;
    FieldBound(v, at, wide);
    Pow2Monotone(at + wide, REG_SIZE);
    Small(v * Pow2(at));
    var put := v * Pow2(at);
    ExtractOr(reg, put, start, width);
    ExtractOr(reg, put, at, wide);
    ExtractOwn(v, at, wide);
    OrZero(v);
    if at + wide <= start || start + width <= at {
      ExtractApart(v, at, wide, start, width);
      OrZero(Extract(reg, start, width));
    }
  }

  lemma OrWord(a: nat, b: nat)
    requires a < WORD && b < WORD
    ensures BitOr(a, b) < WORD
  {
    Pow2Values();
    OrBound(a, b, REG_SIZE);
  }

  lemma ExtractZero(start: nat, width: nat)
    ensures Extract(0, start, width) == 0
  {
    ExtractOwn(0, start, width);
  }

  predicate Apart(f: Field, g: Field) {
    f.start + f.width <= g.start || g.start + g.width <= f.start
  }

  /** What the draws give for a field. */
  ghost function AnswerOf(f: Field, draw: (nat, nat)): Result<nat>
    requires f.Valid() && forall k | 0 <= k < |f.list| :: Divides(f.list[k])
    reads f
  {
    Answer(f.list, f.defval, f.width, draw.0, draw.1)
  }

  /** Fields that do not overlap, each with a value that fits it. */
  ghost predicate Clean(fields: seq<Field>, draws: seq<(nat, nat)>)
    requires |draws| == |fields| && forall i | 0 <= i < |fields| :: fields[i].Valid() && forall k | 0 <= k < |fields[i].list| :: Divides(fields[i].list[k])
    reads fields
  {
    && (forall i, j | 0 <= i < j < |fields| :: Apart(fields[i], fields[j]))
    && (forall i | 0 <= i < |fields| :: AnswerOf(fields[i], draws[i]).Ok? ==> AnswerOf(fields[i], draws[i]).value < Pow2(fields[i].width))
  }

  /** The bits from `start` on lie outside every field. */
  predicate Outside(fields: seq<Field>, start: nat, width: nat) {
    forall i | 0 <= i < |fields| :: fields[i].start + fields[i].width <= start || start + width <= fields[i].start
  }

  /** Generates a register: every field holds what its draws give, and the bits outside the fields are clear. */
  method Generate(fields: seq<Field>, draws: seq<(nat, nat)>) returns (r: Result<nat>)
    requires |draws| == |fields|
    requires forall i | 0 <= i < |fields| :: fields[i].Valid() && forall k | 0 <= k < |fields[i].list| :: Divides(fields[i].list[k])
    ensures r.Panic? <==> exists i :: 0 <= i < |fields| && AnswerOf(fields[i], draws[i]).Panic?
    ensures r.Ok? ==> r.value < WORD
    ensures r.Ok? && Clean(fields, draws) ==>
              forall i | 0 <= i < |fields| :: Extract(r.value, fields[i].start, fields[i].width) == AnswerOf(fields[i], draws[i]).value
    ensures r.Ok? && Clean(fields, draws) ==> forall start: nat, width: nat | Outside(fields, start, width) :: Extract(r.value, start, width) == 0
  {
    hide Pow2, BitOr, Extract, Answer;
    var reg: nat := 0;
    forall start: nat, width: nat ensures Extract(0, start, width) == 0 { ExtractZero(start, width); }
    for i := 0 to |fields|
      invariant reg < WORD
      invariant forall k | 0 <= k < i :: AnswerOf(fields[k], draws[k]).Ok?
      invariant Clean(fields, draws) ==>
                  forall k | 0 <= k < i :: Extract(reg, fields[k].start, fields[k].width) == AnswerOf(fields[k], draws[k]).value
      invariant Clean(fields, draws) ==>
                  forall start: nat, width: nat | Outside(fields[..i], start, width) :: Extract(reg, start, width) == 0
    {
      var f := fields[i];
      var v := f.Pick(draws[i].0, draws[i].1);
      if v.Panic? { return Panic; }
      AnswerWord(f.list, f.defval, f.width, draws[i].0, draws[i].1);
      var put := ShiftLeft(v.value, f.start);
      if Clean(fields, draws) {
        FieldPut(fields, i, reg, v.value);
      }
      OrWord(reg, put.value);
      reg := BitOr(reg, put.value);
    }
    assert fields[..|fields|] == fields;
    r := Ok(reg);
  }

  /** One more value in its field. */
  lemma FieldPut(fields: seq<Field>, i: nat, reg: nat, v: nat)
    requires i < |fields| && fields[i].start + fields[i].width <= REG_SIZE && v < Pow2(fields[i].width)
    requires forall k, j | 0 <= k < j < |fields| :: Apart(fields[k], fields[j])
    requires forall start: nat, width: nat | Outside(fields[..i], start, width) :: Extract(reg, start, width) == 0
    ensures var now := BitOr(reg, v * Pow2(fields[i].start) % WORD);
            && (forall k | 0 <= k < i :: Extract(now, fields[k].start, fields[k].width) == Extract(reg, fields[k].start, fields[k].width))
            && Extract(now, fields[i].start, fields[i].width) == v
            && forall start: nat, width: nat | Outside(fields[..i + 1], start, width) :: Extract(now, start, width) == 0
  {
    hide Pow2, BitOr, Extract;
    var f, now := fields[i], BitOr(reg, v * Pow2(fields[i].start) % WORD);
    assert Outside(fields[..i], f.start, f.width);
    OrField(reg, v, f.start, f.width, f.start, f.width);
    forall k | 0 <= k < i ensures Extract(now, fields[k].start, fields[k].width) == Extract(reg, fields[k].start, fields[k].width) {
      assert Apart(fields[k], f);
      OrField(reg, v, f.start, f.width, fields[k].start, fields[k].width);
    }
    forall start: nat, width: nat | Outside(fields[..i + 1], start, width) ensures Extract(now, start, width) == 0 {
      assert fields[..i + 1][i] == f;
      assert forall k | 0 <= k < i :: fields[..i][k] == fields[..i + 1][k];
      OrField(reg, v, f.start, f.width, start, width);
    }
  }
}
