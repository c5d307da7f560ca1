/** The power-state odometer: an index per power level, counted through every combination. */
module PowerStates {
  import opened Numbers
  import opened Bits

  /** The index that marks a level not in use: minus one, in 32 bits. */
  const INIT: nat := 0xFFFF_FFFF
  const INDEXES: nat := 0x1_0000_0000

  /** An index as a number, with minus one for a level not in use. */
  function Digit(x: nat): (d: int)
    requires x < INDEXES
    ensures -1 <= d < INIT
  {
    if x == INIT then -1 else x
  }

  function Digits(a: seq<nat>): (d: seq<int>)
    requires forall i | 0 <= i < |a| :: a[i] < INDEXES
    ensures |d| == |a| && forall i | 0 <= i < |a| :: d[i] == Digit(a[i])
  {
    seq(|a|, i requires 0 <= i < |a| => Digit(a[i]))
  }

  /** Levels in use come first, each with an index below its number of states. */
  predicate Combination(d: seq<int>, n: seq<nat>) {
    && |d| == |n|
    && (forall i | 0 <= i < |d| :: -1 <= d[i] < n[i])
    && (forall i, j | 0 <= i < j < |d| && d[i] == -1 :: d[j] == -1)
  }

  predicate Levels(n: seq<nat>) {
    forall i | 0 <= i < |n| :: 0 < n[i] < INIT
  }

  function Off(k: nat): (d: seq<int>)
    ensures |d| == k && forall i | 0 <= i < k :: d[i] == -1
  {
    seq(k, _ => -1)
  }

  /** A combination's place in the count. */
  function Rank(d: seq<int>, n: seq<nat>): int
    requires |d| == |n|
  {
    if d == [] then 0 else d[0] + 1 + n[0] * Rank(d[1..], n[1..])
  }

  /** The last place. */
  function Total(n: seq<nat>): nat {
    if n == [] then 0 else n[0] + n[0] * Total(n[1..])
  }

  /** The combination at a place. */
  function Unrank(r: nat, n: seq<nat>): seq<int>
    requires Levels(n)
    decreases |n|
  {
    if n == [] then [] else if r == 0 then Off(|n|)
    else
      assert Levels(n[1..]);
      [(r - 1) % n[0]] + Unrank((r - 1) / n[0], n[1..])
  }

  lemma RankIs(d: seq<int>, n: seq<nat>)
    requires |d| == |n| && d != []
    ensures Rank(d, n) == d[0] + 1 + n[0] * Rank(d[1..], n[1..])
  {
  }

  lemma TotalIs(n: seq<nat>)
    requires n != []
    ensures Total(n) == n[0] + n[0] * Total(n[1..])
  {
  }

  lemma Tail(d: seq<int>, n: seq<nat>)
    requires Combination(d, n) && d != []
    ensures |d| == |n|
    ensures Combination(d[1..], n[1..]) && (d[0] == -1 ==> d == Off(|d|))
  {
  }

  lemma {:induction false} RankOff(n: seq<nat>)
    ensures Rank(Off(|n|), n) == 0
  {
    if n != [] {
      assert Off(|n|)[1..] == Off(|n| - 1);
      RankOff(n[1..]);
    }
  }

  /** Places run from zero, for no level in use, to the last. */
  lemma {:induction false} RankRange(d: seq<int>, n: seq<nat>)
    requires Combination(d, n) && Levels(n)
    ensures 0 <= Rank(d, n) <= Total(n) && (Rank(d, n) == 0 <==> d == Off(|n|))
  {
    if d != [] {
      Tail(d, n);
      if d[0] == -1 {
        RankOff(n);
      } else {
        RankRange(d[1..], n[1..]);
        Scale(n[0], Rank(d[1..], n[1..]), Total(n[1..]));
      }
    }
  }

  lemma Scale(k: nat, a: int, b: int)
    requires 0 <= a <= b
    ensures 0 <= k * a <= k * b
  {
  }

  lemma DivMod(q: int, r: int, m: nat)
    requires 0 <= r < m && q >= 0
    ensures (r + m * q) % m == r && (r + m * q) / m == q
  {
    Commute(m, q);
    DivUnique(r + m * q, m, q, r);
  }

  /** The place determines the combination. */
  lemma {:induction false} RankUnrank(d: seq<int>, n: seq<nat>)
    requires Combination(d, n) && Levels(n)
    ensures Rank(d, n) >= 0 && Unrank(Rank(d, n), n) == d
  {
    RankRange(d, n);
    if d != [] {
      Tail(d, n);
      if d[0] != -1 {
        var rest := Rank(d[1..], n[1..]);
        RankRange(d[1..], n[1..]);
        RankUnrank(d[1..], n[1..]);
        DivMod(rest, d[0], n[0]);
        assert d == [d[0]] + d[1..];
      }
    }
  }

  /** Every place up to the last is some combination's. */
  lemma {:induction false} UnrankRank(r: nat, n: seq<nat>)
    requires Levels(n) && r <= Total(n)
    ensures Combination(Unrank(r, n), n) && Rank(Unrank(r, n), n) == r
    decreases |n|
  {
    if n == [] || r == 0 {
      RankOff(n);
    } else {
      hide Rank, Total, Combination;
      var m, q, d := n[0], (r - 1) / n[0], Unrank(r, n);
      TotalIs(n);
      Quotient(r - 1, m, Total(n[1..]));
      UnrankRank(q, n[1..]);
      assert d[1..] == Unrank(q, n[1..]) && d[0] == (r - 1) % m;
      RankIs(d, n);
      Consed(d, n);
    }
  }

  lemma Quotient(x: nat, m: nat, t: nat)
    requires m > 0 && x < m + m * t
    ensures x / m <= t && x == x % m + m * (x / m)
  {
    var q := x / m;
    assert x == q * m + x % m;
    assert q > t ==> (t + 1) * m <= q * m;
  }

  lemma Consed(d: seq<int>, n: seq<nat>)
    requires |d| == |n| && d != [] && 0 <= d[0] < n[0] && Combination(d[1..], n[1..])
    ensures Combination(d, n)
  {
    assert forall i | 1 <= i < |d| :: d[i] == d[1..][i - 1] && n[i] == n[1..][i - 1];
  }

  /** One count: the lowest level up, carrying where a level has no more states. */
  function Advance(d: seq<int>, n: seq<nat>): seq<int>
    requires |d| == |n|
  {
    if Carries(d, n) then Off(|d|) else Bump(d, n)
  }

  /** Every level is at its last state. */
  predicate Carries(d: seq<int>, n: seq<nat>)
    requires |d| == |n|
  {
    forall i | 0 <= i < |d| :: d[i] + 1 == n[i]
  }

  function Bump(d: seq<int>, n: seq<nat>): seq<int>
    requires |d| == |n|
  {
    if d == [] then [] else if d[0] + 1 == n[0] then [0] + Bump(d[1..], n[1..]) else [d[0] + 1] + d[1..]
  }

  /** Counting moves to the next place, and from the last back to no level in use. */
  lemma {:induction false} AdvanceRank(d: seq<int>, n: seq<nat>)
    requires Combination(d, n) && Levels(n)
    ensures Combination(Advance(d, n), n)
    ensures Rank(Advance(d, n), n) == if Rank(d, n) == Total(n) then 0 else Rank(d, n) + 1
    ensures Carries(d, n) <==> Rank(d, n) == Total(n)
  {
    RankRange(d, n);
    CarryIff(d, n);
    if Carries(d, n) {
      RankOff(n);
    } else {
      BumpRank(d, n);
    }
  }

  lemma {:induction false} CarryIff(d: seq<int>, n: seq<nat>)
    requires Combination(d, n) && Levels(n)
    ensures Carries(d, n) <==> Rank(d, n) == Total(n)
  {
    hide Rank, Total, Carries;
    if d == [] {
      RankOff(n);
      assert Carries(d, n) && Rank(d, n) == Total(n) by { NoLevels(d, n); }
    } else {
      Tail(d, n);
      RankIs(d, n);
      TotalIs(n);
      RankRange(d[1..], n[1..]);
      CarryIff(d[1..], n[1..]);
      CarriesTail(d, n);
      LastPlace(d[0] + 1, n[0], Rank(d[1..], n[1..]), Total(n[1..]));
    }
  }

  lemma NoLevels(d: seq<int>, n: seq<nat>)
    requires d == [] && n == []
    ensures Carries(d, n) && Rank(d, n) == 0 == Total(n)
  {
  }

  lemma LastPlace(x: int, m: nat, a: int, b: int)
    requires 0 <= x <= m && m > 0 && 0 <= a <= b
    ensures x + m * a == m + m * b <==> x == m && a == b
  {
    if a < b { Scale(m, a + 1, b); }
    assert a < b ==> m * (a + 1) == m * a + m;
  }

  lemma CarriesTail(d: seq<int>, n: seq<nat>)
    requires |d| == |n| && d != []
    ensures Carries(d, n) <==> d[0] + 1 == n[0] && Carries(d[1..], n[1..])
  {
    if d[0] + 1 == n[0] && Carries(d[1..], n[1..]) {
      forall i | 0 <= i < |d| ensures d[i] + 1 == n[i] { if i > 0 { assert d[1..][i - 1] + 1 == n[1..][i - 1]; } }
    }
  }

  lemma {:induction false} BumpRank(d: seq<int>, n: seq<nat>)
    requires Combination(d, n) && Levels(n) && !Carries(d, n)
    ensures |Bump(d, n)| == |n| && Combination(Bump(d, n), n) && Rank(Bump(d, n), n) == Rank(d, n) + 1
  {
    hide Rank, Carries;
    SomeLevel(d, n);
    hide Combination;
    Tail(d, n);
    BumpSize(d, n);
    var e := Bump(d, n);
    RankIs(d, n);
    RankIs(e, n);
    DigitRange(d, n);
    if d[0] + 1 == n[0] {
      CarriesTail(d, n);
      BumpRank(d[1..], n[1..]);
      assert e[1..] == Bump(d[1..], n[1..]);
      CarryOver(n[0], Rank(d[1..], n[1..]));
    } else {
      assert e[1..] == d[1..];
    }
    Consed(e, n);
  }

  lemma SomeLevel(d: seq<int>, n: seq<nat>)
    requires |d| == |n| && !Carries(d, n)
    ensures d != []
  {
  }

  lemma DigitRange(d: seq<int>, n: seq<nat>)
    requires Combination(d, n) && Levels(n) && d != []
    ensures -1 <= d[0] < n[0]
  {
  }

  lemma CarryOver(m: nat, a: int)
    ensures 1 + m * (a + 1) == m + m * a + 1
  {
  }

  /** The combination after `k` counts from no level in use. */
  function After(k: nat, n: seq<nat>): (d: seq<int>)
    ensures |d| == |n|
  {
    if k == 0 then Off(|n|) else
    var d := After(k - 1, n);
    BumpSize(d, n);
    Advance(d, n)
  }

  lemma {:induction false} BumpSize(d: seq<int>, n: seq<nat>)
    requires |d| == |n|
    ensures |Bump(d, n)| == |d|
  {
    if d != [] && d[0] + 1 == n[0] { BumpSize(d[1..], n[1..]); }
  }

  /** Counting from no level in use visits every combination exactly once, in order, and then starts over. */
  lemma {:induction false} VisitsEachOnce(k: nat, n: seq<nat>)
    requires Levels(n) && k <= Total(n)
    ensures Combination(After(k, n), n) && Rank(After(k, n), n) == k && After(k, n) == Unrank(k, n)
    ensures After(Total(n) + 1, n) == Off(|n|)
    ensures forall d | Combination(d, n) && Rank(d, n) == k :: d == After(k, n)
  {
    Reaches(k, n);
    Reaches(Total(n), n);
    AdvanceRank(After(Total(n), n), n);
    RankUnrank(After(k, n), n);
    forall d | Combination(d, n) && Rank(d, n) == k ensures d == After(k, n) { RankUnrank(d, n); }
  }

  lemma {:induction false} Reaches(k: nat, n: seq<nat>)
    requires Levels(n) && k <= Total(n)
    ensures Combination(After(k, n), n) && Rank(After(k, n), n) == k
  {
    if k == 0 {
      RankOff(n);
    } else {
      Reaches(k - 1, n);
      AdvanceRank(After(k - 1, n), n);
    }
  }

  // ----- The source's loops

  /** Advances the indexes of levels 0 to `level` in place. */
  method SetNext(level: nat, idx: array<nat>, n: seq<nat>)
    requires level < idx.Length && level < |n| && Levels(n)
    requires forall i | 0 <= i < idx.Length :: idx[i] < INDEXES
    requires Combination(Digits(idx[..level + 1]), n[..level + 1])
    modifies idx
    ensures forall i | 0 <= i < idx.Length :: idx[i] < INDEXES
    ensures Digits(idx[..level + 1]) == Advance(Digits(old(idx[..level + 1])), n[..level + 1])
    ensures forall i | level < i < idx.Length :: idx[i] == old(idx[i])
  {
    hide Digit;
    ghost var m := n[..level + 1];
    ghost var was := idx[..level + 1];
    ghost var d := Digits(was);
    InRange(was, m);
    var i := Carry(level, idx, n);
    if i > level {
      i := 0;
      while i <= level
        invariant 0 <= i <= level + 1
        invariant forall j | 0 <= j < idx.Length :: idx[j] == if j < i then INIT else if j <= level then 0 else old(idx[j])
      {
        idx[i] := INIT;
        i := i + 1;
      }
      AllOff(idx[..level + 1]);
      CarriedAll(was, m);
    } else {
      Bumped(was, m, idx[..level + 1], i);
    }
  }

  /** Counts up from level 0 while levels wrap around; the level it stopped at, or one past the last. */
  method Carry(level: nat, idx: array<nat>, n: seq<nat>) returns (i: nat)
    requires level < idx.Length && level < |n|
    requires forall j | 0 <= j <= level :: idx[j] < INDEXES && 0 < n[j] < INIT
    modifies idx
    ensures i <= level + 1 && forall j | 0 <= j < i :: (old(idx[j]) + 1) % INDEXES == n[j]
    ensures i <= level ==> (old(idx[i]) + 1) % INDEXES != n[i]
    ensures forall j | 0 <= j < idx.Length :: idx[j] == if j < i then 0 else if j == i && i <= level then (old(idx[i]) + 1) % INDEXES else old(idx[j])
  {
    i := 0;
    while i <= level
      invariant 0 <= i <= level + 1
      invariant forall j | 0 <= j < idx.Length :: idx[j] == if j < i then 0 else old(idx[j])
      invariant forall j | 0 <= j < i :: (old(idx[j]) + 1) % INDEXES == n[j]
    {
      idx[i] := (idx[i] + 1) % INDEXES;
      if idx[i] == n[i] { idx[i] := 0; } else { break; }
      i := i + 1;
    }
  }

  /** Incrementing an index increments its digit. */
  lemma Increments(x: nat)
    requires x < INDEXES
    ensures (x + 1) % INDEXES == Digit(x) + 1
  {
  }

  lemma InRange(a: seq<nat>, n: seq<nat>)
    requires forall i | 0 <= i < |a| :: a[i] < INDEXES
    requires Combination(Digits(a), n)
    ensures |n| == |a| && forall i | 0 <= i < |a| :: (a[i] + 1) % INDEXES == Digits(a)[i] + 1
  {
    forall i | 0 <= i < |a| ensures (a[i] + 1) % INDEXES == Digits(a)[i] + 1 { Increments(a[i]); }
  }

  lemma AllOff(a: seq<nat>)
    requires forall i | 0 <= i < |a| :: a[i] == INIT
    ensures Digits(a) == Off(|a|)
  {
  }

  lemma CarriedAll(a: seq<nat>, n: seq<nat>)
    requires (forall i | 0 <= i < |a| :: a[i] < INDEXES) && Combination(Digits(a), n) && |n| == |a|
    requires forall i | 0 <= i < |a| :: (a[i] + 1) % INDEXES == n[i]
    ensures Advance(Digits(a), n) == Off(|a|)
  {
    InRange(a, n);
  }

  lemma Bumped(a: seq<nat>, n: seq<nat>, b: seq<nat>, i: nat)
    requires |a| == |n| == |b| && i < |a| && Levels(n)
    requires forall j | 0 <= j < |a| :: a[j] < INDEXES && b[j] < INDEXES
    requires Combination(Digits(a), n) && (a[i] + 1) % INDEXES != n[i] && forall j | 0 <= j < i :: (a[j] + 1) % INDEXES == n[j]
    requires forall j | 0 <= j < |b| :: b[j] == if j < i then 0 else if j == i then (a[i] + 1) % INDEXES else a[j]
    ensures Digits(b) == Advance(Digits(a), n)
  {
    InRange(a, n);
    var d := Digits(a);
    BumpAt(d, n, i);
    assert d[i] < n[i] < INIT;
    assert Digits(b) == Bump(d, n);
  }

  /** Where the carry stops. */
  lemma {:induction false} BumpAt(d: seq<int>, n: seq<nat>, i: nat)
    requires |d| == |n| && i < |d| && d[i] + 1 != n[i] && forall j | 0 <= j < i :: d[j] + 1 == n[j]
    ensures |Bump(d, n)| == |d| && !Carries(d, n)
    ensures forall j | 0 <= j < |d| :: Bump(d, n)[j] == if j < i then 0 else if j == i then d[i] + 1 else d[j]
  {
    if i > 0 { BumpAt(d[1..], n[1..], i - 1); }
  }

  /** What the platform says of one local state. */
  datatype Local = Local(id: nat, depth: nat, powerdown: nat)

  /** Indexes into the platform's table, levels in use first. */
  predicate Indexes(table: seq<seq<Local>>, d: seq<int>) {
    && |d| == |table| && (forall i | 0 <= i < |d| :: -1 <= d[i] < |table[i]|)
    && forall i, j | 0 <= i < j < |d| && d[i] == -1 :: d[j] == -1
  }

  /** The composite identifier: one field of `width` values per level in use. */
  function Composite(table: seq<seq<Local>>, d: seq<int>, width: nat): nat
    requires |d| == |table| && forall i | 0 <= i < |d| :: -1 <= d[i] < |table[i]|
    decreases |d|
  {
    if d == [] || d[0] < 0 then 0 else table[0][d[0]].id + width * Composite(table[1..], d[1..], width)
  }

  /** Identifiers are non-zero (a zero ends the platform's list), fit their field and differ within a level. */
  predicate Identified(table: seq<seq<Local>>, width: nat) {
    && (forall i, j | 0 <= i < |table| && 0 <= j < |table[i]| :: 0 < table[i][j].id < width)
    && (forall i, j, k | 0 <= i < |table| && 0 <= j < k < |table[i]| :: table[i][j].id != table[i][k].id)
  }

  /** Different combinations have different composite identifiers, even with different numbers of levels in use. */
  lemma {:induction false} CompositeInjective(table: seq<seq<Local>>, width: nat, d: seq<int>, e: seq<int>)
    requires Identified(table, width) && Indexes(table, d) && Indexes(table, e)
    requires Composite(table, d, width) == Composite(table, e, width)
    ensures d == e
    decreases |d|
  {
    if d != [] {
      CompositeHead(table, width, d);
      CompositeHead(table, width, e);
      if d[0] >= 0 && e[0] >= 0 {
        hide Composite;
        DivMod(Composite(table[1..], d[1..], width), table[0][d[0]].id, width);
        DivMod(Composite(table[1..], e[1..], width), table[0][e[0]].id, width);
        assert d[0] == e[0];
        hide Identified, Indexes;
        CompositeInjective(table[1..], width, d[1..], e[1..]);
        assert d == [d[0]] + d[1..] && e == [e[0]] + e[1..];
      }
    }
  }

  lemma CompositeHead(table: seq<seq<Local>>, width: nat, d: seq<int>)
    requires d != [] && Indexes(table, d) && Identified(table, width)
    ensures Identified(table[1..], width) && Indexes(table[1..], d[1..])
    ensures Composite(table, d, width) == if d[0] < 0 then 0 else table[0][d[0]].id + width * Composite(table[1..], d[1..], width)
    ensures d[0] >= 0 ==> 0 < table[0][d[0]].id < width && Composite(table, d, width) > 0
    ensures d[0] < 0 ==> d == Off(|d|)
  {
    TableTail(table, width);
    IndexesTail(table, d);
    hide Identified;
    if d[0] >= 0 { Positive(table[0][d[0]].id, width, Composite(table[1..], d[1..], width)); }
  }

  lemma Positive(a: nat, w: nat, x: nat)
    requires a > 0
    ensures a + w * x > 0
  {
  }

  lemma TableTail(table: seq<seq<Local>>, width: nat)
    requires Identified(table, width) && table != []
    ensures Identified(table[1..], width) && forall j | 0 <= j < |table[0]| :: 0 < table[0][j].id < width
  {
    var t: seq<seq<Local>> := table[1..];
    forall i, j | 0 <= i < |t| && 0 <= j < |t[i]| ensures 0 < t[i][j].id < width { assert t[i] == table[i + 1]; }
    forall i, j, k | 0 <= i < |t| && 0 <= j < k < |t[i]| ensures t[i][j].id != t[i][k].id { assert t[i] == table[i + 1]; }
  }

  lemma IndexesTail(table: seq<seq<Local>>, d: seq<int>)
    requires Indexes(table, d) && d != []
    ensures Indexes(table[1..], d[1..]) && (d[0] == -1 ==> d == Off(|d|))
  {
    forall i | 0 <= i < |d[1..]| ensures -1 <= d[1..][i] < |table[1..][i]| { assert d[1..][i] == d[i + 1] && table[1..][i] == table[i + 1]; }
  }

  /** The local states in use. */
  ghost predicate Picked(table: seq<seq<Local>>, idx: seq<nat>, r: seq<Local>) {
    |r| <= |idx| == |table| && forall i | 0 <= i < |r| :: idx[i] < |table[i]| && idx[i] != INIT && r[i] == table[i][idx[i]]
  }

  predicate Shallower(r: seq<Local>) {
    forall i | 0 < i < |r| :: r[i].depth <= r[i - 1].depth
  }

  /** The greatest power-down flag. */
  ghost predicate Greatest(r: seq<Local>, kind: nat) {
    (exists i :: 0 <= i < |r| && kind == r[i].powerdown) && forall i | 0 <= i < |r| :: r[i].powerdown <= kind
  }

  /** Every identifier fits in its field of `bits` bits. */
  predicate Fit(table: seq<seq<Local>>, bits: nat) {
    forall i, j | 0 <= i < |table| && 0 <= j < |table[i]| :: table[i][j].id < Pow2(bits)
  }

  /** The identifiers of the levels in use, shifted to their fields and or-ed together in 32 bits. */
  function Ored(r: seq<Local>, bits: nat): (id: nat)
    ensures id < INDEXES
  {
    if r == [] then 0 else
    var n := |r| - 1;
    Pow2Values();
    OrBound(Ored(r[..n], bits), Pow2(n * bits) * r[n].id % INDEXES, 32);
    BitOr(Ored(r[..n], bits), Pow2(n * bits) * r[n].id % INDEXES)
  }

  lemma Pow2Values()
    ensures Pow2(32) == INDEXES
  {
    assert Pow2(4) == 16 && Pow2(8) == 16 * Pow2(4) && Pow2(12) == 16 * Pow2(8) && Pow2(16) == 16 * Pow2(12);
    Pow2Add(16, 16);
  }

  /** The suspend type, the composite identifier and the highest level in use; the depths must not grow upwards. */
  method PstateVars(idx: seq<nat>, table: seq<seq<Local>>, bits: nat)
    returns (level: int, kind: nat, id: nat, ok: bool, ghost r: seq<Local>)
    requires |idx| == |table| > 0 && (forall i | 0 <= i < |idx| :: idx[i] < INDEXES) && Indexes(table, Digits(idx)) && idx[0] != INIT
    requires |idx| * bits <= 32
    ensures Picked(table, idx, r) && |r| == level + 1 > 0 && (level + 1 < |idx| ==> idx[level + 1] == INIT)
    ensures id == Ored(r, bits) && (Fit(table, bits) ==> id == Composite(table, Digits(idx), Pow2(bits)))
    ensures (ok <==> Shallower(r)) && Greatest(r, kind)
  {
    hide Composite, Greatest, Shallower, Partial, Ored, Fit, Pow2, BitOr;
    ghost var d := Digits(idx);
    assert forall i | 0 <= i < |idx| :: d[i] == Digit(idx[i]);
    var depth := table[0][idx[0]].depth;
    kind := table[0][idx[0]].powerdown;
    r := [];
    ok := true;
    id := 0;
    CompositeStart(table, d, bits);
    OredStart(bits);
    var i: nat := 0;
    while i < |idx| && idx[i] != INIT
      invariant i == |r| <= |idx| && Picked(table, idx, r) && id == Ored(r, bits)
      invariant Fit(table, bits) ==> Partial(table, d, bits, i, id)
      invariant i == 0 ==> ok && depth == table[0][idx[0]].depth && kind == table[0][idx[0]].powerdown
      invariant i > 0 ==> (ok <==> Shallower(r)) && (ok ==> depth == r[i - 1].depth) && Greatest(r, kind)
    {
      var local := table[i][idx[i]];
      if Fit(table, bits) { PartialStep(table, d, bits, i, id); }
      if i == 0 { StartPicked(local); } else { MorePicked(r, local, kind); }
      OredMore(r, local, bits);
      assert [] + [local] == [local];
      id := BitOr(id, Pow2(i * bits) * local.id % INDEXES);
      if local.powerdown > kind { kind := local.powerdown; }
      if local.depth > depth { ok := false; } else { depth := local.depth; }
      r := r + [local];
      i := i + 1;
    }
    if Fit(table, bits) { PartialEnd(table, d, bits, i, id); }
    level := i - 1;
  }

  lemma OredStart(bits: nat)
    ensures Ored([], bits) == 0
  {
  }

  lemma OredMore(r: seq<Local>, x: Local, bits: nat)
    ensures Ored(r + [x], bits) == BitOr(Ored(r, bits), Pow2(|r| * bits) * x.id % INDEXES)
  {
    hide BitOr, Pow2;
    assert (r + [x])[..|r|] == r;
  }

  lemma StartPicked(x: Local)
    ensures Shallower([x]) && Greatest([x], x.powerdown)
  {
    assert [x][0].powerdown == x.powerdown;
  }

  lemma MorePicked(r: seq<Local>, x: Local, kind: nat)
    requires r != [] && Greatest(r, kind)
    ensures Shallower(r + [x]) <==> Shallower(r) && x.depth <= r[|r| - 1].depth
    ensures Greatest(r + [x], if x.powerdown > kind then x.powerdown else kind)
  {
    var t := r + [x];
    assert t[|r|] == x && forall i | 0 <= i < |r| :: t[i] == r[i];
    if Shallower(t) {
      assert t[|r|].depth <= t[|r| - 1].depth;
      forall i | 0 < i < |r| ensures r[i].depth <= r[i - 1].depth { assert t[i].depth <= t[i - 1].depth; }
    }
    var j :| 0 <= j < |r| && kind == r[j].powerdown;
    assert t[j].powerdown == kind;
  }

  /** `id` holds the fields of the levels below `i`; the others are still to come, scaled. */
  ghost predicate Partial(table: seq<seq<Local>>, d: seq<int>, bits: nat, i: nat, id: nat) {
    && Indexes(table, d) && i <= |d| && Indexes(table[i..], d[i..]) && id < Pow2(i * bits)
    && id + Pow2(i * bits) * Composite(table[i..], d[i..], Pow2(bits)) == Composite(table, d, Pow2(bits))
  }

  lemma CompositeStart(table: seq<seq<Local>>, d: seq<int>, bits: nat)
    requires Indexes(table, d)
    ensures Partial(table, d, bits, 0, 0)
  {
    hide Composite;
    assert table[0..] == table && d[0..] == d;
    Pow2Zero();
  }

  lemma PartialStep(table: seq<seq<Local>>, d: seq<int>, bits: nat, i: nat, id: nat)
    requires Partial(table, d, bits, i, id) && i < |d| && d[i] >= 0 && |d| * bits <= 32 && Fit(table, bits)
    ensures Partial(table, d, bits, i + 1, BitOr(id, Pow2(i * bits) * table[i][d[i]].id % INDEXES))
  {
    hide Composite, Fit, Pow2, BitOr;
    var x := NextField(table, d, bits, i);
    FieldAdded(id, x, i, bits, |d|);
    Carried(id, Pow2(i * bits), x, Pow2(bits), Composite(table[i + 1..], d[i + 1..], Pow2(bits)), Pow2((i + 1) * bits));
  }

  lemma NextField(table: seq<seq<Local>>, d: seq<int>, bits: nat, i: nat) returns (x: nat)
    requires Indexes(table, d) && i < |d| && Indexes(table[i..], d[i..]) && d[i] >= 0 && Fit(table, bits)
    ensures d[i] < |table[i]| && x == table[i][d[i]].id < Pow2(bits) && Indexes(table[i + 1..], d[i + 1..])
    ensures Composite(table[i..], d[i..], Pow2(bits)) == x + Pow2(bits) * Composite(table[i + 1..], d[i + 1..], Pow2(bits))
  {
    x := table[i][d[i]].id;
    assert table[i..][1..] == table[i + 1..] && d[i..][1..] == d[i + 1..];
    IndexesTail(table[i..], d[i..]);
    CompositeIs(table[i..], d[i..], Pow2(bits));
    hide Composite, Pow2;
    FitAt(table, bits, i, d[i]);
  }

  lemma Carried(id: nat, p: nat, x: nat, q: nat, c: nat, pq: nat)
    requires pq == p * q
    ensures id + p * (x + q * c) == (id + p * x) + pq * c
  {
    Spread(p, x, q, c);
  }

  lemma FitAt(table: seq<seq<Local>>, bits: nat, i: nat, j: nat)
    requires Fit(table, bits) && i < |table| && j < |table[i]|
    ensures table[i][j].id < Pow2(bits)
  {
  }

  /** A field that fits is added above the fields below it. */
  lemma FieldAdded(id: nat, x: nat, i: nat, bits: nat, levels: nat)
    requires id < Pow2(i * bits) && x < Pow2(bits) && i < levels && levels * bits <= 32
    ensures BitOr(id, Pow2(i * bits) * x % INDEXES) == id + Pow2(i * bits) * x < Pow2((i + 1) * bits) == Pow2(i * bits) * Pow2(bits)
  {
    hide BitOr, Pow2;
    var p, q := Pow2(i * bits), Pow2(bits);
    Commute(p, x);
    Commute(p, q);
    NotNegative(x, p);
    MulMonotone(x + 1, q, p);
    Numbers.Distribute(x, 1, p);
    Numbers.Distribute(i, 1, bits);
    Pow2Add(i * bits, bits);
    MulMonotone(i + 1, levels, bits);
    Pow2Monotone((i + 1) * bits, 32);
    Pow2Values();
    DivUnique(x * p, INDEXES, 0, x * p);
    OrAbove(id, x, i * bits);
  }

  lemma CompositeIs(table: seq<seq<Local>>, d: seq<int>, width: nat)
    requires Indexes(table, d) && d != [] && d[0] >= 0
    ensures |table[1..]| == |d[1..]| && forall j | 0 <= j < |d[1..]| :: -1 <= d[1..][j] < |table[1..][j]|
    ensures Composite(table, d, width) == table[0][d[0]].id + width * Composite(table[1..], d[1..], width)
  {
  }

  lemma Spread(s: nat, a: nat, w: nat, x: nat)
    ensures s * (a + w * x) == s * a + s * w * x
  {
    Assoc(s, w, x);
    Commute(s, a + w * x);
    Numbers.Distribute(a, w * x, s);
    Commute(s, a);
    Commute(s, w * x);
  }

  lemma PartialEnd(table: seq<seq<Local>>, d: seq<int>, bits: nat, i: nat, id: nat)
    requires Partial(table, d, bits, i, id) && (i == |d| || d[i] < 0)
    ensures id == Composite(table, d, Pow2(bits))
  {
    hide Pow2;
    assert Composite(table[i..], d[i..], Pow2(bits)) == 0;
  }
}
