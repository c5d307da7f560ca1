/** The steps of the mapping and unmapping loops: what each entry does to the invariant. */
module XlatSteps {
  import opened Numbers
  import opened Wrappers
  import opened XlatDescriptor
  import opened XlatGeometry
  import opened XlatTables
  import opened XlatInvariant

  datatype Action = NoAction | WriteBlock | CreateTable | Recurse

  function Min(a: int, b: int): int { if a < b then a else b }

  function Max(a: int, b: int): int { if a < b then b else a }

  /** First address of the table affected by the region. */
  function StartVa(mm: Region, baseVa: nat, level: Level): nat {
    if mm.va > baseVa then mm.va - mm.va % Block(level) else baseVa
  }

  /** Which entry of a table that starts at `lo` an address is in. */
  function IndexOf(va: int, lo: int, level: Level): int { (va - lo) / Block(level) }

  predicate Covered(mm: Region, va: nat, level: Level) {
    mm.va <= va && mm.End() - 1 >= va + Block(level) - 1
  }

  /** What to do with entry `d` at `va` when mapping. The preconditions are the
      descriptor-type assertions of the source. */
  function MapAction(mm: Region, d: Desc, pa: int, va: nat, level: Level): (a: Action)
    requires mm.size > 0
    requires Covered(mm, va, level) ==> level == 3 ==> !d.Table?
    requires !Covered(mm, va, level) ==> level < 3 && !d.Leaf?
    ensures a == WriteBlock <==> d.Invalid? && mm.va <= va && va + Block(level) <= mm.va + mm.size &&
                                 (level == 3 || (level >= 1 && pa % Block(level) == 0 && Block(level) <= mm.granularity))
    ensures a == CreateTable <==> d.Invalid? && level < 3 &&
                                  (level == 0 || va < mm.va || mm.va + mm.size < va + Block(level) || pa % Block(level) != 0 || mm.granularity < Block(level))
    ensures a == Recurse <==> d.Table?
    ensures a == NoAction <==> d.Leaf?
    ensures a == NoAction ==> Covered(mm, va, level)
  {
    if Covered(mm, va, level) then
      if level == 3 then
        if d.Leaf? then NoAction else WriteBlock
      else if d.Table? then Recurse
      else if d.Invalid? then
        if pa % Block(level) != 0 || level < MIN_LVL_BLOCK_DESC || mm.granularity < Block(level)
        then CreateTable else WriteBlock
      else NoAction
    else if mm.va <= va + Block(level) - 1 || mm.End() - 1 >= va then
      if d.Invalid? then CreateTable else Recurse
    else NoAction
  }

  /** What to do with entry `d` at `va` when unmapping. The preconditions are the
      descriptor-type assertions of the source. */
  function UnmapAction(mm: Region, d: Desc, va: nat, level: Level): (a: Action)
    requires mm.size > 0
    requires Covered(mm, va, level) ==> if level == 3 then d.Leaf? else !d.Invalid?
    requires !Covered(mm, va, level) ==> level < 3 && d.Table?
    ensures a == WriteBlock <==> d.Leaf?
    ensures a == WriteBlock ==> Covered(mm, va, level)
    ensures a == Recurse <==> d.Table?
  {
    if Covered(mm, va, level) then
      if level == 3 || d.Leaf? then WriteBlock else Recurse
    else if mm.va <= va + Block(level) - 1 || mm.End() - 1 >= va then Recurse
    else NoAction
  }

  predicate PageAligned(x: int) { x % PAGE_SIZE == 0 }

  predicate Mappable(mm: Region) {
    PageAligned(mm.va) && PageAligned(mm.pa) && PageAligned(mm.size) && mm.size > 0
  }

  /** Every listed region that overlaps `mm` lies inside it. */
  predicate Inner(rs: seq<Region>, mm: Region) {
    forall q | q in rs :: Meets(q, mm.va, mm.End()) ==> mm.va <= q.va && q.End() <= mm.End()
  }

  ghost predicate NoOverride(ov: map<nat, Attr>, mm: Region) {
    forall k | k in ov :: !(mm.va <= k < mm.End())
  }

  /** Tables above level `lvl` keep their contents and their place. */
  ghost predicate Frame(pt: PT, pt': PT, lvl: nat) {
    && |pt'.mem| == |pt.mem| && |pt'.cnt| == |pt.cnt|
    && (forall u | 0 <= u < |pt.mem| :: |pt'.mem[u]| == |pt.mem[u]|)
    && (forall u | u in pt.place && u < |pt.mem| && pt.place[u].level < lvl ::
          u in pt'.place && pt'.place[u] == pt.place[u] && pt'.mem[u] == pt.mem[u])
  }

  /** The region meets the block of a level at `lo` and cannot be mapped there by that one block: there are no blocks
      at level 0, the block is not inside the region, its physical address is not aligned or it is too large. */
  predicate Splits(r: Region, lo: nat, level: Level) {
    && Meets(r, lo, lo + Block(level))
    && (level == 0 || lo < r.va || r.End() < lo + Block(level) || (r.pa + lo - r.va) % Block(level) != 0 || r.granularity < Block(level))
  }

  /** Tables stay where they were, and new ones are only where the region needs them. */
  ghost predicate Grows(pt: PT, pt': PT, mm: Region) {
    && |pt'.mem| == |pt.mem|
    && (forall u | u in pt.place :: u in pt'.place && pt'.place[u] == pt.place[u])
    && (forall u | u in pt'.place && u !in pt.place :: pt'.place[u].level >= 1 && Splits(mm, pt'.place[u].lo, pt'.place[u].level - 1))
  }

  lemma GrowsSame(a: PT, b: PT, mm: Region)
    requires a.place == b.place && |a.mem| == |b.mem|
    ensures Grows(a, b, mm)
  {
  }

  lemma GrowsLink(pt: PT, t: nat, i: nat, s: nat, mm: Region)
    requires HasSlot(pt, t, i) && pt.place[t].level < 3 && s !in pt.place && Splits(mm, SlotLo(pt.place[t], i), pt.place[t].level)
    ensures Grows(pt, Link(pt, t, i, s), mm)
  {
    hide Splits, SlotLo;
  }

  lemma GrowsTrans(a: PT, b: PT, c: PT, mm: Region)
    requires Grows(a, b, mm) && Grows(b, c, mm)
    ensures Grows(a, c, mm)
  {
    hide Splits;
  }

  ghost predicate Pool(pt: PT) {
    && |pt.cnt| == |pt.mem| > 0
    && forall u | 1 <= u < |pt.mem| :: |pt.mem[u]| == TABLE_ENTRIES
  }

  // ----- Steps of the mapping loop

  /** The facts every table operation keeps about the pool of tables. */
  ghost predicate PoolOK(pt: PT, leak: seq<nat>) {
    Pool(pt) && Clean(pt, leak) && InUse(pt, 0)
  }

  lemma StartSlot(pt: PT, mm: Region, t: nat)
    requires Struct(pt) && t in pt.place
    requires Max(pt.place[t].lo, mm.va) < Min(mm.End(), pt.place[t].hi)
    ensures var p := pt.place[t]; var va := StartVa(mm, p.lo, p.level); var i := IndexOf(va, p.lo, p.level);
            && 0 <= i && p.lo <= va && HasSlot(pt, t, i) && va == SlotLo(p, i) && va <= Max(p.lo, mm.va) < va + Block(p.level)
  {
    assert PlaceOK(pt, t);
    var p := pt.place[t];
    var b := Block(p.level);
    if t != 0 { SpanAligned(p.level, p.lo); }
    assert p.lo % b == 0;
    var va := StartVa(mm, p.lo, p.level);
    assert va % b == 0 && p.lo <= va by { if mm.va > p.lo { AlignDown(mm.va, p.lo, p.level); } }
    QuotientSlot(va, p.lo, p.level, |pt.mem[t]|);
  }

  lemma AlignDown(x: nat, lo: nat, level: Level)
    requires lo <= x && lo % Block(level) == 0
    ensures (x - x % Block(level)) % Block(level) == 0 && lo <= x - x % Block(level)
  {
    var b := Block(level);
    hide Block;
    DivRange(x, b);
    DivRange(lo, b);
    MulMod(x / b, b);
    DivBounds(x, b);
    NestUnits(lo / b, x / b - lo / b + 1, x / b, b) by {
      assert (x / b + 1) * b == (x / b) * b + b;
    }
    MulMonotone(lo / b, x / b, b);
  }

  lemma QuotientSlot(va: nat, lo: nat, level: Level, n: nat)
    requires lo <= va < lo + n * Block(level) && lo % Block(level) == 0 && va % Block(level) == 0
    ensures (va - lo) / Block(level) < n && lo + (va - lo) / Block(level) * Block(level) == va
  {
    var b := Block(level);
    hide Block;
    Quotients(va, va / b, lo, lo / b, b, n);
  }

  lemma Quotients(va: nat, y: nat, lo: nat, x: nat, b: nat, n: nat)
    requires b > 0 && va == y * b && lo == x * b && lo <= va < lo + n * b
    ensures (va - lo) / b == y - x < n && lo + (y - x) * b == va
  {
    assert y < x ==> (y + 1) * b <= x * b;
    assert x + n <= y ==> (x + n) * b <= y * b;
    assert (x + n) * b == x * b + n * b;
    assert (y - x) * b == va - lo;
    assert (y - x + 1) * b == (y - x) * b + b;
    DivIs(va - lo, y - x, b);
  }

  lemma BlockPages(x: nat, level: Level)
    requires x % Block(level) == 0
    ensures PageAligned(x) && PageAligned(x + Block(level))
  {
    var b := Block(level);
    var k := b / PAGE_SIZE;
    assert b == k * PAGE_SIZE;
    hide Block;
    DivRange(x, b);
    var q := x / b;
    var m := q * k;
    assert q * (k * PAGE_SIZE) == m * PAGE_SIZE;
    assert x == m * PAGE_SIZE && x + b == (m + k) * PAGE_SIZE;
    MulMod(m, PAGE_SIZE);
    MulMod(m + k, PAGE_SIZE);
  }

  lemma SlotPages(pt: PT, t: nat, i: nat)
    requires Struct(pt) && HasSlot(pt, t, i)
    ensures PageAligned(SlotLo(pt.place[t], i)) && PageAligned(SlotHi(pt.place[t], i)) && PageAligned(pt.place[t].hi)
  {
    SlotSpan(pt, t, i);
    var p := pt.place[t];
    hide Block;
    BlockPages(SlotLo(p, i), p.level);
    if t != 0 { SpanAligned(p.level, p.lo); }
    SlotAligned(p.level, p.lo, |pt.mem[t]|);
    BlockPages(p.hi, p.level);
  }

  /** The descriptor-type assertions of the mapper cannot fire. */
  lemma MapAsserts(pt: PT, v: View, t: nat, i: nat, mm: Region)
    requires Struct(pt) && Owners(pt, v) && HasSlot(pt, t, i)
    requires Mappable(mm) && Inner(v.rs, mm) && v.w0 == mm.va && v.w1 <= SlotHi(pt.place[t], i)
    requires v.w1 == Max(SlotLo(pt.place[t], i), mm.va) && v.w1 < Min(mm.End(), SlotHi(pt.place[t], i))
    ensures var p := pt.place[t]; var d := pt.mem[t][i]; var va := SlotLo(p, i);
            && (Covered(mm, va, p.level) ==> p.level == 3 ==> !d.Table?)
            && (!Covered(mm, va, p.level) ==> p.level < 3 && !d.Leaf?)
            && (Covered(mm, va, p.level) && d.Leaf? ==> Owned(v.(w1 := SlotHi(p, i)), d, va, SlotHi(p, i)))
  {
    hide Struct, Owners, PageAligned, Inner;
    SlotFacts(pt, v, t, i);
    SlotPages(pt, t, i);
    if pt.place[t].level == 3 { PageInside(SlotLo(pt.place[t], i), mm.va, mm.size); }
    InnerAt(v.rs, mm, SlotLo(pt.place[t], i), SlotHi(pt.place[t], i));
  }

  lemma SlotFacts(pt: PT, v: View, t: nat, i: nat)
    requires Struct(pt) && Owners(pt, v)
    ensures OwnedAt(pt, v, t, i) && SlotOK(pt, t, i)
  {
  }

  lemma PageInside(lo: nat, va: nat, size: nat)
    requires PageAligned(lo) && PageAligned(va) && PageAligned(size)
    requires lo < va + size && va < lo + Block(3)
    ensures va <= lo && lo + Block(3) <= va + size
  {
  }

  lemma InnerAt(rs: seq<Region>, mm: Region, lo: nat, hi: nat)
    requires Inner(rs, mm) && Overlap(mm.va, mm.End(), lo, hi)
    ensures var r := First(rs, lo, hi);
            r.Some? && r.value.va <= lo && hi <= r.value.End() ==> mm.va <= lo && hi <= mm.End()
  {
  }

  /** Writing (or keeping) a leaf under a covered entry. */
  lemma MapLeafStep(pt: PT, v: View, leak: seq<nat>, t: nat, i: nat, d: Desc)
    requires HasSlot(pt, t, i) && PlacedOK(pt, v, leak, Within(pt.place[t])) && PoolOK(pt, leak)
    requires !pt.mem[t][i].Table? && d.Leaf? && pt.place[t].level >= 1 && d.pa % Block(pt.place[t].level) == 0
    requires v.w0 <= SlotLo(pt.place[t], i) == v.w1
    requires Owned(v.(w1 := SlotHi(pt.place[t], i)), d, SlotLo(pt.place[t], i), SlotHi(pt.place[t], i))
    ensures PlacedOK(Put(pt, t, i, d), v.(w1 := SlotHi(pt.place[t], i)), leak, Within(pt.place[t]))
    ensures PoolOK(Put(pt, t, i, d), leak)
    ensures Frame(pt, Put(pt, t, i, d), pt.place[t].level)
  {
    var v' := v.(w1 := SlotHi(pt.place[t], i));
    StructPut(pt, t, i, d);
    OwnersPut(pt, v, v', t, i, d);
    CountsMove(pt, v, v', leak, t, i);
    CountsPut(pt, v', leak, Within(pt.place[t]), t, i, d);
  }

  lemma FrameBase(a: PT, b: PT, t: nat)
    requires t in a.place && t < |a.mem| && Frame(a, b, a.place[t].level)
    requires 0 in a.place && (t == 0 || a.place[0].level < a.place[t].level)
    requires t in b.place && b.place[t] == a.place[t]
    ensures 0 in b.place && b.place[0] == a.place[0] && |b.mem| == |a.mem| && |b.mem[t]| == |a.mem[t]|
  {
    assert |a.mem| > 0;
  }

  lemma FrameTrans(a: PT, b: PT, c: PT, l: nat, l': nat)
    requires Frame(a, b, l) && Frame(b, c, l') && l <= l'
    ensures Frame(a, c, l)
  {
  }

  /** No sub-table has a zero count. */
  ghost predicate Exhausted(pt: PT) {
    forall u | 1 <= u < |pt.cnt| :: pt.cnt[u] != 0
  }

  /** The entry at `r` is invalid and the region needs a table below it. */
  ghost predicate Stuck(pt: PT, mm: Region, r: int, t: nat, i: nat) {
    HasSlot(pt, t, i) && pt.mem[t][i] == Invalid && r == SlotLo(pt.place[t], i) && Splits(mm, r, pt.place[t].level)
  }

  /** Mapping stopped at `r` for want of a free table. */
  ghost predicate MapFailed(pt: PT, v: View, leak: seq<nat>, r: int, hi: int) {
    var m := Max(r, v.mm.va);
    && PageAligned(r) && v.w1 <= m < hi && Exhausted(pt)
    && Struct(pt) && Owners(pt, v.(w1 := m)) && LeakOK(pt, leak)
    && Counts(pt, v.(w1 := m + 1), leak, NoneOpen)
    && (exists t: nat, i: nat :: Stuck(pt, v.mm, r, t, i))
    && forall u | u in pt.place && pt.place[u].lo <= m < pt.place[u].hi :: pt.place[u].level <= 2
  }

  /** The window of `v` extended to `m`. */
  function Upto(v: View, m: int): View { v.(w1 := m) }

  /** Where the mapping loop stands before entry `i` of table `t`. */
  ghost predicate MapLoop(pt: PT, v: View, leak: seq<nat>, t: nat, i: nat, va: nat) {
    && t in pt.place && t < |pt.mem| && va == SlotLo(pt.place[t], i) && v.w1 <= Max(va, v.mm.va)
    && PlacedOK(pt, Upto(v, Max(va, v.mm.va)), leak, Within(pt.place[t])) && PoolOK(pt, leak)
  }

  lemma MapEnter(pt: PT, v: View, leak: seq<nat>, t: nat, mm: Region, regime: Regime)
    requires MapArgs(v, mm, regime) && t in pt.place && PlacedOK(pt, v, leak, Above(pt.place[t]))
    requires Pool(pt) && Clean(pt, leak) && InUse(pt, t)
    requires v.w1 == Max(pt.place[t].lo, mm.va) < Min(mm.End(), pt.place[t].hi)
    ensures t < |pt.cnt| && (t == 0 <==> pt.place[t].level <= pt.place[0].level)
    ensures var p := pt.place[t]; var va := StartVa(mm, p.lo, p.level); var i := IndexOf(va, p.lo, p.level);
            && 0 <= i && p.lo <= va && t < |pt.mem| && i < |pt.mem[t]| && va < mm.End() && mm.va < va + Block(p.level)
            && var pt' := if t == 0 then pt else pt.(cnt := pt.cnt[t := pt.cnt[t] + 1]);
            MapLoop(pt', v, leak, t, i, va) && Frame(pt, pt', p.level)
  {
    assert PlaceOK(pt, t) && PlaceOK(pt, 0);
    StartSlot(pt, mm, t);
    CountsEnter(pt, v, leak, t);
    var pt' := if t == 0 then pt else pt.(cnt := pt.cnt[t := pt.cnt[t] + 1]);
    StructCnt(pt, pt'.cnt);
    assert CountAt(pt', v, leak, Within(pt.place[t]), t);
    assert v == Upto(v, Max(StartVa(mm, pt.place[t].lo, pt.place[t].level), mm.va));
    forall u: nat, j: nat ensures OwnedAt(pt', v, u, j) { assert OwnedAt(pt, v, u, j); }
  }

  /** Coming back from the sub-table of an entry. */
  lemma MapAscend(pt: PT, v: View, leak: seq<nat>, t: nat, i: nat, s: nat)
    requires HasSlot(pt, t, i) && pt.mem[t][i] == Table(s) && s in pt.place && PlacedOK(pt, v, leak, Above(pt.place[s]))
    ensures PlacedOK(pt, v, leak, Within(pt.place[t]))
  {
    CountsDescend(pt, v, leak, t, i);
  }

  /** The end of the loop, or of a sub-table in which the region ends. */
  lemma MapLeave(pt: PT, v: View, leak: seq<nat>, t: nat, m: int)
    requires t in pt.place && PlacedOK(pt, Upto(v, m), leak, Within(pt.place[t]))
    requires v.w0 < m <= pt.place[t].hi && pt.place[t].lo < m
    requires v.w0 < pt.place[t].hi
    ensures PlacedOK(pt, Upto(v, m), leak, Above(pt.place[t]))
  {
    CountsAround(pt, Upto(v, m), leak, t);
  }

  ghost predicate MapArgs(v: View, mm: Region, regime: Regime) {
    && Mappable(mm) && Inner(v.rs, mm) && NoOverride(v.ov, mm)
    && v.mm == mm && v.w0 == mm.va && v.regime == regime
  }

  /** What mapping under `t` returns: done up to the end of the region or table, or failed. */
  ghost predicate MapResult(pt: PT, v: View, leak: seq<nat>, t: nat, r: int) {
    t in pt.place &&
    var m := Min(v.mm.End(), pt.place[t].hi);
    if r == m - 1 then PlacedOK(pt, Upto(v, m), leak, Above(pt.place[t])) else MapFailed(pt, v, leak, r, m)
  }

  lemma NotLast(x: int, y: int)
    requires PageAligned(x) && PageAligned(y)
    ensures x != y - 1
  {
  }

  /** No free table for an invalid entry. */
  lemma MapOutOfTables(pt: PT, v: View, leak: seq<nat>, t: nat, i: nat, va: nat, mm: Region, regime: Regime)
    requires MapArgs(v, mm, regime) && MapLoop(pt, v, leak, t, i, va)
    requires i < |pt.mem[t]| && pt.mem[t][i] == Invalid && pt.place[t].level <= 2 && Exhausted(pt) && Splits(mm, va, pt.place[t].level)
    requires Max(va, mm.va) < Min(mm.End(), va + Block(pt.place[t].level))
    ensures MapResult(pt, v, leak, t, va) && PoolOK(pt, leak) && va != va + Block(pt.place[t].level) - 1
  {
    hide Inner, NoOverride, Clean, InUse, Overlap, Struct, Owners, Counts, LeakOK, PageAligned, Block, Pool;
    SlotSpan(pt, t, i);
    SlotPages(pt, t, i);
    RegionPages(mm);
    NotLast(va, Min(mm.End(), pt.place[t].hi));
    NotLast(va, SlotHi(pt.place[t], i));
    var m := Max(va, mm.va);
    assert Stuck(pt, mm, va, t, i);
    hide Splits;
    CountsFail(pt, Upto(v, m), leak, t, i, m);
    assert Upto(v, m).(w1 := m + 1) == v.(w1 := m + 1);
  }

  /** Entry `i` of `t` points at sub-table `s`, which is about to be entered. */
  ghost predicate MapReady(pt: PT, v: View, leak: seq<nat>, t: nat, i: nat, va: nat, s: nat) {
    && HasSlot(pt, t, i) && pt.mem[t][i] == Table(s) && va == SlotLo(pt.place[t], i) && v.w1 <= Max(va, v.mm.va)
    && PlacedOK(pt, Upto(v, Max(va, v.mm.va)), leak, Within(pt.place[t]))
    && Pool(pt) && Clean(pt, leak) && InUse(pt, s)
  }

  /** Placing a free table under an invalid entry. */
  lemma MapCreate(pt: PT, v: View, leak: seq<nat>, t: nat, i: nat, va: nat, s: nat)
    requires MapLoop(pt, v, leak, t, i, va) && i < |pt.mem[t]| && pt.mem[t][i] == Invalid && pt.place[t].level <= 2
    requires 1 <= s < |pt.cnt| && pt.cnt[s] == 0
    ensures s !in pt.place && s < |pt.mem| && Blank(pt.mem[s])
    ensures MapReady(Link(pt, t, i, s), v, leak, t, i, va, s) && Frame(pt, Link(pt, t, i, s), pt.place[t].level)
  {
    assert s !in pt.place;
    LinkStep(pt, Upto(v, Max(va, v.mm.va)), leak, t, i, s);
    hide PlacedOK, Block;
  }

  lemma MapPresent(pt: PT, v: View, leak: seq<nat>, t: nat, i: nat, va: nat)
    requires MapLoop(pt, v, leak, t, i, va) && i < |pt.mem[t]| && pt.mem[t][i].Table?
    ensures MapReady(pt, v, leak, t, i, va, pt.mem[t][i].next) && Frame(pt, pt, pt.place[t].level)
  {
  }

  /** Recursing into the sub-table of an entry. */
  lemma MapInto(pt: PT, v: View, leak: seq<nat>, t: nat, i: nat, va: nat, s: nat, mm: Region, regime: Regime)
    requires MapReady(pt, v, leak, t, i, va, s) && MapArgs(v, mm, regime)
    ensures s in pt.place && s < |pt.mem| && pt.place[t].level < 3
    ensures pt.place[s].level == pt.place[t].level + 1 && pt.place[s].lo == va && pt.place[s].hi == va + Block(pt.place[t].level)
    ensures PlacedOK(pt, Upto(v, Max(va, mm.va)), leak, Above(pt.place[s]))
    ensures Pool(pt) && Clean(pt, leak) && InUse(pt, s)
    ensures MapArgs(Upto(v, Max(va, mm.va)), mm, regime)
  {
    hide Inner, NoOverride, Clean, InUse, Overlap, Owners, Counts, LeakOK, Block;
    assert SlotOK(pt, t, i);
    assert PlaceOK(pt, s);
    CountsDescend(pt, Upto(v, Max(va, mm.va)), leak, t, i);
  }

  /** Coming back from sub-table `s`: go on to the next entry, or stop because the region
      ended inside it or tables ran out. */
  lemma MapBack(mid: PT, pt: PT, v: View, leak: seq<nat>, t: nat, i: nat, va: nat, s: nat, mm: Region, regime: Regime, r: int)
    requires MapReady(mid, v, leak, t, i, va, s) && MapArgs(v, mm, regime)
    requires s in mid.place && s in pt.place && pt.place[s] == mid.place[s]
    requires mid.place[s].level == mid.place[t].level + 1 && mid.place[s].lo == va && mid.place[s].hi == va + Block(mid.place[t].level)
    requires Max(va, mm.va) < Min(mm.End(), va + Block(mid.place[t].level))
    requires Frame(mid, pt, mid.place[t].level + 1) && PoolOK(pt, leak)
    requires MapResult(pt, Upto(v, Max(va, mm.va)), leak, s, r)
    ensures HasSlot(pt, t, i) && pt.place[t] == mid.place[t]
    ensures var hi := va + Block(mid.place[t].level);
            if r == hi - 1 then MapLoop(pt, v, leak, t, i + 1, hi) && hi <= mm.End() else MapResult(pt, v, leak, t, r)
  {
    hide Inner, NoOverride, PoolOK, Clean, InUse, Overlap, Struct, Owners, Counts, LeakOK, Block, Pool;
    var m := Max(va, mm.va);
    var hi := va + Block(mid.place[t].level);
    var e := Min(mm.End(), hi);
    assert PlacedOK(mid, Upto(v, m), leak, Within(mid.place[t]));
    assert HasSlot(pt, t, i) && pt.mem[t][i] == Table(s);
    SlotSpan(mid, t, i);
    SlotPages(mid, t, i);
    if r == e - 1 {
      assert Upto(Upto(v, m), e) == Upto(v, e);
      MapAscend(pt, Upto(v, e), leak, t, i, s);
      if e == hi { MapNext(pt, v, leak, t, i); } else { MapLeave(pt, v, leak, t, e); }
    } else {
      var x := Max(r, mm.va);
      assert Upto(v, m).(w1 := x) == v.(w1 := x) && Upto(v, m).(w1 := x + 1) == v.(w1 := x + 1);
    }
  }

  lemma EndSlot(pt: PT, t: nat, i: nat)
    requires Struct(pt) && t in pt.place && t < |pt.mem| && 0 < i <= |pt.mem[t]|
    ensures PageAligned(SlotLo(pt.place[t], i)) && pt.place[t].lo < SlotLo(pt.place[t], i) <= pt.place[t].hi
    ensures i == |pt.mem[t]| ==> SlotLo(pt.place[t], i) == pt.place[t].hi
  {
    assert PlaceOK(pt, t);
    SlotSpan(pt, t, i - 1);
    SlotPages(pt, t, i - 1);
    assert SlotLo(pt.place[t], i) == SlotHi(pt.place[t], i - 1);
  }

  lemma MapFinish(pt: PT, v: View, leak: seq<nat>, t: nat, i: nat, va: nat, mm: Region, regime: Regime)
    requires MapArgs(v, mm, regime) && MapLoop(pt, v, leak, t, i, va) && mm.va < va <= mm.End()
    requires t < |pt.mem| && 0 < i <= |pt.mem[t]| && (i == |pt.mem[t]| || mm.End() - 1 <= va)
    ensures MapResult(pt, v, leak, t, va - 1) && PoolOK(pt, leak)
  {
    hide Owners, Counts, LeakOK, PoolOK, Inner, NoOverride;
    EndSlot(pt, t, i);
    hide Struct, Block, SlotLo;
    assert va == Min(mm.End(), pt.place[t].hi);
    MapLeave(pt, v, leak, t, va);
  }

  /** What holds at an entry the loop is about to handle. */
  lemma MapSlot(pt: PT, v: View, leak: seq<nat>, t: nat, i: nat, va: nat, mm: Region, regime: Regime)
    requires MapArgs(v, mm, regime) && MapLoop(pt, v, leak, t, i, va) && i < |pt.mem[t]|
    requires va < mm.End() && mm.va < va + Block(pt.place[t].level)
    ensures var p := pt.place[t]; var d := pt.mem[t][i];
            && (Covered(mm, va, p.level) ==> p.level == 3 ==> !d.Table?)
            && (!Covered(mm, va, p.level) ==> p.level < 3 && !d.Leaf?)
            && |pt.cnt| == |pt.mem| && |pt.mem| >= 1 && PageAligned(mm.End()) && va == SlotLo(p, i)
            && p.lo <= va && va + Block(p.level) <= p.hi && PageAligned(va + Block(p.level))
            && Max(va, mm.va) < Min(mm.End(), va + Block(p.level))
    ensures HasSlot(pt, t, i) && Frame(pt, pt, pt.place[t].level) && mm.size > 0
    ensures 0 in pt.place && (t == 0 || pt.place[0].level < pt.place[t].level)
  {
    hide Counts, LeakOK, Clean, InUse, Block, Struct, Owners, Inner, NoOverride, Overlap, PageAligned;
    SlotSpan(pt, t, i);
    SlotPages(pt, t, i);
    RegionPages(mm);
    MapAsserts(pt, Upto(v, Max(va, mm.va)), t, i, mm);
    AboveBase(pt, t);
  }

  lemma RegionPages(mm: Region)
    requires Mappable(mm)
    ensures PageAligned(mm.End()) && PageAligned(mm.EndPa())
  {
  }

  lemma AboveBase(pt: PT, t: nat)
    requires Struct(pt) && t in pt.place
    ensures 0 in pt.place && (t == 0 || pt.place[0].level < pt.place[t].level)
  {
    assert PlaceOK(pt, t);
  }

  lemma MapWrite(pt: PT, v: View, leak: seq<nat>, t: nat, i: nat, va: nat, mm: Region, pa: nat, regime: Regime)
    requires MapArgs(v, mm, regime)
    requires MapLoop(pt, v, leak, t, i, va) && i < |pt.mem[t]| && pt.mem[t][i] == Invalid
    requires Covered(mm, va, pt.place[t].level) && pa == mm.pa + va - mm.va
    requires pt.place[t].level == 3 || (pt.place[t].level >= 1 && pa % Block(pt.place[t].level) == 0 && Block(pt.place[t].level) <= mm.granularity)
    ensures var pt' := Put(pt, t, i, Leaf(pa, Normalise(regime, mm.attr)));
            MapLoop(pt', v, leak, t, i + 1, va + Block(pt.place[t].level)) && PoolOK(pt', leak) && Frame(pt, pt', pt.place[t].level)
  {
    var w := Upto(v, va);
    var d := Leaf(pa, Normalise(regime, mm.attr));
    assert OwnedAt(pt, w, t, i);
    SlotPages(pt, t, i);
    MapLeafStep(pt, w, leak, t, i, d);
    MapNext(Put(pt, t, i, d), v, leak, t, i);
  }

  lemma MapKeep(pt: PT, v: View, leak: seq<nat>, t: nat, i: nat, va: nat, mm: Region, regime: Regime)
    requires MapArgs(v, mm, regime)
    requires MapLoop(pt, v, leak, t, i, va) && i < |pt.mem[t]| && pt.mem[t][i].Leaf?
    requires Covered(mm, va, pt.place[t].level)
    ensures MapLoop(pt, v, leak, t, i + 1, va + Block(pt.place[t].level)) && PoolOK(pt, leak) && Frame(pt, pt, pt.place[t].level)
  {
    var w := Upto(v, va);
    assert OwnedAt(pt, w, t, i) && SlotOK(pt, t, i);
    MapLeafStep(pt, w, leak, t, i, pt.mem[t][i]);
    assert pt.mem[t][i := pt.mem[t][i]] == pt.mem[t];
    assert pt.mem[t := pt.mem[t]] == pt.mem;
    assert Put(pt, t, i, pt.mem[t][i]) == pt;
    MapNext(pt, v, leak, t, i);
  }

  lemma MapNext(pt: PT, v: View, leak: seq<nat>, t: nat, i: nat)
    requires HasSlot(pt, t, i) && v.mm.va <= SlotHi(pt.place[t], i) && v.w1 <= SlotHi(pt.place[t], i)
    requires PlacedOK(pt, Upto(v, SlotHi(pt.place[t], i)), leak, Within(pt.place[t])) && PoolOK(pt, leak)
    ensures MapLoop(pt, v, leak, t, i + 1, SlotHi(pt.place[t], i))
  {
    assert SlotLo(pt.place[t], i + 1) == SlotHi(pt.place[t], i);
  }

  // ----- Steps of the unmapping loop

  /** The window of `v` from `m` on. */
  function From(v: View, m: int): View { v.(w0 := m) }

  /** `um` is what is left of the region in flight and overlaps no listed region. */
  ghost predicate UnmapArgs(v: View, um: Region) {
    && PageAligned(um.va) && PageAligned(um.size) && um.size > 0 && v.w1 == um.End()
    && forall q | q in v.rs :: !Meets(q, um.va, um.End())
  }

  /** First address still to be unmapped when the loop stands at `va`. */
  function Rest(um: Region, va: int): int { Min(Max(va, um.va), um.End()) }

  ghost predicate Kept(pt: PT, rs: seq<Region>, leak: seq<nat>, tidy: bool) {
    Pool(pt) && (tidy ==> Clean(pt, leak) && Tidy(pt, rs, leak))
  }

  /** Where the unmapping loop stands before entry `i` of table `t`. */
  ghost predicate UnmapLoop(pt: PT, v: View, leak: seq<nat>, t: nat, i: nat, va: nat, um: Region, tidy: bool) {
    && t in pt.place && t < |pt.mem| && va == SlotLo(pt.place[t], i)
    && PlacedOK(pt, From(v, Rest(um, va)), leak, Within(pt.place[t]))
    && Kept(pt, v.rs, leak, tidy) && InUse(pt, 0)
  }

  lemma UnmapEnter(pt: PT, v: View, leak: seq<nat>, t: nat, um: Region, tidy: bool)
    requires UnmapArgs(v, um) && t in pt.place && PlacedOK(pt, v, leak, Above(pt.place[t]))
    requires Kept(pt, v.rs, leak, tidy) && InUse(pt, 0)
    requires v.w0 == Max(pt.place[t].lo, um.va) < Min(um.End(), pt.place[t].hi)
    ensures t < |pt.cnt| && (t == 0 <==> pt.place[t].level <= pt.place[0].level)
    ensures var p := pt.place[t]; var va := StartVa(um, p.lo, p.level); var i := IndexOf(va, p.lo, p.level);
            && 0 <= i && p.lo <= va && t < |pt.mem| && i < |pt.mem[t]| && va < um.End() && um.va < va + Block(p.level)
            && UnmapLoop(pt, v, leak, t, i, va, um, tidy) && Frame(pt, pt, p.level) && |pt.mem| == |pt.cnt|
  {
    hide Owners, Counts, LeakOK, Clean, Tidy, InUse, Block;
    AboveBase(pt, t);
    StartSlot(pt, um, t);
    CountsAround(pt, v, leak, t);
    assert From(v, Rest(um, StartVa(um, pt.place[t].lo, pt.place[t].level))) == v;
  }

  /** The descriptor-type assertions of the unmapper cannot fire. */
  lemma UnmapSlot(pt: PT, v: View, leak: seq<nat>, t: nat, i: nat, va: nat, um: Region, tidy: bool)
    requires UnmapArgs(v, um) && UnmapLoop(pt, v, leak, t, i, va, um, tidy) && i < |pt.mem[t]|
    requires va < um.End() && um.va < va + Block(pt.place[t].level)
    ensures var p := pt.place[t]; var d := pt.mem[t][i];
            && (Covered(um, va, p.level) ==> if p.level == 3 then d.Leaf? else !d.Invalid?)
            && (!Covered(um, va, p.level) ==> p.level < 3 && d.Table?)
            && va == SlotLo(p, i) && p.lo <= va && va + Block(p.level) <= p.hi && PageAligned(va + Block(p.level)) && PageAligned(um.End())
    ensures um.size > 0 && HasSlot(pt, t, i) && Frame(pt, pt, pt.place[t].level) && |pt.mem| == |pt.cnt|
    ensures Overlap(SlotLo(pt.place[t], i), SlotHi(pt.place[t], i), um.va, um.End())
    ensures 0 in pt.place && (t == 0 || pt.place[0].level < pt.place[t].level)
  {
    hide Counts, LeakOK, Clean, Tidy, InUse, Block, Struct, Owners, UnmapArgs, PageAligned;
    SlotSpan(pt, t, i);
    SlotPages(pt, t, i);
    AboveBase(pt, t);
    UnmapArgsFrom(v, um, Rest(um, va));
    UnmapAsserts(pt, From(v, Rest(um, va)), t, i, um);
  }

  lemma UnmapArgsFrom(v: View, um: Region, m: int)
    requires UnmapArgs(v, um)
    ensures UnmapArgs(From(v, m), um) && PageAligned(um.End()) && um.size > 0
  {
  }

  lemma UnmapAsserts(pt: PT, v: View, t: nat, i: nat, um: Region)
    requires Struct(pt) && Owners(pt, v) && HasSlot(pt, t, i) && UnmapArgs(v, um)
    requires v.w0 == Max(SlotLo(pt.place[t], i), um.va) < Min(um.End(), SlotHi(pt.place[t], i))
    ensures var p := pt.place[t]; var d := pt.mem[t][i]; var va := SlotLo(p, i);
            && (Covered(um, va, p.level) ==> if p.level == 3 then d.Leaf? else !d.Invalid?)
            && (!Covered(um, va, p.level) ==> p.level < 3 && d.Table?)
            && (d.Leaf? ==> First(v.rs, va, SlotHi(p, i)).None?)
  {
    hide Struct, Owners, PageAligned, Block;
    SlotFacts(pt, v, t, i);
    SlotPages(pt, t, i);
    if pt.place[t].level == 3 { PageInside(SlotLo(pt.place[t], i), um.va, um.size); }
  }

  lemma UnmapErase(pt: PT, v: View, leak: seq<nat>, t: nat, i: nat, va: nat, um: Region, tidy: bool)
    requires UnmapArgs(v, um) && UnmapLoop(pt, v, leak, t, i, va, um, tidy) && i < |pt.mem[t]| && pt.mem[t][i].Leaf?
    requires Covered(um, va, pt.place[t].level)
    ensures var pt' := Put(pt, t, i, Invalid);
            UnmapLoop(pt', v, leak, t, i + 1, va + Block(pt.place[t].level), um, tidy) && Frame(pt, pt', pt.place[t].level)
  {
    var w, w' := From(v, va), From(v, va + Block(pt.place[t].level));
    UnmapAsserts(pt, w, t, i, um);
    hide Block, LeakOK, Struct, Owners, Counts;
    StructPut(pt, t, i, Invalid);
    OwnersPut(pt, w, w', t, i, Invalid);
    CountsMove(pt, w, w', leak, t, i);
    CountsPut(pt, w', leak, Within(pt.place[t]), t, i, Invalid);
    UnmapPutKept(pt, v.rs, leak, t, i, tidy);
    assert SlotLo(pt.place[t], i + 1) == SlotHi(pt.place[t], i);
  }

  lemma UnmapPutKept(pt: PT, rs: seq<Region>, leak: seq<nat>, t: nat, i: nat, tidy: bool)
    requires HasSlot(pt, t, i) && Kept(pt, rs, leak, tidy) && InUse(pt, 0) && LeakOK(pt, leak)
    ensures var pt' := Put(pt, t, i, Invalid);
            Kept(pt', rs, leak, tidy) && InUse(pt', 0) && LeakOK(pt', leak) && Frame(pt, pt', pt.place[t].level)
  {
    if tidy { TidyKept(pt, Put(pt, t, i, Invalid), rs, leak); }
  }

  /** Entering the sub-table of an entry that the region overlaps. */
  lemma UnmapInto(pt: PT, v: View, leak: seq<nat>, t: nat, i: nat, va: nat, um: Region, tidy: bool, s: nat)
    requires UnmapArgs(v, um) && UnmapLoop(pt, v, leak, t, i, va, um, tidy) && i < |pt.mem[t]| && pt.mem[t][i] == Table(s)
    requires va < um.End() && um.va < va + Block(pt.place[t].level)
    ensures s in pt.place && s < |pt.mem| && pt.place[t].level < 3
    ensures pt.place[s].level == pt.place[t].level + 1 && pt.place[s].lo == va && pt.place[s].hi == va + Block(pt.place[t].level)
    ensures PlacedOK(pt, From(v, Max(va, um.va)), leak, Above(pt.place[s])) && UnmapArgs(From(v, Max(va, um.va)), um)
    ensures Max(va, um.va) < Min(um.End(), pt.place[s].hi)
    ensures Kept(pt, v.rs, leak, tidy) && InUse(pt, 0)
  {
    hide Clean, Tidy, InUse, Overlap, Owners, Counts, LeakOK, Block;
    assert SlotOK(pt, t, i);
    assert PlaceOK(pt, s);
    CountsDescend(pt, From(v, Max(va, um.va)), leak, t, i);
  }

  /** What unmapping under `t` leaves. */
  ghost predicate UnmapDone(pt: PT, v: View, leak: seq<nat>, t: nat, um: Region, tidy: bool) {
    && t in pt.place && PlacedOK(pt, From(v, Min(um.End(), pt.place[t].hi)), leak, Above(pt.place[t]))
    && Kept(pt, v.rs, leak, tidy) && InUse(pt, t)
  }

  /** Back from sub-table `s`, which is dropped when its count is zero. */
  lemma UnmapBack(mid: PT, pt: PT, v: View, leak: seq<nat>, t: nat, i: nat, va: nat, s: nat, um: Region, tidy: bool)
    requires UnmapArgs(v, um) && UnmapLoop(mid, v, leak, t, i, va, um, tidy) && i < |mid.mem[t]| && mid.mem[t][i] == Table(s)
    requires s in mid.place && s in pt.place && pt.place[s] == mid.place[s] && s < |pt.mem|
    requires mid.place[s].level == mid.place[t].level + 1 && mid.place[s].lo == va && mid.place[s].hi == va + Block(mid.place[t].level)
    requires va < um.End() && um.va < va + Block(mid.place[t].level)
    requires Frame(mid, pt, mid.place[t].level + 1) && UnmapDone(pt, From(v, Max(va, um.va)), leak, s, um, tidy)
    ensures HasSlot(pt, t, i) && pt.place[t] == mid.place[t] && pt.mem[t][i] == Table(s) && s < |pt.cnt| == |pt.mem|
    ensures var pt' := if pt.cnt[s] == 0 then Unlink(pt, t, i, s) else pt;
            && UnmapLoop(pt', v, leak, t, i + 1, va + Block(mid.place[t].level), um, tidy)
            && Frame(pt, pt', mid.place[t].level) && t in pt'.place && pt'.place[t] == mid.place[t]
  {
    var hi := va + Block(mid.place[t].level);
    var m := Max(va, um.va);
    assert HasSlot(pt, t, i) && pt.mem[t][i] == Table(s);
    assert From(From(v, m), Min(um.End(), hi)) == From(v, Rest(um, hi));
    MapAscend(pt, From(v, Rest(um, hi)), leak, t, i, s);
    UnmapDrop(pt, From(v, Rest(um, hi)), leak, t, i, s, tidy);
    hide PlacedOK, InUse, Kept;
    assert SlotLo(pt.place[t], i + 1) == SlotHi(pt.place[t], i);
  }

  lemma UnmapDrop(pt: PT, v: View, leak: seq<nat>, t: nat, i: nat, s: nat, tidy: bool)
    requires HasSlot(pt, t, i) && PlacedOK(pt, v, leak, Within(pt.place[t])) && InUse(pt, s) && Kept(pt, v.rs, leak, tidy)
    requires pt.mem[t][i] == Table(s)
    ensures s < |pt.cnt|
    ensures var pt' := if pt.cnt[s] == 0 then Unlink(pt, t, i, s) else pt;
            && PlacedOK(pt', v, leak, Within(pt.place[t])) && InUse(pt', 0) && Kept(pt', v.rs, leak, tidy)
            && Frame(pt, pt', pt.place[t].level) && t in pt'.place && pt'.place[t] == pt.place[t]
  {
    hide Owners, LeakOK, Clean, Block, Struct;
    UnlinkFrame(pt, t, i, s);
    assert CountAt(pt, v, leak, Within(pt.place[t]), s);
    if pt.cnt[s] == 0 {
      UnlinkStep(pt, v, leak, t, i, s);
      if tidy { TidyKept(pt, Unlink(pt, t, i, s), v.rs, leak); }
    }
  }

  lemma UnlinkFrame(pt: PT, t: nat, i: nat, s: nat)
    requires Struct(pt) && HasSlot(pt, t, i) && pt.mem[t][i] == Table(s)
    ensures s < |pt.cnt| && Frame(pt, pt, pt.place[t].level)
    ensures var pt' := Unlink(pt, t, i, s);
            && s in pt.place && s != 0
            && Frame(pt, pt', pt.place[t].level) && t in pt'.place && pt'.place[t] == pt.place[t]
            && (Pool(pt) ==> Pool(pt')) && 0 in pt.place && 0 in pt'.place && pt'.place[0] == pt.place[0]
  {
    hide Block, TableSpan;
    assert SlotOK(pt, t, i);
    assert PlaceOK(pt, s) && PlaceOK(pt, t);
    var pt' := Unlink(pt, t, i, s);
    forall u | u in pt.place && pt.place[u].level <= pt.place[t].level ensures u in pt'.place && pt'.place[u] == pt.place[u] {
      assert PlaceOK(pt, u);
    }
    AboveBase(pt, t);
  }

  lemma UnmapFinish(pt: PT, v: View, leak: seq<nat>, t: nat, i: nat, va: nat, um: Region, tidy: bool)
    requires UnmapArgs(v, um) && UnmapLoop(pt, v, leak, t, i, va, um, tidy) && um.va < va
    requires t < |pt.mem| && 0 < i <= |pt.mem[t]| && (i == |pt.mem[t]| || um.End() - 1 <= va)
    ensures t < |pt.cnt| == |pt.mem|
    ensures var pt' := if t == 0 then pt else pt.(cnt := pt.cnt[t := pt.cnt[t] - 1]);
            UnmapDone(pt', v, leak, t, um, tidy) && Frame(pt, pt', pt.place[t].level)
  {
    EndSlot(pt, t, i);
    var m := Min(um.End(), pt.place[t].hi);
    var w := From(v, m);
    var pt' := if t == 0 then pt else pt.(cnt := pt.cnt[t := pt.cnt[t] - 1]);
    assert Rest(um, va) == m;
    CountsLeave(pt, w, leak, t);
    StructCnt(pt, pt'.cnt);
    if tidy { TidyKept(pt, pt', v.rs, leak); }
    forall u: nat, j: nat ensures OwnedAt(pt', w, u, j) { assert OwnedAt(pt, w, u, j); }
  }

  // ----- What unmapping leaves alone

  /** Entries whose span does not overlap [lo, hi), and tables that are not placed, are not
      written; a table is dropped when its count is zero or with the table that points at it. */
  ghost predicate Untouched(a: PT, b: PT, lo: nat, hi: nat) {
    && |b.mem| == |a.mem| == |a.cnt| == |b.cnt| && (forall u | 0 <= u < |a.mem| :: |b.mem[u]| == |a.mem[u]|)
    && (forall u | 0 <= u < |a.mem| && u !in a.place :: b.mem[u] == a.mem[u] && b.cnt[u] == a.cnt[u])
    && (forall u | 0 <= u < |a.mem| && u in a.place && u !in b.place :: b.cnt[u] == 0 || a.place[u].up !in b.place)
    && (forall u | u in b.place :: u in a.place && b.place[u] == a.place[u])
    && (forall u, i {:trigger b.mem[u][i]} | 0 <= u < |a.mem| && 0 <= i < |a.mem[u]| && u in a.place &&
          !Overlap(SlotLo(a.place[u], i), SlotHi(a.place[u], i), lo, hi) :: b.mem[u][i] == a.mem[u][i])
  }

  lemma UntouchedSame(a: PT, b: PT, lo: nat, hi: nat)
    requires a.mem == b.mem && a.place == b.place && |a.mem| == |a.cnt| == |b.cnt|
    requires forall u | 0 <= u < |a.cnt| && u !in a.place :: b.cnt[u] == a.cnt[u]
    ensures Untouched(a, b, lo, hi)
  {
  }

  lemma UntouchedTrans(a: PT, b: PT, c: PT, lo: nat, hi: nat)
    requires Untouched(a, b, lo, hi) && Untouched(b, c, lo, hi)
    ensures Untouched(a, c, lo, hi)
  {
    hide SlotLo, SlotHi, Overlap;
    forall u, i | 0 <= u < |a.mem| && 0 <= i < |a.mem[u]| && u in a.place && !Overlap(SlotLo(a.place[u], i), SlotHi(a.place[u], i), lo, hi)
      ensures c.mem[u][i] == a.mem[u][i]
    {
      assert b.mem[u][i] == a.mem[u][i];
      if u in b.place { assert c.mem[u][i] == b.mem[u][i]; }
    }
  }

  lemma UntouchedPut(pt: PT, t: nat, i: nat, s: nat, lo: nat, hi: nat)
    requires HasSlot(pt, t, i) && Overlap(SlotLo(pt.place[t], i), SlotHi(pt.place[t], i), lo, hi)
    requires |pt.mem| == |pt.cnt|
    ensures Untouched(pt, Put(pt, t, i, Invalid), lo, hi)
    ensures s < |pt.cnt| && pt.cnt[s] == 0 ==> Untouched(pt, Unlink(pt, t, i, s), lo, hi)
  {
    hide SlotLo, SlotHi, Overlap;
  }

  /** A table that no region meets and that still points at a table outside the unmapped
      stretch is left unused but not empty. */
  lemma LeftStale(pt: PT, pt': PT, v: View, leak: seq<nat>, um: Region, u: nat, j: nat)
    requires HasSlot(pt, u, j) && u != 0 && pt.mem[u][j].Table?
    requires !Overlap(SlotLo(pt.place[u], j), SlotHi(pt.place[u], j), um.va, um.End())
    requires First(v.rs, pt.place[u].lo, pt.place[u].hi).None? && u < |leak| && leak[u] == 0
    requires Untouched(pt, pt', um.va, um.End()) && InUse(pt', 0)
    requires PlacedOK(pt', v, leak, NoneOpen) && v.w1 <= v.w0
    ensures u !in pt'.place && pt'.mem[u][j] == pt.mem[u][j] && !Clean(pt', leak)
  {
    hide Struct, Owners, LeakOK, SlotLo, SlotHi;
    assert CountAt(pt', v, leak, NoneOpen, u);
    assert pt'.mem[u][j] == pt.mem[u][j];
  }
}
