/** With the base table at level 0, a failed add can leave a table that is free for reuse but still holds a
    table descriptor: adding a region of 1 GiB + 4 KiB to an empty context with two sub-tables. The first
    gigabyte is mapped by a block in one of them, the other is linked for the last page, and no table is
    left for level 3. */
module XlatStale {
  import opened Numbers
  import opened XlatDescriptor
  import opened XlatGeometry
  import opened XlatTables
  import opened XlatInvariant
  import opened XlatSteps
  import opened XlatRegions
  import opened XlatContext

  const GIB: nat := 0x4000_0000

  const BigRegion := Region(0, 0, GIB + PAGE_SIZE, Attr(Memory, true, false, true, false), GIB, true)

  /** In a context without regions only the base table is in use. */
  lemma OnlyBase(pt: PT, ov: map<nat, Attr>, regime: Regime, leak: seq<nat>, u: nat)
    requires PlacedOK(pt, Listed([], ov, regime), leak, NoneOpen) && InUse(pt, 0)
    requires forall x | 0 <= x < |leak| :: leak[x] == 0
    ensures u in pt.place ==> u == 0
  {
    hide Owners;
    if u in pt.place {
      assert PlaceOK(pt, u);
      assert CountAt(pt, Listed([], ov, regime), leak, NoneOpen, u);
    }
  }

  /** An entry that the region meets and does not cover is a table. */
  lemma MustDescend(pt: PT, ov: map<nat, Attr>, regime: Regime, leak: seq<nat>, t: nat, i: nat)
    requires PlacedOK(pt, Listed([BigRegion], ov, regime), leak, NoneOpen) && HasSlot(pt, t, i)
    requires var lo, hi := SlotLo(pt.place[t], i), SlotHi(pt.place[t], i); lo < BigRegion.End() && (pt.place[t].level == 0 || BigRegion.End() < hi)
    ensures pt.mem[t][i].Table? && pt.mem[t][i].next in pt.place && pt.mem[t][i].next < |pt.mem|
    ensures pt.place[t].level < 3 && pt.place[pt.mem[t][i].next] == Place(pt.place[t].level + 1, SlotLo(pt.place[t], i), SlotHi(pt.place[t], i), t, i)
    ensures pt.mem[t][i].next != 0
  {
    var v := Listed([BigRegion], ov, regime);
    assert OwnedAt(pt, v, t, i) && SlotOK(pt, t, i);
    assert PlaceOK(pt, pt.mem[t][i].next);
  }

  /** Three sub-tables are needed to map the region. */
  lemma TwoAreNotEnough(pt: PT, ov: map<nat, Attr>, regime: Regime, leak: seq<nat>)
    requires PlacedOK(pt, Listed([BigRegion], ov, regime), leak, NoneOpen) && 0 in pt.place && pt.place[0].level == 0
    ensures |pt.mem| > 3
  {
    hide Owners, Counts, LeakOK, Struct;
    TableSize(pt, 0);
    MustDescend(pt, ov, regime, leak, 0, 0);
    var a := pt.mem[0][0].next;
    TableSize(pt, a);
    MustDescend(pt, ov, regime, leak, a, 1);
    var b := pt.mem[a][1].next;
    TableSize(pt, b);
    MustDescend(pt, ov, regime, leak, b, 0);
  }

  lemma TableSize(pt: PT, t: nat)
    requires Struct(pt) && t in pt.place
    ensures t < |pt.mem| && |pt.mem[t]| >= 1 && (t == 0 ==> pt.place[0].lo == 0) && (t != 0 ==> |pt.mem[t]| == TABLE_ENTRIES)
  {
    assert PlaceOK(pt, t);
  }

  /** Where the mapper can stop: with one table for the first 512 GiB and one for the second gigabyte. */
  ghost predicate Halted(pt: PT, leak: seq<nat>, regime: Regime, end: int) {
    && PoolOK(pt, leak) && MapFailed(pt, View([], BigRegion, 0, 0, map[], regime), leak, end, BigRegion.End())
    && |pt.mem| == 3 && 0 in pt.place && pt.place[0].level == 0 && (forall u | 0 <= u < |leak| :: leak[u] == 0)
    && (forall u | u in pt.place && u != 0 :: pt.place[u].level >= 1 && Splits(BigRegion, pt.place[u].lo, pt.place[u].level - 1))
  }

  /** Both sub-tables are in use for the part of the region reached. */
  lemma HaltedUses(pt: PT, leak: seq<nat>, regime: Regime, end: int, u: nat)
    requires Halted(pt, leak, regime, end) && 1 <= u <= 2
    ensures u in pt.place && PlaceOK(pt, u) && PlaceOK(pt, 0) && 1 <= pt.place[u].level && pt.place[u].lo <= Max(end, 0) < BigRegion.End()
    ensures Struct(pt) && PageAligned(end) && Splits(BigRegion, pt.place[u].lo, pt.place[u].level - 1)
  {
    hide Owners, Splits;
    assert PlaceOK(pt, 0);
    assert pt.cnt[u] != 0;
    assert PlaceOK(pt, u);
    assert CountAt(pt, View([], BigRegion, 0, Max(end, 0) + 1, map[], regime), leak, NoneOpen, u);
  }

  lemma LowTable(pt: PT, u: nat)
    requires u in pt.place && 0 in pt.place && u != 0 && PlaceOK(pt, u) && pt.place[u].lo < BigRegion.End()
    ensures pt.place[u].level == 1 ==> pt.place[u].lo == 0 && pt.place[u].hi == Block(0)
    ensures pt.place[u].level == 2 ==> (pt.place[u].lo == 0 || pt.place[u].lo == GIB) && pt.place[u].hi == pt.place[u].lo + GIB
  {
  }

  /** One of two low tables is below the base table and the other below that one. */
  lemma OneBelowOther(pt: PT)
    requires Struct(pt) && |pt.mem| == 3 && 0 in pt.place && 1 in pt.place && 2 in pt.place && pt.place[0].level == 0
    requires pt.place[1].lo < BigRegion.End() && pt.place[2].lo < BigRegion.End()
    ensures var a := if pt.place[1].level == 1 then 1 else 2;
            pt.place[a].level == 1 && pt.place[a].up == 0 && pt.place[3 - a].level == 2 && pt.place[3 - a].up == a
  {
    assert PlaceOK(pt, 0) && PlaceOK(pt, 1) && PlaceOK(pt, 2);
    LowTable(pt, 1);
    LowTable(pt, 2);
    hide Struct, TableSpan;
    if pt.place[1].level == 1 && pt.place[2].level == 1 { SpanNest(pt, 1, 2); }
  }

  lemma HaltedAt(pt: PT, leak: seq<nat>, regime: Regime, end: int) returns (a: nat, b: nat)
    requires Halted(pt, leak, regime, end)
    ensures end == GIB && a in pt.place && b in pt.place && 0 < a < 3 && 0 < b < 3 && HasSlot(pt, a, 1) && pt.mem[a][1] == Table(b)
    ensures pt.place[a].level == 1 && pt.place[a].lo == 0 && pt.place[a].hi == Block(0) && pt.place[a].up == 0
    ensures pt.place[b].level == 2 && pt.place[b].lo == GIB && pt.place[b].hi == GIB + GIB && pt.place[b].up == a
  {
    HaltedUses(pt, leak, regime, end, 1);
    HaltedUses(pt, leak, regime, end, 2);
    OneBelowOther(pt);
    a := if pt.place[1].level == 1 then 1 else 2;
    b := 3 - a;
    LowTable(pt, a);
    LowTable(pt, b);
    BlockFits(pt.place[b].lo);
    EndIs(end);
    hide Halted, Splits, Struct, TableSpan;
  }

  /** The first gigabyte is mapped by a block. */
  lemma BlockFits(lo: nat)
    requires lo == 0 || lo == GIB
    ensures Splits(BigRegion, lo, 1) <==> lo == GIB
  {
  }

  lemma EndIs(end: int)
    requires PageAligned(end)
    ensures GIB <= Max(end, 0) < BigRegion.End() ==> end == GIB
  {
  }


  /** The region passes the checks of an empty context with room for it. */
  lemma Acceptable(ctx: XlatCtx)
    requires ctx.mmap == [] && ctx.mmapNum >= 1 && ctx.baseLevel == 0 && 1 <= ctx.baseEntries && BigRegion.EndPa() <= ctx.paMax + 1
    ensures ctx.Addable(BigRegion)
  {
    MulMonotone(1, ctx.baseEntries, Block(0));
  }

  lemma StartsBare(ctx: XlatCtx, u: nat)
    requires ctx.Valid() && ctx.initialized && ctx.mmap == [] && forall x | 0 <= x < |ctx.leak| :: ctx.leak[x] == 0
    ensures 0 in ctx.place && ctx.place[0].level == ctx.baseLevel && (u in ctx.place ==> u == 0)
  {
    hide PlacedOK, InUse, Clean;
    OnlyBase(ctx.Snap(), ctx.ov, ctx.regime, ctx.leak, u);
  }

  /** The add cannot succeed. */
  lemma NotMapped(ctx: XlatCtx)
    requires ctx.Valid() && ctx.initialized && ctx.mmap == [BigRegion] && ctx.baseLevel == 0
    ensures |ctx.mem| > 3
  {
    hide PlacedOK, InUse, Clean;
    TwoAreNotEnough(ctx.Snap(), ctx.ov, ctx.regime, ctx.leak);
  }

  lemma HaltedIntro(was: PT, mid: PT, leak: seq<nat>, regime: Regime, end: int)
    requires Grows(was, mid, BigRegion) && PoolOK(mid, leak) && 0 in was.place && was.place[0].level == 0 && forall u | u in was.place :: u == 0
    requires MapFailed(mid, View([], BigRegion, 0, 0, map[], regime), leak, end, BigRegion.End())
    requires |mid.mem| == 3 && forall u | 0 <= u < |leak| :: leak[u] == 0
    ensures Halted(mid, leak, regime, end)
  {
    hide PoolOK, MapFailed, Splits;
  }

  /** What the failed add leaves. */
  lemma Stale(mid: PT, pt: PT, was: seq<nat>, leak: seq<nat>, regime: Regime, end: int) returns (u: nat, j: nat)
    requires Halted(mid, was, regime, end) && (forall x | x in mid.place :: x < |mid.mem|) && |was| == |mid.mem|
    requires leak == Leaked(mid, was, 0, Max(end, 0)) && (0 < end ==> Untouched(mid, pt, 0, end))
    requires PlacedOK(pt, Listed([], map[], regime), leak, NoneOpen) && InUse(pt, 0)
    ensures !Clean(pt, leak) && 0 < u < |pt.mem| == |pt.cnt| && u !in pt.place && pt.cnt[u] == 0 && j < |pt.mem[u]| && pt.mem[u][j].Table?
  {
    var a, b := HaltedAt(mid, was, regime, end);
    hide Halted, Struct, Owners, LeakOK;
    u, j := a, 1;
    assert leak[a] == 0;
    LeftStale(mid, pt, Listed([], map[], regime), leak, Region(0, 0, GIB, BigRegion.attr, 0, false), a, 1);
    assert 0 in pt.place by { InTree(pt); }
  }

  lemma InTree(pt: PT)
    requires Struct(pt)
    ensures 0 in pt.place
  {
  }

  /** The state after adding the region to a bare context with two sub-tables. */
  lemma Outcome(ctx: XlatCtx, was: PT, lk: seq<nat>, mid: PT, end: int) returns (u: nat, j: nat)
    requires ctx.mmap == [] && ctx.ov == map[] && ctx.initialized && ctx.Agrees() && ctx.RanOutAt(was, lk, BigRegion, mid, end)
    requires |was.mem| == 3 && 0 in was.place && was.place[0].level == 0 && (forall x | x in was.place :: x == 0)
    requires forall x | 0 <= x < |lk| :: lk[x] == 0
    ensures !ctx.Valid() && 0 < u < |ctx.mem| == |ctx.cnt| && u !in ctx.place && ctx.cnt[u] == 0 && j < |ctx.mem[u]| && ctx.mem[u][j].Table?
  {
    hide PlacedOK, InUse, Clean, Tidy, Untouched, Leaked, PoolOK, MapFailed;
    HaltedIntro(was, mid, lk, ctx.regime, end);
    u, j := Stale(mid, ctx.Snap(), lk, ctx.leak, ctx.regime, end);
  }

  /** Builds a context with two sub-tables and adds the region to it: a sub-table with count zero, which the
      next add will take for a free one, is left holding a table descriptor. */
  method FailedAddLeavesStale(regime: Regime, baseEntries: nat, paMax: nat, mmapNum: nat)
    returns (ctx: XlatCtx, s: Status, ghost u: nat, ghost j: nat)
    requires 1 <= baseEntries <= TABLE_ENTRIES && BigRegion.EndPa() <= paMax + 1 && paMax < TWO_48 && mmapNum >= 1
    ensures s == ENOMEM && ctx.Shape() && ctx.ListValid() && ctx.initialized && ctx.Agrees() && !ctx.Valid()
    ensures u !in ctx.place && 0 < u < |ctx.mem| == |ctx.cnt| && ctx.cnt[u] == 0 && j < |ctx.mem[u]| && ctx.mem[u][j].Table?
  {
    ctx := new XlatCtx(regime, 0, baseEntries, paMax, mmapNum, 2);
    hide ctx.Valid, ctx.Shape, ctx.ListValid, ctx.Agrees, ctx.RanOutAt, ctx.Addable, ctx.Verdict, Insert;
    var ok := ctx.Init();
    Acceptable(ctx);
    ghost var was, lk := ctx.Snap(), ctx.leak;
    forall x ensures 0 in was.place && was.place[0].level == 0 && (x in was.place ==> x == 0) { StartsBare(ctx, x); }
    ghost var mid, end;
    s, mid, end := ctx.AddDynamic(BigRegion);
    if s == Ok {
      CannotFit(ctx);
      assert false;
    }
    u, j := Outcome(ctx, was, lk, mid, end);
  }

  lemma CannotFit(ctx: XlatCtx)
    requires ctx.Valid() && ctx.initialized && ctx.baseLevel == 0
    requires exists k: nat | k <= 0 :: ctx.mmap == Insert([], k, BigRegion)
    ensures |ctx.mem| > 3
  {
    assert ctx.mmap == [BigRegion];
    NotMapped(ctx);
  }
}
