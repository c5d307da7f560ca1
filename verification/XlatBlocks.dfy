/** At which level each address of a context is mapped: never by more than its region allows, and never by less than
    the regions around it make necessary. */
module XlatBlocks {
  import opened Wrappers
  import opened XlatDescriptor
  import opened XlatGeometry
  import opened XlatTables
  import opened XlatInvariant
  import opened XlatSteps
  import opened XlatRegions
  import opened XlatLevels
  import opened XlatContext

  lemma AgreedParts(ctx: XlatCtx)
    requires ctx.Valid() && ctx.initialized
    ensures PlacedOK(ctx.Snap(), Listed(ctx.mmap, ctx.ov, ctx.regime), ctx.leak, NoneOpen) && Justified(ctx.Snap(), ctx.mmap, ctx.leak)
    ensures Struct(ctx.Snap()) && 0 in ctx.place && ctx.place[0].level == ctx.baseLevel
    ensures forall r | r in ctx.mmap :: r.granularity == Block(1) || r.granularity == Block(2) || r.granularity == Block(3)
  {
  }

  /** Every leaf in use lies inside a region of the list, maps it at the region's offset, is aligned in both address
      spaces and spans at most the region's granularity. */
  lemma LeafWithinGranularity(ctx: XlatCtx, t: nat, i: nat) returns (r: Region)
    requires ctx.Valid() && ctx.initialized && HasSlot(ctx.Snap(), t, i) && ctx.mem[t][i].Leaf?
    ensures r in ctx.mmap
    ensures var lo, size := SlotLo(ctx.place[t], i), Block(ctx.place[t].level);
            && 1 <= ctx.place[t].level && lo % size == 0 && ctx.mem[t][i].pa % size == 0
            && r.va <= lo && lo + size <= r.va + r.size && ctx.mem[t][i].pa == r.pa + lo - r.va
            && size <= r.granularity
  {
    hide ctx.Valid, PlacedOK, Justified;
    AgreedParts(ctx);
    LeafFits(ctx.Snap(), Listed(ctx.mmap, ctx.ov, ctx.regime), ctx.leak, t, i);
    var l := ctx.place[t].level;
    r := First(ctx.mmap, SlotLo(ctx.place[t], i), SlotLo(ctx.place[t], i) + Block(l)).value;
  }

  /** Unless an add has failed, an address is mapped at a deeper level only for a region that meets the block of the
      level above around it and cannot be mapped by that block. */
  lemma RefinedOnlyWhereNeeded(ctx: XlatCtx, t: nat, i: nat, a: nat, k: Level)
    requires ctx.Valid() && ctx.initialized && (forall u | 0 <= u < |ctx.leak| :: ctx.leak[u] == 0)
    requires HasSlot(ctx.Snap(), t, i) && SlotLo(ctx.place[t], i) <= a < SlotHi(ctx.place[t], i)
    requires ctx.baseLevel <= k < ctx.place[t].level
    ensures exists q | q in ctx.mmap ::
              var lo := a - a % Block(k);
              && q.va < lo + Block(k) && lo < q.va + q.size
              && (k == 0 || lo < q.va || q.va + q.size < lo + Block(k) || (q.pa + lo - q.va) % Block(k) != 0 || q.granularity < Block(k))
  {
    hide ctx.Valid, PlacedOK, Justified, Struct;
    AgreedParts(ctx);
    RefinedFor(ctx.Snap(), ctx.mmap, ctx.leak, t, i, a, k);
    hide Block;
    var q :| q in ctx.mmap && Splits(q, a - a % Block(k), k);
  }

  /** With one region in the list every address is mapped at the least level at which the block around it lies inside
      the region, is aligned in the physical address space and is no larger than the granularity. */
  lemma SingleRegionLevel(ctx: XlatCtx, r: Region, t: nat, i: nat, a: nat)
    requires ctx.Valid() && ctx.initialized && ctx.mmap == [r] && (forall u | 0 <= u < |ctx.leak| :: ctx.leak[u] == 0)
    requires HasSlot(ctx.Snap(), t, i) && ctx.mem[t][i].Leaf? && SlotLo(ctx.place[t], i) <= a < SlotHi(ctx.place[t], i)
    ensures var l := ctx.place[t].level;
            var lo := a - a % Block(l);
            l >= 1 && r.va <= lo && lo + Block(l) <= r.va + r.size && (r.pa + lo - r.va) % Block(l) == 0 && Block(l) <= r.granularity
    ensures forall k: Level | ctx.baseLevel <= k < ctx.place[t].level ::
              var lo := a - a % Block(k);
              !(k >= 1 && r.va <= lo && lo + Block(k) <= r.va + r.size && (r.pa + lo - r.va) % Block(k) == 0 && Block(k) <= r.granularity)
  {
    hide ctx.Valid, Block, SlotLo;
    assert SlotHi(ctx.place[t], i) == SlotLo(ctx.place[t], i) + Block(ctx.place[t].level);
    var q := LeafWithinGranularity(ctx, t, i);
    assert q == r;
    BlockStart(SlotLo(ctx.place[t], i), a, Block(ctx.place[t].level));
    forall k: Level | ctx.baseLevel <= k < ctx.place[t].level
      ensures var lo := a - a % Block(k);
              !(k >= 1 && r.va <= lo && lo + Block(k) <= r.va + r.size && (r.pa + lo - r.va) % Block(k) == 0 && Block(k) <= r.granularity)
    {
      RefinedOnlyWhereNeeded(ctx, t, i, a, k);
    }
  }

  /** An add that ran out of tables had stopped, with every sub-table in use, at an invalid entry that the region
      meets and cannot be mapped by as one block. */
  lemma StoppedOnlyWhereNeeded(ctx: XlatCtx, was: PT, wasLeak: seq<nat>, mm: Region, mid: PT, end: int) returns (t: nat, i: nat)
    requires ctx.RanOutAt(was, wasLeak, mm, mid, end)
    ensures forall u | 1 <= u < |mid.cnt| :: mid.cnt[u] != 0
    ensures HasSlot(mid, t, i) && mid.mem[t][i] == Invalid && end == SlotLo(mid.place[t], i)
    ensures var k := mid.place[t].level;
            && mm.va < end + Block(k) && end < mm.va + mm.size
            && (k == 0 || end < mm.va || mm.va + mm.size < end + Block(k) || (mm.pa + end - mm.va) % Block(k) != 0 || mm.granularity < Block(k))
  {
    hide *;
    RanOutParts(ctx, was, wasLeak, mm, mid, end);
    t, i := WhereStuck(mid, View(ctx.mmap, mm, mm.va, mm.va, ctx.ov, ctx.regime), wasLeak, end, mm.End());
    StuckMeans(mid, mm, end, t, i);
  }

  lemma StuckMeans(pt: PT, mm: Region, r: int, t: nat, i: nat)
    requires Stuck(pt, mm, r, t, i) && Exhausted(pt)
    ensures forall u | 1 <= u < |pt.cnt| :: pt.cnt[u] != 0
    ensures HasSlot(pt, t, i) && t in pt.place && t < |pt.mem| && i < |pt.mem[t]| && pt.mem[t][i] == Invalid && r == SlotLo(pt.place[t], i)
    ensures var k := pt.place[t].level;
            && mm.va < r + Block(k) && r < mm.va + mm.size
            && (k == 0 || r < mm.va || mm.va + mm.size < r + Block(k) || (mm.pa + r - mm.va) % Block(k) != 0 || mm.granularity < Block(k))
  {
    hide Block, SlotLo;
  }

  lemma RanOutParts(ctx: XlatCtx, was: PT, wasLeak: seq<nat>, mm: Region, mid: PT, end: int)
    requires ctx.RanOutAt(was, wasLeak, mm, mid, end)
    ensures MapFailed(mid, View(ctx.mmap, mm, mm.va, mm.va, ctx.ov, ctx.regime), wasLeak, end, mm.End())
  {
    hide MapFailed, PoolOK, Grows, Leaked, Tidy, Untouched, Clean;
  }

  lemma WhereStuck(pt: PT, v: View, leak: seq<nat>, r: int, hi: int) returns (t: nat, i: nat)
    requires MapFailed(pt, v, leak, r, hi)
    ensures Exhausted(pt) && Stuck(pt, v.mm, r, t, i)
  {
    hide Struct, Owners, Counts, LeakOK, Stuck, Exhausted;
    t, i :| Stuck(pt, v.mm, r, t, i);
  }
}
