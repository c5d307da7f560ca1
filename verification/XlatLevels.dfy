/** Why every sub-table is there, and so at which level each address is mapped. */
module XlatLevels {
  import opened Numbers
  import opened Wrappers
  import opened XlatDescriptor
  import opened XlatGeometry
  import opened XlatTables
  import opened XlatInvariant
  import opened XlatSteps
  import opened XlatRegions

  /** Some region needs a table where sub-table `u` is, or a failed add left a count in it. */
  ghost predicate Reason(pt: PT, rs: seq<Region>, leak: seq<nat>, u: nat) {
    u in pt.place && u != 0 ==>
      && u < |leak| && pt.place[u].level >= 1
      && (leak[u] > 0 || exists q | q in rs :: Splits(q, pt.place[u].lo, pt.place[u].level - 1))
  }

  ghost predicate Justified(pt: PT, rs: seq<Region>, leak: seq<nat>) {
    forall u {:trigger Reason(pt, rs, leak, u)} :: Reason(pt, rs, leak, u)
  }

  lemma JustifiedNone(pt: PT, rs: seq<Region>, leak: seq<nat>)
    requires forall u | u in pt.place :: u == 0
    ensures Justified(pt, rs, leak)
  {
  }

  /** Mapping one more region adds tables only where it needs them. */
  lemma JustifiedGrows(pt: PT, pt': PT, rs: seq<Region>, rs': seq<Region>, mm: Region, leak: seq<nat>)
    requires Justified(pt, rs, leak) && Grows(pt, pt', mm) && Struct(pt') && |leak| == |pt'.mem|
    requires mm in rs' && forall q | q in rs :: q in rs'
    ensures Justified(pt', rs', leak)
  {
    hide Splits;
    forall u: nat ensures Reason(pt', rs', leak, u) {
      assert Reason(pt, rs, leak, u);
      if u in pt'.place { assert PlaceOK(pt', u); }
    }
  }

  lemma JustifiedSame(pt: PT, pt': PT, rs: seq<Region>, rs': seq<Region>, leak: seq<nat>)
    requires Justified(pt, rs, leak) && pt'.place == pt.place && forall q | q in rs :: q in rs'
    ensures Justified(pt', rs', leak)
  {
    hide Splits;
    forall u: nat ensures Reason(pt', rs', leak, u) { assert Reason(pt, rs, leak, u); }
  }

  /** Two regions that overlap nowhere and both meet a span: neither covers it. */
  lemma ApartSplits(q: Region, mm: Region, lo: nat, level: Level)
    requires Splits(mm, lo, level) && Meets(q, lo, lo + Block(level)) && !Meets(q, mm.va, mm.End())
    ensures Splits(q, lo, level)
  {
  }

  /** Taking a region out that overlaps no other: what stays in use is there for another region, or for a count left
      behind. */
  lemma JustifiedLess(pt: PT, pt': PT, rs: seq<Region>, v: View, mm: Region, leak: seq<nat>, leak': seq<nat>)
    requires Justified(pt, rs, leak) && (forall u | u in pt'.place :: u in pt.place && pt'.place[u] == pt.place[u])
    requires PlacedOK(pt', v, leak', NoneOpen) && InUse(pt', 0) && v.w1 <= v.w0
    requires Apart(v.rs, mm) && (forall q | q in rs :: q == mm || q in v.rs)
    requires |leak'| == |leak| && forall u | 0 <= u < |leak| :: leak[u] <= leak'[u]
    ensures Justified(pt', v.rs, leak')
  {
    forall u: nat ensures Reason(pt', v.rs, leak', u) {
      assert Reason(pt, rs, leak, u);
      if u in pt'.place && u != 0 { LessReason(pt, pt', rs, v, mm, leak, leak', u); }
    }
  }

  lemma LessReason(pt: PT, pt': PT, rs: seq<Region>, v: View, mm: Region, leak: seq<nat>, leak': seq<nat>, u: nat)
    requires u in pt'.place && u != 0 && u in pt.place && pt'.place[u] == pt.place[u] && Reason(pt, rs, leak, u)
    requires PlacedOK(pt', v, leak', NoneOpen) && InUse(pt', 0) && v.w1 <= v.w0
    requires Apart(v.rs, mm) && (forall q | q in rs :: q == mm || q in v.rs)
    requires |leak'| == |leak| && forall x | 0 <= x < |leak| :: leak[x] <= leak'[x]
    ensures Reason(pt', v.rs, leak', u)
  {
    hide Splits, Owners, Block;
    var p := pt.place[u];
    assert PlaceOK(pt', u) && CountAt(pt', v, leak', NoneOpen, u);
    if leak'[u] == 0 {
      var q :| q in rs && Splits(q, p.lo, p.level - 1);
      if q !in v.rs {
        SpanNonempty(pt', u);
        var f := First(v.rs, p.lo, p.hi);
        ApartSplits(f.value, mm, p.lo, p.level - 1);
      }
    }
  }

  // ----- Where an address is mapped

  /** The table of each level above a placed one. */
  lemma {:induction false} TableAbove(pt: PT, t: nat, k: Level) returns (u: nat)
    requires Struct(pt) && t in pt.place && pt.place[0].level <= k <= pt.place[t].level
    ensures u in pt.place && pt.place[u].level == k && pt.place[u].lo <= pt.place[t].lo && pt.place[t].hi <= pt.place[u].hi
    decreases pt.place[t].level
  {
    if k == pt.place[t].level {
      u := t;
    } else {
      assert PlaceOK(pt, t) && PlaceOK(pt, 0);
      SlotSpan(pt, pt.place[t].up, pt.place[t].slot);
      SpanNonempty(pt, t);
      u := TableAbove(pt, pt.place[t].up, k);
    }
  }

  lemma BlockStart(lo: nat, a: nat, b: nat)
    requires b > 0 && lo % b == 0 && lo <= a < lo + b
    ensures lo == a - a % b
  {
    DivRange(lo, b);
    DivUnique(a, b, lo / b, a - lo);
  }

  /** Where the tables were refined past level `k` above an address, some region that meets the block of that level
      around it could not be mapped by the block. */
  lemma RefinedFor(pt: PT, rs: seq<Region>, leak: seq<nat>, t: nat, i: nat, a: nat, k: Level)
    requires Struct(pt) && Justified(pt, rs, leak) && HasSlot(pt, t, i) && SlotLo(pt.place[t], i) <= a < SlotHi(pt.place[t], i)
    requires pt.place[0].level <= k < pt.place[t].level
    ensures (exists u :: 0 <= u < |leak| && leak[u] > 0) || exists q | q in rs :: Splits(q, a - a % Block(k), k)
  {
    hide Splits, Block;
    var u := TableAbove(pt, t, k + 1);
    SlotSpan(pt, t, i);
    SpanNonempty(pt, u);
    assert PlaceOK(pt, 0);
    assert Reason(pt, rs, leak, u);
    BlockStart(pt.place[u].lo, a, Block(k));
  }

  /** A leaf lies inside the region it shows, is aligned in both address spaces and no larger than the granularity. */
  lemma LeafFits(pt: PT, v: View, leak: seq<nat>, t: nat, i: nat)
    requires PlacedOK(pt, v, leak, NoneOpen) && v.w1 <= v.w0 && HasSlot(pt, t, i) && pt.mem[t][i].Leaf?
    ensures var lo, l := SlotLo(pt.place[t], i), pt.place[t].level;
            var q := First(v.rs, lo, lo + Block(l));
            && q.Some? && q.value in v.rs && 1 <= l && lo % Block(l) == 0
            && q.value.va <= lo && lo + Block(l) <= q.value.va + q.value.size
            && pt.mem[t][i].pa == q.value.pa + lo - q.value.va && pt.mem[t][i].pa % Block(l) == 0
            && (l < 3 ==> Block(l) <= q.value.granularity)
  {
    hide Counts, LeakOK;
    assert OwnedAt(pt, v, t, i) && SlotOK(pt, t, i);
    SlotSpan(pt, t, i);
  }
}
