/** Translation tables as a flat memory of tables plus a ghost placement, the
    structural invariant that makes the placed tables a tree, and the two
    relations that tie tables to a region list. */
module XlatTables {
  import opened XlatDescriptor
  import opened XlatGeometry

  /** A descriptor as the walker sees it: `Leaf` is a block (levels 1 and 2) or
      a page (level 3), `Table` carries the index of the next table. */
  datatype Desc = Invalid | Leaf(pa: nat, attr: Attr) | Table(next: nat)

  /** Where a table sits: its level, the addresses it spans and the entry that
      points at it. */
  datatype Place = Place(level: Level, lo: nat, hi: nat, up: nat, slot: nat)

  /** Table 0 is the base table; table k + 1 is sub-table k. */
  datatype PT = PT(mem: seq<seq<Desc>>, cnt: seq<int>, place: map<nat, Place>)

  function SlotLo(p: Place, i: nat): nat { p.lo + i * Block(p.level) }

  function SlotHi(p: Place, i: nat): nat { SlotLo(p, i) + Block(p.level) }

  ghost predicate HasSlot(pt: PT, t: nat, i: nat) {
    t in pt.place && t < |pt.mem| && i < |pt.mem[t]|
  }

  ghost predicate PlaceOK(pt: PT, t: nat) {
    && t in pt.place && 0 in pt.place && t < |pt.mem|
    && var p := pt.place[t];
    && p.hi == p.lo + |pt.mem[t]| * Block(p.level)
    && p.hi <= pt.place[0].hi
    && (t == 0 ==> p.lo == 0 && 1 <= |pt.mem[0]| <= TABLE_ENTRIES)
    && (t != 0 ==>
          && |pt.mem[t]| == TABLE_ENTRIES
          && pt.place[0].level < p.level
          && p.lo % TableSpan(p.level) == 0
          && HasSlot(pt, p.up, p.slot)
          && pt.place[p.up].level + 1 == p.level
          && p.lo == SlotLo(pt.place[p.up], p.slot)
          && pt.mem[p.up][p.slot] == Table(t))
  }

  ghost predicate SlotOK(pt: PT, t: nat, i: nat) {
    HasSlot(pt, t, i) ==>
      var p := pt.place[t];
      match pt.mem[t][i]
      case Invalid => true
      case Leaf(pa, _) => p.level >= MIN_LVL_BLOCK_DESC && pa % Block(p.level) == 0
      case Table(n) =>
        && p.level < 3 && n != 0 && n in pt.place
        && pt.place[n] == Place(p.level + 1, SlotLo(p, i), SlotHi(p, i), t, i)
  }

  /** The placed tables form a tree rooted at table 0. */
  ghost predicate Struct(pt: PT) {
    && |pt.cnt| == |pt.mem| && 0 in pt.place
    && (forall t {:trigger PlaceOK(pt, t)} | t in pt.place :: PlaceOK(pt, t))
    && (forall t, i {:trigger SlotOK(pt, t, i)} :: SlotOK(pt, t, i))
  }

  ghost predicate Blank(table: seq<Desc>) {
    forall i | 0 <= i < |table| :: table[i] == Invalid
  }

  // ----- Geometry of placed tables

  lemma MulBounds(i: nat, n: nat, b: nat)
    requires i < n
    ensures i * b + b <= n * b
  {
    assert (i + 1) * b <= n * b;
  }

  lemma SlotSpan(pt: PT, t: nat, i: nat)
    requires Struct(pt) && HasSlot(pt, t, i)
    ensures PlaceOK(pt, t)
    ensures pt.place[t].lo <= SlotLo(pt.place[t], i) && SlotHi(pt.place[t], i) <= pt.place[t].hi
    ensures SlotLo(pt.place[t], i) % TableSpan(pt.place[t].level + 1) == 0
  {
    assert PlaceOK(pt, t);
    var p := pt.place[t];
    MulBounds(i, |pt.mem[t]|, Block(p.level));
    SlotAligned(p.level, p.lo, i) by {
      if t != 0 { SpanAligned(p.level, p.lo); }
    }
  }

  lemma SpanAligned(level: Level, lo: nat)
    requires 1 <= level && lo % TableSpan(level) == 0
    ensures lo % Block(level) == 0
  {
    if level == 1 {} else if level == 2 {} else {}
  }

  lemma SlotAligned(level: Level, lo: nat, i: nat)
    requires lo % Block(level) == 0
    ensures (lo + i * Block(level)) % Block(level) == 0
  {
    if level == 0 {} else if level == 1 {} else if level == 2 {} else {}
  }

  lemma SlotInjective(p: Place, i: nat, j: nat)
    requires Overlap(SlotLo(p, i), SlotHi(p, i), SlotLo(p, j), SlotHi(p, j))
    ensures i == j
  {
    var b := Block(p.level);
    assert i < j ==> (i + 1) * b <= j * b;
    assert j < i ==> (j + 1) * b <= i * b;
  }

  lemma SpanNonempty(pt: PT, t: nat)
    requires Struct(pt) && t in pt.place
    ensures PlaceOK(pt, t) && pt.place[t].lo < pt.place[t].hi
    ensures t != 0 ==> pt.place[t].hi == pt.place[t].lo + TableSpan(pt.place[t].level)
  {
    assert PlaceOK(pt, t);
    MulBounds(0, |pt.mem[t]|, Block(pt.place[t].level));
  }

  /** Placed tables whose spans overlap are nested, and one per level and address. */
  lemma {:induction false} SpanNest(pt: PT, u: nat, t: nat)
    requires Struct(pt) && u in pt.place && t in pt.place
    requires pt.place[u].level <= pt.place[t].level
    requires Overlap(pt.place[u].lo, pt.place[u].hi, pt.place[t].lo, pt.place[t].hi)
    ensures pt.place[u].lo <= pt.place[t].lo && pt.place[t].hi <= pt.place[u].hi
    ensures pt.place[u].level == pt.place[t].level ==> u == t
    decreases pt.place[t].level
  {
    SpanNonempty(pt, u);
    SpanNonempty(pt, t);
    var p, q := pt.place[u], pt.place[t];
    if u != 0 && t != 0 {
      Nest(p.level, p.lo, q.level, q.lo);
      if p.level == q.level {
        SlotSpan(pt, p.up, p.slot);
        SlotSpan(pt, q.up, q.slot);
        SpanNest(pt, p.up, q.up);
        SlotInjective(pt.place[p.up], p.slot, q.slot);
      }
    }
  }

  /** Below an entry that is not a table descriptor there is no placed table. */
  lemma {:induction false} NoTableUnder(pt: PT, t: nat, i: nat, u: nat)
    requires Struct(pt) && t in pt.place && u in pt.place
    requires HasSlot(pt, t, i) && pt.place[t].level < pt.place[u].level
    requires Overlap(SlotLo(pt.place[t], i), SlotHi(pt.place[t], i), pt.place[u].lo, pt.place[u].hi)
    ensures pt.mem[t][i].Table?
    decreases pt.place[u].level
  {
    SpanNonempty(pt, u);
    SlotSpan(pt, t, i);
    assert PlaceOK(pt, 0);
    var p, q := pt.place[t], pt.place[u];
    SlotSpan(pt, q.up, q.slot);
    if q.level == p.level + 1 {
      SpanNest(pt, t, q.up);
      SlotInjective(p, i, q.slot);
    } else {
      Nest(p.level + 1, SlotLo(p, i), q.level, q.lo);
      NoTableUnder(pt, t, i, q.up);
    }
  }

  /** Entries that are not table descriptors never overlap one another. */
  lemma SlotUnique(pt: PT, t: nat, i: nat, u: nat, j: nat)
    requires Struct(pt) && t in pt.place && u in pt.place
    requires HasSlot(pt, t, i) && HasSlot(pt, u, j) && !pt.mem[t][i].Table? && !pt.mem[u][j].Table?
    requires Overlap(SlotLo(pt.place[t], i), SlotHi(pt.place[t], i), SlotLo(pt.place[u], j), SlotHi(pt.place[u], j))
    ensures t == u && i == j
  {
    SlotSpan(pt, t, i);
    SlotSpan(pt, u, j);
    if pt.place[t].level < pt.place[u].level {
      NoTableUnder(pt, t, i, u);
    } else if pt.place[u].level < pt.place[t].level {
      NoTableUnder(pt, u, j, t);
    } else {
      SpanNest(pt, t, u);
      SlotInjective(pt.place[t], i, j);
    }
  }
}
