/** The relations between tables and a region list, and how each kind of table
    write moves them along. */
module XlatInvariant {
  import opened Wrappers
  import opened XlatDescriptor
  import opened XlatGeometry
  import opened XlatTables

  /** What the tables should say: the regions `rs` are mapped in list order, and
      after them the part [w0, w1) of region `mm`. `ov` holds the pages whose
      attributes were changed since they were mapped. */
  datatype View = View(rs: seq<Region>, mm: Region, w0: int, w1: int, ov: map<nat, Attr>, regime: Regime)

  /** Leaf `d` at [lo, hi) shows region `r` and, unless it is a page, is no larger than the region's granularity; only
      single pages have changed attributes. */
  ghost predicate Shows(v: View, r: Region, lo: nat, hi: nat, d: Desc)
    requires d.Leaf?
  {
    && d.pa == r.pa + lo - r.va
    && d.attr == (if lo in v.ov then v.ov[lo] else Normalise(v.regime, r.attr))
    && (hi - lo != PAGE_SIZE ==> hi - lo <= r.granularity && forall k | k in v.ov :: !(lo <= k < hi))
  }

  /** Entry `d` spanning [lo, hi) is right: a leaf belongs wholly to the first
      region that meets it, an invalid entry meets no region. */
  ghost predicate Owned(v: View, d: Desc, lo: nat, hi: nat) {
    match d
    case Table(_) => true
    case Invalid => First(v.rs, lo, hi).None? && !Overlap(v.w0, v.w1, lo, hi)
    case Leaf(_, _) =>
      match First(v.rs, lo, hi)
      case Some(r) => r.va <= lo && hi <= r.End() && Shows(v, r, lo, hi, d)
      case None => v.w0 <= lo && hi <= v.w1 && Shows(v, v.mm, lo, hi, d)
  }

  ghost predicate OwnedAt(pt: PT, v: View, t: nat, i: nat) {
    HasSlot(pt, t, i) ==> Owned(v, pt.mem[t][i], SlotLo(pt.place[t], i), SlotHi(pt.place[t], i))
  }

  ghost predicate Owners(pt: PT, v: View) {
    forall t, i {:trigger OwnedAt(pt, v, t, i)} :: OwnedAt(pt, v, t, i)
  }

  /** Tables above level `lvl` that contain [lo, hi): already entered, not yet left. */
  datatype Open = Open(lvl: nat, lo: nat, hi: nat)

  const NoneOpen := Open(0, 0, 0)

  function Above(p: Place): Open { Open(p.level, p.lo, p.hi) }

  function Within(p: Place): Open { Open(p.level + 1, p.lo, p.hi) }

  predicate Counted(v: View, o: Open, p: Place) {
    Overlap(v.w0, v.w1, p.lo, p.hi) || (p.level < o.lvl && p.lo <= o.lo && o.hi <= p.hi)
  }

  /** A sub-table's count is the number of regions meeting its span, plus one if
      the region in flight is counted there, plus what failed adds left behind. */
  ghost predicate CountAt(pt: PT, v: View, leak: seq<nat>, o: Open, u: nat) {
    u in pt.place && u != 0 ==>
      && u < |pt.cnt| && u < |leak|
      && pt.cnt[u] == Count(v.rs, pt.place[u].lo, pt.place[u].hi) + leak[u] + if Counted(v, o, pt.place[u]) then 1 else 0
  }

  ghost predicate Counts(pt: PT, v: View, leak: seq<nat>, o: Open) {
    forall u {:trigger CountAt(pt, v, leak, o, u)} :: CountAt(pt, v, leak, o, u)
  }

  /** Failed adds only ever leave counts behind above level 3. */
  ghost predicate LeakOK(pt: PT, leak: seq<nat>) {
    && |leak| == |pt.mem|
    && forall u | u in pt.place && u < |leak| && leak[u] > 0 :: u != 0 && pt.place[u].level <= 2
  }

  /** A table nobody points at is empty, has a zero count and no leftover. */
  ghost predicate Clean(pt: PT, leak: seq<nat>) {
    && |pt.cnt| == |pt.mem| == |leak|
    && forall u | 0 <= u < |pt.mem| && u !in pt.place :: pt.cnt[u] == leak[u] == 0 && Blank(pt.mem[u])
  }

  /** A failed add left a count in `c`, and once the regions `rs` are all there is, nothing holds the
      sub-table that points at it. */
  ghost predicate Doomed(pt: PT, rs: seq<Region>, leak: seq<nat>, c: nat) {
    && c in pt.place && c != 0 && c < |leak| && leak[c] > 0
    && var u := pt.place[c].up;
    u != 0 && u in pt.place && u < |leak| && leak[u] == 0 && First(rs, pt.place[u].lo, pt.place[u].hi).None?
  }

  /** With `rs` all there is, every sub-table given up is empty. */
  ghost predicate Tidy(pt: PT, rs: seq<Region>, leak: seq<nat>) {
    forall c {:trigger Doomed(pt, rs, leak, c)} :: !Doomed(pt, rs, leak, c)
  }

  /** That is so with the base table at level 1 or more, and while no add has failed. */
  lemma TidyFor(pt: PT, rs: seq<Region>, leak: seq<nat>)
    requires Struct(pt) && LeakOK(pt, leak)
    requires pt.place[0].level >= 1 || forall u | 0 <= u < |leak| :: leak[u] == 0
    ensures Tidy(pt, rs, leak)
  {
    forall c ensures !Doomed(pt, rs, leak, c) {
      if c in pt.place && c != 0 {
        assert PlaceOK(pt, c);
        if pt.place[c].up in pt.place { assert PlaceOK(pt, pt.place[c].up); }
      }
    }
  }

  lemma TidyKept(pt: PT, pt': PT, rs: seq<Region>, leak: seq<nat>)
    requires Tidy(pt, rs, leak) && forall u | u in pt'.place :: u in pt.place && pt'.place[u] == pt.place[u]
    ensures Tidy(pt', rs, leak)
  {
    forall c ensures !Doomed(pt', rs, leak, c) { assert !Doomed(pt, rs, leak, c); }
  }

  /** Every placed sub-table other than `x` is in use. */
  ghost predicate InUse(pt: PT, x: nat) {
    |pt.cnt| == |pt.mem| &&
    forall u | u in pt.place && u < |pt.mem| && u != 0 && u != x :: pt.cnt[u] >= 1
  }

  // ----- Structural steps

  function Put(pt: PT, t: nat, i: nat, d: Desc): PT
    requires t < |pt.mem| && i < |pt.mem[t]|
  {
    pt.(mem := pt.mem[t := pt.mem[t][i := d]])
  }

  lemma StructPut(pt: PT, t: nat, i: nat, d: Desc)
    requires Struct(pt) && HasSlot(pt, t, i) && !pt.mem[t][i].Table? && !d.Table?
    requires d.Leaf? ==> pt.place[t].level >= 1 && d.pa % Block(pt.place[t].level) == 0
    ensures Struct(Put(pt, t, i, d))
  {
    hide Block, TableSpan, SlotLo, SlotHi;
    var pt' := Put(pt, t, i, d);
    forall u | u in pt'.place ensures PlaceOK(pt', u) { assert PlaceOK(pt, u); }
    forall u: nat, j: nat ensures SlotOK(pt', u, j) { assert SlotOK(pt, u, j); }
  }

  lemma StructCnt(pt: PT, cnt: seq<int>)
    requires Struct(pt) && |cnt| == |pt.cnt|
    ensures Struct(pt.(cnt := cnt))
  {
    var pt' := pt.(cnt := cnt);
    forall u | u in pt'.place ensures PlaceOK(pt', u) { assert PlaceOK(pt, u); }
    forall u: nat, j: nat ensures SlotOK(pt', u, j) { assert SlotOK(pt, u, j); }
  }

  function ChildPlace(pt: PT, t: nat, i: nat): Place
    requires HasSlot(pt, t, i) && pt.place[t].level < 3
  {
    var p := pt.place[t];
    Place(p.level + 1, SlotLo(p, i), SlotHi(p, i), t, i)
  }

  function Link(pt: PT, t: nat, i: nat, s: nat): PT
    requires HasSlot(pt, t, i) && pt.place[t].level < 3
  {
    Put(pt, t, i, Table(s)).(place := pt.place[s := ChildPlace(pt, t, i)])
  }

  lemma LinkPlaceOK(pt: PT, t: nat, i: nat, s: nat)
    requires Struct(pt) && HasSlot(pt, t, i) && pt.place[t].level < 3 && pt.mem[t][i] == Invalid
    requires s < |pt.mem| && s !in pt.place && |pt.mem[s]| == TABLE_ENTRIES
    ensures PlaceOK(Link(pt, t, i, s), s)
  {
    SlotSpan(pt, t, i);
    assert PlaceOK(pt, 0) && PlaceOK(pt, t);
    var p := pt.place[t];
    assert Block(p.level) == TableSpan(p.level + 1) == TABLE_ENTRIES * Block(p.level + 1);
  }

  lemma StructLink(pt: PT, t: nat, i: nat, s: nat)
    requires Struct(pt) && HasSlot(pt, t, i) && pt.place[t].level < 3 && pt.mem[t][i] == Invalid
    requires s < |pt.mem| && s !in pt.place && |pt.mem[s]| == TABLE_ENTRIES && Blank(pt.mem[s])
    ensures Struct(Link(pt, t, i, s))
  {
    hide Block, TableSpan, SlotLo, SlotHi, PlaceOK, SlotOK, Blank;
    var pt' := Link(pt, t, i, s);
    forall u | u in pt'.place ensures PlaceOK(pt', u) {
      if u == s { LinkPlaceOK(pt, t, i, s); } else { LinkOtherOK(pt, t, i, s, u); }
    }
    forall u: nat, j: nat ensures SlotOK(pt', u, j) { LinkSlotOK(pt, t, i, s, u, j); }
  }

  lemma LinkOtherOK(pt: PT, t: nat, i: nat, s: nat, u: nat)
    requires Struct(pt) && HasSlot(pt, t, i) && pt.place[t].level < 3 && pt.mem[t][i] == Invalid
    requires s < |pt.mem| && s !in pt.place && u in pt.place
    ensures PlaceOK(Link(pt, t, i, s), u)
  {
    hide Block, TableSpan, SlotOK;
    assert PlaceOK(pt, u) && PlaceOK(pt, 0);
  }

  lemma LinkSlotOK(pt: PT, t: nat, i: nat, s: nat, u: nat, j: nat)
    requires Struct(pt) && HasSlot(pt, t, i) && pt.place[t].level < 3 && pt.mem[t][i] == Invalid
    requires s < |pt.mem| && s !in pt.place && Blank(pt.mem[s])
    ensures SlotOK(Link(pt, t, i, s), u, j)
  {
    hide Block, TableSpan, PlaceOK;
    assert SlotOK(pt, u, j) && SlotOK(pt, t, i);
  }

  /** Dropping the entry for `s` unplaces it together with any table it still points at. */
  function Unlink(pt: PT, t: nat, i: nat, s: nat): PT
    requires HasSlot(pt, t, i)
  {
    Put(pt, t, i, Invalid).(place := map u | u in pt.place && u != s && (u == 0 || pt.place[u].up != s) :: pt.place[u])
  }

  /** No placed table lies two links below `s`. */
  ghost predicate Shallow(pt: PT, s: nat) {
    forall g | g in pt.place && g != 0 && pt.place[g].up in pt.place && pt.place[g].up != 0 ::
      pt.place[pt.place[g].up].up != s
  }

  lemma UnlinkPlaceOK(pt: PT, t: nat, i: nat, s: nat, u: nat)
    requires Struct(pt) && HasSlot(pt, t, i) && pt.mem[t][i] == Table(s) && Shallow(pt, s)
    requires u in Unlink(pt, t, i, s).place
    ensures PlaceOK(Unlink(pt, t, i, s), u)
  {
    hide Block, TableSpan;
    var pt' := Unlink(pt, t, i, s);
    assert SlotOK(pt, t, i);
    assert PlaceOK(pt, u) && PlaceOK(pt, 0);
    if u != 0 {
      var q := pt.place[u].up;
      assert PlaceOK(pt, q);
      assert q in pt'.place;
      assert (q, pt.place[u].slot) != (t, i);
      assert pt'.mem[q][pt.place[u].slot] == Table(u);
    }
  }

  lemma StructUnlink(pt: PT, t: nat, i: nat, s: nat)
    requires Struct(pt) && HasSlot(pt, t, i) && pt.mem[t][i] == Table(s) && Shallow(pt, s)
    ensures Struct(Unlink(pt, t, i, s))
  {
    hide Block, TableSpan, PlaceOK, Shallow;
    var pt' := Unlink(pt, t, i, s);
    forall u | u in pt'.place ensures PlaceOK(pt', u) { UnlinkPlaceOK(pt, t, i, s, u); }
    assert 0 in pt'.place by { assert SlotOK(pt, t, i); }
    forall u: nat, j: nat ensures SlotOK(pt', u, j) {
      assert SlotOK(pt, u, j);
      assert SlotOK(pt, t, i);
      if HasSlot(pt', u, j) && pt'.mem[u][j].Table? {
        assert pt'.mem[u][j].next in pt'.place;
      }
    }
  }

  // ----- Owners and counts along a traversal

  ghost predicate PlacedOK(pt: PT, v: View, leak: seq<nat>, o: Open) {
    Struct(pt) && Owners(pt, v) && Counts(pt, v, leak, o) && LeakOK(pt, leak)
  }

  /** The window of `v` grows or shrinks by exactly [lo, hi). */
  ghost predicate Moves(v: View, v': View, lo: nat, hi: nat) {
    && lo < hi
    && v' == v.(w0 := v'.w0, w1 := v'.w1)
    && ((v.w0 == v'.w0 <= lo && v.w1 == lo && v'.w1 == hi) ||
        (v.w1 == v'.w1 && v.w0 == lo && v'.w0 == hi <= v.w1))
  }

  /** Writing one entry and moving the window across it keeps every entry right. */
  lemma OwnersPut(pt: PT, v: View, v': View, t: nat, i: nat, d: Desc)
    requires Struct(pt) && Owners(pt, v) && HasSlot(pt, t, i) && !pt.mem[t][i].Table? && !d.Table?
    requires Moves(v, v', SlotLo(pt.place[t], i), SlotHi(pt.place[t], i))
    requires Owned(v', d, SlotLo(pt.place[t], i), SlotHi(pt.place[t], i))
    ensures Owners(Put(pt, t, i, d), v')
  {
    var pt' := Put(pt, t, i, d);
    forall u: nat, j: nat ensures OwnedAt(pt', v', u, j) {
      assert OwnedAt(pt, v, u, j);
      if HasSlot(pt, u, j) && (u, j) != (t, i) && !pt.mem[u][j].Table? {
        var lo, hi := SlotLo(pt.place[u], j), SlotHi(pt.place[u], j);
        if Overlap(SlotLo(pt.place[t], i), SlotHi(pt.place[t], i), lo, hi) {
          SlotUnique(pt, t, i, u, j);
        }
      }
    }
  }

  /** Moving the window across an entry that is not a table keeps every count right. */
  lemma CountsMove(pt: PT, v: View, v': View, leak: seq<nat>, t: nat, i: nat)
    requires Struct(pt) && HasSlot(pt, t, i) && !pt.mem[t][i].Table?
    requires Counts(pt, v, leak, Within(pt.place[t]))
    requires Moves(v, v', SlotLo(pt.place[t], i), SlotHi(pt.place[t], i))
    ensures Counts(pt, v', leak, Within(pt.place[t]))
  {
    var o := Within(pt.place[t]);
    SlotSpan(pt, t, i);
    forall u: nat ensures CountAt(pt, v', leak, o, u) {
      assert CountAt(pt, v, leak, o, u);
      if u in pt.place && u != 0 {
        var p := pt.place[u];
        SpanNonempty(pt, u);
        if Overlap(SlotLo(pt.place[t], i), SlotHi(pt.place[t], i), p.lo, p.hi) {
          if pt.place[t].level < p.level {
            NoTableUnder(pt, t, i, u);
          } else {
            SpanNest(pt, u, t);
          }
        }
      }
    }
  }

  lemma CountsPut(pt: PT, v: View, leak: seq<nat>, o: Open, t: nat, i: nat, d: Desc)
    requires HasSlot(pt, t, i) && Counts(pt, v, leak, o)
    ensures Counts(Put(pt, t, i, d), v, leak, o)
  {
    forall u: nat ensures CountAt(Put(pt, t, i, d), v, leak, o, u) { assert CountAt(pt, v, leak, o, u); }
  }

  /** Only `t` itself separates the tables above it from those around its entries. */
  lemma AboveWithin(pt: PT, t: nat, u: nat)
    requires Struct(pt) && t in pt.place && u in pt.place
    requires var p := pt.place[u]; p.level < Within(pt.place[t]).lvl && p.lo <= pt.place[t].lo && pt.place[t].hi <= p.hi
    ensures pt.place[u].level == pt.place[t].level ==> u == t
  {
    SpanNonempty(pt, t);
    SpanNest(pt, u, t);
  }

  /** Counting the region in at `t`, on entering it while mapping. */
  lemma CountsEnter(pt: PT, v: View, leak: seq<nat>, t: nat)
    requires Struct(pt) && t in pt.place && t < |pt.cnt| && Counts(pt, v, leak, Above(pt.place[t]))
    requires !Overlap(v.w0, v.w1, pt.place[t].lo, pt.place[t].hi)
    ensures Counts(if t == 0 then pt else pt.(cnt := pt.cnt[t := pt.cnt[t] + 1]), v, leak, Within(pt.place[t]))
  {
    var pt' := if t == 0 then pt else pt.(cnt := pt.cnt[t := pt.cnt[t] + 1]);
    forall u: nat ensures CountAt(pt', v, leak, Within(pt.place[t]), u) {
      assert CountAt(pt, v, leak, Above(pt.place[t]), u);
      if u in pt.place && u != 0 && Counted(v, Within(pt.place[t]), pt.place[u]) && !Overlap(v.w0, v.w1, pt.place[u].lo, pt.place[u].hi) {
        AboveWithin(pt, t, u);
      }
    }
  }

  /** While the window overlaps `t`, being inside it or above it makes no difference. */
  lemma CountsAround(pt: PT, v: View, leak: seq<nat>, t: nat)
    requires Struct(pt) && t in pt.place && Overlap(v.w0, v.w1, pt.place[t].lo, pt.place[t].hi)
    ensures Counts(pt, v, leak, Above(pt.place[t])) <==> Counts(pt, v, leak, Within(pt.place[t]))
  {
    forall u: nat ensures CountAt(pt, v, leak, Above(pt.place[t]), u) <==> CountAt(pt, v, leak, Within(pt.place[t]), u) {
      if u in pt.place && Counted(v, Within(pt.place[t]), pt.place[u]) && !Overlap(v.w0, v.w1, pt.place[u].lo, pt.place[u].hi) {
        AboveWithin(pt, t, u);
      }
    }
    CountsIff(pt, v, leak, Above(pt.place[t]), Within(pt.place[t]));
  }

  lemma CountsIff(pt: PT, v: View, leak: seq<nat>, o: Open, o': Open)
    requires forall u: nat :: CountAt(pt, v, leak, o, u) <==> CountAt(pt, v, leak, o', u)
    ensures Counts(pt, v, leak, o) <==> Counts(pt, v, leak, o')
  {
    if Counts(pt, v, leak, o) {
      forall u: nat ensures CountAt(pt, v, leak, o', u) { assert CountAt(pt, v, leak, o, u); }
    }
    if Counts(pt, v, leak, o') {
      forall u: nat ensures CountAt(pt, v, leak, o, u) { assert CountAt(pt, v, leak, o', u); }
    }
  }

  /** Counting the region out at `t`, on leaving it while unmapping. */
  lemma CountsLeave(pt: PT, v: View, leak: seq<nat>, t: nat)
    requires Struct(pt) && t in pt.place && t < |pt.cnt| && Counts(pt, v, leak, Within(pt.place[t]))
    requires !Overlap(v.w0, v.w1, pt.place[t].lo, pt.place[t].hi)
    ensures Counts(if t == 0 then pt else pt.(cnt := pt.cnt[t := pt.cnt[t] - 1]), v, leak, Above(pt.place[t]))
  {
    var pt' := if t == 0 then pt else pt.(cnt := pt.cnt[t := pt.cnt[t] - 1]);
    forall u: nat ensures CountAt(pt', v, leak, Above(pt.place[t]), u) {
      assert CountAt(pt, v, leak, Within(pt.place[t]), u);
      if u in pt.place && u != 0 && Counted(v, Within(pt.place[t]), pt.place[u]) && !Overlap(v.w0, v.w1, pt.place[u].lo, pt.place[u].hi) {
        AboveWithin(pt, t, u);
      }
    }
  }

  /** The tables around an entry of `t` are those above the sub-table in that entry. */
  lemma CountsDescend(pt: PT, v: View, leak: seq<nat>, t: nat, i: nat)
    requires Struct(pt) && HasSlot(pt, t, i) && pt.mem[t][i].Table?
    ensures pt.mem[t][i].next in pt.place
    ensures Counts(pt, v, leak, Within(pt.place[t])) <==> Counts(pt, v, leak, Above(pt.place[pt.mem[t][i].next]))
  {
    assert SlotOK(pt, t, i);
    var s := pt.mem[t][i].next;
    SlotSpan(pt, t, i);
    SpanNonempty(pt, s);
    forall u: nat ensures CountAt(pt, v, leak, Within(pt.place[t]), u) <==> CountAt(pt, v, leak, Above(pt.place[s]), u) {
      if u in pt.place && pt.place[u].level <= pt.place[t].level && pt.place[u].lo <= pt.place[s].lo && pt.place[s].hi <= pt.place[u].hi {
        SpanNest(pt, u, t);
      }
    }
    CountsIff(pt, v, leak, Within(pt.place[t]), Above(pt.place[s]));
  }

  /** Linking an unused table under an invalid entry. */
  lemma LinkStep(pt: PT, v: View, leak: seq<nat>, t: nat, i: nat, s: nat)
    requires HasSlot(pt, t, i) && PlacedOK(pt, v, leak, Within(pt.place[t]))
    requires pt.place[t].level < 3 && pt.mem[t][i] == Invalid
    requires s < |pt.mem| && s !in pt.place && |pt.mem[s]| == TABLE_ENTRIES && Blank(pt.mem[s])
    requires pt.cnt[s] == leak[s] == 0
    ensures PlacedOK(Link(pt, t, i, s), v, leak, Within(pt.place[t]))
  {
    var pt' := Link(pt, t, i, s);
    StructLink(pt, t, i, s);
    assert OwnedAt(pt, v, t, i);
    forall u: nat, j: nat ensures OwnedAt(pt', v, u, j) {
      if u == s {
        if HasSlot(pt', s, j) { SlotSpan(pt', s, j); }
      } else {
        assert OwnedAt(pt, v, u, j);
      }
    }
    forall u: nat ensures CountAt(pt', v, leak, Within(pt.place[t]), u) {
      if u != s { assert CountAt(pt, v, leak, Within(pt.place[t]), u); }
    }
  }

  /** A sub-table the region in flight no longer counts, with a zero count, meets nothing. */
  lemma UnusedMeetsNothing(pt: PT, v: View, leak: seq<nat>, o: Open, s: nat)
    requires Struct(pt) && s in pt.place && s != 0 && s < |pt.cnt| && Counts(pt, v, leak, o) && pt.cnt[s] == 0
    ensures s < |leak| && leak[s] == 0
    ensures First(v.rs, pt.place[s].lo, pt.place[s].hi).None?
    ensures !Overlap(v.w0, v.w1, pt.place[s].lo, pt.place[s].hi)
  {
    assert CountAt(pt, v, leak, o, s);
  }

  /** A sub-table below an unused one can only be held by a leftover count. */
  lemma HeldByLeak(pt: PT, v: View, leak: seq<nat>, o: Open, s: nat, c: nat)
    requires PlacedOK(pt, v, leak, o) && s in pt.place && s != 0 && s < |pt.cnt| && pt.cnt[s] == 0
    requires c in pt.place && c != 0 && c < |pt.cnt| && pt.cnt[c] >= 1
    requires pt.place[s].lo <= pt.place[c].lo && pt.place[c].hi <= pt.place[s].hi
    requires o.lvl <= pt.place[c].level
    ensures c < |leak| && leak[c] >= 1
  {
    UnusedMeetsNothing(pt, v, leak, o, s);
    assert CountAt(pt, v, leak, o, c);
    CountMonotone(v.rs, pt.place[c].lo, pt.place[c].hi, pt.place[s].lo, pt.place[s].hi);
  }

  lemma UnusedIsShallow(pt: PT, v: View, leak: seq<nat>, o: Open, s: nat)
    requires PlacedOK(pt, v, leak, o) && InUse(pt, s) && s in pt.place && s != 0 && s < |pt.cnt| && pt.cnt[s] == 0
    requires o.lvl <= pt.place[s].level
    ensures Shallow(pt, s)
  {
    forall g | g in pt.place && g != 0 && pt.place[g].up in pt.place && pt.place[g].up != 0
      ensures pt.place[pt.place[g].up].up != s
    {
      var c := pt.place[g].up;
      assert PlaceOK(pt, g) && PlaceOK(pt, c) && PlaceOK(pt, s);
      if pt.place[c].up == s {
        SlotSpan(pt, s, pt.place[c].slot);
        SlotSpan(pt, c, pt.place[g].slot);
        SpanNonempty(pt, c);
        SpanNonempty(pt, g);
        HeldByLeak(pt, v, leak, o, s, g);
      }
    }
  }

  lemma TableIsDoomed(pt: PT, v: View, leak: seq<nat>, o: Open, s: nat, j: nat)
    requires PlacedOK(pt, v, leak, o) && InUse(pt, s) && s in pt.place && s != 0 && s < |pt.cnt| && pt.cnt[s] == 0
    requires o.lvl <= pt.place[s].level && HasSlot(pt, s, j) && pt.mem[s][j].Table?
    ensures Doomed(pt, v.rs, leak, pt.mem[s][j].next)
  {
    var c := pt.mem[s][j].next;
    SlotSpan(pt, s, j);
    assert SlotOK(pt, s, j);
    assert PlaceOK(pt, c);
    UnusedMeetsNothing(pt, v, leak, o, s);
    HeldByLeak(pt, v, leak, o, s, c);
  }

  /** In a tidy context an unused sub-table is empty. */
  lemma UnusedIsBlank(pt: PT, v: View, leak: seq<nat>, o: Open, s: nat)
    requires PlacedOK(pt, v, leak, o) && InUse(pt, s) && s in pt.place && s != 0 && s < |pt.cnt| && pt.cnt[s] == 0
    requires o.lvl <= pt.place[s].level && Tidy(pt, v.rs, leak)
    ensures Blank(pt.mem[s])
  {
    UnusedMeetsNothing(pt, v, leak, o, s);
    forall j | 0 <= j < |pt.mem[s]| ensures pt.mem[s][j] == Invalid {
      SlotSpan(pt, s, j);
      assert OwnedAt(pt, v, s, j);
      assert SlotOK(pt, s, j);
      if pt.mem[s][j].Table? {
        TableIsDoomed(pt, v, leak, o, s, j);
        assert false;
      } else if pt.mem[s][j].Leaf? {
        CountMonotone(v.rs, SlotLo(pt.place[s], j), SlotHi(pt.place[s], j), pt.place[s].lo, pt.place[s].hi);
        assert false;
      }
    }
  }

  /** Dropping the entry that points at an unused sub-table. */
  lemma UnlinkStep(pt: PT, v: View, leak: seq<nat>, t: nat, i: nat, s: nat)
    requires HasSlot(pt, t, i) && PlacedOK(pt, v, leak, Within(pt.place[t])) && InUse(pt, s)
    requires pt.mem[t][i] == Table(s) && s < |pt.cnt| && pt.cnt[s] == 0
    ensures PlacedOK(Unlink(pt, t, i, s), v, leak, Within(pt.place[t]))
    ensures InUse(Unlink(pt, t, i, s), 0)
    ensures Clean(pt, leak) && Tidy(pt, v.rs, leak) ==> Clean(Unlink(pt, t, i, s), leak)
  {
    var o := Within(pt.place[t]);
    var pt' := Unlink(pt, t, i, s);
    assert SlotOK(pt, t, i);
    UnusedIsShallow(pt, v, leak, o, s);
    StructUnlink(pt, t, i, s);
    UnusedMeetsNothing(pt, v, leak, o, s);
    forall u: nat, j: nat ensures OwnedAt(pt', v, u, j) { assert OwnedAt(pt, v, u, j); }
    forall u: nat ensures CountAt(pt', v, leak, o, u) { assert CountAt(pt, v, leak, o, u); }
    if Clean(pt, leak) && Tidy(pt, v.rs, leak) {
      UnusedIsBlank(pt, v, leak, o, s);
      UnlinkClean(pt, leak, t, i, s);
    }
  }

  lemma UpPlaced(pt: PT, c: nat)
    requires Struct(pt)
    ensures c in pt.place && c != 0 ==> pt.place[c].up in pt.place
  {
    if c in pt.place { assert PlaceOK(pt, c); }
  }

  /** What is given up when only `rs` is left is empty exactly in a tidy context. */
  lemma CleanIffTidy(pt: PT, pt': PT, v: View, leak: seq<nat>)
    requires Struct(pt) && |pt'.mem| == |pt.mem| == |leak| && v.w1 <= v.w0
    requires forall u | u in pt'.place :: u in pt.place && pt'.place[u] == pt.place[u]
    requires PlacedOK(pt', v, leak, NoneOpen) && InUse(pt', 0)
    requires Tidy(pt, v.rs, leak) ==> Clean(pt', leak)
    ensures Clean(pt', leak) <==> Tidy(pt, v.rs, leak)
  {
    hide Owners;
    if !Tidy(pt, v.rs, leak) {
      var c :| Doomed(pt, v.rs, leak, c);
      var u := pt.place[c].up;
      assert PlaceOK(pt, c) && PlaceOK(pt, u);
      assert CountAt(pt', v, leak, NoneOpen, u);
      UpPlaced(pt', c);
    }
  }

  lemma UnlinkClean(pt: PT, leak: seq<nat>, t: nat, i: nat, s: nat)
    requires Struct(pt) && HasSlot(pt, t, i) && pt.mem[t][i] == Table(s) && s < |pt.cnt| && Clean(pt, leak)
    requires pt.cnt[s] == leak[s] == 0 && Blank(pt.mem[s])
    ensures Clean(Unlink(pt, t, i, s), leak)
  {
    var pt' := Unlink(pt, t, i, s);
    assert SlotOK(pt, t, i);
    forall u | 0 <= u < |pt'.mem| && u !in pt'.place ensures pt'.cnt[u] == leak[u] == 0 && Blank(pt'.mem[u]) {
      if u in pt.place { assert PlaceOK(pt, u); }
    }
  }

  /** Running out of tables at an invalid entry: what has been counted in so far is
      every table meeting the region up to the address reached. */
  lemma CountsFail(pt: PT, v: View, leak: seq<nat>, t: nat, i: nat, m: nat)
    requires HasSlot(pt, t, i) && PlacedOK(pt, v, leak, Within(pt.place[t])) && pt.mem[t][i] == Invalid
    requires SlotLo(pt.place[t], i) <= m < SlotHi(pt.place[t], i) && v.w0 <= m == v.w1
    ensures Counts(pt, v.(w1 := m + 1), leak, NoneOpen)
    ensures forall u | u in pt.place && pt.place[u].lo <= m < pt.place[u].hi :: pt.place[u].level <= pt.place[t].level
  {
    var o := Within(pt.place[t]);
    SlotSpan(pt, t, i);
    forall u | u in pt.place && pt.place[u].lo <= m < pt.place[u].hi
      ensures pt.place[u].level <= pt.place[t].level && Counted(v, o, pt.place[u])
    {
      if pt.place[t].level < pt.place[u].level {
        NoTableUnder(pt, t, i, u);
      } else {
        SpanNest(pt, u, t);
      }
    }
    var v' := v.(w1 := m + 1);
    forall u: nat ensures CountAt(pt, v', leak, NoneOpen, u) {
      assert CountAt(pt, v, leak, o, u);
      if u in pt.place && u != 0 {
        SpanNonempty(pt, u);
        if Counted(v, o, pt.place[u]) && !Overlap(v.w0, v.w1, pt.place[u].lo, pt.place[u].hi) {
          assert pt.place[u].lo <= m < pt.place[u].hi;
        }
      }
    }
  }
}
