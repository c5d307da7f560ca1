/** Walking the tables: which entry an address reaches and what it shows. */
module XlatWalk {
  import opened Numbers
  import opened Wrappers
  import opened XlatDescriptor
  import opened XlatGeometry
  import opened XlatTables
  import opened XlatInvariant
  import opened XlatSteps
  import opened XlatRegions

  // ----- Table indices

  lemma ModIs(x: nat, i: nat)
    requires i < 512
    ensures (512 * x + i) % 512 == i
  {
  }

  lemma ModShift(x: nat, j: nat)
    ensures (512 * x + j) % 512 == j % 512
  {
  }

  /** The index of an address depends only on its offset in the span of the base table. */
  lemma IndexAlias(base: Level, level: Level, va: nat)
    requires base <= level
    ensures va / Block(level) % 512 == (va % (512 * Block(base))) / Block(level) % 512
  {
    var b := Block(level);
    var f := if base == level then 1 else if base + 1 == level then 512 else if base + 2 == level then 0x4_0000 else 0x800_0000;
    var k := 512 * Block(base);
    assert Block(base) == f * b;
    hide Block;
    DivRange(va, k);
    DivBounds(va % k, b);
    Shifted(va, va / k, f, b, va % k, (va % k) / b, k);
  }

  lemma Shifted(va: nat, q: nat, f: nat, b: nat, a: nat, j: nat, k: nat)
    requires b > 0 && k == 512 * (f * b) && va == q * k + a && j * b <= a < (j + 1) * b
    ensures va / b % 512 == j % 512
  {
    var x := f * q;
    assert q * k == 512 * x * b by { assert q * (512 * (f * b)) == 512 * (f * q) * b; }
    assert (512 * x + j) * b == 512 * x * b + j * b;
    assert (512 * x + j + 1) * b == 512 * x * b + (j + 1) * b;
    DivIs(va, 512 * x + j, b);
    ModShift(x, j);
  }

  lemma IndexIn(b: nat, lo: nat, a: nat)
    requires b > 0 && lo % (512 * b) == 0 && lo <= a < lo + 512 * b
    ensures var i := a / b % 512; lo + i * b <= a < lo + i * b + b
  {
    var m := lo / (512 * b);
    assert lo == m * (512 * b);
    DivBounds(a, b);
    InUnits(m, lo, a, b, a / b);
  }

  lemma InUnits(m: nat, lo: nat, a: nat, b: nat, j: nat)
    requires b > 0 && lo == m * (512 * b) && lo <= a < lo + 512 * b && j * b <= a < (j + 1) * b
    ensures var i := j % 512; lo + i * b <= a < lo + i * b + b
  {
    assert lo == (512 * m) * b;
    assert (512 * m + 512) * b == (512 * m) * b + 512 * b;
    NestUnits(512 * m, 512, j, b);
    var i := j - 512 * m;
    ModIs(m, i);
    assert j % 512 == i;
    assert (512 * m + i) * b == (512 * m) * b + i * b;
    assert (j + 1) * b == j * b + b;
  }

  // ----- The walk

  function PageOf(a: nat): nat { a - a % PAGE_SIZE }

  /** The attributes the page at `a` should show. */
  function Shown(r: Region, ov: map<nat, Attr>, regime: Regime, a: nat): Attr {
    if PageOf(a) in ov then ov[PageOf(a)] else Normalise(regime, r.attr)
  }

  /** The part of an address that the tables look at. */
  function Alias(va: nat, base: Level): nat { va % (TABLE_ENTRIES * Block(base)) }

  /** The index computed from the address alone selects the entry that spans it. */
  lemma WalkIndex(pt: PT, t: nat, va: nat, a: nat)
    requires Struct(pt) && t in pt.place && 0 in pt.place && pt.place[0].level <= pt.place[t].level && a == Alias(va, pt.place[0].level)
    requires t == 0 || pt.place[t].lo <= a < pt.place[t].hi
    ensures var p := pt.place[t]; var i := va / Block(p.level) % TABLE_ENTRIES;
            && t < |pt.mem|
            && (i < |pt.mem[t]| <==> a < p.hi)
            && (i < |pt.mem[t]| ==> SlotLo(p, i) <= a < SlotHi(p, i))
  {
    hide Struct;
    WalkPlace(pt, t);
    var p := pt.place[t];
    IndexAlias(pt.place[0].level, p.level, va);
    if t == 0 {
      BaseIndex(va, p.level, |pt.mem[0]|);
    } else {
      IndexIn(Block(p.level), p.lo, a);
    }
  }

  lemma WalkPlace(pt: PT, t: nat)
    requires Struct(pt) && t in pt.place
    ensures var p := pt.place[t]; var b := Block(p.level);
            && t < |pt.mem|
            && (t == 0 ==> p.lo == 0 && p.hi == |pt.mem[0]| * b && |pt.mem[0]| <= TABLE_ENTRIES)
            && (t != 0 ==> |pt.mem[t]| == TABLE_ENTRIES && p.lo % (TABLE_ENTRIES * b) == 0 && p.hi == p.lo + TABLE_ENTRIES * b)
  {
    assert PlaceOK(pt, t);
  }

  lemma BaseIndex(va: nat, level: Level, n: nat)
    requires n <= TABLE_ENTRIES
    ensures var b := Block(level); var a := Alias(va, level); var i := va / b % TABLE_ENTRIES;
            (i < n <==> a < n * b) && i * b <= a < i * b + b
  {
    IndexAlias(level, level, va);
    var b := Block(level);
    var a := Alias(va, level);
    hide Block;
    IndexIn(b, 0, a);
    Cancel(va / b % TABLE_ENTRIES, n, a, b);
  }

  lemma Cancel(i: nat, n: nat, a: nat, b: nat)
    requires b > 0 && i * b <= a < i * b + b
    ensures i < n <==> a < n * b
  {
    assert i < n ==> (i + 1) * b <= n * b;
    assert n <= i ==> n * b <= i * b;
  }

  /** An invalid entry on the way means no region holds the address. */
  lemma WalkMiss(pt: PT, v: View, t: nat, i: nat, a: nat)
    requires Owners(pt, v) && HasSlot(pt, t, i) && pt.mem[t][i] == Invalid
    requires SlotLo(pt.place[t], i) <= a < SlotHi(pt.place[t], i)
    ensures First(v.rs, a, a + 1).None?
  {
    assert OwnedAt(pt, v, t, i);
  }

  /** A leaf on the way maps the address as the first region that holds it does. */
  lemma WalkHit(pt: PT, v: View, t: nat, i: nat, a: nat)
    requires Struct(pt) && Owners(pt, v) && HasSlot(pt, t, i) && pt.mem[t][i].Leaf? && v.w1 <= v.w0
    requires SlotLo(pt.place[t], i) <= a < SlotHi(pt.place[t], i)
    ensures var d := pt.mem[t][i]; var r := First(v.rs, a, a + 1);
            && r.Some?
            && d.pa + (a - SlotLo(pt.place[t], i)) == r.value.pa + (a - r.value.va)
            && d.attr == Shown(r.value, v.ov, v.regime, a)
  {
    var p := pt.place[t];
    var lo, hi := SlotLo(p, i), SlotHi(p, i);
    assert OwnedAt(pt, v, t, i);
    SlotSpan(pt, t, i);
    FirstInside(v.rs, lo, hi, a);
    SlotPages(pt, t, i);
    LeafPage(lo, p.level, a);
  }

  lemma LeafPage(lo: nat, level: Level, a: nat)
    requires PageAligned(lo) && lo <= a < lo + Block(level)
    ensures lo <= PageOf(a) < lo + Block(level)
    ensures Block(level) == PAGE_SIZE ==> PageOf(a) == lo
  {
    hide Block;
  }

  /** A region that holds a whole interval and is the first to meet it is the first to meet
      each of its addresses. */
  lemma {:induction false} FirstInside(rs: seq<Region>, lo: nat, hi: nat, a: nat)
    requires lo <= a < hi && First(rs, lo, hi).Some?
    requires var r := First(rs, lo, hi).value; r.va <= lo && hi <= r.End()
    ensures First(rs, a, a + 1) == First(rs, lo, hi)
  {
    if !Meets(rs[0], lo, hi) { FirstInside(rs[1..], lo, hi, a); }
  }

  /** Descending through a table descriptor keeps the address in the span. */
  lemma WalkDown(pt: PT, t: nat, i: nat, a: nat)
    requires Struct(pt) && HasSlot(pt, t, i) && pt.mem[t][i].Table?
    requires SlotLo(pt.place[t], i) <= a < SlotHi(pt.place[t], i)
    ensures pt.place[t].level < 3
    ensures var s := pt.mem[t][i].next;
            && s in pt.place && s != 0 && s < |pt.mem| && pt.place[s].level == pt.place[t].level + 1
            && pt.place[s].lo <= a < pt.place[s].hi
  {
    assert SlotOK(pt, t, i);
    assert PlaceOK(pt, pt.mem[t][i].next);
  }

  lemma NoTableAtPages(pt: PT, t: nat, i: nat)
    requires Struct(pt) && HasSlot(pt, t, i) && pt.place[t].level == 3
    ensures !pt.mem[t][i].Table?
  {
    assert SlotOK(pt, t, i);
  }

  // ----- Changing the attributes of a page

  /** A page whose attributes may be changed: mapped as a page, and not device memory that
      would become executable. */
  ghost predicate PageAt(pt: PT, a: nat, xn: bool) {
    exists t, i :: PageEntry(pt, a, xn, t, i)
  }

  ghost predicate PageEntry(pt: PT, a: nat, xn: bool, t: nat, i: nat) {
    && HasSlot(pt, t, i) && pt.place[t].level == 3 && pt.mem[t][i].Leaf?
    && SlotLo(pt.place[t], i) <= a < SlotHi(pt.place[t], i)
    && (pt.mem[t][i].attr.memType == Device ==> xn)
  }

  lemma PageIntro(pt: PT, a: nat, xn: bool, t: nat, i: nat)
    requires PageEntry(pt, a, xn, t, i)
    ensures PageAt(pt, a, xn)
  {
  }

  /** Rewriting the attributes of one page entry changes what that page shows and nothing else. */
  lemma ChangeEntry(pt: PT, v: View, leak: seq<nat>, t: nat, i: nat, attr: Attr)
    requires PlacedOK(pt, v, leak, NoneOpen) && v.w1 <= v.w0
    requires HasSlot(pt, t, i) && pt.place[t].level == 3 && pt.mem[t][i].Leaf?
    ensures var pt' := Put(pt, t, i, pt.mem[t][i].(attr := attr));
            PlacedOK(pt', v.(ov := v.ov[SlotLo(pt.place[t], i) := attr]), leak, NoneOpen)
  {
    var d := pt.mem[t][i].(attr := attr);
    var lo := SlotLo(pt.place[t], i);
    var v' := v.(ov := v.ov[lo := attr]);
    var pt' := Put(pt, t, i, d);
    assert SlotOK(pt, t, i);
    StructPut(pt, t, i, d);
    forall u: nat, j: nat ensures OwnedAt(pt', v', u, j) {
      assert OwnedAt(pt, v, u, j);
      if HasSlot(pt, u, j) && pt.mem[u][j].Leaf? && SlotLo(pt.place[u], j) <= lo < SlotHi(pt.place[u], j) {
        SlotUnique(pt, t, i, u, j);
      }
    }
    forall u: nat ensures CountAt(pt', v', leak, NoneOpen, u) { assert CountAt(pt, v, leak, NoneOpen, u); }
  }

  /** Pages that could be changed still can after one of them was. */
  lemma ChangeKeepsPages(pt: PT, t: nat, i: nat, attr: Attr, a: nat, xn: bool)
    requires HasSlot(pt, t, i) && pt.place[t].level == 3 && pt.mem[t][i].Leaf? && attr.memType == pt.mem[t][i].attr.memType
    requires PageAt(pt, a, xn)
    ensures PageAt(Put(pt, t, i, pt.mem[t][i].(attr := attr)), a, xn)
  {
    var u, j :| PageEntry(pt, a, xn, u, j);
    assert PageEntry(Put(pt, t, i, pt.mem[t][i].(attr := attr)), a, xn, u, j);
  }

  /** What a page shows after an accepted change: the requested permissions, with the type and
      security state it had. */
  function Requested(regime: Regime, prev: Attr, attr: Attr): Attr {
    Attr(prev.memType, attr.rw, prev.ns, attr.xn, regime == EL1_EL0 && attr.user)
  }

  /** The entry found for a changeable page is that page's own. */
  lemma PageFound(pt: PT, a: nat, xn: bool, t: nat, i: nat)
    requires Struct(pt) && PageAt(pt, a, xn) && PageAligned(a)
    requires HasSlot(pt, t, i) && pt.mem[t][i].Leaf? && SlotLo(pt.place[t], i) <= a < SlotHi(pt.place[t], i)
    ensures pt.place[t].level == 3 && SlotLo(pt.place[t], i) == a && (pt.mem[t][i].attr.memType == Device ==> xn)
  {
    hide Struct;
    var u, j :| PageEntry(pt, a, xn, u, j);
    SlotUnique(pt, t, i, u, j);
    SlotPages(pt, t, i);
    LeafPage(a, 3, a);
    LeafPage(SlotLo(pt.place[t], i), 3, a);
  }

  lemma PutKeepsPool(pt: PT, leak: seq<nat>, t: nat, i: nat, d: Desc)
    requires HasSlot(pt, t, i)
    ensures Clean(pt, leak) ==> Clean(Put(pt, t, i, d), leak)
    ensures InUse(pt, 0) ==> InUse(Put(pt, t, i, d), 0)
  {
  }

  lemma PutTwice(mem: seq<seq<Desc>>, t: nat, i: nat, d: Desc, d': Desc)
    requires t < |mem| && i < |mem[t]|
    ensures mem[t := mem[t][i := d]][t := mem[t][i := d][i := d']] == mem[t := mem[t][i := d']]
  {
    assert mem[t][i := d][i := d'] == mem[t][i := d'];
  }

  /** A page changed by an accepted request shows exactly what was asked. */
  lemma RequestedShown(regime: Regime, prev: Attr, attr: Attr)
    requires (attr.xn || !attr.rw) && (prev.memType == Device ==> attr.xn)
    ensures Normalise(regime, ChangedAttr(prev, attr)) == Requested(regime, prev, attr)
  {
  }

  /** The changed pages after the first `n` pages from `base` were changed as requested. */
  ghost function ChangePages(rs: seq<Region>, ov: map<nat, Attr>, regime: Regime, base: nat, n: nat, attr: Attr): map<nat, Attr> {
    if n == 0 then ov else
    var a := base + (n - 1) * PAGE_SIZE;
    var prev := ChangePages(rs, ov, regime, base, n - 1, attr);
    match First(rs, a, a + 1)
    case None => prev
    case Some(r) => prev[a := Requested(regime, Shown(r, ov, regime, a), attr)]
  }

  /** Exactly the requested pages change, and each from what it showed before. */
  lemma {:induction false} ChangePagesAt(rs: seq<Region>, ov: map<nat, Attr>, regime: Regime, base: nat, n: nat, attr: Attr, a: nat)
    requires PageAligned(base) && PageAligned(a)
    ensures var now := ChangePages(rs, ov, regime, base, n, attr);
            if base <= a < base + n * PAGE_SIZE && First(rs, a, a + 1).Some?
            then a in now && now[a] == Requested(regime, Shown(First(rs, a, a + 1).value, ov, regime, a), attr)
            else (a in now <==> a in ov) && (a in ov ==> now[a] == ov[a])
  {
    if n > 0 { ChangePagesAt(rs, ov, regime, base, n - 1, attr, a); }
  }

  lemma NoPages(rs: seq<Region>, ov: map<nat, Attr>, regime: Regime, base: nat, attr: Attr)
    ensures ChangePages(rs, ov, regime, base, 0, attr) == ov
  {
  }
}
