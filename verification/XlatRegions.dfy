/** The region list: its order, what may overlap, and how adding or removing a
    region changes what the tables should say. */
module XlatRegions {
  import opened Wrappers
  import opened XlatDescriptor
  import opened XlatGeometry
  import opened XlatTables
  import opened XlatInvariant
  import opened XlatSteps

  /** Lower end address first, then smaller size. */
  predicate Before(a: Region, b: Region) {
    a.End() < b.End() || (a.End() == b.End() && a.size < b.size)
  }

  predicate Separate(a: Region, b: Region) {
    (a.End() <= b.va || b.End() <= a.va) && (a.EndPa() <= b.pa || b.EndPa() <= a.pa)
  }

  predicate FullyOverlapped(a: Region, b: Region) {
    (b.va <= a.va && a.End() <= b.End()) || (a.va <= b.va && b.End() <= a.End())
  }

  /** One static region inside another with the same offset, but not the same area. */
  predicate Nested(a: Region, b: Region) {
    && FullyOverlapped(a, b)
    && !a.dynamic && !b.dynamic
    && a.va - a.pa == b.va - b.pa
    && !(a.va == b.va && a.size == b.size)
  }

  predicate Compatible(a: Region, b: Region) {
    if FullyOverlapped(a, b) then Nested(a, b) else Separate(a, b)
  }

  // ----- The same, address by address

  predicate MapsVa(r: Region, v: int) {
    r.va <= v < r.va + r.size
  }

  predicate MapsPa(r: Region, p: int) {
    r.pa <= p < r.pa + r.size
  }

  /** No virtual address is in both regions, and no physical one. */
  ghost predicate ShareNothing(a: Region, b: Region) {
    && (forall v: int :: !(MapsVa(a, v) && MapsVa(b, v)))
    && (forall p: int :: !(MapsPa(a, p) && MapsPa(b, p)))
  }

  /** Both are static, one contains the other, and the virtual addresses they share are mapped the same way. */
  ghost predicate ShareAlike(a: Region, b: Region) {
    && !a.dynamic && !b.dynamic
    && ((forall v: int | MapsVa(a, v) :: MapsVa(b, v)) || (forall v: int | MapsVa(b, v) :: MapsVa(a, v)))
    && (forall v: int | MapsVa(a, v) && MapsVa(b, v) :: a.pa + (v - a.va) == b.pa + (v - b.va))
  }

  /** The virtual addresses of the regions are the same. */
  ghost predicate SameArea(a: Region, b: Region) {
    forall v: int :: MapsVa(a, v) <==> MapsVa(b, v)
  }

  lemma FullyMeans(a: Region, b: Region)
    requires a.size > 0 && b.size > 0
    ensures FullyOverlapped(a, b) <==> (forall v: int | MapsVa(a, v) :: MapsVa(b, v)) || (forall v: int | MapsVa(b, v) :: MapsVa(a, v))
    ensures a.va == b.va && a.size == b.size <==> SameArea(a, b)
  {
    assert MapsVa(a, a.va) && MapsVa(a, a.End() - 1) && MapsVa(b, b.va) && MapsVa(b, b.End() - 1);
  }

  lemma SeparateMeans(a: Region, b: Region)
    requires a.size > 0 && b.size > 0
    ensures Separate(a, b) <==> ShareNothing(a, b)
  {
    assert MapsVa(a, a.va) && MapsVa(a, a.End() - 1) && MapsVa(b, b.va) && MapsVa(b, b.End() - 1);
    assert MapsPa(a, a.pa) && MapsPa(a, a.EndPa() - 1) && MapsPa(b, b.pa) && MapsPa(b, b.EndPa() - 1);
  }

  /** What may stand in one list: regions that share nothing, or static ones nested and mapped alike, but not over
      the same area. */
  lemma CompatibleMeans(a: Region, b: Region)
    requires a.size > 0 && b.size > 0
    ensures Compatible(a, b) <==> ShareNothing(a, b) || (ShareAlike(a, b) && !SameArea(a, b))
  {
    FullyMeans(a, b);
    SeparateMeans(a, b);
    assert MapsVa(a, a.va) && MapsVa(b, b.va);
    hide MapsVa, MapsPa;
    if FullyOverlapped(a, b) && a.va - a.pa != b.va - b.pa { OffsetsDiffer(a, b); }
    if FullyOverlapped(a, b) { SharesOne(a, b); }
  }

  lemma SharesOne(a: Region, b: Region)
    requires a.size > 0 && b.size > 0 && FullyOverlapped(a, b)
    ensures !ShareNothing(a, b)
  {
    var v := if b.va <= a.va then a.va else b.va;
    assert MapsVa(a, v) && MapsVa(b, v);
  }

  lemma OffsetsDiffer(a: Region, b: Region)
    requires a.size > 0 && b.size > 0 && FullyOverlapped(a, b) && a.va - a.pa != b.va - b.pa
    ensures !ShareAlike(a, b)
  {
    var v := if b.va <= a.va then a.va else b.va;
    assert MapsVa(a, v) && MapsVa(b, v);
  }

  ghost predicate ListOK(rs: seq<Region>) {
    && (forall r | r in rs :: Mappable(r))
    && forall i, j | 0 <= i < j < |rs| :: Before(rs[i], rs[j]) && Compatible(rs[i], rs[j])
  }

  /** Any two regions of a list share no address at all, or are static, nested and mapped alike. */
  lemma ListShares(rs: seq<Region>, i: nat, j: nat)
    requires ListOK(rs) && i < |rs| && j < |rs| && i != j
    ensures ShareNothing(rs[i], rs[j]) || (ShareAlike(rs[i], rs[j]) && !SameArea(rs[i], rs[j]))
  {
    hide Compatible, ShareNothing, ShareAlike, SameArea;
    var a, b := rs[if i < j then i else j], rs[if i < j then j else i];
    assert Compatible(a, b) && a in rs && b in rs;
    CompatibleMeans(a, b);
    Swapped(a, b);
  }

  lemma Swapped(a: Region, b: Region)
    ensures ShareNothing(a, b) <==> ShareNothing(b, a)
    ensures ShareAlike(a, b) <==> ShareAlike(b, a)
    ensures SameArea(a, b) <==> SameArea(b, a)
  {
    hide MapsVa, MapsPa;
  }

  function Insert(rs: seq<Region>, k: nat, mm: Region): seq<Region>
    requires k <= |rs|
  {
    rs[..k] + [mm] + rs[k..]
  }

  function Remove(rs: seq<Region>, k: nat): seq<Region>
    requires k < |rs|
  {
    rs[..k] + rs[k + 1..]
  }

  lemma InsertOK(rs: seq<Region>, k: nat, mm: Region)
    requires ListOK(rs) && k <= |rs| && Mappable(mm)
    requires forall i | 0 <= i < |rs| :: Compatible(mm, rs[i])
    requires forall i | 0 <= i < k :: Before(rs[i], mm)
    requires forall i | k <= i < |rs| :: Before(mm, rs[i])
    ensures ListOK(Insert(rs, k, mm)) && Remove(Insert(rs, k, mm), k) == rs
  {
    var ls := Insert(rs, k, mm);
    forall i, j | 0 <= i < j < |ls| ensures Before(ls[i], ls[j]) && Compatible(ls[i], ls[j]) {
      var i' := if i < k then i else i - 1;
      var j' := if j < k then j else j - 1;
      assert i != k ==> ls[i] == rs[i'];
      assert j != k ==> ls[j] == rs[j'];
    }
  }

  lemma RemoveOK(rs: seq<Region>, k: nat)
    requires ListOK(rs) && k < |rs|
    ensures ListOK(Remove(rs, k)) && Insert(Remove(rs, k), k, rs[k]) == rs
  {
    var ls := Remove(rs, k);
    forall i, j | 0 <= i < j < |ls| ensures Before(ls[i], ls[j]) && Compatible(ls[i], ls[j]) {
      var i' := if i < k then i else i + 1;
      var j' := if j < k then j else j + 1;
      assert ls[i] == rs[i'] && ls[j] == rs[j'];
    }
  }

  /** In list order a region comes after everything it contains, so an outer region never
      overwrites an inner one. */
  lemma ListInner(rs: seq<Region>, j: nat)
    requires ListOK(rs) && j < |rs|
    ensures Inner(rs[..j], rs[j])
  {
    forall q | q in rs[..j] && Meets(q, rs[j].va, rs[j].End()) ensures rs[j].va <= q.va && q.End() <= rs[j].End() {
      var i :| 0 <= i < j && rs[i] == q;
      assert Before(rs[i], rs[j]) && Compatible(rs[i], rs[j]);
    }
  }

  /** `mm` overlaps no region of `rs`. */
  ghost predicate Apart(rs: seq<Region>, mm: Region) {
    forall q | q in rs :: !Meets(q, mm.va, mm.End())
  }

  /** A dynamic region overlaps nothing else in the list. */
  lemma DynamicApart(rs: seq<Region>, k: nat)
    requires ListOK(rs) && k < |rs| && rs[k].dynamic
    ensures Apart(Remove(rs, k), rs[k])
  {
    var ls := Remove(rs, k);
    forall q | q in ls ensures !Meets(q, rs[k].va, rs[k].End()) {
      var i :| 0 <= i < |ls| && ls[i] == q;
      var i' := if i < k then i else i + 1;
      assert rs[i'] == q;
      assert if i' < k then Compatible(rs[i'], rs[k]) else Compatible(rs[k], rs[i']);
    }
  }

  // ----- Highest addresses in use

  function Top(r: Region, phys: bool): nat
    requires r.size > 0
  {
    (if phys then r.EndPa() else r.End()) - 1
  }

  /** The highest address of a list, 0 for the empty list. */
  function MaxTop(rs: seq<Region>, phys: bool): (m: nat)
    requires forall r | r in rs :: r.size > 0
    ensures forall r | r in rs :: Top(r, phys) <= m
    ensures m == 0 || exists r | r in rs :: Top(r, phys) == m
  {
    if rs == [] then 0 else
    var m := MaxTop(rs[1..], phys);
    if Top(rs[0], phys) > m then Top(rs[0], phys) else m
  }

  lemma MaxTopUnique(rs: seq<Region>, phys: bool, m: nat)
    requires forall r | r in rs :: r.size > 0 && Top(r, phys) <= m
    requires m == 0 || exists r | r in rs :: Top(r, phys) == m
    ensures m == MaxTop(rs, phys)
  {
  }

  lemma InsertMembers(rs: seq<Region>, k: nat, mm: Region)
    requires k <= |rs|
    ensures |Insert(rs, k, mm)| == |rs| + 1
    ensures forall r :: r in Insert(rs, k, mm) <==> r == mm || r in rs
  {
    assert rs == rs[..k] + rs[k..];
  }

  lemma MaxTopInsert(rs: seq<Region>, k: nat, mm: Region, phys: bool)
    requires k <= |rs| && mm.size > 0 && forall r | r in rs :: r.size > 0
    ensures forall r | r in Insert(rs, k, mm) :: r.size > 0
    ensures MaxTop(Insert(rs, k, mm), phys) == Max(MaxTop(rs, phys), Top(mm, phys))
  {
    var ls := Insert(rs, k, mm);
    InsertMembers(rs, k, mm);
    MaxTopUnique(ls, phys, Max(MaxTop(rs, phys), Top(mm, phys)));
  }

  // ----- Views of a list

  const NoRegion := Region(0, 0, 0, Attr(Device, false, false, false, false), 0, false)

  /** All of `rs` is mapped and nothing is in flight. */
  function Listed(rs: seq<Region>, ov: map<nat, Attr>, regime: Regime): View {
    View(rs, NoRegion, 0, 0, ov, regime)
  }

  /** Views that differ only in an empty window say the same. */
  lemma EmptyWindow(pt: PT, v: View, v': View, leak: seq<nat>, o: Open)
    requires PlacedOK(pt, v, leak, o)
    requires v.rs == v'.rs && v.ov == v'.ov && v.regime == v'.regime && v.w1 <= v.w0 && v'.w1 <= v'.w0
    ensures PlacedOK(pt, v', leak, o)
  {
    forall t: nat, i: nat ensures OwnedAt(pt, v', t, i) {
      assert OwnedAt(pt, v, t, i);
      if HasSlot(pt, t, i) { SlotSpan(pt, t, i); }
    }
    forall u: nat ensures CountAt(pt, v', leak, o, u) { assert CountAt(pt, v, leak, o, u); }
  }

  /** No table lies above the base table. */
  lemma RootOpen(pt: PT, v: View, leak: seq<nat>)
    requires Struct(pt)
    ensures 0 in pt.place
    ensures Counts(pt, v, leak, Above(pt.place[0])) <==> Counts(pt, v, leak, NoneOpen)
  {
    forall u: nat ensures CountAt(pt, v, leak, Above(pt.place[0]), u) <==> CountAt(pt, v, leak, NoneOpen, u) {
      if u in pt.place { assert PlaceOK(pt, u); }
    }
    CountsIff(pt, v, leak, Above(pt.place[0]), NoneOpen);
  }

  /** A region mapped after the others, or apart from them, joins the list at any place. */
  lemma Absorb(pt: PT, rs: seq<Region>, k: nat, mm: Region, v: View, leak: seq<nat>)
    requires k <= |rs| && v == View(rs, mm, mm.va, mm.End(), v.ov, v.regime) && mm.size > 0
    requires PlacedOK(pt, v, leak, NoneOpen) && (k == |rs| || Apart(rs, mm))
    ensures PlacedOK(pt, Listed(Insert(rs, k, mm), v.ov, v.regime), leak, NoneOpen)
  {
    var v' := Listed(Insert(rs, k, mm), v.ov, v.regime);
    assert rs == rs[..k] + rs[k..];
    forall t: nat, i: nat ensures OwnedAt(pt, v', t, i) {
      assert OwnedAt(pt, v, t, i);
      if HasSlot(pt, t, i) {
        SlotSpan(pt, t, i);
        AbsorbOwned(pt.mem[t][i], SlotLo(pt.place[t], i), SlotHi(pt.place[t], i), rs, k, mm, v);
      }
    }
    forall u: nat ensures CountAt(pt, v', leak, NoneOpen, u) {
      assert CountAt(pt, v, leak, NoneOpen, u);
      if u in pt.place { MoveToEnd(rs[..k], mm, rs[k..], pt.place[u].lo, pt.place[u].hi); }
    }
  }

  lemma AbsorbOwned(d: Desc, lo: nat, hi: nat, rs: seq<Region>, k: nat, mm: Region, v: View)
    requires k <= |rs| && v == View(rs, mm, mm.va, mm.End(), v.ov, v.regime) && lo < hi
    requires Owned(v, d, lo, hi) && (k == |rs| || Apart(rs, mm))
    ensures Owned(Listed(Insert(rs, k, mm), v.ov, v.regime), d, lo, hi)
  {
    assert rs == rs[..k] + rs[k..];
    MoveToEnd(rs[..k], mm, rs[k..], lo, hi);
    if k == |rs| {
      assert rs[..k] == rs && Insert(rs, k, mm) == rs + [mm];
      FirstConcat(rs, [mm], lo, hi);
    } else {
      ApartSpan(rs, mm, lo, hi);
      assert First(Insert(rs, k, mm), lo, hi).Some? ==> First(Insert(rs, k, mm), lo, hi).value in rs + [mm];
    }
  }

  /** A region apart from the others can be taken out of the list and treated as in flight. */
  lemma Extract(pt: PT, rs: seq<Region>, k: nat, mm: Region, v: View, leak: seq<nat>)
    requires k <= |rs| && v == View(rs, mm, mm.va, mm.End(), v.ov, v.regime) && mm.size > 0 && Apart(rs, mm)
    requires PlacedOK(pt, Listed(Insert(rs, k, mm), v.ov, v.regime), leak, NoneOpen)
    ensures PlacedOK(pt, v, leak, NoneOpen)
  {
    var v' := Listed(Insert(rs, k, mm), v.ov, v.regime);
    assert rs == rs[..k] + rs[k..];
    forall t: nat, i: nat ensures OwnedAt(pt, v, t, i) {
      assert OwnedAt(pt, v', t, i);
      if HasSlot(pt, t, i) {
        SlotSpan(pt, t, i);
        ExtractOwned(pt.mem[t][i], SlotLo(pt.place[t], i), SlotHi(pt.place[t], i), rs, k, mm, v);
      }
    }
    forall u: nat ensures CountAt(pt, v, leak, NoneOpen, u) {
      assert CountAt(pt, v', leak, NoneOpen, u);
      if u in pt.place { MoveToEnd(rs[..k], mm, rs[k..], pt.place[u].lo, pt.place[u].hi); }
    }
  }

  lemma ExtractOwned(d: Desc, lo: nat, hi: nat, rs: seq<Region>, k: nat, mm: Region, v: View)
    requires k <= |rs| && v == View(rs, mm, mm.va, mm.End(), v.ov, v.regime) && lo < hi && Apart(rs, mm)
    requires Owned(Listed(Insert(rs, k, mm), v.ov, v.regime), d, lo, hi)
    ensures Owned(v, d, lo, hi)
  {
    assert rs == rs[..k] + rs[k..];
    MoveToEnd(rs[..k], mm, rs[k..], lo, hi);
    ApartSpan(rs, mm, lo, hi);
    var r := First(Insert(rs, k, mm), lo, hi);
    assert r.Some? ==> r.value == mm || r.value in rs;
  }

  lemma ApartSpan(rs: seq<Region>, mm: Region, lo: nat, hi: nat)
    requires Apart(rs, mm) && lo < hi
    ensures mm.va <= lo && hi <= mm.End() ==> First(rs, lo, hi).None?
    ensures forall q | q in rs && q.va <= lo && hi <= q.End() :: !Meets(mm, lo, hi)
  {
  }

  /** Every page with changed attributes belongs to a listed region. */
  ghost predicate KeysIn(rs: seq<Region>, ov: map<nat, Attr>) {
    forall k | k in ov :: First(rs, k, k + 1).Some?
  }

  /** Forgetting the changed pages of an unmapped stretch. */
  lemma ForgetPages(pt: PT, v: View, leak: seq<nat>, lo: nat, hi: nat)
    requires PlacedOK(pt, v, leak, NoneOpen) && v.w1 <= v.w0
    requires forall q | q in v.rs :: !Meets(q, lo, hi)
    ensures PlacedOK(pt, v.(ov := Forget(v.ov, lo, hi)), leak, NoneOpen)
  {
    var v' := v.(ov := Forget(v.ov, lo, hi));
    forall t: nat, i: nat ensures OwnedAt(pt, v', t, i) {
      assert OwnedAt(pt, v, t, i);
      if HasSlot(pt, t, i) { SlotSpan(pt, t, i); }
    }
    forall u: nat ensures CountAt(pt, v', leak, NoneOpen, u) { assert CountAt(pt, v, leak, NoneOpen, u); }
  }

  function Forget(ov: map<nat, Attr>, lo: nat, hi: nat): map<nat, Attr> {
    map k | k in ov && !(lo <= k < hi) :: ov[k]
  }

  /** The counts a failed add leaves behind: one in each table it entered at the address
      where it stopped and will not be undone. */
  function Leaked(pt: PT, leak: seq<nat>, va: int, m: int): (leak': seq<nat>)
    requires forall u | u in pt.place :: u < |pt.mem|
    requires |leak| == |pt.mem|
    ensures |leak'| == |leak|
  {
    seq(|leak|, u requires 0 <= u < |leak| =>
      leak[u] + if u in pt.place && u != 0 && Overlap(va, m + 1, pt.place[u].lo, pt.place[u].hi) && !Overlap(va, m, pt.place[u].lo, pt.place[u].hi)
                then 1 else 0)
  }

  /** A failed add seen as a successful one of the part it mapped, with leftover counts. */
  lemma FailureIsPartial(pt: PT, v: View, leak: seq<nat>, r: int, hi: int)
    requires MapFailed(pt, v, leak, r, hi) && v.w0 == v.mm.va
    ensures forall u | u in pt.place :: u < |pt.mem|
    ensures var m := Max(r, v.mm.va);
            PlacedOK(pt, Upto(v, m), Leaked(pt, leak, v.mm.va, m), NoneOpen)
  {
    var m := Max(r, v.mm.va);
    forall u | u in pt.place ensures u < |pt.mem| { assert PlaceOK(pt, u); }
    var leak' := Leaked(pt, leak, v.mm.va, m);
    var w, w' := v.(w1 := m), v.(w1 := m + 1);
    forall u: nat ensures CountAt(pt, w, leak', NoneOpen, u) {
      assert CountAt(pt, w', leak, NoneOpen, u);
    }
  }

  // ----- Mapping and unmapping from the base table

  lemma MapStart(pt: PT, rs: seq<Region>, ov: map<nat, Attr>, regime: Regime, mm: Region, leak: seq<nat>)
    requires PlacedOK(pt, Listed(rs, ov, regime), leak, NoneOpen)
    ensures 0 in pt.place && PlacedOK(pt, View(rs, mm, mm.va, mm.va, ov, regime), leak, Above(pt.place[0]))
  {
    hide Owners, Counts, LeakOK;
    var v := View(rs, mm, mm.va, mm.va, ov, regime);
    EmptyWindow(pt, Listed(rs, ov, regime), v, leak, NoneOpen);
    RootOpen(pt, v, leak);
  }

  lemma MapEnd(pt: PT, rs: seq<Region>, k: nat, ov: map<nat, Attr>, regime: Regime, mm: Region, leak: seq<nat>)
    requires k <= |rs| && mm.size > 0 && (k == |rs| || Apart(rs, mm))
    requires 0 in pt.place && mm.End() <= pt.place[0].hi
    requires MapResult(pt, View(rs, mm, mm.va, mm.va, ov, regime), leak, 0, mm.End() - 1)
    ensures PlacedOK(pt, Listed(Insert(rs, k, mm), ov, regime), leak, NoneOpen)
  {
    hide Owners, Counts, LeakOK, Apart, MapFailed;
    var v := View(rs, mm, mm.va, mm.End(), ov, regime);
    assert Upto(View(rs, mm, mm.va, mm.va, ov, regime), mm.End()) == v;
    RootOpen(pt, v, leak);
    Absorb(pt, rs, k, mm, v, leak);
  }

  lemma UnmapStart(pt: PT, v: View, leak: seq<nat>)
    requires PlacedOK(pt, v, leak, NoneOpen)
    ensures 0 in pt.place && PlacedOK(pt, v, leak, Above(pt.place[0]))
  {
    hide Owners, Counts, LeakOK;
    RootOpen(pt, v, leak);
  }

  lemma UnmapEnd(pt: PT, v: View, leak: seq<nat>, um: Region, tidy: bool)
    requires UnmapDone(pt, v, leak, 0, um, tidy) && v.w1 == um.End()
    requires 0 in pt.place && um.End() <= pt.place[0].hi
    ensures PlacedOK(pt, Listed(v.rs, v.ov, v.regime), leak, NoneOpen) && InUse(pt, 0) && Kept(pt, v.rs, leak, tidy)
  {
    hide Owners, Counts, LeakOK, Clean, Tidy, InUse;
    var w := From(v, um.End());
    assert From(v, Min(um.End(), pt.place[0].hi)) == w;
    RootOpen(pt, w, leak);
    EmptyWindow(pt, w, Listed(v.rs, v.ov, v.regime), leak, NoneOpen);
  }

  /** Empty tables show the empty list. */
  lemma BlankStart(pt: PT, leak: seq<nat>, ov: map<nat, Attr>, regime: Regime, level: Level)
    requires Pool(pt) && |leak| == |pt.mem| && 1 <= |pt.mem[0]| <= TABLE_ENTRIES
    requires pt.place == map[0 := Place(level, 0, |pt.mem[0]| * Block(level), 0, 0)]
    requires forall u | 0 <= u < |pt.mem| :: Blank(pt.mem[u]) && pt.cnt[u] == leak[u] == 0
    ensures PlacedOK(pt, Listed([], ov, regime), leak, NoneOpen) && PoolOK(pt, leak)
  {
    hide Block;
    assert PlaceOK(pt, 0);
    forall t: nat, i: nat ensures OwnedAt(pt, Listed([], ov, regime), t, i) {}
  }

  /** Tables untouched by a failed add keep the pool clean. */
  lemma LeakedClean(pt: PT, leak: seq<nat>, va: int, m: int)
    requires Clean(pt, leak) && forall u | u in pt.place :: u < |pt.mem|
    ensures Clean(pt, Leaked(pt, leak, va, m))
  {
  }

  /** What a failed add mapped can be unmapped again. */
  lemma RollbackArgs(v: View, mm: Region, regime: Regime, end: int, um: Region)
    requires MapArgs(v, mm, regime) && Apart(v.rs, mm) && PageAligned(end) && mm.va < end < mm.End()
    requires um.va == mm.va && um.size == end - mm.va
    ensures UnmapArgs(Upto(v, end), um)
  {
    forall q | q in v.rs ensures !Meets(q, um.va, um.End()) { assert !Meets(q, mm.va, mm.End()); }
  }

  lemma DynamicArgs(rs: seq<Region>, mm: Region, ov: map<nat, Attr>, regime: Regime)
    requires Mappable(mm) && Apart(rs, mm) && KeysIn(rs, ov)
    ensures MapArgs(View(rs, mm, mm.va, mm.va, ov, regime), mm, regime)
  {
    forall k | k in ov ensures !(mm.va <= k < mm.End()) {
      var q := First(rs, k, k + 1).value;
      assert !Meets(q, mm.va, mm.End());
    }
  }
}
