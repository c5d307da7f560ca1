/** Address geometry of the 4 KiB granule, memory regions, and the two questions
    the translation tables are compared against: which region of a list is the
    first to meet an interval, and how many regions of a list meet it. */
module XlatGeometry {
  import opened Wrappers
  import opened Numbers
  import opened XlatDescriptor

  const PAGE_SIZE: nat := 0x1000
  const TABLE_ENTRIES: nat := 512
  const LEVEL_MAX: nat := 3
  const MIN_LVL_BLOCK_DESC: nat := 1

  type Level = l: nat | l <= LEVEL_MAX

  /** Bytes mapped by one entry of a table at `level`. */
  function Block(level: Level): (b: nat)
    ensures b % PAGE_SIZE == 0 && b > 0
  {
    if level == 3 then 0x1000 else
    if level == 2 then 0x20_0000 else
    if level == 1 then 0x4000_0000 else 0x80_0000_0000
  }

  /** Bytes spanned by a whole sub-table at `level`; level 4 stands for a page. */
  function TableSpan(level: nat): (b: nat)
    requires 1 <= level <= 4
    ensures b == Block(level - 1)
    ensures level <= 3 ==> b == TABLE_ENTRIES * Block(level)
  {
    Block(level - 1)
  }

  datatype Region = Region(pa: nat, va: nat, size: nat, attr: Attr, granularity: nat, dynamic: bool)
  {
    function End(): nat { va + size }
    function EndPa(): nat { pa + size }
  }

  predicate Overlap(a0: int, a1: int, b0: int, b1: int) {
    a0 < a1 && b0 < b1 && a0 < b1 && b0 < a1
  }

  predicate Meets(r: Region, lo: int, hi: int) {
    Overlap(r.va, r.End(), lo, hi)
  }

  /** The first region of `rs` that meets [lo, hi). */
  function First(rs: seq<Region>, lo: int, hi: int): (r: Option<Region>)
    ensures r.Some? ==> r.value in rs && Meets(r.value, lo, hi)
    ensures r.None? ==> forall q :: q in rs ==> !Meets(q, lo, hi)
  {
    if rs == [] then None
    else if Meets(rs[0], lo, hi) then Some(rs[0])
    else First(rs[1..], lo, hi)
  }

  /** How many regions of `rs` meet [lo, hi). */
  function Count(rs: seq<Region>, lo: int, hi: int): (n: nat)
    ensures n == 0 <==> First(rs, lo, hi).None?
  {
    if rs == [] then 0
    else (if Meets(rs[0], lo, hi) then 1 else 0) + Count(rs[1..], lo, hi)
  }

  lemma {:induction false} FirstConcat(a: seq<Region>, b: seq<Region>, lo: int, hi: int)
    ensures First(a + b, lo, hi) == if First(a, lo, hi).Some? then First(a, lo, hi) else First(b, lo, hi)
  {
    if a == [] {
      assert a + b == b;
    } else {
      assert (a + b)[1..] == a[1..] + b;
      FirstConcat(a[1..], b, lo, hi);
    }
  }

  lemma {:induction false} CountConcat(a: seq<Region>, b: seq<Region>, lo: int, hi: int)
    ensures Count(a + b, lo, hi) == Count(a, lo, hi) + Count(b, lo, hi)
  {
    if a == [] {
      assert a + b == b;
    } else {
      assert (a + b)[1..] == a[1..] + b;
      CountConcat(a[1..], b, lo, hi);
    }
  }

  /** An interval inside another meets no more regions. */
  lemma {:induction false} CountMonotone(rs: seq<Region>, lo: int, hi: int, lo': int, hi': int)
    requires lo' <= lo && hi <= hi'
    ensures Count(rs, lo, hi) <= Count(rs, lo', hi')
  {
    if rs != [] { CountMonotone(rs[1..], lo, hi, lo', hi'); }
  }

  /** A region that overlaps no other can be moved anywhere in the list. */
  lemma MoveToEnd(a: seq<Region>, mm: Region, b: seq<Region>, lo: int, hi: int)
    ensures Count(a + [mm] + b, lo, hi) == Count(a + b, lo, hi) + if Meets(mm, lo, hi) then 1 else 0
    ensures First(a + b, lo, hi).None? ==>
              First(a + [mm] + b, lo, hi) == if Meets(mm, lo, hi) then Some(mm) else None
    ensures !Meets(mm, lo, hi) ==> First(a + [mm] + b, lo, hi) == First(a + b, lo, hi)
  {
    FirstConcat(a, [mm] + b, lo, hi);
    FirstConcat([mm], b, lo, hi);
    FirstConcat(a, b, lo, hi);
    CountConcat(a, [mm] + b, lo, hi);
    CountConcat([mm], b, lo, hi);
    CountConcat(a, b, lo, hi);
    assert a + [mm] + b == a + ([mm] + b);
    assert [mm][1..] == [];
  }

  /** In units of `s`, [x, x + k) and [b, b + 1) overlap only when nested. */
  lemma NestUnits(x: int, k: int, b: int, s: int)
    requires s > 0 && x * s < (b + 1) * s && b * s < (x + k) * s
    ensures x <= b && b + 1 <= x + k
  {
    assert b + 1 <= x ==> (b + 1) * s <= x * s;
    assert x + k <= b ==> (x + k) * s <= b * s;
  }

  /** Two naturally aligned spans that overlap are nested, the finer inside the coarser. */
  lemma Nest(l1: nat, lo1: nat, l2: nat, lo2: nat)
    requires 1 <= l1 <= l2 <= 4
    requires lo1 % TableSpan(l1) == 0 && lo2 % TableSpan(l2) == 0
    requires lo1 < lo2 + TableSpan(l2) && lo2 < lo1 + TableSpan(l1)
    ensures lo1 <= lo2 && lo2 + TableSpan(l2) <= lo1 + TableSpan(l1)
    ensures l1 == l2 ==> lo1 == lo2
  {
    var s2 := TableSpan(l2);
    var b := lo2 / s2;
    var a := lo1 / TableSpan(l1);
    var k := if l1 == l2 then 1 else if l1 + 1 == l2 then 512 else if l1 + 2 == l2 then 0x4_0000 else 0x800_0000;
    assert TableSpan(l1) == k * s2;
    NestUnits(a * k, k, b, s2) by {
      assert lo1 == a * TableSpan(l1) == a * (k * s2) == (a * k) * s2;
      assert lo2 == b * s2;
      assert (b + 1) * s2 == b * s2 + s2;
      assert (a * k + k) * s2 == (a * k) * s2 + k * s2;
    }
    assert lo1 == a * TableSpan(l1) == a * (k * s2) == (a * k) * s2;
    assert (a * k + k) * s2 == (a * k) * s2 + k * s2;
    assert a * k <= b ==> (a * k) * s2 <= b * s2;
    assert (b + 1) * s2 <= (a * k + k) * s2;
  }
}
