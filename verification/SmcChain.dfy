/** The chain of free blocks and allocations behind the SMC fuzzer's allocator, and the
    power-of-two arithmetic of its alignment. */
module SmcChain {
  import opened Numbers

  /** Bytes handed out, and the number of entries each table holds. */
  const ARENA: nat := 0xC000
  const MAX_BLOCKS: nat := 1365
  const TOP_BIT: nat := 20
  const MIN_SIZE: nat := 16

  // ----- Powers of two

  /** `p` is the least power of two not below `x`. */
  ghost predicate LeastPow2(x: nat, p: nat) {
    x <= p && exists n: nat :: p == Pow2(n) && forall m: nat | x <= Pow2(m) :: n <= m
  }

  lemma LeastPow2Intro(x: nat, n: nat)
    requires x <= Pow2(n) && (n == 0 || Pow2(n - 1) < x)
    ensures LeastPow2(x, Pow2(n))
  {
    forall m: nat | x <= Pow2(m) ensures n <= m {
      if m < n { Pow2Monotone(m, n - 1); }
    }
  }

  lemma ShrStep(num: nat, i: nat)
    ensures Shr(num, i + 1) == Shr(num, i) / 2
  {
    ShrAdd(num, i, 1);
    assert Pow2(1) == 2;
  }

  lemma ShrBound(num: nat, i: nat)
    ensures num < Pow2(i) ==> Shr(num, i) == 0
  {
    hide Pow2;
    if num < Pow2(i) { DivUnique(num, Pow2(i), 0, num); }
  }

  /** What scanning `num` from its top bit down to bit `i` has learned about num >> i. */
  ghost predicate Scanned(h: nat, i: nat, top: nat, cnt: nat) {
    if h == 0 then top == 0 && cnt == 0
    else i <= top && Pow2(top - i) <= h < 2 * Pow2(top - i) && cnt >= 1 && (cnt == 1 <==> h == Pow2(top - i))
  }

  lemma ScanStep(x: nat, i: nat, top: nat, cnt: nat)
    requires Scanned(x / 2, i + 1, top, cnt)
    ensures i > 0 ==> Scanned(x, i, if x % 2 == 1 && top < i then i else top, cnt + x % 2)
    ensures i == 0 && x > 0 ==> Pow2(top) <= x < 2 * Pow2(top) && (cnt + x % 2 == 1 <==> x == Pow2(top))
  {
    hide Pow2;
    var h, p := x / 2, if top > i then Pow2(top - (i + 1)) else 1;
    assert x == 2 * h + x % 2;
    Pow2Step(top, i);
    assert Pow2(0) == 1 by { Pow2Zero(); }
    assert h > 0 ==> 2 * p <= x < 4 * p && (x == 2 * p <==> h == p && x % 2 == 0);
  }

  lemma Pow2Step(top: nat, i: nat)
    ensures top > i ==> Pow2(top - i) == 2 * Pow2(top - (i + 1))
  {
  }

  /** Finds the top set bit and whether it is the only one. */
  method PriorityEncoder(num: nat) returns (tbit: nat, pow2: bool)
    ensures tbit <= TOP_BIT
    ensures 0 < num < Pow2(TOP_BIT + 1) ==> Pow2(tbit) <= num < 2 * Pow2(tbit) && (pow2 <==> num == Pow2(tbit))
  {
    tbit := 0;
    var cnt: nat := 0;
    var i: nat := TOP_BIT;
    ghost var fits := num < Pow2(TOP_BIT + 1);
    ShrBound(num, TOP_BIT + 1);
    while i != 0
      invariant i <= TOP_BIT && tbit <= TOP_BIT
      invariant fits ==> Scanned(Shr(num, i + 1), i + 1, tbit, cnt)
    {
      ShrStep(num, i);
      if fits { ScanStep(Shr(num, i), i, tbit, cnt); }
      if Shr(num, i) % 2 == 1 {
        if tbit < i { tbit := i; }
        cnt := cnt + 1;
      }
      i := i - 1;
    }
    ShrStep(num, 0);
    ShrZero(num);
    if fits { ScanStep(num, 0, tbit, cnt); }
    if num % 2 == 1 { cnt := cnt + 1; }
    pow2 := cnt == 1;
  }

  // ----- The chain of blocks and allocations

  datatype Block = Block(address: nat, size: nat, valid: bool)
  {
    function End(): nat { address + size }
  }

  /** An entry of the allocation table with the indices of the blocks before and after it. */
  datatype Alloc = Alloc(address: nat, size: nat, valid: bool, prec: nat, trail: nat)
  {
    function End(): nat { address + size }
  }

  ghost predicate Distinct(s: seq<nat>) {
    forall i, j | 0 <= i < j < |s| :: s[i] != s[j]
  }

  /** `bs` and `xs` name blocks and allocations in address order, a block between and around
      any two allocations, together covering the arena without gap or overlap. */
  ghost predicate Tiled(blk: seq<Block>, al: seq<Alloc>, bs: seq<nat>, xs: seq<nat>) {
    && |bs| == |xs| + 1
    && (forall m | 0 <= m < |bs| :: bs[m] < |blk| && blk[bs[m]].valid)
    && (forall m | 0 <= m < |xs| :: xs[m] < |al| && al[xs[m]].valid && al[xs[m]].size >= MIN_SIZE)
    && blk[bs[0]].address == 0 && blk[bs[|xs|]].End() == ARENA
    && forall m {:trigger xs[m]} | 0 <= m < |xs| :: LinkOK(blk, al, xs[m], bs[m], bs[m + 1])
  }

  /** Allocation `x` lies between blocks `b` and `c` and knows them. */
  predicate LinkOK(blk: seq<Block>, al: seq<Alloc>, x: nat, b: nat, c: nat)
    requires x < |al| && b < |blk| && c < |blk|
  {
    && al[x].prec == b && al[x].trail == c
    && blk[b].End() == al[x].address && al[x].End() == blk[c].address
  }

  /** Exactly the named entries are valid, each named once. */
  ghost predicate Exact(blk: seq<Block>, al: seq<Alloc>, bs: seq<nat>, xs: seq<nat>) {
    && Distinct(bs) && Distinct(xs)
    && (forall b | 0 <= b < |blk| && blk[b].valid :: b in bs)
    && (forall x | 0 <= x < |al| && al[x].valid :: x in xs)
  }

  /** Addresses never decrease along the chain. */
  lemma {:induction false} Ordered(blk: seq<Block>, al: seq<Alloc>, bs: seq<nat>, xs: seq<nat>, m: nat, n: nat)
    requires Tiled(blk, al, bs, xs) && m <= n <= |xs|
    ensures blk[bs[m]].address <= blk[bs[n]].address && blk[bs[m]].End() <= blk[bs[n]].End()
    ensures m < n ==> blk[bs[m]].End() <= al[xs[n - 1]].address && al[xs[m]].End() <= blk[bs[n]].address
    decreases n - m
  {
    if m < n {
      Ordered(blk, al, bs, xs, m, n - 1);
      assert LinkOK(blk, al, xs[n - 1], bs[n - 1], bs[n]) && LinkOK(blk, al, xs[m], bs[m], bs[m + 1]);
    }
  }

  /** Where the allocations lie relative to block bs[m]. */
  lemma Sides(blk: seq<Block>, al: seq<Alloc>, bs: seq<nat>, xs: seq<nat>, m: nat, k: nat)
    requires Tiled(blk, al, bs, xs) && m <= |xs| && k < |xs|
    ensures al[xs[k]].size >= MIN_SIZE
    ensures k < m ==> al[xs[k]].End() <= blk[bs[m]].address
    ensures k + 1 < m ==> al[xs[k]].End() < blk[bs[m]].address
    ensures k >= m ==> blk[bs[m]].End() <= al[xs[k]].address
    ensures k > m ==> blk[bs[m]].End() < al[xs[k]].address
  {
    if k < m {
      Ordered(blk, al, bs, xs, k, m);
      if k + 1 < m {
        Ordered(blk, al, bs, xs, k + 1, m);
      }
    } else {
      Ordered(blk, al, bs, xs, m, k + 1);
      if k > m {
        Ordered(blk, al, bs, xs, m, k);
        Ordered(blk, al, bs, xs, k - 1, k);
      }
    }
  }

  /** Allocations starting at `at` get `nb` as the block before them, those ending at `at` get
      it as the block after them. */
  function Relinked(a: Alloc, at: nat, nb: nat): Alloc {
    if !a.valid then a else
    a.(prec := if a.address == at then nb else a.prec, trail := if a.End() == at then nb else a.trail)
  }

  function Ins(s: seq<nat>, p: nat, x: nat): (r: seq<nat>)
    requires p <= |s|
    ensures |r| == |s| + 1
    ensures forall k {:trigger r[k]} | 0 <= k <= |s| :: r[k] == if k < p then s[k] else if k == p then x else s[k - 1]
  {
    s[..p] + [x] + s[p..]
  }

  /** The tables with a new block and a new allocation entry, and room for both. */
  ghost predicate Grown(blk: seq<Block>, al: seq<Alloc>, blk': seq<Block>, al': seq<Alloc>, nb: nat, pos: nat) {
    && nb <= |blk| && (nb < |blk| ==> !blk[nb].valid) && pos <= |al| && (pos < |al| ==> !al[pos].valid)
    && |blk'| == (if nb < |blk| then |blk| else nb + 1) && |al'| == (if pos < |al| then |al| else pos + 1)
    && blk'[nb].valid && al'[pos].valid
  }

  /** A new allocation at the front of block `i`, with an empty block `nb` before it. */
  ghost predicate FrontSplit(blk: seq<Block>, al: seq<Alloc>, blk': seq<Block>, al': seq<Alloc>, i: nat, nb: nat, pos: nat, size: nat) {
    && Grown(blk, al, blk', al', nb, pos) && i < |blk| && i != nb && MIN_SIZE <= size <= blk[i].size
    && blk'[nb] == Block(blk[i].address, 0, true)
    && blk'[i] == Block(blk[i].address + size, blk[i].size - size, true)
    && (forall b | 0 <= b < |blk| && b != nb && b != i :: blk'[b] == blk[b])
    && al'[pos] == Alloc(blk[i].address, size, true, nb, i)
    && (forall x | 0 <= x < |al| && x != pos :: al'[x] == Relinked(al[x], blk[i].address, nb))
  }

  lemma FrontLink(blk: seq<Block>, al: seq<Alloc>, bs: seq<nat>, xs: seq<nat>, blk': seq<Block>, al': seq<Alloc>,
                  m: nat, nb: nat, pos: nat, size: nat, j: nat)
    requires Tiled(blk, al, bs, xs) && Exact(blk, al, bs, xs) && m <= |xs| && j < |xs|
    requires FrontSplit(blk, al, blk', al', bs[m], nb, pos, size)
    ensures al'[xs[j]].valid && al'[xs[j]].size >= MIN_SIZE
    ensures LinkOK(blk', al', xs[j], bs[j], if j + 1 == m then nb else bs[j + 1])
  {
    Sides(blk, al, bs, xs, m, j);
    assert LinkOK(blk, al, xs[j], bs[j], bs[j + 1]);
    assert bs[j] == bs[m] ==> j == m;
    assert bs[j + 1] == bs[m] ==> j + 1 == m;
  }

  /** Splitting off the front of a block keeps the chain. */
  lemma SplitFront(blk: seq<Block>, al: seq<Alloc>, bs: seq<nat>, xs: seq<nat>, blk': seq<Block>, al': seq<Alloc>,
                   m: nat, nb: nat, pos: nat, size: nat)
    requires Tiled(blk, al, bs, xs) && Exact(blk, al, bs, xs) && m <= |xs|
    requires FrontSplit(blk, al, blk', al', bs[m], nb, pos, size)
    ensures Tiled(blk', al', Ins(bs, m, nb), Ins(xs, m, pos))
    ensures Exact(blk', al', Ins(bs, m, nb), Ins(xs, m, pos))
  {
    hide Exact, LinkOK, Ins, FrontSplit, Tiled;
    FrontNew(blk, al, bs, xs, blk', al', m, nb, pos, size);
    var bs', xs' := Ins(bs, m, nb), Ins(xs, m, pos);
    forall k | 0 <= k < |xs'| ensures LinkAt(blk', al', bs', xs', k) {
      if k != m { FrontLink(blk, al, bs, xs, blk', al', m, nb, pos, size, if k < m then k else k - 1); }
    }
    TiledIntro(blk', al', bs', xs');
  }

  lemma FrontNew(blk: seq<Block>, al: seq<Alloc>, bs: seq<nat>, xs: seq<nat>, blk': seq<Block>, al': seq<Alloc>,
                 m: nat, nb: nat, pos: nat, size: nat)
    requires Tiled(blk, al, bs, xs) && Exact(blk, al, bs, xs) && m <= |xs|
    requires FrontSplit(blk, al, blk', al', bs[m], nb, pos, size)
    ensures |bs| == |xs| + 1 && Exact(blk', al', Ins(bs, m, nb), Ins(xs, m, pos))
    ensures AllValid(blk', Ins(bs, m, nb)) && blk'[Ins(bs, m, nb)[0]].address == 0 && blk'[Ins(bs, m, nb)[|xs| + 1]].End() == ARENA
    ensures pos < |al'| && bs[m] < |blk'| && nb < |blk'| && al'[pos].valid && al'[pos].size >= MIN_SIZE && LinkOK(blk', al', pos, nb, bs[m])
    ensures forall j | 0 <= j < |xs| :: xs[j] < |al'|
  {
    hide Ins;
    InsertExact(blk, al, bs, xs, blk', al', m, m, nb, pos);
    if m < |xs| { assert bs[|xs|] != bs[m]; }
    if m > 0 { assert bs[0] != bs[m]; }
  }

  ghost predicate AllValid(blk: seq<Block>, bs: seq<nat>) {
    forall m | 0 <= m < |bs| :: bs[m] < |blk| && blk[bs[m]].valid
  }

  ghost predicate LinkAt(blk: seq<Block>, al: seq<Alloc>, bs: seq<nat>, xs: seq<nat>, k: nat) {
    && k < |xs| && k + 1 < |bs| && xs[k] < |al| && al[xs[k]].valid && al[xs[k]].size >= MIN_SIZE
    && bs[k] < |blk| && bs[k + 1] < |blk| && LinkOK(blk, al, xs[k], bs[k], bs[k + 1])
  }

  lemma TiledIntro(blk: seq<Block>, al: seq<Alloc>, bs: seq<nat>, xs: seq<nat>)
    requires |bs| == |xs| + 1 && AllValid(blk, bs)
    requires blk[bs[0]].address == 0 && blk[bs[|xs|]].End() == ARENA
    requires forall k | 0 <= k < |xs| :: LinkAt(blk, al, bs, xs, k)
    ensures Tiled(blk, al, bs, xs)
  {
    forall k | 0 <= k < |xs| ensures xs[k] < |al| && al[xs[k]].valid && al[xs[k]].size >= MIN_SIZE && LinkOK(blk, al, xs[k], bs[k], bs[k + 1]) {
      assert LinkAt(blk, al, bs, xs, k);
    }
  }

  /** A new allocation inside block `i` after `gap` bytes, with the rest of the block in `nb`. */
  ghost predicate MidSplit(blk: seq<Block>, al: seq<Alloc>, blk': seq<Block>, al': seq<Alloc>, i: nat, nb: nat, pos: nat, gap: nat, size: nat) {
    && Grown(blk, al, blk', al', nb, pos) && i < |blk| && i != nb && MIN_SIZE <= size && 0 < gap && gap + size <= blk[i].size
    && blk'[i] == Block(blk[i].address, gap, true)
    && blk'[nb] == Block(blk[i].address + gap + size, blk[i].size - gap - size, true)
    && (forall b | 0 <= b < |blk| && b != nb && b != i :: blk'[b] == blk[b])
    && al'[pos] == Alloc(blk[i].address + gap, size, true, i, nb)
    && (forall x | 0 <= x < |al| && x != pos :: al'[x] == Relinked(al[x], blk[i].End(), nb))
  }

  lemma MidLink(blk: seq<Block>, al: seq<Alloc>, bs: seq<nat>, xs: seq<nat>, blk': seq<Block>, al': seq<Alloc>,
                m: nat, nb: nat, pos: nat, gap: nat, size: nat, j: nat)
    requires Tiled(blk, al, bs, xs) && Exact(blk, al, bs, xs) && m <= |xs| && j < |xs|
    requires MidSplit(blk, al, blk', al', bs[m], nb, pos, gap, size)
    ensures al'[xs[j]].valid && al'[xs[j]].size >= MIN_SIZE
    ensures LinkOK(blk', al', xs[j], if j == m then nb else bs[j], bs[j + 1])
  {
    Sides(blk, al, bs, xs, m, j);
    assert LinkOK(blk, al, xs[j], bs[j], bs[j + 1]);
    assert bs[j] == bs[m] ==> j == m;
    assert bs[j + 1] == bs[m] ==> j + 1 == m;
  }

  /** Splitting a block in the middle keeps the chain. */
  lemma SplitMid(blk: seq<Block>, al: seq<Alloc>, bs: seq<nat>, xs: seq<nat>, blk': seq<Block>, al': seq<Alloc>,
                 m: nat, nb: nat, pos: nat, gap: nat, size: nat)
    requires Tiled(blk, al, bs, xs) && Exact(blk, al, bs, xs) && m <= |xs|
    requires MidSplit(blk, al, blk', al', bs[m], nb, pos, gap, size)
    ensures Tiled(blk', al', Ins(bs, m + 1, nb), Ins(xs, m, pos))
    ensures Exact(blk', al', Ins(bs, m + 1, nb), Ins(xs, m, pos))
  {
    hide Exact, LinkOK, Ins, MidSplit, Tiled;
    MidNew(blk, al, bs, xs, blk', al', m, nb, pos, gap, size);
    var bs', xs' := Ins(bs, m + 1, nb), Ins(xs, m, pos);
    forall k | 0 <= k < |xs'| ensures LinkAt(blk', al', bs', xs', k) {
      if k != m { MidLink(blk, al, bs, xs, blk', al', m, nb, pos, gap, size, if k < m then k else k - 1); }
    }
    TiledIntro(blk', al', bs', xs');
  }

  lemma MidNew(blk: seq<Block>, al: seq<Alloc>, bs: seq<nat>, xs: seq<nat>, blk': seq<Block>, al': seq<Alloc>,
               m: nat, nb: nat, pos: nat, gap: nat, size: nat)
    requires Tiled(blk, al, bs, xs) && Exact(blk, al, bs, xs) && m <= |xs|
    requires MidSplit(blk, al, blk', al', bs[m], nb, pos, gap, size)
    ensures |bs| == |xs| + 1 && Exact(blk', al', Ins(bs, m + 1, nb), Ins(xs, m, pos))
    ensures AllValid(blk', Ins(bs, m + 1, nb)) && blk'[Ins(bs, m + 1, nb)[0]].address == 0 && blk'[Ins(bs, m + 1, nb)[|xs| + 1]].End() == ARENA
    ensures pos < |al'| && bs[m] < |blk'| && nb < |blk'| && al'[pos].valid && al'[pos].size >= MIN_SIZE && LinkOK(blk', al', pos, bs[m], nb)
    ensures forall j | 0 <= j < |xs| :: xs[j] < |al'|
  {
    hide Ins;
    InsertExact(blk, al, bs, xs, blk', al', m + 1, m, nb, pos);
    if m < |xs| { assert bs[|xs|] != bs[m]; }
    if m > 0 { assert bs[0] != bs[m]; }
  }

  /** The chain with one more block and allocation still names exactly the valid entries. */
  lemma InsertExact(blk: seq<Block>, al: seq<Alloc>, bs: seq<nat>, xs: seq<nat>, blk': seq<Block>, al': seq<Alloc>,
                    p: nat, m: nat, nb: nat, pos: nat)
    requires Tiled(blk, al, bs, xs) && Exact(blk, al, bs, xs) && p <= |bs| && m <= |xs|
    requires nb <= |blk| && (nb < |blk| ==> !blk[nb].valid) && pos <= |al| && (pos < |al| ==> !al[pos].valid)
    requires |blk'| == (if nb < |blk| then |blk| else nb + 1) && |al'| == (if pos < |al| then |al| else pos + 1)
    requires blk'[nb].valid && al'[pos].valid
    requires forall b | 0 <= b < |blk| && b != nb :: blk'[b].valid == blk[b].valid
    requires forall x | 0 <= x < |al| && x != pos :: al'[x].valid == al[x].valid
    ensures Exact(blk', al', Ins(bs, p, nb), Ins(xs, m, pos))
    ensures forall b | b in Ins(bs, p, nb) :: b < |blk'| && blk'[b].valid
  {
    InsertDistinct(bs, p, nb);
    InsertDistinct(xs, m, pos);
  }

  lemma InsertDistinct(s: seq<nat>, p: nat, x: nat)
    requires Distinct(s) && p <= |s| && x !in s
    ensures Distinct(Ins(s, p, x))
    ensures forall y :: y in Ins(s, p, x) <==> y == x || y in s
  {
    assert s == s[..p] + s[p..];
  }

  function Del(s: seq<nat>, p: nat): (r: seq<nat>)
    requires p < |s|
    ensures |r| == |s| - 1
    ensures forall k {:trigger r[k]} | 0 <= k < |s| - 1 :: r[k] == if k < p then s[k] else s[k + 1]
  {
    s[..p] + s[p + 1..]
  }

  /** Freeing allocation `x` between blocks `p` and `q`: `p` takes over all three spans. */
  ghost predicate Merge(blk: seq<Block>, al: seq<Alloc>, blk': seq<Block>, al': seq<Alloc>, x: nat, p: nat, q: nat) {
    && x < |al| == |al'| && p < |blk| == |blk'| && q < |blk| && p != q
    && blk'[p] == Block(blk[p].address, blk[p].size + al[x].size + blk[q].size, true)
    && blk'[q] == blk[q].(valid := false)
    && (forall b | 0 <= b < |blk| && b != p && b != q :: blk'[b] == blk[b])
    && al'[x] == al[x].(valid := false)
    && (forall y | 0 <= y < |al| && y != x :: al'[y] == FreeLinked(al[y], blk'[p].End(), al[x].size, p))
  }

  /** The relinking done when freeing, with the size it compares taken from the freed entry. */
  function FreeLinked(a: Alloc, at: nat, freed: nat, nb: nat): Alloc {
    if !a.valid then a else
    a.(prec := if a.address == at then nb else a.prec, trail := if a.address + freed == at then nb else a.trail)
  }

  lemma MergeLink(blk: seq<Block>, al: seq<Alloc>, bs: seq<nat>, xs: seq<nat>, blk': seq<Block>, al': seq<Alloc>, m: nat, j: nat)
    requires Tiled(blk, al, bs, xs) && Exact(blk, al, bs, xs) && m < |xs| && j < |xs| && j != m
    requires Merge(blk, al, blk', al', xs[m], bs[m], bs[m + 1])
    ensures al'[xs[j]].valid && al'[xs[j]].size >= MIN_SIZE
    ensures LinkOK(blk', al', xs[j], if j == m + 1 then bs[m] else bs[j], bs[j + 1])
  {
    Sides(blk, al, bs, xs, m, j);
    Sides(blk, al, bs, xs, m + 1, j);
    assert LinkOK(blk, al, xs[j], bs[j], bs[j + 1]) && LinkOK(blk, al, xs[m], bs[m], bs[m + 1]);
    assert xs[j] != xs[m];
    assert bs[j] == bs[m] ==> j == m;
    assert bs[j + 1] == bs[m] ==> j + 1 == m;
    assert bs[j] == bs[m + 1] ==> j == m + 1;
    assert bs[j + 1] == bs[m + 1] ==> j == m;
  }

  lemma MergeRest(blk: seq<Block>, al: seq<Alloc>, bs: seq<nat>, xs: seq<nat>, blk': seq<Block>, al': seq<Alloc>, m: nat)
    requires Tiled(blk, al, bs, xs) && Exact(blk, al, bs, xs) && m < |xs|
    requires Merge(blk, al, blk', al', xs[m], bs[m], bs[m + 1])
    ensures |bs| == |xs| + 1 && Exact(blk', al', Del(bs, m + 1), Del(xs, m))
    ensures AllValid(blk', Del(bs, m + 1)) && blk'[Del(bs, m + 1)[0]].address == 0 && blk'[Del(bs, m + 1)[|xs| - 1]].End() == ARENA
    ensures forall j | 0 <= j < |xs| :: xs[j] < |al'|
  {
    hide Del;
    assert LinkOK(blk, al, xs[m], bs[m], bs[m + 1]);
    DelMembers(bs, m + 1);
    DelMembers(xs, m);
    if m + 1 < |xs| { assert bs[|xs|] != bs[m + 1] && bs[|xs|] != bs[m]; }
    if m > 0 { assert bs[0] != bs[m] && bs[0] != bs[m + 1]; }
    var ds := Del(bs, m + 1);
    forall k | 0 <= k < |ds| ensures ds[k] < |blk'| && blk'[ds[k]].valid {
      assert ds[k] != bs[m + 1];
    }
  }

  lemma DelMembers(s: seq<nat>, p: nat)
    requires Distinct(s) && p < |s|
    ensures Distinct(Del(s, p)) && forall y :: y in Del(s, p) <==> y in s && y != s[p]
  {
    assert s == s[..p] + [s[p]] + s[p + 1..];
  }

  /** Freeing an allocation keeps the chain. */
  lemma MergeKeeps(blk: seq<Block>, al: seq<Alloc>, bs: seq<nat>, xs: seq<nat>, blk': seq<Block>, al': seq<Alloc>, m: nat)
    requires Tiled(blk, al, bs, xs) && Exact(blk, al, bs, xs) && m < |xs|
    requires Merge(blk, al, blk', al', xs[m], bs[m], bs[m + 1])
    ensures |bs| == |xs| + 1
    ensures Tiled(blk', al', Del(bs, m + 1), Del(xs, m)) && Exact(blk', al', Del(bs, m + 1), Del(xs, m))
  {
    hide Exact, LinkOK, Del, Merge, Tiled;
    MergeRest(blk, al, bs, xs, blk', al', m);
    var bs', xs' := Del(bs, m + 1), Del(xs, m);
    forall k | 0 <= k < |xs'| ensures LinkAt(blk', al', bs', xs', k) {
      MergeLink(blk, al, bs, xs, blk', al', m, if k < m then k else k + 1);
    }
    TiledIntro(blk', al', bs', xs');
  }

  /** The comparison with the freed entry's own size (instead of each entry's) makes no difference:
      no live allocation starts that far below the end of the merged block, and none ends there. */
  lemma FreedSizeIsHarmless(blk: seq<Block>, al: seq<Alloc>, bs: seq<nat>, xs: seq<nat>, m: nat, y: nat)
    requires Tiled(blk, al, bs, xs) && Exact(blk, al, bs, xs) && m < |xs| && y < |al| && y != xs[m]
    ensures var at := blk[bs[m + 1]].End();
            && FreeLinked(al[y], at, al[xs[m]].size, bs[m]) == Relinked(al[y], at, bs[m])
            && (al[y].valid ==> al[y].address + al[xs[m]].size != at && al[y].End() != at)
  {
    if al[y].valid {
      var j :| 0 <= j < |xs| && xs[j] == y;
      Sides(blk, al, bs, xs, m, j);
      Sides(blk, al, bs, xs, m + 1, j);
      assert LinkOK(blk, al, xs[m], bs[m], bs[m + 1]);
    }
  }

  /** No block starts where a non-empty block of the chain ends, so sweeping for empty
      blocks there finds nothing. */
  lemma NothingToSweep(blk: seq<Block>, al: seq<Alloc>, bs: seq<nat>, xs: seq<nat>, k: nat, b: nat)
    requires Tiled(blk, al, bs, xs) && Exact(blk, al, bs, xs) && k <= |xs| && blk[bs[k]].size > 0
    requires b < |blk| && blk[b].valid
    ensures blk[b].address != blk[bs[k]].End()
  {
    var n :| 0 <= n < |bs| && bs[n] == b;
    if n <= k {
      Ordered(blk, al, bs, xs, n, k);
    } else {
      Ordered(blk, al, bs, xs, k, n);
      assert LinkOK(blk, al, xs[k], bs[k], bs[k + 1]);
      Ordered(blk, al, bs, xs, k + 1, n);
    }
  }

  /** A stack of retired table entries. */
  ghost predicate Retired(queue: seq<nat>, n: nat, live: seq<nat>)
    ensures Retired(queue, n, live) ==> |queue| + |live| == n
  {
    && Distinct(queue) && |queue| + |live| == n
    && forall i | 0 <= i < |queue| :: queue[i] < n && queue[i] !in live
  }

  /** Writes table entry `i`, which may be the next new one. */
  function PutAt<T>(s: seq<T>, i: nat, x: T): (r: seq<T>)
    requires i <= |s|
    ensures |r| == (if i < |s| then |s| else i + 1) && r[i] == x && forall j | 0 <= j < |s| && j != i :: r[j] == s[j]
  {
    if i < |s| then s[i := x] else s + [x]
  }

  /** Bytes to skip from `address` to the next multiple of `align`. */
  function Gap(address: nat, align: nat): (g: nat)
    requires align > 0
    ensures g < align && (address + g) % align == 0
  {
    if address % align == 0 then 0 else
    GapAligned(address, align);
    align - address % align
  }

  lemma GapAligned(address: nat, align: nat)
    requires align > 0
    ensures (address + (align - address % align)) % align == 0
  {
    var q := address / align;
    assert address + (align - address % align) == (q + 1) * align;
    Quotient((q + 1) * align, q + 1, align);
    assert (q + 1) * align == ((q + 1) * align / align) * align + (q + 1) * align % align;
  }

  lemma Quotient(y: nat, q: nat, p: nat)
    requires p > 0 && q * p <= y < q * p + p
    ensures y / p == q
  {
    var x := y / p;
    assert x * p <= y < x * p + p;
    assert x < q ==> (x + 1) * p <= q * p;
    assert q < x ==> (q + 1) * p <= x * p;
  }

  predicate Fits(b: Block, size: nat, align: nat)
    requires align > 0
  {
    b.valid && b.size > Gap(b.address, align) && size <= b.size - Gap(b.address, align)
  }

  /** The first block with room gives the allocation at `offset`. */
  ghost predicate FirstFitAt(blk: seq<Block>, size: nat, align: nat, offset: nat, i: nat)
    requires align > 0
  {
    && i < |blk| && Fits(blk[i], size, align) && (forall j | 0 <= j < i :: !Fits(blk[j], size, align))
    && offset == blk[i].address + Gap(blk[i].address, align)
  }

  ghost predicate FirstFit(blk: seq<Block>, size: nat, align: nat, offset: nat)
    requires align > 0
  {
    exists i: nat :: FirstFitAt(blk, size, align, offset, i)
  }

  /** The least power of two not below the size. */
  method Alignment(size: nat) returns (align: nat)
    requires size > 0
    ensures align > 0 && (size <= ARENA ==> LeastPow2(size, align))
  {
    var tbit, pow2 := PriorityEncoder(size);
    align := if pow2 then Pow2(tbit) else Pow2(tbit + 1);
    if size <= ARENA {
      assert Pow2(4) == 16 && Pow2(8) == 16 * Pow2(4) && Pow2(12) == 16 * Pow2(8) && Pow2(16) == 16 * Pow2(12);
      Pow2Monotone(16, TOP_BIT + 1);
      if pow2 && tbit > 0 { assert Pow2(tbit) == 2 * Pow2(tbit - 1); }
      LeastPow2Intro(size, if pow2 then tbit else tbit + 1);
    }
  }

  /** Where a valid block stands in the chain. */
  lemma ChainPosition(blk: seq<Block>, al: seq<Alloc>, bs: seq<nat>, xs: seq<nat>, b: nat) returns (m: nat)
    requires Tiled(blk, al, bs, xs) && Exact(blk, al, bs, xs) && b < |blk| && blk[b].valid
    ensures m <= |xs| < |bs| && bs[m] == b
  {
    m :| 0 <= m < |bs| && bs[m] == b;
  }

  lemma AllocPosition(blk: seq<Block>, al: seq<Alloc>, bs: seq<nat>, xs: seq<nat>, x: nat) returns (m: nat)
    requires Tiled(blk, al, bs, xs) && Exact(blk, al, bs, xs) && x < |al| && al[x].valid
    ensures m < |xs| < |bs| && xs[m] == x
  {
    m :| 0 <= m < |xs| && xs[m] == x;
  }

  /** No live allocation among the first `n` entries starts at `address`. */
  ghost predicate FreeBelow(al: seq<Alloc>, address: nat, n: nat) {
    forall y | 0 <= y < |al| && y < n :: al[y].address != address || !al[y].valid
  }

  ghost predicate LiveAt(live: seq<(nat, nat)>, address: nat) {
    exists m :: 0 <= m < |live| && live[m].0 == address
  }

  lemma LiveAtIff(blk: seq<Block>, al: seq<Alloc>, bs: seq<nat>, xs: seq<nat>, address: nat)
    requires Tiled(blk, al, bs, xs) && Exact(blk, al, bs, xs)
    ensures LiveAt(LiveOf(al, xs), address) <==> !FreeBelow(al, address, |al|)
  {
    var live := LiveOf(al, xs);
    if y :| 0 <= y < |al| && al[y].address == address && al[y].valid {
      var m :| 0 <= m < |xs| && xs[m] == y;
      assert live[m].0 == address;
    }
    if m :| 0 <= m < |live| && live[m].0 == address {
      assert al[xs[m]].address == address && al[xs[m]].valid;
    }
  }

  /** Allocation `m` of the chain lies between two different blocks, which it names. */
  lemma Neighbours(blk: seq<Block>, al: seq<Alloc>, bs: seq<nat>, xs: seq<nat>, m: nat)
    requires Tiled(blk, al, bs, xs) && Exact(blk, al, bs, xs) && m < |xs|
    ensures |bs| == |xs| + 1 && xs[m] < |al| && bs[m] < |blk| && bs[m + 1] < |blk| && bs[m] != bs[m + 1]
    ensures blk[bs[m]].valid && blk[bs[m + 1]].valid && Distinct(bs) && Distinct(xs) && forall k | 0 <= k < |xs| :: xs[k] < |al|
    ensures LinkOK(blk, al, xs[m], bs[m], bs[m + 1])
  {
    assert LinkOK(blk, al, xs[m], bs[m], bs[m + 1]);
  }

  lemma MergeIntro(blk: seq<Block>, al: seq<Alloc>, blk': seq<Block>, al': seq<Alloc>, x: nat, p: nat, q: nat)
    requires x < |al| == |al'| && p < |blk| == |blk'| && q < |blk| && p != q && blk[p].valid
    requires blk' == blk[p := blk[p].(size := blk[p].size + al[x].size + blk[q].size)][q := blk[q].(valid := false)]
    requires forall y | 0 <= y < |al| :: al'[y] == FreeLinked(if y == x then al[x].(valid := false) else al[y], blk'[p].End(), al[x].size, p)
    ensures Merge(blk, al, blk', al', x, p, q)
  {
  }

  /** Once freed, no live allocation starts where the freed one did. */
  lemma FreedAlone(blk: seq<Block>, al: seq<Alloc>, bs: seq<nat>, xs: seq<nat>, al': seq<Alloc>, m: nat)
    requires Tiled(blk, al, bs, xs) && Exact(blk, al, bs, xs) && m < |xs|
    requires |al'| == |al| && !al'[xs[m]].valid
    requires forall y | 0 <= y < |al| && y != xs[m] :: al'[y].address == al[y].address && al'[y].valid == al[y].valid
    ensures FreeBelow(al', al[xs[m]].address, |al'|)
  {
    forall y | 0 <= y < |al| && al'[y].valid ensures al'[y].address != al[xs[m]].address {
      var j := AllocPosition(blk, al, bs, xs, y);
      Sides(blk, al, bs, xs, m, j);
      Neighbours(blk, al, bs, xs, j);
      Neighbours(blk, al, bs, xs, m);
    }
  }

  /** Live allocation `m`, which started at `address`, is gone and the others are as they were. */
  ghost predicate FreedAt(live: seq<(nat, nat)>, live': seq<(nat, nat)>, address: nat, m: nat) {
    m < |live| && live[m].0 == address && live' == DelPair(live, m)
  }

  /** Address and size of the named allocations, in order. */
  ghost function LiveOf(al: seq<Alloc>, xs: seq<nat>): (r: seq<(nat, nat)>)
    requires forall m | 0 <= m < |xs| :: xs[m] < |al|
    ensures |r| == |xs| && forall m | 0 <= m < |xs| :: r[m] == (al[xs[m]].address, al[xs[m]].size)
  {
    seq(|xs|, m requires 0 <= m < |xs| => (al[xs[m]].address, al[xs[m]].size))
  }

  function InsPair(s: seq<(nat, nat)>, m: nat, x: (nat, nat)): seq<(nat, nat)>
    requires m <= |s|
  {
    s[..m] + [x] + s[m..]
  }

  function DelPair(s: seq<(nat, nat)>, m: nat): seq<(nat, nat)>
    requires m < |s|
  {
    s[..m] + s[m + 1..]
  }

  /** Allocating adds one live allocation and moves no other. */
  lemma LiveIns(al: seq<Alloc>, al': seq<Alloc>, xs: seq<nat>, m: nat, pos: nat)
    requires m <= |xs| && (forall k | 0 <= k < |xs| :: xs[k] < |al| && al[xs[k]].valid)
    requires |al| <= |al'| && pos < |al'| && pos !in xs
    requires forall x | 0 <= x < |al| && x != pos :: al'[x].address == al[x].address && al'[x].size == al[x].size
    ensures forall k | 0 <= k < |Ins(xs, m, pos)| :: Ins(xs, m, pos)[k] < |al'|
    ensures LiveOf(al', Ins(xs, m, pos)) == InsPair(LiveOf(al, xs), m, (al'[pos].address, al'[pos].size))
  {
    hide Ins;
    var xs' := Ins(xs, m, pos);
    forall k | 0 <= k < |xs'| ensures xs'[k] < |al'| {}
  }

  /** The tables after a split, entry by entry. */
  lemma MidIntro(blk: seq<Block>, al: seq<Alloc>, mid: seq<Alloc>, blk': seq<Block>, al': seq<Alloc>,
                 i: nat, nb: nat, pos: nat, gap: nat, size: nat)
    requires nb <= |blk| && (nb < |blk| ==> !blk[nb].valid) && pos <= |al| == |mid| && (pos < |al| ==> !al[pos].valid)
    requires i < |blk| && blk[i].valid && MIN_SIZE <= size && 0 < gap && gap + size <= blk[i].size
    requires forall x | 0 <= x < |al| :: mid[x] == Relinked(al[x], blk[i].End(), nb)
    requires blk' == PutAt(blk, nb, Block(blk[i].address + gap + size, blk[i].size - size - gap, true))[i := Block(blk[i].address, gap, true)]
    requires al' == PutAt(mid, pos, Alloc(blk[i].address + gap, size, true, i, nb))
    ensures MidSplit(blk, al, blk', al', i, nb, pos, gap, size)
    ensures |blk'| == (if nb < |blk| then |blk| else nb + 1) && |al'| == (if pos < |al| then |al| else pos + 1)
  {
    hide PutAt;
  }

  /** Allocating inside a block keeps the chain and adds one live allocation. */
  lemma TookMid(blk: seq<Block>, al: seq<Alloc>, bs: seq<nat>, xs: seq<nat>, blk': seq<Block>, al': seq<Alloc>,
                m: nat, nb: nat, pos: nat, gap: nat, size: nat)
    requires Tiled(blk, al, bs, xs) && Exact(blk, al, bs, xs) && m <= |xs|
    requires MidSplit(blk, al, blk', al', bs[m], nb, pos, gap, size)
    ensures Tiled(blk', al', Ins(bs, m + 1, nb), Ins(xs, m, pos)) && Exact(blk', al', Ins(bs, m + 1, nb), Ins(xs, m, pos))
    ensures LiveOf(al', Ins(xs, m, pos)) == InsPair(LiveOf(al, xs), m, (blk[bs[m]].address + gap, size))
  {
    hide Ins, LiveOf, InsPair, LinkOK;
    SplitMid(blk, al, bs, xs, blk', al', m, nb, pos, gap, size);
    LiveIns(al, al', xs, m, pos);
  }

  lemma BlockAt(blk: seq<Block>, al: seq<Alloc>, bs: seq<nat>, xs: seq<nat>, m: nat)
    requires Tiled(blk, al, bs, xs) && m <= |xs|
    ensures m < |bs| && bs[m] < |blk| && blk[bs[m]].valid
  {
  }

  /** Freeing removes one live allocation and moves no other. */
  lemma LiveDel(al: seq<Alloc>, al': seq<Alloc>, xs: seq<nat>, m: nat)
    requires m < |xs| && |al| == |al'| && (forall k | 0 <= k < |xs| :: xs[k] < |al|)
    requires forall x | 0 <= x < |al| :: al'[x].address == al[x].address && al'[x].size == al[x].size
    ensures forall k | 0 <= k < |Del(xs, m)| :: Del(xs, m)[k] < |al'|
    ensures LiveOf(al', Del(xs, m)) == DelPair(LiveOf(al, xs), m)
  {
    hide Del;
  }

  /** Taking an entry from the stack, or a new one, keeps the stack right. */
  lemma RetiredTake(queue: seq<nat>, n: nat, live: seq<nat>, p: nat, x: nat, queue': seq<nat>, n': nat)
    requires Retired(queue, n, live) && p <= |live|
    requires if |queue| > 0 then queue' == queue[..|queue| - 1] && x == queue[|queue| - 1] && n' == n
             else queue' == [] && x == n && n' == n + 1
    ensures Retired(queue', n', Ins(live, p, x))
  {
    hide Ins;
    var live' := Ins(live, p, x);
    forall i | 0 <= i < |queue'| ensures queue'[i] < n' && queue'[i] !in live' {
      assert queue'[i] == queue[i];
    }
  }

  /** Putting a dropped entry on the stack keeps the stack right. */
  lemma RetiredPut(queue: seq<nat>, n: nat, live: seq<nat>, p: nat)
    requires Retired(queue, n, live) && Distinct(live) && p < |live| && live[p] < n
    ensures Retired(queue + [live[p]], n, Del(live, p))
  {
    DelMembers(live, p);
    hide Del;
    var queue' := queue + [live[p]];
    assert forall i | 0 <= i < |queue| :: queue[i] != live[p];
  }

  // ----- What the chain means for the caller

  /** Live allocations come in address order, never overlap each other, and stay inside the arena. */
  lemma LiveApart(blk: seq<Block>, al: seq<Alloc>, bs: seq<nat>, xs: seq<nat>)
    requires Tiled(blk, al, bs, xs)
    ensures var live := LiveOf(al, xs);
            && (forall m, n | 0 <= m < n < |live| :: live[m].0 + live[m].1 <= live[n].0)
            && (forall m | 0 <= m < |live| :: live[m].1 >= MIN_SIZE && live[m].0 + live[m].1 <= ARENA)
  {
    var live := LiveOf(al, xs);
    forall m, n | 0 <= m < n < |live| ensures live[m].0 + live[m].1 <= live[n].0 {
      Sides(blk, al, bs, xs, n, m);
      Sides(blk, al, bs, xs, n, n);
    }
    forall m | 0 <= m < |live| ensures live[m].0 + live[m].1 <= ARENA {
      Sides(blk, al, bs, xs, |xs|, m);
    }
  }

  /** No free block overlaps a live allocation or touches another free block. */
  lemma FreeApart(blk: seq<Block>, al: seq<Alloc>, bs: seq<nat>, xs: seq<nat>, m: nat, n: nat)
    requires Tiled(blk, al, bs, xs) && m < n <= |xs|
    ensures blk[bs[m]].End() + MIN_SIZE <= blk[bs[n]].address
    ensures forall k | 0 <= k < |xs| :: al[xs[k]].End() <= blk[bs[m]].address || blk[bs[m]].End() <= al[xs[k]].address
  {
    Sides(blk, al, bs, xs, m, m);
    Sides(blk, al, bs, xs, n, m);
    forall k | 0 <= k < |xs| ensures al[xs[k]].End() <= blk[bs[m]].address || blk[bs[m]].End() <= al[xs[k]].address {
      Sides(blk, al, bs, xs, m, k);
    }
  }

  /** Bytes in the named free blocks, and bytes in live allocations. */
  ghost function FreeBytes(blk: seq<Block>, bs: seq<nat>): nat
    requires forall m | 0 <= m < |bs| :: bs[m] < |blk|
  {
    if bs == [] then 0 else FreeBytes(blk, bs[..|bs| - 1]) + blk[bs[|bs| - 1]].size
  }

  ghost function LiveBytes(live: seq<(nat, nat)>): nat {
    if live == [] then 0 else LiveBytes(live[..|live| - 1]) + live[|live| - 1].1
  }

  /** No byte is lost: free and live bytes always add up to the arena. */
  lemma BytesConserved(blk: seq<Block>, al: seq<Alloc>, bs: seq<nat>, xs: seq<nat>)
    requires Tiled(blk, al, bs, xs)
    ensures FreeBytes(blk, bs) + LiveBytes(LiveOf(al, xs)) == ARENA
  {
    BytesUpTo(blk, al, bs, xs, |xs|);
    assert bs[..|xs| + 1] == bs && xs[..|xs|] == xs;
  }

  lemma {:induction false} BytesUpTo(blk: seq<Block>, al: seq<Alloc>, bs: seq<nat>, xs: seq<nat>, n: nat)
    requires Tiled(blk, al, bs, xs) && n <= |xs|
    ensures FreeBytes(blk, bs[..n + 1]) + LiveBytes(LiveOf(al, xs[..n])) == blk[bs[n]].End()
  {
    var live := LiveOf(al, xs[..n]);
    assert bs[..n + 1][..n] == bs[..n];
    if n == 0 {
      assert FreeBytes(blk, bs[..0]) == 0;
    } else {
      BytesUpTo(blk, al, bs, xs, n - 1);
      assert LinkOK(blk, al, xs[n - 1], bs[n - 1], bs[n]);
      assert live[..n - 1] == LiveOf(al, xs[..n - 1]);
    }
  }

  /** With nothing live, one valid block covers the whole arena. */
  lemma AllFreed(blk: seq<Block>, al: seq<Alloc>, bs: seq<nat>, xs: seq<nat>)
    requires Tiled(blk, al, bs, xs) && Exact(blk, al, bs, xs) && LiveOf(al, xs) == []
    ensures |bs| == 1 && blk[bs[0]] == Block(0, ARENA, true)
    ensures forall b | 0 <= b < |blk| && b != bs[0] :: !blk[b].valid
  {
    assert |xs| == 0;
  }

  /** Address `a` could hold `size` bytes at this alignment without touching what is live. */
  ghost predicate RoomAt(live: seq<(nat, nat)>, size: nat, align: nat, a: nat)
    requires align > 0
  {
    && a % align == 0 && a + size <= ARENA
    && forall m | 0 <= m < |live| :: a + size <= live[m].0 || live[m].0 + live[m].1 <= a
  }

  /** A block has room exactly when it holds an aligned span of that size. */
  lemma FitsIff(b: Block, size: nat, align: nat, a: nat)
    requires align > 0 && size > 0 && b.valid && a % align == 0 && b.address <= a && a + size <= b.End()
    ensures Fits(b, size, align)
  {
    var g := Gap(b.address, align);
    var q := (b.address + g) / align;
    assert b.address + g == q * align;
    assert a == (a / align) * align;
    assert a / align < q ==> (a / align + 1) * align <= q * align;
    assert a / align >= q ==> a >= q * align;
  }

  /** A span clear of every live allocation lies inside one free block. */
  lemma {:induction false} SpanInBlock(blk: seq<Block>, al: seq<Alloc>, bs: seq<nat>, xs: seq<nat>, a: nat, size: nat, n: nat)
    returns (m: nat)
    requires Tiled(blk, al, bs, xs) && size > 0 && a + size <= ARENA && n <= |xs|
    requires forall k | 0 <= k < |xs| :: a + size <= al[xs[k]].address || al[xs[k]].End() <= a
    requires blk[bs[n]].address <= a
    ensures m <= |xs| && blk[bs[m]].address <= a && a + size <= blk[bs[m]].End()
    decreases |xs| - n
  {
    if n < |xs| {
      assert LinkOK(blk, al, xs[n], bs[n], bs[n + 1]);
      if blk[bs[n + 1]].address <= a { m := SpanInBlock(blk, al, bs, xs, a, size, n + 1); } else { m := n; }
    } else {
      m := n;
    }
  }

  /** Some block has room exactly when some aligned address is clear of everything live: the allocator
      fails for fragmentation only when no placement at all exists. */
  lemma FailsOnlyWithoutRoom(blk: seq<Block>, al: seq<Alloc>, bs: seq<nat>, xs: seq<nat>, size: nat, align: nat)
    requires Tiled(blk, al, bs, xs) && Exact(blk, al, bs, xs) && size > 0 && align > 0
    ensures (exists i :: 0 <= i < |blk| && Fits(blk[i], size, align)) <==> (exists a: nat :: RoomAt(LiveOf(al, xs), size, align, a))
  {
    var live := LiveOf(al, xs);
    if i :| 0 <= i < |blk| && Fits(blk[i], size, align) {
      RoomInBlock(blk, al, bs, xs, size, align, i);
    }
    if a: nat :| RoomAt(live, size, align, a) {
      forall k | 0 <= k < |xs| ensures a + size <= al[xs[k]].address || al[xs[k]].End() <= a {
        assert live[k] == (al[xs[k]].address, al[xs[k]].size);
      }
      var m := SpanInBlock(blk, al, bs, xs, a, size, 0);
      FitsIff(blk[bs[m]], size, align, a);
    }
  }

  lemma RoomInBlock(blk: seq<Block>, al: seq<Alloc>, bs: seq<nat>, xs: seq<nat>, size: nat, align: nat, i: nat)
    requires Tiled(blk, al, bs, xs) && Exact(blk, al, bs, xs) && size > 0 && align > 0 && i < |blk| && Fits(blk[i], size, align)
    ensures RoomAt(LiveOf(al, xs), size, align, blk[i].address + Gap(blk[i].address, align))
  {
    var m := ChainPosition(blk, al, bs, xs, i);
    var a, live := blk[i].address + Gap(blk[i].address, align), LiveOf(al, xs);
    forall k | 0 <= k < |live| ensures a + size <= live[k].0 || live[k].0 + live[k].1 <= a {
      Sides(blk, al, bs, xs, m, k);
    }
    Ordered(blk, al, bs, xs, m, |xs|);
  }
}
