/** The power-domain tree: built breadth first from the platform's list of child counts, with the range of
    CPUs below every domain. */
module Topology {

  /** How many nodes the first `n` entries of the description make. */
  function Sum(d: seq<nat>, n: nat): nat {
    if n == 0 then 0 else Sum(d, n - 1) + if n - 1 < |d| then d[n - 1] else 0
  }

  lemma {:induction false} SumMonotone(d: seq<nat>, m: nat, n: nat)
    requires m <= n
    ensures Sum(d, m) <= Sum(d, n)
  {
    if m < n { SumMonotone(d, m, n - 1); }
  }

  /** Node `j` is a child made by entry `p`, that is of node p - 1. */
  predicate Under(d: seq<nat>, p: nat, j: nat) {
    Sum(d, p) <= j < Sum(d, p + 1)
  }

  lemma UnderOrder(d: seq<nat>, p: nat, q: nat, i: nat, j: nat)
    requires Under(d, p, i) && Under(d, q, j) && i <= j
    ensures p <= q
  {
    if q < p { SumMonotone(d, q + 1, p); }
  }

  lemma {:induction false} UnderSome(d: seq<nat>, n: nat, j: nat) returns (p: nat)
    requires j < Sum(d, n)
    ensures p < n && Under(d, p, j)
  {
    if Sum(d, n - 1) <= j { p := n - 1; } else { p := UnderSome(d, n - 1, j); }
  }

  /** Where the nodes `k` levels from the top start. */
  function First(d: seq<nat>, k: nat): nat {
    if k == 0 then 0 else Sum(d, First(d, k - 1) + 1)
  }

  lemma {:induction false} FirstMonotone(d: seq<nat>, k: nat)
    ensures First(d, k) <= First(d, k + 1)
  {
    if k > 0 {
      FirstMonotone(d, k - 1);
      SumMonotone(d, First(d, k - 1) + 1, First(d, k) + 1);
    }
  }

  predicate InLevel(d: seq<nat>, k: nat, j: nat) {
    First(d, k) <= j < First(d, k + 1)
  }

  /** The nodes one level down have their parents in the level above. */
  lemma ParentLevel(d: seq<nat>, k: nat, p: nat, j: nat)
    requires InLevel(d, k + 1, j) && Under(d, p, j)
    ensures p > 0 && InLevel(d, k, p - 1)
  {
    if p + 1 <= First(d, k) + 1 { SumMonotone(d, p + 1, First(d, k) + 1); }
    if p >= First(d, k + 1) + 1 { SumMonotone(d, First(d, k + 1) + 1, p); }
  }

  lemma {:induction false} LevelOf(d: seq<nat>, top: nat, j: nat) returns (k: nat)
    requires j < First(d, top + 1)
    ensures k <= top && InLevel(d, k, j)
  {
    if First(d, top) <= j { k := top; } else { k := LevelOf(d, top - 1, j); }
  }

  lemma ParentOf(d: seq<nat>, k: nat, j: nat) returns (p: nat)
    requires InLevel(d, k, j)
    ensures Under(d, p, j) && (k == 0 ==> p == 0)
  {
    p := UnderSome(d, First(d, k) + 1, j);
  }

  /** The description fits the platform's constants: `top` levels above the CPUs, `cpus` CPUs, `total` nodes. */
  predicate Describes(d: seq<nat>, top: nat, cpus: nat, total: nat) {
    First(d, top) + 1 <= |d| && First(d, top + 1) == total == First(d, top) + cpus
  }

  lemma {:induction false} FirstBelow(d: seq<nat>, k: nat, n: nat)
    requires k <= n
    ensures First(d, k) <= First(d, n)
  {
    if k < n {
      FirstBelow(d, k, n - 1);
      FirstMonotone(d, n - 1);
    }
  }

  /** The ancestor `l` levels up. */
  function Ancestor(parent: seq<int>, j: nat, l: nat): int {
    if l == 0 then j else
    var a := Ancestor(parent, j, l - 1);
    if 0 <= a < |parent| then parent[a] else -1
  }

  /** Every node's parent is the one the description says. */
  ghost predicate Linked(d: seq<nat>, parent: seq<int>, n: nat) {
    forall p: nat, j: nat {:trigger Under(d, p, j)} | Under(d, p, j) && j < n :: j < |parent| && parent[j] == p - 1
  }

  /** A CPU's ancestors are one in each level. */
  lemma {:induction false} AncestorLevel(d: seq<nat>, parent: seq<int>, top: nat, c: nat, l: nat)
    requires l <= top && InLevel(d, top, c) && Linked(d, parent, First(d, top + 1))
    ensures Ancestor(parent, c, l) >= 0 && InLevel(d, top - l, Ancestor(parent, c, l))
  {
    if l > 0 {
      AncestorLevel(d, parent, top, c, l - 1);
      var a := Ancestor(parent, c, l - 1);
      var k := top - l;
      var p := UnderSome(d, First(d, k + 1) + 1, a);
      ParentLevel(d, k, p, a);
      FirstBelow(d, k + 2, top + 1);
    }
  }

  /** Ancestors keep the order of CPUs, so the CPUs of a domain are consecutive. */
  lemma {:induction false} AncestorOrder(d: seq<nat>, parent: seq<int>, top: nat, b: nat, c: nat, l: nat)
    requires l <= top && InLevel(d, top, b) && InLevel(d, top, c) && b <= c && Linked(d, parent, First(d, top + 1))
    ensures Ancestor(parent, b, l) <= Ancestor(parent, c, l)
  {
    if l > 0 {
      AncestorOrder(d, parent, top, b, c, l - 1);
      AncestorLevel(d, parent, top, b, l - 1);
      AncestorLevel(d, parent, top, c, l - 1);
      var x, y, k := Ancestor(parent, b, l - 1), Ancestor(parent, c, l - 1), top - l;
      var p := UnderSome(d, First(d, k + 1) + 1, x);
      var q := UnderSome(d, First(d, k + 1) + 1, y);
      UnderOrder(d, p, q, x, y);
      FirstBelow(d, k + 2, top + 1);
    }
  }

  /** Every node carries its level. */
  ghost predicate Levelled(d: seq<nat>, level: seq<nat>, top: nat, n: nat) {
    forall k: nat, j: nat {:trigger InLevel(d, k, j)} | InLevel(d, k, j) && k <= top && j < n :: j < |level| && level[j] == top - k
  }

  /** The CPUs among the first `m` whose ancestor `l` levels up is `q` are those from `cs` on, `nc` of them. */
  ghost predicate Covers(parent: seq<int>, first: nat, m: nat, l: nat, q: nat, cs: nat, nc: nat) {
    && (nc > 0 ==> first <= cs && cs + nc <= first + m)
    && forall c: nat {:trigger Ancestor(parent, c, l)} | first <= c < first + m :: Ancestor(parent, c, l) == q <==> cs <= c < cs + nc
  }

  /** Every domain `l` levels above the CPUs has its range, counting the first `m` CPUs. */
  ghost predicate Ranged(d: seq<nat>, top: nat, parent: seq<int>, cs: seq<nat>, nc: seq<nat>, m: nat, l: nat) {
    l <= top && forall q: nat {:trigger InLevel(d, top - l, q)} | InLevel(d, top - l, q) ::
      q < |cs| && q < |nc| && Covers(parent, First(d, top), m, l, q, cs[q], nc[q])
  }

  ghost predicate AllRanged(d: seq<nat>, top: nat, parent: seq<int>, cs: seq<nat>, nc: seq<nat>, m: nat, lo: nat, hi: nat) {
    forall l: nat {:trigger Ranged(d, top, parent, cs, nc, m, l)} | lo <= l <= hi :: Ranged(d, top, parent, cs, nc, m, l)
  }

  const NONE: int := -1

  class Tree {
    const top: nat
    const cpus: nat
    const total: nat
    var parent: seq<int>
    var level: seq<nat>
    var start: seq<nat>
    var cpuStart: seq<nat>
    var ncpus: seq<nat>
    var present: seq<bool>

    ghost predicate Sized()
      reads this
    {
      && |parent| == |level| == |cpuStart| == |ncpus| == |present| == total
      && |start| == top + 1
    }

    constructor (top: nat, cpus: nat, total: nat)
      ensures Sized() && this.top == top && this.cpus == cpus && this.total == total
      ensures forall j | 0 <= j < total :: ncpus[j] == 0 && !present[j]
    {
      this.top, this.cpus, this.total := top, cpus, total;
      parent, level, start := seq(total, _ => 0), seq(total, _ => 0), seq(top + 1, _ => 0);
      cpuStart, ncpus, present := seq(total, _ => 0), seq(total, _ => 0), seq(total, _ => false);
    }

    /** Links, levels and start indexes are those the description says. */
    ghost predicate Populated(d: seq<nat>)
      reads this
    {
      && Sized() && Describes(d, top, cpus, total) && Linked(d, parent, total) && Levelled(d, level, top, total)
      && forall k | 0 <= k <= top :: start[top - k] == First(d, k)
    }

    /** The nodes from `lo` to `hi` are CPUs with their presence known, and nothing is known of the others. */
    ghost predicate CpusMade(lo: nat, hi: nat, online: seq<bool>)
      reads this`cpuStart, this`ncpus, this`present
    {
      && |cpuStart| == |ncpus| == |present| == total && hi <= total && (lo < hi ==> hi - lo <= |online|)
      && (forall j | 0 <= j < total && !(lo <= j < hi) :: ncpus[j] == 0 && !present[j])
      && (forall j | lo <= j < hi :: ncpus[j] == 1 && cpuStart[j] == j && present[j] == online[j - lo])
    }

    /** The children of one entry. */
    method MakeChildren(node: nat, n: nat, p: nat, lvl: nat, online: seq<bool>)
      requires Sized() && node + n <= total && lvl <= top && |online| == cpus
      requires lvl == 0 ==> start[0] <= node && node + n - start[0] <= cpus
      requires if lvl == 0 then CpusMade(start[0], node, online) else CpusMade(node, node, online)
      modifies this`parent, this`level, this`cpuStart, this`ncpus, this`present
      ensures Sized()
      ensures forall j | 0 <= j < total :: parent[j] == if node <= j < node + n then p - 1 else old(parent)[j]
      ensures forall j | 0 <= j < total :: level[j] == if node <= j < node + n then lvl else old(level)[j]
      ensures if lvl == 0 then CpusMade(start[0], node + n, online) else CpusMade(node, node, online)
    {
      hide CpusMade;
      for j := node to node + n
        invariant Sized()
        invariant forall i | 0 <= i < total :: parent[i] == if node <= i < j then p - 1 else old(parent)[i]
        invariant forall i | 0 <= i < total :: level[i] == if node <= i < j then lvl else old(level)[i]
        invariant if lvl == 0 then CpusMade(start[0], j, online) else CpusMade(node, node, online)
      {
        parent := parent[j := p - 1];
        level := level[j := lvl];
        if lvl == 0 { MakeCpu(j, online); }
      }
    }

    method MakeCpu(j: nat, online: seq<bool>)
      requires Sized() && start[0] <= j < total && j - start[0] < |online| && CpusMade(start[0], j, online)
      modifies this`cpuStart, this`ncpus, this`present
      ensures Sized() && CpusMade(start[0], j + 1, online)
    {
      if online[j - start[0]] { present := present[j := true]; }
      cpuStart := cpuStart[j := j];
      ncpus := ncpus[j := 1];
    }

    /** Builds the tree level by level from the list of child counts. */
    method Populate(d: seq<nat>, online: seq<bool>)
      requires Sized() && Describes(d, top, cpus, total) && |online| == cpus
      requires forall j | 0 <= j < total :: ncpus[j] == 0 && !present[j]
      modifies this
      ensures Populated(d) && CpusMade(start[0], total, online)
    {
      hide First, Sum, Linked, Levelled, CpusMade;
      FirstZero(d);
      var lvl: int := top;
      var nodes: nat, node: nat, p: nat := 1, 0, 0;
      assert CpusMade(0, 0, online) && Linked(d, parent, 0) && Levelled(d, level, top, 0) by { NothingMade(d, online); }
      while lvl >= 0
        invariant -1 <= lvl <= top && Sized() && node == First(d, top - lvl) == Sum(d, p) <= total && p + nodes == node + 1
        invariant Linked(d, parent, node) && Levelled(d, level, top, node)
        invariant forall k | 0 <= k < top - lvl :: start[top - k] == First(d, k)
        invariant if lvl < 0 then CpusMade(start[0], total, online) else CpusMade(node, node, online)
      {
        node, p := MakeLevel(d, online, lvl, node, p, nodes);
        nodes := node + 1 - p;
        lvl := lvl - 1;
      }
    }

    lemma NothingMade(d: seq<nat>, online: seq<bool>)
      requires Sized() && forall j | 0 <= j < total :: ncpus[j] == 0 && !present[j]
      ensures CpusMade(0, 0, online) && Linked(d, parent, 0) && Levelled(d, level, top, 0)
    {
    }

    method MakeLevel(d: seq<nat>, online: seq<bool>, lvl: nat, node0: nat, p0: nat, nodes: nat) returns (node: nat, p: nat)
      requires Sized() && Describes(d, top, cpus, total) && |online| == cpus && lvl <= top
      requires node0 == First(d, top - lvl) == Sum(d, p0) && p0 + nodes == node0 + 1
      requires Linked(d, parent, node0) && Levelled(d, level, top, node0) && CpusMade(node0, node0, online)
      modifies this
      ensures Sized() && node == First(d, top - lvl + 1) == Sum(d, p) <= total && p == node0 + 1 <= node + 1
      ensures Linked(d, parent, node) && Levelled(d, level, top, node)
      ensures start == old(start)[lvl := node0]
      ensures if lvl == 0 then CpusMade(node0, total, online) else CpusMade(node, node, online)
    {
      hide First, Sum, CpusMade;
      LevelBounds(d, top, cpus, total, lvl);
      start := start[lvl := node0];
      node, p := node0, p0;
      ghost var parent0, level0 := parent, level;
      for i := 0 to nodes
        invariant Sized() && p == p0 + i && node == Sum(d, p) && node0 <= node <= total && start == old(start)[lvl := node0]
        invariant forall j | 0 <= j < node0 :: parent[j] == parent0[j] && level[j] == level0[j]
        invariant forall q: nat, j: nat {:trigger Under(d, q, j)} | Under(d, q, j) && node0 <= j < node :: parent[j] == q - 1
        invariant forall j | node0 <= j < node :: level[j] == lvl
        invariant if lvl == 0 then CpusMade(node0, node, online) else CpusMade(node0, node0, online)
      {
        SumMonotone(d, p + 1, node0 + 1);
        SumStep(d, p);
        ghost var before := node;
        Empty(node0, node, online);
        MakeChildren(node, d[p], p, lvl, online);
        node := node + d[p];
        forall q: nat, j: nat | Under(d, q, j) && node0 <= j < node ensures parent[j] == q - 1 {
          if j >= before { SameUnder(d, p, q, j); }
        }
        p := p + 1;
        Empty(before, node0, online);
      }
      LevelDone(d, level, top, top - lvl);
      Empty(node0, node, online);
    }

    /** Counts each CPU in every domain above it; a domain's range starts where its first CPU is. */
    method UpdateLimits(ghost d: seq<nat>)
      requires Populated(d) && forall j | 0 <= j < start[0] :: ncpus[j] == 0
      modifies this`cpuStart, this`ncpus, this`present
      ensures Populated(d)
      ensures forall j | start[0] <= j < total :: cpuStart[j] == old(cpuStart)[j] && ncpus[j] == old(ncpus)[j] && present[j] == old(present)[j]
      ensures AllRanged(d, top, parent, cpuStart, ncpus, cpus, 1, top)
    {
      hide First, Sum, Linked, Levelled, Covers, Describes, Ranged;
      ghost var base := First(d, top);
      var offset := start[0];
      var last: seq<int> := seq(top, _ => -1);
      NoneCounted(d);
      for id := 0 to cpus
        invariant Populated(d) && |last| == top
        invariant forall j | offset <= j < total :: cpuStart[j] == old(cpuStart)[j] && ncpus[j] == old(ncpus)[j] && present[j] == old(present)[j]
        invariant AllRanged(d, top, parent, cpuStart, ncpus, id, 1, top)
        invariant forall i | 0 <= i < top :: last[i] == if id == 0 then -1 else Ancestor(parent, base + id - 1, i + 1)
      {
        last := CountCpu(offset, id, last, d);
      }
    }

    method CountCpu(offset: nat, id: nat, last0: seq<int>, ghost d: seq<nat>) returns (last: seq<int>)
      requires Populated(d) && offset == start[0] && id < cpus && |last0| == top
      requires AllRanged(d, top, parent, cpuStart, ncpus, id, 1, top)
      requires forall i | 0 <= i < top :: last0[i] == if id == 0 then -1 else Ancestor(parent, offset + id - 1, i + 1)
      modifies this`cpuStart, this`ncpus, this`present
      ensures Populated(d) && |last| == top
      ensures forall j | offset <= j < total :: cpuStart[j] == old(cpuStart)[j] && ncpus[j] == old(ncpus)[j] && present[j] == old(present)[j]
      ensures AllRanged(d, top, parent, cpuStart, ncpus, id + 1, 1, top)
      ensures forall i | 0 <= i < top :: last[i] == Ancestor(parent, offset + id, i + 1)
    {
      hide First, Sum, Linked, Levelled, Covers, InLevel, Ancestor, Ranged;
      var c := offset + id;
      CpuPlace(d, c);
      last := last0;
      var above := Ancestors(c, d);
      var here := present[c];
      var j := top - 1;
      while j >= 0
        invariant -1 <= j < top && Populated(d) && |last| == top
        invariant forall i | offset <= i < total :: cpuStart[i] == old(cpuStart)[i] && ncpus[i] == old(ncpus)[i] && present[i] == old(present)[i]
        invariant AllRanged(d, top, parent, cpuStart, ncpus, id + 1, j + 2, top) && AllRanged(d, top, parent, cpuStart, ncpus, id, 1, j + 1)
        invariant forall i | 0 <= i < top :: last[i] == if i > j then above[i] else last0[i]
      {
        CountIn(c, j, above[j], last[j], here, d, id);
        last := last[j := above[j]];
        j := j - 1;
      }
    }

    /** Counts a CPU in one domain above it. */
    method CountIn(c: nat, j: nat, above: int, last: int, here: bool, ghost d: seq<nat>, ghost id: nat)
      requires Populated(d) && c == start[0] + id && id < cpus && j < top && InLevel(d, top, c) && above == Ancestor(parent, c, j + 1)
      requires last == if id == 0 then -1 else Ancestor(parent, c - 1, j + 1)
      requires AllRanged(d, top, parent, cpuStart, ncpus, id + 1, j + 2, top) && AllRanged(d, top, parent, cpuStart, ncpus, id, 1, j + 1)
      modifies this`cpuStart, this`ncpus, this`present
      ensures Populated(d)
      ensures AllRanged(d, top, parent, cpuStart, ncpus, id + 1, j + 1, top) && AllRanged(d, top, parent, cpuStart, ncpus, id, 1, j)
      ensures forall i | start[0] <= i < total :: cpuStart[i] == old(cpuStart)[i] && ncpus[i] == old(ncpus)[i] && present[i] == old(present)[i]
    {
      hide First, Sum, Linked, Levelled, Covers, InLevel, Ancestor, Ranged;
      ghost var l, cs, nc := j + 1, cpuStart, ncpus;
      AncestorLevel(d, parent, top, c, l);
      BelowCpus(d, l, above);
      if above != last {
        cpuStart := cpuStart[above := c];
        if !present[above] { present := present[above := here]; }
      }
      ncpus := ncpus[above := ncpus[above] + 1];
      assert Ranged(d, top, parent, cs, nc, id, l);
      RangedStep(d, id, l, cs, nc);
      RangedKept(d, id + 1, l, j + 2, top, above, cs, nc);
      RangedKept(d, id, l, 1, j, above, cs, nc);
      RangedMore(d, top, parent, cpuStart, ncpus, id + 1, l);
    }

    /** The domains above a CPU, from the nearest. */
    method Ancestors(c: nat, ghost d: seq<nat>) returns (above: seq<int>)
      requires Populated(d) && InLevel(d, top, c)
      ensures |above| == top && forall i | 0 <= i < top :: above[i] == Ancestor(parent, c, i + 1)
    {
      hide First, Sum, Linked, Levelled, InLevel;
      above := [];
      AncestorLevel(d, parent, top, c, 0);
      InTotal(d, 0, c);
      var up := parent[c];
      for i := 1 to top + 1
        invariant |above| == i - 1 && up == Ancestor(parent, c, i)
        invariant forall k | 0 <= k < i - 1 :: above[k] == Ancestor(parent, c, k + 1)
      {
        above := above + [up];
        AncestorLevel(d, parent, top, c, i);
        InTotal(d, i, up);
        up := parent[up];
      }
    }

    /** Every node below the top has its parent one level up. */
    lemma ParentIsAbove(d: seq<nat>, j: nat)
      requires Populated(d) && j < total
      ensures level[j] <= top
      ensures level[j] < top ==> 0 <= parent[j] < j && level[parent[j]] == level[j] + 1
      ensures level[j] == top ==> parent[j] == -1
    {
      hide First, Sum;
      var k := LevelOf(d, top, j);
      var p := ParentOf(d, k, j);
      if k > 0 {
        ParentLevel(d, k - 1, p, j);
        FirstBelow(d, k, k);
      }
    }

    lemma InTotal(d: seq<nat>, l: nat, q: int)
      requires Populated(d) && l <= top && q >= 0 && InLevel(d, top - l, q)
      ensures q < total
    {
      FirstBelow(d, top - l + 1, top + 1);
    }

    lemma BelowCpus(d: seq<nat>, l: nat, q: int)
      requires Populated(d) && 1 <= l <= top && q >= 0 && InLevel(d, top - l, q)
      ensures q < start[0] <= total
    {
      FirstBelow(d, top - l + 1, top);
      FirstMonotone(d, top);
      assert start[top - top] == First(d, top);
    }

    lemma CpuPlace(d: seq<nat>, c: nat)
      requires Populated(d) && start[0] <= c < start[0] + cpus
      ensures InLevel(d, top, c) && start[0] == First(d, top) && c < total
    {
      assert start[top - top] == First(d, top);
    }

    lemma NoneCounted(d: seq<nat>)
      requires Populated(d) && forall j | 0 <= j < start[0] :: ncpus[j] == 0
      ensures AllRanged(d, top, parent, cpuStart, ncpus, 0, 1, top)
      ensures start[0] == First(d, top)
    {
      assert start[top - top] == First(d, top);
      forall l: nat | 1 <= l <= top ensures Ranged(d, top, parent, cpuStart, ncpus, 0, l) {
        forall q: nat | InLevel(d, top - l, q)
          ensures q < total && Covers(parent, First(d, top), 0, l, q, cpuStart[q], ncpus[q])
        {
          BelowCpus(d, l, q);
        }
      }
    }

    /** The level a CPU was just counted in. */
    lemma RangedStep(d: seq<nat>, id: nat, l: nat, cs: seq<nat>, nc: seq<nat>)
      requires Populated(d) && 1 <= l <= top && id < cpus && |cs| == |nc| == total && Ranged(d, top, parent, cs, nc, id, l)
      requires var c := start[0] + id;
               var q := Ancestor(parent, c, l);
               && 0 <= q < total && ncpus == nc[q := nc[q] + 1]
               && cpuStart == if id > 0 && Ancestor(parent, c - 1, l) == q then cs else cs[q := c]
      ensures Ranged(d, top, parent, cpuStart, ncpus, id + 1, l)
    {
      hide First, Sum, Linked, Levelled, Ancestor, Covers;
      var c := start[0] + id;
      CpuPlace(d, c);
      AncestorLevel(d, parent, top, c, l);
      forall q: nat | InLevel(d, top - l, q) ensures q < total && Covers(parent, First(d, top), id + 1, l, q, cpuStart[q], ncpus[q]) {
        if q == Ancestor(parent, c, l) {
          CoverStep(d, parent, top, id, l, cs[q], nc[q]);
        } else {
          CoverOther(parent, First(d, top), id, l, q, cs[q], nc[q]);
        }
      }
    }

    /** Levels not counted in keep their ranges. */
    lemma RangedKept(d: seq<nat>, m: nat, l: nat, lo: nat, hi: nat, q: nat, cs: seq<nat>, nc: seq<nat>)
      requires Populated(d) && 1 <= l <= top && |cs| == |nc| == total && (l < lo || hi < l) && hi <= top
      requires AllRanged(d, top, parent, cs, nc, m, lo, hi) && InLevel(d, top - l, q)
      requires forall r: nat | r < total && r != q :: cpuStart[r] == cs[r] && ncpus[r] == nc[r]
      ensures AllRanged(d, top, parent, cpuStart, ncpus, m, lo, hi)
    {
      hide First, Sum, Linked, Levelled, Describes, Ancestor, Covers;
      forall o: nat | lo <= o <= hi ensures Ranged(d, top, parent, cpuStart, ncpus, m, o) {
        assert Ranged(d, top, parent, cs, nc, m, o);
        forall r: nat | InLevel(d, top - o, r)
          ensures r < total && Covers(parent, First(d, top), m, o, r, cpuStart[r], ncpus[r])
        {
          if l < o { FirstBelow(d, top - o + 1, top - l); } else { FirstBelow(d, top - l + 1, top - o); }
        }
      }
    }

    /** CPU `c` belongs to the domain `q` that is `l` levels above the CPUs. */
    ghost predicate Below(d: seq<nat>, l: nat, q: nat, c: nat)
      reads this
    {
      InLevel(d, top, c) && Ancestor(parent, c, l) == q
    }

    /** The next present CPU of a domain; from NONE it is the first. It leaves the domain exactly when it starts at a
        CPU before it and meets a present one on the way. */
    method NextCpu(q: nat, cpu: int, ghost d: seq<nat>, ghost l: nat) returns (r: int)
      requires Populated(d) && 1 <= l <= top && InLevel(d, top - l, q) && AllRanged(d, top, parent, cpuStart, ncpus, cpus, 1, top)
      requires AllPositive(d) && (cpu == NONE || (cpu >= 0 && InLevel(d, top, cpu)))
      ensures q < |cpuStart| && (r != NONE ==> 0 <= r < total && present[r] && r > cpu)
      ensures forall c: nat {:trigger Below(d, l, q, c)} | Below(d, l, q, c) && c < total && present[c] && c > cpu :: r != NONE && r <= c
      ensures r != NONE && !Below(d, l, q, r) <==> cpu != NONE && exists c: nat :: cpu < c < cpuStart[q] && c < |present| && present[c]
    {
      hide First, Sum, Linked, Levelled, Ancestor, Below;
      RangeOf(d, l, q);
      var node := cpu;
      if cpu == NONE {
        node := cpuStart[q];
        if present[node] { return node; }
      }
      var end := cpuStart[q] + ncpus[q] - 1;
      node := node + 1;
      while node <= end
        invariant node > cpu && (cpu == NONE ==> cpuStart[q] < node) && 0 <= node
        invariant forall c: nat | (cpu != NONE || cpuStart[q] <= c) && cpu < c < node && c <= end :: !present[c]
      {
        if present[node] { return node; }
        node := node + 1;
      }
      r := NONE;
    }

    /** With every child count positive, a domain's range is not empty and holds exactly its CPUs. */
    lemma RangeOf(d: seq<nat>, l: nat, q: nat)
      requires Populated(d) && 1 <= l <= top && InLevel(d, top - l, q) && AllRanged(d, top, parent, cpuStart, ncpus, cpus, 1, top)
      requires AllPositive(d)
      ensures q < total && ncpus[q] > 0 && cpuStart[q] + ncpus[q] <= total
      ensures forall c: nat {:trigger Below(d, l, q, c)} :: Below(d, l, q, c) <==> cpuStart[q] <= c < cpuStart[q] + ncpus[q]
    {
      hide First, Sum, Linked, Levelled, Ancestor;
      assert Ranged(d, top, parent, cpuStart, ncpus, cpus, l);
      InTotal(d, l, q);
      var c := SomeCpu(d, parent, top, l, q);
      assert Below(d, l, q, c);
    }

    lemma Empty(a: nat, b: nat, online: seq<bool>)
      requires a <= total && b <= total
      ensures CpusMade(a, a, online) <==> CpusMade(b, b, online)
    {
    }
  }

  /** One more CPU below `q`: it extends the range, or starts it when no earlier CPU is below. */
  lemma CoverStep(d: seq<nat>, parent: seq<int>, top: nat, id: nat, l: nat, cs: nat, nc: nat)
    requires l <= top && First(d, top) + id < First(d, top + 1) && Linked(d, parent, First(d, top + 1))
    requires var q := Ancestor(parent, First(d, top) + id, l); q >= 0 && Covers(parent, First(d, top), id, l, q, cs, nc)
    ensures var c := First(d, top) + id;
            var q := Ancestor(parent, c, l);
            Covers(parent, First(d, top), id + 1, l, q, if id > 0 && Ancestor(parent, c - 1, l) == q then cs else c, nc + 1)
  {
    hide First, Linked, Ancestor;
    var base := First(d, top);
    var c := base + id;
    var q := Ancestor(parent, c, l);
    forall b: nat | base <= b < c ensures Ancestor(parent, b, l) == q ==> Ancestor(parent, c - 1, l) == q {
      AncestorOrder(d, parent, top, b, c - 1, l);
      AncestorOrder(d, parent, top, c - 1, c, l);
    }
    if nc > 0 { assert Ancestor(parent, cs, l) == q; }
    if id > 0 && Ancestor(parent, c - 1, l) == q { assert cs <= c - 1 < cs + nc; }
  }

  lemma CoverOther(parent: seq<int>, first: nat, m: nat, l: nat, q: nat, cs: nat, nc: nat)
    requires Covers(parent, first, m, l, q, cs, nc) && Ancestor(parent, first + m, l) != q
    ensures Covers(parent, first, m + 1, l, q, cs, nc)
  {
    hide Ancestor;
  }

  lemma RangedMore(d: seq<nat>, top: nat, parent: seq<int>, cs: seq<nat>, nc: seq<nat>, m: nat, l: nat)
    requires Ranged(d, top, parent, cs, nc, m, l) && AllRanged(d, top, parent, cs, nc, m, l + 1, top)
    ensures AllRanged(d, top, parent, cs, nc, m, l, top)
  {
    hide Ranged;
    forall o: nat | l <= o <= top ensures Ranged(d, top, parent, cs, nc, m, o) {}
  }

  predicate AllPositive(d: seq<nat>) {
    forall i | 0 <= i < |d| :: d[i] > 0
  }

  /** With every child count positive, every domain has a CPU below it. */
  lemma {:induction false} SomeCpu(d: seq<nat>, parent: seq<int>, top: nat, l: nat, q: nat) returns (c: nat)
    requires l <= top && InLevel(d, top - l, q) && AllPositive(d) && First(d, top) + 1 <= |d| && Linked(d, parent, First(d, top + 1))
    ensures InLevel(d, top, c) && Ancestor(parent, c, l) == q
  {
    if l == 0 {
      c := q;
    } else {
      var k, j := top - l, Sum(d, q + 1);
      FirstBelow(d, k + 1, top);
      SumMonotone(d, First(d, k) + 1, q + 1);
      SumMonotone(d, q + 2, First(d, k + 1) + 1);
      assert Under(d, q + 1, j) by { SumStep(d, q + 1); }
      c := SomeCpu(d, parent, top, l - 1, j);
      FirstBelow(d, k + 2, top + 1);
    }
  }

  lemma FirstZero(d: seq<nat>)
    ensures First(d, 0) == 0 == Sum(d, 0)
  {
  }

  lemma SumStep(d: seq<nat>, p: nat)
    requires p < |d|
    ensures Sum(d, p + 1) == Sum(d, p) + d[p]
  {
  }

  lemma LevelBounds(d: seq<nat>, top: nat, cpus: nat, total: nat, lvl: nat)
    requires Describes(d, top, cpus, total) && lvl <= top
    ensures var k := top - lvl;
            && First(d, k) <= First(d, k + 1) == Sum(d, First(d, k) + 1) <= total && First(d, k) + 1 <= |d|
            && (lvl == 0 ==> First(d, k) + cpus == total == First(d, k + 1))
  {
    FirstMonotone(d, top - lvl);
    FirstBelow(d, top - lvl, top);
    FirstBelow(d, top - lvl + 1, top + 1);
  }

  lemma SameUnder(d: seq<nat>, p: nat, q: nat, j: nat)
    requires Under(d, p, j) && Under(d, q, j)
    ensures p == q
  {
    UnderOrder(d, p, q, j, j);
    UnderOrder(d, q, p, j, j);
  }

  lemma LevelDone(d: seq<nat>, level: seq<nat>, top: nat, k: nat)
    requires k <= top && Levelled(d, level, top, First(d, k)) && First(d, k + 1) <= |level|
    requires forall j | First(d, k) <= j < First(d, k + 1) :: level[j] == top - k
    ensures Levelled(d, level, top, First(d, k + 1))
  {
    forall i: nat, j: nat | InLevel(d, i, j) && i <= top && j < First(d, k + 1) ensures j < |level| && level[j] == top - i {
      if i < k { FirstBelow(d, i + 1, k); }
      if i > k { FirstBelow(d, k + 1, i); }
    }
  }
}
