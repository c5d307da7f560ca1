/** What a run of sequential-writer calls stands for, and how the buffer records it. */
module FdtCalls {
  import opened FdtBytes
  import opened FdtTokens
  import opened FdtTree
  import opened FdtSplice
  import opened FdtRead

  datatype Call =
    | OpenNode(name: seq<Byte>)
    | Property(name: seq<Byte>, value: seq<Byte>)
    | CloseNode

  /** The calls that write a tree. */
  function CallsOf(xs: seq<Item>): seq<Call>
    decreases xs
  {
    if xs == [] then [] else
    (match xs[0]
     case P(name, value) => [Property(name, value)]
     case N(name, items) => [OpenNode(name)] + CallsOf(items) + [CloseNode]) + CallsOf(xs[1..])
  }

  /** The property name stored as an offset from the start of the strings block. */
  ghost predicate Stored(c: Call, t: Token, strs: seq<Byte>) {
    match c
    case OpenNode(name) => t == Begin(name)
    case CloseNode => t == EndNode
    case Property(name, value) => t.Prop? && t.value == value && StringAt(strs, name, t.nameoff)
  }

  /** Before the strings block has its place, the offset counts back from the end of the buffer, as a
      negative 32-bit number. */
  ghost predicate Pending(c: Call, t: Token, strs: seq<Byte>) {
    match c
    case OpenNode(name) => t == Begin(name)
    case CloseNode => t == EndNode
    case Property(name, value) =>
      && t.Prop? && t.value == value && t.nameoff < WORDS <= t.nameoff + |strs|
      && StringAt(strs, name, t.nameoff + |strs| - WORDS)
  }

  ghost predicate AllStored(cs: seq<Call>, ts: seq<Token>, strs: seq<Byte>) {
    |cs| == |ts| && forall i | 0 <= i < |cs| :: Stored(cs[i], ts[i], strs)
  }

  ghost predicate AllPending(cs: seq<Call>, ts: seq<Token>, strs: seq<Byte>) {
    |cs| == |ts| && forall i | 0 <= i < |cs| :: Pending(cs[i], ts[i], strs)
  }

  /** Strings added in front leave every pending name as it was. */
  lemma PendingKept(cs: seq<Call>, ts: seq<Token>, strs: seq<Byte>, more: seq<Byte>)
    requires AllPending(cs, ts, strs)
    ensures AllPending(cs, ts, more + strs)
  {
    forall i | 0 <= i < |cs| ensures Pending(cs[i], ts[i], more + strs) {
      assert Pending(cs[i], ts[i], strs);
      if cs[i].Property? { StringShifted(strs, more, cs[i].name, ts[i].nameoff + |strs| - WORDS); }
    }
  }

  lemma StringShifted(strs: seq<Byte>, more: seq<Byte>, name: seq<Byte>, p: nat)
    requires StringAt(strs, name, p)
    ensures StringAt(more + strs, name, |more| + p)
  {
    assert (more + strs)[|more| + p..|more| + p + |name| + 1] == strs[p..p + |name| + 1];
  }

  /** The token with its name offset counted from the start of a strings block of `n` bytes. */
  function Settled(t: Token, n: nat): Token {
    if t.Prop? then Prop((t.nameoff + n) % WORDS, t.value) else t
  }

  lemma SettledStored(c: Call, t: Token, strs: seq<Byte>)
    requires Pending(c, t, strs) && |strs| < WORDS
    ensures Stored(c, Settled(t, |strs|), strs) && Len(Settled(t, |strs|)) == Len(t)
  {
  }

  /** Tokens that record the calls of a tree parse to that tree. */
  lemma {:induction false} RecordsTree(xs: seq<Item>, ts: seq<Token>, strs: seq<Byte>) returns (ps: seq<Piece>)
    requires AllStored(CallsOf(xs), ts, strs) && NamesOK(CallsOf(xs))
    ensures ts == Flat(ps) && Named(ps, strs) && Items(ps, strs) == xs
    decreases xs, 1
  {
    hide CallsOf, Flat, Named, Items;
    Unwritten(xs, strs);
    if xs == [] {
      ps := [];
    } else {
      var p, m := RecordsHead(xs, ts, strs);
      var cs := CallsOf(xs);
      Portion(cs, ts, strs, m, |cs|);
      assert cs[m..|cs|] == CallsOf(xs[1..]);
      var rest := RecordsTree(xs[1..], ts[m..|cs|], strs);
      Assembled(xs[0], p, rest, strs);
      ps := [p] + rest;
      assert ts == ts[..m] + ts[m..|cs|] && xs == [xs[0]] + xs[1..];
    }
  }

  /** The tokens of the first item and the piece they make. */
  lemma {:induction false} RecordsHead(xs: seq<Item>, ts: seq<Token>, strs: seq<Byte>) returns (p: Piece, m: nat)
    requires xs != [] && AllStored(CallsOf(xs), ts, strs) && NamesOK(CallsOf(xs))
    ensures m <= |ts| && CallsOf(xs)[m..] == CallsOf(xs[1..])
    ensures ts[..m] == FlatOne(p) && NamedOne(p, strs) && ItemsOne(p, strs) == [xs[0]]
    decreases xs, 0
  {
    hide CallsOf, Flat, Items, NameOf, Terminated, Named;
    var cs := CallsOf(xs);
    Written(xs);
    assert Stored(cs[0], ts[0], strs) && (xs[0].P? ==> 0 !in cs[0].name);
    match xs[0] {
      case P(name, value) =>
        m := 1;
        p := PropP(ts[0].nameoff, value);
        StringRead(strs, name, ts[0].nameoff);
      case N(name, items) =>
        var n := |CallsOf(items)|;
        m := n + 2;
        assert Stored(cs[n + 1], ts[n + 1], strs);
        Portion(cs, ts, strs, 1, n + 1);
        assert cs[1..n + 1] == CallsOf(items);
        var kids := RecordsTree(items, ts[1..n + 1], strs);
        p := NodeP(name, kids);
        assert ts[..m] == [ts[0]] + ts[1..n + 1] + [ts[n + 1]];
    }
  }

  lemma Unwritten(xs: seq<Item>, strs: seq<Byte>)
    ensures xs == [] ==> CallsOf(xs) == [] && Flat([]) == [] && Items([], strs) == [] && Named([], strs)
  {
  }

  lemma Written(xs: seq<Item>)
    requires xs != []
    ensures var cs, n := CallsOf(xs), if xs[0].P? then 1 else |CallsOf(xs[0].items)| + 2;
            && n <= |cs| && cs[n..] == CallsOf(xs[1..])
            && (xs[0].P? ==> cs[0] == Property(xs[0].name, xs[0].value))
            && (xs[0].N? ==> cs[0] == OpenNode(xs[0].name) && cs[1..n - 1] == CallsOf(xs[0].items) && cs[n - 1] == CloseNode)
  {
    if xs[0].N? {
      var body, rest := CallsOf(xs[0].items), CallsOf(xs[1..]);
      assert CallsOf(xs) == [OpenNode(xs[0].name)] + body + [CloseNode] + rest;
    }
  }

  lemma Assembled(x: Item, p: Piece, rest: seq<Piece>, strs: seq<Byte>)
    requires ItemsOne(p, strs) == [x] && NamedOne(p, strs) && Named(rest, strs)
    ensures Named([p] + rest, strs) && Items([p] + rest, strs) == [x] + Items(rest, strs)
    ensures Flat([p] + rest) == FlatOne(p) + Flat(rest)
  {
    assert ([p] + rest)[1..] == rest;
  }

  lemma Portion(cs: seq<Call>, ts: seq<Token>, strs: seq<Byte>, i: nat, j: nat)
    requires AllStored(cs, ts, strs) && NamesOK(cs) && i <= j <= |cs|
    ensures AllStored(cs[i..j], ts[i..j], strs) && NamesOK(cs[i..j])
  {
  }

  ghost predicate NamesOK(cs: seq<Call>) {
    forall i | 0 <= i < |cs| :: !cs[i].CloseNode? ==> 0 !in cs[i].name
  }

  // ----- Memory reservations

  const LONGS: nat := 0x1_0000_0000_0000_0000

  function Long(b: seq<Byte>): nat
    requires |b| == 8
  {
    Word(b[..4]) * WORDS + Word(b[4..])
  }

  function LongBytes(v: nat): (b: seq<Byte>)
    requires v < LONGS
    ensures |b| == 8 && Long(b) == v
  {
    var r := WordBytes(v / WORDS) + WordBytes(v % WORDS);
    assert r[..4] == WordBytes(v / WORDS) && r[4..] == WordBytes(v % WORDS);
    r
  }

  datatype Reserve = Reserve(address: nat, size: nat)
  {
    predicate OK() { address < LONGS && size < LONGS }
  }

  ghost function ReserveBytes(rs: seq<Reserve>): (b: seq<Byte>)
    requires forall i | 0 <= i < |rs| :: rs[i].OK()
    ensures |b| == 16 * |rs|
  {
    if rs == [] then [] else assert rs[0].OK(); LongBytes(rs[0].address) + LongBytes(rs[0].size) + ReserveBytes(rs[1..])
  }

  lemma {:induction false} ReserveAppend(rs: seq<Reserve>, r: Reserve)
    requires r.OK() && forall i | 0 <= i < |rs| :: rs[i].OK()
    ensures ReserveBytes(rs + [r]) == ReserveBytes(rs) + (LongBytes(r.address) + LongBytes(r.size))
  {
    hide LongBytes;
    if rs == [] {
      assert [r][1..] == [] && [] + [r] == [r];
    } else {
      assert (rs + [r])[1..] == rs[1..] + [r];
      ReserveAppend(rs[1..], r);
    }
  }

  /** The reservation stored at an offset. */
  function ReserveAt(s: seq<Byte>, at: nat): Reserve
    requires at + 16 <= |s|
  {
    Reserve(Long(s[at..at + 8]), Long(s[at + 8..at + 16]))
  }

  /** Each reservation is stored in its place. */
  lemma {:induction false} ReserveInPlace(rs: seq<Reserve>, i: nat)
    requires (forall k | 0 <= k < |rs| :: rs[k].OK()) && i < |rs|
    ensures ReserveAt(ReserveBytes(rs), 16 * i) == rs[i]
  {
    hide Long, LongBytes;
    var s, first := ReserveBytes(rs), LongBytes(rs[0].address) + LongBytes(rs[0].size);
    assert s == first + ReserveBytes(rs[1..]);
    if i == 0 {
      assert s[0..8] == LongBytes(rs[0].address) && s[8..16] == LongBytes(rs[0].size);
    } else {
      ReserveInPlace(rs[1..], i - 1);
      var t, at := ReserveBytes(rs[1..]), 16 * (i - 1);
      assert s[at + 16..at + 24] == t[at..at + 8] && s[at + 24..at + 32] == t[at + 8..at + 16];
    }
  }
}
