/** What a token sequence means: a tree of nodes and properties, and the places in it. */
module FdtTree {
  import opened FdtBytes
  import opened FdtTokens

  /** One entry of a node's body as stored; a property name is an offset into the strings block. */
  datatype Piece =
    | NopP
    | PropP(nameoff: nat, value: seq<Byte>)
    | NodeP(name: seq<Byte>, kids: seq<Piece>)

  /** One entry of a node's body as meant. */
  datatype Item =
    | P(name: seq<Byte>, value: seq<Byte>)
    | N(name: seq<Byte>, items: seq<Item>)

  function FlatOne(p: Piece): seq<Token>
    decreases p
  {
    match p
    case NopP => [Nop]
    case PropP(nameoff, value) => [Prop(nameoff, value)]
    case NodeP(name, kids) => [Begin(name)] + Flat(kids) + [EndNode]
  }

  function Flat(ps: seq<Piece>): seq<Token>
    decreases ps
  {
    if ps == [] then [] else FlatOne(ps[0]) + Flat(ps[1..])
  }

  lemma {:induction false} FlatConcat(ps: seq<Piece>, qs: seq<Piece>)
    ensures Flat(ps + qs) == Flat(ps) + Flat(qs)
  {
    hide FlatOne;
    if ps == [] {
      assert ps + qs == qs;
    } else {
      assert (ps + qs)[1..] == ps[1..] + qs;
      FlatConcat(ps[1..], qs);
    }
  }

  lemma FlatSingle(p: Piece)
    ensures Flat([p]) == FlatOne(p)
  {
    assert [p][1..] == [];
  }

  /** The tokens around piece `i`. */
  lemma FlatAround(ps: seq<Piece>, i: nat)
    requires i < |ps|
    ensures Flat(ps) == Flat(ps[..i]) + FlatOne(ps[i]) + Flat(ps[i + 1..])
  {
    hide Flat, FlatOne;
    assert ps == ps[..i] + [ps[i]] + ps[i + 1..];
    FlatConcat(ps[..i] + [ps[i]], ps[i + 1..]);
    FlatConcat(ps[..i], [ps[i]]);
    FlatSingle(ps[i]);
  }

  predicate Closes(x: seq<Token>) {
    x == [] || x[0] == EndNode || x[0] == End
  }

  /** The tokens determine the pieces. */
  lemma {:induction false} FlatUnique(ps: seq<Piece>, qs: seq<Piece>, x: seq<Token>, y: seq<Token>)
    requires Flat(ps) + x == Flat(qs) + y && Closes(x) && Closes(y)
    ensures ps == qs && x == y
    decreases ps
  {
    hide Flat, FlatOne;
    FlatOpens(ps);
    FlatOpens(qs);
    if ps == [] || qs == [] {
      assert [] + x == x && [] + y == y;
    } else {
      FlatHead(ps, x);
      FlatHead(qs, y);
      var s, t := Flat(ps[1..]) + x, Flat(qs[1..]) + y;
      if ps[0].NodeP? {
        FlatUnique(ps[0].kids, qs[0].kids, [EndNode] + s, [EndNode] + t);
        assert ([EndNode] + s)[1..] == s && ([EndNode] + t)[1..] == t;
      }
      FlatUnique(ps[1..], qs[1..], x, y);
      assert ps == [ps[0]] + ps[1..] && qs == [qs[0]] + qs[1..];
    }
  }

  function Head(p: Piece): Token {
    match p
    case NopP => Nop
    case PropP(nameoff, value) => Prop(nameoff, value)
    case NodeP(name, _) => Begin(name)
  }

  lemma FlatHead(ps: seq<Piece>, x: seq<Token>)
    requires ps != []
    ensures (Flat(ps) + x) != [] && (Flat(ps) + x)[0] == Head(ps[0])
    ensures var s := Flat(ps[1..]) + x;
            (Flat(ps) + x)[1..] == if ps[0].NodeP? then Flat(ps[0].kids) + ([EndNode] + s) else s
  {
    assert Flat(ps) + x == FlatOne(ps[0]) + (Flat(ps[1..]) + x);
  }

  lemma FlatOpens(ps: seq<Piece>)
    ensures ps == [] ==> Flat(ps) == []
    ensures ps != [] ==> Flat(ps) != [] && Flat(ps)[0] != EndNode && Flat(ps)[0] != End
  {
  }

  /** A structure block holds these pieces, closed by the end token. */
  ghost predicate Parses(s: seq<Byte>, ps: seq<Piece>) {
    Lexes(s, Flat(ps) + [End])
  }

  /** The bytes of a structure block determine what it holds. */
  lemma ParseUnique(s: seq<Byte>, ps: seq<Piece>, qs: seq<Piece>)
    requires Parses(s, ps) && Parses(s, qs)
    ensures ps == qs
  {
    LexesUnique(s, Flat(ps) + [End], Flat(qs) + [End]);
    FlatUnique(ps, qs, [End], [End]);
  }

  // ----- Places

  ghost predicate IsAt(ps: seq<Piece>, path: seq<nat>)
    decreases |path|
  {
    && path != [] && path[0] < |ps|
    && (|path| > 1 ==> ps[path[0]].NodeP? && IsAt(ps[path[0]].kids, path[1..]))
  }

  ghost function At(ps: seq<Piece>, path: seq<nat>): Piece
    requires IsAt(ps, path)
    decreases |path|
  {
    if |path| == 1 then ps[path[0]] else At(ps[path[0]].kids, path[1..])
  }

  /** The pieces with the one at `path` replaced by any number of others. */
  ghost function Put(ps: seq<Piece>, path: seq<nat>, rs: seq<Piece>): seq<Piece>
    requires IsAt(ps, path)
    decreases |path|
  {
    var i := path[0];
    ps[..i] + (if |path| == 1 then rs else [ps[i].(kids := Put(ps[i].kids, path[1..], rs))]) + ps[i + 1..]
  }

  /** How many tokens come before the piece at `path`. */
  ghost function Before(ps: seq<Piece>, path: seq<nat>): nat
    requires IsAt(ps, path)
    decreases |path|
  {
    |Flat(ps[..path[0]])| + if |path| == 1 then 0 else 1 + Before(ps[path[0]].kids, path[1..])
  }

  /** Replacing a piece replaces exactly its run of tokens. */
  lemma {:induction false} FlatPut(ps: seq<Piece>, path: seq<nat>, rs: seq<Piece>)
    returns (pre: seq<Token>, post: seq<Token>)
    requires IsAt(ps, path)
    ensures |pre| == Before(ps, path)
    ensures Flat(ps) == pre + FlatOne(At(ps, path)) + post
    ensures Flat(Put(ps, path, rs)) == pre + Flat(rs) + post
    decreases |path|
  {
    var i := path[0];
    var a, c := Flat(ps[..i]), Flat(ps[i + 1..]);
    FlatAround(ps, i);
    if |path| == 1 {
      pre, post := a, c;
      FlatConcat(ps[..i] + rs, ps[i + 1..]);
      FlatConcat(ps[..i], rs);
    } else {
      var name, kids := ps[i].name, ps[i].kids;
      var p, q := FlatPut(kids, path[1..], rs);
      var now := NodeP(name, Put(kids, path[1..], rs));
      pre, post := a + [Begin(name)] + p, q + [EndNode] + c;
      PutStep(ps, i, now);
      FlatNested(a, name, p, FlatOne(At(kids, path[1..])), q, c);
      FlatNested(a, name, p, Flat(rs), q, c);
    }
  }

  lemma PutStep(ps: seq<Piece>, i: nat, now: Piece)
    requires i < |ps|
    ensures Flat(ps[..i] + [now] + ps[i + 1..]) == Flat(ps[..i]) + FlatOne(now) + Flat(ps[i + 1..])
  {
    hide Flat, FlatOne;
    FlatConcat(ps[..i] + [now], ps[i + 1..]);
    FlatConcat(ps[..i], [now]);
    FlatSingle(now);
  }

  lemma FlatNested(a: seq<Token>, name: seq<Byte>, p: seq<Token>, m: seq<Token>, q: seq<Token>, c: seq<Token>)
    ensures a + ([Begin(name)] + (p + m + q) + [EndNode]) + c == (a + [Begin(name)] + p) + m + (q + [EndNode] + c)
  {
  }

  /** Every node-opening token belongs to a node of the tree. */
  lemma {:induction false} PathOf(ps: seq<Piece>, k: nat) returns (path: seq<nat>)
    requires k < |Flat(ps)| && Flat(ps)[k].Begin?
    ensures IsAt(ps, path) && Before(ps, path) == k && At(ps, path).NodeP?
    decreases ps
  {
    var one := FlatOne(ps[0]);
    if k < |one| {
      if k == 0 {
        path := [0];
        assert ps[..0] == [];
      } else {
        assert one[k] == Flat(ps[0].kids)[k - 1];
        var rest := PathOf(ps[0].kids, k - 1);
        path := [0] + rest;
        assert path[1..] == rest && ps[..0] == [];
      }
    } else {
      var rest := PathOf(ps[1..], k - |one|);
      path := [rest[0] + 1] + rest[1..];
      assert ps[..path[0]] == [ps[0]] + ps[1..][..rest[0]];
      FlatConcat([ps[0]], ps[1..][..rest[0]]);
      FlatSingle(ps[0]);
      assert path[1..] == rest[1..];
    }
  }

  // ----- Names and meaning

  function NameOf(strs: seq<Byte>, off: nat): seq<Byte>
    decreases |strs| - off
  {
    if off >= |strs| || strs[off] == 0 then [] else [strs[off]] + NameOf(strs, off + 1)
  }

  predicate Terminated(strs: seq<Byte>, off: nat) {
    off < |strs| && 0 in strs[off..]
  }

  /** Strings added at the end leave every name as it was. */
  lemma {:induction false} NameKept(strs: seq<Byte>, more: seq<Byte>, off: nat)
    requires Terminated(strs, off)
    ensures Terminated(strs + more, off) && NameOf(strs + more, off) == NameOf(strs, off)
    decreases |strs| - off
  {
    assert (strs + more)[off..] == strs[off..] + more;
    if strs[off] != 0 {
      assert strs[off..] == [strs[off]] + strs[off + 1..];
      NameKept(strs, more, off + 1);
    }
  }

  /** A name stored with its terminator is the name read back. */
  lemma {:induction false} NameRead(strs: seq<Byte>, off: nat, name: seq<Byte>)
    requires 0 !in name && off + |name| < |strs| && strs[off..off + |name|] == name && strs[off + |name|] == 0
    ensures Terminated(strs, off) && NameOf(strs, off) == name
    decreases |name|
  {
    assert strs[off..][|name|] == 0;
    if name != [] {
      assert strs[off] == name[0];
      assert strs[off + 1..off + 1 + |name[1..]|] == name[1..];
      NameRead(strs, off + 1, name[1..]);
    }
  }

  /** Every property name is in the strings block. */
  ghost predicate Named(ps: seq<Piece>, strs: seq<Byte>)
    decreases ps
  {
    forall i | 0 <= i < |ps| :: NamedOne(ps[i], strs)
  }

  ghost predicate NamedOne(p: Piece, strs: seq<Byte>)
    decreases p
  {
    match p
    case NopP => true
    case PropP(off, _) => Terminated(strs, off)
    case NodeP(_, kids) => Named(kids, strs)
  }

  ghost function ItemsOne(p: Piece, strs: seq<Byte>): seq<Item>
    decreases p
  {
    match p
    case NopP => []
    case PropP(off, value) => [P(NameOf(strs, off), value)]
    case NodeP(name, kids) => [N(name, Items(kids, strs))]
  }

  /** The tree the pieces stand for: names looked up, fillers gone. */
  ghost function Items(ps: seq<Piece>, strs: seq<Byte>): seq<Item>
    decreases ps
  {
    if ps == [] then [] else ItemsOne(ps[0], strs) + Items(ps[1..], strs)
  }

  lemma {:induction false} ItemsConcat(ps: seq<Piece>, qs: seq<Piece>, strs: seq<Byte>)
    ensures Items(ps + qs, strs) == Items(ps, strs) + Items(qs, strs)
  {
    hide ItemsOne;
    if ps == [] {
      assert ps + qs == qs;
    } else {
      assert (ps + qs)[1..] == ps[1..] + qs;
      ItemsConcat(ps[1..], qs, strs);
    }
  }

  /** More strings at the end change no meaning. */
  lemma {:induction false} ItemsKept(ps: seq<Piece>, strs: seq<Byte>, more: seq<Byte>)
    requires Named(ps, strs)
    ensures Named(ps, strs + more) && Items(ps, strs + more) == Items(ps, strs)
    decreases ps
  {
    if ps != [] {
      assert NamedOne(ps[0], strs);
      match ps[0] {
        case NopP =>
        case PropP(off, _) => NameKept(strs, more, off);
        case NodeP(_, kids) => ItemsKept(kids, strs, more);
      }
      forall i | 0 <= i < |ps[1..]| ensures NamedOne(ps[1..][i], strs) { assert ps[1..][i] == ps[i + 1]; }
      ItemsKept(ps[1..], strs, more);
      forall i | 0 <= i < |ps| ensures NamedOne(ps[i], strs + more) { if i > 0 { assert ps[i] == ps[1..][i - 1]; } }
    }
  }

  /** The tree with the item at `path` replaced by any number of others. */
  ghost function Edit(xs: seq<Item>, path: seq<nat>, rs: seq<Item>): seq<Item>
    requires HasItem(xs, path)
    decreases |path|
  {
    var i := path[0];
    xs[..i] + (if |path| == 1 then rs else [N(xs[i].name, Edit(xs[i].items, path[1..], rs))]) + xs[i + 1..]
  }

  ghost predicate HasItem(xs: seq<Item>, path: seq<nat>)
    decreases |path|
  {
    && path != [] && path[0] < |xs|
    && (|path| > 1 ==> xs[path[0]].N? && HasItem(xs[path[0]].items, path[1..]))
  }

  ghost function ItemAt(xs: seq<Item>, path: seq<nat>): Item
    requires HasItem(xs, path)
    decreases |path|
  {
    if |path| == 1 then xs[path[0]] else ItemAt(xs[path[0]].items, path[1..])
  }

  /** Where a stored piece ends up once fillers are gone. */
  ghost function ItemPath(ps: seq<Piece>, path: seq<nat>, strs: seq<Byte>): seq<nat>
    requires IsAt(ps, path)
    decreases |path|
  {
    [|Items(ps[..path[0]], strs)|] + if |path| == 1 then [] else ItemPath(ps[path[0]].kids, path[1..], strs)
  }

  lemma ItemsAround(ps: seq<Piece>, i: nat, rs: seq<Piece>, strs: seq<Byte>)
    requires i < |ps|
    ensures Items(ps, strs) == Items(ps[..i], strs) + ItemsOne(ps[i], strs) + Items(ps[i + 1..], strs)
    ensures Items(ps[..i] + rs + ps[i + 1..], strs) == Items(ps[..i], strs) + Items(rs, strs) + Items(ps[i + 1..], strs)
  {
    assert Items([ps[i]], strs) == ItemsOne(ps[i], strs) by { assert [ps[i]][1..] == []; }
    hide Items, ItemsOne;
    assert ps == ps[..i] + [ps[i]] + ps[i + 1..];
    ItemsConcat(ps[..i] + [ps[i]], ps[i + 1..], strs);
    ItemsConcat(ps[..i], [ps[i]], strs);
    ItemsConcat(ps[..i] + rs, ps[i + 1..], strs);
    ItemsConcat(ps[..i], rs, strs);
  }

  /** Replacing a stored piece is replacing the item it stands for. */
  lemma {:induction false} ItemsPut(ps: seq<Piece>, path: seq<nat>, rs: seq<Piece>, strs: seq<Byte>)
    requires IsAt(ps, path) && !At(ps, path).NopP?
    ensures HasItem(Items(ps, strs), ItemPath(ps, path, strs))
    ensures [ItemAt(Items(ps, strs), ItemPath(ps, path, strs))] == ItemsOne(At(ps, path), strs)
    ensures Items(Put(ps, path, rs), strs) == Edit(Items(ps, strs), ItemPath(ps, path, strs), Items(rs, strs))
    decreases |path|
  {
    var i, ip := path[0], ItemPath(ps, path, strs);
    var a, c := Items(ps[..i], strs), Items(ps[i + 1..], strs);
    if |path| == 1 {
      ItemsAround(ps, i, rs, strs);
      assert (a + ItemsOne(ps[i], strs) + c)[..|a|] == a;
      assert (a + ItemsOne(ps[i], strs) + c)[|a| + 1..] == c;
    } else {
      var kids := ps[i].kids;
      ItemsPut(kids, path[1..], rs, strs);
      var now := NodeP(ps[i].name, Put(kids, path[1..], rs));
      ItemsAround(ps, i, [now], strs);
      assert Items([now], strs) == ItemsOne(now, strs) by { assert [now][1..] == []; }
      assert ip[1..] == ItemPath(kids, path[1..], strs);
      assert (a + ItemsOne(ps[i], strs) + c)[..|a|] == a;
      assert (a + ItemsOne(ps[i], strs) + c)[|a| + 1..] == c;
    }
  }
}
