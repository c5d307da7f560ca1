/** A rewritten node body, from the bytes to the tree, in one step. */
module FdtEdit {
  import opened Wrappers
  import opened FdtBytes
  import opened FdtTokens
  import opened FdtTree
  import opened FdtWalk
  import opened FdtMeaning
  import opened FdtSplice

  /** Replacing the piece at `path` by one piece leaves that piece at `path`. */
  lemma {:induction false} PutHere(ps: seq<Piece>, path: seq<nat>, r: Piece)
    requires IsAt(ps, path)
    ensures IsAt(Put(ps, path, [r]), path) && At(Put(ps, path, [r]), path) == r
    ensures Before(Put(ps, path, [r]), path) == Before(ps, path)
    decreases |path|
  {
    var i, qs := path[0], Put(ps, path, [r]);
    assert qs[..i] == ps[..i];
    if |path| > 1 {
      PutHere(ps[i].kids, path[1..], r);
      assert qs[i] == ps[i].(kids := Put(ps[i].kids, path[1..], [r]));
    } else {
      assert qs[i] == r;
    }
  }

  /** A node keeps its offset when its body is rewritten. */
  lemma RebodyKeepsOffset(ps: seq<Piece>, path: seq<nat>, j: nat, m: nat, rs: seq<Piece>)
    requires IsAt(ps, path) && At(ps, path).NodeP? && j + m <= |At(ps, path).kids|
    ensures var qs := Rebody(ps, path, j, m, rs);
            && IsAt(qs, path) && At(qs, path).NodeP? && At(qs, path).name == At(ps, path).name
            && At(qs, path).kids == At(ps, path).kids[..j] + rs + At(ps, path).kids[j + m..]
            && Before(qs, path) == Before(ps, path) && Before(qs, path) + 1 < |Flat(qs)| && Before(ps, path) + 1 < |Flat(ps)|
            && Off(Flat(qs) + [End], Before(qs, path)) == Off(Flat(ps) + [End], Before(ps, path))
  {
    hide Flat, Put, At, IsAt, Before;
    var p := At(ps, path);
    var now := NodeP(p.name, p.kids[..j] + rs + p.kids[j + m..]);
    PutHere(ps, path, now);
    var qs := Rebody(ps, path, j, m, rs);
    var rest := NodeTokens(ps, path);
    var more := NodeTokens(qs, path);
    RebodyTokens(ps, path, j, m, rs);
    var k, ts, us := Before(ps, path), Flat(ps) + [End], Flat(qs) + [End];
    assert us[..k] == ts[..k];
  }

  /** Bytes replaced from entry `j` to entry `j + m` of a node: the block still parses, every name is
      still known, and the tree is the old one with that body rewritten. */
  lemma Rewritten(s: seq<Byte>, ps: seq<Piece>, path: seq<nat>, j: nat, m: nat, rs: seq<Piece>, bytes: seq<Byte>,
                  strs: seq<Byte>, more: seq<Byte>)
    requires Parses(s, ps) && Named(ps, strs) && IsAt(ps, path) && At(ps, path).NodeP? && j + m <= |At(ps, path).kids|
    requires Lexes(bytes, Flat(rs)) && Named(rs, strs + more)
    ensures KidToken(ps, path, j) <= KidToken(ps, path, j + m) <= |Flat(ps)|
    ensures var ts, qs, p := Flat(ps) + [End], Rebody(ps, path, j, m, rs), At(ps, path);
            var a, b := Off(ts, KidToken(ps, path, j)), Off(ts, KidToken(ps, path, j + m));
            && a <= b <= |s| && Parses(s[..a] + bytes + s[b..], qs) && Named(qs, strs + more)
            && HasItem(Items(ps, strs), ItemPath(ps, path, strs))
            && Items(qs, strs + more) ==
               Edit(Items(ps, strs), ItemPath(ps, path, strs),
                    [N(p.name, Items(p.kids[..j], strs) + Items(rs, strs + more) + Items(p.kids[j + m..], strs))])
            && Items(p.kids[..j] + rs + p.kids[j + m..], strs + more) ==
               Items(p.kids[..j], strs) + Items(rs, strs + more) + Items(p.kids[j + m..], strs)
  {
    RebodyBytes(s, ps, path, j, m, rs, bytes);
    hide Flat, Lexes, Parses, KidToken, Named, Items, Rebody, IsAt, At, Edit;
    var p := At(ps, path);
    ItemsKept(ps, strs, more);
    NamedRebody(ps, path, j, m, rs, strs + more);
    RebodyMeans(ps, path, j, m, rs, strs + more);
    NamedKids(ps, path, strs);
    NamedPart(p.kids, 0, j, strs);
    NamedPart(p.kids, j + m, |p.kids|, strs);
    assert p.kids[0..j] == p.kids[..j] && p.kids[j + m..|p.kids|] == p.kids[j + m..];
    ItemsKept(p.kids[..j], strs, more);
    ItemsKept(p.kids[j + m..], strs, more);
    ItemPathKept(ps, path, strs, more);
    ItemsConcat(p.kids[..j] + rs, p.kids[j + m..], strs + more);
    ItemsConcat(p.kids[..j], rs, strs + more);
  }

  lemma NamedPart(ps: seq<Piece>, i: nat, j: nat, strs: seq<Byte>)
    requires Named(ps, strs) && i <= j <= |ps|
    ensures Named(ps[i..j], strs)
  {
  }

  lemma {:induction false} ItemPathKept(ps: seq<Piece>, path: seq<nat>, strs: seq<Byte>, more: seq<Byte>)
    requires Named(ps, strs) && IsAt(ps, path)
    ensures ItemPath(ps, path, strs + more) == ItemPath(ps, path, strs)
    decreases |path|
  {
    NamedPart(ps, 0, path[0], strs);
    assert ps[0..path[0]] == ps[..path[0]];
    ItemsKept(ps[..path[0]], strs, more);
    assert NamedOne(ps[path[0]], strs);
    if |path| > 1 { ItemPathKept(ps[path[0]].kids, path[1..], strs, more); }
  }

  /** Bytes replaced where a whole piece was. */
  lemma Replaced(s: seq<Byte>, ps: seq<Piece>, path: seq<nat>, rs: seq<Piece>, bytes: seq<Byte>, strs: seq<Byte>)
    requires Parses(s, ps) && Named(ps, strs) && IsAt(ps, path) && Lexes(bytes, Flat(rs)) && Named(rs, strs)
    ensures Before(ps, path) + |FlatOne(At(ps, path))| <= |Flat(ps)|
    ensures var ts, k := Flat(ps) + [End], Before(ps, path);
            var a, b := Off(ts, k), Off(ts, k + |FlatOne(At(ps, path))|);
            a <= b <= |s| && Parses(s[..a] + bytes + s[b..], Put(ps, path, rs)) && Named(Put(ps, path, rs), strs)
  {
    hide Flat, FlatOne, Lexes, Put, At, Named, IsAt, Before, Off;
    var pre, post := FlatPut(ps, path, rs);
    var ts, k, one := Flat(ps) + [End], Before(ps, path), FlatOne(At(ps, path));
    SpliceTokens(pre, one, post, Flat(rs));
    LexesSplice(s, ts, k, k + |one|, bytes, Flat(rs));
    NamedPut(ps, path, rs, strs);
  }

  /** A child's place in the block. */
  lemma {:induction false} ChildPlace(ps: seq<Piece>, path: seq<nat>, i: nat)
    requires IsAt(ps, path) && At(ps, path).NodeP? && i < |At(ps, path).kids|
    ensures IsAt(ps, path + [i]) && At(ps, path + [i]) == At(ps, path).kids[i] && Before(ps, path + [i]) == KidToken(ps, path, i)
    decreases |path|
  {
    var p := path + [i];
    if |path| > 1 {
      ChildPlace(ps[path[0]].kids, path[1..], i);
      assert p[1..] == path[1..] + [i];
    } else {
      assert p[1..] == [i];
    }
  }

  /** A child inserted in a node's body starts where the entry it pushes back did. */
  lemma ChildAdded(ps: seq<Piece>, path: seq<nat>, n: nat, name: seq<Byte>)
    requires IsAt(ps, path) && At(ps, path).NodeP? && n <= |At(ps, path).kids|
    ensures var qs, here := Rebody(ps, path, n, 0, [NodeP(name, [])]), path + [n];
            && IsAt(qs, here) && At(qs, here) == NodeP(name, []) && Before(qs, here) == KidToken(ps, path, n) <= |Flat(ps)|
            && Before(qs, here) + 1 < |Flat(qs)| && Off(Flat(qs) + [End], Before(qs, here)) == Off(Flat(ps) + [End], KidToken(ps, path, n))
  {
    hide Flat, Put, At, IsAt, Before, Rebody;
    var p, child := At(ps, path), NodeP(name, []);
    var qs, here := Rebody(ps, path, n, 0, [child]), path + [n];
    RebodyKeepsOffset(ps, path, n, 0, [child]);
    var kids := At(qs, path).kids;
    assert kids[n] == child && kids[..n] == p.kids[..n];
    ChildPlace(qs, path, n);
    var rest := NodeTokens(qs, here);
    RebodyTokens(ps, path, n, 0, [child]);
    var k, ts, us := KidToken(ps, path, n), Flat(ps) + [End], Flat(qs) + [End];
    assert us[..k] == ts[..k];
  }

  /** Some stored child matches exactly when some child of the tree does. */
  lemma {:induction false} ChildMeans(kids: seq<Piece>, name: seq<Byte>, strs: seq<Byte>)
    ensures FirstChild(kids, name).Some? <==> HasChild(Items(kids, strs), name)
  {
    hide NameEq, NameOf, Items;
    ItemsHead(kids, strs);
    if kids != [] {
      ChildMeans(kids[1..], name, strs);
      var xs := Items(kids, strs);
      if !kids[0].NopP? { assert xs == [xs[0]] + xs[1..]; }
    }
  }

  ghost predicate HasChild(xs: seq<Item>, name: seq<Byte>) {
    exists x :: x in xs && x.N? && NameEq(x.name, name)
  }

  // ----- Changes below one node

  /** `qs` became `ps` by changes to the body of the node at `path` only. */
  ghost predicate Reshaped(qs: seq<Piece>, ps: seq<Piece>, path: seq<nat>) {
    && IsAt(qs, path) && At(qs, path).NodeP? && IsAt(ps, path) && At(ps, path).NodeP?
    && At(ps, path).name == At(qs, path).name && ps == Put(qs, path, [At(ps, path)])
  }

  lemma {:induction false} PutSame(ps: seq<Piece>, path: seq<nat>)
    requires IsAt(ps, path)
    ensures Put(ps, path, [At(ps, path)]) == ps
    decreases |path|
  {
    var i := path[0];
    assert ps == ps[..i] + [ps[i]] + ps[i + 1..];
    if |path| > 1 { PutSame(ps[i].kids, path[1..]); }
  }

  lemma {:induction false} PutTwice(ps: seq<Piece>, path: seq<nat>, x: Piece, y: Piece)
    requires IsAt(ps, path)
    ensures IsAt(Put(ps, path, [x]), path) && Put(Put(ps, path, [x]), path, [y]) == Put(ps, path, [y])
    decreases |path|
  {
    PutHere(ps, path, x);
    var i, qs := path[0], Put(ps, path, [x]);
    assert qs[..i] == ps[..i] && qs[i + 1..] == ps[i + 1..];
    if |path| > 1 {
      PutTwice(ps[i].kids, path[1..], x, y);
      assert qs[i] == ps[i].(kids := Put(ps[i].kids, path[1..], [x]));
    }
  }

  lemma {:induction false} PutChild(ps: seq<Piece>, path: seq<nat>, i: nat, x: Piece)
    requires IsAt(ps, path) && At(ps, path).NodeP? && i < |At(ps, path).kids|
    ensures IsAt(ps, path + [i])
    ensures Put(ps, path + [i], [x]) == Put(ps, path, [At(ps, path).(kids := At(ps, path).kids[i := x])])
    decreases |path|
  {
    ChildPlace(ps, path, i);
    var p := path + [i];
    if |path| > 1 {
      PutChild(ps[path[0]].kids, path[1..], i, x);
      assert p[1..] == path[1..] + [i];
    } else {
      assert p[1..] == [i];
      var kids := ps[path[0]].kids;
      assert kids[..i] + [x] + kids[i + 1..] == kids[i := x];
    }
  }

  lemma ReshapedNone(ps: seq<Piece>, path: seq<nat>)
    requires IsAt(ps, path) && At(ps, path).NodeP?
    ensures Reshaped(ps, ps, path)
  {
    PutSame(ps, path);
  }

  lemma ReshapedTwice(qs: seq<Piece>, rs: seq<Piece>, ps: seq<Piece>, path: seq<nat>)
    requires Reshaped(qs, rs, path) && Reshaped(rs, ps, path)
    ensures Reshaped(qs, ps, path)
  {
    PutTwice(qs, path, At(rs, path), At(ps, path));
  }

  /** Changes below a child are changes below its parent. */
  lemma ReshapedChild(qs: seq<Piece>, ps: seq<Piece>, path: seq<nat>, i: nat)
    requires IsAt(qs, path) && At(qs, path).NodeP? && i < |At(qs, path).kids| && Reshaped(qs, ps, path + [i])
    ensures Reshaped(qs, ps, path) && At(ps, path).kids == At(qs, path).kids[i := At(ps, path + [i])]
  {
    var x := At(ps, path + [i]);
    PutChild(qs, path, i, x);
    PutHere(qs, path, At(qs, path).(kids := At(qs, path).kids[i := x]));
  }

  lemma RebodyReshapes(ps: seq<Piece>, path: seq<nat>, j: nat, m: nat, rs: seq<Piece>)
    requires IsAt(ps, path) && At(ps, path).NodeP? && j + m <= |At(ps, path).kids|
    ensures Reshaped(ps, Rebody(ps, path, j, m, rs), path)
    ensures At(Rebody(ps, path, j, m, rs), path).kids == At(ps, path).kids[..j] + rs + At(ps, path).kids[j + m..]
  {
    var p := At(ps, path);
    PutHere(ps, path, NodeP(p.name, p.kids[..j] + rs + p.kids[j + m..]));
  }

  /** A node keeps its offset when only what is below it changes. */
  lemma ReshapedOffset(qs: seq<Piece>, ps: seq<Piece>, path: seq<nat>)
    requires Reshaped(qs, ps, path)
    ensures Before(ps, path) == Before(qs, path) && Before(qs, path) + 1 < |Flat(qs)| && Before(ps, path) + 1 < |Flat(ps)|
    ensures Off(Flat(ps) + [End], Before(ps, path)) == Off(Flat(qs) + [End], Before(qs, path))
  {
    var p, n := At(qs, path), |At(qs, path).kids|;
    var kids := At(ps, path).kids;
    assert p.kids[..0] + kids + p.kids[0 + n..] == kids;
    RebodyKeepsOffset(qs, path, 0, n, kids);
  }

  /** And the tree is the old one with that node's new body. */
  lemma ReshapedMeans(qs: seq<Piece>, ps: seq<Piece>, path: seq<nat>, strs: seq<Byte>, more: seq<Byte>)
    requires Reshaped(qs, ps, path) && Named(qs, strs)
    ensures HasItem(Items(qs, strs), ItemPath(qs, path, strs))
    ensures Items(ps, strs + more) ==
            Edit(Items(qs, strs), ItemPath(qs, path, strs), [N(At(qs, path).name, Items(At(ps, path).kids, strs + more))])
  {
    hide Items, Edit, ItemPath, HasItem, Put, At, IsAt, Named;
    var x := At(ps, path);
    ItemsKept(qs, strs, more);
    ItemPathKept(qs, path, strs, more);
    ItemsPut(qs, path, [x], strs + more);
    SingleProp(x, strs + more);
  }
}
