/** Node paths as text: writing the path of a node and finding the node of a path. */
module FdtPath {
  import opened Wrappers
  import opened FdtBytes
  import opened FdtTokens
  import opened FdtTree
  import opened FdtWalk
  import opened FdtSplice
  import opened FdtEdit
  import opened FdtRead
  import opened FdtBlob

  const SLASH: Byte := 47

  type Name = seq<Byte>

  // ----- The nodes open at a token

  /** The names of the open nodes, outermost first, after one more token. */
  function Step(st: seq<Name>, t: Token): seq<Name> {
    if t.Begin? then st + [t.name] else if t.EndNode? && st != [] then st[..|st| - 1] else st
  }

  function Opened(st: seq<Name>, ts: seq<Token>): seq<Name>
    decreases |ts|
  {
    if ts == [] then st else Opened(Step(st, ts[0]), ts[1..])
  }

  lemma {:induction false} OpenedConcat(st: seq<Name>, xs: seq<Token>, ys: seq<Token>)
    ensures Opened(st, xs + ys) == Opened(Opened(st, xs), ys)
    decreases |xs|
  {
    hide Step;
    if xs == [] {
      assert xs + ys == ys;
    } else {
      assert (xs + ys)[1..] == xs[1..] + ys;
      OpenedConcat(Step(st, xs[0]), xs[1..], ys);
    }
  }

  lemma OpenedOne(st: seq<Name>, t: Token)
    ensures Opened(st, [t]) == Step(st, t)
  {
    assert [t][1..] == [];
  }

  /** Whole pieces leave nothing open. */
  lemma {:induction false} OpenedFlat(st: seq<Name>, ps: seq<Piece>)
    ensures Opened(st, Flat(ps)) == st
    decreases ps
  {
    hide Opened;
    if ps == [] {
      assert Opened(st, []) == st by { OpenedNone(st); }
    } else {
      OpenedConcat(st, FlatOne(ps[0]), Flat(ps[1..]));
      OpenedFlat(st, ps[1..]);
      if ps[0].NodeP? {
        var name, kids := ps[0].name, ps[0].kids;
        OpenedConcat(st, [Begin(name)] + Flat(kids), [EndNode]);
        OpenedConcat(st, [Begin(name)], Flat(kids));
        OpenedOne(st, Begin(name));
        OpenedFlat(st + [name], kids);
        OpenedOne(st + [name], EndNode);
        assert (st + [name])[..|st|] == st;
      } else {
        OpenedOne(st, Head(ps[0]));
      }
    }
  }

  lemma OpenedNone(st: seq<Name>)
    ensures Opened(st, []) == st
  {
  }

  /** The names on the way to a node. */
  ghost function Names(ps: seq<Piece>, path: seq<nat>): (r: seq<Name>)
    requires IsAt(ps, path) && At(ps, path).NodeP?
    ensures |r| == |path|
    decreases |path|
  {
    [ps[path[0]].name] + if |path| == 1 then [] else Names(ps[path[0]].kids, path[1..])
  }

  /** At a node's opening token, the open nodes are the ones on the way to it. */
  lemma {:induction false} OpenedAt(st: seq<Name>, ps: seq<Piece>, path: seq<nat>)
    requires IsAt(ps, path) && At(ps, path).NodeP?
    ensures Before(ps, path) < |Flat(ps)| && Opened(st, Flat(ps)[..Before(ps, path) + 1]) == st + Names(ps, path)
    decreases |path|
  {
    hide Opened, Flat, FlatOne;
    var i := path[0];
    var name, kids := ps[i].name, ps[i].kids;
    EnterNode(ps, i);
    OpenedEnter(st, ps[..i], name);
    if |path| > 1 {
      var k := Before(kids, path[1..]) + 1;
      OpenedAt(st + [name], kids, path[1..]);
      EnterMore(ps, i, k);
      OpenedConcat(st, Flat(ps[..i]) + [Begin(name)], Flat(kids)[..k]);
      assert st + [name] + Names(kids, path[1..]) == st + Names(ps, path);
    }
  }

  lemma OpenedEnter(st: seq<Name>, ps: seq<Piece>, name: Name)
    ensures Opened(st, Flat(ps) + [Begin(name)]) == st + [name]
  {
    hide Opened, Flat;
    OpenedFlat(st, ps);
    OpenedOne(st, Begin(name));
    OpenedConcat(st, Flat(ps), [Begin(name)]);
  }

  lemma EnterNode(ps: seq<Piece>, i: nat)
    requires i < |ps| && ps[i].NodeP?
    ensures |Flat(ps[..i])| < |Flat(ps)| && Flat(ps)[..|Flat(ps[..i])| + 1] == Flat(ps[..i]) + [Begin(ps[i].name)]
  {
    hide Flat, FlatOne;
    var a := Flat(ps[..i]);
    FlatAround(ps, i);
    FlatNode(ps[i]);
    assert Flat(ps) == a + ([Begin(ps[i].name)] + (Flat(ps[i].kids) + ([EndNode] + Flat(ps[i + 1..]))));
  }

  lemma EnterMore(ps: seq<Piece>, i: nat, k: nat)
    requires i < |ps| && ps[i].NodeP? && k <= |Flat(ps[i].kids)|
    ensures var n := |Flat(ps[..i])| + 1 + k;
            n <= |Flat(ps)| && Flat(ps)[..n] == Flat(ps[..i]) + [Begin(ps[i].name)] + Flat(ps[i].kids)[..k]
  {
    hide Flat, FlatOne;
    var a, m := Flat(ps[..i]) + [Begin(ps[i].name)], Flat(ps[i].kids);
    FlatAround(ps, i);
    FlatNode(ps[i]);
    assert Flat(ps) == a + (m + ([EndNode] + Flat(ps[i + 1..])));
  }

  /** Inside pieces no node opened before them is closed. */
  lemma {:induction false} OpenedInside(st: seq<Name>, ps: seq<Piece>, k: nat)
    requires k <= |Flat(ps)|
    ensures |Opened(st, Flat(ps)[..k])| >= |st|
    decreases ps
  {
    hide Opened;
    OpenedNone(st);
    if ps != [] {
      var one := FlatOne(ps[0]);
      if k >= |one| {
        assert Flat(ps)[..k] == one + Flat(ps[1..])[..k - |one|];
        OpenedConcat(st, one, Flat(ps[1..])[..k - |one|]);
        FlatSingle(ps[0]);
        OpenedFlat(st, [ps[0]]);
        OpenedInside(st, ps[1..], k - |one|);
      } else if k == 0 {
        assert Flat(ps)[..0] == [];
      } else {
        var name, kids := ps[0].name, ps[0].kids;
        assert Flat(ps)[..k] == [Begin(name)] + Flat(kids)[..k - 1];
        OpenedConcat(st, [Begin(name)], Flat(kids)[..k - 1]);
        OpenedOne(st, Begin(name));
        OpenedInside(st + [name], kids, k - 1);
      }
    } else {
      assert Flat(ps)[..k] == [];
    }
  }

  lemma OpenedStep(st: seq<Name>, ts: seq<Token>, n: nat)
    requires 0 < n <= |ts|
    ensures Opened(st, ts[..n]) == Opened(Step(st, ts[0]), ts[1..][..n - 1])
  {
    hide Step;
    assert ts[..n][1..] == ts[1..][..n - 1];
  }

  /** What is open where a hop stops. */
  ghost predicate OpensTo(st: seq<Name>, ts: seq<Token>, n: Stop) {
    && (n.Node? ==> 1 <= n.depth <= |st| && n.index < |ts| && ts[n.index].Begin?
                    && Opened(st, ts[..n.index + 1]) == st[..n.depth] + [ts[n.index].name])
    && (n.Out? ==> n.index <= |ts| && Opened(st, ts[..n.index]) == [])
  }

  /** Hopping to the next node: what is open there. */
  lemma {:induction false} NextOpens(st: seq<Name>, ts: seq<Token>)
    requires st != []
    ensures OpensTo(st, ts, Next(ts, |st| - 1))
    decreases |ts|
  {
    hide Opened, Next, OpensTo;
    var d := |st| - 1;
    if ts == [] || ts[0].End? {
      NextEnds(ts, d);
      OpensLast(st, ts);
    } else {
      NextStep(ts, d);
      var now := Step(st, ts[0]);
      if ts[0].Begin? {
        OpensHere(st, ts);
      } else if ts[0].EndNode? && d == 0 {
        OpensOut(st, ts);
      } else {
        NextOpens(now, ts[1..]);
        OpensLater(st, ts, Next(ts[1..], |now| - 1));
      }
    }
  }

  lemma OpensLast(st: seq<Name>, ts: seq<Token>)
    ensures OpensTo(st, ts, Last)
  {
  }

  lemma OpensHere(st: seq<Name>, ts: seq<Token>)
    requires st != [] && ts != [] && ts[0].Begin?
    ensures OpensTo(st, ts, Node(0, |st|))
  {
    assert ts[..1] == [ts[0]] && st[..|st|] == st;
    OpenedOne(st, ts[0]);
  }

  lemma OpensOut(st: seq<Name>, ts: seq<Token>)
    requires |st| == 1 && ts != [] && ts[0].EndNode?
    ensures OpensTo(st, ts, Out(1))
  {
    assert ts[..1] == [ts[0]];
    OpenedOne(st, ts[0]);
  }

  lemma OpensLater(st: seq<Name>, ts: seq<Token>, n: Stop)
    requires st != [] && ts != [] && !ts[0].Begin? && OpensTo(Step(st, ts[0]), ts[1..], n)
    ensures OpensTo(st, ts, Skip(1, n))
  {
    hide Opened;
    var now := Step(st, ts[0]);
    if n.Node? {
      OpenedStep(st, ts, n.index + 2);
      assert now[..n.depth] == st[..n.depth];
    }
    if n.Out? { OpenedStep(st, ts, n.index + 1); }
  }

  /** Hopping to the next node passes over none. */
  lemma {:induction false} NextSkips(ts: seq<Token>, d: nat)
    requires forall k | 0 <= k < |ts| - 1 :: !ts[k].End?
    ensures var n := Next(ts, d); forall k | 0 <= k < (if n.Last? then |ts| else n.index) :: !ts[k].Begin?
    decreases |ts|
  {
    hide Next;
    if ts == [] || ts[0].End? {
      NextEnds(ts, d);
    } else {
      NextStep(ts, d);
      if !ts[0].Begin? && !(ts[0].EndNode? && d == 0) {
        NextSkips(ts[1..], if ts[0].EndNode? then d - 1 else d);
        assert forall k | 1 <= k < |ts| :: ts[k] == ts[1..][k - 1];
      }
    }
  }

  lemma NextEnds(ts: seq<Token>, d: nat)
    requires ts == [] || ts[0].End?
    ensures Next(ts, d) == Last
  {
  }

  // ----- Paths as text

  /** Each name followed by a slash. */
  function Joined(names: seq<Name>): seq<Byte> {
    if names == [] then [] else Joined(names[..|names| - 1]) + names[|names| - 1] + [SLASH]
  }

  /** The text of a path: the names with slashes between them, or one slash for the root. */
  function PathText(names: seq<Name>): seq<Byte> {
    var text := Joined(names);
    if |text| > 1 then text[..|text| - 1] else text
  }

  /** Each name after a slash. */
  function Slashed(names: seq<Name>): seq<Byte> {
    if names == [] then [] else [SLASH] + names[0] + Slashed(names[1..])
  }

  predicate Plain(names: seq<Name>) {
    forall i | 0 <= i < |names| :: SLASH !in names[i]
  }

  lemma {:induction false} JoinedSlashed(names: seq<Name>, last: Name)
    ensures [SLASH] + Joined(names + [last]) == Slashed(names) + [SLASH] + last + [SLASH]
    decreases |names|
  {
    var all := names + [last];
    assert all[..|names|] == names;
    if names == [] {
      assert Joined(names) == [] && Slashed(names) == [];
    } else {
      var n := |names| - 1;
      JoinedSlashed(names[..n], names[n]);
      assert names == names[..n] + [names[n]];
      SlashedAppend(names[..n], names[n]);
      assert [SLASH] + Joined(all) == ([SLASH] + Joined(names)) + (last + [SLASH]);
    }
  }

  lemma {:induction false} SlashedAppend(names: seq<Name>, last: Name)
    ensures Slashed(names + [last]) == Slashed(names) + [SLASH] + last
    decreases |names|
  {
    if names == [] {
      assert Slashed([last][1..]) == [];
      assert names + [last] == [last];
    } else {
      assert (names + [last])[1..] == names[1..] + [last];
      SlashedAppend(names[1..], last);
    }
  }

  /** From a nameless root, a path is its names, each after a slash. */
  lemma TextSlashed(names: seq<Name>)
    requires names != [] && names[0] == []
    ensures PathText(names) == if |names| == 1 then [SLASH] else Slashed(names[1..])
  {
    hide Joined, Slashed;
    var n := |names| - 1;
    var text := Joined(names);
    JoinedSlashed(names[..n], names[n]);
    SlashedAppend(names[..n], names[n]);
    assert names == names[..n] + [names[n]];
    assert [SLASH] + text == Slashed(names) + [SLASH];
    SlashedFirst(names);
    assert [SLASH] + text == [SLASH] + (Slashed(names[1..]) + [SLASH]);
    assert text == ([SLASH] + text)[1..];
    SlashedLong(names[1..]);
  }

  lemma SlashedFirst(names: seq<Name>)
    requires names != [] && names[0] == []
    ensures Slashed(names) == [SLASH] + Slashed(names[1..])
  {
  }

  lemma SlashedLong(names: seq<Name>)
    ensures if names == [] then Slashed(names) == [] else |Slashed(names)| >= 1
  {
  }

  /** The length of the first component of a text. */
  function Component(text: seq<Byte>): (n: nat)
    ensures n <= |text| && SLASH !in text[..n] && (n < |text| ==> text[n] == SLASH)
  {
    if text == [] || text[0] == SLASH then 0 else 1 + Component(text[1..])
  }

  lemma {:induction false} ComponentIs(name: Name, rest: seq<Byte>)
    requires SLASH !in name && (rest == [] || rest[0] == SLASH)
    ensures Component(name + rest) == |name|
  {
    if name == [] {
      assert name + rest == rest;
    } else {
      assert (name + rest)[1..] == name[1..] + rest;
      ComponentIs(name[1..], rest);
    }
  }

  /** Where a text leads, component by component, starting at a node with these entries. */
  function Resolve(kids: seq<Piece>, text: seq<Byte>): Option<seq<nat>>
    decreases |text|
  {
    if text == [] then Some([])
    else if text[0] == SLASH then Resolve(kids, text[1..])
    else
      var n := Component(text);
      match FirstChild(kids, text[..n])
      case None => None
      case Some(i) => Under(i, Resolve(kids[i].kids, text[n..]))
  }

  function Under(i: nat, r: Option<seq<nat>>): Option<seq<nat>> {
    match r
    case None => None
    case Some(path) => Some([i] + path)
  }

  /** Every node on the way has a name, and no earlier sibling that would be taken for it. */
  ghost predicate Addressable(kids: seq<Piece>, path: seq<nat>)
    requires path != [] ==> IsAt(kids, path) && At(kids, path).NodeP?
    decreases |path|
  {
    path == [] ||
    var i := path[0];
    && kids[i].name != []
    && (forall j | 0 <= j < i && kids[j].NodeP? :: !NameEq(kids[j].name, kids[i].name))
    && Addressable(kids[i].kids, path[1..])
  }

  lemma {:induction false} FirstIs(kids: seq<Piece>, i: nat, name: Name)
    requires i < |kids| && kids[i].NodeP? && NameEq(kids[i].name, name)
    ensures FirstChild(kids, name) == Some(i) <==> forall j | 0 <= j < i && kids[j].NodeP? :: !NameEq(kids[j].name, name)
  {
    hide NameEq;
    if i > 0 {
      FirstIs(kids[1..], i - 1, name);
      assert forall j | 0 <= j < i - 1 :: kids[1..][j] == kids[j + 1];
    }
  }

  /** One component, then the rest. */
  lemma ResolveStep(kids: seq<Piece>, name: Name, rest: seq<Byte>)
    requires SLASH !in name && (rest == [] || rest[0] == SLASH)
    ensures Resolve(kids, [SLASH] + name + rest) ==
            if name == [] then Resolve(kids, rest) else
            if FirstChild(kids, name).None? then None else
            Under(FirstChild(kids, name).value, Resolve(kids[FirstChild(kids, name).value].kids, rest))
  {
    hide FirstChild;
    var text := [SLASH] + name + rest;
    assert text[1..] == name + rest;
    if name == [] {
      assert name + rest == rest;
    } else {
      ComponentIs(name, rest);
      assert (name + rest)[..|name|] == name && (name + rest)[|name|..] == rest;
    }
  }

  lemma {:induction false} ResolveLength(kids: seq<Piece>, names: seq<Name>)
    requires Plain(names) && Resolve(kids, Slashed(names)).Some?
    ensures |Resolve(kids, Slashed(names)).value| <= |names|
    decreases |names|
  {
    hide Resolve, FirstChild;
    if names == [] {
      NothingLeft(kids);
    } else {
      var rest := Slashed(names[1..]);
      SlashedHead(names[1..]);
      ResolveStep(kids, names[0], rest);
      if names[0] == [] { ResolveLength(kids, names[1..]); } else { ResolveLength(kids[FirstChild(kids, names[0]).value].kids, names[1..]); }
    }
  }

  /** Names lead down a path: each one, empty ones skipped, to the first child that matches. */
  ghost predicate WalksTo(kids: seq<Piece>, names: seq<Name>, path: seq<nat>)
    decreases |names|
  {
    if names == [] then path == []
    else if names[0] == [] then WalksTo(kids, names[1..], path)
    else path != [] && FirstMatch(kids, names[0], path[0]) && WalksTo(kids[path[0]].kids, names[1..], path[1..])
  }

  /** An absolute path leads where its components do, however many slashes part them, and nowhere exactly when one of
      them matches no child. */
  lemma {:induction false} ResolveFinds(kids: seq<Piece>, names: seq<Name>)
    requires Plain(names)
    ensures var r := Resolve(kids, Slashed(names));
            if r.Some? then WalksTo(kids, names, r.value) else forall path :: !WalksTo(kids, names, path)
    decreases |names|
  {
    hide FirstChild, NameEq;
    if names == [] {
      NothingLeft(kids);
    } else {
      var rest := Slashed(names[1..]);
      SlashedHead(names[1..]);
      ResolveStep(kids, names[0], rest);
      if names[0] == [] {
        ResolveFinds(kids, names[1..]);
      } else {
        FirstChildIs(kids, names[0]);
        var i := FirstChild(kids, names[0]);
        if i.Some? {
          ResolveFinds(kids[i.value].kids, names[1..]);
          var r := Resolve(kids[i.value].kids, rest);
          if r.Some? { assert ([i.value] + r.value)[1..] == r.value; }
        }
      }
    }
  }

  /** Every absolute path is made of components. */
  lemma {:induction false} Splits(text: seq<Byte>) returns (names: seq<Name>)
    requires text == [] || text[0] == SLASH
    ensures Plain(names) && Slashed(names) == text
    decreases |text|
  {
    if text == [] {
      names := [];
    } else {
      var n := Component(text[1..]);
      var name, more := text[1..][..n], text[1..][n..];
      var others := Splits(more);
      names := [name] + others;
      assert names[1..] == others;
      assert text == [SLASH] + name + more;
    }
  }

  lemma NothingLeft(kids: seq<Piece>)
    ensures Resolve(kids, []) == Some([])
  {
  }

  lemma SlashedHead(names: seq<Name>)
    ensures Slashed(names) == [] || Slashed(names)[0] == SLASH
  {
  }

  /** The path of a node below another leads to it exactly when the node is addressable. */
  lemma {:induction false} ResolveBack(kids: seq<Piece>, path: seq<nat>)
    requires path != [] ==> IsAt(kids, path) && At(kids, path).NodeP?
    requires path != [] ==> Plain(Names(kids, path))
    ensures Resolve(kids, if path == [] then [] else Slashed(Names(kids, path))) == Some(path) <==> Addressable(kids, path)
    decreases |path|
  {
    hide Resolve, FirstChild, NameEq;
    if path == [] {
      NothingLeft(kids);
    } else {
      var i, names := path[0], Names(kids, path);
      var rest := Slashed(names[1..]);
      SlashedHead(names[1..]);
      ResolveStep(kids, names[0], rest);
      assert |path| > 1 ==> names[1..] == Names(kids[i].kids, path[1..]);
      if names[0] == [] {
        if Resolve(kids, rest).Some? { ResolveLength(kids, names[1..]); }
      } else {
        SameName(names[0]);
        FirstIs(kids, i, names[0]);
        ResolveBack(kids[i].kids, path[1..]);
        var r := Resolve(kids[i].kids, rest);
        if r.Some? { assert [i] + r.value == path <==> r.value == path[1..] by { assert path == [i] + path[1..]; assert ([i] + r.value)[1..] == r.value; } }
      }
    }
  }

  lemma SameName(name: Name)
    ensures NameEq(name, name)
  {
  }

  /** Finding a node by the text of its own path gives that node exactly when no node on the way is
      nameless or comes after a sibling that would be taken for it. */
  lemma PathRoundTrip(ps: seq<Piece>, path: seq<nat>)
    requires IsAt(ps, path) && At(ps, path).NodeP? && path[0] == 0
    requires ps[0].name == [] && Plain(Names(ps, path))
    ensures Resolve(ps[0].kids, PathText(Names(ps, path))) == Some(path[1..]) <==> Addressable(ps[0].kids, path[1..])
  {
    hide Resolve, PathText, FirstChild, NameEq;
    var names, kids := Names(ps, path), ps[0].kids;
    TextSlashed(names);
    if |path| > 1 { assert names[1..] == Names(kids, path[1..]); }
    ResolveBack(kids, path[1..]);
    SlashAlone(kids);
  }

  lemma SlashAlone(kids: seq<Piece>)
    ensures Resolve(kids, [SLASH]) == Some([])
  {
    assert [SLASH][1..] == [];
  }

  // ----- On the blob

  ghost predicate Rooted(ps: seq<Piece>) {
    ps != [] && ps[0].NodeP?
  }

  /** The first child of a node whose name matches. */
  method FindChild(fdt: Fdt, parent: nat, name: Name, ghost path: seq<nat>) returns (child: int, ghost i: nat)
    requires fdt.Valid() && (fdt.IsNode(parent) ==> fdt.OffsetOf(path, parent))
    ensures !fdt.IsNode(parent) ==> child == BADOFFSET
    ensures fdt.IsNode(parent) ==> match FirstChild(fdt.Kids(path), name)
                                   case None => child == NOTFOUND
                                   case Some(j) => i == j && child >= 0 && fdt.OffsetOf(path + [i], child)
  {
    hide Flat, Lexes, Named, At, IsAt, Before, Off, Seek, FirstChild, fdt.IsNode;
    i := 0;
    ghost var k := 0;
    if fdt.IsNode(parent) {
      NodeOffset(fdt.ps, path);
      NodeSeeks(fdt.ps, path, name);
      k := Before(fdt.ps, path);
      if FirstChild(fdt.Kids(path), name).Some? {
        i := FirstChild(fdt.Kids(path), name).value;
        ChildPlace(fdt.ps, path, i);
        var rest := NodeTokens(fdt.ps, path + [i]);
      }
    }
    child := fdt.SubnodeOffset(parent, name, k);
  }

  /** Where the root is, if the block starts with it. */
  lemma RootOffset(fdt: Fdt)
    requires fdt.Valid()
    ensures fdt.IsNode(0) <==> Rooted(fdt.ps)
    ensures Rooted(fdt.ps) ==> fdt.OffsetOf([0], 0) && fdt.Kids([0]) == fdt.ps[0].kids
  {
    hide Lexes, Named, Off;
    OffZero(fdt.Tokens());
    TagAtToken(fdt.Struct(), fdt.Tokens(), 0);
    FlatOpens(fdt.ps);
    if fdt.ps != [] { FlatHead(fdt.ps, [End]); }
    if Rooted(fdt.ps) {
      assert fdt.ps[..0] == [];
      NodeOffset(fdt.ps, [0]);
    }
  }

  ghost function Below(path: seq<nat>, r: Option<seq<nat>>): Option<seq<nat>> {
    match r
    case None => None
    case Some(more) => Some(path + more)
  }

  lemma BelowUnder(path: seq<nat>, i: nat, r: Option<seq<nat>>)
    ensures Below(path, Under(i, r)) == Below(path + [i], r) && Below([], r) == r
  {
    if r.Some? { assert path + ([i] + r.value) == (path + [i]) + r.value && [] + r.value == r.value; }
  }

  /** The node an absolute path leads to. */
  method PathOffset(fdt: Fdt, text: seq<Byte>) returns (r: int)
    requires fdt.Valid() && text != [] && text[0] == SLASH
    ensures !Rooted(fdt.ps) ==> r == if forall i | 0 <= i < |text| :: text[i] == SLASH then 0 else BADOFFSET
    ensures Rooted(fdt.ps) ==> match Resolve(fdt.ps[0].kids, text)
                               case None => r == NOTFOUND
                               case Some(path) => r >= 0 && fdt.OffsetOf([0] + path, r)
  {
    hide fdt.Valid, fdt.OffsetOf, fdt.IsNode, Resolve, FirstChild, Component;
    RootOffset(fdt);
    ghost var path: seq<nat> := [0];
    var p := 0;
    r := 0;
    assert text[0..] == text && path[1..] == [];
    if Rooted(fdt.ps) { BelowUnder([], 0, Resolve(fdt.ps[0].kids, text)); }
    while p < |text|
      invariant 0 <= p <= |text| && r >= 0 && path != [] && path[0] == 0
      invariant !Rooted(fdt.ps) ==> r == 0 && forall i | 0 <= i < p :: text[i] == SLASH
      invariant Rooted(fdt.ps) ==> fdt.OffsetOf(path, r)
      invariant Rooted(fdt.ps) ==> Resolve(fdt.ps[0].kids, text) == Below(path[1..], Resolve(fdt.Kids(path), text[p..]))
    {
      ghost var kids := if Rooted(fdt.ps) then fdt.Kids(path) else [];
      var start := p;
      p := SkipSlashes(text, p);
      ResolveSkips(kids, text, start, p);
      if p == |text| {
        assert text[p..] == [];
        NothingLeft(kids);
        assert path == [0] + (path[1..] + []);
        return;
      }
      var q := NextSlash(text, p);
      ResolveOne(kids, text, p, q);
      if Rooted(fdt.ps) { fdt.NodeIsNode(path, r); }
      ghost var i;
      r, i := FindChild(fdt, r, text[p..q], path);
      if r < 0 { return; }
      AtChild(fdt, path, i);
      assert (path + [i])[1..] == path[1..] + [i];
      BelowUnder(path[1..], i, Resolve(kids[i].kids, text[q..]));
      path := path + [i];
      p := q;
    }
    assert text[p..] == [];
    NothingLeft(if Rooted(fdt.ps) then fdt.Kids(path) else []);
    assert path == [0] + (path[1..] + []);
  }

  method SkipSlashes(text: seq<Byte>, from: nat) returns (p: nat)
    requires from <= |text|
    ensures from <= p <= |text| && (forall i | from <= i < p :: text[i] == SLASH) && (p < |text| ==> text[p] != SLASH)
  {
    p := from;
    while p < |text| && text[p] == SLASH
      invariant from <= p <= |text| && forall i | from <= i < p :: text[i] == SLASH
    {
      p := p + 1;
    }
  }

  method NextSlash(text: seq<Byte>, from: nat) returns (q: nat)
    requires from <= |text|
    ensures from <= q <= |text| && (forall i | from <= i < q :: text[i] != SLASH) && (q < |text| ==> text[q] == SLASH)
  {
    q := from;
    while q < |text| && text[q] != SLASH
      invariant from <= q <= |text| && forall i | from <= i < q :: text[i] != SLASH
    {
      q := q + 1;
    }
  }

  lemma {:induction false} ResolveSkips(kids: seq<Piece>, text: seq<Byte>, from: nat, p: nat)
    requires from <= p <= |text| && forall i | from <= i < p :: text[i] == SLASH
    ensures Resolve(kids, text[from..]) == Resolve(kids, text[p..])
    decreases p - from
  {
    if from < p {
      assert text[from..][1..] == text[from + 1..];
      ResolveSkips(kids, text, from + 1, p);
    }
  }

  lemma ResolveOne(kids: seq<Piece>, text: seq<Byte>, p: nat, q: nat)
    requires p < q <= |text| && (forall i | p <= i < q :: text[i] != SLASH) && (q < |text| ==> text[q] == SLASH)
    ensures Resolve(kids, text[p..]) == if FirstChild(kids, text[p..q]).None? then None else
            Under(FirstChild(kids, text[p..q]).value, Resolve(kids[FirstChild(kids, text[p..q]).value].kids, text[q..]))
  {
    hide FirstChild;
    assert text[p..] == text[p..q] + text[q..];
    ComponentIs(text[p..q], text[q..]);
  }

  lemma AtChild(fdt: Fdt, path: seq<nat>, i: nat)
    requires fdt.NodeAt(path) && i < |fdt.Kids(path)| && fdt.Kids(path)[i].NodeP?
    ensures fdt.NodeAt(path + [i]) && fdt.Kids(path + [i]) == fdt.Kids(path)[i].kids
  {
    ChildPlace(fdt.ps, path, i);
  }

  // ----- Writing a path

  /** The buffer holds the first `n` open nodes, as many as fit. */
  ghost predicate Held(out: seq<Byte>, p: nat, st: seq<Name>, n: nat) {
    && n <= |st| && p <= |out| && out[..p] == Joined(st[..n])
    && (n < |st| ==> |Joined(st[..n + 1])| > |out|)
  }

  lemma JoinedAppend(st: seq<Name>, name: Name)
    ensures Joined(st + [name]) == Joined(st) + name + [SLASH]
  {
    assert (st + [name])[..|st|] == st;
  }

  lemma JoinedTo(st: seq<Name>, n: nat)
    requires 0 < n <= |st|
    ensures Joined(st[..n]) == Joined(st[..n - 1]) + st[n - 1] + [SLASH]
  {
    assert st[..n][..n - 1] == st[..n - 1];
  }

  lemma {:induction false} JoinedGrows(st: seq<Name>, m: nat, n: nat)
    requires m <= n <= |st|
    ensures |Joined(st[..m])| <= |Joined(st[..n])|
    decreases n - m
  {
    hide Joined;
    if m < n {
      JoinedGrows(st, m, n - 1);
      JoinedTo(st, n);
    }
  }

  /** Takes the last name back off the buffer; taking the root's off reads in front of it. */
  method Pop(out: array<Byte>, p: nat, ghost st: seq<Name>, ghost n: nat) returns (q: nat, wild: bool)
    requires n <= |st| && p <= out.Length && out[..p] == Joined(st[..n]) && Plain(st)
    ensures wild <==> n <= 1
    ensures !wild ==> q <= p && out[..q] == Joined(st[..n - 1])
  {
    hide Joined;
    JoinedEnds(out[..], p, st, n);
    if p < 2 { return 0, true; }
    ghost var a := |Joined(st[..n - 1])|;
    q := p - 1;
    while out[q - 1] != SLASH
      invariant a <= q <= p - 1 && q > 0
      decreases q
    {
      q := q - 1;
      if q == 0 { return 0, true; }
    }
    wild := false;
    assert out[..q] == out[..p][..q];
  }

  /** Where the last name of a joined text starts. */
  lemma JoinedEnds(out: seq<Byte>, p: nat, st: seq<Name>, n: nat)
    requires n <= |st| && p <= |out| && out[..p] == Joined(st[..n]) && Plain(st)
    ensures n == 0 ==> p == 0
    ensures n > 0 ==> var a := |Joined(st[..n - 1])|;
                      && a < p && out[..a] == Joined(st[..n - 1]) && (forall i | a <= i < p - 1 :: out[i] != SLASH)
                      && (n == 1 ==> a == 0) && (n > 1 ==> a > 0 && out[a - 1] == SLASH)
  {
    assert Joined(st[..0]) == [] by { assert st[..0] == []; }
    hide Joined;
    if n > 0 {
      var a := Joined(st[..n - 1]);
      JoinedTo(st, n);
      if n > 1 { JoinedTo(st, n - 1); }
      assert out[..p][..|a|] == a;
      assert forall i | |a| <= i < p - 1 :: out[i] == out[..p][i] == st[n - 1][i - |a|];
      if n > 1 { assert out[|a| - 1] == out[..p][|a| - 1]; }
    }
  }

  /** Goes back to the parent of a node at that depth. */
  method Back(out: array<Byte>, p0: nat, n0: nat, depth: int, ghost st: seq<Name>) returns (p: nat, n: nat, wild: bool)
    requires Held(out[..], p0, st, n0) && Plain(st) && depth <= |st| && (depth == 0 ==> n0 == 0)
    ensures wild <==> depth < 0
    ensures !wild ==> n <= depth && Held(out[..], p, st[..depth], n)
  {
    hide Joined;
    p, n, wild := p0, n0, false;
    while n > depth
      invariant n <= |st| && p <= out.Length && out[..p] == Joined(st[..n]) && !wild
      invariant n <= n0 && (n < n0 ==> depth <= n)
    {
      p, wild := Pop(out, p, st, n);
      if wild { return; }
      n := n - 1;
    }
    assert st[..depth][..n] == st[..n];
    if n < depth { assert st[..depth][..n + 1] == st[..n + 1]; }
  }

  /** Adds the name of a node, if there is room and its parent had room. */
  method Emit(out: array<Byte>, p0: nat, n0: nat, depth: nat, name: Name, ghost st: seq<Name>) returns (p: nat, n: nat)
    requires Held(out[..], p0, st, n0) && |st| == depth
    modifies out
    ensures Held(out[..], p, st + [name], n)
  {
    hide Joined;
    p, n := p0, n0;
    ghost var now := st + [name];
    assert now[..n] == st[..n];
    if n < depth {
      assert now[..n + 1] == st[..n + 1];
    } else {
      JoinedAppend(st, name);
      assert now[..depth + 1] == now && st[..depth] == st;
      if p + |name| + 1 <= out.Length {
        ghost var was := out[..p];
        WriteAt(out, p, name);
        p := p + |name|;
        out[p] := SLASH;
        p := p + 1;
        n := n + 1;
        assert out[..p] == was + name + [SLASH];
      }
    }
  }

  /** One past the closing token of the root. */
  ghost function RootEnd(ps: seq<Piece>): nat
    requires Rooted(ps)
  {
    |Flat(ps[0].kids)| + 2
  }

  ghost predicate PlainTokens(ts: seq<Token>) {
    forall k | 0 <= k < |ts| && ts[k].Begin? :: SLASH !in ts[k].name
  }

  lemma {:induction false} FlatNoEnd(ps: seq<Piece>)
    ensures forall k | 0 <= k < |Flat(ps)| :: !Flat(ps)[k].End?
    decreases ps
  {
    if ps != [] {
      FlatNoEnd(ps[1..]);
      var one := FlatOne(ps[0]);
      if ps[0].NodeP? {
        FlatNoEnd(ps[0].kids);
        assert forall k | 0 < k < |one| - 1 :: one[k] == Flat(ps[0].kids)[k - 1];
      }
      assert forall k | |one| <= k < |Flat(ps)| :: Flat(ps)[k] == Flat(ps[1..])[k - |one|];
    }
  }

  /** No node-opening token before index `j` starts at the offset. */
  ghost predicate Passed(ts: seq<Token>, j: nat, target: int)
    requires j <= |ts|
  {
    forall k | 0 <= k < j && ts[k].Begin? :: Off(ts, k) != target
  }

  /** At the token `j`, opening a node `depth` levels below the root, after the names `st`. */
  ghost predicate Arrived(ts: seq<Token>, j: nat, st: seq<Name>, depth: int) {
    && j < |ts| && ts[j].Begin? && 0 <= depth <= |st|
    && Opened([], ts[..j + 1]) == st[..depth] + [ts[j].name]
  }

  /** The hop from one node to the next, until the root closes. */
  lemma Hop(ps: seq<Piece>, j: nat, st: seq<Name>, depth: int, target: int)
    requires Rooted(ps) && Arrived(Flat(ps) + [End], j, st, depth) && j < RootEnd(ps) <= |Flat(ps)|
    requires Passed(Flat(ps) + [End], j, target) && Off(Flat(ps) + [End], j) < target
    ensures var ts := Flat(ps) + [End];
            var n := Next(ts[j + 1..], depth);
            && (n.Node? ==> j + 1 + n.index < RootEnd(ps) && Arrived(ts, j + 1 + n.index, st[..depth] + [ts[j].name], n.depth)
                            && n.depth >= 1 && Passed(ts, j + 1 + n.index, target))
            && (n.Out? ==> j + 1 + n.index == RootEnd(ps) && Passed(ts, RootEnd(ps), target))
            && !n.Last?
  {
    hide Flat, Opened, Next, Off, RootEnd;
    var ts, k := Flat(ps) + [End], RootEnd(ps) - (j + 1);
    var now, us := st[..depth] + [ts[j].name], ts[j + 1..];
    var n := Next(us, depth);
    FlatNoEnd(ps);
    NextOpens(now, us);
    NextSkips(us, depth);
    RootCloses(ps);
    OpenedFrom(ts, j + 1, RootEnd(ps));
    NextStays(now, us, k);
    PassOne(ts, j, target);
    var m := j + 1 + n.index;
    if n.Node? {
      OpenedFrom(ts, j + 1, m + 1);
      PassMore(ts, j + 1, m, target);
    } else {
      OpenedFrom(ts, j + 1, m);
      ClosedAt(ps, m);
      PassMore(ts, j + 1, m, target);
    }
  }

  lemma OpenedFrom(ts: seq<Token>, j: nat, m: nat)
    requires j <= m <= |ts|
    ensures Opened([], ts[..m]) == Opened(Opened([], ts[..j]), ts[j..][..m - j])
  {
    hide Opened;
    assert ts[..m] == ts[..j] + ts[j..][..m - j];
    OpenedConcat([], ts[..j], ts[j..][..m - j]);
  }

  /** After the root's closing token nothing is open. */
  lemma RootCloses(ps: seq<Piece>)
    requires Rooted(ps)
    ensures RootEnd(ps) <= |Flat(ps)| && Opened([], (Flat(ps) + [End])[..RootEnd(ps)]) == []
  {
    hide Flat, FlatOne, Opened;
    FlatNode(ps[0]);
    FlatSingle(ps[0]);
    FlatConcat([ps[0]], ps[1..]);
    assert ps == [ps[0]] + ps[1..];
    OpenedFlat([], [ps[0]]);
    assert (Flat(ps) + [End])[..RootEnd(ps)] == Flat([ps[0]]);
  }

  /** Where nothing is open any more, the hop has stopped. */
  lemma {:induction false} NextStays(st: seq<Name>, ts: seq<Token>, k: nat)
    requires st != [] && k <= |ts| && Opened(st, ts[..k]) == [] && forall i | 0 <= i < |ts| - 1 :: !ts[i].End?
    requires k < |ts|
    ensures var n := Next(ts, |st| - 1);
            !n.Last? && (n.Node? ==> n.index < k) && (n.Out? ==> n.index <= k)
    decreases |ts|
  {
    hide Opened, Next;
    if k == 0 {
      assert ts[..0] == [];
      OpenedNone(st);
    } else {
      NextStep(ts, |st| - 1);
      OpenedStep(st, ts, k);
      var now := Step(st, ts[0]);
      if !ts[0].Begin? && now != [] { NextStays(now, ts[1..], k - 1); }
    }
  }

  lemma PassOne(ts: seq<Token>, j: nat, target: int)
    requires j < |ts| && Passed(ts, j, target) && Off(ts, j) < target
    ensures Passed(ts, j + 1, target)
  {
    hide Off;
  }

  lemma PassMore(ts: seq<Token>, j: nat, m: nat, target: int)
    requires j <= m <= |ts| && Passed(ts, j, target) && forall k | 0 <= k < m - j :: !ts[j..][k].Begin?
    ensures Passed(ts, m, target)
  {
    hide Off;
    assert forall k | j <= k < m :: ts[k] == ts[j..][k - j];
  }

  lemma PassRest(ts: seq<Token>, m: nat, target: int)
    requires m <= |ts| && Passed(ts, m, target) && target < Off(ts, m)
    ensures Passed(ts, |ts|, target)
  {
    hide Off;
    forall k | 0 <= k < |ts| && ts[k].Begin? ensures Off(ts, k) != target {
      if k >= m { OffMonotone(ts, m, k); }
    }
  }

  /** With nothing open any more, the root is closed. */
  lemma ClosedAt(ps: seq<Piece>, m: nat)
    requires Rooted(ps) && 0 < m <= |Flat(ps) + [End]| && Opened([], (Flat(ps) + [End])[..m]) == []
    ensures m >= RootEnd(ps)
  {
    hide Opened, Flat;
    var ts, kids, name := Flat(ps) + [End], ps[0].kids, ps[0].name;
    FlatHead(ps, [End]);
    if m < RootEnd(ps) {
      assert ts[..m] == [Begin(name)] + Flat(kids)[..m - 1] by { assert ts[..m] == [ts[0]] + ts[1..][..m - 1]; }
      OpenedConcat([], [Begin(name)], Flat(kids)[..m - 1]);
      OpenedOne([], Begin(name));
      assert [] + [name] == [name];
      OpenedInside([name], kids, m - 1);
    }
  }

  /** The offset is before the end of the root node. */
  ghost predicate InRoot(ps: seq<Piece>, target: int) {
    Rooted(ps) && RootEnd(ps) <= |Flat(ps)| && target < Off(Flat(ps) + [End], RootEnd(ps))
  }

  ghost predicate Clean(names: seq<Name>) {
    forall i | 0 <= i < |names| :: SLASH !in names[i] && 0 !in names[i]
  }

  lemma {:induction false} JoinedClean(names: seq<Name>)
    requires Clean(names)
    ensures 0 !in Joined(names)
    decreases |names|
  {
    if names != [] { JoinedClean(names[..|names| - 1]); }
  }

  /** Names in the block have no terminator inside. */
  lemma NameClean(fdt: Fdt, st: seq<Name>, depth: nat, j: nat)
    requires fdt.Valid() && PlainTokens(fdt.Tokens()) && j < |fdt.Tokens()| && fdt.Tokens()[j].Begin? && Clean(st) && depth <= |st|
    ensures Clean(st[..depth] + [fdt.Tokens()[j].name])
  {
    hide Flat, Lexes, Named, Off, Len;
    TokenAt(fdt.Struct(), fdt.Tokens(), j);
  }

  /** What asking for a path gives: the terminated text if it fits. */
  ghost predicate Spelled(out: seq<Byte>, r: int, names: seq<Name>) {
    if |Joined(names)| > |out| then r == NOSPACE else
    var text := PathText(names);
    r == 0 && |text| < |out| && out[..|text|] == text && out[|text|] == 0 && 0 !in text
  }

  /** The names on the way to the node at an offset, from the tokens before it. */
  lemma NamesAt(ps: seq<Piece>, j: nat, path: seq<nat>)
    requires j < |Flat(ps)| + 1 && IsAt(ps, path) && At(ps, path).NodeP? && Before(ps, path) < |Flat(ps)|
    requires Off(Flat(ps) + [End], j) == Off(Flat(ps) + [End], Before(ps, path))
    ensures Opened([], (Flat(ps) + [End])[..j + 1]) == Names(ps, path)
  {
    hide Flat, Opened, Off, At, IsAt, Before, Names;
    var ts, k := Flat(ps) + [End], Before(ps, path);
    if j < k { OffMonotone(ts, j, k); } else { OffMonotone(ts, k, j); }
    OpenedAt([], ps, path);
    assert ts[..k + 1] == Flat(ps)[..k + 1];
    assert [] + Names(ps, path) == Names(ps, path);
  }

  /** A node-opening token at an offset is a node at that offset. */
  lemma NodeOf(fdt: Fdt, j: nat, target: int)
    requires j < |fdt.Tokens()| && fdt.Tokens()[j].Begin? && Off(fdt.Tokens(), j) == target
    ensures exists path :: fdt.OffsetOf(path, target)
  {
    hide Flat, Off, At, IsAt, Before;
    var path := PathOf(fdt.ps, j);
    NodeOffset(fdt.ps, path);
    assert fdt.OffsetOf(path, target);
  }

  lemma NoneAt(fdt: Fdt, target: int)
    requires Passed(fdt.Tokens(), |fdt.Tokens()|, target)
    ensures forall path :: !fdt.OffsetOf(path, target)
  {
    hide Flat, Off, At, IsAt, Before;
    forall path ensures !fdt.OffsetOf(path, target) {
      if fdt.OffsetOf(path, target) { NodeOffset(fdt.ps, path); }
    }
  }

  /** Ends the path with a terminator in place of its last slash. */
  method Finish(out: array<Byte>, p: nat, n: nat, depth: nat, ghost st: seq<Name>) returns (r: int)
    requires out.Length >= 2 && |st| == depth + 1 && Held(out[..], p, st, n) && Clean(st)
    modifies out
    ensures Spelled(out[..], r, st)
  {
    hide Held, Spelled;
    HeldParts(out[..], p, st, n);
    if n < depth + 1 {
      r := NOSPACE;
      return;
    }
    ghost var was := out[..];
    var q := if p > 1 then p - 1 else p;
    out[q] := 0;
    assert out[..] == was[q := 0];
    Terminates(was, p, st, n);
    r := 0;
  }

  lemma HeldParts(out: seq<Byte>, p: nat, st: seq<Name>, n: nat)
    requires |out| >= 2 && st != [] && Held(out, p, st, n)
    ensures n <= |st| && p <= |out| && (n < |st| ==> Spelled(out, NOSPACE, st)) && (n == |st| ==> p > 0)
  {
    hide Joined;
    assert st[..|st|] == st;
    if n < |st| { JoinedGrows(st, n + 1, |st|); } else { JoinedTo(st, |st|); }
  }

  lemma Terminates(was: seq<Byte>, p: nat, st: seq<Name>, n: nat)
    requires |was| >= 2 && st != [] && Held(was, p, st, n) && n == |st| && Clean(st) && 0 < p <= |was|
    ensures var q := if p > 1 then p - 1 else p; Spelled(was[q := 0], 0, st)
  {
    hide Joined, Clean;
    assert st[..|st|] == st;
    JoinedClean(st);
    var q := if p > 1 then p - 1 else p;
    var text := was[..p];
    assert text[..q] == was[..q] == was[q := 0][..q];
    assert 0 !in text[..q];
  }

  lemma Entry(fdt: Fdt, out: seq<Byte>, target: int)
    requires fdt.Valid()
    ensures Held(out, 0, [], 0)
    ensures Rooted(fdt.ps) ==> Standing(fdt.ps, 0, [], 0, 0, target)
  {
    assert Joined([]) == [];
    hide fdt.Valid, Joined, Standing;
    if Rooted(fdt.ps) { AtRoot(fdt.ps, target); }
  }

  lemma AtRoot(ps: seq<Piece>, target: int)
    requires Rooted(ps)
    ensures Standing(ps, 0, [], 0, 0, target)
  {
    hide Flat, Off, Opened;
    var ts := Flat(ps) + [End];
    OffZero(ts);
    FlatHead(ps, [End]);
    assert ts[..1] == [ts[0]];
    OpenedOne([], ts[0]);
    RootCloses(ps);
  }

  /** A walk that has passed the offset shows there is no node at it. */
  lemma Beyond(fdt: Fdt, j: nat, st: seq<Name>, depth: int, offset: int, target: int)
    requires Standing(fdt.ps, j, st, depth, offset, target) && !(0 <= offset <= target)
    ensures InRoot(fdt.ps, target) && forall path :: !fdt.OffsetOf(path, target)
  {
    StandingParts(fdt.ps, j, st, depth, offset, target);
    hide Flat, Off, Passed, Arrived;
    RootCloses(fdt.ps);
    if depth >= 0 { OffMonotone(fdt.Tokens(), j, RootEnd(fdt.ps)); }
    PassRest(fdt.Tokens(), j, target);
    NoneAt(fdt, target);
  }

  lemma FoundAt(fdt: Fdt, j: nat, st: seq<Name>, depth: int, target: int, out: seq<Byte>, r: int)
    requires Standing(fdt.ps, j, st, depth, target, target) && depth >= 0 && j < |fdt.Tokens()| && fdt.Tokens()[j].Begin?
    requires Spelled(out, r, st[..depth] + [fdt.Tokens()[j].name])
    ensures exists path :: fdt.OffsetOf(path, target)
    ensures forall path | fdt.OffsetOf(path, target) :: Spelled(out, r, Names(fdt.ps, path))
  {
    hide Flat, Off, IsAt, At, Before, Spelled, Names, Opened;
    NodeOf(fdt, j, target);
    forall path | fdt.OffsetOf(path, target) ensures Spelled(out, r, Names(fdt.ps, path)) {
      NamesAt(fdt.ps, j, path);
    }
  }

  /** Where the walk stands: at a node inside the root, or just past the root's closing token. */
  ghost predicate Standing(ps: seq<Piece>, j: nat, st: seq<Name>, depth: int, offset: int, target: int) {
    && Rooted(ps) && depth <= |st| && Clean(st) && RootEnd(ps) <= |Flat(ps)| && j <= RootEnd(ps)
    && offset == Off(Flat(ps) + [End], j) && Passed(Flat(ps) + [End], j, target)
    && if depth < 0 then j == RootEnd(ps) else j < RootEnd(ps) && Arrived(Flat(ps) + [End], j, st, depth)
  }

  lemma StandingParts(ps: seq<Piece>, j: nat, st: seq<Name>, depth: int, offset: int, target: int)
    requires Standing(ps, j, st, depth, offset, target)
    ensures Rooted(ps) && depth <= |st| && Clean(st) && Plain(st) && j <= RootEnd(ps) <= |Flat(ps)|
    ensures offset == Off(Flat(ps) + [End], j) >= 0 && Passed(Flat(ps) + [End], j, target)
    ensures depth >= 0 ==> j < RootEnd(ps) && (Flat(ps) + [End])[j].Begin? && Arrived(Flat(ps) + [End], j, st, depth)
    ensures depth < 0 ==> j == RootEnd(ps)
    ensures depth < 0 && offset <= target ==> !InRoot(ps, target)
    ensures depth >= 0 && offset == target ==> InRoot(ps, target)
  {
    hide Flat, Off, Passed, Opened;
    if depth >= 0 { OffMonotone(Flat(ps) + [End], j, RootEnd(ps)); }
  }

  /** The next place the walk stands at. */
  lemma StandingHop(fdt: Fdt, j: nat, st: seq<Name>, depth: int, offset: int, target: int, after: int)
    requires fdt.Valid() && PlainTokens(fdt.Tokens()) && Standing(fdt.ps, j, st, depth, offset, target)
    requires 0 <= depth && offset < target && j < |fdt.Tokens()| && fdt.Tokens()[j].Begin?
    requires var n := Next(fdt.Tokens()[j + 1..], depth); (n.Node? ==> after == n.depth) && (n.Out? ==> after < 0)
    ensures var ts := fdt.Tokens();
            var n, now := Next(ts[j + 1..], depth), st[..depth] + [ts[j].name];
            !n.Last? && j + 1 + n.index < |ts| && after != 0 && Standing(fdt.ps, j + 1 + n.index, now, after, Off(ts, j + 1 + n.index), target)
  {
    hide Flat, Off, Passed, Arrived, Opened, Next, Lexes, Named, Clean, RootEnd, PlainTokens, Standing;
    var ts, ps := fdt.Tokens(), fdt.ps;
    StandingParts(ps, j, st, depth, offset, target);
    NameClean(fdt, st, depth, j);
    Hop(ps, j, st, depth, target);
    var n, now := Next(ts[j + 1..], depth), st[..depth] + [ts[j].name];
    if n.Node? {
      ArrivedDepth(ts, j + 1 + n.index, now, after);
      StandingAt(ps, j + 1 + n.index, now, after, target);
    } else {
      StandingOut(ps, now, after, target);
    }
  }

  lemma ArrivedDepth(ts: seq<Token>, j: nat, st: seq<Name>, depth: int)
    requires Arrived(ts, j, st, depth)
    ensures 0 <= depth <= |st|
  {
  }

  lemma StandingAt(ps: seq<Piece>, j: nat, st: seq<Name>, depth: nat, target: int)
    requires Rooted(ps) && j < RootEnd(ps) <= |Flat(ps)| && Clean(st) && depth <= |st|
    requires Arrived(Flat(ps) + [End], j, st, depth) && Passed(Flat(ps) + [End], j, target)
    ensures Standing(ps, j, st, depth, Off(Flat(ps) + [End], j), target)
  {
  }

  lemma StandingOut(ps: seq<Piece>, st: seq<Name>, depth: int, target: int)
    requires Rooted(ps) && RootEnd(ps) <= |Flat(ps)| && Clean(st) && depth < 0 && Passed(Flat(ps) + [End], RootEnd(ps), target)
    ensures Standing(ps, RootEnd(ps), st, depth, Off(Flat(ps) + [End], RootEnd(ps)), target)
  {
  }

  /** One node of the walk: back to its parent, then its name. */
  method Visit(fdt: Fdt, out: array<Byte>, p0: nat, n0: nat, offset: nat, depth: int, ghost j: nat, ghost st: seq<Name>, ghost target: int)
    returns (p: nat, n: nat, wild: bool, found: bool)
    requires fdt.Valid() && out != fdt.buf && Held(out[..], p0, st, n0) && (depth == 0 ==> n0 == 0)
    requires if Rooted(fdt.ps) then Standing(fdt.ps, j, st, depth, offset, target) else offset == depth == 0 && st == []
    modifies out
    ensures wild <==> depth < 0
    ensures !wild ==> found == Rooted(fdt.ps) && depth <= |st|
    ensures !wild && found ==> j < |fdt.Tokens()| && fdt.Tokens()[j].Begin? && Held(out[..], p, st[..depth] + [fdt.Tokens()[j].name], n)
  {
    hide Flat, Lexes, Named, Off, Held, Standing, Passed, Arrived, RootEnd, Clean, InRoot, fdt.IsNode;
    RootOffset(fdt);
    if Rooted(fdt.ps) { StandingParts(fdt.ps, j, st, depth, offset, target); }
    found := false;
    p, n, wild := Back(out, p0, n0, depth, st);
    if wild { return; }
    if Rooted(fdt.ps) { fdt.TokenIsNode(offset, j); }
    var body := fdt.CheckNodeOffset(offset);
    if body < 0 { return; }
    found := true;
    var name := fdt.NameAt(offset, j);
    p, n := Emit(out, p, n, depth, name, st[..depth]);
  }

  /** Writes the path of the node at an offset. Past the root's closing token the source's walk goes on
      and reads in front of its buffer. */
  method GetPath(fdt: Fdt, target: int, out: array<Byte>) returns (r: int, wild: bool)
    requires fdt.Valid() && out != fdt.buf && PlainTokens(fdt.Tokens())
    modifies out
    ensures wild <==> out.Length >= 2 && Rooted(fdt.ps) && !InRoot(fdt.ps, target)
    ensures out.Length < 2 ==> r == NOSPACE
    ensures out.Length >= 2 && !wild && (!Rooted(fdt.ps) || forall path :: !fdt.OffsetOf(path, target)) ==> r == BADOFFSET
    ensures out.Length >= 2 && !wild && Rooted(fdt.ps) ==>
              forall path | fdt.OffsetOf(path, target) :: Spelled(out[..], r, Names(fdt.ps, path))
  {
    hide Flat, Lexes, Named, Off, Next, Names, Spelled, Held, Standing, Passed, Arrived, InRoot, PlainTokens, fdt.OffsetOf, RootEnd, Clean;
    r, wild := NOSPACE, false;
    if out.Length < 2 { return; }
    ghost var ts, j, st: seq<Name> := fdt.Tokens(), 0, [];
    var offset, depth, p, n := 0, 0, 0, 0;
    Entry(fdt, out[..], target);
    r := BADOFFSET;
    while 0 <= offset <= target
      invariant Held(out[..], p, st, n) && r == BADOFFSET && !wild
      invariant if Rooted(fdt.ps) then Standing(fdt.ps, j, st, depth, offset, target) else offset == depth == 0 && st == []
      invariant j < |ts| && (depth == 0 ==> n == 0)
      decreases |ts| - j, depth
    {
      if Rooted(fdt.ps) { StandingParts(fdt.ps, j, st, depth, offset, target); }
      var found;
      p, n, wild, found := Visit(fdt, out, p, n, offset, depth, j, st, target);
      if wild || !found { return; }
      NameClean(fdt, st, depth, j);
      ghost var was, at, up := st, offset, depth;
      st := st[..depth] + [ts[j].name];
      if offset == target {
        r := Finish(out, p, n, depth, st);
        FoundAt(fdt, j, was, depth, target, out[..], r);
        return;
      }
      ghost var s := Next(ts[j + 1..], depth);
      fdt.TokenIsNode(offset, j);
      offset, depth := fdt.NextNode(offset, depth, j + 1);
      StandingHop(fdt, j, was, up, at, target, depth);
      j := j + 1 + s.index;
    }
    if Rooted(fdt.ps) { Beyond(fdt, j, st, depth, offset, target); }
  }

  /** The smallest tree and the offset of its end token: asking for a path there reads in front of the
      buffer. */
  lemma WildInput(block: seq<Byte>)
    requires block == [0, 0, 0, 1, 0, 0, 0, 0, 0, 0, 0, 2, 0, 0, 0, 9]
    ensures Parses(block, [NodeP([], [])]) && Rooted([NodeP([], [])]) && !InRoot([NodeP([], [])], 12)
  {
    EmptyNode([]);
    assert Flat([]) == [];
    hide Flat, Lexes, Holds;
    var a: seq<Byte>, b: seq<Byte>, c: seq<Byte> := block[..8], block[8..12], block[12..];
    HeldTokens(a, b, c);
    LexesOne(a, Begin([]));
    LexesOne(b, EndNode);
    LexesOne(c, End);
    LexesConcat(a, b, [Begin([])], [EndNode]);
    LexesConcat(a + b, c, [Begin([])] + [EndNode], [End]);
    SizeConcat([Begin([])], [EndNode]);
    assert a + b + c == block;
    assert ([Begin([])] + [EndNode] + [End])[..2] == [Begin([])] + [EndNode];
  }

  lemma HeldTokens(a: seq<Byte>, b: seq<Byte>, c: seq<Byte>)
    requires a == [0, 0, 0, 1, 0, 0, 0, 0] && b == [0, 0, 0, 2] && c == [0, 0, 0, 9]
    ensures Holds(a, Begin([])) && Holds(b, EndNode) && Holds(c, End)
  {
    assert a[..4] == [0, 0, 0, 1] && a[4..4] == [] && b[..4] == b && c[..4] == c;
  }

  // ----- There and back

  lemma {:induction false} BeforeBound(ps: seq<Piece>, path: seq<nat>)
    requires IsAt(ps, path) && At(ps, path).NodeP?
    ensures Before(ps, path) < |Flat(ps[..path[0] + 1])|
    decreases |path|
  {
    hide Flat, FlatOne;
    var i := path[0];
    assert ps[..i + 1] == ps[..i] + [ps[i]];
    FlatConcat(ps[..i], [ps[i]]);
    FlatSingle(ps[i]);
    FlatNode(ps[i]);
    if |path| > 1 {
      BeforeBound(ps[i].kids, path[1..]);
      FlatPrefix(ps[i].kids, path[1] + 1, |ps[i].kids|);
      assert ps[i].kids[..|ps[i].kids|] == ps[i].kids;
    }
  }

  lemma FlatPrefix(ps: seq<Piece>, i: nat, j: nat)
    requires i <= j <= |ps|
    ensures |Flat(ps[..i])| <= |Flat(ps[..j])|
  {
    hide Flat;
    assert ps[..j] == ps[..i] + ps[i..j];
    FlatConcat(ps[..i], ps[i..j]);
  }

  lemma BeforeOrder(ps: seq<Piece>, p: seq<nat>, q: seq<nat>)
    requires IsAt(ps, p) && At(ps, p).NodeP? && IsAt(ps, q) && p[0] < q[0]
    ensures Before(ps, p) < Before(ps, q)
  {
    hide Flat;
    BeforeBound(ps, p);
    FlatPrefix(ps, p[0] + 1, q[0]);
  }

  /** A node's place in the block determines its path. */
  lemma {:induction false} BeforeInjective(ps: seq<Piece>, p: seq<nat>, q: seq<nat>)
    requires IsAt(ps, p) && At(ps, p).NodeP? && IsAt(ps, q) && At(ps, q).NodeP? && Before(ps, p) == Before(ps, q)
    ensures p == q
    decreases |p|
  {
    hide Flat;
    if p[0] < q[0] {
      BeforeOrder(ps, p, q);
    } else if q[0] < p[0] {
      BeforeOrder(ps, q, p);
    } else {
      if |p| > 1 && |q| > 1 { BeforeInjective(ps[p[0]].kids, p[1..], q[1..]); }
      assert p == [p[0]] + p[1..] && q == [q[0]] + q[1..];
    }
  }

  lemma OffsetUnique(fdt: Fdt, p: seq<nat>, q: seq<nat>, offset: int)
    requires fdt.OffsetOf(p, offset) && fdt.OffsetOf(q, offset)
    ensures p == q
  {
    hide Flat, Off, IsAt, At, Before;
    var ts, i, j := fdt.Tokens(), Before(fdt.ps, p), Before(fdt.ps, q);
    if i < j { OffMonotone(ts, i, j); } else { OffMonotone(ts, j, i); }
    BeforeInjective(fdt.ps, p, q);
  }

  /** A node below the first root is inside it. */
  lemma NodeInRoot(fdt: Fdt, path: seq<nat>, offset: int)
    requires fdt.OffsetOf(path, offset) && path[0] == 0
    ensures Rooted(fdt.ps) && InRoot(fdt.ps, offset)
  {
    hide Flat, FlatOne, Off;
    var ps := fdt.ps;
    assert Rooted(ps) by { if |path| > 1 { assert ps[0].NodeP?; } }
    RootCloses(ps);
    BeforeBound(ps, path);
    assert ps[..1] == [ps[0]];
    FlatSingle(ps[0]);
    FlatNode(ps[0]);
    OffMonotone(fdt.Tokens(), Before(ps, path), RootEnd(ps));
  }

  lemma {:induction false} OpenedPlain(st: seq<Name>, ts: seq<Token>)
    requires Plain(st) && PlainTokens(ts)
    ensures Plain(Opened(st, ts))
    decreases |ts|
  {
    if ts != [] {
      assert forall k | 0 <= k < |ts[1..]| :: ts[1..][k] == ts[k + 1];
      OpenedPlain(Step(st, ts[0]), ts[1..]);
    }
  }

  lemma PathIsPlain(fdt: Fdt, path: seq<nat>)
    requires fdt.NodeAt(path) && PlainTokens(fdt.Tokens())
    ensures Plain(Names(fdt.ps, path))
  {
    hide Flat, Opened, Names;
    OpenedAt([], fdt.ps, path);
    var ts, n := Flat(fdt.ps)[..Before(fdt.ps, path) + 1], Names(fdt.ps, path);
    assert forall k | 0 <= k < |ts| :: ts[k] == fdt.Tokens()[k];
    OpenedPlain([], ts);
    assert [] + n == n;
  }

  lemma NamesFirst(ps: seq<Piece>, path: seq<nat>)
    requires IsAt(ps, path) && At(ps, path).NodeP?
    ensures Names(ps, path) != [] && Names(ps, path)[0] == ps[path[0]].name
  {
  }

  lemma OffsetSame(fdt: Fdt, path: seq<nat>, a: int, b: int)
    requires fdt.OffsetOf(path, a) && fdt.OffsetOf(path, b)
    ensures a == b
  {
  }

  lemma {:induction false} LengthIs(s: seq<Byte>, from: nat, n: nat)
    requires from <= n < |s| && 0 !in s[from..n] && s[n] == 0
    ensures NameEnd(s, from) == n + 1
    decreases n - from
  {
    if from < n {
      assert s[from..n][0] == s[from] && s[from + 1..n] == s[from..n][1..];
      LengthIs(s, from + 1, n);
    }
  }

  /** Asks for the path of a node and looks the path up again: that gives the node back exactly when no
      node on the way is nameless or comes after a sibling that would be taken for it. */
  method PathAndBack(fdt: Fdt, target: nat, out: array<Byte>, ghost path: seq<nat>) returns (r: int)
    requires fdt.Valid() && out != fdt.buf && PlainTokens(fdt.Tokens())
    requires fdt.OffsetOf(path, target) && path[0] == 0 && fdt.ps[0].name == []
    requires 2 <= out.Length && |Joined(Names(fdt.ps, path))| <= out.Length
    modifies out
    ensures r == target <==> Addressable(fdt.ps[0].kids, path[1..])
  {
    hide fdt.Valid, Joined, Names, InRoot, Addressable, NameEnd, PlainTokens, Resolve, fdt.OffsetOf, IsAt, At, Before, Slashed, Flat, PathText;
    NodeInRoot(fdt, path, target);
    PathIsPlain(fdt, path);
    NamesFirst(fdt.ps, path);
    TextSlashed(Names(fdt.ps, path));
    SlashedHead(Names(fdt.ps, path)[1..]);
    SlashedLong(Names(fdt.ps, path)[1..]);
    var err, wild := GetPath(fdt, target, out);
    ghost var text := PathText(Names(fdt.ps, path));
    assert Spelled(out[..], err, Names(fdt.ps, path));
    LengthIs(out[..], 0, |text|);
    assert out[..][0..|text|] == text;
    var end := FindZero(out, 0, out.Length, 0);
    r := PathOffset(fdt, out[..end - 1]);
    PathRoundTrip(fdt.ps, path);
    var back := Resolve(fdt.ps[0].kids, text);
    assert path == [0] + path[1..];
    if back.Some? {
      if r == target { OffsetUnique(fdt, path, [0] + back.value, target); }
      if back.value == path[1..] { OffsetSame(fdt, path, r, target); }
      assert ([0] + back.value)[1..] == back.value;
    }
  }
}
