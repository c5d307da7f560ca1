/** Walking and rewriting the tokens of a tree. */
module FdtWalk {
  import opened Wrappers
  import opened FdtBytes
  import opened FdtTokens
  import opened FdtTree

  function Plus(n: nat, o: Option<nat>): Option<nat> {
    match o
    case None => None
    case Some(m) => Some(n + m)
  }

  // ----- Nesting

  /** Where the scan for the next node stops: at a node, past the end of the starting node, or at the
      end of the tree. */
  datatype Stop = Node(index: nat, depth: int) | Out(index: nat) | Last

  function Skip(n: nat, s: Stop): Stop {
    match s
    case Node(i, d) => Node(n + i, d)
    case Out(i) => Out(n + i)
    case Last => Last
  }

  function Next(ts: seq<Token>, d: int): (s: Stop)
    ensures s.Node? ==> s.index < |ts| && ts[s.index].Begin? && (d >= 0 ==> s.depth >= 1)
    ensures s.Out? ==> 0 < s.index <= |ts|
  {
    if ts == [] then Last else
    match ts[0]
    case End => Last
    case Begin(_) => Node(0, d + 1)
    case EndNode => if d <= 0 then Out(1) else Skip(1, Next(ts[1..], d - 1))
    case _ => Skip(1, Next(ts[1..], d))
  }

  lemma NextStep(ts: seq<Token>, d: nat)
    requires ts != []
    ensures ts[0].Begin? ==> Next(ts, d) == Node(0, d + 1)
    ensures ts[0].Prop? || ts[0].Nop? ==> Next(ts, d) == Skip(1, Next(ts[1..], d))
    ensures ts[0].EndNode? ==> Next(ts, d) == if d == 0 then Out(1) else Skip(1, Next(ts[1..], d - 1))
  {
  }

  /** Hopping from node to node until the node we are `d` levels below is closed: how many tokens
      that takes. */
  function Close(ts: seq<Token>, d: nat): (r: Option<nat>)
    ensures r.Some? ==> 0 < r.value <= |ts|
  {
    var n := Next(ts, d);
    match n
    case Node(i, e) => Plus(i + 1, Close(ts[i + 1..], e))
    case Out(i) => Some(i)
    case Last => None
  }

  /** The same, token by token. */
  lemma CloseStep(ts: seq<Token>, d: nat)
    requires ts != []
    ensures ts[0].Begin? ==> Close(ts, d) == Plus(1, Close(ts[1..], d + 1))
    ensures ts[0].Prop? || ts[0].Nop? ==> Close(ts, d) == Plus(1, Close(ts[1..], d))
    ensures ts[0].EndNode? ==> Close(ts, d) == if d == 0 then Some(1) else Plus(1, Close(ts[1..], d - 1))
  {
    hide Next, Close;
    NextStep(ts, d);
    CloseIs(ts, d);
    if ts[0].Prop? || ts[0].Nop? || (ts[0].EndNode? && d > 0) {
      var e := if ts[0].EndNode? then d - 1 else d;
      CloseIs(ts[1..], e);
      var n := Next(ts[1..], e);
      if n.Node? { assert ts[1..][n.index + 1..] == ts[n.index + 2..]; }
    }
  }

  lemma CloseIs(ts: seq<Token>, d: nat)
    ensures var n := Next(ts, d);
            Close(ts, d) == if n.Node? then Plus(n.index + 1, Close(ts[n.index + 1..], n.depth))
                            else if n.Out? then Some(n.index) else None
  {
    hide Next;
  }

  /** A balanced run of tokens changes no nesting. */
  lemma {:induction false} CloseFlat(ps: seq<Piece>, rest: seq<Token>, d: nat)
    ensures Close(Flat(ps) + rest, d) == Plus(|Flat(ps)|, Close(rest, d))
    decreases ps
  {
    hide FlatOne, Flat, Close;
    FlatOpens(ps);
    if ps == [] {
      assert [] + rest == rest;
    } else {
      FlatHead(ps, rest);
      FlatLength(ps);
      CloseStep(Flat(ps) + rest, d);
      var tail := Flat(ps[1..]) + rest;
      CloseFlat(ps[1..], rest, d);
      if ps[0].NodeP? {
        CloseStep([EndNode] + tail, d + 1);
        CloseFlat(ps[0].kids, [EndNode] + tail, d + 1);
        assert ([EndNode] + tail)[1..] == tail;
      }
    }
  }

  lemma FlatLength(ps: seq<Piece>)
    requires ps != []
    ensures |Flat(ps)| == |Flat(ps[1..])| + if ps[0].NodeP? then |Flat(ps[0].kids)| + 2 else 1
  {
  }

  // ----- Visiting every node

  /** The nodes visited, with their depths, hopping from node to node. */
  function Tour(ts: seq<Token>, d: int): seq<(seq<Byte>, int)>
    decreases |ts|
  {
    var n := Next(ts, d);
    if n.Node? then [(ts[n.index].name, n.depth)] + Tour(ts[n.index + 1..], n.depth) else []
  }

  /** The nodes of a tree, parents first, with their depths. */
  ghost function Preorder(xs: seq<Item>, d: int): seq<(seq<Byte>, int)>
    decreases xs
  {
    if xs == [] then [] else
    (if xs[0].N? then [(xs[0].name, d + 1)] + Preorder(xs[0].items, d + 1) else []) + Preorder(xs[1..], d)
  }

  lemma TourStep(ts: seq<Token>, d: nat)
    requires ts != []
    ensures ts[0].Begin? ==> Tour(ts, d) == [(ts[0].name, d + 1)] + Tour(ts[1..], d + 1)
    ensures ts[0].Prop? || ts[0].Nop? ==> Tour(ts, d) == Tour(ts[1..], d)
    ensures ts[0].EndNode? ==> Tour(ts, d) == if d == 0 then [] else Tour(ts[1..], d - 1)
  {
    hide Next;
    NextStep(ts, d);
    if ts[0].Prop? || ts[0].Nop? || (ts[0].EndNode? && d > 0) {
      var n := Next(ts[1..], if ts[0].EndNode? then d - 1 else d);
      if n.Node? { assert ts[1..][n.index + 1..] == ts[n.index + 2..]; }
    }
  }

  lemma PreorderConcat(xs: seq<Item>, ys: seq<Item>, d: int)
    ensures Preorder(xs + ys, d) == Preorder(xs, d) + Preorder(ys, d)
  {
    if xs == [] {
      assert xs + ys == ys;
    } else {
      assert (xs + ys)[1..] == xs[1..] + ys;
      PreorderConcat(xs[1..], ys, d);
    }
  }

  /** Below an open node the visit is the preorder of the tree. */
  lemma {:induction false} TourFlat(ps: seq<Piece>, rest: seq<Token>, d: nat, strs: seq<Byte>)
    ensures Tour(Flat(ps) + rest, d) == Preorder(Items(ps, strs), d) + Tour(rest, d)
    decreases ps
  {
    hide FlatOne, Flat, Tour;
    FlatOpens(ps);
    if ps == [] {
      assert [] + rest == rest;
    } else {
      FlatHead(ps, rest);
      TourStep(Flat(ps) + rest, d);
      var tail := Flat(ps[1..]) + rest;
      TourFlat(ps[1..], rest, d, strs);
      PreorderConcat(ItemsOne(ps[0], strs), Items(ps[1..], strs), d);
      if ps[0].NodeP? {
        TourStep([EndNode] + tail, d + 1);
        TourFlat(ps[0].kids, [EndNode] + tail, d + 1, strs);
        assert ([EndNode] + tail)[1..] == tail;
      }
    }
  }

  /** A walk from before the root visits every node of the first root once, parents first, with its true depth, and
      no other. */
  lemma {:induction false} VisitsAll(ps: seq<Piece>, strs: seq<Byte>)
    ensures Lead(ps) < |ps| ==> Tour(Flat(ps) + [End], -1) == Preorder(Items([ps[Lead(ps)]], strs), -1)
    ensures Lead(ps) == |ps| ==> Tour(Flat(ps) + [End], -1) == []
  {
    hide Flat, FlatOne, Tour;
    FlatOpens(ps);
    var ts := Flat(ps) + [End];
    if ps == [] {
      TourLast(ts);
    } else if ps[0].NodeP? {
      var root, rest := ps[0], Flat(ps[1..]) + [End];
      FlatHead(ps, [End]);
      RootVisit(ts);
      TourFlat(root.kids, [EndNode] + rest, 0, strs);
      TourStep([EndNode] + rest, 0);
      assert Items([root], strs) == [N(root.name, Items(root.kids, strs))] by { assert [root][1..] == []; }
    } else {
      FlatHead(ps, [End]);
      RootLater(ts);
      VisitsAll(ps[1..], strs);
    }
  }

  lemma TourLast(ts: seq<Token>)
    requires ts != [] && ts[0].End?
    ensures Tour(ts, -1) == []
  {
  }

  lemma RootLater(ts: seq<Token>)
    requires ts != [] && (ts[0].Prop? || ts[0].Nop?)
    ensures Tour(ts, -1) == Tour(ts[1..], -1)
  {
    hide Next;
    NextBefore(ts);
    var n := Next(ts[1..], -1);
    if n.Node? { assert ts[1..][n.index + 1..] == ts[n.index + 2..]; }
  }

  lemma NextBefore(ts: seq<Token>)
    requires ts != [] && (ts[0].Prop? || ts[0].Nop?)
    ensures Next(ts, -1) == Skip(1, Next(ts[1..], -1))
  {
  }

  lemma RootVisit(ts: seq<Token>)
    requires ts != [] && ts[0].Begin?
    ensures Tour(ts, -1) == [(ts[0].name, 0)] + Tour(ts[1..], 0)
  {
  }

  // ----- Looking for a child node

  const AT: Byte := 64

  /** A wanted name without a unit address matches any unit address. */
  predicate NameEq(stored: seq<Byte>, name: seq<Byte>) {
    && name <= stored
    && (|stored| == |name| || (AT !in name && stored[|name|] == AT))
  }

  /** The names are the same, or the stored one is the wanted one, which has no unit address, with a unit address. */
  lemma NameEqMeans(stored: seq<Byte>, name: seq<Byte>)
    ensures NameEq(stored, name) <==>
            stored == name || ((forall i | 0 <= i < |name| :: name[i] != 64) && exists unit: seq<Byte> :: stored == name + [64] + unit)
  {
    if NameEq(stored, name) && |stored| != |name| {
      assert stored == name + [64] + stored[|name| + 1..];
    }
  }

  /** Hopping from node to node until a child matches. */
  function Seek(ts: seq<Token>, d: nat, name: seq<Byte>): (r: Option<nat>)
    ensures r.Some? ==> r.value < |ts|
  {
    match Next(ts, d)
    case Node(i, e) => if e == 1 && NameEq(ts[i].name, name) then Some(i) else Plus(i + 1, Seek(ts[i + 1..], e, name))
    case _ => None
  }

  /** The same, token by token. */
  lemma SeekStep(ts: seq<Token>, d: nat, name: seq<Byte>)
    requires ts != []
    ensures ts[0].Begin? ==> Seek(ts, d, name) == if d == 0 && NameEq(ts[0].name, name) then Some(0)
                                                  else Plus(1, Seek(ts[1..], d + 1, name))
    ensures ts[0].Prop? || ts[0].Nop? ==> Seek(ts, d, name) == Plus(1, Seek(ts[1..], d, name))
    ensures ts[0].EndNode? ==> Seek(ts, d, name) == if d == 0 then None else Plus(1, Seek(ts[1..], d - 1, name))
  {
    hide NameEq, Next, Seek;
    NextStep(ts, d);
    SeekIs(ts, d, name);
    if ts[0].Prop? || ts[0].Nop? || (ts[0].EndNode? && d > 0) {
      var e := if ts[0].EndNode? then d - 1 else d;
      SeekIs(ts[1..], e, name);
      var n := Next(ts[1..], e);
      if n.Node? { assert ts[1..][n.index + 1..] == ts[n.index + 2..]; }
    }
  }

  lemma SeekIs(ts: seq<Token>, d: nat, name: seq<Byte>)
    ensures var n := Next(ts, d);
            Seek(ts, d, name) == if !n.Node? then None
                                 else if n.depth == 1 && NameEq(ts[n.index].name, name) then Some(n.index)
                                 else Plus(n.index + 1, Seek(ts[n.index + 1..], n.depth, name))
  {
    hide Next, NameEq;
  }

  /** Nodes below the searched level never match. */
  lemma {:induction false} SeekDeep(ps: seq<Piece>, rest: seq<Token>, d: nat, name: seq<Byte>)
    requires d > 0
    ensures Seek(Flat(ps) + rest, d, name) == Plus(|Flat(ps)|, Seek(rest, d, name))
    decreases ps
  {
    hide FlatOne, Flat, NameEq, Seek;
    FlatOpens(ps);
    if ps == [] {
      assert [] + rest == rest;
    } else {
      FlatHead(ps, rest);
      FlatLength(ps);
      SeekStep(Flat(ps) + rest, d, name);
      var tail := Flat(ps[1..]) + rest;
      SeekDeep(ps[1..], rest, d, name);
      if ps[0].NodeP? {
        SeekStep([EndNode] + tail, d + 1, name);
        SeekDeep(ps[0].kids, [EndNode] + tail, d + 1, name);
        assert ([EndNode] + tail)[1..] == tail;
      }
    }
  }

  /** The first child whose name matches. */
  function FirstChild(kids: seq<Piece>, name: seq<Byte>): (r: Option<nat>)
    ensures r.Some? ==> r.value < |kids| && kids[r.value].NodeP?
  {
    if kids == [] then None
    else if kids[0].NodeP? && NameEq(kids[0].name, name) then Some(0)
    else Plus(1, FirstChild(kids[1..], name))
  }

  lemma {:induction false} SeekChild(kids: seq<Piece>, rest: seq<Token>, name: seq<Byte>)
    requires rest != [] && rest[0] == EndNode
    ensures Seek(Flat(kids) + rest, 0, name) == match FirstChild(kids, name)
                                                case None => None
                                                case Some(i) => Some(|Flat(kids[..i])|)
    decreases kids
  {
    hide FlatOne, Flat, NameEq, Seek;
    FlatOpens(kids);
    if kids == [] {
      assert [] + rest == rest;
      SeekStep(rest, 0, name);
    } else {
      FlatHead(kids, rest);
      SeekStep(Flat(kids) + rest, 0, name);
      var tail := Flat(kids[1..]) + rest;
      SeekChild(kids[1..], rest, name);
      if kids[0].NodeP? {
        SeekDeep(kids[0].kids, [EndNode] + tail, 1, name);
        SeekStep([EndNode] + tail, 1, name);
        assert ([EndNode] + tail)[1..] == tail;
      }
      var c := FirstChild(kids, name);
      if c.Some? {
        FlatOpens(kids[..0]);
        if c.value > 0 {
          FlatLength(kids[..c.value]);
          assert kids[..c.value][1..] == kids[1..][..c.value - 1];
        }
      }
    }
  }

  // ----- A node's properties

  /** The entries before the first child node. */
  function Lead(kids: seq<Piece>): (n: nat)
    ensures n <= |kids| && (n < |kids| ==> kids[n].NodeP?) && forall i | 0 <= i < n :: !kids[i].NodeP?
  {
    if kids == [] || kids[0].NodeP? then 0 else 1 + Lead(kids[1..])
  }

  /** Entries without children take one token each. */
  lemma {:induction false} LeadTokens(kids: seq<Piece>, i: nat)
    requires i <= |kids| && forall j | 0 <= j < i :: !kids[j].NodeP?
    ensures |Flat(kids[..i])| == i <= |Flat(kids)|
    ensures i < |kids| ==> i < |Flat(kids)| && Flat(kids)[i] == Head(kids[i])
  {
    if i == 0 {
      assert kids[..0] == [];
    } else {
      LeadTokens(kids[1..], i - 1);
      assert kids[..i][1..] == kids[1..][..i - 1];
      FlatLength(kids[..i]);
      FlatLength(kids);
    }
  }

  /** The first property of that name before any child. */
  function FindProp(kids: seq<Piece>, strs: seq<Byte>, name: seq<Byte>): (r: Option<nat>)
    ensures r.Some? ==> r.value < Lead(kids) && kids[r.value].PropP? && NameOf(strs, kids[r.value].nameoff) == name
  {
    if kids == [] || kids[0].NodeP? then None
    else if kids[0].PropP? && NameOf(strs, kids[0].nameoff) == name then Some(0)
    else Plus(1, FindProp(kids[1..], strs, name))
  }

  lemma {:induction false} FindPropFrom(kids: seq<Piece>, strs: seq<Byte>, name: seq<Byte>, i: nat)
    requires i <= Lead(kids) && forall j | 0 <= j < i :: !(kids[j].PropP? && NameOf(strs, kids[j].nameoff) == name)
    ensures i == Lead(kids) ==> FindProp(kids, strs, name) == None
    ensures i < Lead(kids) && kids[i].PropP? && NameOf(strs, kids[i].nameoff) == name ==> FindProp(kids, strs, name) == Some(i)
  {
    hide NameOf;
    if i > 0 { FindPropFrom(kids[1..], strs, name, i - 1); }
  }

  // ----- Rewriting a node's body

  // ----- What the two searches find

  /** The first child of a body whose name matches. */
  ghost predicate FirstMatch(kids: seq<Piece>, name: seq<Byte>, i: nat) {
    && i < |kids| && kids[i].NodeP? && NameEq(kids[i].name, name)
    && forall k | 0 <= k < i && kids[k].NodeP? :: !NameEq(kids[k].name, name)
  }

  ghost predicate NoMatch(kids: seq<Piece>, name: seq<Byte>) {
    forall k | 0 <= k < |kids| && kids[k].NodeP? :: !NameEq(kids[k].name, name)
  }

  /** The first property of a body with this name, before any child. */
  ghost predicate FirstNamed(kids: seq<Piece>, strs: seq<Byte>, name: seq<Byte>, i: nat) {
    && i < |kids| && kids[i].PropP? && NameOf(strs, kids[i].nameoff) == name
    && forall k | 0 <= k < i :: !kids[k].NodeP? && !(kids[k].PropP? && NameOf(strs, kids[k].nameoff) == name)
  }

  ghost predicate NoneNamed(kids: seq<Piece>, strs: seq<Byte>, name: seq<Byte>) {
    forall k | 0 <= k < Lead(kids) && kids[k].PropP? :: NameOf(strs, kids[k].nameoff) != name
  }

  lemma {:induction false} FirstChildIs(kids: seq<Piece>, name: seq<Byte>)
    ensures var r := FirstChild(kids, name); if r.Some? then FirstMatch(kids, name, r.value) else NoMatch(kids, name)
  {
    hide NameEq;
    if kids != [] { FirstChildIs(kids[1..], name); }
  }

  lemma {:induction false} FindPropIs(kids: seq<Piece>, strs: seq<Byte>, name: seq<Byte>)
    ensures var r := FindProp(kids, strs, name); if r.Some? then FirstNamed(kids, strs, name, r.value) else NoneNamed(kids, strs, name)
  {
    hide NameOf;
    if kids != [] { FindPropIs(kids[1..], strs, name); }
  }

  /** The structure block after the entries [j, j + m) of the node at `path` become `rs`. */
  ghost function Rebody(ps: seq<Piece>, path: seq<nat>, j: nat, m: nat, rs: seq<Piece>): seq<Piece>
    requires IsAt(ps, path) && At(ps, path).NodeP? && j + m <= |At(ps, path).kids|
  {
    var kids := At(ps, path).kids;
    Put(ps, path, [NodeP(At(ps, path).name, kids[..j] + rs + kids[j + m..])])
  }

  /** The token index of entry `j` of the node at `path`. */
  ghost function KidToken(ps: seq<Piece>, path: seq<nat>, j: nat): nat
    requires IsAt(ps, path) && At(ps, path).NodeP? && j <= |At(ps, path).kids|
  {
    Before(ps, path) + 1 + |Flat(At(ps, path).kids[..j])|
  }

  lemma KidsSplit(kids: seq<Piece>, j: nat, m: nat, rs: seq<Piece>)
    requires j + m <= |kids|
    ensures Flat(kids) == Flat(kids[..j]) + Flat(kids[j..j + m]) + Flat(kids[j + m..])
    ensures Flat(kids[..j] + rs + kids[j + m..]) == Flat(kids[..j]) + Flat(rs) + Flat(kids[j + m..])
    ensures Flat(kids[..j + m]) == Flat(kids[..j]) + Flat(kids[j..j + m])
  {
    hide Flat;
    assert kids == kids[..j] + kids[j..j + m] + kids[j + m..];
    assert kids[..j + m] == kids[..j] + kids[j..j + m];
    FlatConcat(kids[..j] + kids[j..j + m], kids[j + m..]);
    FlatConcat(kids[..j], kids[j..j + m]);
    FlatConcat(kids[..j] + rs, kids[j + m..]);
    FlatConcat(kids[..j], rs);
  }

  /** The same rewriting seen on the tokens: one run replaced by another. */
  lemma RebodyTokens(ps: seq<Piece>, path: seq<nat>, j: nat, m: nat, rs: seq<Piece>)
    requires IsAt(ps, path) && At(ps, path).NodeP? && j + m <= |At(ps, path).kids|
    ensures KidToken(ps, path, j) <= KidToken(ps, path, j + m) <= |Flat(ps)|
    ensures var ts := Flat(ps) + [End];
            var a, b := KidToken(ps, path, j), KidToken(ps, path, j + m);
            Flat(Rebody(ps, path, j, m, rs)) + [End] == ts[..a] + Flat(rs) + ts[b..]
  {
    hide Flat, FlatOne, Put, At, IsAt, Before;
    var p := At(ps, path);
    var kids := p.kids;
    var now := NodeP(p.name, kids[..j] + rs + kids[j + m..]);
    var pre, post := FlatPut(ps, path, [now]);
    KidsSplit(kids, j, m, rs);
    FlatSingle(now);
    FlatNode(p);
    FlatNode(now);
    var x, y, z, w := Flat(kids[..j]), Flat(kids[j..j + m]), Flat(kids[j + m..]), Flat(rs);
    var first, last := pre + [Begin(p.name)] + x, z + [EndNode] + post;
    BodyTokens(pre, p.name, x, y, z, post);
    BodyTokens(pre, p.name, x, w, z, post);
    assert |first| == KidToken(ps, path, j) && |first| + |y| == KidToken(ps, path, j + m);
    SpliceTokens(first, y, last, w);
  }

  lemma FlatNode(p: Piece)
    requires p.NodeP?
    ensures FlatOne(p) == [Begin(p.name)] + Flat(p.kids) + [EndNode]
  {
  }

  lemma BodyTokens(pre: seq<Token>, name: seq<Byte>, x: seq<Token>, m: seq<Token>, z: seq<Token>, post: seq<Token>)
    ensures pre + ([Begin(name)] + (x + m + z) + [EndNode]) + post == (pre + [Begin(name)] + x) + m + (z + [EndNode] + post)
  {
  }

  lemma SpliceTokens(first: seq<Token>, y: seq<Token>, last: seq<Token>, w: seq<Token>)
    ensures var ts := (first + y + last) + [End];
            first + w + last + [End] == ts[..|first|] + w + ts[|first| + |y|..]
  {
    var ts := (first + y + last) + [End];
    assert ts[..|first|] == first && ts[|first| + |y|..] == last + [End];
  }

  /** Replacing the bytes of a run of tokens by the bytes of another. */
  lemma LexesSplice(s: seq<Byte>, ts: seq<Token>, a: nat, b: nat, bytes: seq<Byte>, us: seq<Token>)
    requires Lexes(s, ts) && a <= b <= |ts| && Lexes(bytes, us)
    ensures Off(ts, a) <= Off(ts, b) <= |s|
    ensures Lexes(s[..Off(ts, a)] + bytes + s[Off(ts, b)..], ts[..a] + us + ts[b..])
  {
    hide Lexes, Size;
    assert ts == ts[..a] + ts[a..b] + ts[b..] && ts[..b] == ts[..a] + ts[a..b];
    LexesSplit3(s, ts[..a], ts[a..b], ts[b..]);
    SizeConcat(ts[..a], ts[a..b]);
    LexesConcat(s[..Off(ts, a)], bytes, ts[..a], us);
    LexesConcat(s[..Off(ts, a)] + bytes, s[Off(ts, b)..], ts[..a] + us, ts[b..]);
  }

  /** Rewriting a node's body in the bytes. */
  lemma RebodyBytes(s: seq<Byte>, ps: seq<Piece>, path: seq<nat>, j: nat, m: nat, rs: seq<Piece>, bytes: seq<Byte>)
    requires Parses(s, ps) && IsAt(ps, path) && At(ps, path).NodeP? && j + m <= |At(ps, path).kids|
    requires Lexes(bytes, Flat(rs))
    ensures KidToken(ps, path, j) <= KidToken(ps, path, j + m) <= |Flat(ps)|
    ensures var ts := Flat(ps) + [End];
            var a, b := Off(ts, KidToken(ps, path, j)), Off(ts, KidToken(ps, path, j + m));
            a <= b <= |s| && Parses(s[..a] + bytes + s[b..], Rebody(ps, path, j, m, rs))
  {
    RebodyTokens(ps, path, j, m, rs);
    hide Flat, Lexes, KidToken, Rebody;
    LexesSplice(s, Flat(ps) + [End], KidToken(ps, path, j), KidToken(ps, path, j + m), bytes, Flat(rs));
  }

  // ----- The tokens around a node

  /** A node's opening token, its body and its closing token. */
  lemma NodeTokens(ps: seq<Piece>, path: seq<nat>) returns (rest: seq<Token>)
    requires IsAt(ps, path) && At(ps, path).NodeP?
    ensures var k, p, ts := Before(ps, path), At(ps, path), Flat(ps) + [End];
            && k + |Flat(p.kids)| + 2 <= |Flat(ps)| && ts[k] == Begin(p.name)
            && ts[k + 1..] == Flat(p.kids) + ([EndNode] + rest)
  {
    hide Flat, FlatOne, Put;
    var p := At(ps, path);
    var pre, post := FlatPut(ps, path, []);
    FlatNode(p);
    rest := post + [End];
    var ts := Flat(ps) + [End];
    assert ts == pre + ([Begin(p.name)] + (Flat(p.kids) + ([EndNode] + rest)));
    assert ts[|pre|..] == [Begin(p.name)] + (Flat(p.kids) + ([EndNode] + rest));
  }

  /** Closing a node skips exactly its body. */
  lemma NodeCloses(ps: seq<Piece>, path: seq<nat>)
    requires IsAt(ps, path) && At(ps, path).NodeP?
    ensures Before(ps, path) < |Flat(ps)|
    ensures Close((Flat(ps) + [End])[Before(ps, path) + 1..], 0) == Some(|Flat(At(ps, path).kids)| + 1)
  {
    hide Close, Flat;
    var rest := NodeTokens(ps, path);
    CloseFlat(At(ps, path).kids, [EndNode] + rest, 0);
    CloseStep([EndNode] + rest, 0);
  }

  /** Searching a node's children finds the first that matches. */
  lemma NodeSeeks(ps: seq<Piece>, path: seq<nat>, name: seq<Byte>)
    requires IsAt(ps, path) && At(ps, path).NodeP?
    ensures Before(ps, path) < |Flat(ps)|
    ensures Seek((Flat(ps) + [End])[Before(ps, path) + 1..], 0, name) ==
            match FirstChild(At(ps, path).kids, name)
            case None => None
            case Some(i) => Some(|Flat(At(ps, path).kids[..i])|)
  {
    hide Seek, Flat;
    var rest := NodeTokens(ps, path);
    SeekChild(At(ps, path).kids, [EndNode] + rest, name);
  }

  /** The tokens of a node's leading entries. */
  lemma LeadToken(ps: seq<Piece>, path: seq<nat>, i: nat)
    requires IsAt(ps, path) && At(ps, path).NodeP? && i <= Lead(At(ps, path).kids)
    ensures var k, kids, ts := Before(ps, path), At(ps, path).kids, Flat(ps) + [End];
            && KidToken(ps, path, i) == k + 1 + i < |ts|
            && ts[k + 1 + i] == if i < |kids| then Head(kids[i]) else EndNode
  {
    hide Flat;
    var k, kids, ts := Before(ps, path), At(ps, path).kids, Flat(ps) + [End];
    var rest := NodeTokens(ps, path);
    LeadTokens(kids, i);
    assert kids[..|kids|] == kids;
    assert ts[k + 1 + i] == ts[k + 1..][i];
  }
}
