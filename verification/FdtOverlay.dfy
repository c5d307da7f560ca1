/** Merging an overlay node into a base tree. */
module FdtOverlay {
  import opened Wrappers
  import opened FdtBytes
  import opened FdtTokens
  import opened FdtTree
  import opened FdtWalk
  import opened FdtMeaning
  import opened FdtSplice
  import opened FdtEdit
  import opened FdtRead
  import opened FdtBlob

  /** The first child whose name matches. */
  function FirstItem(xs: seq<Item>, name: seq<Byte>): (r: Option<nat>)
    ensures r.Some? ==> r.value < |xs| && xs[r.value].N? && NameEq(xs[r.value].name, name)
                        && forall i | 0 <= i < r.value && xs[i].N? :: !NameEq(xs[i].name, name)
    ensures r.None? ==> forall i | 0 <= i < |xs| && xs[i].N? :: !NameEq(xs[i].name, name)
  {
    if xs == [] then None else if xs[0].N? && NameEq(xs[0].name, name) then Some(0) else Plus(1, FirstItem(xs[1..], name))
  }

  /** Overlay properties win, one after the other. */
  function MergeProps(b: seq<Item>, xs: seq<Item>): seq<Item>
    decreases |xs|
  {
    if xs == [] || xs[0].N? then b else MergeProps(SetProp(b, xs[0].name, xs[0].value), xs[1..])
  }

  /** A body with a child of that name. */
  function WithChild(b: seq<Item>, name: seq<Byte>): seq<Item> {
    if FirstItem(b, name).Some? then b else AddNode(b, name)
  }

  function MergeNodes(b: seq<Item>, xs: seq<Item>): seq<Item>
    decreases xs, 0
  {
    if xs == [] then b
    else if xs[0].P? then MergeNodes(b, xs[1..])
    else
      var c := WithChild(b, xs[0].name);
      match FirstItem(c, xs[0].name)
      case None => c
      case Some(i) => MergeNodes(c[i := N(c[i].name, Merge(c[i].items, xs[0].items))], xs[1..])
  }

  /** The recursive union of a base body and an overlay body. */
  function Merge(b: seq<Item>, xs: seq<Item>): seq<Item>
    decreases xs, 1
  {
    MergeNodes(MergeProps(b, xs), xs)
  }

  /** The most room a merge can take. */
  function PropCost(name: seq<Byte>, value: seq<Byte>): nat {
    12 + Align4(|value|) + |name| + 1
  }

  function PropsCost(xs: seq<Item>): nat {
    if xs == [] || xs[0].N? then 0 else PropCost(xs[0].name, xs[0].value) + PropsCost(xs[1..])
  }

  function NodeCost(x: Item): nat
    requires x.N?
    decreases x, 0
  {
    8 + Align4(|x.name| + 1) + Cost(x.items)
  }

  function NodesCost(xs: seq<Item>): nat
    decreases xs, 0
  {
    if xs == [] then 0 else (if xs[0].N? then NodeCost(xs[0]) else 0) + NodesCost(xs[1..])
  }

  function Cost(xs: seq<Item>): nat
    decreases xs, 1
  {
    PropsCost(xs) + NodesCost(xs)
  }

  // ----- On the blob

  /** The child with that name, added when there is none. */
  method FindOrAdd(fdt: Fdt, target: nat, name: seq<Byte>, ghost path: seq<nat>) returns (child: int, ghost i: nat)
    requires fdt.Valid() && fdt.OffsetOf(path, target) && 0 !in name
    modifies fdt, fdt.buf
    ensures fdt.Valid() && fdt.OffsetOf(path, target) && Reshaped(old(fdt.ps), fdt.ps, path) && fdt.Strings() == old(fdt.Strings())
    ensures child >= 0 ==> fdt.OffsetOf(path + [i], child) && FirstChild(fdt.Kids(path), name) == Some(i)
                           && fdt.Body(path) == WithChild(old(fdt.Body(path)), name)
                           && fdt.DataSize() <= old(fdt.DataSize()) + 8 + Align4(|name| + 1)
    ensures child < 0 ==> child == NOSPACE && old(fdt.DataSize()) + 8 + Align4(|name| + 1) > fdt.totalsize
  {
    hide fdt.Valid, fdt.OffsetOf, fdt.IsNode, Reshaped, fdt.Strings, FirstItem, AddNode, HasChild, Items, FirstChild, Lead, fdt.DataSize, Align4;
    HasChildIff(fdt.Body(path), name);
    fdt.NodeIsNode(path, target);
    child := fdt.AddSubnode(target, name, path);
    if child == EXISTS {
      child, i := ExistingChild(fdt, target, name, path);
    } else if child >= 0 {
      i := old(Lead(fdt.Kids(path)));
      NewIsFirst(old(fdt.Kids(path)), fdt.Kids(path), i, name);
    } else {
      i := 0;
    }
  }

  method ExistingChild(fdt: Fdt, target: nat, name: seq<Byte>, ghost path: seq<nat>) returns (child: int, ghost i: nat)
    requires fdt.Valid() && fdt.OffsetOf(path, target) && HasChild(fdt.Body(path), name)
    ensures child >= 0 && fdt.OffsetOf(path + [i], child) && FirstChild(fdt.Kids(path), name) == Some(i)
  {
    hide Flat, Lexes, Named, Items, At, IsAt, Before, Off, Seek, FirstChild, HasChild, fdt.IsNode;
    ChildMeans(fdt.Kids(path), name, fdt.Strings());
    NodeOffset(fdt.ps, path);
    fdt.NodeIsNode(path, target);
    NodeSeeks(fdt.ps, path, name);
    i := FirstChild(fdt.Kids(path), name).value;
    ChildPlace(fdt.ps, path, i);
    var rest := NodeTokens(fdt.ps, path + [i]);
    child := fdt.SubnodeOffset(target, name, Before(fdt.ps, path));
  }

  lemma GrowthBound(fdt: Fdt, path: seq<nat>, name: seq<Byte>, value: seq<Byte>)
    requires fdt.Valid() && fdt.NodeAt(path)
    ensures fdt.Growth(path, name, value) <= PropCost(name, value)
  {
    hide Align4, FindProp, HasString, NameOf;
  }

  lemma HasChildIff(xs: seq<Item>, name: seq<Byte>)
    ensures HasChild(xs, name) <==> FirstItem(xs, name).Some?
  {
    var r := FirstItem(xs, name);
    if HasChild(xs, name) {
      var x :| x in xs && x.N? && NameEq(x.name, name);
    }
    if r.Some? { assert xs[r.value] in xs; }
  }

  /** A node added right after the leading entries is the first that matches its name. */
  lemma {:induction false} NewIsFirst(was: seq<Piece>, kids: seq<Piece>, n: nat, name: seq<Byte>)
    requires n < |kids| && kids[n] == NodeP(name, []) && n == Lead(was) && kids[..n] == was[..n]
    ensures FirstChild(kids, name) == Some(n)
  {
    assert forall i | 0 <= i < n :: kids[i] == kids[..n][i] == was[i] && !kids[i].NodeP?;
    FirstAfter(kids, n, name);
  }

  lemma {:induction false} FirstAfter(kids: seq<Piece>, n: nat, name: seq<Byte>)
    requires n < |kids| && kids[n].NodeP? && NameEq(kids[n].name, name) && forall i | 0 <= i < n :: !kids[i].NodeP?
    ensures FirstChild(kids, name) == Some(n)
  {
    if n > 0 { FirstAfter(kids[1..], n - 1, name); }
  }

  /** The stored child found is the child of the tree found. */
  lemma {:induction false} ChildIndex(kids: seq<Piece>, name: seq<Byte>, strs: seq<Byte>)
    ensures FirstItem(Items(kids, strs), name) ==
            match FirstChild(kids, name)
            case None => None
            case Some(i) => Some(|Items(kids[..i], strs)|)
  {
    hide NameOf, Items, NameEq;
    ItemsHead(kids, strs);
    var r := FirstChild(kids, name);
    if r.Some? { ItemsHead(kids[..r.value], strs); }
    if kids != [] && r != Some(0) {
      ChildIndex(kids[1..], name, strs);
      if r.Some? { assert kids[..r.value][1..] == kids[1..][..r.value - 1]; }
    }
  }

  /** The body of a child. */
  lemma ChildBody(fdt: Fdt, path: seq<nat>, i: nat, name: seq<Byte>)
    requires fdt.Valid() && fdt.NodeAt(path) && FirstChild(fdt.Kids(path), name) == Some(i)
    ensures fdt.NodeAt(path + [i]) && At(fdt.ps, path + [i]) == fdt.Kids(path)[i]
    ensures var j := |Items(fdt.Kids(path)[..i], fdt.Strings())|;
            j < |fdt.Body(path)| && fdt.Body(path)[j] == N(fdt.Kids(path)[i].name, fdt.Body(path + [i]))
  {
    hide Items, At, IsAt, FirstChild;
    ChildPlace(fdt.ps, path, i);
    var kids := fdt.Kids(path);
    BodySplit(kids, i, 1, fdt.Strings());
    assert kids[i..i + 1] == [kids[i]];
    SingleProp(kids[i], fdt.Strings());
  }

  lemma KidsNamed(fdt: Fdt, path: seq<nat>)
    requires fdt.Valid() && fdt.NodeAt(path)
    ensures Named(fdt.Kids(path), fdt.Strings())
  {
    NamedKids(fdt.ps, path, fdt.Strings());
  }

  /** After changes below a child, its parent is where it was. */
  lemma BackUp(fdt: Fdt, ps: seq<Piece>, path: seq<nat>, i: nat, target: nat)
    requires IsAt(ps, path) && At(ps, path).NodeP? && i < |At(ps, path).kids| && Reshaped(ps, fdt.ps, path + [i])
    requires Before(ps, path) + 1 < |Flat(ps)| && target == Off(Flat(ps) + [End], Before(ps, path))
    ensures fdt.OffsetOf(path, target) && Reshaped(ps, fdt.ps, path)
    ensures IsAt(fdt.ps, path + [i]) && fdt.Kids(path) == At(ps, path).kids[i := At(fdt.ps, path + [i])]
    ensures At(fdt.ps, path + [i]).NodeP? && At(ps, path).kids[i].NodeP? && At(fdt.ps, path + [i]).name == At(ps, path).kids[i].name
  {
    ChildPlace(ps, path, i);
    ReshapedChild(ps, fdt.ps, path, i);
    ReshapedOffset(ps, fdt.ps, path);
  }

  /** A body with one stored child replaced, and strings added. */
  lemma BodyChanged(kids: seq<Piece>, i: nat, child: Piece, strs: seq<Byte>, more: seq<Byte>)
    requires i < |kids| && kids[i].NodeP? && child.NodeP? && Named(kids, strs)
    ensures var j := |Items(kids[..i], strs)|;
            && j < |Items(kids, strs)|
            && Items(kids[i := child], strs + more) == Items(kids, strs)[j := N(child.name, Items(child.kids, strs + more))]
  {
    hide Items, Named;
    var now := kids[i := child];
    BodySplit(kids, i, 1, strs);
    BodySplit(now, i, 1, strs + more);
    assert kids[i..i + 1] == [kids[i]] && now[i..i + 1] == [child] && now[..i] == kids[..i] && now[i + 1..] == kids[i + 1..];
    SingleProp(kids[i], strs);
    SingleProp(child, strs + more);
    NamedPart(kids, 0, i, strs);
    NamedPart(kids, i + 1, |kids|, strs);
    assert kids[0..i] == kids[..i] && kids[i + 1..|kids|] == kids[i + 1..];
    ItemsKept(kids[..i], strs, more);
    ItemsKept(kids[i + 1..], strs, more);
  }

  lemma BlobNamed(fdt: Fdt)
    requires fdt.Valid()
    ensures Named(fdt.ps, fdt.Strings())
  {
  }

  lemma WithBodyIs(fdt: Fdt, path: seq<nat>, body: seq<Item>)
    requires fdt.Valid() && fdt.NodeAt(path)
    ensures HasItem(Items(fdt.ps, fdt.Strings()), ItemPath(fdt.ps, path, fdt.Strings()))
    ensures fdt.WithBody(path, body) ==
            Edit(Items(fdt.ps, fdt.Strings()), ItemPath(fdt.ps, path, fdt.Strings()), [N(At(fdt.ps, path).name, body)])
  {
    ItemsPut(fdt.ps, path, [], fdt.Strings());
  }

  /** The tree after changes below one node. */
  lemma TreeAfter(fdt: Fdt, ps: seq<Piece>, path: seq<nat>, strs: seq<Byte>, body: seq<Item>)
    requires fdt.Valid() && Reshaped(ps, fdt.ps, path) && Named(ps, strs) && strs <= fdt.Strings() && fdt.NodeAt(path) && fdt.Body(path) == body
    ensures HasItem(Items(ps, strs), ItemPath(ps, path, strs))
    ensures fdt.Tree() == Edit(Items(ps, strs), ItemPath(ps, path, strs), [N(At(ps, path).name, body)])
  {
    hide Items, Edit, Named;
    var more := fdt.Strings()[|strs|..];
    assert fdt.Strings() == strs + more;
    ReshapedMeans(ps, fdt.ps, path, strs, more);
  }

  lemma ReshapedStart(fdt: Fdt, path: seq<nat>)
    requires fdt.NodeAt(path)
    ensures Reshaped(fdt.ps, fdt.ps, path)
  {
    ReshapedNone(fdt.ps, path);
  }

  // ----- What a merge holds

  /** No two properties share a name, and no two sibling nodes could be taken for each other. */
  ghost predicate Distinctive(xs: seq<Item>)
    decreases xs
  {
    && (forall i, j | 0 <= i < j < LeadItems(xs) :: xs[i].name != xs[j].name)
    && (forall i, j | 0 <= i < |xs| && 0 <= j < |xs| && i != j && xs[i].N? && xs[j].N? :: !NameEq(xs[i].name, xs[j].name))
    && (forall i | 0 <= i < |xs| && xs[i].N? :: Distinctive(xs[i].items))
  }

  /** The body already holds everything the overlay says. */
  ghost predicate Absorbs(b: seq<Item>, xs: seq<Item>)
    decreases xs, 1
  {
    && (forall i | 0 <= i < LeadItems(xs) :: Value(b, xs[i].name) == Some(xs[i].value))
    && (forall i {:trigger xs[i]} | 0 <= i < |xs| && xs[i].N? :: AbsorbsNode(b, xs[i]))
  }

  ghost predicate AbsorbsNode(b: seq<Item>, x: Item)
    requires x.N?
    decreases x, 0
  {
    var r := FirstItem(b, x.name);
    r.Some? && Absorbs(b[r.value].items, x.items)
  }

  /** Merging what is already there changes nothing. */
  lemma {:induction false} AbsorbedMerge(b: seq<Item>, xs: seq<Item>)
    requires Absorbs(b, xs)
    ensures Merge(b, xs) == b
    decreases xs, 1
  {
    AbsorbedProps(b, xs);
    forall i | 0 <= i < |xs| && xs[i].N? ensures AbsorbsNode(b, xs[i]) && MergesBack(b, xs[i]) {
      var r := FirstItem(b, xs[i].name);
      AbsorbedMerge(b[r.value].items, xs[i].items);
    }
    AbsorbedNodes(b, xs);
  }

  ghost predicate MergesBack(b: seq<Item>, x: Item)
    requires x.N?
  {
    var r := FirstItem(b, x.name);
    r.Some? && Merge(b[r.value].items, x.items) == b[r.value].items
  }

  lemma {:induction false} AbsorbedProps(b: seq<Item>, xs: seq<Item>)
    requires forall i | 0 <= i < LeadItems(xs) :: Value(b, xs[i].name) == Some(xs[i].value)
    ensures MergeProps(b, xs) == b
  {
    if xs != [] && xs[0].P? {
      assert Value(b, xs[0].name) == Some(xs[0].value);
      SetSame(b, xs[0].name, xs[0].value);
      forall i | 0 <= i < LeadItems(xs[1..]) ensures Value(b, xs[1..][i].name) == Some(xs[1..][i].value) { assert xs[1..][i] == xs[i + 1]; }
      AbsorbedProps(b, xs[1..]);
    }
  }

  lemma SetSame(b: seq<Item>, name: seq<Byte>, value: seq<Byte>)
    requires Value(b, name) == Some(value)
    ensures SetProp(b, name, value) == b
  {
  }

  lemma {:induction false} AbsorbedNodes(b: seq<Item>, xs: seq<Item>)
    requires forall i {:trigger xs[i]} | 0 <= i < |xs| && xs[i].N? :: MergesBack(b, xs[i])
    ensures MergeNodes(b, xs) == b
  {
    hide Merge, FirstItem;
    if xs != [] {
      forall i | 0 <= i < |xs[1..]| && xs[1..][i].N? ensures MergesBack(b, xs[1..][i]) { assert xs[1..][i] == xs[i + 1]; }
      if xs[0].N? {
        assert MergesBack(b, xs[0]);
        var j := FirstItem(b, xs[0].name).value;
        assert b[j := N(b[j].name, b[j].items)] == b;
      }
      AbsorbedNodes(b, xs[1..]);
    }
  }

  // ----- A merge holds everything it merged

  /** Only the leading properties decide a value. */
  lemma {:induction false} ValueLead(b: seq<Item>, c: seq<Item>, name: seq<Byte>)
    requires LeadItems(b) == LeadItems(c) && b[..LeadItems(b)] == c[..LeadItems(b)]
    ensures Value(b, name) == Value(c, name)
  {
    if LeadItems(b) > 0 {
      var n := LeadItems(b);
      assert b[0] == b[..n][0] && c[0] == c[..n][0];
      assert b[1..][..n - 1] == b[..n][1..] && c[1..][..n - 1] == c[..n][1..];
      ValueLead(b[1..], c[1..], name);
    }
  }

  lemma {:induction false} LeadIs(b: seq<Item>, n: nat)
    requires n <= |b| && (forall i | 0 <= i < n :: b[i].P?) && (n < |b| ==> b[n].N?)
    ensures LeadItems(b) == n
  {
    if n > 0 { LeadIs(b[1..], n - 1); }
  }

  lemma {:induction false} LeadStops(b: seq<Item>)
    ensures LeadItems(b) < |b| ==> b[LeadItems(b)].N?
  {
    if b != [] && b[0].P? { LeadStops(b[1..]); }
  }

  lemma {:induction false} FirstItemIs(b: seq<Item>, name: seq<Byte>, j: nat)
    requires j < |b| && b[j].N? && NameEq(b[j].name, name) && forall i | 0 <= i < j && b[i].N? :: !NameEq(b[i].name, name)
    ensures FirstItem(b, name) == Some(j)
  {
  }

  /** A name matched by one stored name under two wanted names relates the two. */
  lemma TwoMatch(stored: seq<Byte>, a: seq<Byte>, b: seq<Byte>)
    requires NameEq(stored, a) && NameEq(stored, b)
    ensures NameEq(a, b) || NameEq(b, a)
  {
    if |a| <= |b| { assert a <= b; } else { assert b <= a; }
  }

  /** Another child's merge leaves what was absorbed. */
  lemma KeptByMerge(c: seq<Item>, j: nat, items: seq<Item>, x: Item, y: Item)
    requires x.N? && y.N? && !NameEq(x.name, y.name) && !NameEq(y.name, x.name) && AbsorbsNode(c, y)
    requires FirstItem(c, x.name) == Some(j)
    ensures AbsorbsNode(c[j := N(c[j].name, items)], y)
  {
    hide NameEq, Absorbs;
    var d, k := c[j := N(c[j].name, items)], FirstItem(c, y.name).value;
    if j == k { TwoMatch(c[j].name, x.name, y.name); }
    FirstItemIs(d, y.name, k);
  }

  /** A new child leaves what was absorbed. */
  lemma KeptByAdd(b: seq<Item>, x: Item, y: Item)
    requires x.N? && y.N? && !NameEq(x.name, y.name) && AbsorbsNode(b, y)
    ensures AbsorbsNode(AddNode(b, x.name), y)
  {
    hide NameEq, Absorbs;
    var c, n, k := AddNode(b, x.name), LeadItems(b), FirstItem(b, y.name).value;
    assert k >= n;
    assert c[k + 1] == b[k];
    FirstItemIs(c, y.name, k + 1);
  }

  lemma KeptByChild(b: seq<Item>, x: Item, y: Item, items: seq<Item>)
    requires x.N? && y.N? && !NameEq(x.name, y.name) && !NameEq(y.name, x.name) && AbsorbsNode(b, y)
    ensures var c := WithChild(b, x.name);
            FirstItem(c, x.name).Some? && var j := FirstItem(c, x.name).value; AbsorbsNode(c[j := N(c[j].name, items)], y)
  {
    hide AbsorbsNode, NameEq, AddNode;
    ChildThere(b, x.name);
    var c := WithChild(b, x.name);
    if FirstItem(b, x.name).None? { KeptByAdd(b, x, y); }
    KeptByMerge(c, FirstItem(c, x.name).value, items, x, y);
  }

  lemma ChildThere(b: seq<Item>, name: seq<Byte>)
    ensures FirstItem(WithChild(b, name), name).Some?
  {
    if FirstItem(b, name).None? {
      var c, n := AddNode(b, name), LeadItems(b);
      assert c[n] == N(name, []) && NameEq(c[n].name, name);
    }
  }

  /** Merging one child keeps every property value. */
  lemma ValueKept(b: seq<Item>, x: Item, items: seq<Item>, name: seq<Byte>)
    requires x.N?
    ensures var c := WithChild(b, x.name);
            FirstItem(c, x.name).Some? && var j := FirstItem(c, x.name).value; Value(c[j := N(c[j].name, items)], name) == Value(b, name)
  {
    hide NameEq, FindItem, Value;
    ChildThere(b, x.name);
    var n, c := LeadItems(b), WithChild(b, x.name);
    LeadStops(b);
    assert c[..n] == b[..n];
    LeadIs(c, n);
    var j := FirstItem(c, x.name).value;
    assert j >= n;
    var d := c[j := N(c[j].name, items)];
    LeadIs(d, n);
    assert d[..n] == b[..n];
    ValueLead(b, d, name);
  }

  /** Properties not in the overlay keep their value. */
  lemma {:induction false} OthersKept(b: seq<Item>, xs: seq<Item>, name: seq<Byte>)
    requires forall i | 0 <= i < LeadItems(xs) :: xs[i].name != name
    ensures Value(MergeProps(b, xs), name) == Value(b, name)
    decreases |xs|
  {
    hide Value, SetProp;
    if xs != [] && xs[0].P? {
      ValueSet(b, xs[0].name, xs[0].value, name);
      assert forall i | 0 <= i < LeadItems(xs[1..]) :: xs[1..][i] == xs[i + 1];
      OthersKept(SetProp(b, xs[0].name, xs[0].value), xs[1..], name);
    }
  }

  /** Properties in the overlay take its value. */
  lemma {:induction false} OverlayWins(b: seq<Item>, xs: seq<Item>, k: nat)
    requires k < LeadItems(xs) && forall i, j | 0 <= i < j < LeadItems(xs) :: xs[i].name != xs[j].name
    ensures Value(MergeProps(b, xs), xs[k].name) == Some(xs[k].value)
    decreases |xs|
  {
    hide Value, SetProp;
    var c, rest := SetProp(b, xs[0].name, xs[0].value), xs[1..];
    assert forall i | 0 <= i < LeadItems(rest) :: rest[i] == xs[i + 1];
    if k == 0 {
      ValueSet(b, xs[0].name, xs[0].value, xs[0].name);
      OthersKept(c, rest, xs[0].name);
    } else {
      OverlayWins(c, rest, k - 1);
    }
  }

  /** Absorbed nodes that no later overlay node could be taken for. */
  ghost predicate Settled(b: seq<Item>, done: seq<Item>, xs: seq<Item>) {
    forall i {:trigger done[i]} | 0 <= i < |done| ::
      && done[i].N? && AbsorbsNode(b, done[i])
      && forall j {:trigger xs[j]} | 0 <= j < |xs| && xs[j].N? :: !NameEq(done[i].name, xs[j].name) && !NameEq(xs[j].name, done[i].name)
  }

  ghost predicate Apart(xs: seq<Item>) {
    && (forall i, j | 0 <= i < |xs| && 0 <= j < |xs| && i != j && xs[i].N? && xs[j].N? :: !NameEq(xs[i].name, xs[j].name))
    && (forall i | 0 <= i < |xs| && xs[i].N? :: Distinctive(xs[i].items))
  }

  /** Merging the nodes absorbs them all, keeps those absorbed before, and keeps every property value. */
  lemma {:induction false} NodesAbsorb(b: seq<Item>, xs: seq<Item>, done: seq<Item>)
    requires Apart(xs) && Settled(b, done, xs)
    ensures var r := MergeNodes(b, xs);
            && (forall i {:trigger done[i]} | 0 <= i < |done| :: done[i].N? && AbsorbsNode(r, done[i]))
            && (forall i {:trigger xs[i]} | 0 <= i < |xs| && xs[i].N? :: AbsorbsNode(r, xs[i]))
            && (forall name :: Value(r, name) == Value(b, name))
    decreases xs, 0
  {
    if xs != [] {
      hide Value, Distinctive, AbsorbsNode, Merge, NameEq;
      ApartRest(xs);
      var x, rest := xs[0], xs[1..];
      if x.P? {
        SettledRest(b, done, xs);
        NodesAbsorb(b, rest, done);
      } else {
        var c := WithChild(b, x.name);
        ChildThere(b, x.name);
        var j := FirstItem(c, x.name).value;
        var items := Merge(c[j].items, x.items);
        var d := c[j := N(c[j].name, items)];
        MergeAbsorbs(c[j].items, x.items);
        HeadAbsorbed(c, j, items, x);
        SettledMore(b, done, xs, items);
        NodesAbsorb(d, rest, done + [x]);
        forall name ensures Value(MergeNodes(b, xs), name) == Value(b, name) { ValueKept(b, x, items, name); }
        var r := MergeNodes(d, rest);
        assert forall i | 0 <= i < |done| :: (done + [x])[i] == done[i];
        assert (done + [x])[|done|] == x;
      }
      assert forall i | 0 < i < |xs| :: xs[i] == rest[i - 1];
    }
  }

  lemma ApartRest(xs: seq<Item>)
    requires xs != [] && Apart(xs)
    ensures Apart(xs[1..]) && (xs[0].N? ==> Distinctive(xs[0].items))
  {
    hide Distinctive;
    var rest := xs[1..];
    assert forall i | 0 <= i < |rest| :: rest[i] == xs[i + 1];
  }

  lemma SettledRest(b: seq<Item>, done: seq<Item>, xs: seq<Item>)
    requires xs != [] && Settled(b, done, xs)
    ensures Settled(b, done, xs[1..])
  {
    hide AbsorbsNode, NameEq;
    var rest := xs[1..];
    assert forall i | 0 <= i < |rest| :: rest[i] == xs[i + 1];
  }

  lemma HeadAbsorbed(c: seq<Item>, j: nat, items: seq<Item>, x: Item)
    requires x.N? && FirstItem(c, x.name) == Some(j) && Absorbs(items, x.items)
    ensures AbsorbsNode(c[j := N(c[j].name, items)], x)
  {
    hide NameEq, Absorbs;
    FirstItemIs(c[j := N(c[j].name, items)], x.name, j);
  }

  lemma SettledMore(b: seq<Item>, done: seq<Item>, xs: seq<Item>, items: seq<Item>)
    requires xs != [] && xs[0].N? && Apart(xs) && Settled(b, done, xs)
    requires var c := WithChild(b, xs[0].name); FirstItem(c, xs[0].name).Some?
    requires var c := WithChild(b, xs[0].name);
             var j := FirstItem(c, xs[0].name).value; AbsorbsNode(c[j := N(c[j].name, items)], xs[0])
    ensures var c := WithChild(b, xs[0].name);
            var j := FirstItem(c, xs[0].name).value; Settled(c[j := N(c[j].name, items)], done + [xs[0]], xs[1..])
  {
    hide AbsorbsNode, NameEq, Distinctive;
    var x, rest, all := xs[0], xs[1..], done + [xs[0]];
    var c := WithChild(b, x.name);
    var j := FirstItem(c, x.name).value;
    var d := c[j := N(c[j].name, items)];
    assert forall i | 0 <= i < |rest| :: rest[i] == xs[i + 1];
    forall i | 0 <= i < |all|
      ensures all[i].N? && AbsorbsNode(d, all[i])
      ensures forall k {:trigger rest[k]} | 0 <= k < |rest| && rest[k].N? :: !NameEq(all[i].name, rest[k].name) && !NameEq(rest[k].name, all[i].name)
    {
      if i < |done| {
        assert all[i] == done[i];
        KeptByChild(b, x, done[i], items);
      } else {
        assert all[i] == x;
      }
    }
  }

  /** A merge holds everything it merged. */
  lemma {:induction false} MergeAbsorbs(b: seq<Item>, xs: seq<Item>)
    requires Distinctive(xs)
    ensures Absorbs(Merge(b, xs), xs)
    decreases xs, 1
  {
    hide Value, AbsorbsNode, MergeNodes, MergeProps;
    var c := MergeProps(b, xs);
    assert Apart(xs);
    NodesAbsorb(c, xs, []);
    forall i | 0 <= i < LeadItems(xs) ensures Value(Merge(b, xs), xs[i].name) == Some(xs[i].value) {
      OverlayWins(b, xs, i);
    }
  }
}
