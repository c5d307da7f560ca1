/** Merging a node of an overlay blob into a node of another blob. */
module FdtApply {
  import opened Wrappers
  import opened FdtBytes
  import opened FdtTokens
  import opened FdtTree
  import opened FdtWalk
  import opened FdtMeaning
  import opened FdtSplice
  import opened FdtEdit
  import opened FdtRead
  import opened FdtBlob
  import opened FdtOverlay
  import opened FdtInplace

  // ----- Reading the overlay

  lemma {:induction false} NameNoZero(strs: seq<Byte>, off: nat)
    ensures 0 !in NameOf(strs, off)
    decreases |strs| - off
  {
    if off < |strs| && strs[off] != 0 { NameNoZero(strs, off + 1); }
  }

  /** The name and value of a property. */
  method ReadProperty(fdt: Fdt, offset: nat, ghost path: seq<nat>, ghost i: nat) returns (name: seq<Byte>, value: seq<Byte>)
    requires fdt.Valid() && fdt.EntryAt(path, i, offset) && i < Lead(fdt.Kids(path)) && fdt.Kids(path)[i].PropP?
    ensures name == NameOf(fdt.Strings(), fdt.Kids(path)[i].nameoff) && value == fdt.Kids(path)[i].value
    ensures 0 !in name && |value| < MAX_TOTAL
  {
    hide fdt.EntryAt, Flat, Lexes, Off, IsAt, At, NameOf, Word, Named, Before, Parses;
    var len;
    name, len := PropertyAt(fdt, offset, path, i);
    NameNoZero(fdt.Strings(), fdt.Kids(path)[i].nameoff);
    ValueBytes(fdt, path, i, offset);
    value := fdt.buf[fdt.offStruct + offset + 12..fdt.offStruct + offset + 12 + len];
    SubSlice(fdt.buf[..], fdt.offStruct, fdt.sizeStruct, offset + 12, offset + 12 + len);
  }

  /** The name of a child. */
  method ReadName(fdt: Fdt, offset: int, ghost path: seq<nat>, ghost j: nat) returns (name: seq<Byte>)
    requires fdt.Valid() && fdt.NodeAt(path) && j < |fdt.Kids(path)| && fdt.Kids(path)[j].NodeP? && fdt.OffsetOf(path + [j], offset)
    ensures name == fdt.Kids(path)[j].name && 0 !in name
  {
    hide Flat, Lexes, Off, IsAt, At, Named, Before;
    ghost var k := Before(fdt.ps, path + [j]);
    ChildPlace(fdt.ps, path, j);
    NodeOffset(fdt.ps, path + [j]);
    TokenAt(fdt.Struct(), fdt.Tokens(), k);
    name := fdt.NameAt(offset, k);
  }

  // ----- The overlay's entries as a tree

  lemma ItemsProp(kids: seq<Piece>, strs: seq<Byte>, i: nat)
    requires i < |kids| && kids[i].PropP?
    ensures Items(kids[i..], strs) == [P(NameOf(strs, kids[i].nameoff), kids[i].value)] + Items(kids[i + 1..], strs)
  {
    hide Items, NameOf;
    ItemsHead(kids[i..], strs);
    assert kids[i..][1..] == kids[i + 1..];
    var xs := Items(kids[i..], strs);
    assert xs == [xs[0]] + xs[1..];
  }

  lemma ItemsNode(kids: seq<Piece>, strs: seq<Byte>, i: nat)
    requires i < |kids| && kids[i].NodeP?
    ensures Items(kids[i..], strs) == [N(kids[i].name, Items(kids[i].kids, strs))] + Items(kids[i + 1..], strs)
  {
    hide Items;
    ItemsHead(kids[i..], strs);
    assert kids[i..][1..] == kids[i + 1..];
    var xs := Items(kids[i..], strs);
    assert xs == [xs[0]] + xs[1..];
  }

  lemma {:induction false} ItemsNops(kids: seq<Piece>, strs: seq<Byte>, i: nat, n: nat)
    requires i <= n <= |kids| && forall m | i <= m < n :: kids[m].NopP?
    ensures Items(kids[i..], strs) == Items(kids[n..], strs)
    decreases n - i
  {
    hide Items;
    if i < n {
      ItemsHead(kids[i..], strs);
      assert kids[i..][1..] == kids[i + 1..];
      ItemsNops(kids, strs, i + 1, n);
    }
  }

  /** Past the leading entries there are no properties left to merge. */
  lemma PropsOver(b: seq<Item>, kids: seq<Piece>, strs: seq<Byte>)
    ensures MergeProps(b, Items(kids[Lead(kids)..], strs)) == b && PropsCost(Items(kids[Lead(kids)..], strs)) == 0
  {
    hide Items;
    var n := Lead(kids);
    ItemsHead(kids[n..], strs);
    LeadThenNode(kids);
    if n < |kids| { ItemsNode(kids, strs, n); }
  }

  lemma {:induction false} LeadThenNode(kids: seq<Piece>)
    ensures Lead(kids) < |kids| ==> kids[Lead(kids)].NodeP?
  {
    if kids != [] && !kids[0].NodeP? { LeadThenNode(kids[1..]); }
  }

  /** Entries that are no nodes do not matter to the second pass. */
  lemma {:induction false} NodesOver(b: seq<Item>, kids: seq<Piece>, strs: seq<Byte>, i: nat, n: nat)
    requires i <= n <= |kids| && forall m | i <= m < n :: !kids[m].NodeP?
    ensures MergeNodes(b, Items(kids[i..], strs)) == MergeNodes(b, Items(kids[n..], strs))
    ensures NodesCost(Items(kids[i..], strs)) == NodesCost(Items(kids[n..], strs))
    decreases n - i
  {
    hide Items, NameOf;
    if i < n {
      NodesOver(b, kids, strs, i + 1, n);
      if kids[i].NopP? {
        ItemsNops(kids, strs, i, i + 1);
      } else {
        ItemsProp(kids, strs, i);
        assert Items(kids[i..], strs)[1..] == Items(kids[i + 1..], strs);
      }
    }
  }

  // ----- The two passes

  /** The blobs do not share memory. */
  ghost predicate Separate(fdt: Fdt, fdto: Fdt) {
    fdt != fdto && fdt.buf != fdto.buf
  }

  /** Sets one property of the overlay node in the target. */
  method ApplyProperty(fdt: Fdt, target: nat, fdto: Fdt, entry: nat, ghost path: seq<nat>, ghost opath: seq<nat>, ghost i: nat) returns (err: int)
    requires fdt.Valid() && fdt.OffsetOf(path, target) && fdto.Valid() && Separate(fdt, fdto)
    requires fdto.EntryAt(opath, i, entry) && i < Lead(fdto.Kids(opath)) && fdto.Kids(opath)[i].PropP?
    modifies fdt, fdt.buf
    ensures fdt.Valid() && fdt.OffsetOf(path, target) && Reshaped(old(fdt.ps), fdt.ps, path) && old(fdt.Strings()) <= fdt.Strings()
    ensures err == 0 || err == NOSPACE
    ensures var p := fdto.Kids(opath)[i];
            var name := NameOf(fdto.Strings(), p.nameoff);
            && (err == 0 ==> fdt.Body(path) == SetProp(old(fdt.Body(path)), name, p.value))
            && (err == 0 ==> fdt.DataSize() <= old(fdt.DataSize()) + PropCost(name, p.value))
            && (err == NOSPACE ==> old(fdt.DataSize()) + PropCost(name, p.value) > fdt.totalsize)
  {
    hide fdt.Valid, fdt.OffsetOf, fdt.EntryAt, fdt.IsNode, SetProp, Reshaped, fdt.Strings, fdt.DataSize, PropCost, fdt.Growth, Items, NameOf, Lead;
    var name, value := ReadProperty(fdto, entry, opath, i);
    fdt.NodeIsNode(path, target);
    GrowthBound(fdt, path, name, value);
    err := fdt.SetProperty(target, name, value, path);
  }

  /** The next property of the overlay node after entry `i`. */
  method NextOverlay(fdto: Fdt, entry: nat, ghost opath: seq<nat>, ghost i: nat) returns (r: int, ghost n: nat)
    requires fdto.Valid() && fdto.EntryAt(opath, i, entry) && i < Lead(fdto.Kids(opath))
    ensures var kids, strs := fdto.Kids(opath), fdto.Strings();
            && i < n <= Lead(kids) && Items(kids[n..], strs) == Items(kids[i + 1..], strs)
            && if n < Lead(kids) then kids[n].PropP? && fdto.EntryAt(opath, n, r) else r == NOTFOUND
  {
    hide fdto.Valid, fdto.EntryAt, fdto.IsNode, Items, Lead, fdto.Strings;
    var tag, next := fdto.ReadEntry(entry, opath, i);
    r, n := fdto.NextProp(next, opath, i + 1);
    ItemsNops(fdto.Kids(opath), fdto.Strings(), i + 1, n);
  }

  method FirstOverlay(fdto: Fdt, node: int, ghost opath: seq<nat>) returns (r: int, ghost n: nat)
    requires fdto.Valid() && fdto.OffsetOf(opath, node)
    ensures var kids, strs := fdto.Kids(opath), fdto.Strings();
            && n <= Lead(kids) && Items(kids[n..], strs) == Items(kids, strs)
            && if n < Lead(kids) then kids[n].PropP? && fdto.EntryAt(opath, n, r) else r == NOTFOUND
  {
    hide fdto.Valid, fdto.OffsetOf, fdto.EntryAt, fdto.IsNode, Items, Lead, fdto.Strings;
    fdto.NodeIsNode(opath, node);
    var entry := fdto.Enter(node, opath);
    r, n := fdto.NextProp(entry, opath, 0);
    assert fdto.Kids(opath)[0..] == fdto.Kids(opath);
    ItemsNops(fdto.Kids(opath), fdto.Strings(), 0, n);
  }

  lemma PropsStep(b: seq<Item>, kids: seq<Piece>, strs: seq<Byte>, i: nat)
    requires i < |kids| && kids[i].PropP?
    ensures var name, value := NameOf(strs, kids[i].nameoff), kids[i].value;
            && MergeProps(b, Items(kids[i..], strs)) == MergeProps(SetProp(b, name, value), Items(kids[i + 1..], strs))
            && PropsCost(Items(kids[i..], strs)) == PropCost(name, value) + PropsCost(Items(kids[i + 1..], strs))
  {
    hide SetProp, PropCost, NameOf, Items;
    ItemsProp(kids, strs, i);
    assert Items(kids[i..], strs)[1..] == Items(kids[i + 1..], strs);
  }

  /** Sets the properties of the overlay node in the target. */
  method ApplyProps(fdt: Fdt, target: nat, fdto: Fdt, node: int, ghost path: seq<nat>, ghost opath: seq<nat>) returns (err: int)
    requires fdt.Valid() && fdt.OffsetOf(path, target) && fdto.Valid() && fdto.OffsetOf(opath, node) && Separate(fdt, fdto)
    modifies fdt, fdt.buf
    ensures fdt.Valid() && fdt.OffsetOf(path, target) && Reshaped(old(fdt.ps), fdt.ps, path) && old(fdt.Strings()) <= fdt.Strings()
    ensures err == 0 || err == NOSPACE
    ensures err == 0 ==> fdt.Body(path) == MergeProps(old(fdt.Body(path)), fdto.Body(opath))
    ensures err == 0 ==> fdt.DataSize() <= old(fdt.DataSize()) + PropsCost(fdto.Body(opath))
    ensures err == NOSPACE ==> old(fdt.DataSize()) + PropsCost(fdto.Body(opath)) > fdt.totalsize
  {
    hide fdt.Valid, fdt.OffsetOf, fdt.EntryAt, fdt.IsNode, SetProp, Reshaped, fdt.Strings, fdt.DataSize, PropCost, Items, NameOf, Lead, MergeProps, PropsCost;
    ghost var b, start, kids, strs := fdt.Body(path), fdt.ps, fdto.Kids(opath), fdto.Strings();
    ReshapedStart(fdt, path);
    ghost var i;
    var entry;
    entry, i := FirstOverlay(fdto, node, opath);
    while entry >= 0
      invariant fdt.Valid() && fdt.OffsetOf(path, target) && Reshaped(start, fdt.ps, path) && old(fdt.Strings()) <= fdt.Strings()
      invariant i <= Lead(kids) && if i < Lead(kids) then kids[i].PropP? && fdto.EntryAt(opath, i, entry) else entry == NOTFOUND
      invariant MergeProps(b, Items(kids, strs)) == MergeProps(fdt.Body(path), Items(kids[i..], strs))
      invariant fdt.DataSize() + PropsCost(Items(kids[i..], strs)) <= old(fdt.DataSize()) + PropsCost(Items(kids, strs))
      decreases |kids| - i, entry
    {
      ghost var before := fdt.ps;
      PropsStep(fdt.Body(path), kids, strs, i);
      err := ApplyProperty(fdt, target, fdto, entry, path, opath, i);
      ReshapedTwice(start, before, fdt.ps, path);
      if err != 0 { return; }
      entry, i := NextOverlay(fdto, entry, opath, i);
    }
    PropsOver(fdt.Body(path), kids, strs);
    err := 0;
  }

  /** One child and the rest. */
  lemma NodesStep(b: seq<Item>, kids: seq<Piece>, strs: seq<Byte>, j: nat)
    requires j < |kids| && kids[j].NodeP?
    ensures var x, rest := N(kids[j].name, Items(kids[j].kids, strs)), Items(kids[j + 1..], strs);
            var c := WithChild(b, x.name);
            var r := FirstItem(c, x.name);
            && NodesCost(Items(kids[j..], strs)) == NodeCost(x) + NodesCost(rest)
            && (r.Some? ==> MergeNodes(b, Items(kids[j..], strs)) == MergeNodes(c[r.value := N(c[r.value].name, Merge(c[r.value].items, x.items))], rest))
  {
    hide WithChild, FirstItem, Merge, NodeCost, Items;
    ItemsNode(kids, strs, j);
    assert Items(kids[j..], strs)[1..] == Items(kids[j + 1..], strs);
  }

  lemma ToNext(b: seq<Item>, kids: seq<Piece>, strs: seq<Byte>, j: nat)
    requires j <= |kids|
    ensures var n := FirstNode(kids[j..]);
            var k := if n.Some? then j + n.value else |kids|;
            MergeNodes(b, Items(kids[j..], strs)) == MergeNodes(b, Items(kids[k..], strs)) && NodesCost(Items(kids[j..], strs)) == NodesCost(Items(kids[k..], strs))
  {
    hide FirstNode, MergeNodes, NodesCost, Items;
    var n := FirstNode(kids[j..]);
    assert forall m | j <= m < |kids| :: kids[m] == kids[j..][m - j];
    NodesOver(b, kids, strs, j, if n.Some? then j + n.value else |kids|);
  }

  lemma NoneLeft(b: seq<Item>, kids: seq<Piece>, strs: seq<Byte>)
    ensures MergeNodes(b, Items(kids[|kids|..], strs)) == b && NodesCost(Items(kids[|kids|..], strs)) == 0
  {
    assert kids[|kids|..] == [];
  }

  /** One child of the overlay node: found or added in the target, then merged into. */
  method ApplyChild(fdt: Fdt, target: nat, fdto: Fdt, child: int, ghost path: seq<nat>, ghost opath: seq<nat>, ghost j: nat) returns (err: int)
    requires fdt.Valid() && fdt.OffsetOf(path, target) && fdto.Valid() && Separate(fdt, fdto)
    requires fdto.NodeAt(opath) && j < |fdto.Kids(opath)| && fdto.Kids(opath)[j].NodeP? && fdto.OffsetOf(opath + [j], child)
    modifies fdt, fdt.buf
    ensures fdt.Valid() && fdt.OffsetOf(path, target) && Reshaped(old(fdt.ps), fdt.ps, path) && old(fdt.Strings()) <= fdt.Strings()
    ensures err == 0 || err == NOSPACE
    ensures var x := N(fdto.Kids(opath)[j].name, Items(fdto.Kids(opath)[j].kids, fdto.Strings()));
            && (err == 0 ==> var c := WithChild(old(fdt.Body(path)), x.name);
                             var r := FirstItem(c, x.name);
                             r.Some? && fdt.Body(path) == c[r.value := N(c[r.value].name, Merge(c[r.value].items, x.items))])
            && (err == 0 ==> fdt.DataSize() <= old(fdt.DataSize()) + NodeCost(x))
            && (err == NOSPACE ==> old(fdt.DataSize()) + NodeCost(x) > fdt.totalsize)
    decreases |Flat(fdto.Kids(opath)[j].kids)|, 2
  {
    hide fdt.Valid, Merge, Reshaped, fdt.Strings, FirstItem, WithChild, Items, Flat, Off, Before, IsAt, At, Named, fdt.DataSize, Cost, Align4;
    ghost var start := fdt.ps;
    var name := ReadName(fdto, child, opath, j);
    ChildPlace(fdto.ps, opath, j);
    var nnode;
    ghost var i;
    nnode, i := FindOrAdd(fdt, target, name, path);
    if nnode < 0 { return nnode; }
    ghost var ps, strs, kids := fdt.ps, fdt.Strings(), fdt.Kids(path);
    ChildIndex(kids, name, strs);
    ChildBody(fdt, path, i, name);
    KidsNamed(fdt, path);
    err := ApplyNode(fdt, nnode, fdto, child, path + [i], opath + [j]);
    ghost var more := fdt.Strings()[|strs|..];
    assert fdt.Strings() == strs + more;
    BackUp(fdt, ps, path, i, target);
    ReshapedTwice(start, ps, fdt.ps, path);
    BodyChanged(kids, i, At(fdt.ps, path + [i]), strs, more);
  }

  /** The children of the overlay node, in order. */
  method ApplyChildren(fdt: Fdt, target: nat, fdto: Fdt, node: int, ghost path: seq<nat>, ghost opath: seq<nat>) returns (err: int)
    requires fdt.Valid() && fdt.OffsetOf(path, target) && fdto.Valid() && fdto.OffsetOf(opath, node) && Separate(fdt, fdto)
    modifies fdt, fdt.buf
    ensures fdt.Valid() && fdt.OffsetOf(path, target) && Reshaped(old(fdt.ps), fdt.ps, path) && old(fdt.Strings()) <= fdt.Strings()
    ensures err == 0 || err == NOSPACE
    ensures err == 0 ==> fdt.Body(path) == MergeNodes(old(fdt.Body(path)), fdto.Body(opath))
    ensures err == 0 ==> fdt.DataSize() <= old(fdt.DataSize()) + NodesCost(fdto.Body(opath))
    ensures err == NOSPACE ==> old(fdt.DataSize()) + NodesCost(fdto.Body(opath)) > fdt.totalsize
    decreases |Flat(fdto.Kids(opath))|, 0
  {
    hide fdt.Valid, fdt.OffsetOf, MergeNodes, WithChild, Merge, Reshaped, fdt.Strings, Items, FirstItem, fdt.DataSize, NodeCost, NodesCost, FirstNode, Flat;
    ghost var b, start, kids, strs := fdt.Body(path), fdt.ps, fdto.Kids(opath), fdto.Strings();
    ReshapedStart(fdt, path);
    assert kids[0..] == kids;
    ToNext(b, kids, strs, 0);
    ghost var j;
    var child;
    child, j := FirstSubnode(fdto, node, opath);
    while child >= 0
      invariant fdt.Valid() && fdt.OffsetOf(path, target) && Reshaped(start, fdt.ps, path) && old(fdt.Strings()) <= fdt.Strings()
      invariant child >= 0 ==> j < |kids| && kids[j].NodeP? && fdto.OffsetOf(opath + [j], child)
      invariant var rest := Items(kids[if child >= 0 then j else |kids|..], strs);
                && MergeNodes(b, Items(kids, strs)) == MergeNodes(fdt.Body(path), rest)
                && fdt.DataSize() + NodesCost(rest) <= old(fdt.DataSize()) + NodesCost(Items(kids, strs))
      decreases |kids| - if child >= 0 then j else |kids|, child
    {
      ghost var before := fdt.ps;
      NodesStep(fdt.Body(path), kids, strs, j);
      SmallerChild(kids, j);
      err := ApplyChild(fdt, target, fdto, child, path, opath, j);
      ReshapedTwice(start, before, fdt.ps, path);
      if err != 0 { return; }
      ToNext(fdt.Body(path), kids, strs, j + 1);
      child, j := NextSubnode(fdto, child, opath, j);
    }
    NoneLeft(fdt.Body(path), kids, strs);
    err := 0;
  }

  /** Merges a node of the overlay blob into the node at `target`, which stays where it is. */
  method ApplyNode(fdt: Fdt, target: nat, fdto: Fdt, node: int, ghost path: seq<nat>, ghost opath: seq<nat>) returns (err: int)
    requires fdt.Valid() && fdt.OffsetOf(path, target) && fdto.Valid() && fdto.OffsetOf(opath, node) && Separate(fdt, fdto)
    modifies fdt, fdt.buf
    ensures fdt.Valid() && fdt.OffsetOf(path, target) && Reshaped(old(fdt.ps), fdt.ps, path) && old(fdt.Strings()) <= fdt.Strings()
    ensures err == 0 || err == NOSPACE
    ensures err == 0 ==> fdt.Body(path) == Merge(old(fdt.Body(path)), fdto.Body(opath)) && fdt.DataSize() <= old(fdt.DataSize()) + Cost(fdto.Body(opath))
    ensures err == NOSPACE ==> old(fdt.DataSize()) + Cost(fdto.Body(opath)) > fdt.totalsize
    ensures err == 0 ==> fdt.Tree() == old(fdt.WithBody(path, Merge(fdt.Body(path), fdto.Body(opath))))
    decreases |Flat(fdto.Kids(opath))|, 1
  {
    hide fdt.Valid, fdt.OffsetOf, MergeProps, MergeNodes, Reshaped, fdt.Strings, Items, fdt.Tree, fdt.WithBody, fdt.DataSize, NodesCost, PropsCost, Flat;
    ghost var start, strs := fdt.ps, fdt.Strings();
    ghost var body := Merge(fdt.Body(path), fdto.Body(opath));
    BlobNamed(fdt);
    WithBodyIs(fdt, path, body);
    err := ApplyProps(fdt, target, fdto, node, path, opath);
    if err != 0 { return; }
    ghost var middle := fdt.ps;
    err := ApplyChildren(fdt, target, fdto, node, path, opath);
    ReshapedTwice(start, middle, fdt.ps, path);
    if err == 0 { TreeAfter(fdt, start, path, strs, body); }
  }
}
