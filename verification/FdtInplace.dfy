/** Reading and writing property values in place, and going from child to child. */
module FdtInplace {
  import opened Wrappers
  import opened FdtBytes
  import opened FdtTokens
  import opened FdtTree
  import opened FdtWalk
  import opened FdtSplice
  import opened FdtEdit
  import opened FdtRead
  import opened FdtBlob
  import opened FdtAlike

  // ----- What in-place edits keep

  /** A node keeps its offset. */
  lemma StillAt(fdt: Fdt, was: seq<Piece>, path: seq<nat>, offset: int)
    requires Alike(was, fdt.ps) && IsAt(was, path) && At(was, path).NodeP? && Before(was, path) + 1 < |Flat(was)|
    requires offset == Off(Flat(was) + [End], Before(was, path))
    ensures fdt.OffsetOf(path, offset) && Alike(At(was, path).kids, fdt.Kids(path))
  {
    hide Flat, Off, IsAt, At, Before, Alike;
    AlikePath(was, fdt.ps, path);
    AlikeBefore(was, fdt.ps, path);
    AlikeOff(was, fdt.ps, Before(was, path));
  }

  // ----- Values

  /** The name of a property. */
  method GetString(fdt: Fdt, nameoff: nat) returns (name: seq<Byte>)
    requires fdt.Shape() && Terminated(fdt.Strings(), nameoff)
    ensures name == NameOf(fdt.Strings(), nameoff)
  {
    hide NameOf, Terminated, NameEnd;
    NameSlice(fdt.Strings(), nameoff);
    var end := FindZero(fdt.buf, fdt.offStrings, fdt.sizeStrings, nameoff);
    name := fdt.buf[fdt.offStrings + nameoff..fdt.offStrings + end - 1];
    SubSlice(fdt.buf[..], fdt.offStrings, fdt.sizeStrings, nameoff, end - 1);
  }

  /** The name and length of the property at an entry. */
  method PropertyAt(fdt: Fdt, offset: nat, ghost path: seq<nat>, ghost i: nat) returns (name: seq<Byte>, len: nat)
    requires fdt.Valid() && fdt.EntryAt(path, i, offset) && i < Lead(fdt.Kids(path)) && fdt.Kids(path)[i].PropP?
    ensures name == NameOf(fdt.Strings(), fdt.Kids(path)[i].nameoff) && len == |fdt.Kids(path)[i].value|
  {
    hide Flat, Lexes, Off, IsAt, At, Holds, Len, Align4, NameOf, Terminated, Word, Named, Before;
    ghost var p, q := fdt.Kids(path)[i], KidToken(fdt.ps, path, i);
    LeadToken(fdt.ps, path, i);
    TokenAt(fdt.Struct(), fdt.Tokens(), q);
    BoundaryAligned(fdt.Tokens(), q);
    HeldProp(fdt.Struct(), offset, p.nameoff, p.value);
    NamedKids(fdt.ps, path, fdt.Strings());
    assert NamedOne(p, fdt.Strings());
    len := ReadWord(fdt.buf, fdt.offStruct, fdt.sizeStruct, offset + 4);
    var nameoff := ReadWord(fdt.buf, fdt.offStruct, fdt.sizeStruct, offset + 8);
    name := GetString(fdt, nameoff);
  }

  /** A word of the value of the property at an entry. */
  method ValueWord(fdt: Fdt, offset: nat, at: nat, ghost path: seq<nat>, ghost i: nat) returns (w: nat)
    requires fdt.Valid() && fdt.EntryAt(path, i, offset) && i < Lead(fdt.Kids(path)) && fdt.Kids(path)[i].PropP?
    requires at + 4 <= |fdt.Kids(path)[i].value|
    ensures w == Word(fdt.Kids(path)[i].value[at..at + 4]) < WORDS
  {
    hide Flat, Lexes, Off, IsAt, At, Holds, Align4, Word, Named, Before;
    ghost var p, s, q := fdt.Kids(path)[i], fdt.Struct(), KidToken(fdt.ps, path, i);
    fdt.PropEntry(path, i, offset);
    LeadToken(fdt.ps, path, i);
    TokenAt(s, fdt.Tokens(), q);
    BoundaryAligned(fdt.Tokens(), q);
    HeldProp(s, offset, p.nameoff, p.value);
    w := ReadWord(fdt.buf, fdt.offStruct, fdt.sizeStruct, offset + 12 + at);
    SubSlice(s, offset + 12, |p.value|, at, at + 4);
  }

  lemma ValueBytes(fdt: Fdt, path: seq<nat>, i: nat, offset: nat)
    requires fdt.Valid() && fdt.EntryAt(path, i, offset) && i < Lead(fdt.Kids(path)) && fdt.Kids(path)[i].PropP?
    ensures var s, p := fdt.Struct(), fdt.Kids(path)[i];
            && offset + 12 + |p.value| <= |s| && s[offset + 12..offset + 12 + |p.value|] == p.value
            && Word(s[offset + 4..offset + 8]) == |p.value|
  {
    hide Flat, Lexes, Off, IsAt, At, Holds, Align4, Word, Named, Before;
    var q, p := KidToken(fdt.ps, path, i), fdt.Kids(path)[i];
    fdt.PropEntry(path, i, offset);
    LeadToken(fdt.ps, path, i);
    TokenAt(fdt.Struct(), fdt.Tokens(), q);
    BoundaryAligned(fdt.Tokens(), q);
    HeldProp(fdt.Struct(), offset, p.nameoff, p.value);
  }

  /** Bytes written inside a value make the property with that part of its value changed. */
  lemma PatchHeld(s: seq<Byte>, t: seq<Byte>, a: nat, nameoff: nat, value: seq<Byte>, at: nat, bytes: seq<Byte>)
    requires a + 12 + Align4(|value|) <= |s| && at + |bytes| <= |value| < WORDS && t == Over(s, a + 12 + at, bytes)
    requires Word(s[a..a + 4]) == PROP && Word(s[a + 4..a + 8]) == |value| && Word(s[a + 8..a + 12]) == nameoff
    requires s[a + 12..a + 12 + |value|] == value
    ensures var b := a + 12 + Align4(|value|);
            t == s[..a] + t[a..b] + s[b..] && Lexes(t[a..b], Flat([PropP(nameoff, Over(value, at, bytes))]))
  {
    hide Word, Align4, Over;
    var b := a + 12 + Align4(|value|);
    OverApart(s, a + 12 + at, bytes, a, a + 4);
    OverApart(s, a + 12 + at, bytes, a + 4, a + 8);
    OverApart(s, a + 12 + at, bytes, a + 8, a + 12);
    OverPart(s, a + 12, value, at, bytes);
    OverInside(s, a + 12 + at, bytes, a, b);
    Glue(t, a, b);
    PropHeld(t, a, nameoff, Over(value, at, bytes));
  }

  lemma Glue(t: seq<Byte>, a: nat, b: nat)
    requires a <= b <= |t|
    ensures t == t[..a] + t[a..b] + t[b..]
  {
  }

  lemma OverPart(s: seq<Byte>, a: nat, value: seq<Byte>, at: nat, bytes: seq<Byte>)
    requires a + |value| <= |s| && at + |bytes| <= |value| && s[a..a + |value|] == value
    ensures Over(s, a + at, bytes)[a..a + |value|] == Over(value, at, bytes)
  {
    var t, u := Over(s, a + at, bytes)[a..a + |value|], Over(value, at, bytes);
    assert forall k | 0 <= k < |value| :: value[k] == s[a + k] && t[k] == u[k];
  }

  /** Overwrites part of a property's value. */
  method SetInplacePartial(fdt: Fdt, offset: int, name: seq<Byte>, at: nat, bytes: seq<Byte>, ghost path: seq<nat>) returns (err: int)
    requires fdt.Valid() && fdt.OffsetOf(path, offset) && at + |bytes| < WORDS
    modifies fdt.buf, fdt`ps
    ensures fdt.Valid() && fdt.OffsetOf(path, offset) && fdt.Strings() == old(fdt.Strings())
    ensures var r := FindProp(old(fdt.Kids(path)), old(fdt.Strings()), name);
            if r.None? then err == NOTFOUND && fdt.ps == old(fdt.ps) else
            var p := old(fdt.Kids(path))[r.value];
            if at + |bytes| > |p.value| then err == NOSPACE && fdt.ps == old(fdt.ps) else
            err == 0 && fdt.ps == Rebody(old(fdt.ps), path, r.value, 1, [p.(value := Over(p.value, at, bytes))])
  {
    hide Flat, Lexes, Parses, Named, Items, IsAt, At, Edit, Off, Before, HasItem, ItemPath, Block, NameOf, Align4, Lead, Word, KidToken, Over, FindProp, fdt.IsNode;
    fdt.NodeIsNode(path, offset);
    ghost var s, strs, kids := fdt.Struct(), fdt.Strings(), fdt.Kids(path);
    var r, len := fdt.GetProperty(offset, name, path);
    if r < 0 { return r; }
    if len < at + |bytes| { return NOSPACE; }
    ghost var i := FindProp(kids, strs, name).value;
    ghost var p := kids[i];
    ghost var now := p.(value := Over(p.value, at, bytes));
    fdt.PropEntry(path, i, r);
    NamedKids(fdt.ps, path, strs);
    NamedEntry(kids, i, now.value, strs);
    ValueBytes(fdt, path, i, r);
    fdt.Write(r + 12 + at, bytes);
    ghost var b := r + 12 + Align4(len);
    PatchHeld(s, fdt.Struct(), r, p.nameoff, p.value, at, bytes);
    assert strs + [] == strs;
    fdt.Commit(path, i, 1, [now], fdt.Struct()[r..b], s, strs, [], offset);
    err := 0;
  }

  // ----- From child to child

  /** Hopping from node to node until the next one a level below the start. */
  function Sibling(ts: seq<Token>, d: nat): (r: Option<nat>)
    ensures r.Some? ==> r.value < |ts| && ts[r.value].Begin?
  {
    var n := Next(ts, d);
    if n.Node? then (if n.depth == 1 then Some(n.index) else Plus(n.index + 1, Sibling(ts[n.index + 1..], n.depth))) else None
  }

  /** The same, token by token. */
  lemma SiblingStep(ts: seq<Token>, d: nat)
    requires ts != []
    ensures ts[0].Begin? ==> Sibling(ts, d) == if d == 0 then Some(0) else Plus(1, Sibling(ts[1..], d + 1))
    ensures ts[0].Prop? || ts[0].Nop? ==> Sibling(ts, d) == Plus(1, Sibling(ts[1..], d))
    ensures ts[0].EndNode? ==> Sibling(ts, d) == if d == 0 then None else Plus(1, Sibling(ts[1..], d - 1))
  {
    hide Next;
    NextStep(ts, d);
    if ts[0].Prop? || ts[0].Nop? || (ts[0].EndNode? && d > 0) {
      var n := Next(ts[1..], if ts[0].EndNode? then d - 1 else d);
      if n.Node? { assert ts[1..][n.index + 1..] == ts[n.index + 2..]; }
    }
  }

  lemma {:induction false} SiblingDeep(ps: seq<Piece>, rest: seq<Token>, d: nat)
    requires d > 0
    ensures Sibling(Flat(ps) + rest, d) == Plus(|Flat(ps)|, Sibling(rest, d))
    decreases ps
  {
    hide FlatOne, Flat, Sibling;
    FlatOpens(ps);
    if ps == [] {
      assert [] + rest == rest;
    } else {
      FlatHead(ps, rest);
      FlatLength(ps);
      SiblingStep(Flat(ps) + rest, d);
      var tail := Flat(ps[1..]) + rest;
      SiblingDeep(ps[1..], rest, d);
      if ps[0].NodeP? {
        SiblingStep([EndNode] + tail, d + 1);
        SiblingDeep(ps[0].kids, [EndNode] + tail, d + 1);
        assert ([EndNode] + tail)[1..] == tail;
      }
    }
  }

  /** The first child. */
  function FirstNode(kids: seq<Piece>): (r: Option<nat>)
    ensures r.Some? ==> r.value < |kids| && kids[r.value].NodeP? && forall i | 0 <= i < r.value :: !kids[i].NodeP?
    ensures r.None? ==> forall i | 0 <= i < |kids| :: !kids[i].NodeP?
  {
    if kids == [] then None else if kids[0].NodeP? then Some(0) else Plus(1, FirstNode(kids[1..]))
  }

  lemma {:induction false} SiblingFirst(kids: seq<Piece>, rest: seq<Token>)
    requires rest != [] && rest[0] == EndNode
    ensures Sibling(Flat(kids) + rest, 0) == FirstNode(kids)
    decreases kids
  {
    hide FlatOne, Flat, Sibling;
    FlatOpens(kids);
    if kids == [] {
      assert [] + rest == rest;
      SiblingStep(rest, 0);
    } else {
      FlatHead(kids, rest);
      SiblingStep(Flat(kids) + rest, 0);
      if !kids[0].NodeP? { SiblingFirst(kids[1..], rest); }
    }
  }

  /** The tokens after a child's opening token. */
  lemma ChildTokens(ps: seq<Piece>, path: seq<nat>, i: nat) returns (rest: seq<Token>)
    requires IsAt(ps, path) && At(ps, path).NodeP? && i < |At(ps, path).kids| && At(ps, path).kids[i].NodeP?
    ensures var kids := At(ps, path).kids;
            var ts, k := Flat(ps) + [End], KidToken(ps, path, i);
            k < |ts| && ts[k + 1..] == Flat(kids[i].kids) + ([EndNode] + (Flat(kids[i + 1..]) + ([EndNode] + rest)))
  {
    hide Flat, FlatOne, IsAt, At, Before;
    var kids := At(ps, path).kids;
    rest := NodeTokens(ps, path);
    var ts, k := Flat(ps) + [End], Before(ps, path);
    FlatAround(kids, i);
    FlatNode(kids[i]);
    var a, b, c := Flat(kids[..i]), Flat(kids[i].kids), Flat(kids[i + 1..]);
    Regroup(a, kids[i].name, b, c, [EndNode] + rest);
    assert ts[k + 1..][|a| + 1..] == ts[k + 1 + |a| + 1..];
  }

  lemma Regroup(a: seq<Token>, name: seq<Byte>, b: seq<Token>, c: seq<Token>, rest: seq<Token>)
    ensures (a + ([Begin(name)] + b + [EndNode]) + c + rest)[|a| + 1..] == b + ([EndNode] + (c + rest))
  {
    assert a + ([Begin(name)] + b + [EndNode]) + c + rest == (a + [Begin(name)]) + (b + ([EndNode] + (c + rest)));
  }

  /** The child after a child. */
  lemma SiblingNext(ps: seq<Piece>, path: seq<nat>, i: nat)
    requires IsAt(ps, path) && At(ps, path).NodeP? && i < |At(ps, path).kids| && At(ps, path).kids[i].NodeP?
    ensures KidToken(ps, path, i) < |Flat(ps) + [End]|
    ensures var kids, ts, k := At(ps, path).kids, Flat(ps) + [End], KidToken(ps, path, i);
            var next := FirstNode(kids[i + 1..]);
            && Sibling(ts[k + 1..], 1) == Plus(|Flat(kids[i].kids)| + 1, next)
            && (next.Some? ==> k + 2 + |Flat(kids[i].kids)| + next.value == KidToken(ps, path, i + 1 + next.value))
  {
    hide Flat, FlatOne, IsAt, At, Before, Sibling, FirstNode;
    var kids := At(ps, path).kids;
    var rest := ChildTokens(ps, path, i);
    var tail := Flat(kids[i + 1..]) + ([EndNode] + rest);
    SiblingDeep(kids[i].kids, [EndNode] + tail, 1);
    SiblingStep([EndNode] + tail, 1);
    assert ([EndNode] + tail)[1..] == tail;
    SiblingFirst(kids[i + 1..], [EndNode] + rest);
    var next := FirstNode(kids[i + 1..]);
    if next.Some? {
      LeadTokens(kids[i + 1..], next.value);
      assert kids[..i + 1 + next.value] == kids[..i] + [kids[i]] + kids[i + 1..][..next.value];
      FlatConcat(kids[..i] + [kids[i]], kids[i + 1..][..next.value]);
      FlatConcat(kids[..i], [kids[i]]);
      FlatSingle(kids[i]);
      FlatNode(kids[i]);
    }
  }

  lemma SmallerChild(kids: seq<Piece>, i: nat)
    requires i < |kids| && kids[i].NodeP?
    ensures |Flat(kids[i].kids)| < |Flat(kids)|
  {
    FlatAround(kids, i);
  }

  /** The first child of a node. */
  method FirstSubnode(fdt: Fdt, offset: int, ghost path: seq<nat>) returns (r: int, ghost i: nat)
    requires fdt.Valid() && fdt.OffsetOf(path, offset)
    ensures FirstNode(fdt.Kids(path)).None? ==> r == NOTFOUND
    ensures FirstNode(fdt.Kids(path)).Some? ==> i == FirstNode(fdt.Kids(path)).value && r >= 0 && fdt.OffsetOf(path + [i], r)
  {
    hide Flat, Lexes, Named, Off, IsAt, At, Before, Next, FirstNode, fdt.IsNode, Sibling;
    ghost var ts, k, kids := fdt.Tokens(), Before(fdt.ps, path), fdt.Kids(path);
    NodeOffset(fdt.ps, path);
    fdt.NodeIsNode(path, offset);
    ghost var rest := NodeTokens(fdt.ps, path);
    SiblingFirst(kids, [EndNode] + rest);
    SiblingIs(ts[k + 1..], 0);
    i := 0;
    var depth;
    r, depth := fdt.NextNode(offset, 0, k + 1);
    if r < 0 || depth != 1 { return NOTFOUND, i; }
    i := FirstNode(kids).value;
    LeadTokens(kids, i);
    ChildPlace(fdt.ps, path, i);
    NodeOffset(fdt.ps, path + [i]);
  }

  lemma SiblingIs(ts: seq<Token>, d: nat)
    ensures var n := Next(ts, d);
            Sibling(ts, d) == if !n.Node? then None else if n.depth == 1 then Some(n.index)
                              else Plus(n.index + 1, Sibling(ts[n.index + 1..], n.depth))
    ensures var n := Next(ts, d); n.Node? ==> n.depth >= 1 && (d == 0 ==> n.depth == 1)
  {
    hide Next;
    if d == 0 { FirstIsChild(ts); }
  }

  lemma {:induction false} FirstIsChild(ts: seq<Token>)
    ensures Next(ts, 0).Node? ==> Next(ts, 0).depth == 1
  {
    if ts != [] && (ts[0].Prop? || ts[0].Nop?) { FirstIsChild(ts[1..]); }
  }

  /** Token `j` opens the node reached while looking for the node after the one at token `k`. */
  ghost predicate Hopping(ts: seq<Token>, k: nat, j: nat, d: int) {
    k <= j < |ts| && ts[j].Begin? && d >= 1 && Sibling(ts[k + 1..], 1) == Plus(j - k, Sibling(ts[j + 1..], d))
  }

  lemma HopOn(ts: seq<Token>, k: nat, j: nat, d: int)
    requires Hopping(ts, k, j, d)
    ensures var n := Next(ts[j + 1..], d);
            && (!n.Node? ==> Sibling(ts[k + 1..], 1) == None)
            && (n.Node? ==> n.depth >= 1 && j + 1 + n.index < |ts|)
            && (n.Node? && n.depth == 1 ==> Sibling(ts[k + 1..], 1) == Some(j - k + n.index))
            && (n.Node? && n.depth > 1 ==> Hopping(ts, k, j + 1 + n.index, n.depth))
  {
    hide Next, Sibling, Plus;
    SiblingIs(ts[j + 1..], d);
    var n := Next(ts[j + 1..], d);
    PlusIs(j - k, None, 0);
    if n.Node? {
      assert ts[j + 1..][n.index + 1..] == ts[j + 2 + n.index..];
      PlusIs(j - k, Some(n.index), 0);
      PlusIs(j - k, Sibling(ts[j + 2 + n.index..], n.depth), n.index + 1);
    }
  }

  lemma PlusIs(a: nat, o: Option<nat>, b: nat)
    ensures o.Some? ==> Plus(a, o) == Some(a + o.value)
    ensures o.None? ==> Plus(a, o) == None
    ensures Plus(a, Plus(b, o)) == Plus(a + b, o)
  {
  }

  lemma HopStart(ts: seq<Token>, k: nat)
    requires k < |ts| && ts[k].Begin?
    ensures Hopping(ts, k, k, 1)
  {
    hide Sibling;
  }

  /** Goes on from the node at token `k` to the next one at its level. */
  method Advance(fdt: Fdt, offset: int, ghost k: nat) returns (r: int)
    requires fdt.Valid() && k + 1 < |fdt.Tokens()| && fdt.Tokens()[k].Begin? && offset == Off(fdt.Tokens(), k)
    ensures var n := Sibling(fdt.Tokens()[k + 1..], 1);
            if n.Some? then r == Off(fdt.Tokens(), k + 1 + n.value) else r == NOTFOUND
  {
    hide Flat, Lexes, Named, Off, Next, fdt.IsNode, Sibling, Hopping;
    ghost var ts, m := fdt.Tokens(), k;
    HopStart(ts, k);
    var depth := 1;
    r := offset;
    while true
      invariant Hopping(ts, k, m, depth) && m + 1 < |ts| && ts[m].Begin? && r == Off(ts, m)
      decreases |ts| - m
    {
      fdt.TokenIsNode(r, m);
      ghost var n := Next(ts[m + 1..], depth);
      HopOn(ts, k, m, depth);
      NotLast(ts, m, depth);
      r, depth := fdt.NextNode(r, depth, m + 1);
      if r < 0 || depth < 1 { return NOTFOUND; }
      m := m + 1 + n.index;
      if depth <= 1 { break; }
    }
  }

  /** The next child of the same parent. */
  method NextSubnode(fdt: Fdt, offset: int, ghost path: seq<nat>, ghost i: nat) returns (r: int, ghost j: nat)
    requires fdt.Valid() && fdt.NodeAt(path) && i < |fdt.Kids(path)| && fdt.Kids(path)[i].NodeP? && fdt.OffsetOf(path + [i], offset)
    ensures var next := FirstNode(fdt.Kids(path)[i + 1..]);
            && (next.None? ==> r == NOTFOUND)
            && (next.Some? ==> j == i + 1 + next.value && r >= 0 && fdt.OffsetOf(path + [j], r))
  {
    hide Flat, Lexes, Named, Off, IsAt, At, Before, FirstNode, Sibling;
    ChildPlace(fdt.ps, path, i);
    NodeOffset(fdt.ps, path + [i]);
    SiblingNext(fdt.ps, path, i);
    r := Advance(fdt, offset, KidToken(fdt.ps, path, i));
    ghost var next := FirstNode(fdt.Kids(path)[i + 1..]);
    j := 0;
    if next.Some? {
      j := i + 1 + next.value;
      ChildPlace(fdt.ps, path, j);
      NodeOffset(fdt.ps, path + [j]);
    }
  }

  lemma NotLast(ts: seq<Token>, m: nat, d: int)
    requires m + 1 < |ts| && ts[|ts| - 1] == End && d >= 0
    ensures Next(ts[m + 1..], d).Node? ==> m + 2 + Next(ts[m + 1..], d).index < |ts|
  {
  }
}
