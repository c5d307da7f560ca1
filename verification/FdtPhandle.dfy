/** Node handles (phandles): shifting those of an overlay past those of the base tree, and correcting the
    overlay's references to its own nodes. */
module FdtPhandle {
  import opened Wrappers
  import opened FdtBytes
  import opened FdtTree
  import opened FdtWalk
  import opened FdtAlike

  type Name = seq<Byte>

  /** "phandle" and "linux,phandle". */
  const PHANDLE: Name := [112, 104, 97, 110, 100, 108, 101]
  const LINUX_PHANDLE: Name := [108, 105, 110, 117, 120, 44, 112, 104, 97, 110, 100, 108, 101]

  /** The value no node may have. */
  const RESERVED: nat := 0xFFFF_FFFF

  const BADPHANDLE: int := -6
  const BADOVERLAY: int := -16
  const NOPHANDLES: int := -17

  datatype Outcome<+T> = Done(value: T) | Fail(err: int)

  /** The word in a property of four bytes. */
  function WordOf(kids: seq<Piece>, strs: seq<Byte>, name: Name): Option<nat> {
    match FindProp(kids, strs, name)
    case None => None
    case Some(i) => if |kids[i].value| == 4 then Some(Word(kids[i].value)) else None
  }

  /** A node's handle, 0 for none. */
  function Handle(kids: seq<Piece>, strs: seq<Byte>): nat {
    if WordOf(kids, strs, PHANDLE).Some? then WordOf(kids, strs, PHANDLE).value
    else if WordOf(kids, strs, LINUX_PHANDLE).Some? then WordOf(kids, strs, LINUX_PHANDLE).value
    else 0
  }

  // ----- Shifting

  function AddTo(kids: seq<Piece>, strs: seq<Byte>, name: Name, delta: nat): Outcome<seq<Piece>> {
    match FindProp(kids, strs, name)
    case None => Done(kids)
    case Some(i) =>
      if |kids[i].value| != 4 then Fail(BADPHANDLE)
      else if Word(kids[i].value) + delta >= RESERVED then Fail(NOPHANDLES)
      else Done(kids[i := kids[i].(value := WordBytes(Word(kids[i].value) + delta))])
  }

  function AddBoth(kids: seq<Piece>, strs: seq<Byte>, delta: nat): Outcome<seq<Piece>> {
    var r := AddTo(kids, strs, PHANDLE, delta);
    if r.Fail? then r else AddTo(r.value, strs, LINUX_PHANDLE, delta)
  }

  /** The children of `nodes` with the other entries of `props`. */
  function Blend(props: seq<Piece>, nodes: seq<Piece>): (r: seq<Piece>)
    requires |props| == |nodes|
    ensures |r| == |nodes| && forall i | 0 <= i < |r| :: r[i] == if nodes[i].NodeP? then nodes[i] else props[i]
  {
    seq(|nodes|, i requires 0 <= i < |nodes| => if nodes[i].NodeP? then nodes[i] else props[i])
  }

  /** A body with every handle in it and below it raised: the node's own first, then child by child. */
  function Shift(kids: seq<Piece>, strs: seq<Byte>, delta: nat): (r: Outcome<seq<Piece>>)
    ensures r.Done? ==> |r.value| == |kids|
    decreases kids, 1
  {
    var own := AddBoth(kids, strs, delta);
    if own.Fail? then own else
    AddBothLength(kids, strs, delta);
    var below := ShiftNodes(kids, strs, delta);
    if below.Fail? then below else Done(Blend(own.value, below.value))
  }

  function ShiftNodes(kids: seq<Piece>, strs: seq<Byte>, delta: nat): (r: Outcome<seq<Piece>>)
    ensures r.Done? ==> |r.value| == |kids|
    decreases kids, 0
  {
    if kids == [] then Done([]) else
    var first := if kids[0].NodeP? then Shift(kids[0].kids, strs, delta) else Done([]);
    if first.Fail? then Fail(first.err) else
    var rest := ShiftNodes(kids[1..], strs, delta);
    if rest.Fail? then rest else
    Done([if kids[0].NodeP? then NodeP(kids[0].name, first.value) else kids[0]] + rest.value)
  }

  lemma AddBothLength(kids: seq<Piece>, strs: seq<Byte>, delta: nat)
    ensures AddBoth(kids, strs, delta).Done? ==> |AddBoth(kids, strs, delta).value| == |kids|
  {
  }

  /** Entry `i` holds a handle. */
  predicate IsHandle(kids: seq<Piece>, strs: seq<Byte>, i: nat) {
    FindProp(kids, strs, PHANDLE) == Some(i) || FindProp(kids, strs, LINUX_PHANDLE) == Some(i)
  }

  /** The handle in an entry can be raised by `delta`. */
  predicate Raisable(p: Piece, delta: nat) {
    p.PropP? && |p.value| == 4 && Word(p.value) + delta < RESERVED
  }

  /** The entries of one node before and after: handles raised, the rest the same. */
  ghost predicate Raised(ks: seq<Piece>, ls: seq<Piece>, strs: seq<Byte>, delta: nat) {
    && |ls| == |ks|
    && forall i | 0 <= i < |ks| ::
         if ks[i].NodeP? then ls[i].NodeP? && ls[i].name == ks[i].name
         else if IsHandle(ks, strs, i) then Raisable(ks[i], delta) && ls[i] == ks[i].(value := WordBytes(Word(ks[i].value) + delta))
         else ls[i] == ks[i]
  }

  lemma AddToAlike(kids: seq<Piece>, strs: seq<Byte>, name: Name, delta: nat, other: Name)
    requires AddTo(kids, strs, name, delta).Done?
    ensures var r := AddTo(kids, strs, name, delta).value;
            Alike(kids, r) && FindProp(r, strs, other) == FindProp(kids, strs, other)
  {
    hide NameOf;
    var r := AddTo(kids, strs, name, delta).value;
    AlikeSelf(kids);
    forall i | 0 <= i < |kids| ensures AlikeOne(kids[i], r[i]) { AlikeAt(kids, kids, i); }
    AlikeFinds(kids, r, strs, other);
  }

  lemma DifferentNames(kids: seq<Piece>, strs: seq<Byte>, i: nat)
    requires FindProp(kids, strs, PHANDLE) == Some(i)
    ensures FindProp(kids, strs, LINUX_PHANDLE) != Some(i)
  {
    hide NameOf;
    assert |PHANDLE| != |LINUX_PHANDLE|;
  }

  /** What shifting does to a node's own entries, and when it cannot. */
  lemma AddBothRaises(kids: seq<Piece>, strs: seq<Byte>, delta: nat)
    ensures var r := AddBoth(kids, strs, delta);
            && (r.Done? ==> Raised(kids, r.value, strs, delta) && forall i | 0 <= i < |kids| && kids[i].NodeP? :: r.value[i] == kids[i])
            && (r.Fail? ==> exists i :: 0 <= i < |kids| && IsHandle(kids, strs, i) && Blocks(kids[i], delta, r.err))
            && (r.Done? ==> forall i | 0 <= i < |kids| && IsHandle(kids, strs, i) :: Raisable(kids[i], delta))
  {
    hide NameOf, FindProp, Word, WordBytes;
    var a := AddTo(kids, strs, PHANDLE, delta);
    var i := FindProp(kids, strs, PHANDLE);
    if i.Some? { DifferentNames(kids, strs, i.value); }
    if a.Fail? {
      assert IsHandle(kids, strs, i.value) && Blocks(kids[i.value], delta, a.err);
    } else {
      AddToAlike(kids, strs, PHANDLE, delta, LINUX_PHANDLE);
      var j := FindProp(kids, strs, LINUX_PHANDLE);
      var b := AddTo(a.value, strs, LINUX_PHANDLE, delta);
      if b.Fail? { assert IsHandle(kids, strs, j.value) && Blocks(kids[j.value], delta, b.err); }
    }
  }

  /** Why a handle cannot be raised. */
  predicate Blocks(p: Piece, delta: nat, err: int) {
    p.PropP? && if |p.value| != 4 then err == BADPHANDLE else Word(p.value) + delta >= RESERVED && err == NOPHANDLES
  }

  // ----- Nodes below a node

  /** A node is below a body at this path; the empty path is the node itself. */
  ghost predicate Reaches(kids: seq<Piece>, path: seq<nat>)
    decreases |path|
  {
    path == [] || (path[0] < |kids| && kids[path[0]].NodeP? && Reaches(kids[path[0]].kids, path[1..]))
  }

  ghost function BodyAt(kids: seq<Piece>, path: seq<nat>): seq<Piece>
    requires Reaches(kids, path)
    decreases |path|
  {
    if path == [] then kids else BodyAt(kids[path[0]].kids, path[1..])
  }

  ghost function HandleAt(kids: seq<Piece>, strs: seq<Byte>, path: seq<nat>): nat
    requires Reaches(kids, path)
  {
    Handle(BodyAt(kids, path), strs)
  }

  /** The node has a property for a handle. */
  predicate Owns(kids: seq<Piece>, strs: seq<Byte>) {
    FindProp(kids, strs, PHANDLE).Some? || FindProp(kids, strs, LINUX_PHANDLE).Some?
  }

  lemma {:induction false} AlikeReaches(ks: seq<Piece>, ls: seq<Piece>, path: seq<nat>)
    requires Alike(ks, ls) && Reaches(ks, path)
    ensures Reaches(ls, path) && Alike(BodyAt(ks, path), BodyAt(ls, path))
    decreases |path|
  {
    if path != [] {
      AlikeAt(ks, ls, path[0]);
      AlikeReaches(ks[path[0]].kids, ls[path[0]].kids, path[1..]);
    }
  }

  /** Shifting raises the handles of every node below, and keeps everything else. */
  lemma {:induction false} ShiftRaises(kids: seq<Piece>, strs: seq<Byte>, delta: nat, path: seq<nat>)
    requires Shift(kids, strs, delta).Done? && Reaches(kids, path)
    ensures var ls := Shift(kids, strs, delta).value;
            Reaches(ls, path) && Raised(BodyAt(kids, path), BodyAt(ls, path), strs, delta)
    decreases |path|
  {
    hide Raised, AddBoth;
    var ls := Shift(kids, strs, delta).value;
    ShiftHere(kids, strs, delta);
    if path != [] {
      var i := path[0];
      ShiftChild(kids, strs, delta, i);
      ShiftRaises(kids[i].kids, strs, delta, path[1..]);
    }
  }

  lemma {:induction false} NodesChild(kids: seq<Piece>, strs: seq<Byte>, delta: nat, i: nat)
    requires ShiftNodes(kids, strs, delta).Done? && i < |kids|
    ensures var ls := ShiftNodes(kids, strs, delta).value;
            if kids[i].NodeP? then Shift(kids[i].kids, strs, delta).Done? && ls[i] == NodeP(kids[i].name, Shift(kids[i].kids, strs, delta).value)
            else ls[i] == kids[i]
  {
    hide Shift;
    if i > 0 { NodesChild(kids[1..], strs, delta, i - 1); }
  }

  lemma ShiftChild(kids: seq<Piece>, strs: seq<Byte>, delta: nat, i: nat)
    requires Shift(kids, strs, delta).Done? && i < |kids| && kids[i].NodeP?
    ensures Shift(kids[i].kids, strs, delta).Done?
    ensures Shift(kids, strs, delta).value[i] == NodeP(kids[i].name, Shift(kids[i].kids, strs, delta).value)
  {
    hide AddBoth;
    NodesChild(kids, strs, delta, i);
  }

  lemma ShiftHere(kids: seq<Piece>, strs: seq<Byte>, delta: nat)
    requires Shift(kids, strs, delta).Done?
    ensures Raised(kids, Shift(kids, strs, delta).value, strs, delta)
  {
    hide AddBoth, IsHandle, Raisable;
    AddBothRaises(kids, strs, delta);
    var own, below := AddBoth(kids, strs, delta).value, ShiftNodes(kids, strs, delta).value;
    var ls := Blend(own, below);
    forall i | 0 <= i < |kids|
      ensures if kids[i].NodeP? then ls[i].NodeP? && ls[i].name == kids[i].name else ls[i] == own[i]
    {
      NodesChild(kids, strs, delta, i);
    }
  }

  /** Shifting stops exactly at a handle that is not a word or cannot be raised. */
  lemma {:induction false} ShiftFails(kids: seq<Piece>, strs: seq<Byte>, delta: nat) returns (path: seq<nat>, i: nat)
    requires Shift(kids, strs, delta).Fail?
    ensures Reaches(kids, path) && i < |BodyAt(kids, path)| && IsHandle(BodyAt(kids, path), strs, i)
    ensures Blocks(BodyAt(kids, path)[i], delta, Shift(kids, strs, delta).err)
    decreases kids, 1
  {
    AddBothRaises(kids, strs, delta);
    hide IsHandle, Blocks, Raised;
    if AddBoth(kids, strs, delta).Fail? {
      path := [];
      i :| 0 <= i < |kids| && IsHandle(kids, strs, i) && Blocks(kids[i], delta, Shift(kids, strs, delta).err);
    } else {
      var k, rest;
      k, rest, i := NodesFail(kids, strs, delta);
      path := [k] + rest;
      assert path[1..] == rest;
    }
  }

  lemma {:induction false} NodesFail(kids: seq<Piece>, strs: seq<Byte>, delta: nat) returns (k: nat, path: seq<nat>, i: nat)
    requires ShiftNodes(kids, strs, delta).Fail?
    ensures k < |kids| && kids[k].NodeP? && Reaches(kids[k].kids, path)
    ensures i < |BodyAt(kids[k].kids, path)| && IsHandle(BodyAt(kids[k].kids, path), strs, i)
    ensures Blocks(BodyAt(kids[k].kids, path)[i], delta, ShiftNodes(kids, strs, delta).err)
    decreases kids, 0
  {
    hide IsHandle, Blocks;
    if kids[0].NodeP? && Shift(kids[0].kids, strs, delta).Fail? {
      k := 0;
      path, i := ShiftFails(kids[0].kids, strs, delta);
    } else {
      k, path, i := NodesFail(kids[1..], strs, delta);
      k := k + 1;
    }
  }

  lemma {:induction false} ShiftAlike(kids: seq<Piece>, strs: seq<Byte>, delta: nat)
    requires Shift(kids, strs, delta).Done?
    ensures Alike(kids, Shift(kids, strs, delta).value)
    decreases kids
  {
    ShiftHere(kids, strs, delta);
    var ls := Shift(kids, strs, delta).value;
    hide Shift, IsHandle;
    forall i | 0 <= i < |kids| ensures AlikeOne(kids[i], ls[i]) {
      if kids[i].NodeP? {
        ShiftChild(kids, strs, delta, i);
        ShiftAlike(kids[i].kids, strs, delta);
      }
    }
  }

  /** A raised handle. */
  lemma RaisedHandle(ks: seq<Piece>, ls: seq<Piece>, strs: seq<Byte>, delta: nat)
    requires Raised(ks, ls, strs, delta) && Alike(ks, ls)
    ensures Handle(ls, strs) == if Owns(ks, strs) then Handle(ks, strs) + delta else 0
    ensures Handle(ls, strs) < RESERVED
  {
    hide FindProp, Word, WordBytes, Alike, NameOf;
    AlikeFinds(ks, ls, strs, PHANDLE);
    AlikeFinds(ks, ls, strs, LINUX_PHANDLE);
    var i, j := FindProp(ks, strs, PHANDLE), FindProp(ks, strs, LINUX_PHANDLE);
    if i.Some? { assert IsHandle(ks, strs, i.value); }
    if j.Some? { assert IsHandle(ks, strs, j.value); }
  }

  /** After shifting every handle is the old one plus `delta`, and a node without one still has none. */
  lemma ShiftedHandle(kids: seq<Piece>, strs: seq<Byte>, delta: nat, path: seq<nat>)
    requires Shift(kids, strs, delta).Done? && Reaches(kids, path)
    ensures var ls := Shift(kids, strs, delta).value;
            && Reaches(ls, path) && HandleAt(ls, strs, path) < RESERVED
            && HandleAt(ls, strs, path) == if Owns(BodyAt(kids, path), strs) then HandleAt(kids, strs, path) + delta else 0
  {
    hide Shift, Raised, Handle, Alike;
    ShiftRaises(kids, strs, delta, path);
    ShiftAlike(kids, strs, delta);
    AlikeReaches(kids, Shift(kids, strs, delta).value, path);
    RaisedHandle(BodyAt(kids, path), BodyAt(Shift(kids, strs, delta).value, path), strs, delta);
  }

  ghost predicate IsNode(ps: seq<Piece>, path: seq<nat>) {
    IsAt(ps, path) && At(ps, path).NodeP?
  }

  /** The highest handle of all the nodes of a tree, 0 when there is none. */
  ghost predicate IsHighest(ps: seq<Piece>, strs: seq<Byte>, m: nat) {
    && (forall b | IsNode(ps, b) :: Handle(At(ps, b).kids, strs) <= m)
    && (m == 0 || exists b :: IsNode(ps, b) && Handle(At(ps, b).kids, strs) == m)
  }

  /** Shifted by the base's highest handle, an overlay handle differs from every handle of the base exactly
      when it was not 0 or the base has none. */
  lemma ApartFromBase(base: seq<Piece>, bstrs: seq<Byte>, highest: nat, kids: seq<Piece>, strs: seq<Byte>, path: seq<nat>)
    requires IsHighest(base, bstrs, highest) && Shift(kids, strs, highest).Done? && Reaches(kids, path) && Owns(BodyAt(kids, path), strs)
    ensures Reaches(Shift(kids, strs, highest).value, path)
    ensures (forall b | IsNode(base, b) && Handle(At(base, b).kids, bstrs) != 0 ::
               HandleAt(Shift(kids, strs, highest).value, strs, path) != Handle(At(base, b).kids, bstrs)) <==>
            HandleAt(kids, strs, path) != 0 || highest == 0
  {
    hide Shift, Handle;
    ShiftedHandle(kids, strs, highest, path);
    if highest > 0 {
      var b :| IsNode(base, b) && Handle(At(base, b).kids, bstrs) == highest;
    }
  }

  /** Handles are equal after shifting exactly when they were before. */
  lemma ApartFromEachOther(kids: seq<Piece>, strs: seq<Byte>, delta: nat, p: seq<nat>, q: seq<nat>)
    requires Shift(kids, strs, delta).Done? && Reaches(kids, p) && Reaches(kids, q) && Owns(BodyAt(kids, p), strs) && Owns(BodyAt(kids, q), strs)
    ensures var ls := Shift(kids, strs, delta).value;
            Reaches(ls, p) && Reaches(ls, q) && (HandleAt(ls, strs, p) == HandleAt(ls, strs, q) <==> HandleAt(kids, strs, p) == HandleAt(kids, strs, q))
  {
    hide Shift, Handle;
    ShiftedHandle(kids, strs, delta, p);
    ShiftedHandle(kids, strs, delta, q);
  }

  // ----- References

  /** A word of a property value: the node's path, its entry and the byte offset. */
  datatype Cell = Cell(path: seq<nat>, entry: nat, off: nat)

  ghost predicate HasCell(kids: seq<Piece>, c: Cell) {
    && Reaches(kids, c.path) && c.entry < |BodyAt(kids, c.path)| && BodyAt(kids, c.path)[c.entry].PropP?
    && c.off + 4 <= |BodyAt(kids, c.path)[c.entry].value|
  }

  ghost function ValueAt(kids: seq<Piece>, c: Cell): seq<Byte>
    requires HasCell(kids, c)
  {
    BodyAt(kids, c.path)[c.entry].value
  }

  ghost function WordAt(kids: seq<Piece>, c: Cell): (w: nat)
    requires HasCell(kids, c)
    ensures w < WORDS
  {
    Word(ValueAt(kids, c)[c.off..c.off + 4])
  }

  predicate Overlaps(c: Cell, e: Cell) {
    c.path == e.path && c.entry == e.entry && c.off < e.off + 4 && e.off < c.off + 4
  }

  /** The sum on 32 bits. */
  function Plus32(w: nat, delta: nat): (r: nat)
    ensures r < WORDS
  {
    (w + delta) % WORDS
  }

  /** The value with the word at an offset replaced. */
  function Patched(value: seq<Byte>, off: nat, w: nat): (r: seq<Byte>)
    requires off + 4 <= |value| && w < WORDS
    ensures |r| == |value|
  {
    value[..off] + WordBytes(w) + value[off + 4..]
  }

  /** A body with one entry below it changed. */
  ghost function WithEntry(kids: seq<Piece>, path: seq<nat>, i: nat, p: Piece): seq<Piece>
    requires Reaches(kids, path) && i < |BodyAt(kids, path)|
    decreases |path|
  {
    if path == [] then kids[i := p]
    else kids[path[0] := NodeP(kids[path[0]].name, WithEntry(kids[path[0]].kids, path[1..], i, p))]
  }

  /** Adds to the word in a cell, on 32 bits. */
  ghost function Bump(kids: seq<Piece>, c: Cell, delta: nat): seq<Piece>
    requires HasCell(kids, c)
  {
    var p := BodyAt(kids, c.path)[c.entry];
    WithEntry(kids, c.path, c.entry, p.(value := Patched(p.value, c.off, Plus32(WordAt(kids, c), delta))))
  }

  lemma {:induction false} WithEntryAt(kids: seq<Piece>, path: seq<nat>, i: nat, p: Piece, q: seq<nat>)
    requires Reaches(kids, path) && i < |BodyAt(kids, path)| && !p.NodeP? && !BodyAt(kids, path)[i].NodeP? && Reaches(kids, q)
    ensures var ls := WithEntry(kids, path, i, p);
            && Reaches(ls, q) && |BodyAt(ls, q)| == |BodyAt(kids, q)|
            && forall k | 0 <= k < |BodyAt(kids, q)| && !BodyAt(kids, q)[k].NodeP? ::
                 BodyAt(ls, q)[k] == if q == path && k == i then p else BodyAt(kids, q)[k]
    decreases |path|
  {
    if path != [] && q != [] && path[0] == q[0] {
      WithEntryAt(kids[q[0]].kids, path[1..], i, p, q[1..]);
      assert path == [path[0]] + path[1..] && q == [q[0]] + q[1..];
    }
  }

  lemma {:induction false} WithEntryAlike(kids: seq<Piece>, path: seq<nat>, i: nat, p: Piece)
    requires Reaches(kids, path) && i < |BodyAt(kids, path)| && AlikeOne(BodyAt(kids, path)[i], p)
    ensures Alike(kids, WithEntry(kids, path, i, p))
    decreases |path|
  {
    var ls := WithEntry(kids, path, i, p);
    if path != [] { WithEntryAlike(kids[path[0]].kids, path[1..], i, p); }
    AlikeSelf(kids);
    forall k | 0 <= k < |kids| ensures AlikeOne(kids[k], ls[k]) { AlikeAt(kids, kids, k); }
  }

  lemma BumpAlike(kids: seq<Piece>, c: Cell, delta: nat)
    requires HasCell(kids, c)
    ensures Alike(kids, Bump(kids, c, delta))
  {
    var p := BodyAt(kids, c.path)[c.entry];
    WithEntryAlike(kids, c.path, c.entry, p.(value := Patched(p.value, c.off, Plus32(WordAt(kids, c), delta))));
  }

  lemma AlikeCell(ks: seq<Piece>, ls: seq<Piece>, c: Cell)
    requires Alike(ks, ls) && HasCell(ks, c)
    ensures HasCell(ls, c)
  {
    AlikeReaches(ks, ls, c.path);
    AlikeAt(BodyAt(ks, c.path), BodyAt(ls, c.path), c.entry);
  }

  lemma PatchedWord(value: seq<Byte>, off: nat, w: nat, at: nat)
    requires off + 4 <= |value| && at + 4 <= |value| && w < WORDS
    ensures at == off ==> Patched(value, off, w)[at..at + 4] == WordBytes(w)
    ensures at + 4 <= off || off + 4 <= at ==> Patched(value, off, w)[at..at + 4] == value[at..at + 4]
  {
    hide WordBytes;
  }

  /** Adding to one cell changes the word there, and no word apart from it. */
  lemma BumpWord(kids: seq<Piece>, c: Cell, delta: nat, e: Cell)
    requires HasCell(kids, c) && HasCell(kids, e)
    ensures HasCell(Bump(kids, c, delta), e)
    ensures e == c ==> WordAt(Bump(kids, c, delta), e) == Plus32(WordAt(kids, e), delta)
    ensures !Overlaps(c, e) ==> WordAt(Bump(kids, c, delta), e) == WordAt(kids, e)
  {
    BumpAlike(kids, c, delta);
    AlikeCell(kids, Bump(kids, c, delta), e);
    hide Word, WordBytes, Patched, Reaches, WithEntry;
    var p, w := BodyAt(kids, c.path)[c.entry], Plus32(WordAt(kids, c), delta);
    WithEntryAt(kids, c.path, c.entry, p.(value := Patched(p.value, c.off, w)), e.path);
    if e.path == c.path && e.entry == c.entry { PatchedWord(p.value, c.off, w, e.off); }
  }

  ghost function BumpAll(kids: seq<Piece>, cs: seq<Cell>, delta: nat): seq<Piece>
    decreases |cs|
  {
    if cs == [] || !HasCell(kids, cs[0]) then kids else BumpAll(Bump(kids, cs[0], delta), cs[1..], delta)
  }

  ghost predicate HasCells(kids: seq<Piece>, cs: seq<Cell>) {
    forall i | 0 <= i < |cs| :: HasCell(kids, cs[i])
  }

  lemma HasCellsKept(ks: seq<Piece>, ls: seq<Piece>, cs: seq<Cell>)
    requires Alike(ks, ls) && HasCells(ks, cs)
    ensures HasCells(ls, cs)
  {
    forall i | 0 <= i < |cs| ensures HasCell(ls, cs[i]) { AlikeCell(ks, ls, cs[i]); }
  }

  /** Words that no listed cell overlaps stay. */
  lemma {:induction false} UnlistedKept(kids: seq<Piece>, cs: seq<Cell>, delta: nat, e: Cell)
    requires HasCells(kids, cs) && HasCell(kids, e) && forall i | 0 <= i < |cs| :: !Overlaps(cs[i], e)
    ensures HasCell(BumpAll(kids, cs, delta), e) && WordAt(BumpAll(kids, cs, delta), e) == WordAt(kids, e)
    decreases |cs|
  {
    hide HasCell, WordAt, Bump, Overlaps;
    if cs != [] {
      var ls := Bump(kids, cs[0], delta);
      BumpAlike(kids, cs[0], delta);
      HasCellsKept(kids, ls, cs);
      BumpWord(kids, cs[0], delta, e);
      UnlistedKept(ls, cs[1..], delta, e);
    }
  }

  /** A cell listed once, and overlapped by no other, is raised once. */
  lemma {:induction false} ListedOnce(kids: seq<Piece>, cs: seq<Cell>, delta: nat, k: nat)
    requires HasCells(kids, cs) && k < |cs| && forall i | 0 <= i < |cs| && i != k :: !Overlaps(cs[i], cs[k])
    ensures HasCell(BumpAll(kids, cs, delta), cs[k]) && WordAt(BumpAll(kids, cs, delta), cs[k]) == Plus32(WordAt(kids, cs[k]), delta)
    decreases |cs|
  {
    hide HasCell, WordAt, Bump, Overlaps;
    var ls, rest := Bump(kids, cs[0], delta), cs[1..];
    BumpAlike(kids, cs[0], delta);
    HasCellsKept(kids, ls, cs);
    BumpWord(kids, cs[0], delta, cs[k]);
    assert forall i | 0 <= i < |rest| :: rest[i] == cs[i + 1];
    if k == 0 { UnlistedKept(ls, rest, delta, cs[0]); } else { ListedOnce(ls, rest, delta, k - 1); }
  }

  lemma {:induction false} BumpAllAlike(kids: seq<Piece>, cs: seq<Cell>, delta: nat)
    ensures Alike(kids, BumpAll(kids, cs, delta))
    decreases |cs|
  {
    hide Bump;
    if cs == [] || !HasCell(kids, cs[0]) {
      AlikeSelf(kids);
    } else {
      BumpAlike(kids, cs[0], delta);
      BumpAllAlike(Bump(kids, cs[0], delta), cs[1..], delta);
      AlikeTrans(kids, Bump(kids, cs[0], delta), BumpAll(kids, cs, delta));
    }
  }

  /** No listed cell is in a handle of the node. */
  ghost predicate HandlesUnlisted(kids: seq<Piece>, strs: seq<Byte>, cs: seq<Cell>, path: seq<nat>)
    requires Reaches(kids, path)
  {
    forall m | 0 <= m < |cs| && cs[m].path == path :: !IsHandle(BodyAt(kids, path), strs, cs[m].entry)
  }

  /** Correcting references leaves a node's handle when it lists no cell in it. */
  lemma HandleKept(kids: seq<Piece>, strs: seq<Byte>, cs: seq<Cell>, delta: nat, path: seq<nat>)
    requires Reaches(kids, path) && HasCells(kids, cs) && HandlesUnlisted(kids, strs, cs, path)
    ensures Reaches(BumpAll(kids, cs, delta), path) && HandleAt(BumpAll(kids, cs, delta), strs, path) == HandleAt(kids, strs, path)
  {
    var ls := BumpAll(kids, cs, delta);
    hide BumpAll, FindProp, Alike, NameOf, Word;
    BumpAllAlike(kids, cs, delta);
    AlikeReaches(kids, ls, path);
    HandleWordKept(kids, strs, cs, delta, path, PHANDLE);
    HandleWordKept(kids, strs, cs, delta, path, LINUX_PHANDLE);
  }

  lemma HandleWordKept(kids: seq<Piece>, strs: seq<Byte>, cs: seq<Cell>, delta: nat, path: seq<nat>, name: Name)
    requires Reaches(kids, path) && HasCells(kids, cs) && HandlesUnlisted(kids, strs, cs, path) && (name == PHANDLE || name == LINUX_PHANDLE)
    requires Reaches(BumpAll(kids, cs, delta), path) && Alike(BodyAt(kids, path), BodyAt(BumpAll(kids, cs, delta), path))
    ensures WordOf(BodyAt(BumpAll(kids, cs, delta), path), strs, name) == WordOf(BodyAt(kids, path), strs, name)
  {
    var ls := BumpAll(kids, cs, delta);
    var ks, ms := BodyAt(kids, path), BodyAt(ls, path);
    hide BumpAll, FindProp, NameOf, Word;
    AlikeFinds(ks, ms, strs, name);
    var i := FindProp(ks, strs, name);
    if i.Some? {
      AlikeAt(ks, ms, i.value);
      assert IsHandle(ks, strs, i.value);
      if |ks[i.value].value| == 4 {
        var e := Cell(path, i.value, 0);
        forall m | 0 <= m < |cs| ensures !Overlaps(cs[m], e) { if cs[m].path == path { assert !IsHandle(ks, strs, cs[m].entry); } }
        UnlistedKept(kids, cs, delta, e);
        assert ks[i.value].value[0..4] == ks[i.value].value && ms[i.value].value[0..4] == ms[i.value].value;
      }
    }
  }

  /** A reference outside the handles reads the same after shifting. */
  lemma ShiftedWord(kids: seq<Piece>, strs: seq<Byte>, delta: nat, c: Cell)
    requires Shift(kids, strs, delta).Done? && HasCell(kids, c) && !IsHandle(BodyAt(kids, c.path), strs, c.entry)
    ensures HasCell(Shift(kids, strs, delta).value, c) && WordAt(Shift(kids, strs, delta).value, c) == WordAt(kids, c)
  {
    hide Shift, IsHandle, Word;
    ShiftRaises(kids, strs, delta, c.path);
  }

  lemma SameSum(w: nat, v: nat, delta: nat)
    requires w < WORDS && v + delta < RESERVED
    ensures Plus32(w, delta) == v + delta <==> w == v
  {
  }

  /** A corrected reference names a node exactly when it named that node before. */
  lemma ReferenceKept(kids: seq<Piece>, strs: seq<Byte>, delta: nat, cs: seq<Cell>, k: nat, path: seq<nat>)
    requires Shift(kids, strs, delta).Done? && HasCells(Shift(kids, strs, delta).value, cs) && HasCells(kids, cs)
    requires k < |cs| && forall i | 0 <= i < |cs| && i != k :: !Overlaps(cs[i], cs[k])
    requires !IsHandle(BodyAt(kids, cs[k].path), strs, cs[k].entry)
    requires Reaches(kids, path) && Owns(BodyAt(kids, path), strs) && HandlesUnlisted(kids, strs, cs, path)
    ensures var end := BumpAll(Shift(kids, strs, delta).value, cs, delta);
            && HasCell(end, cs[k]) && Reaches(end, path)
            && (WordAt(end, cs[k]) == HandleAt(end, strs, path) <==> WordAt(kids, cs[k]) == HandleAt(kids, strs, path))
  {
    hide Shift, HandleAt, BumpAll, WordAt, IsHandle, Overlaps, HandlesUnlisted, Reaches, BodyAt, HasCell, Plus32;
    WordAfter(kids, strs, delta, cs, k);
    HandleAfter(kids, strs, delta, cs, path);
    SameSum(WordAt(kids, cs[k]), HandleAt(kids, strs, path), delta);
  }

  lemma WordAfter(kids: seq<Piece>, strs: seq<Byte>, delta: nat, cs: seq<Cell>, k: nat)
    requires Shift(kids, strs, delta).Done? && HasCells(Shift(kids, strs, delta).value, cs) && HasCells(kids, cs)
    requires k < |cs| && forall i | 0 <= i < |cs| && i != k :: !Overlaps(cs[i], cs[k])
    requires !IsHandle(BodyAt(kids, cs[k].path), strs, cs[k].entry)
    ensures var end := BumpAll(Shift(kids, strs, delta).value, cs, delta);
            HasCell(kids, cs[k]) && HasCell(end, cs[k]) && WordAt(end, cs[k]) == Plus32(WordAt(kids, cs[k]), delta)
  {
    assert HasCell(kids, cs[k]);
    hide Shift, BumpAll, WordAt, IsHandle, Overlaps, HasCell, HasCells, BodyAt, Plus32;
    ShiftedWord(kids, strs, delta, cs[k]);
    ListedOnce(Shift(kids, strs, delta).value, cs, delta, k);
  }

  lemma HandleAfter(kids: seq<Piece>, strs: seq<Byte>, delta: nat, cs: seq<Cell>, path: seq<nat>)
    requires Shift(kids, strs, delta).Done? && HasCells(Shift(kids, strs, delta).value, cs)
    requires Reaches(kids, path) && Owns(BodyAt(kids, path), strs) && HandlesUnlisted(kids, strs, cs, path)
    ensures var end := BumpAll(Shift(kids, strs, delta).value, cs, delta);
            Reaches(end, path) && HandleAt(end, strs, path) == HandleAt(kids, strs, path) + delta < RESERVED
  {
    hide Shift, HandleAt, BumpAll, Owns, HasCells, HandlesUnlisted, Reaches, BodyAt;
    ShiftedHandle(kids, strs, delta, path);
    UnlistedStill(kids, strs, delta, cs, path);
    HandleKept(Shift(kids, strs, delta).value, strs, cs, delta, path);
  }

  lemma UnlistedStill(kids: seq<Piece>, strs: seq<Byte>, delta: nat, cs: seq<Cell>, path: seq<nat>)
    requires Shift(kids, strs, delta).Done? && Reaches(kids, path) && HandlesUnlisted(kids, strs, cs, path)
    ensures Reaches(Shift(kids, strs, delta).value, path) && HandlesUnlisted(Shift(kids, strs, delta).value, strs, cs, path)
  {
    var ls := Shift(kids, strs, delta).value;
    hide Shift, FindProp, Alike;
    ShiftAlike(kids, strs, delta);
    AlikeReaches(kids, ls, path);
    AlikeFinds(BodyAt(kids, path), BodyAt(ls, path), strs, PHANDLE);
    AlikeFinds(BodyAt(kids, path), BodyAt(ls, path), strs, LINUX_PHANDLE);
  }

  // ----- Which cells the fix-ups list

  /** Stands for no error: a fix-up offset whose end wraps around 32 bits passes the source's bound and is
      written outside the property. */
  const WILD: int := 1

  /** The cells that entry `i` of the fix-up node at `fp` lists from its `c`-th word on, as they are
      corrected: entry `j` of the node at `tp` is the property they are in. */
  ghost function FixCells(kids: seq<Piece>, tp: seq<nat>, j: nat, fp: seq<nat>, i: nat, c: nat, delta: nat): (r: Outcome<seq<Cell>>)
    requires Reaches(kids, tp) && j < |BodyAt(kids, tp)| && BodyAt(kids, tp)[j].PropP?
    requires Reaches(kids, fp) && i < |BodyAt(kids, fp)| && BodyAt(kids, fp)[i].PropP?
    ensures r.Fail? ==> r.err == BADOVERLAY || r.err == WILD
    decreases |BodyAt(kids, fp)[i].value| - 4 * c
  {
    var list := BodyAt(kids, fp)[i].value;
    if |list| < 4 * c + 4 then Done([]) else
    var off := Word(list[4 * c..4 * c + 4]);
    var cell := Cell(tp, j, off);
    if (off + 4) % WORDS > |BodyAt(kids, tp)[j].value| then Fail(BADOVERLAY)
    else if off + 4 >= WORDS then Fail(WILD)
    else
      BumpKeeps(kids, cell, delta, tp, j);
      BumpKeeps(kids, cell, delta, fp, i);
      var rest := FixCells(Bump(kids, cell, delta), tp, j, fp, i, c + 1, delta);
      if rest.Fail? then rest else Done([cell] + rest.value)
  }

  lemma BumpKeeps(kids: seq<Piece>, c: Cell, delta: nat, path: seq<nat>, i: nat)
    requires HasCell(kids, c) && Reaches(kids, path) && i < |BodyAt(kids, path)|
    ensures var ls := Bump(kids, c, delta);
            Reaches(ls, path) && |BodyAt(ls, path)| == |BodyAt(kids, path)| && AlikeOne(BodyAt(kids, path)[i], BodyAt(ls, path)[i])
  {
    hide Bump;
    BumpAlike(kids, c, delta);
    AlikeReaches(kids, Bump(kids, c, delta), path);
    AlikeAt(BodyAt(kids, path), BodyAt(Bump(kids, c, delta), path), i);
  }

  lemma BumpAllKeeps(kids: seq<Piece>, cs: seq<Cell>, delta: nat, path: seq<nat>)
    requires Reaches(kids, path)
    ensures var ls := BumpAll(kids, cs, delta);
            Reaches(ls, path) && |BodyAt(ls, path)| == |BodyAt(kids, path)| && Alike(BodyAt(kids, path), BodyAt(ls, path))
  {
    hide BumpAll;
    BumpAllAlike(kids, cs, delta);
    AlikeReaches(kids, BumpAll(kids, cs, delta), path);
  }

  /** The same for the properties of the fix-up node from entry `i` on. */
  ghost function FixProps(kids: seq<Piece>, strs: seq<Byte>, tp: seq<nat>, fp: seq<nat>, i: nat, delta: nat): (r: Outcome<seq<Cell>>)
    requires Reaches(kids, tp) && Reaches(kids, fp)
    ensures r.Fail? ==> r.err == BADOVERLAY || r.err == WILD
    decreases |BodyAt(kids, fp)| - i
  {
    var list := BodyAt(kids, fp);
    if i >= Lead(list) then Done([])
    else if list[i].NopP? then FixProps(kids, strs, tp, fp, i + 1, delta)
    else if |list[i].value| % 4 != 0 then Fail(BADOVERLAY)
    else
      var j := FindProp(BodyAt(kids, tp), strs, NameOf(strs, list[i].nameoff));
      if j.None? then Fail(BADOVERLAY) else
      var cs := FixCells(kids, tp, j.value, fp, i, 0, delta);
      if cs.Fail? then cs else
      BumpAllKeeps(kids, cs.value, delta, tp);
      BumpAllKeeps(kids, cs.value, delta, fp);
      var rest := FixProps(BumpAll(kids, cs.value, delta), strs, tp, fp, i + 1, delta);
      if rest.Fail? then rest else Done(cs.value + rest.value)
  }

  /** The same for its children from entry `j` on, each matched with a child of the target by name. The list
      `gs` has the shape of the fix-up node's entries. */
  ghost function FixNodes(kids: seq<Piece>, strs: seq<Byte>, tp: seq<nat>, fp: seq<nat>, gs: seq<Piece>, j: nat, delta: nat): (r: Outcome<seq<Cell>>)
    requires Reaches(kids, tp) && Reaches(kids, fp) && Alike(gs, BodyAt(kids, fp)) && j <= |gs|
    ensures r.Fail? ==> r.err == BADOVERLAY || r.err == WILD
    decreases gs, 0, |gs| - j
  {
    if j == |gs| then Done([])
    else if !gs[j].NodeP? then FixNodes(kids, strs, tp, fp, gs, j + 1, delta)
    else
      var k := FirstChild(BodyAt(kids, tp), gs[j].name);
      if k.None? then Fail(BADOVERLAY) else
      Below(kids, tp, k.value);
      AlikeAt(gs, BodyAt(kids, fp), j);
      Below(kids, fp, j);
      var cs := Fix(kids, strs, tp + [k.value], fp + [j], gs[j].kids, delta);
      if cs.Fail? then cs else
      BumpAllKeeps(kids, cs.value, delta, tp);
      BumpAllKeeps(kids, cs.value, delta, fp);
      AlikeTrans(gs, BodyAt(kids, fp), BodyAt(BumpAll(kids, cs.value, delta), fp));
      var rest := FixNodes(BumpAll(kids, cs.value, delta), strs, tp, fp, gs, j + 1, delta);
      if rest.Fail? then rest else Done(cs.value + rest.value)
  }

  /** The cells listed by the fix-up node at `fp` for the node at `tp`, or the error. */
  ghost function Fix(kids: seq<Piece>, strs: seq<Byte>, tp: seq<nat>, fp: seq<nat>, gs: seq<Piece>, delta: nat): (r: Outcome<seq<Cell>>)
    requires Reaches(kids, tp) && Reaches(kids, fp) && Alike(gs, BodyAt(kids, fp))
    ensures r.Fail? ==> r.err == BADOVERLAY || r.err == WILD
    decreases gs, 1
  {
    var cs := FixProps(kids, strs, tp, fp, 0, delta);
    if cs.Fail? then cs else
    BumpAllKeeps(kids, cs.value, delta, tp);
    BumpAllKeeps(kids, cs.value, delta, fp);
    AlikeTrans(gs, BodyAt(kids, fp), BodyAt(BumpAll(kids, cs.value, delta), fp));
    var rest := FixNodes(BumpAll(kids, cs.value, delta), strs, tp, fp, gs, 0, delta);
    if rest.Fail? then rest else Done(cs.value + rest.value)
  }

  lemma {:induction false} Below(kids: seq<Piece>, path: seq<nat>, i: nat)
    requires Reaches(kids, path) && i < |BodyAt(kids, path)| && BodyAt(kids, path)[i].NodeP?
    ensures Reaches(kids, path + [i]) && BodyAt(kids, path + [i]) == BodyAt(kids, path)[i].kids
    decreases |path|
  {
    if path == [] {
      assert ([] + [i])[1..] == [] && path + [i] == [i];
    } else {
      Below(kids[path[0]].kids, path[1..], i);
      assert (path + [i])[1..] == path[1..] + [i];
    }
  }

  lemma {:induction false} BumpConcat(kids: seq<Piece>, cs: seq<Cell>, es: seq<Cell>, delta: nat)
    requires HasCells(kids, cs)
    ensures BumpAll(kids, cs + es, delta) == BumpAll(BumpAll(kids, cs, delta), es, delta)
    decreases |cs|
  {
    hide HasCell, Bump;
    if cs == [] {
      assert cs + es == es;
    } else {
      assert (cs + es)[1..] == cs[1..] + es;
      BumpAlike(kids, cs[0], delta);
      HasCellsKept(kids, Bump(kids, cs[0], delta), cs);
      BumpConcat(Bump(kids, cs[0], delta), cs[1..], es, delta);
    }
  }

  lemma {:induction false} AlikeSwap(ks: seq<Piece>, ls: seq<Piece>)
    requires Alike(ks, ls)
    ensures Alike(ls, ks)
    decreases ks
  {
    forall i | 0 <= i < |ks| ensures AlikeOne(ls[i], ks[i]) {
      AlikeAt(ks, ls, i);
      if ks[i].NodeP? { AlikeSwap(ks[i].kids, ls[i].kids); }
    }
  }

  /** Cells there after some corrections were there before. */
  lemma CellsBack(kids: seq<Piece>, cs: seq<Cell>, es: seq<Cell>, delta: nat)
    requires HasCells(kids, cs) && HasCells(BumpAll(kids, cs, delta), es)
    ensures HasCells(kids, cs + es)
  {
    hide HasCell, BumpAll;
    BumpAllAlike(kids, cs, delta);
    AlikeSwap(kids, BumpAll(kids, cs, delta));
    HasCellsKept(BumpAll(kids, cs, delta), kids, es);
  }

  /** Every listed cell is there. */
  lemma {:induction false} CellsThere(kids: seq<Piece>, tp: seq<nat>, j: nat, fp: seq<nat>, i: nat, c: nat, delta: nat)
    requires Reaches(kids, tp) && j < |BodyAt(kids, tp)| && BodyAt(kids, tp)[j].PropP?
    requires Reaches(kids, fp) && i < |BodyAt(kids, fp)| && BodyAt(kids, fp)[i].PropP?
    requires FixCells(kids, tp, j, fp, i, c, delta).Done?
    ensures HasCells(kids, FixCells(kids, tp, j, fp, i, c, delta).value)
    decreases |BodyAt(kids, fp)[i].value| - 4 * c
  {
    var list := BodyAt(kids, fp)[i].value;
    if |list| >= 4 * c + 4 {
      var cell := Cell(tp, j, Word(list[4 * c..4 * c + 4]));
      assert HasCell(kids, cell);
      hide HasCell, Bump;
      BumpKeeps(kids, cell, delta, tp, j);
      BumpKeeps(kids, cell, delta, fp, i);
      CellsThere(Bump(kids, cell, delta), tp, j, fp, i, c + 1, delta);
      var rest := FixCells(Bump(kids, cell, delta), tp, j, fp, i, c + 1, delta).value;
      BumpAlike(kids, cell, delta);
      AlikeSwap(kids, Bump(kids, cell, delta));
      HasCellsKept(Bump(kids, cell, delta), kids, rest);
    }
  }

  lemma {:induction false} PropCellsThere(kids: seq<Piece>, strs: seq<Byte>, tp: seq<nat>, fp: seq<nat>, i: nat, delta: nat)
    requires Reaches(kids, tp) && Reaches(kids, fp) && FixProps(kids, strs, tp, fp, i, delta).Done?
    ensures HasCells(kids, FixProps(kids, strs, tp, fp, i, delta).value)
    decreases |BodyAt(kids, fp)| - i
  {
    hide HasCells, FixCells, BumpAll, FindProp, NameOf;
    NoCells(kids);
    var list := BodyAt(kids, fp);
    if i < Lead(list) {
      if list[i].NopP? {
        PropCellsThere(kids, strs, tp, fp, i + 1, delta);
      } else {
        var j := FindProp(BodyAt(kids, tp), strs, NameOf(strs, list[i].nameoff)).value;
        CellsThere(kids, tp, j, fp, i, 0, delta);
        var cs := FixCells(kids, tp, j, fp, i, 0, delta).value;
        BumpAllKeeps(kids, cs, delta, tp);
        BumpAllKeeps(kids, cs, delta, fp);
        var ls := BumpAll(kids, cs, delta);
        PropCellsThere(ls, strs, tp, fp, i + 1, delta);
        CellsBack(kids, cs, FixProps(ls, strs, tp, fp, i + 1, delta).value, delta);
      }
    }
  }

  lemma NoCells(kids: seq<Piece>)
    ensures HasCells(kids, [])
  {
  }

  lemma {:induction false} NodeCellsThere(kids: seq<Piece>, strs: seq<Byte>, tp: seq<nat>, fp: seq<nat>, gs: seq<Piece>, j: nat, delta: nat)
    requires Reaches(kids, tp) && Reaches(kids, fp) && Alike(gs, BodyAt(kids, fp)) && j <= |gs|
    requires FixNodes(kids, strs, tp, fp, gs, j, delta).Done?
    ensures HasCells(kids, FixNodes(kids, strs, tp, fp, gs, j, delta).value)
    decreases gs, 0, |gs| - j
  {
    hide HasCells, Fix, BumpAll, FirstChild, Alike;
    NoCells(kids);
    if j < |gs| {
      if !gs[j].NodeP? {
        NodeCellsThere(kids, strs, tp, fp, gs, j + 1, delta);
      } else {
        var k := FirstChild(BodyAt(kids, tp), gs[j].name).value;
        Below(kids, tp, k);
        AlikeAt(gs, BodyAt(kids, fp), j);
        Below(kids, fp, j);
        FixThere(kids, strs, tp + [k], fp + [j], gs[j].kids, delta);
        var cs := Fix(kids, strs, tp + [k], fp + [j], gs[j].kids, delta).value;
        BumpAllKeeps(kids, cs, delta, tp);
        BumpAllKeeps(kids, cs, delta, fp);
        var ls := BumpAll(kids, cs, delta);
        AlikeTrans(gs, BodyAt(kids, fp), BodyAt(ls, fp));
        NodeCellsThere(ls, strs, tp, fp, gs, j + 1, delta);
        CellsBack(kids, cs, FixNodes(ls, strs, tp, fp, gs, j + 1, delta).value, delta);
      }
    }
  }

  lemma {:induction false} FixThere(kids: seq<Piece>, strs: seq<Byte>, tp: seq<nat>, fp: seq<nat>, gs: seq<Piece>, delta: nat)
    requires Reaches(kids, tp) && Reaches(kids, fp) && Alike(gs, BodyAt(kids, fp)) && Fix(kids, strs, tp, fp, gs, delta).Done?
    ensures HasCells(kids, Fix(kids, strs, tp, fp, gs, delta).value)
    decreases gs, 1
  {
    hide HasCells, FixProps, FixNodes, BumpAll, Alike;
    PropCellsThere(kids, strs, tp, fp, 0, delta);
    var cs := FixProps(kids, strs, tp, fp, 0, delta).value;
    BumpAllKeeps(kids, cs, delta, tp);
    BumpAllKeeps(kids, cs, delta, fp);
    var ls := BumpAll(kids, cs, delta);
    AlikeTrans(gs, BodyAt(kids, fp), BodyAt(ls, fp));
    NodeCellsThere(ls, strs, tp, fp, gs, 0, delta);
    CellsBack(kids, cs, FixNodes(ls, strs, tp, fp, gs, 0, delta).value, delta);
  }

  /** The cells the fix-ups of a shifted overlay list. */
  ghost function Listed(kids: seq<Piece>, strs: seq<Byte>, delta: nat, fp: seq<nat>): Outcome<seq<Cell>>
    requires Shift(kids, strs, delta).Done? && Reaches(kids, fp)
  {
    var ls := Shift(kids, strs, delta).value;
    ShiftAlike(kids, strs, delta);
    AlikeReaches(kids, ls, fp);
    AlikeSelf(BodyAt(ls, fp));
    Fix(ls, strs, [], fp, BodyAt(ls, fp), delta)
  }

  /** Once an overlay is shifted and its fix-ups made, a cell they list once names a node exactly when it did
      before, for every node with a handle that they do not list. */
  lemma ReferencesKept(kids: seq<Piece>, strs: seq<Byte>, delta: nat, fp: seq<nat>, k: nat, path: seq<nat>)
    requires Shift(kids, strs, delta).Done? && Reaches(kids, fp) && Listed(kids, strs, delta, fp).Done?
    requires var cs := Listed(kids, strs, delta, fp).value;
             && k < |cs| && (forall i | 0 <= i < |cs| && i != k :: !Overlaps(cs[i], cs[k]))
             && Reaches(kids, cs[k].path) && !IsHandle(BodyAt(kids, cs[k].path), strs, cs[k].entry)
             && Reaches(kids, path) && Owns(BodyAt(kids, path), strs) && HandlesUnlisted(kids, strs, cs, path)
    ensures var cs := Listed(kids, strs, delta, fp).value;
            var end := BumpAll(Shift(kids, strs, delta).value, cs, delta);
            && HasCell(kids, cs[k]) && HasCell(end, cs[k]) && Reaches(end, path)
            && (WordAt(end, cs[k]) == HandleAt(end, strs, path) <==> WordAt(kids, cs[k]) == HandleAt(kids, strs, path))
  {
    var ls, cs := Shift(kids, strs, delta).value, Listed(kids, strs, delta, fp).value;
    ListedThere(kids, strs, delta, fp);
    assert HasCell(kids, cs[k]);
    hide Shift, Listed, HandlesUnlisted, IsHandle, Owns, BumpAll, HasCells, HasCell, HandleAt, WordAt, Overlaps;
    ReferenceKept(kids, strs, delta, cs, k, path);
  }

  lemma ListedThere(kids: seq<Piece>, strs: seq<Byte>, delta: nat, fp: seq<nat>)
    requires Shift(kids, strs, delta).Done? && Reaches(kids, fp) && Listed(kids, strs, delta, fp).Done?
    ensures HasCells(kids, Listed(kids, strs, delta, fp).value)
    ensures HasCells(Shift(kids, strs, delta).value, Listed(kids, strs, delta, fp).value)
  {
    hide Shift, Fix, HasCells, Alike;
    var ls := Shift(kids, strs, delta).value;
    ShiftAlike(kids, strs, delta);
    AlikeReaches(kids, ls, fp);
    AlikeSelf(BodyAt(ls, fp));
    FixThere(ls, strs, [], fp, BodyAt(ls, fp), delta);
    AlikeSwap(kids, ls);
    HasCellsKept(ls, kids, Listed(kids, strs, delta, fp).value);
  }
}
