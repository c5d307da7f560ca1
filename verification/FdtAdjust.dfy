/** The passes over an overlay before it is merged: the base's highest handle, the shift of the overlay's
    handles and the correction of its references. */
module FdtAdjust {
  import opened Wrappers
  import opened FdtBytes
  import opened FdtTokens
  import opened FdtTree
  import opened FdtWalk
  import opened FdtSplice
  import opened FdtEdit
  import opened FdtRead
  import opened FdtBlob
  import opened FdtAlike
  import opened FdtInplace
  import opened FdtPhandle
  import FdtPath

  // ----- The highest handle

  /** A node's handle, from one property or the other. */
  method GetPhandle(fdt: Fdt, offset: int, ghost path: seq<nat>) returns (h: nat)
    requires fdt.Valid() && fdt.OffsetOf(path, offset)
    ensures h == Handle(fdt.Kids(path), fdt.Strings()) < WORDS
    ensures var kids, strs := fdt.Kids(path), fdt.Strings();
            var i, j := FindProp(kids, strs, PHANDLE), FindProp(kids, strs, LINUX_PHANDLE);
            h == if i.Some? && |kids[i.value].value| == 4 then Word(kids[i.value].value)
                 else if j.Some? && |kids[j.value].value| == 4 then Word(kids[j.value].value) else 0
  {
    hide fdt.Valid, fdt.OffsetOf, fdt.EntryAt, fdt.IsNode, FindProp, Word, fdt.Strings, fdt.Kids, NameOf;
    fdt.NodeIsNode(path, offset);
    ghost var kids, strs, name := fdt.Kids(path), fdt.Strings(), PHANDLE;
    var r, len := fdt.GetProperty(offset, PHANDLE, path);
    if r < 0 || len != 4 {
      name := LINUX_PHANDLE;
      r, len := fdt.GetProperty(offset, LINUX_PHANDLE, path);
      if r < 0 || len != 4 { return 0; }
    }
    ghost var i := FindProp(kids, strs, name).value;
    h := ValueWord(fdt, r, 0, path, i);
    assert kids[i].value[0..4] == kids[i].value;
  }

  /** The next node in the block, at any level. */
  method NextAny(fdt: Fdt, offset: int, ghost from: nat) returns (r: int, ghost j: nat)
    requires fdt.Valid() && from < |fdt.Tokens()| && (offset < 0 ==> from == 0)
    requires offset >= 0 ==> from > 0 && fdt.Tokens()[from - 1].Begin? && offset == Off(fdt.Tokens(), from - 1)
    ensures from <= j < |fdt.Tokens()| && forall n | from <= n < j :: !fdt.Tokens()[n].Begin?
    ensures if r < 0 then r == NOTFOUND && j == |fdt.Tokens()| - 1 else j < |fdt.Tokens()| - 1 && fdt.Tokens()[j].Begin? && r == Off(fdt.Tokens(), j)
  {
    hide Flat, Lexes, Named, Off, fdt.IsNode, TagAt;
    ghost var ts := fdt.Tokens();
    FdtPath.FlatNoEnd(fdt.ps);
    var next := 0;
    if offset >= 0 {
      fdt.TokenIsNode(offset, from - 1);
      TagAtToken(fdt.Struct(), ts, from - 1);
      next := fdt.CheckNodeOffset(offset);
    } else {
      OffZero(ts);
    }
    j := from;
    var tag := NOP;
    while true
      invariant from <= j < |ts| && next == Off(ts, j) && forall n | from <= n < j :: !ts[n].Begin?
      decreases |ts| - j
    {
      r := next;
      tag, next := fdt.TokenTag(r, j);
      if tag == BEGIN_NODE { return; }
      if tag == END { return NOTFOUND, j; }
      j := j + 1;
    }
  }

  /** The highest handle of the nodes that start before token `k`. */
  ghost predicate HighestBefore(ps: seq<Piece>, strs: seq<Byte>, k: nat, m: nat) {
    && (forall b | IsNode(ps, b) && Before(ps, b) < k :: Handle(At(ps, b).kids, strs) <= m)
    && (m == 0 || exists b :: IsNode(ps, b) && Handle(At(ps, b).kids, strs) == m)
  }

  /** One more node seen. */
  lemma HighestMore(ps: seq<Piece>, strs: seq<Byte>, k: nat, j: nat, m: nat, path: seq<nat>)
    requires HighestBefore(ps, strs, k, m) && IsNode(ps, path) && Before(ps, path) == j
    requires k <= j < |Flat(ps)| && forall n | k <= n < j :: !(Flat(ps) + [End])[n].Begin?
    ensures var h := Handle(At(ps, path).kids, strs); HighestBefore(ps, strs, j + 1, if h > m then h else m)
  {
    hide Flat, IsAt, At, Before, Handle;
    var h := Handle(At(ps, path).kids, strs);
    forall b | IsNode(ps, b) && Before(ps, b) < j + 1 ensures Handle(At(ps, b).kids, strs) <= if h > m then h else m {
      NodeOffset(ps, b);
      if Before(ps, b) == j { FdtPath.BeforeInjective(ps, b, path); }
    }
  }

  lemma HighestAll(ps: seq<Piece>, strs: seq<Byte>, k: nat, m: nat)
    requires HighestBefore(ps, strs, k, m) && k <= |Flat(ps)| && forall n | k <= n < |Flat(ps)| :: !(Flat(ps) + [End])[n].Begin?
    ensures IsHighest(ps, strs, m)
  {
    hide Flat, IsAt, At, Before, Handle;
    forall b | IsNode(ps, b) ensures Handle(At(ps, b).kids, strs) <= m { NodeOffset(ps, b); }
  }

  /** The highest handle in the blob. */
  method FindMaxPhandle(fdt: Fdt) returns (m: nat)
    requires fdt.Valid()
    ensures IsHighest(fdt.ps, fdt.Strings(), m) && m < WORDS
  {
    hide Flat, Lexes, Named, Off, IsAt, At, Before, Handle, HighestBefore, fdt.Strings;
    ghost var ts, strs, from := fdt.Tokens(), fdt.Strings(), 0;
    var offset := -1;
    m := 0;
    assert HighestBefore(fdt.ps, strs, 0, 0) by { NoneBefore(fdt.ps, strs); }
    while true
      invariant from < |ts| && m < WORDS && HighestBefore(fdt.ps, strs, from, m) && (offset < 0 ==> from == 0)
      invariant offset >= 0 ==> from > 0 && ts[from - 1].Begin? && offset == Off(ts, from - 1)
      decreases |ts| - from
    {
      ghost var j;
      offset, j := NextAny(fdt, offset, from);
      if offset < 0 { break; }
      ghost var path := PathOf(fdt.ps, j);
      NodeOffset(fdt.ps, path);
      var value := GetPhandle(fdt, offset, path);
      HighestMore(fdt.ps, strs, from, j, m, path);
      if value > m { m := value; }
      from := j + 1;
    }
    HighestAll(fdt.ps, strs, from, m);
  }

  lemma NoneBefore(ps: seq<Piece>, strs: seq<Byte>)
    ensures HighestBefore(ps, strs, 0, 0)
  {
  }

  // ----- Shifting the handles

  /** Nothing but values below the node at `path` changed, and no length did. */
  ghost predicate Revalued(was: seq<Piece>, ps: seq<Piece>, path: seq<nat>) {
    Alike(was, ps) && Reshaped(was, ps, path)
  }

  lemma RevaluedNone(ps: seq<Piece>, path: seq<nat>)
    requires IsAt(ps, path) && At(ps, path).NodeP?
    ensures Revalued(ps, ps, path)
  {
    AlikeSelf(ps);
    ReshapedNone(ps, path);
  }

  lemma RevaluedTwice(ps: seq<Piece>, qs: seq<Piece>, rs: seq<Piece>, path: seq<nat>)
    requires Revalued(ps, qs, path) && Revalued(qs, rs, path)
    ensures Revalued(ps, rs, path)
  {
    hide Alike, Reshaped;
    AlikeTrans(ps, qs, rs);
    ReshapedTwice(ps, qs, rs, path);
  }

  /** One value replaced by another of the same length. */
  lemma ValueChanged(ps: seq<Piece>, path: seq<nat>, i: nat, value: seq<Byte>)
    requires IsAt(ps, path) && At(ps, path).NodeP? && i < |At(ps, path).kids| && At(ps, path).kids[i].PropP?
    requires |value| == |At(ps, path).kids[i].value|
    ensures var kids := At(ps, path).kids;
            var qs := Rebody(ps, path, i, 1, [kids[i].(value := value)]);
            Revalued(ps, qs, path) && IsAt(qs, path) && At(qs, path).NodeP? && At(qs, path).kids == kids[i := kids[i].(value := value)]
  {
    hide Alike, IsAt, At, Rebody;
    var kids := At(ps, path).kids;
    var p := kids[i].(value := value);
    AlikeValue(ps, path, i, value);
    RebodyReshapes(ps, path, i, 1, [p]);
    assert kids[..i] + [p] + kids[i + 1..] == kids[i := p];
  }

  lemma OverAll(value: seq<Byte>, bytes: seq<Byte>)
    requires |value| == |bytes|
    ensures Over(value, 0, bytes) == bytes
  {
  }

  lemma Sum32(w: nat, delta: nat)
    requires w < WORDS && delta < WORDS
    ensures (w + delta) % WORDS < w || (w + delta) % WORDS == RESERVED <==> w + delta >= RESERVED
    ensures w + delta < RESERVED ==> (w + delta) % WORDS == w + delta
  {
  }

  /** Raises one handle. */
  method AddOffset(fdt: Fdt, offset: int, name: seq<Byte>, delta: nat, ghost path: seq<nat>) returns (err: int)
    requires fdt.Valid() && fdt.OffsetOf(path, offset) && delta < WORDS
    modifies fdt.buf, fdt`ps
    ensures fdt.Valid() && fdt.OffsetOf(path, offset) && fdt.Strings() == old(fdt.Strings()) && Revalued(old(fdt.ps), fdt.ps, path)
    ensures var r := AddTo(old(fdt.Kids(path)), old(fdt.Strings()), name, delta);
            if r.Fail? then err == r.err else fdt.Kids(path) == r.value && (err == 0 || err == NOTFOUND)
  {
    hide fdt.Valid, fdt.OffsetOf, fdt.EntryAt, fdt.IsNode, FindProp, Word, WordBytes, NameOf, Over, IsAt, At, Rebody, Revalued;
    fdt.NodeIsNode(path, offset);
    RevaluedNone(fdt.ps, path);
    ghost var kids, strs := fdt.Kids(path), fdt.Strings();
    var r, len := fdt.GetProperty(offset, name, path);
    if r < 0 { return r; }
    ghost var i := FindProp(kids, strs, name).value;
    if len != 4 { return BADPHANDLE; }
    var w := ValueWord(fdt, r, 0, path, i);
    assert kids[i].value[0..4] == kids[i].value;
    Sum32(w, delta);
    var sum := (w + delta) % WORDS;
    if sum < w { return NOPHANDLES; }
    if sum == RESERVED { return NOPHANDLES; }
    OverAll(kids[i].value, WordBytes(sum));
    ValueChanged(fdt.ps, path, i, WordBytes(sum));
    err := SetInplacePartial(fdt, offset, name, 0, WordBytes(sum), path);
  }

  /** The children before entry `i` are shifted, the other entries are as in `ks`. */
  ghost predicate ShiftedTo(ks: seq<Piece>, now: seq<Piece>, strs: seq<Byte>, delta: nat, i: nat) {
    && |now| == |ks|
    && forall m | 0 <= m < |ks| ::
         if m < i && ks[m].NodeP? then Shift(ks[m].kids, strs, delta).Done? && now[m] == NodeP(ks[m].name, Shift(ks[m].kids, strs, delta).value)
         else now[m] == ks[m]
  }

  lemma ShiftedNext(ks: seq<Piece>, now: seq<Piece>, strs: seq<Byte>, delta: nat, i: nat, p: Piece)
    requires ShiftedTo(ks, now, strs, delta, i) && i < |ks| && ks[i].NodeP? && Shift(ks[i].kids, strs, delta).Done?
    requires p == NodeP(ks[i].name, Shift(ks[i].kids, strs, delta).value)
    ensures ShiftedTo(ks, now[i := p], strs, delta, i + 1)
  {
    hide Shift;
  }

  lemma ShiftedSkip(ks: seq<Piece>, now: seq<Piece>, strs: seq<Byte>, delta: nat, i: nat)
    requires ShiftedTo(ks, now, strs, delta, i) && i <= |now|
    ensures var n := FirstNode(now[i..]); ShiftedTo(ks, now, strs, delta, if n.Some? then i + n.value else |ks|)
  {
    hide Shift, FirstNode;
    assert forall m | i <= m < |now| :: now[i..][m - i] == now[m];
  }

  /** The node's own handles raised leave its children as they are. */
  lemma OwnRaised(kids: seq<Piece>, strs: seq<Byte>, delta: nat)
    requires AddBoth(kids, strs, delta).Done?
    ensures var ks := AddBoth(kids, strs, delta).value;
            |ks| == |kids| && forall m | 0 <= m < |kids| :: ks[m].NodeP? == kids[m].NodeP? && (kids[m].NodeP? ==> ks[m] == kids[m])
  {
    hide AddBoth, IsHandle, Raisable;
    AddBothRaises(kids, strs, delta);
  }

  lemma {:induction false} NodesDone(kids: seq<Piece>, strs: seq<Byte>, delta: nat)
    requires forall m | 0 <= m < |kids| && kids[m].NodeP? :: Shift(kids[m].kids, strs, delta).Done?
    ensures ShiftNodes(kids, strs, delta).Done?
  {
    hide Shift;
    if kids != [] { NodesDone(kids[1..], strs, delta); }
  }

  lemma {:induction false} NodesStop(kids: seq<Piece>, strs: seq<Byte>, delta: nat, i: nat)
    requires forall m | 0 <= m < i && m < |kids| && kids[m].NodeP? :: Shift(kids[m].kids, strs, delta).Done?
    requires i < |kids| && kids[i].NodeP? && Shift(kids[i].kids, strs, delta).Fail?
    ensures ShiftNodes(kids, strs, delta) == Fail(Shift(kids[i].kids, strs, delta).err)
  {
    hide Shift;
    if i > 0 { NodesStop(kids[1..], strs, delta, i - 1); }
  }

  /** All children shifted make the whole node shifted. */
  lemma ShiftedAll(kids: seq<Piece>, now: seq<Piece>, strs: seq<Byte>, delta: nat)
    requires AddBoth(kids, strs, delta).Done? && ShiftedTo(AddBoth(kids, strs, delta).value, now, strs, delta, |kids|)
    ensures Shift(kids, strs, delta) == Done(now)
  {
    hide AddBoth;
    OwnRaised(kids, strs, delta);
    var ks := AddBoth(kids, strs, delta).value;
    ShiftDone(kids, strs, delta, ks);
    var ls := Shift(kids, strs, delta).value;
    forall m | 0 <= m < |kids| ensures ls[m] == now[m] { NodesChild(kids, strs, delta, m); }
    assert ls == now;
  }

  lemma ShiftDone(kids: seq<Piece>, strs: seq<Byte>, delta: nat, ks: seq<Piece>)
    requires AddBoth(kids, strs, delta) == Done(ks)
    requires |ks| == |kids| && forall m | 0 <= m < |kids| && kids[m].NodeP? :: Shift(kids[m].kids, strs, delta).Done?
    ensures ShiftNodes(kids, strs, delta).Done? && Shift(kids, strs, delta) == Done(Blend(ks, ShiftNodes(kids, strs, delta).value))
  {
    NodesDone(kids, strs, delta);
  }

  /** A child that cannot be shifted stops the node. */
  lemma ShiftedStop(kids: seq<Piece>, now: seq<Piece>, strs: seq<Byte>, delta: nat, i: nat)
    requires AddBoth(kids, strs, delta).Done? && ShiftedTo(AddBoth(kids, strs, delta).value, now, strs, delta, i)
    requires i < |now| && now[i].NodeP? && Shift(now[i].kids, strs, delta).Fail?
    ensures Shift(kids, strs, delta) == Fail(Shift(now[i].kids, strs, delta).err)
  {
    hide AddBoth;
    OwnRaised(kids, strs, delta);
    NodesStop(kids, strs, delta, i);
  }

  lemma ShiftErrors(kids: seq<Piece>, strs: seq<Byte>, delta: nat)
    ensures Shift(kids, strs, delta).Fail? ==> Shift(kids, strs, delta).err < NOTFOUND
  {
    hide Shift;
    if Shift(kids, strs, delta).Fail? { var path, i := ShiftFails(kids, strs, delta); }
  }

  /** A child changed changes that entry of its parent. */
  lemma ChildRevalued(was: seq<Piece>, ps: seq<Piece>, path: seq<nat>, i: nat)
    requires IsAt(was, path) && At(was, path).NodeP? && i < |At(was, path).kids| && At(was, path).kids[i].NodeP?
    requires Revalued(was, ps, path + [i])
    ensures Revalued(was, ps, path) && IsAt(ps, path + [i]) && At(ps, path + [i]).NodeP?
    ensures At(ps, path).kids == At(was, path).kids[i := NodeP(At(was, path).kids[i].name, At(ps, path + [i]).kids)]
  {
    hide Alike;
    ReshapedChild(was, ps, path, i);
    ChildPlace(was, path, i);
  }

  /** Offsets outlive changes of values. */
  lemma Stays(fdt: Fdt, was: seq<Piece>, path: seq<nat>, offset: int, over: seq<nat>)
    requires Revalued(was, fdt.ps, over) && IsAt(was, path) && At(was, path).NodeP? && Before(was, path) + 1 < |Flat(was)|
    requires offset == Off(Flat(was) + [End], Before(was, path))
    ensures fdt.OffsetOf(path, offset) && |Flat(fdt.Kids(path))| == |Flat(At(was, path).kids)|
  {
    hide Flat, Off, IsAt, At, Before, Alike, Reshaped;
    StillAt(fdt, was, path, offset);
    AlikeFlat(At(was, path).kids, fdt.Kids(path));
  }

  lemma AddErrors(kids: seq<Piece>, strs: seq<Byte>, name: seq<Byte>, delta: nat)
    ensures AddTo(kids, strs, name, delta).Fail? ==> AddTo(kids, strs, name, delta).err < NOTFOUND
  {
  }

  /** Raises the node's own handles. */
  method AddOwn(fdt: Fdt, offset: int, delta: nat, ghost path: seq<nat>) returns (err: int)
    requires fdt.Valid() && fdt.OffsetOf(path, offset) && delta < WORDS
    modifies fdt.buf, fdt`ps
    ensures fdt.Valid() && fdt.OffsetOf(path, offset) && fdt.Strings() == old(fdt.Strings()) && Revalued(old(fdt.ps), fdt.ps, path)
    ensures var r := AddBoth(old(fdt.Kids(path)), old(fdt.Strings()), delta);
            if r.Fail? then err == r.err && err < NOTFOUND else err == 0 && fdt.Kids(path) == r.value
  {
    hide fdt.Valid, fdt.OffsetOf, IsAt, At, Flat, Before, Off, Revalued, AddTo;
    ghost var was, strs := fdt.ps, fdt.Strings();
    AddErrors(fdt.Kids(path), strs, PHANDLE, delta);
    err := AddOffset(fdt, offset, PHANDLE, delta, path);
    if err != 0 && err != NOTFOUND { return; }
    ghost var mid := fdt.ps;
    AddErrors(fdt.Kids(path), strs, LINUX_PHANDLE, delta);
    err := AddOffset(fdt, offset, LINUX_PHANDLE, delta, path);
    RevaluedTwice(was, mid, fdt.ps, path);
    if err != 0 && err != NOTFOUND { return; }
    err := 0;
  }

  lemma OwnFails(kids: seq<Piece>, strs: seq<Byte>, delta: nat)
    requires AddBoth(kids, strs, delta).Fail?
    ensures Shift(kids, strs, delta) == AddBoth(kids, strs, delta)
  {
  }

  lemma ShiftedStart(ks: seq<Piece>, strs: seq<Byte>, delta: nat)
    ensures ShiftedTo(ks, ks, strs, delta, 0)
    ensures var n := FirstNode(ks); ShiftedTo(ks, ks, strs, delta, if n.Some? then n.value else |ks|)
  {
    hide Shift;
    assert ks[0..] == ks;
    ShiftedSkip(ks, ks, strs, delta, 0);
  }

  /** Raises the handles of a node and of all nodes below it. */
  method AdjustPhandles(fdt: Fdt, offset: int, delta: nat, ghost path: seq<nat>) returns (err: int)
    requires fdt.Valid() && fdt.OffsetOf(path, offset) && delta < WORDS
    modifies fdt.buf, fdt`ps
    ensures fdt.Valid() && fdt.OffsetOf(path, offset) && fdt.Strings() == old(fdt.Strings()) && Revalued(old(fdt.ps), fdt.ps, path)
    ensures var r := Shift(old(fdt.Kids(path)), old(fdt.Strings()), delta);
            if r.Fail? then err == r.err else err == 0 && fdt.Kids(path) == r.value
    decreases |Flat(fdt.Kids(path))|
  {
    hide fdt.Valid, fdt.Strings, IsAt, At, Flat, Before, Off, Revalued, AddBoth, FirstNode, ShiftedTo, Shift;
    ghost var was, kids, strs := fdt.ps, fdt.Kids(path), fdt.Strings();
    err := AddOwn(fdt, offset, delta, path);
    if err != 0 { OwnFails(kids, strs, delta); return; }
    ghost var ks, i := fdt.Kids(path), 0;
    var child;
    child, i := FirstSubnode(fdt, offset, path);
    ShiftedStart(ks, strs, delta);
    Stays(fdt, was, path, offset, path);
    OwnRaised(kids, strs, delta);
    while child >= 0
      invariant fdt.Valid() && fdt.OffsetOf(path, offset) && fdt.Strings() == strs && Revalued(was, fdt.ps, path)
      invariant |fdt.Kids(path)| == |ks| && |Flat(fdt.Kids(path))| == |Flat(kids)|
      invariant child >= 0 ==> i < |ks| && fdt.Kids(path)[i].NodeP? && fdt.OffsetOf(path + [i], child)
      invariant ShiftedTo(ks, fdt.Kids(path), strs, delta, if child >= 0 then i else |ks|)
      decreases if child >= 0 then |ks| - i else -1
    {
      ghost var before, now := fdt.ps, fdt.Kids(path);
      ghost var p := now[i];
      ChildPlace(before, path, i);
      SmallerChild(now, i);
      ShiftErrors(p.kids, strs, delta);
      err := AdjustPhandles(fdt, child, delta, path + [i]);
      ChildRevalued(before, fdt.ps, path, i);
      RevaluedTwice(was, before, fdt.ps, path);
      Stays(fdt, was, path, offset, path);
      if err != 0 { ShiftedStop(kids, now, strs, delta, i); return; }
      ShiftedHere(ks, now, strs, delta, i);
      ShiftedNext(ks, now, strs, delta, i, NodeP(p.name, fdt.Kids(path + [i])));
      ShiftedSkip(ks, fdt.Kids(path), strs, delta, i + 1);
      child, i := NextSubnode(fdt, child, path, i);
    }
    ShiftedAll(kids, fdt.Kids(path), strs, delta);
    err := 0;
  }

  lemma ShiftedHere(ks: seq<Piece>, now: seq<Piece>, strs: seq<Byte>, delta: nat, i: nat)
    requires ShiftedTo(ks, now, strs, delta, i) && i < |ks|
    ensures now[i] == ks[i]
  {
  }
}
