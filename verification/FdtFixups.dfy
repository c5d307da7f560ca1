/** The correction of an overlay's references to its own nodes, in place. */
module FdtFixups {
  import opened Wrappers
  import opened FdtBytes
  import opened FdtTokens
  import opened FdtTree
  import opened FdtWalk
  import opened FdtSplice
  import opened FdtEdit
  import opened FdtRead
  import opened FdtBlob
  import opened FdtAlike
  import opened FdtInplace
  import opened FdtPhandle
  import opened FdtAdjust
  import FdtPath

  // ----- Places below the root

  lemma {:induction false} AtBody(ps: seq<Piece>, i: nat, p: seq<nat>)
    requires i < |ps| && ps[i].NodeP?
    ensures IsNode(ps, [i] + p) <==> Reaches(ps[i].kids, p)
    ensures Reaches(ps[i].kids, p) ==> At(ps, [i] + p).kids == BodyAt(ps[i].kids, p)
    decreases |p|
  {
    assert ([i] + p)[1..] == p;
    if p != [] {
      var kids, k := ps[i].kids, p[0];
      assert p == [k] + p[1..];
      assert IsNode(ps, [i] + p) <==> IsNode(kids, p);
      if k < |kids| && kids[k].NodeP? { AtBody(kids, k, p[1..]); }
    }
  }

  lemma {:induction false} PutBelow(ps: seq<Piece>, i: nat, p: seq<nat>, j: nat, q: Piece)
    requires i < |ps| && ps[i].NodeP? && Reaches(ps[i].kids, p) && j < |BodyAt(ps[i].kids, p)|
    ensures IsNode(ps, [i] + p) && j < |At(ps, [i] + p).kids|
    ensures Rebody(ps, [i] + p, j, 1, [q]) == ps[i := NodeP(ps[i].name, WithEntry(ps[i].kids, p, j, q))]
    decreases |p|
  {
    AtBody(ps, i, p);
    var path, kids := [i] + p, ps[i].kids;
    assert path[1..] == p;
    if p == [] {
      assert kids[..j] + [q] + kids[j + 1..] == kids[j := q];
    } else {
      assert p == [p[0]] + p[1..];
      PutBelow(kids, p[0], p[1..], j, q);
    }
  }

  /** The cells `cs` below the root were corrected, and nothing else changed. */
  ghost predicate Fixed(was: seq<Piece>, ps: seq<Piece>, cs: seq<Cell>, delta: nat) {
    && FdtPath.Rooted(was) && HasCells(was[0].kids, cs)
    && ps == was[0 := NodeP(was[0].name, BumpAll(was[0].kids, cs, delta))]
  }

  lemma FixedNone(ps: seq<Piece>, delta: nat)
    requires FdtPath.Rooted(ps)
    ensures Fixed(ps, ps, [], delta)
  {
  }

  lemma FixedThen(a: seq<Piece>, b: seq<Piece>, c: seq<Piece>, cs: seq<Cell>, es: seq<Cell>, delta: nat)
    requires Fixed(a, b, cs, delta) && Fixed(b, c, es, delta)
    ensures Fixed(a, c, cs + es, delta)
  {
    hide BumpAll, HasCells;
    CellsBack(a[0].kids, cs, es, delta);
    BumpConcat(a[0].kids, cs, es, delta);
  }

  lemma FixedAlike(was: seq<Piece>, ps: seq<Piece>, cs: seq<Cell>, delta: nat)
    requires Fixed(was, ps, cs, delta)
    ensures FdtPath.Rooted(ps) && Alike(was, ps) && Alike(was[0].kids, ps[0].kids) && ps[0].kids == BumpAll(was[0].kids, cs, delta)
  {
    hide BumpAll, HasCells;
    BumpAllAlike(was[0].kids, cs, delta);
    AlikeSelf(was);
    forall i | 0 <= i < |was| ensures AlikeOne(was[i], ps[i]) { AlikeAt(was, was, i); }
  }

  /** Where a node is, and an entry of a node. */
  ghost predicate NodePlace(ps: seq<Piece>, path: seq<nat>, offset: int) {
    IsNode(ps, path) && Before(ps, path) + 1 < |Flat(ps)| && offset == Off(Flat(ps) + [End], Before(ps, path))
  }

  ghost predicate EntryPlace(ps: seq<Piece>, path: seq<nat>, i: nat, offset: int) {
    && IsNode(ps, path) && i < Lead(At(ps, path).kids) && At(ps, path).kids[i].PropP?
    && KidToken(ps, path, i) < |Flat(ps) + [End]| && offset == Off(Flat(ps) + [End], KidToken(ps, path, i))
  }

  lemma PlaceKept(was: seq<Piece>, ps: seq<Piece>, path: seq<nat>, offset: int)
    requires NodePlace(was, path, offset) && Alike(was, ps)
    ensures NodePlace(ps, path, offset)
  {
    hide Flat, Off, IsAt, At, Before, Alike;
    AlikePath(was, ps, path);
    AlikeBefore(was, ps, path);
    AlikeOff(was, ps, Before(was, path));
  }

  lemma EntryKept(was: seq<Piece>, ps: seq<Piece>, path: seq<nat>, i: nat, offset: int)
    requires EntryPlace(was, path, i, offset) && Alike(was, ps)
    ensures EntryPlace(ps, path, i, offset)
  {
    hide Flat, Off, IsAt, At, Before, Alike, Lead;
    AlikePath(was, ps, path);
    AlikeBefore(was, ps, path);
    var ks, ls := At(was, path).kids, At(ps, path).kids;
    AlikeAt(ks, ls, i);
    AlikePrefix(ks, ls, i);
    AlikeFlat(ks[..i], ls[..i]);
    AlikeFinds(ks, ls, [], []);
    AlikeOff(was, ps, KidToken(was, path, i));
  }

  // ----- One cell

  /** Entry `j` of the node at `tp` is the property with this name. */
  ghost predicate Names(kids: seq<Piece>, strs: seq<Byte>, tp: seq<nat>, name: seq<Byte>, j: nat)
    ensures Names(kids, strs, tp, name, j) ==> Reaches(kids, tp) && j < |BodyAt(kids, tp)| && BodyAt(kids, tp)[j].PropP?
  {
    Reaches(kids, tp) && FindProp(BodyAt(kids, tp), strs, name) == Some(j)
  }

  lemma NamesKept(ks: seq<Piece>, ls: seq<Piece>, strs: seq<Byte>, tp: seq<nat>, name: seq<Byte>, j: nat)
    requires Names(ks, strs, tp, name, j) && Alike(ks, ls)
    ensures Names(ls, strs, tp, name, j) && |BodyAt(ls, tp)[j].value| == |BodyAt(ks, tp)[j].value|
  {
    hide FindProp, Reaches, BodyAt;
    AlikeReaches(ks, ls, tp);
    AlikeFinds(BodyAt(ks, tp), BodyAt(ls, tp), strs, name);
    AlikeAt(BodyAt(ks, tp), BodyAt(ls, tp), j);
  }

  /** The property at an entry of the node at `tp`, by its name. */
  ghost predicate Target(ps: seq<Piece>, strs: seq<Byte>, node: int, entry: int, len: nat, name: seq<Byte>, tp: seq<nat>, j: nat) {
    && FdtPath.Rooted(ps) && NodePlace(ps, [0] + tp, node) && EntryPlace(ps, [0] + tp, j, entry)
    && Names(ps[0].kids, strs, tp, name, j) && len == |BodyAt(ps[0].kids, tp)[j].value|
  }

  lemma TargetParts(fdt: Fdt, strs: seq<Byte>, node: int, entry: int, len: nat, name: seq<Byte>, tp: seq<nat>, j: nat)
    requires Target(fdt.ps, strs, node, entry, len, name, tp, j)
    ensures FdtPath.Rooted(fdt.ps) && fdt.OffsetOf([0] + tp, node) && fdt.EntryAt([0] + tp, j, entry)
    ensures Reaches(fdt.ps[0].kids, tp) && j < Lead(fdt.Kids([0] + tp)) && fdt.Kids([0] + tp) == BodyAt(fdt.ps[0].kids, tp) && FindProp(fdt.Kids([0] + tp), strs, name) == Some(j)
    ensures fdt.Kids([0] + tp)[j].PropP? && len == |fdt.Kids([0] + tp)[j].value|
  {
    hide Flat, Off, IsAt, At, Before, Reaches, BodyAt, FindProp;
    AtBody(fdt.ps, 0, tp);
  }

  lemma TargetKept(was: seq<Piece>, ps: seq<Piece>, strs: seq<Byte>, node: int, entry: int, len: nat, name: seq<Byte>, tp: seq<nat>, j: nat)
    requires Target(was, strs, node, entry, len, name, tp, j) && Alike(was, ps) && FdtPath.Rooted(ps) && Alike(was[0].kids, ps[0].kids)
    ensures Target(ps, strs, node, entry, len, name, tp, j)
  {
    hide Alike, NodePlace, EntryPlace, Names, BodyAt;
    PlaceKept(was, ps, [0] + tp, node);
    EntryKept(was, ps, [0] + tp, j, entry);
    NamesKept(was[0].kids, ps[0].kids, strs, tp, name, j);
  }

  /** What becomes of a listed offset. */
  function Verdict(len: nat, off: nat): int {
    if (off + 4) % WORDS > len then BADOVERLAY else if off + 4 >= WORDS then WILD else 0
  }

  lemma VerdictFits(len: nat, off: nat)
    requires off < WORDS
    ensures Verdict(len, off) == 0 <==> off + 4 < WORDS && off + 4 <= len
  {
  }

  /** Corrects the reference at one offset of a property. */
  method FixCell(fdt: Fdt, treeNode: int, entry: nat, len: nat, name: seq<Byte>, off: nat, delta: nat, ghost tp: seq<nat>, ghost j: nat)
    returns (err: int)
    requires fdt.Valid() && Target(fdt.ps, fdt.Strings(), treeNode, entry, len, name, tp, j) && off < WORDS
    modifies fdt.buf, fdt`ps
    ensures fdt.Valid() && fdt.Strings() == old(fdt.Strings())
    ensures err == Verdict(len, off) && Fixed(old(fdt.ps), fdt.ps, if err == 0 then [Cell(tp, j, off)] else [], delta)
  {
    hide fdt.Valid, fdt.OffsetOf, fdt.EntryAt, IsAt, At, FindProp, Word, WordBytes, NameOf, Rebody, Reaches, BodyAt, WithEntry, Fixed, Over, Patched, Plus32, Target;
    VerdictFits(len, off);
    TargetParts(fdt, fdt.Strings(), treeNode, entry, len, name, tp, j);
    FixedNone(fdt.ps, delta);
    if (off + 4) % WORDS > len { return BADOVERLAY; }
    if off + 4 >= WORDS { return WILD; }
    ghost var was, path := fdt.ps, [0] + tp;
    var w := ValueWord(fdt, entry, off, path, j);
    var sum := Plus32(w, delta);
    err := SetInplacePartial(fdt, treeNode, name, off, WordBytes(sum), path);
    FixedOne(was, tp, j, off, delta);
  }

  /** One word overwritten is one cell corrected. */
  lemma FixedOne(ps: seq<Piece>, tp: seq<nat>, j: nat, off: nat, delta: nat)
    requires FdtPath.Rooted(ps) && HasCell(ps[0].kids, Cell(tp, j, off))
    ensures IsNode(ps, [0] + tp) && j < |At(ps, [0] + tp).kids| && At(ps, [0] + tp).kids[j].PropP? && off + 4 <= |At(ps, [0] + tp).kids[j].value|
    ensures var p := At(ps, [0] + tp).kids[j];
            var w := Plus32(Word(p.value[off..off + 4]), delta);
            Fixed(ps, Rebody(ps, [0] + tp, j, 1, [p.(value := Over(p.value, off, WordBytes(w)))]), [Cell(tp, j, off)], delta)
  {
    hide IsAt, At, Rebody, Reaches, BodyAt, WithEntry, Word, WordBytes, Plus32;
    AtBody(ps, 0, tp);
    var kids, c := ps[0].kids, Cell(tp, j, off);
    var p := BodyAt(kids, tp)[j];
    var q := p.(value := Patched(p.value, off, Plus32(WordAt(kids, c), delta)));
    PutBelow(ps, 0, tp, j, q);
    assert BumpAll(kids, [c], delta) == Bump(kids, c, delta) by { BumpSingle(kids, c, delta); }
  }

  lemma BumpSingle(kids: seq<Piece>, c: Cell, delta: nat)
    requires HasCell(kids, c)
    ensures BumpAll(kids, [c], delta) == Bump(kids, c, delta)
  {
    assert [c][1..] == [];
  }

  // ----- All cells of a property

  /** What comes after cells already found. */
  ghost function Onto(cs: seq<Cell>, r: Outcome<seq<Cell>>): Outcome<seq<Cell>> {
    if r.Fail? then r else Done(cs + r.value)
  }

  lemma OntoTwice(cs: seq<Cell>, es: seq<Cell>, r: Outcome<seq<Cell>>)
    ensures Onto(cs, Onto(es, r)) == Onto(cs + es, r) && Onto([], r) == r && Onto(cs, Done([])) == Done(cs)
  {
    assert cs + [] == cs;
    if r.Done? { assert cs + (es + r.value) == (cs + es) + r.value && [] + r.value == r.value; }
  }

  /** The `c`-th offset listed. */
  ghost predicate Lists(kids: seq<Piece>, fp: seq<nat>, i: nat, c: nat) {
    Reaches(kids, fp) && i < |BodyAt(kids, fp)| && BodyAt(kids, fp)[i].PropP? && 4 * c + 4 <= |BodyAt(kids, fp)[i].value|
  }

  /** One listed offset and the rest. */
  lemma CellsStep(kids: seq<Piece>, tp: seq<nat>, j: nat, fp: seq<nat>, i: nat, c: nat, delta: nat, off: nat)
    requires Reaches(kids, tp) && j < |BodyAt(kids, tp)| && BodyAt(kids, tp)[j].PropP? && Lists(kids, fp, i, c)
    requires off == Word(BodyAt(kids, fp)[i].value[4 * c..4 * c + 4])
    ensures var v := Verdict(|BodyAt(kids, tp)[j].value|, off);
            if v != 0 then FixCells(kids, tp, j, fp, i, c, delta) == Fail(v) else
            && HasCell(kids, Cell(tp, j, off))
            && var ls := BumpAll(kids, [Cell(tp, j, off)], delta);
               && Reaches(ls, tp) && j < |BodyAt(ls, tp)| && BodyAt(ls, tp)[j].PropP?
               && Reaches(ls, fp) && i < |BodyAt(ls, fp)| && BodyAt(ls, fp)[i].PropP?
               && FixCells(kids, tp, j, fp, i, c, delta) == Onto([Cell(tp, j, off)], FixCells(ls, tp, j, fp, i, c + 1, delta))
  {
    hide Reaches, BodyAt, BumpAll, Bump, Word;
    var cell := Cell(tp, j, off);
    if Verdict(|BodyAt(kids, tp)[j].value|, off) == 0 {
      BumpSingle(kids, cell, delta);
      BumpKeeps(kids, cell, delta, tp, j);
      BumpKeeps(kids, cell, delta, fp, i);
    }
  }

  /** The cells found so far lead from `start` to `kids`, and the rest follow from offset `c` on. */
  ghost predicate CellsTo(start: seq<Piece>, kids: seq<Piece>, tp: seq<nat>, j: nat, fp: seq<nat>, i: nat, c: nat, cs: seq<Cell>, delta: nat) {
    && Reaches(start, tp) && j < |BodyAt(start, tp)| && BodyAt(start, tp)[j].PropP?
    && Reaches(start, fp) && i < |BodyAt(start, fp)| && BodyAt(start, fp)[i].PropP?
    && Reaches(kids, tp) && j < |BodyAt(kids, tp)| && BodyAt(kids, tp)[j].PropP?
    && Reaches(kids, fp) && i < |BodyAt(kids, fp)| && BodyAt(kids, fp)[i].PropP?
    && FixCells(start, tp, j, fp, i, 0, delta) == Onto(cs, FixCells(kids, tp, j, fp, i, c, delta))
  }

  lemma CellsNext(start: seq<Piece>, kids: seq<Piece>, tp: seq<nat>, j: nat, fp: seq<nat>, i: nat, c: nat, cs: seq<Cell>, delta: nat, off: nat)
    requires CellsTo(start, kids, tp, j, fp, i, c, cs, delta) && Lists(kids, fp, i, c)
    requires off == Word(BodyAt(kids, fp)[i].value[4 * c..4 * c + 4])
    ensures var v, cell := Verdict(|BodyAt(kids, tp)[j].value|, off), Cell(tp, j, off);
            if v != 0 then FixCells(start, tp, j, fp, i, 0, delta) == Fail(v)
            else CellsTo(start, BumpAll(kids, [cell], delta), tp, j, fp, i, c + 1, cs + [cell], delta)
  {
    hide Reaches, BodyAt, BumpAll, Word, FixCells;
    CellsStep(kids, tp, j, fp, i, c, delta, off);
    var cell := Cell(tp, j, off);
    if Verdict(|BodyAt(kids, tp)[j].value|, off) == 0 {
      OntoTwice(cs, [cell], FixCells(BumpAll(kids, [cell], delta), tp, j, fp, i, c + 1, delta));
    }
  }

  lemma CellsStart(kids: seq<Piece>, tp: seq<nat>, j: nat, fp: seq<nat>, i: nat, delta: nat)
    requires Reaches(kids, tp) && j < |BodyAt(kids, tp)| && BodyAt(kids, tp)[j].PropP?
    requires Reaches(kids, fp) && i < |BodyAt(kids, fp)| && BodyAt(kids, fp)[i].PropP?
    ensures CellsTo(kids, kids, tp, j, fp, i, 0, [], delta)
  {
    hide Reaches, BodyAt, FixCells;
    OntoTwice([], [], FixCells(kids, tp, j, fp, i, 0, delta));
  }

  lemma CellsEnd(start: seq<Piece>, kids: seq<Piece>, tp: seq<nat>, j: nat, fp: seq<nat>, i: nat, c: nat, cs: seq<Cell>, delta: nat)
    requires CellsTo(start, kids, tp, j, fp, i, c, cs, delta) && 4 * c + 4 > |BodyAt(kids, fp)[i].value|
    ensures FixCells(start, tp, j, fp, i, 0, delta) == Done(cs)
  {
    hide Reaches, BodyAt, BumpAll, Word;
    OntoTwice(cs, [], Done([]));
  }

  /** The fix-up property at an entry of the node at `fp`. */
  ghost predicate Source(ps: seq<Piece>, fixup: int, listed: nat, fp: seq<nat>, i: nat)
    ensures Source(ps, fixup, listed, fp, i) ==> FdtPath.Rooted(ps) && Reaches(ps[0].kids, fp) && i < |BodyAt(ps[0].kids, fp)| && BodyAt(ps[0].kids, fp)[i].PropP?
  {
    && FdtPath.Rooted(ps) && EntryPlace(ps, [0] + fp, i, fixup) && listed == |At(ps, [0] + fp).kids[i].value|
    && (AtBody(ps, 0, fp); true)
  }

  lemma SourceParts(fdt: Fdt, fixup: int, listed: nat, fp: seq<nat>, i: nat)
    requires Source(fdt.ps, fixup, listed, fp, i)
    ensures fdt.EntryAt([0] + fp, i, fixup) && i < Lead(fdt.Kids([0] + fp)) && fdt.Kids([0] + fp) == BodyAt(fdt.ps[0].kids, fp)
    ensures fdt.Kids([0] + fp)[i].PropP? && listed == |fdt.Kids([0] + fp)[i].value|
  {
    hide Flat, Off, IsAt, At, Before, Reaches, BodyAt;
    AtBody(fdt.ps, 0, fp);
  }

  lemma SourceKept(was: seq<Piece>, ps: seq<Piece>, fixup: int, listed: nat, fp: seq<nat>, i: nat)
    requires Source(was, fixup, listed, fp, i) && Alike(was, ps) && FdtPath.Rooted(ps)
    ensures Source(ps, fixup, listed, fp, i)
  {
    hide Flat, Off, IsAt, At, Before, Alike, Lead;
    EntryKept(was, ps, [0] + fp, i, fixup);
    AlikePath(was, ps, [0] + fp);
    AlikeAt(At(was, [0] + fp).kids, At(ps, [0] + fp).kids, i);
  }

  /** Corrects every reference that one fix-up property lists. */
  method FixProperty(fdt: Fdt, treeNode: int, entry: nat, len: nat, name: seq<Byte>, fixup: nat, listed: nat, delta: nat,
                     ghost tp: seq<nat>, ghost j: nat, ghost fp: seq<nat>, ghost i: nat)
    returns (err: int, ghost cs: seq<Cell>)
    requires fdt.Valid() && Target(fdt.ps, fdt.Strings(), treeNode, entry, len, name, tp, j) && Source(fdt.ps, fixup, listed, fp, i)
    modifies fdt.buf, fdt`ps
    ensures fdt.Valid() && fdt.Strings() == old(fdt.Strings()) && Fixed(old(fdt.ps), fdt.ps, cs, delta)
    ensures var r := FixCells(old(fdt.ps[0].kids), tp, j, fp, i, 0, delta);
            if r.Fail? then err == r.err else err == 0 && cs == r.value
  {
    hide fdt.Valid, fdt.OffsetOf, fdt.EntryAt, IsAt, At, FindProp, Word, NameOf, Reaches, BodyAt, Fixed, BumpAll, FixCells, CellsTo, Alike, Lead, Verdict, Onto, fdt.Strings, fdt.Kids, fdt.NodeAt;
    ghost var was, strs := fdt.ps, fdt.Strings();
    ghost var start := was[0].kids;
    CellsStart(start, tp, j, fp, i, delta);
    hide Target, Source;
    FixedNone(was, delta);
    cs := [];
    var c := 0;
    while c < listed / 4
      invariant fdt.Valid() && fdt.Strings() == strs && Fixed(was, fdt.ps, cs, delta) && FdtPath.Rooted(fdt.ps)
      invariant CellsTo(start, fdt.ps[0].kids, tp, j, fp, i, c, cs, delta)
      invariant Target(fdt.ps, strs, treeNode, entry, len, name, tp, j) && Source(fdt.ps, fixup, listed, fp, i)
    {
      ghost var ps := fdt.ps;
      SourceParts(fdt, fixup, listed, fp, i);
      TargetParts(fdt, strs, treeNode, entry, len, name, tp, j);
      var off := ValueWord(fdt, fixup, 4 * c, [0] + fp, i);
      CellsNext(start, ps[0].kids, tp, j, fp, i, c, cs, delta, off);
      err := FixCell(fdt, treeNode, entry, len, name, off, delta, tp, j);
      ghost var now := if err == 0 then [Cell(tp, j, off)] else [];
      FixedThen(was, ps, fdt.ps, cs, now, delta);
      cs := cs + now;
      if err != 0 { return; }
      FixedAlike(ps, fdt.ps, now, delta);
      TargetKept(ps, fdt.ps, strs, treeNode, entry, len, name, tp, j);
      SourceKept(ps, fdt.ps, fixup, listed, fp, i);
      c := c + 1;
    }
    SourceParts(fdt, fixup, listed, fp, i);
    CellsEnd(start, fdt.ps[0].kids, tp, j, fp, i, c, cs, delta);
    err := 0;
  }

  // ----- All properties of a fix-up node

  /** What becomes of one fix-up property. */
  ghost function FixOne(kids: seq<Piece>, strs: seq<Byte>, tp: seq<nat>, fp: seq<nat>, i: nat, delta: nat): (r: Outcome<seq<Cell>>)
    requires Reaches(kids, tp) && Reaches(kids, fp) && i < |BodyAt(kids, fp)| && BodyAt(kids, fp)[i].PropP?
    ensures r.Fail? ==> r.err != 0
  {
    var p := BodyAt(kids, fp)[i];
    if |p.value| % 4 != 0 then Fail(BADOVERLAY) else
    var j := FindProp(BodyAt(kids, tp), strs, NameOf(strs, p.nameoff));
    if j.None? then Fail(BADOVERLAY) else FixCells(kids, tp, j.value, fp, i, 0, delta)
  }

  /** One fix-up property and the rest. */
  lemma PropsStep(kids: seq<Piece>, strs: seq<Byte>, tp: seq<nat>, fp: seq<nat>, i: nat, delta: nat)
    requires Reaches(kids, tp) && Reaches(kids, fp) && i < Lead(BodyAt(kids, fp)) && BodyAt(kids, fp)[i].PropP?
    ensures var r := FixOne(kids, strs, tp, fp, i, delta);
            if r.Fail? then FixProps(kids, strs, tp, fp, i, delta) == r else
            var ls := BumpAll(kids, r.value, delta);
            Reaches(ls, tp) && Reaches(ls, fp) && FixProps(kids, strs, tp, fp, i, delta) == Onto(r.value, FixProps(ls, strs, tp, fp, i + 1, delta))
  {
    hide FixCells, FindProp, NameOf, BumpAll, Reaches, BodyAt;
    var r := FixOne(kids, strs, tp, fp, i, delta);
    if r.Done? {
      BumpAllKeeps(kids, r.value, delta, tp);
      BumpAllKeeps(kids, r.value, delta, fp);
    }
  }

  lemma {:induction false} PropsSkip(kids: seq<Piece>, strs: seq<Byte>, tp: seq<nat>, fp: seq<nat>, i: nat, n: nat, delta: nat)
    requires Reaches(kids, tp) && Reaches(kids, fp) && i <= n <= Lead(BodyAt(kids, fp))
    requires forall m | i <= m < n :: BodyAt(kids, fp)[m].NopP?
    ensures FixProps(kids, strs, tp, fp, i, delta) == FixProps(kids, strs, tp, fp, n, delta)
    decreases n - i
  {
    hide FixCells, FindProp, NameOf, BumpAll, Reaches, BodyAt;
    if i < n { PropsSkip(kids, strs, tp, fp, i + 1, n, delta); }
  }

  /** The cells found so far lead from `start` to `kids`, and the rest follow from entry `i` on. */
  ghost predicate PropsTo(start: seq<Piece>, kids: seq<Piece>, strs: seq<Byte>, tp: seq<nat>, fp: seq<nat>, i: nat, cs: seq<Cell>, delta: nat) {
    && Reaches(start, tp) && Reaches(start, fp) && Reaches(kids, tp) && Reaches(kids, fp)
    && FixProps(start, strs, tp, fp, 0, delta) == Onto(cs, FixProps(kids, strs, tp, fp, i, delta))
  }

  lemma PropsStart(kids: seq<Piece>, strs: seq<Byte>, tp: seq<nat>, fp: seq<nat>, n: nat, delta: nat)
    requires Reaches(kids, tp) && Reaches(kids, fp) && n <= Lead(BodyAt(kids, fp)) && forall m | 0 <= m < n :: BodyAt(kids, fp)[m].NopP?
    ensures PropsTo(kids, kids, strs, tp, fp, n, [], delta)
  {
    hide FixProps, Reaches, BodyAt;
    PropsSkip(kids, strs, tp, fp, 0, n, delta);
    OntoTwice([], [], FixProps(kids, strs, tp, fp, n, delta));
  }

  lemma PropsNext(start: seq<Piece>, kids: seq<Piece>, strs: seq<Byte>, tp: seq<nat>, fp: seq<nat>, i: nat, cs: seq<Cell>, delta: nat)
    requires PropsTo(start, kids, strs, tp, fp, i, cs, delta) && i < Lead(BodyAt(kids, fp)) && BodyAt(kids, fp)[i].PropP?
    ensures var r := FixOne(kids, strs, tp, fp, i, delta);
            if r.Fail? then FixProps(start, strs, tp, fp, 0, delta) == r
            else PropsTo(start, BumpAll(kids, r.value, delta), strs, tp, fp, i + 1, cs + r.value, delta)
  {
    hide FixProps, FixOne, Reaches, BodyAt, BumpAll;
    PropsStep(kids, strs, tp, fp, i, delta);
    var r := FixOne(kids, strs, tp, fp, i, delta);
    if r.Done? {
      var ls := BumpAll(kids, r.value, delta);
      OntoTwice(cs, r.value, FixProps(ls, strs, tp, fp, i + 1, delta));
    }
  }

  lemma PropsOn(start: seq<Piece>, kids: seq<Piece>, strs: seq<Byte>, tp: seq<nat>, fp: seq<nat>, i: nat, n: nat, cs: seq<Cell>, delta: nat)
    requires PropsTo(start, kids, strs, tp, fp, i, cs, delta) && i <= n <= Lead(BodyAt(kids, fp)) && forall m | i <= m < n :: BodyAt(kids, fp)[m].NopP?
    ensures PropsTo(start, kids, strs, tp, fp, n, cs, delta)
  {
    hide FixProps, Reaches, BodyAt;
    PropsSkip(kids, strs, tp, fp, i, n, delta);
  }

  lemma PropsEnd(start: seq<Piece>, kids: seq<Piece>, strs: seq<Byte>, tp: seq<nat>, fp: seq<nat>, i: nat, cs: seq<Cell>, delta: nat)
    requires PropsTo(start, kids, strs, tp, fp, i, cs, delta) && i >= Lead(BodyAt(kids, fp))
    ensures FixProps(start, strs, tp, fp, 0, delta) == Done(cs)
  {
    hide Reaches, BodyAt;
    OntoTwice(cs, [], Done([]));
  }

  /** Corrects the references one fix-up property asks for. */
  method FixEntry(fdt: Fdt, treeNode: int, fixup: nat, delta: nat, ghost tp: seq<nat>, ghost fp: seq<nat>, ghost i: nat)
    returns (err: int, ghost cs: seq<Cell>)
    requires fdt.Valid() && FdtPath.Rooted(fdt.ps) && NodePlace(fdt.ps, [0] + tp, treeNode) && EntryPlace(fdt.ps, [0] + fp, i, fixup)
    requires Reaches(fdt.ps[0].kids, tp) && Reaches(fdt.ps[0].kids, fp) && i < |BodyAt(fdt.ps[0].kids, fp)| && BodyAt(fdt.ps[0].kids, fp)[i].PropP?
    modifies fdt.buf, fdt`ps
    ensures fdt.Valid() && fdt.Strings() == old(fdt.Strings()) && Fixed(old(fdt.ps), fdt.ps, cs, delta)
    ensures var r := FixOne(old(fdt.ps[0].kids), old(fdt.Strings()), tp, fp, i, delta);
            if r.Fail? then err == r.err else err == 0 && cs == r.value
  {
    hide fdt.Valid, IsAt, At, FindProp, Word, NameOf, Reaches, BodyAt, Fixed, BumpAll, FixCells, Alike, Lead, Flat, Off, Before, fdt.IsNode;
    cs := [];
    FixedNone(fdt.ps, delta);
    AtBody(fdt.ps, 0, tp);
    AtBody(fdt.ps, 0, fp);
    var name, listed := PropertyAt(fdt, fixup, [0] + fp, i);
    if listed % 4 != 0 { return BADOVERLAY, cs; }
    fdt.NodeIsNode([0] + tp, treeNode);
    var entry, len := fdt.GetProperty(treeNode, name, [0] + tp);
    if entry < 0 { return BADOVERLAY, cs; }
    ghost var j := FindProp(fdt.Kids([0] + tp), fdt.Strings(), name).value;
    assert Target(fdt.ps, fdt.Strings(), treeNode, entry, len, name, tp, j);
    assert Source(fdt.ps, fixup, listed, fp, i);
    err, cs := FixProperty(fdt, treeNode, entry, len, name, fixup, listed, delta, tp, j, fp, i);
  }

  /** A node below the root, by its offset. */
  ghost predicate Standing(ps: seq<Piece>, p: seq<nat>, offset: int)
    ensures Standing(ps, p, offset) ==> FdtPath.Rooted(ps) && Reaches(ps[0].kids, p)
  {
    FdtPath.Rooted(ps) && NodePlace(ps, [0] + p, offset) && (AtBody(ps, 0, p); true)
  }

  lemma StandingParts(fdt: Fdt, p: seq<nat>, offset: int)
    requires Standing(fdt.ps, p, offset)
    ensures fdt.OffsetOf([0] + p, offset) && fdt.Kids([0] + p) == BodyAt(fdt.ps[0].kids, p)
  {
    hide Flat, Off, IsAt, At, Before, Reaches, BodyAt;
    AtBody(fdt.ps, 0, p);
  }

  lemma StandingKept(was: seq<Piece>, ps: seq<Piece>, p: seq<nat>, offset: int, cs: seq<Cell>, delta: nat)
    requires Standing(was, p, offset) && Fixed(was, ps, cs, delta)
    ensures Standing(ps, p, offset) && Alike(BodyAt(was[0].kids, p), BodyAt(ps[0].kids, p)) && |BodyAt(ps[0].kids, p)| == |BodyAt(was[0].kids, p)|
  {
    hide NodePlace, Fixed, AlikeOne, Reaches, BodyAt;
    FixedAlike(was, ps, cs, delta);
    PlaceKept(was, ps, [0] + p, offset);
    AlikeReaches(was[0].kids, ps[0].kids, p);
  }

  /** The fix-up property about to be read, if any. */
  ghost predicate Reading(ps: seq<Piece>, fp: seq<nat>, i: nat, fixup: int) {
    && FdtPath.Rooted(ps) && Reaches(ps[0].kids, fp) && i <= Lead(BodyAt(ps[0].kids, fp))
    && (fixup >= 0 ==> EntryPlace(ps, [0] + fp, i, fixup) && i < Lead(BodyAt(ps[0].kids, fp)) && BodyAt(ps[0].kids, fp)[i].PropP?)
    && (fixup < 0 ==> i == Lead(BodyAt(ps[0].kids, fp)))
  }

  /** From one entry of the fix-up node to its next property. */
  method NextFixup(fdt: Fdt, offset: int, ghost fp: seq<nat>, ghost i: nat) returns (r: int, ghost n: nat)
    requires fdt.Valid() && FdtPath.Rooted(fdt.ps) && Reaches(fdt.ps[0].kids, fp) && fdt.EntryAt([0] + fp, i, offset)
    ensures Reading(fdt.ps, fp, n, r) && i <= n && forall m | i <= m < n :: BodyAt(fdt.ps[0].kids, fp)[m].NopP?
  {
    hide fdt.Valid, IsAt, At, Reaches, BodyAt, Lead, Flat, Off, Before;
    AtBody(fdt.ps, 0, fp);
    r, n := fdt.NextProp(offset, [0] + fp, i);
  }

  /** The entry after a fix-up property, once its references are corrected. */
  method PassFixup(fdt: Fdt, fixup: nat, ghost was: seq<Piece>, ghost cs: seq<Cell>, ghost delta: nat, ghost fp: seq<nat>, ghost i: nat)
    returns (r: int, ghost n: nat)
    requires fdt.Valid() && Reading(was, fp, i, fixup) && Fixed(was, fdt.ps, cs, delta)
    ensures Reading(fdt.ps, fp, n, r) && i < n && forall m | i < m < n :: BodyAt(fdt.ps[0].kids, fp)[m].NopP?
  {
    hide fdt.Valid, IsAt, At, Reaches, BodyAt, Lead, Flat, Off, Before, Alike, Fixed;
    FixedAlike(was, fdt.ps, cs, delta);
    EntryKept(was, fdt.ps, [0] + fp, i, fixup);
    AlikeReaches(was[0].kids, fdt.ps[0].kids, fp);
    var tag, next := fdt.ReadEntry(fixup, [0] + fp, i);
    r, n := NextFixup(fdt, next, fp, i + 1);
  }

  /** Corrects the references that the properties of a fix-up node list. */
  method FixOwn(fdt: Fdt, treeNode: int, fixNode: int, delta: nat, ghost tp: seq<nat>, ghost fp: seq<nat>) returns (err: int, ghost cs: seq<Cell>)
    requires fdt.Valid() && Standing(fdt.ps, tp, treeNode) && Standing(fdt.ps, fp, fixNode)
    modifies fdt.buf, fdt`ps
    ensures fdt.Valid() && fdt.Strings() == old(fdt.Strings()) && Fixed(old(fdt.ps), fdt.ps, cs, delta)
    ensures var r := FixProps(old(fdt.ps[0].kids), old(fdt.Strings()), tp, fp, 0, delta);
            if r.Fail? then err == r.err else err == 0 && cs == r.value
  {
    hide fdt.Valid, IsAt, At, Reaches, BodyAt, Fixed, BumpAll, FixOne, FixProps, PropsTo, Lead, Flat, Off, Before, fdt.IsNode, fdt.Strings, fdt.EntryAt, fdt.OffsetOf,
         NodePlace, EntryPlace, Alike;
    ghost var was, strs, i := fdt.ps, fdt.Strings(), 0;
    ghost var start := was[0].kids;
    cs := [];
    FixedNone(was, delta);
    StandingParts(fdt, fp, fixNode);
    fdt.NodeIsNode([0] + fp, fixNode);
    var fixup := fdt.Enter(fixNode, [0] + fp);
    fixup, i := NextFixup(fdt, fixup, fp, 0);
    PropsStart(start, strs, tp, fp, i, delta);
    while fixup >= 0
      invariant fdt.Valid() && fdt.Strings() == strs && Fixed(was, fdt.ps, cs, delta)
      invariant Standing(fdt.ps, tp, treeNode) && Standing(fdt.ps, fp, fixNode) && Reading(fdt.ps, fp, i, fixup)
      invariant PropsTo(start, fdt.ps[0].kids, strs, tp, fp, i, cs, delta)
      decreases |BodyAt(fdt.ps[0].kids, fp)| - i, fixup
    {
      ghost var ps, es, k := fdt.ps, [], i;
      PropsNext(start, ps[0].kids, strs, tp, fp, i, cs, delta);
      err, es := FixEntry(fdt, treeNode, fixup, delta, tp, fp, i);
      FixedThen(was, ps, fdt.ps, cs, es, delta);
      cs := cs + es;
      if err != 0 { return; }
      FixedAlike(ps, fdt.ps, es, delta);
      StandingKept(ps, fdt.ps, tp, treeNode, es, delta);
      StandingKept(ps, fdt.ps, fp, fixNode, es, delta);
      fixup, i := PassFixup(fdt, fixup, ps, es, delta, fp, i);
      PropsOn(start, fdt.ps[0].kids, strs, tp, fp, k + 1, i, cs, delta);
    }
    PropsEnd(start, fdt.ps[0].kids, strs, tp, fp, i, cs, delta);
    err := 0;
  }

  // ----- The whole fix-up tree

  /** What becomes of one child of a fix-up node. */
  ghost function FixUnder(kids: seq<Piece>, strs: seq<Byte>, tp: seq<nat>, fp: seq<nat>, gs: seq<Piece>, j: nat, delta: nat): (r: Outcome<seq<Cell>>)
    requires Reaches(kids, tp) && Reaches(kids, fp) && Alike(gs, BodyAt(kids, fp)) && j < |gs| && gs[j].NodeP?
    ensures r.Fail? ==> r.err != 0
  {
    var k := FirstChild(BodyAt(kids, tp), gs[j].name);
    if k.None? then Fail(BADOVERLAY) else
    Below(kids, tp, k.value);
    AlikeAt(gs, BodyAt(kids, fp), j);
    Below(kids, fp, j);
    Fix(kids, strs, tp + [k.value], fp + [j], gs[j].kids, delta)
  }

  /** One child and the rest. */
  lemma NodesStep(kids: seq<Piece>, strs: seq<Byte>, tp: seq<nat>, fp: seq<nat>, gs: seq<Piece>, j: nat, delta: nat)
    requires Reaches(kids, tp) && Reaches(kids, fp) && Alike(gs, BodyAt(kids, fp)) && j < |gs| && gs[j].NodeP?
    ensures var r := FixUnder(kids, strs, tp, fp, gs, j, delta);
            if r.Fail? then FixNodes(kids, strs, tp, fp, gs, j, delta) == r else
            var ls := BumpAll(kids, r.value, delta);
            && Reaches(ls, tp) && Reaches(ls, fp) && Alike(gs, BodyAt(ls, fp))
            && FixNodes(kids, strs, tp, fp, gs, j, delta) == Onto(r.value, FixNodes(ls, strs, tp, fp, gs, j + 1, delta))
  {
    hide Fix, FirstChild, BumpAll, Reaches, BodyAt, Alike;
    var r := FixUnder(kids, strs, tp, fp, gs, j, delta);
    if r.Done? {
      BumpAllKeeps(kids, r.value, delta, tp);
      BumpAllKeeps(kids, r.value, delta, fp);
      AlikeTrans(gs, BodyAt(kids, fp), BodyAt(BumpAll(kids, r.value, delta), fp));
    }
  }

  lemma {:induction false} NodesSkip(kids: seq<Piece>, strs: seq<Byte>, tp: seq<nat>, fp: seq<nat>, gs: seq<Piece>, j: nat, n: nat, delta: nat)
    requires Reaches(kids, tp) && Reaches(kids, fp) && Alike(gs, BodyAt(kids, fp)) && j <= n <= |gs| && forall m | j <= m < n :: !gs[m].NodeP?
    ensures FixNodes(kids, strs, tp, fp, gs, j, delta) == FixNodes(kids, strs, tp, fp, gs, n, delta)
    decreases n - j
  {
    hide Fix, FirstChild, BumpAll, Reaches, BodyAt, Alike;
    if j < n { NodesSkip(kids, strs, tp, fp, gs, j + 1, n, delta); }
  }

  /** The cells found so far lead from `start` to `kids`, and the rest follow from child `j` on. */
  ghost predicate NodesTo(start: seq<Piece>, kids: seq<Piece>, strs: seq<Byte>, tp: seq<nat>, fp: seq<nat>, gs: seq<Piece>, j: nat, cs: seq<Cell>, delta: nat) {
    && Reaches(start, tp) && Reaches(start, fp) && Alike(gs, BodyAt(start, fp))
    && Reaches(kids, tp) && Reaches(kids, fp) && Alike(gs, BodyAt(kids, fp)) && j <= |gs|
    && Fix(start, strs, tp, fp, gs, delta) == Onto(cs, FixNodes(kids, strs, tp, fp, gs, j, delta))
  }

  lemma NodesStart(start: seq<Piece>, strs: seq<Byte>, tp: seq<nat>, fp: seq<nat>, gs: seq<Piece>, delta: nat)
    requires Reaches(start, tp) && Reaches(start, fp) && Alike(gs, BodyAt(start, fp))
    ensures var r := FixProps(start, strs, tp, fp, 0, delta);
            if r.Fail? then Fix(start, strs, tp, fp, gs, delta) == r
            else NodesTo(start, BumpAll(start, r.value, delta), strs, tp, fp, gs, 0, r.value, delta)
  {
    hide FixProps, FixNodes, BumpAll, Reaches, BodyAt, Alike;
    var r := FixProps(start, strs, tp, fp, 0, delta);
    if r.Done? {
      var ls := BumpAll(start, r.value, delta);
      BumpAllKeeps(start, r.value, delta, tp);
      BumpAllKeeps(start, r.value, delta, fp);
      AlikeTrans(gs, BodyAt(start, fp), BodyAt(ls, fp));
    }
  }

  lemma NodesNext(start: seq<Piece>, kids: seq<Piece>, strs: seq<Byte>, tp: seq<nat>, fp: seq<nat>, gs: seq<Piece>, j: nat, cs: seq<Cell>, delta: nat)
    requires NodesTo(start, kids, strs, tp, fp, gs, j, cs, delta) && j < |gs| && gs[j].NodeP?
    ensures var r := FixUnder(kids, strs, tp, fp, gs, j, delta);
            if r.Fail? then Fix(start, strs, tp, fp, gs, delta) == r
            else NodesTo(start, BumpAll(kids, r.value, delta), strs, tp, fp, gs, j + 1, cs + r.value, delta)
  {
    hide Fix, FixNodes, FixUnder, Reaches, BodyAt, BumpAll, Alike;
    NodesStep(kids, strs, tp, fp, gs, j, delta);
    var r := FixUnder(kids, strs, tp, fp, gs, j, delta);
    if r.Done? {
      OntoTwice(cs, r.value, FixNodes(BumpAll(kids, r.value, delta), strs, tp, fp, gs, j + 1, delta));
    }
  }

  /** On to the next child, `n` entries further, or to the end. */
  lemma NodesOn(start: seq<Piece>, kids: seq<Piece>, strs: seq<Byte>, tp: seq<nat>, fp: seq<nat>, gs: seq<Piece>, j: nat, cs: seq<Cell>, delta: nat)
    requires NodesTo(start, kids, strs, tp, fp, gs, j, cs, delta)
    ensures j <= |BodyAt(kids, fp)| == |gs|
    ensures var n := FirstNode(BodyAt(kids, fp)[j..]);
            if n.Some? then NodesTo(start, kids, strs, tp, fp, gs, j + n.value, cs, delta) && j + n.value < |gs| && gs[j + n.value].NodeP?
            else Fix(start, strs, tp, fp, gs, delta) == Done(cs)
  {
    hide Fix, Reaches, BodyAt, FirstNode;
    var ks := BodyAt(kids, fp);
    var n := FirstNode(ks[j..]);
    forall m | 0 <= m < |gs| ensures gs[m].NodeP? == ks[m].NodeP? { AlikeAt(gs, ks, m); }
    assert forall m | j <= m < |ks| :: ks[m] == ks[j..][m - j];
    var k := if n.Some? then j + n.value else |gs|;
    NodesSkip(kids, strs, tp, fp, gs, j, k, delta);
    OntoTwice(cs, [], Done([]));
  }

  /** A child stands where it is found. */
  lemma StandingChild(fdt: Fdt, p: seq<nat>, i: nat, offset: int)
    requires FdtPath.Rooted(fdt.ps) && Reaches(fdt.ps[0].kids, p) && i < |BodyAt(fdt.ps[0].kids, p)| && BodyAt(fdt.ps[0].kids, p)[i].NodeP?
    ensures fdt.OffsetOf([0] + p + [i], offset) <==> Standing(fdt.ps, p + [i], offset)
    ensures Reaches(fdt.ps[0].kids, p + [i]) && BodyAt(fdt.ps[0].kids, p + [i]) == BodyAt(fdt.ps[0].kids, p)[i].kids
  {
    hide Flat, Off, IsAt, At, Before, Reaches, BodyAt;
    assert [0] + p + [i] == [0] + (p + [i]);
    Below(fdt.ps[0].kids, p, i);
    AtBody(fdt.ps, 0, p + [i]);
  }

  /** The token that opens it. */
  lemma ChildOpens(fdt: Fdt, p: seq<nat>, i: nat)
    requires FdtPath.Rooted(fdt.ps) && Reaches(fdt.ps[0].kids, p) && i < |BodyAt(fdt.ps[0].kids, p)| && BodyAt(fdt.ps[0].kids, p)[i].NodeP?
    ensures IsNode(fdt.ps, [0] + p + [i])
    ensures var k := Before(fdt.ps, [0] + p + [i]); k < |fdt.Tokens()| && fdt.Tokens()[k] == Begin(BodyAt(fdt.ps[0].kids, p)[i].name)
  {
    hide Flat, IsAt, At, Before, Reaches, BodyAt;
    AtBody(fdt.ps, 0, p);
    ChildPlace(fdt.ps, [0] + p, i);
    NodeOffset(fdt.ps, [0] + p + [i]);
  }

  /** Corrects the references listed under one child of a fix-up node. */
  method FixChild(fdt: Fdt, treeNode: int, child: nat, delta: nat, ghost tp: seq<nat>, ghost fp: seq<nat>, ghost gs: seq<Piece>, ghost j: nat)
    returns (err: int, ghost cs: seq<Cell>)
    requires fdt.Valid() && Standing(fdt.ps, tp, treeNode) && FdtPath.Rooted(fdt.ps) && Reaches(fdt.ps[0].kids, fp)
    requires Alike(gs, BodyAt(fdt.ps[0].kids, fp)) && j < |gs| && gs[j].NodeP? && Standing(fdt.ps, fp + [j], child)
    modifies fdt.buf, fdt`ps
    ensures fdt.Valid() && fdt.Strings() == old(fdt.Strings()) && Fixed(old(fdt.ps), fdt.ps, cs, delta)
    ensures var r := FixUnder(old(fdt.ps[0].kids), old(fdt.Strings()), tp, fp, gs, j, delta);
            if r.Fail? then err == r.err else err == 0 && cs == r.value
    decreases gs, 0
  {
    hide fdt.Valid, IsAt, At, Reaches, BodyAt, Fixed, FirstChild, Fix, Alike, Flat, Off, Before, fdt.IsNode, Standing;
    cs := [];
    ghost var kids := fdt.ps[0].kids;
    FixedNone(fdt.ps, delta);
    AlikeAt(gs, BodyAt(kids, fp), j);
    StandingChild(fdt, fp, j, child);
    ChildOpens(fdt, fp, j);
    var name := fdt.NameAt(child, Before(fdt.ps, [0] + fp + [j]));
    StandingParts(fdt, tp, treeNode);
    fdt.NodeIsNode([0] + tp, treeNode);
    ghost var k;
    var treeChild;
    treeChild, k := FdtPath.FindChild(fdt, treeNode, name, [0] + tp);
    if treeChild < 0 { return BADOVERLAY, cs; }
    StandingChild(fdt, tp, k, treeChild);
    err, cs := UpdateReferences(fdt, treeChild, child, delta, tp + [k], fp + [j], gs[j].kids);
  }

  /** Corrects the references that a fix-up node and the nodes below it list, in the node at `tp` and below. */
  method UpdateReferences(fdt: Fdt, treeNode: int, fixNode: int, delta: nat, ghost tp: seq<nat>, ghost fp: seq<nat>, ghost gs: seq<Piece>)
    returns (err: int, ghost cs: seq<Cell>)
    requires fdt.Valid() && Standing(fdt.ps, tp, treeNode) && Standing(fdt.ps, fp, fixNode) && Alike(gs, BodyAt(fdt.ps[0].kids, fp))
    modifies fdt.buf, fdt`ps
    ensures fdt.Valid() && fdt.Strings() == old(fdt.Strings()) && Fixed(old(fdt.ps), fdt.ps, cs, delta)
    ensures var r := Fix(old(fdt.ps[0].kids), old(fdt.Strings()), tp, fp, gs, delta);
            if r.Fail? then err == r.err else err == 0 && cs == r.value
    decreases gs, 1
  {
    hide fdt.Valid, fdt.OffsetOf, fdt.Strings, IsAt, At, Reaches, BodyAt, BumpAll, FirstNode, FixProps, Fix, FixUnder, NodesTo, Alike, Flat, Off, Before, NodePlace;
    ghost var was, strs, j := fdt.ps, fdt.Strings(), 0;
    ghost var start := was[0].kids;
    NodesStart(start, strs, tp, fp, gs, delta);
    err, cs := FixOwn(fdt, treeNode, fixNode, delta, tp, fp);
    if err != 0 { return; }
    StandingKept(was, fdt.ps, tp, treeNode, cs, delta);
    StandingKept(was, fdt.ps, fp, fixNode, cs, delta);
    hide Fixed, Standing;
    FixedAlike(was, fdt.ps, cs, delta);
    StandingParts(fdt, fp, fixNode);
    NodesOn(start, fdt.ps[0].kids, strs, tp, fp, gs, 0, cs, delta);
    assert fdt.Kids([0] + fp)[0..] == fdt.Kids([0] + fp);
    var child;
    child, j := FirstSubnode(fdt, fixNode, [0] + fp);
    if child >= 0 { StandingChild(fdt, fp, j, child); }
    while child >= 0
      invariant fdt.Valid() && fdt.Strings() == strs && Fixed(was, fdt.ps, cs, delta)
      invariant Standing(fdt.ps, tp, treeNode) && Standing(fdt.ps, fp, fixNode)
      invariant child >= 0 ==> NodesTo(start, fdt.ps[0].kids, strs, tp, fp, gs, j, cs, delta) && j < |gs| && gs[j].NodeP? && Standing(fdt.ps, fp + [j], child)
      invariant child < 0 ==> Fix(start, strs, tp, fp, gs, delta) == Done(cs)
      decreases |gs| - if child >= 0 then j else |gs|, child
    {
      ghost var ps, es := fdt.ps, [];
      NodesAlike(start, ps[0].kids, strs, tp, fp, gs, j, cs, delta);
      NodesNext(start, ps[0].kids, strs, tp, fp, gs, j, cs, delta);
      err, es := FixChild(fdt, treeNode, child, delta, tp, fp, gs, j);
      FixedThen(was, ps, fdt.ps, cs, es, delta);
      cs := cs + es;
      if err != 0 { return; }
      FixedAlike(ps, fdt.ps, es, delta);
      StandingKept(ps, fdt.ps, tp, treeNode, es, delta);
      StandingKept(ps, fdt.ps, fp, fixNode, es, delta);
      StandingKept(ps, fdt.ps, fp + [j], child, es, delta);
      StandingParts(fdt, fp, fixNode);
      NodesAlike(start, fdt.ps[0].kids, strs, tp, fp, gs, j + 1, cs, delta);
      AlikeAt(gs, BodyAt(fdt.ps[0].kids, fp), j);
      StandingChild(fdt, fp, j, child);
      NodesOn(start, fdt.ps[0].kids, strs, tp, fp, gs, j + 1, cs, delta);
      child, j := NextSubnode(fdt, child, [0] + fp, j);
      if child >= 0 { StandingChild(fdt, fp, j, child); }
    }
    err := 0;
  }

  lemma NodesAlike(start: seq<Piece>, kids: seq<Piece>, strs: seq<Byte>, tp: seq<nat>, fp: seq<nat>, gs: seq<Piece>, j: nat, cs: seq<Cell>, delta: nat)
    requires NodesTo(start, kids, strs, tp, fp, gs, j, cs, delta)
    ensures Reaches(kids, tp) && Reaches(kids, fp) && Alike(gs, BodyAt(kids, fp)) && |BodyAt(kids, fp)| == |gs|
  {
    hide Reaches, BodyAt, AlikeOne;
  }

  // ----- The overlay before it is merged

  /** "/__local_fixups__". */
  const LOCAL_FIXUPS: seq<Byte> := [47, 95, 95, 108, 111, 99, 97, 108, 95, 102, 105, 120, 117, 112, 115, 95, 95]

  /** A path leads to the same place when only values change, and to a node. */
  lemma {:induction false} ResolveAlike(ks: seq<Piece>, ls: seq<Piece>, text: seq<Byte>)
    requires Alike(ks, ls)
    ensures FdtPath.Resolve(ls, text) == FdtPath.Resolve(ks, text)
    ensures FdtPath.Resolve(ks, text).Some? ==> Reaches(ks, FdtPath.Resolve(ks, text).value)
    decreases |text|
  {
    hide FirstChild;
    if text != [] {
      if text[0] == FdtPath.SLASH {
        ResolveAlike(ks, ls, text[1..]);
      } else {
        var n := FdtPath.Component(text);
        AlikeFinds(ks, ls, [], text[..n]);
        var i := FirstChild(ks, text[..n]);
        if i.Some? {
          AlikeAt(ks, ls, i.value);
          ResolveAlike(ks[i.value].kids, ls[i.value].kids, text[n..]);
          var r := FdtPath.Resolve(ks[i.value].kids, text[n..]);
          if r.Some? { assert ([i.value] + r.value)[1..] == r.value; }
        }
      }
    }
  }

  /** An overlay with its handles raised and its references corrected, or the error. */
  ghost function Prepared(kids: seq<Piece>, strs: seq<Byte>, delta: nat): Outcome<seq<Piece>> {
    var shifted := Shift(kids, strs, delta);
    if shifted.Fail? then shifted else
    var fp := FdtPath.Resolve(kids, LOCAL_FIXUPS);
    if fp.None? then shifted else
    AlikeSelf(kids);
    ResolveAlike(kids, kids, LOCAL_FIXUPS);
    var cs := Listed(kids, strs, delta, fp.value);
    if cs.Fail? then Fail(cs.err) else Done(BumpAll(shifted.value, cs.value, delta))
  }

  lemma ListedIs(kids: seq<Piece>, strs: seq<Byte>, delta: nat, ls: seq<Piece>, fp: seq<nat>)
    requires Shift(kids, strs, delta) == Done(ls) && FdtPath.Resolve(kids, LOCAL_FIXUPS) == Some(fp)
    ensures Reaches(kids, fp) && Reaches(ls, fp) && Alike(BodyAt(ls, fp), BodyAt(ls, fp))
    ensures Listed(kids, strs, delta, fp) == Fix(ls, strs, [], fp, BodyAt(ls, fp), delta)
    ensures var cs := Listed(kids, strs, delta, fp);
            Prepared(kids, strs, delta) == if cs.Fail? then Fail(cs.err) else Done(BumpAll(ls, cs.value, delta))
  {
    hide Shift, Fix, Alike, FdtPath.Resolve, BumpAll;
    AlikeSelf(kids);
    ResolveAlike(kids, kids, LOCAL_FIXUPS);
    ShiftAlike(kids, strs, delta);
    AlikeReaches(kids, ls, fp);
    AlikeSelf(BodyAt(ls, fp));
  }

  /** Corrects the references of a shifted overlay: those its fix-ups list, if it has any. */
  method LocalReferences(fdt: Fdt, delta: nat) returns (err: int, ghost cs: seq<Cell>)
    requires fdt.Valid() && FdtPath.Rooted(fdt.ps)
    modifies fdt.buf, fdt`ps
    ensures fdt.Valid() && fdt.Strings() == old(fdt.Strings()) && Fixed(old(fdt.ps), fdt.ps, cs, delta)
    ensures FdtPath.Resolve(old(fdt.ps[0].kids), LOCAL_FIXUPS).None? ==> err == 0 && cs == []
    ensures FdtPath.Resolve(old(fdt.ps[0].kids), LOCAL_FIXUPS).Some? ==>
              var kids, fp := old(fdt.ps[0].kids), FdtPath.Resolve(old(fdt.ps[0].kids), LOCAL_FIXUPS).value;
              && Reaches(kids, fp) && Alike(BodyAt(kids, fp), BodyAt(kids, fp))
              && var r := Fix(kids, old(fdt.Strings()), [], fp, BodyAt(kids, fp), delta);
                 if r.Fail? then err == r.err else err == 0 && cs == r.value
  {
    hide fdt.Valid, IsAt, At, Reaches, BodyAt, Fixed, Fix, Alike, Flat, Off, Before, FdtPath.Resolve, fdt.IsNode;
    ghost var kids := fdt.ps[0].kids;
    FixedNone(fdt.ps, delta);
    AlikeSelf(kids);
    ResolveAlike(kids, kids, LOCAL_FIXUPS);
    FdtPath.RootOffset(fdt);
    cs := [];
    var fixups := FdtPath.PathOffset(fdt, LOCAL_FIXUPS);
    if fixups < 0 { return 0, cs; }
    ghost var fp := FdtPath.Resolve(kids, LOCAL_FIXUPS).value;
    AlikeSelf(BodyAt(kids, fp));
    assert [0] + [] == [0];
    assert Standing(fdt.ps, [], 0) && Standing(fdt.ps, fp, fixups);
    err, cs := UpdateReferences(fdt, 0, fixups, delta, [], fp, BodyAt(kids, fp));
  }

  /** Raises an overlay's handles past those of the base tree and corrects its references. */
  method AdjustOverlay(base: Fdt, fdt: Fdt) returns (err: int, delta: nat)
    requires base.Valid() && fdt.Valid()
    modifies fdt.buf, fdt`ps
    ensures IsHighest(old(base.ps), old(base.Strings()), delta) && fdt.Valid() && fdt.Strings() == old(fdt.Strings())
    ensures !FdtPath.Rooted(old(fdt.ps)) ==> err == BADOFFSET && fdt.ps == old(fdt.ps)
    ensures FdtPath.Rooted(old(fdt.ps)) ==>
              var r := Prepared(old(fdt.ps)[0].kids, old(fdt.Strings()), delta);
              if r.Fail? then err == r.err else err == 0 && FdtPath.Rooted(fdt.ps) && fdt.ps[0].kids == r.value
  {
    hide base.Valid, IsAt, At, Reaches, BodyAt, Fixed, Fix, Alike, Flat, Off, Before, FdtPath.Resolve, fdt.IsNode, Shift, BumpAll, IsHighest, Revalued, Listed, Prepared;
    delta := FindMaxPhandle(base);
    FdtPath.RootOffset(fdt);
    var body := fdt.CheckNodeOffset(0);
    if body < 0 { return BADOFFSET, delta; }
    ghost var kids, strs, was := fdt.ps[0].kids, fdt.Strings(), fdt.ps;
    ShiftErrors(kids, strs, delta);
    err := AdjustPhandles(fdt, 0, delta, [0]);
    PreparedSoon(kids, strs, delta);
    if err != 0 { return; }
    FdtPath.RootOffset(fdt);
    StillRooted(was, fdt.ps);
    ghost var ls, cs := fdt.ps[0].kids, [];
    ResolveAlike(kids, ls, LOCAL_FIXUPS);
    if FdtPath.Resolve(kids, LOCAL_FIXUPS).Some? {
      ListedIs(kids, strs, delta, ls, FdtPath.Resolve(kids, LOCAL_FIXUPS).value);
    }
    ghost var mid := fdt.ps;
    err, cs := LocalReferences(fdt, delta);
    FixedAlike(mid, fdt.ps, cs, delta);
    BumpNone(ls, delta);
  }

  lemma BumpNone(kids: seq<Piece>, delta: nat)
    ensures BumpAll(kids, [], delta) == kids
  {
  }

  /** Without fix-ups shifting is all. */
  lemma PreparedSoon(kids: seq<Piece>, strs: seq<Byte>, delta: nat)
    ensures Shift(kids, strs, delta).Fail? || FdtPath.Resolve(kids, LOCAL_FIXUPS).None? ==> Prepared(kids, strs, delta) == Shift(kids, strs, delta)
  {
    hide Shift, FdtPath.Resolve, Listed;
  }

  lemma StillRooted(was: seq<Piece>, ps: seq<Piece>)
    requires FdtPath.Rooted(was) && Revalued(was, ps, [0])
    ensures FdtPath.Rooted(ps) && Alike(was[0].kids, ps[0].kids)
  {
    AlikeAt(was, ps, 0);
  }

  /** No cell the fix-ups list is in a handle of the node at `path`. */
  ghost predicate Untouched(kids: seq<Piece>, strs: seq<Byte>, delta: nat, path: seq<nat>)
    requires Reaches(kids, path) && Shift(kids, strs, delta).Done?
  {
    AlikeSelf(kids);
    ResolveAlike(kids, kids, LOCAL_FIXUPS);
    var fp := FdtPath.Resolve(kids, LOCAL_FIXUPS);
    fp.Some? && Listed(kids, strs, delta, fp.value).Done? ==> HandlesUnlisted(kids, strs, Listed(kids, strs, delta, fp.value).value, path)
  }

  /** In an overlay made ready for a base, a node whose handle no fix-up changes has its old handle raised
      past every handle of the base. */
  lemma PreparedApart(base: seq<Piece>, bstrs: seq<Byte>, highest: nat, kids: seq<Piece>, strs: seq<Byte>, path: seq<nat>)
    requires IsHighest(base, bstrs, highest) && Prepared(kids, strs, highest).Done? && Reaches(kids, path)
    requires Owns(BodyAt(kids, path), strs) && Untouched(kids, strs, highest, path)
    ensures var end := Prepared(kids, strs, highest).value;
            && Reaches(end, path) && HandleAt(end, strs, path) == HandleAt(kids, strs, path) + highest
            && ((forall b | IsNode(base, b) && Handle(At(base, b).kids, bstrs) != 0 :: HandleAt(end, strs, path) != Handle(At(base, b).kids, bstrs)) <==>
                HandleAt(kids, strs, path) != 0 || highest == 0)
  {
    var ls := Shift(kids, strs, highest).value;
    var fp := FdtPath.Resolve(kids, LOCAL_FIXUPS);
    if fp.Some? { ListedIs(kids, strs, highest, ls, fp.value); }
    hide Shift, FdtPath.Resolve, HandleAt, Owns, HandlesUnlisted, Reaches, BodyAt, BumpAll, Listed, Handle, HasCells;
    ApartFromBase(base, bstrs, highest, kids, strs, path);
    ShiftedHandle(kids, strs, highest, path);
    if fp.Some? {
      ListedThere(kids, strs, highest, fp.value);
      HandleAfter(kids, strs, highest, Listed(kids, strs, highest, fp.value).value, path);
    }
  }

  /** And a reference its fix-ups list once names a node exactly when it did before. */
  lemma PreparedReferences(kids: seq<Piece>, strs: seq<Byte>, delta: nat, fp: seq<nat>, k: nat, path: seq<nat>)
    requires Prepared(kids, strs, delta).Done? && FdtPath.Resolve(kids, LOCAL_FIXUPS) == Some(fp) && Reaches(kids, fp)
    requires Shift(kids, strs, delta).Done? && Listed(kids, strs, delta, fp).Done?
    requires var cs := Listed(kids, strs, delta, fp).value;
             && k < |cs| && (forall i | 0 <= i < |cs| && i != k :: !Overlaps(cs[i], cs[k]))
             && Reaches(kids, cs[k].path) && !IsHandle(BodyAt(kids, cs[k].path), strs, cs[k].entry)
             && Reaches(kids, path) && Owns(BodyAt(kids, path), strs) && HandlesUnlisted(kids, strs, cs, path)
    ensures var c, end := Listed(kids, strs, delta, fp).value[k], Prepared(kids, strs, delta).value;
            && HasCell(kids, c) && HasCell(end, c) && Reaches(end, path)
            && (WordAt(end, c) == HandleAt(end, strs, path) <==> WordAt(kids, c) == HandleAt(kids, strs, path))
  {
    ListedIs(kids, strs, delta, Shift(kids, strs, delta).value, fp);
    hide Shift, Listed, Prepared, FdtPath.Resolve, HandlesUnlisted, IsHandle, Owns, BumpAll, HasCell, HandleAt, WordAt, Overlaps, BodyAt, Reaches;
    ReferencesKept(kids, strs, delta, fp, k, path);
  }
}
