/** A flattened device tree in a byte buffer: reading it and editing it in place. */
module FdtBlob {
  import opened Wrappers
  import opened FdtBytes
  import opened FdtTokens
  import opened FdtTree
  import opened FdtWalk
  import opened FdtMeaning
  import opened FdtSplice
  import opened FdtEdit
  import opened FdtRead

  class Fdt {
    const buf: array<Byte>
    const offRsv: nat
    var offStruct: nat
    var sizeStruct: nat
    var offStrings: nat
    var sizeStrings: nat
    const totalsize: nat
    ghost var ps: seq<Piece>

    /** Opens a version 17 blob whose structure block holds these pieces. */
    constructor Open(buf: array<Byte>, offRsv: nat, offStruct: nat, sizeStruct: nat, offStrings: nat, sizeStrings: nat, totalsize: nat,
                     ghost ps: seq<Piece>)
      requires HEADER <= offRsv && offRsv + RESERVE_ENTRY <= offStruct && offStruct + sizeStruct <= offStrings
      requires offStrings + sizeStrings <= totalsize <= buf.Length && totalsize < MAX_TOTAL && buf.Length < ADDRESSES
      requires Parses(Block(buf[..], offStruct, sizeStruct), ps) && Named(ps, Block(buf[..], offStrings, sizeStrings))
      ensures Valid() && this.buf == buf && this.ps == ps && Tree() == Items(ps, Block(buf[..], offStrings, sizeStrings))
    {
      this.buf, this.offRsv, this.offStruct, this.sizeStruct := buf, offRsv, offStruct, sizeStruct;
      this.offStrings, this.sizeStrings, this.totalsize, this.ps := offStrings, sizeStrings, totalsize, ps;
    }

    /** The blocks lie in order inside the buffer. */
    ghost predicate Shape()
      reads this
    {
      && HEADER <= offRsv && offRsv + RESERVE_ENTRY <= offStruct
      && offStruct + sizeStruct <= offStrings && offStrings + sizeStrings <= totalsize <= buf.Length
      && totalsize < MAX_TOTAL && buf.Length < ADDRESSES
    }

    ghost function Struct(): (s: seq<Byte>)
      requires Shape()
      reads this, buf
      ensures |s| == sizeStruct
    {
      Block(buf[..], offStruct, sizeStruct)
    }

    ghost function Strings(): (s: seq<Byte>)
      requires Shape()
      reads this, buf
      ensures |s| == sizeStrings
    {
      Block(buf[..], offStrings, sizeStrings)
    }

    ghost function Tokens(): seq<Token>
      reads this
    {
      Flat(ps) + [End]
    }

    ghost predicate Valid()
      reads this, buf
      ensures Valid() ==> Shape()
    {
      Shape() && Parses(Struct(), ps) && Named(ps, Strings())
    }

    /** The device tree in the buffer. */
    ghost function Tree(): seq<Item>
      requires Valid()
      reads this, buf
    {
      Items(ps, Strings())
    }

    method NextTag(start: int) returns (tag: nat, next: int)
      requires Shape()
      ensures (tag, next) == TagAt(Struct(), start)
    {
      tag, next := ReadTag(buf, offStruct, sizeStruct, start);
    }

    /** Reading the token `k` of a valid tree. */
    method TokenTag(start: int, ghost k: nat) returns (tag: nat, next: int)
      requires Valid() && k < |Tokens()| && start == Off(Tokens(), k)
      ensures tag == Tag(Tokens()[k]) && next == Off(Tokens(), k + 1)
    {
      tag, next := NextTag(start);
      TagAtToken(Struct(), Tokens(), k);
    }

    /** The offset reads as that of a node. */
    ghost predicate IsNode(offset: int)
      requires Shape()
      reads this, buf
      ensures IsNode(offset) ==> offset >= 0
    {
      offset >= 0 && offset % 4 == 0 && TagAt(Struct(), offset).0 == BEGIN_NODE
    }

    /** Where the body of the node at an offset starts. */
    method CheckNodeOffset(offset: int) returns (r: int)
      requires Shape()
      ensures r == (if IsNode(offset) then TagAt(Struct(), offset).1 else BADOFFSET) && (r >= 0 <==> IsNode(offset))
    {
      if offset < 0 || offset % 4 != 0 { return BADOFFSET; }
      var tag, next := NextTag(offset);
      r := if tag == BEGIN_NODE then next else BADOFFSET;
    }

    /** A node-opening token reads as one. */
    lemma TokenIsNode(offset: int, k: nat)
      requires Valid() && k < |Tokens()| && Tokens()[k].Begin? && offset == Off(Tokens(), k)
      ensures IsNode(offset)
    {
      hide Flat, Lexes, Named, Off;
      BoundaryAligned(Tokens(), k);
      TagAtToken(Struct(), Tokens(), k);
    }

    lemma NodeIsNode(path: seq<nat>, offset: int)
      requires Valid() && OffsetOf(path, offset)
      ensures IsNode(offset)
    {
      hide Flat, Lexes, Named, Off, IsAt, At, Before, IsNode;
      NodeOffset(ps, path);
      TokenIsNode(offset, Before(ps, path));
    }

    /** The next node in the block, counting levels; a negative offset starts at the root. */
    method NextNode(offset: int, depth: int, ghost from: nat) returns (r: int, d: int)
      requires Valid() && from < |Tokens()| && (offset < 0 ==> from == 0)
      requires IsNode(offset) ==> from > 0 && Tokens()[from - 1].Begin? && offset == Off(Tokens(), from - 1)
      ensures offset >= 0 && !IsNode(offset) ==> r == BADOFFSET && d == depth
      ensures offset < 0 || IsNode(offset) ==> match Next(Tokens()[from..], depth)
                                               case Node(i, e) => r == Off(Tokens(), from + i) && d == e
                                               case Out(i) => r == Off(Tokens(), from + i) && d < 0
                                               case Last => r == NOTFOUND
    {
      hide Flat, Lexes, Named, Off, Next, TagAt, Struct, Scanning;
      ghost var ts := Tokens();
      var next := 0;
      if offset >= 0 {
        next := CheckNodeOffset(offset);
        if next < 0 { return next, depth; }
        TagAtToken(Struct(), ts, from - 1);
      } else {
        OffZero(ts);
      }
      d := depth;
      ghost var j := from;
      ScanningStart(ts, from, depth);
      var tag := NOP;
      while tag != BEGIN_NODE
        invariant from <= j < |ts| && next == Off(ts, j) && tag != BEGIN_NODE
        invariant Scanning(ts, from, depth, j, d)
        decreases |ts| - j
      {
        r := next;
        Hop(ts, from, depth, j, d);
        tag, next := TokenTag(r, j);
        if tag == BEGIN_NODE {
          d := d + 1;
          return;
        } else if tag == END_NODE {
          d := d - 1;
          if d < 0 { return next, d; }
        } else if tag == END {
          return NOTFOUND, d;
        }
        j := j + 1;
      }
    }

    /** One past the end of a node. */
    method NodeEnd(offset: nat, ghost k: nat) returns (r: int)
      requires Valid() && (IsNode(offset) ==> k + 1 < |Tokens()| && Tokens()[k].Begin? && offset == Off(Tokens(), k))
      ensures !IsNode(offset) ==> r == BADOFFSET
      ensures IsNode(offset) ==> match Close(Tokens()[k + 1..], 0)
                                 case Some(n) => r == Off(Tokens(), k + 1 + n)
                                 case None => r == NOTFOUND
    {
      hide Flat, Lexes, Named, Off, Next, Close, Closing, Struct, IsNode;
      var body := CheckNodeOffset(offset);
      if body < 0 { return body; }
      ghost var ts, j := Tokens(), k;
      var depth := 0;
      r := offset;
      ClosingStart(ts, k);
      while r >= 0 && depth >= 0
        invariant k <= j < |ts| && (r >= 0 && depth >= 0 ==> ts[j].Begin?)
        invariant r >= 0 && depth >= 0 ==> j + 1 < |ts| && Closing(ts, k, j, depth) && r == Off(ts, j)
        invariant r >= 0 && depth < 0 ==> Close(ts[k + 1..], 0) == Some(j - k) && r == Off(ts, j + 1)
        invariant r < 0 ==> Close(ts[k + 1..], 0) == None && r == NOTFOUND
        decreases |ts| - j, r
      {
        ghost var n := Next(ts[j + 1..], depth);
        CloseHop(ts, k, j, depth);
        TokenIsNode(r, j);
        r, depth := NextNode(r, depth, j + 1);
        j := match n case Node(i, _) => j + 1 + i case Out(i) => j + i case Last => j;
      }
    }

    /** The name in the opening token of a node. */
    method NameAt(offset: nat, ghost k: nat) returns (name: seq<Byte>)
      requires Valid() && k < |Tokens()| && Tokens()[k].Begin? && offset == Off(Tokens(), k)
      ensures name == Tokens()[k].name
    {
      hide Flat, Lexes, Named, Off, Holds, Len, NameEnd, Align4;
      ghost var s, t := Struct(), Tokens()[k];
      TokenAt(s, Tokens(), k);
      BoundaryAligned(Tokens(), k);
      HeldName(s, offset, t.name);
      var end := FindZero(buf, offStruct, sizeStruct, offset + 4);
      name := buf[offStruct + offset + 4..offStruct + end - 1];
      SubSlice(buf[..], offStruct, sizeStruct, offset + 4, end - 1);
    }

    /** The name of the node at an offset. */
    method GetName(offset: int, ghost k: nat) returns (err: int, name: seq<Byte>)
      requires Valid() && (IsNode(offset) ==> k < |Tokens()| && Tokens()[k].Begin? && offset == Off(Tokens(), k))
      ensures err == if IsNode(offset) then 0 else BADOFFSET
      ensures err == 0 ==> name == Tokens()[k].name
    {
      hide Flat, Lexes, Named, Off, IsNode;
      var body := CheckNodeOffset(offset);
      if body < 0 { return body, []; }
      name := NameAt(offset, k);
      err := 0;
    }

    /** The first child whose name matches. */
    method SubnodeOffset(parent: nat, name: seq<Byte>, ghost k: nat) returns (r: int)
      requires Valid() && (IsNode(parent) ==> k + 1 < |Tokens()| && Tokens()[k].Begin? && parent == Off(Tokens(), k))
      ensures !IsNode(parent) ==> r == BADOFFSET
      ensures IsNode(parent) ==> match Seek(Tokens()[k + 1..], 0, name)
                                 case Some(n) => r == Off(Tokens(), k + 1 + n)
                                 case None => r == NOTFOUND
    {
      hide Flat, Lexes, Named, Off, Next, Seek, Seeking, Struct, NameEq, IsNode;
      var body := CheckNodeOffset(parent);
      if body < 0 { return body; }
      ghost var ts, j := Tokens(), k;
      var depth := 0;
      r := parent;
      SeekingStart(ts, k, name);
      while r >= 0 && depth >= 0
        invariant k <= j < |ts| && (r >= 0 && depth >= 0 ==> ts[j].Begin?)
        invariant r >= 0 && depth >= 0 ==> j + 1 < |ts| && Seeking(ts, k, j, depth, name) && r == Off(ts, j)
        invariant r < 0 || depth < 0 ==> Seek(ts[k + 1..], 0, name) == None && (r < 0 ==> r == NOTFOUND)
        decreases |ts| - j, r
      {
        SeekHop(ts, k, j, depth, name);
        if depth == 1 {
          var stored := NameAt(r, j);
          if NameEq(stored, name) { return; }
        }
        ghost var n := Next(ts[j + 1..], depth);
        TokenIsNode(r, j);
        r, depth := NextNode(r, depth, j + 1);
        j := match n case Node(i, _) => j + 1 + i case Out(i) => j + i case Last => j;
      }
      r := NOTFOUND;
    }

    /** Whether the string at an offset of the strings block is this name. */
    method StringEq(nameoff: nat, name: seq<Byte>) returns (b: bool)
      requires Shape()
      ensures b <==> Terminated(Strings(), nameoff) && NameOf(Strings(), nameoff) == name
    {
      hide NameOf, NameEnd;
      var end := FindZero(buf, offStrings, sizeStrings, nameoff);
      if end < 0 {
        NotTerminated(Strings(), nameoff);
        return false;
      }
      assert Strings()[nameoff..][end - 1 - nameoff] == 0;
      NameSlice(Strings(), nameoff);
      var stored := buf[offStrings + nameoff..offStrings + end - 1];
      SubSlice(buf[..], offStrings, sizeStrings, nameoff, end - 1);
      b := stored == name;
    }

    ghost predicate NodeAt(path: seq<nat>)
      reads this
    {
      IsAt(ps, path) && At(ps, path).NodeP?
    }

    ghost function Kids(path: seq<nat>): seq<Piece>
      requires NodeAt(path)
      reads this
    {
      At(ps, path).kids
    }

    /** A node's structure offset. */
    ghost predicate OffsetOf(path: seq<nat>, offset: int)
      reads this
      ensures OffsetOf(path, offset) ==> NodeAt(path)
    {
      NodeAt(path) && Before(ps, path) + 1 < |Flat(ps)| && offset == Off(Tokens(), Before(ps, path))
    }

    /** Leading entry `i` of the node, or what follows the last one, is at this offset. */
    ghost predicate EntryAt(path: seq<nat>, i: nat, offset: int)
      reads this
      ensures EntryAt(path, i, offset) ==> NodeAt(path) && i <= Lead(Kids(path)) && offset >= 0
    {
      && NodeAt(path) && i <= Lead(Kids(path)) && KidToken(ps, path, i) < |Tokens()|
      && offset == Off(Tokens(), KidToken(ps, path, i))
    }

    ghost function Entry(path: seq<nat>, i: nat): Token
      requires NodeAt(path) && i <= Lead(Kids(path))
      reads this
    {
      if i < |Kids(path)| then Head(Kids(path)[i]) else EndNode
    }

    /** The first entry of a node. */
    method Enter(offset: int, ghost path: seq<nat>) returns (r: int)
      requires Valid() && (IsNode(offset) ==> OffsetOf(path, offset))
      ensures if IsNode(offset) then EntryAt(path, 0, r) else r == BADOFFSET
    {
      hide Flat, Lexes, Named, Off, IsAt, At, Before, TagAt;
      r := CheckNodeOffset(offset);
      if r < 0 { return; }
      NodeOffset(ps, path);
      TagAtToken(Struct(), Tokens(), Before(ps, path));
      LeadToken(ps, path, 0);
    }

    /** Reading a leading entry. */
    method ReadEntry(offset: int, ghost path: seq<nat>, ghost i: nat) returns (tag: nat, next: int)
      requires Valid() && EntryAt(path, i, offset)
      ensures tag == Tag(Entry(path, i)) && (i < Lead(Kids(path)) ==> EntryAt(path, i + 1, next))
    {
      hide Flat, Lexes, Named, Off, IsAt, At, Before;
      LeadToken(ps, path, i);
      if i < Lead(Kids(path)) { LeadToken(ps, path, i + 1); }
      tag, next := TokenTag(offset, Before(ps, path) + 1 + i);
    }

    /** The next property from entry `i` of a node on, skipping fillers. */
    method NextProp(offset: int, ghost path: seq<nat>, ghost i: nat) returns (r: int, ghost j: nat)
      requires Valid() && EntryAt(path, i, offset)
      ensures i <= j <= Lead(Kids(path)) && forall n | i <= n < j :: Kids(path)[n].NopP?
      ensures if j < Lead(Kids(path)) then Kids(path)[j].PropP? && EntryAt(path, j, r) else r == NOTFOUND
    {
      hide Valid, NodeAt, EntryAt, Kids;
      j := i;
      r := offset;
      var tag, next := ReadEntry(r, path, j);
      while tag == NOP
        invariant i <= j <= Lead(Kids(path)) && forall n | i <= n < j :: Kids(path)[n].NopP?
        invariant EntryAt(path, j, r) && tag == Tag(Entry(path, j))
        invariant j < Lead(Kids(path)) ==> EntryAt(path, j + 1, next)
        decreases |Kids(path)| - j
      {
        r := next;
        j := j + 1;
        tag, next := ReadEntry(r, path, j);
      }
      if tag != PROP { r := NOTFOUND; }
    }

    /** The first property of that name: its offset and length. */
    method GetProperty(offset: int, name: seq<Byte>, ghost path: seq<nat>) returns (r: int, len: nat)
      requires Valid() && (IsNode(offset) ==> OffsetOf(path, offset))
      ensures !IsNode(offset) ==> r == BADOFFSET
      ensures IsNode(offset) ==> match FindProp(Kids(path), Strings(), name)
                                 case Some(i) => EntryAt(path, i, r) && len == |Kids(path)[i].value|
                                 case None => r == NOTFOUND
    {
      hide Valid, NodeAt, EntryAt, Kids, FindProp, Strings, NameOf, IsNode;
      len := 0;
      r := Enter(offset, path);
      if r < 0 { return; }
      ghost var i, kids, strs := 0, Kids(path), Strings();
      r, i := NextProp(r, path, 0);
      while r >= 0
        invariant i <= Lead(kids) && if i < Lead(kids) then kids[i].PropP? && EntryAt(path, i, r) else r == NOTFOUND
        invariant forall j | 0 <= j < i :: !(kids[j].PropP? && NameOf(strs, kids[j].nameoff) == name)
        decreases |kids| - i, r
      {
        var same, length := PropertyIs(r, name, path, i);
        if same {
          FindPropFrom(kids, strs, name, i);
          len := length;
          return;
        }
        var tag, next := ReadEntry(r, path, i);
        r, i := NextProp(next, path, i + 1);
      }
      FindPropFrom(kids, strs, name, i);
    }

    /** The name and length stored in a property entry. */
    method PropertyIs(offset: int, name: seq<Byte>, ghost path: seq<nat>, ghost i: nat) returns (same: bool, len: nat)
      requires Valid() && EntryAt(path, i, offset) && i < Lead(Kids(path)) && Kids(path)[i].PropP?
      ensures same <==> NameOf(Strings(), Kids(path)[i].nameoff) == name
      ensures len == |Kids(path)[i].value|
    {
      hide Flat, Lexes, Off, IsAt, At, Holds, Len, Align4, NameOf, Terminated, Word, Named, Before;
      ghost var p, q := Kids(path)[i], KidToken(ps, path, i);
      LeadToken(ps, path, i);
      TokenAt(Struct(), Tokens(), q);
      BoundaryAligned(Tokens(), q);
      HeldProp(Struct(), offset, p.nameoff, p.value);
      NamedKids(ps, path, Strings());
      assert NamedOne(p, Strings());
      len := ReadWord(buf, offStruct, sizeStruct, offset + 4);
      var nameoff := ReadWord(buf, offStruct, sizeStruct, offset + 8);
      same := StringEq(nameoff, name);
    }

    // ----- Editing

    ghost function DataSize(): nat
      reads this
    {
      offStrings + sizeStrings
    }

    /** Makes room for `newlen` bytes in place of `oldlen`, moving everything after them. */
    method Splice(p: nat, oldlen: nat, newlen: nat) returns (err: int)
      requires Shape()
      modifies buf
      ensures err == if p + oldlen > DataSize() then BADOFFSET else if DataSize() - oldlen + newlen > totalsize then NOSPACE else 0
      ensures err != 0 ==> buf[..] == old(buf[..])
      ensures err == 0 ==> buf[..] == Moved(old(buf[..]), p + newlen, p + oldlen, DataSize() - (p + oldlen))
    {
      var dsize := offStrings + sizeStrings;
      if p + oldlen > dsize { return BADOFFSET; }
      if dsize - oldlen + newlen > totalsize { return NOSPACE; }
      Memmove(buf, p + newlen, p + oldlen, dsize - (p + oldlen));
      err := 0;
    }

    /** The same inside the structure block, which grows or shrinks. */
    method SpliceStruct(off: nat, oldlen: nat, newlen: nat) returns (err: int)
      requires Shape() && off + oldlen <= sizeStruct
      modifies buf, this`sizeStruct, this`offStrings
      ensures Shape() && Strings() == old(Strings())
      ensures err == if old(DataSize()) - oldlen + newlen > totalsize then NOSPACE else 0
      ensures DataSize() == old(DataSize()) + if err == 0 then newlen - oldlen else 0
      ensures err != 0 ==> Struct() == old(Struct())
      ensures err == 0 ==> sizeStruct == old(sizeStruct) - oldlen + newlen && Struct()[..off] == old(Struct())[..off]
                           && Struct()[off + newlen..] == old(Struct())[off + oldlen..]
    {
      hide Moved, Block;
      err := Splice(offStruct + off, oldlen, newlen);
      if err == 0 {
        SplicedBlocks(old(buf[..]), buf[..], offStruct, sizeStruct, offStrings, sizeStrings, off, oldlen, newlen);
        sizeStruct := sizeStruct - oldlen + newlen;
        offStrings := offStrings - oldlen + newlen;
      }
    }

    /** Writes bytes over the structure block. */
    method Write(off: nat, bytes: seq<Byte>)
      requires Shape() && off + |bytes| <= sizeStruct
      modifies buf
      ensures Shape() && Struct() == Over(old(Struct()), off, bytes) && Strings() == old(Strings())
    {
      OverBlock(buf[..], offStruct, sizeStruct, offStrings, sizeStrings, off, bytes);
      hide Block, Over;
      WriteAt(buf, offStruct + off, bytes);
    }

    ghost function Body(path: seq<nat>): seq<Item>
      requires Valid() && NodeAt(path)
      reads this, buf
    {
      Items(Kids(path), Strings())
    }

    /** The body of a node with `m` entries from `i` on replaced. */
    ghost function Around(path: seq<nat>, i: nat, m: nat, xs: seq<Item>): seq<Item>
      requires Valid() && NodeAt(path) && i + m <= |Kids(path)|
      reads this, buf
    {
      Items(Kids(path)[..i], Strings()) + xs + Items(Kids(path)[i + m..], Strings())
    }

    /** The tree after the node at `path` gets this body. */
    ghost function WithBody(path: seq<nat>, body: seq<Item>): seq<Item>
      requires Valid() && NodeAt(path)
      reads this, buf
    {
      ItemsPut(ps, path, [], Strings());
      Edit(Tree(), ItemPath(ps, path, Strings()), [N(At(ps, path).name, body)])
    }

    /** Closes an edit: the bytes of entries [j, j + m) of a node are now those of `rs`. */
    ghost method Commit(path: seq<nat>, j: nat, m: nat, rs: seq<Piece>, bytes: seq<Byte>, s: seq<Byte>, strs: seq<Byte>,
                        more: seq<Byte>, offset: nat)
      requires Shape() && Parses(s, ps) && Named(ps, strs) && OffsetOf(path, offset) && j + m <= |Kids(path)|
      requires Lexes(bytes, Flat(rs)) && Named(rs, strs + more) && Strings() == strs + more
      requires KidToken(ps, path, j) <= |Tokens()| && KidToken(ps, path, j + m) <= |Tokens()|
      requires var a, b := Off(Tokens(), KidToken(ps, path, j)), Off(Tokens(), KidToken(ps, path, j + m));
               a <= b <= |s| && Struct() == s[..a] + bytes + s[b..]
      modifies this`ps
      ensures Valid() && OffsetOf(path, offset) && ps == Rebody(old(ps), path, j, m, rs) && Reshaped(old(ps), ps, path)
      ensures var kids := At(old(ps), path).kids;
              Body(path) == Items(kids[..j], strs) + Items(rs, strs + more) + Items(kids[j + m..], strs)
      ensures HasItem(Items(old(ps), strs), ItemPath(old(ps), path, strs))
      ensures var p := At(old(ps), path);
              Tree() == Edit(Items(old(ps), strs), ItemPath(old(ps), path, strs),
                             [N(p.name, Items(p.kids[..j], strs) + Items(rs, strs + more) + Items(p.kids[j + m..], strs))])
    {
      hide Flat, Lexes, Parses, Named, Items, Rebody, IsAt, At, Edit, KidToken, Off, Before, HasItem, ItemPath, Block;
      Rewritten(s, ps, path, j, m, rs, bytes, strs, more);
      RebodyKeepsOffset(ps, path, j, m, rs);
      RebodyReshapes(ps, path, j, m, rs);
      ps := Rebody(ps, path, j, m, rs);
    }

    /** Deletes the first property of that name. */
    method DelProperty(offset: int, name: seq<Byte>, ghost path: seq<nat>) returns (err: int)
      requires Valid() && (IsNode(offset) ==> OffsetOf(path, offset))
      modifies buf, this`sizeStruct, this`offStrings, this`ps
      ensures Valid() && (!old(IsNode(offset)) ==> err == BADOFFSET && Tree() == old(Tree()))
      ensures old(IsNode(offset)) ==>
                && OffsetOf(path, offset) && err == (if FindItem(old(Body(path)), name).Some? then 0 else NOTFOUND)
                && Tree() == if err == 0 then old(WithBody(path, DelProp(Body(path), name))) else old(Tree())
    {
      hide Flat, Lexes, Parses, Named, Items, IsAt, At, Edit, Off, Before, HasItem, ItemPath, Block, FindProp, FindItem, DelProp, IsNode;
      ghost var s, strs := Struct(), Strings();
      var r, len := GetProperty(offset, name, path);
      if IsNode(offset) { FindMeans(Kids(path), strs, name); }
      if r < 0 { return r; }
      ghost var kids := Kids(path);
      ghost var i := FindProp(kids, strs, name).value;
      EntrySize(path, i, r);
      err := SpliceStruct(r, 12 + Align4(len), 0);
      NothingLexes(strs);
      assert Struct() == s[..r] + [] + s[r + 12 + Align4(len)..];
      FoundMeans(kids, strs, name, i, [], P(name, []));
      Commit(path, i, 1, [], [], s, strs, [], offset);
    }

    /** The offset of a name in the strings block, added at its end when it is not there. */
    method FindAddString(name: seq<Byte>) returns (r: int, added: bool)
      requires Shape() && 0 !in name
      modifies buf, this`sizeStrings
      ensures Shape() && Struct() == old(Struct())
      ensures added <==> !HasString(old(Strings()), name) && old(DataSize()) + |name| + 1 <= totalsize
      ensures Strings() == old(Strings()) + if added then name + [0] else []
      ensures DataSize() == old(DataSize()) + if added then |name| + 1 else 0
      ensures r != NOSPACE ==> 0 <= r < sizeStrings && Terminated(Strings(), r) && NameOf(Strings(), r) == name
      ensures r == NOSPACE <==> !HasString(old(Strings()), name) && old(DataSize()) + |name| + 1 > totalsize
    {
      hide HasString, Moved, NameOf, Terminated, Block, Over;
      added := false;
      r := FindString(buf, offStrings, sizeStrings, name);
      if r >= 0 {
        StringRead(Strings(), name, r);
        assert HasString(Strings(), name) by { StringIn(Strings(), name, r); }
        assert Strings() == Strings() + [];
        return;
      }
      var at := offStrings + sizeStrings;
      var err := Splice(at, 0, |name| + 1);
      if err != 0 {
        assert Strings() == Strings() + [];
        return NOSPACE, false;
      }
      ghost var was := buf[..];
      WriteAt(buf, at, name + [0]);
      StringAdded(old(buf[..]), was, buf[..], offStruct, sizeStruct, offStrings, sizeStrings, name + [0]);
      r := sizeStrings;
      added := true;
      sizeStrings := sizeStrings + |name| + 1;
      StringRead(Strings(), name, r);
    }

    /** Gives entry `i` of a node, a property, another value. */
    method ResizeProperty(r: nat, len: nat, value: seq<Byte>, offset: nat, ghost path: seq<nat>, ghost i: nat) returns (err: int)
      requires Valid() && OffsetOf(path, offset) && EntryAt(path, i, r) && i < Lead(Kids(path)) && Kids(path)[i].PropP?
      requires len == |Kids(path)[i].value| && |value| < MAX_TOTAL
      modifies buf, this`sizeStruct, this`offStrings, this`ps
      ensures Valid() && OffsetOf(path, offset)
      ensures err == if old(DataSize()) - Align4(len) + Align4(|value|) > totalsize then NOSPACE else 0
      ensures DataSize() == old(DataSize()) + if err == 0 then Align4(|value|) - Align4(len) else 0
      ensures Strings() == old(Strings()) && Reshaped(old(ps), ps, path)
      ensures err != 0 ==> Tree() == old(Tree()) && Body(path) == old(Body(path))
      ensures err == 0 ==> Tree() == old(WithBody(path, Around(path, i, 1, [P(NameOf(Strings(), Kids(path)[i].nameoff), value)])))
      ensures err == 0 ==> Body(path) == old(Around(path, i, 1, [P(NameOf(Strings(), Kids(path)[i].nameoff), value)]))
    {
      hide Flat, Lexes, Parses, Named, Items, IsAt, At, Edit, Off, Before, HasItem, ItemPath, Block, NameOf, Align4, Lead, Len, Word, KidToken;
      ghost var s, strs, kids := Struct(), Strings(), Kids(path);
      ghost var p := kids[i];
      PropEntry(path, i, r);
      NamedKids(ps, path, strs);
      NamedEntry(kids, i, value, strs);
      SingleProp(PropP(p.nameoff, value), strs);
      ghost var bytes;
      err, bytes := ResizeBytes(r, len, value, p.nameoff);
      ReshapedNone(ps, path);
      if err == 0 { Commit(path, i, 1, [PropP(p.nameoff, value)], bytes, s, strs, [], offset); }
    }

    /** The bytes of a property with another value. */
    method ResizeBytes(r: nat, len: nat, value: seq<Byte>, ghost nameoff: nat) returns (err: int, ghost bytes: seq<Byte>)
      requires Shape() && r + 12 + Align4(len) <= sizeStruct && |value| < MAX_TOTAL
      requires Word(Struct()[r..r + 4]) == PROP && Word(Struct()[r + 8..r + 12]) == nameoff
      modifies buf, this`sizeStruct, this`offStrings
      ensures Shape() && Strings() == old(Strings())
      ensures err == if old(DataSize()) - Align4(len) + Align4(|value|) > totalsize then NOSPACE else 0
      ensures DataSize() == old(DataSize()) + if err == 0 then Align4(|value|) - Align4(len) else 0
      ensures err != 0 ==> Struct() == old(Struct())
      ensures err == 0 ==> Lexes(bytes, Flat([PropP(nameoff, value)]))
                           && Struct() == old(Struct())[..r] + bytes + old(Struct())[r + 12 + Align4(len)..]
    {
      hide Flat, Lexes, Block, Over, WordBytes, Align4, Word;
      ghost var s := Struct();
      bytes := [];
      err := SpliceStruct(r + 12, Align4(len), Align4(|value|));
      if err != 0 { return; }
      ghost var s1 := Struct();
      KeptBelow(s, s1, r, r + 12);
      Write(r + 4, WordBytes(|value|));
      Write(r + 12, value);
      ghost var s2 := PropResized(s1, r, nameoff, value);
      ghost var b := r + 12 + Align4(|value|);
      GluedBlock(s, s2, r, b, r + 12 + Align4(len));
      bytes := s2[r..b];
    }

    /** Adds a property in front of a node's body, undoing the new string when there is no room. */
    method AddProperty(offset: nat, name: seq<Byte>, value: seq<Byte>, ghost path: seq<nat>) returns (err: int)
      requires Valid() && OffsetOf(path, offset) && 0 !in name && |value| < MAX_TOTAL
      modifies buf, this`sizeStruct, this`offStrings, this`sizeStrings, this`ps
      ensures Valid() && OffsetOf(path, offset)
      ensures err == if old(DataSize()) + (if HasString(old(Strings()), name) then 0 else |name| + 1) + 12 + Align4(|value|) > totalsize
                     then NOSPACE else 0
      ensures err == 0 ==> DataSize() == old(DataSize()) + (if HasString(old(Strings()), name) then 0 else |name| + 1) + 12 + Align4(|value|)
      ensures err != 0 ==> DataSize() == old(DataSize())
      ensures old(Strings()) <= Strings() && Reshaped(old(ps), ps, path)
      ensures err != 0 ==> Tree() == old(Tree()) && Body(path) == old(Body(path)) && Strings() == old(Strings())
      ensures err == 0 ==> Tree() == old(WithBody(path, Around(path, 0, 0, [P(name, value)])))
      ensures err == 0 ==> Body(path) == old(Around(path, 0, 0, [P(name, value)]))
    {
      hide Flat, Lexes, Parses, Named, Items, IsAt, At, Edit, Off, Before, HasItem, ItemPath, Block, Over, WordBytes, NameOf, Align4, Lead, HasString, Terminated;
      ghost var s, strs, kids := Struct(), Strings(), Kids(path);
      NodeIsNode(path, offset);
      var next := Enter(offset, path);
      EntryPlace(path, 0, next);
      ReshapedNone(ps, path);
      var nameoff, added := FindAddString(name);
      if nameoff < 0 {
        assert strs + [] == strs;
        return NOSPACE;
      }
      ghost var more := if added then name + [0] else [];
      ghost var bytes;
      err, bytes := PropertyBytes(next, nameoff, value);
      if err != 0 {
        if added { sizeStrings := sizeStrings - (|name| + 1); }
        assert Strings() == strs by { BlockPrefix(buf[..], offStrings, sizeStrings, |more|, strs, more); }
        return;
      }
      SingleProp(PropP(nameoff, value), strs + more);
      NamedProp(nameoff, value, strs + more);
      Commit(path, 0, 0, [PropP(nameoff, value)], bytes, s, strs, more, offset);
    }

    /** The bytes of a new property. */
    method PropertyBytes(off: nat, nameoff: nat, value: seq<Byte>) returns (err: int, ghost bytes: seq<Byte>)
      requires Shape() && off <= sizeStruct && nameoff < WORDS && |value| < MAX_TOTAL
      modifies buf, this`sizeStruct, this`offStrings
      ensures Shape() && Strings() == old(Strings())
      ensures err == if old(DataSize()) + 12 + Align4(|value|) > totalsize then NOSPACE else 0
      ensures DataSize() == old(DataSize()) + if err == 0 then 12 + Align4(|value|) else 0
      ensures err != 0 ==> Struct() == old(Struct())
      ensures err == 0 ==> Lexes(bytes, Flat([PropP(nameoff, value)])) && Struct() == old(Struct())[..off] + bytes + old(Struct())[off..]
    {
      hide Flat, Lexes, Block, Over, WordBytes, Align4, Word;
      ghost var s := Struct();
      bytes := [];
      err := SpliceStruct(off, 0, 12 + Align4(|value|));
      if err != 0 { return; }
      ghost var s1 := Struct();
      Write(off, WordBytes(PROP));
      Write(off + 8, WordBytes(nameoff));
      Write(off + 4, WordBytes(|value|));
      Write(off + 12, value);
      ghost var s2 := PropWritten(s1, off, nameoff, value);
      GluedBlock(s, s2, off, off + 12 + Align4(|value|), off);
      bytes := s2[off..off + 12 + Align4(|value|)];
    }

    /** Sets a property, in place or new. */
    method SetProperty(offset: int, name: seq<Byte>, value: seq<Byte>, ghost path: seq<nat>) returns (err: int)
      requires Valid() && (IsNode(offset) ==> OffsetOf(path, offset)) && 0 !in name && |value| < MAX_TOTAL
      modifies buf, this`sizeStruct, this`offStrings, this`sizeStrings, this`ps
      ensures Valid() && old(Strings()) <= Strings() && (err != 0 ==> Tree() == old(Tree()) && Strings() == old(Strings()))
      ensures !old(IsNode(offset)) ==> err == BADOFFSET
      ensures old(IsNode(offset)) ==>
                && OffsetOf(path, offset) && Reshaped(old(ps), ps, path)
                && err == (if old(DataSize()) + old(Growth(path, name, value)) > totalsize then NOSPACE else 0)
                && DataSize() == old(DataSize()) + (if err == 0 then old(Growth(path, name, value)) else 0)
                && Body(path) == if err == 0 then SetProp(old(Body(path)), name, value) else old(Body(path))
      ensures err == 0 ==> Tree() == old(WithBody(path, SetProp(Body(path), name, value)))
    {
      hide Valid, OffsetOf, Items, Edit, Block, FindProp, FindItem, SetProp, NameOf, WithBody, Tree, Align4, HasString, IsNode;
      ghost var strs := Strings();
      var r, len := GetProperty(offset, name, path);
      if IsNode(offset) { FindMeans(Kids(path), strs, name); }
      if r >= 0 {
        ghost var kids := Kids(path);
        ghost var i := FindProp(kids, strs, name).value;
        FoundMeans(kids, strs, name, i, value, P(name, value));
        err := ResizeProperty(r, len, value, offset, path, i);
      } else if r == NOTFOUND {
        MissingMeans(Kids(path), strs, name, value, P(name, value));
        err := AddProperty(offset, name, value, path);
      } else {
        err := r;
      }
    }

    /** By how much setting a property grows the blocks. */
    ghost function Growth(path: seq<nat>, name: seq<Byte>, value: seq<Byte>): int
      requires Valid() && NodeAt(path)
      reads this, buf
    {
      match FindProp(Kids(path), Strings(), name)
      case Some(i) => Align4(|value|) - Align4(|Kids(path)[i].value|)
      case None => 12 + Align4(|value|) + if HasString(Strings(), name) then 0 else |name| + 1
    }

    /** Adds an empty child after a node's properties. */
    method AddSubnode(parent: nat, name: seq<Byte>, ghost path: seq<nat>) returns (r: int)
      requires Valid() && (IsNode(parent) ==> OffsetOf(path, parent)) && 0 !in name
      modifies buf, this`sizeStruct, this`offStrings, this`ps
      ensures Valid() && Strings() == old(Strings()) && (r < 0 ==> Tree() == old(Tree()) && ps == old(ps))
      ensures !old(IsNode(parent)) ==> r == BADOFFSET
      ensures old(IsNode(parent)) ==>
                && OffsetOf(path, parent) && Reshaped(old(ps), ps, path) && (r < 0 ==> r == EXISTS || r == NOSPACE)
                && (r == EXISTS <==> HasChild(old(Body(path)), name))
                && (r == NOSPACE <==> !HasChild(old(Body(path)), name) && old(DataSize()) + 8 + Align4(|name| + 1) > totalsize)
                && (r >= 0 ==> Body(path) == AddNode(old(Body(path)), name))
                && DataSize() == old(DataSize()) + (if r >= 0 then 8 + Align4(|name| + 1) else 0)
      ensures r >= 0 ==> Tree() == old(WithBody(path, AddNode(Body(path), name)))
      ensures r >= 0 ==> var n := old(Lead(Kids(path)));
                         OffsetOf(path + [n], r) && n < |Kids(path)| && Kids(path)[n] == NodeP(name, []) && Kids(path)[..n] == old(Kids(path))[..n]
    {
      hide Flat, Lexes, Parses, Named, Items, IsAt, At, Edit, Off, Before, HasItem, ItemPath, Block, FirstChild, HasChild, AddNode, Seek, Lead, Align4, IsNode;
      ghost var s, strs := Struct(), Strings();
      ghost var k := if IsNode(parent) then Before(ps, path) else 0;
      if IsNode(parent) {
        ChildMeans(Kids(path), name, strs);
        NodeOffset(ps, path);
        NodeSeeks(ps, path, name);
        ReshapedNone(ps, path);
      }
      r := SubnodeOffset(parent, name, k);
      if r >= 0 { return EXISTS; }
      if r != NOTFOUND { return; }
      ghost var kids := Kids(path);
      var off := SkipProperties(parent, path);
      ghost var n := Lead(kids);
      EntryPlace(path, n, off);
      var err;
      ghost var bytes;
      err, bytes := NodeBytes(off, name);
      if err != 0 { return NOSPACE; }
      AddMeans(kids, strs, name);
      EmptyMeans(name, strs);
      ChildAdded(ps, path, n, name);
      RebodyReshapes(ps, path, n, 0, [NodeP(name, [])]);
      Commit(path, n, 0, [NodeP(name, [])], bytes, s, strs, [], parent);
      r := off;
    }

    /** The end of a node's leading entries. */
    method SkipProperties(offset: nat, ghost path: seq<nat>) returns (off: int)
      requires Valid() && OffsetOf(path, offset)
      ensures EntryAt(path, Lead(Kids(path)), off)
    {
      hide Valid, NodeAt, EntryAt, Kids, IsNode, OffsetOf;
      NodeIsNode(path, offset);
      off := Enter(offset, path);
      ghost var i := 0;
      var tag, next := ReadEntry(off, path, i);
      while tag == PROP || tag == NOP
        invariant EntryAt(path, i, off) && tag == Tag(Entry(path, i))
        invariant i < Lead(Kids(path)) ==> EntryAt(path, i + 1, next)
        decreases |Kids(path)| - i
      {
        off := next;
        i := i + 1;
        tag, next := ReadEntry(off, path, i);
      }
    }

    /** The bytes of a new empty node. */
    method NodeBytes(off: nat, name: seq<Byte>) returns (err: int, ghost bytes: seq<Byte>)
      requires Shape() && off <= sizeStruct && 0 !in name
      modifies buf, this`sizeStruct, this`offStrings
      ensures Shape() && Strings() == old(Strings())
      ensures err == if old(DataSize()) + 8 + Align4(|name| + 1) > totalsize then NOSPACE else 0
      ensures DataSize() == old(DataSize()) + if err == 0 then 8 + Align4(|name| + 1) else 0
      ensures err != 0 ==> Struct() == old(Struct())
      ensures err == 0 ==> Lexes(bytes, Flat([NodeP(name, [])])) && Struct() == old(Struct())[..off] + bytes + old(Struct())[off..]
    {
      hide Flat, Lexes, Block, Over, WordBytes, Align4, Word;
      ghost var s := Struct();
      bytes := [];
      var n := Align4(|name| + 1);
      err := SpliceStruct(off, 0, 8 + n);
      if err != 0 { return; }
      ghost var s1 := Struct();
      var zeros := seq(n, _ => 0 as Byte);
      Write(off, WordBytes(BEGIN_NODE));
      Write(off + 4, zeros);
      Write(off + 4, name);
      Write(off + 4 + n, WordBytes(END_NODE));
      ghost var s2 := NodeWritten(s1, off, name, zeros);
      GluedBlock(s, s2, off, off + 8 + n, off);
      bytes := s2[off..off + 8 + n];
    }

    /** Deletes a node with everything below it. */
    method DelNode(offset: nat, ghost path: seq<nat>) returns (err: int)
      requires Valid() && (IsNode(offset) ==> OffsetOf(path, offset))
      modifies buf, this`sizeStruct, this`offStrings, this`ps
      ensures Valid() && err == if old(IsNode(offset)) then 0 else BADOFFSET
      ensures Tree() == if err == 0 then old(Without(path)) else old(Tree())
    {
      hide Flat, FlatOne, Lexes, Parses, Named, Items, IsAt, At, Edit, Off, Before, HasItem, ItemPath, Block, Put, Close, IsNode;
      ghost var s, strs := Struct(), Strings();
      if IsNode(offset) { NodeSpan(path, offset); }
      var end := NodeEnd(offset, if IsNode(offset) then Before(ps, path) else 0);
      if end < 0 { return end; }
      NothingLexes(strs);
      Replaced(s, ps, path, [], [], strs);
      ItemsPut(ps, path, [], strs);
      err := SpliceStruct(offset, end - offset, 0);
      assert Struct() == s[..offset] + [] + s[end..];
      ps := Put(ps, path, []);
    }

    /** Overwrites a node with fillers. */
    method NopNode(offset: nat, ghost path: seq<nat>) returns (err: int)
      requires Valid() && (IsNode(offset) ==> OffsetOf(path, offset))
      modifies buf, this`ps
      ensures Valid() && err == if old(IsNode(offset)) then 0 else BADOFFSET
      ensures Tree() == if err == 0 then old(Without(path)) else old(Tree())
    {
      hide Flat, FlatOne, Lexes, Parses, Named, Items, IsAt, At, Edit, Off, Before, HasItem, ItemPath, Block, Put, Close, Word, Over, IsNode;
      ghost var s, strs := Struct(), Strings();
      if IsNode(offset) { NodeSpan(path, offset); }
      var end := NodeEnd(offset, if IsNode(offset) then Before(ps, path) else 0);
      if end < 0 { return end; }
      NopRegion(offset, end);
      ghost var n, bytes := (end - offset) / 4, Struct()[offset..end];
      NopsHeld(bytes, n);
      NopsMeanNothing(n, strs);
      Replaced(s, ps, path, Nops(n), bytes, strs);
      ItemsPut(ps, path, Nops(n), strs);
      GluedBlock(s, Struct(), offset, end, end);
      ps := Put(ps, path, Nops(n));
      err := 0;
    }

    method NopRegion(start: nat, end: nat)
      requires Shape() && start <= end <= sizeStruct && (end - start) % 4 == 0
      modifies buf
      ensures Shape() && Strings() == old(Strings())
      ensures Struct()[..start] == old(Struct())[..start] && Struct()[end..] == old(Struct())[end..]
      ensures forall i | 0 <= i < (end - start) / 4 :: Word(Struct()[start..end][4 * i..4 * i + 4]) == NOP
    {
      hide Block, Over, WordBytes, Word;
      ghost var s := Struct();
      ghost var n := 0;
      var off := start;
      while off < end
        invariant off == start + 4 * n <= end
        invariant Shape() && Strings() == old(Strings()) && Struct()[..start] == s[..start] && Struct()[end..] == s[end..]
        invariant forall i | 0 <= i < n :: Word(Struct()[start..end][4 * i..4 * i + 4]) == NOP
      {
        NopWritten(Struct(), off, start, end, n);
        Write(off, WordBytes(NOP));
        off := off + 4;
        n := n + 1;
      }
    }

    /** The tree without the node at `path`. */
    ghost function Without(path: seq<nat>): seq<Item>
      requires Valid() && NodeAt(path)
      reads this, buf
    {
      ItemsPut(ps, path, [], Strings());
      Edit(Tree(), ItemPath(ps, path, Strings()), [])
    }

    /** The bytes of a node. */
    lemma NodeSpan(path: seq<nat>, offset: nat)
      requires Valid() && OffsetOf(path, offset)
      ensures var k, n := Before(ps, path), |FlatOne(At(ps, path))|;
              && k + n <= |Flat(ps)| && offset == Off(Tokens(), k) <= Off(Tokens(), k + n) <= sizeStruct
              && Tokens()[k].Begin? && Close(Tokens()[k + 1..], 0) == Some(n - 1)
              && (Off(Tokens(), k + n) - offset) % 4 == 0
    {
      hide Flat, Lexes, Off, IsAt, At, Named, Before, Close, FlatOne, Block, Struct;
      NodeCloses(ps, path);
      FlatNode(At(ps, path));
      var rest := NodeTokens(ps, path);
      var k, n := Before(ps, path), |FlatOne(At(ps, path))|;
      TokenSpan(Struct(), Tokens(), k, k + n);
    }

    lemma EntryPlace(path: seq<nat>, i: nat, off: int)
      requires Valid() && EntryAt(path, i, off)
      ensures KidToken(ps, path, i) <= |Tokens()| && off == Off(Tokens(), KidToken(ps, path, i)) <= sizeStruct
    {
      hide Flat, Off, IsAt, At, Named, Before, Lexes;
      LeadToken(ps, path, i);
      OffMonotone(Tokens(), KidToken(ps, path, i), |Tokens()|);
      WholeSize(Struct(), Tokens());
    }

    lemma PropEntry(path: seq<nat>, i: nat, r: nat)
      requires Valid() && EntryAt(path, i, r) && i < Lead(Kids(path)) && Kids(path)[i].PropP?
      ensures KidToken(ps, path, i) <= |Tokens()| && KidToken(ps, path, i + 1) <= |Tokens()|
      ensures r == Off(Tokens(), KidToken(ps, path, i))
      ensures var n := r + 12 + Align4(|Kids(path)[i].value|);
              Off(Tokens(), KidToken(ps, path, i + 1)) == n <= sizeStruct
      ensures Word(Struct()[r..r + 4]) == PROP && Word(Struct()[r + 8..r + 12]) == Kids(path)[i].nameoff
    {
      hide Flat, Off, IsAt, At, Named, Before, Lexes, Align4, Holds;
      EntrySize(path, i, r);
      BoundaryAligned(Tokens(), KidToken(ps, path, i));
      HeldProp(Struct(), r, Kids(path)[i].nameoff, Kids(path)[i].value);
    }

    /** The bytes of a leading entry. */
    lemma EntrySize(path: seq<nat>, i: nat, offset: int)
      requires Valid() && EntryAt(path, i, offset) && i < Lead(Kids(path))
      ensures KidToken(ps, path, i) <= |Tokens()| && KidToken(ps, path, i + 1) <= |Tokens()|
      ensures offset == Off(Tokens(), KidToken(ps, path, i))
      ensures Off(Tokens(), KidToken(ps, path, i + 1)) == offset + Len(Head(Kids(path)[i])) <= sizeStruct
      ensures Holds(Struct()[offset..offset + Len(Head(Kids(path)[i]))], Head(Kids(path)[i]))
    {
      hide Flat, Lexes, Off, IsAt, At, Holds, Len, Named, Before;
      LeadToken(ps, path, i);
      LeadToken(ps, path, i + 1);
      TokenAt(Struct(), Tokens(), KidToken(ps, path, i));
    }
  }

  /** Bytes written right after the strings block extend it and leave the structure block. */
  lemma StringAdded(s: seq<Byte>, t: seq<Byte>, r: seq<Byte>, o: nat, n: nat, o2: nat, n2: nat, bytes: seq<Byte>)
    requires o + n <= o2 && o2 + n2 + |bytes| <= |s| == |t| == |r| && t == Moved(s, o2 + n2 + |bytes|, o2 + n2, 0)
    requires r == Over(t, o2 + n2, bytes)
    ensures Block(r, o, n) == Block(s, o, n) && Block(r, o2, n2 + |bytes|) == Block(s, o2, n2) + bytes
    ensures bytes != [] ==> Block(r, o2, n2 + |bytes|)[n2..n2 + |bytes|] == bytes
  {
  }

  /** Bytes written inside one block, with another after it. */
  lemma OverBlock(s: seq<Byte>, o: nat, n: nat, o2: nat, n2: nat, off: nat, bytes: seq<Byte>)
    requires o + n <= o2 && o2 + n2 <= |s| && off + |bytes| <= n
    ensures Block(Over(s, o + off, bytes), o, n) == Over(Block(s, o, n), off, bytes)
    ensures Block(Over(s, o + off, bytes), o2, n2) == Block(s, o2, n2)
  {
  }

  lemma BlockPrefix(s: seq<Byte>, o: nat, n: nat, m: nat, a: seq<Byte>, b: seq<Byte>)
    requires o + n + m <= |s| && |b| == m && Block(s, o, n + m) == a + b
    ensures Block(s, o, n) == a
  {
    assert Block(s, o, n) == Block(s, o, n + m)[..n] == a;
  }

  lemma KeptBelow(s: seq<Byte>, t: seq<Byte>, a: nat, b: nat)
    requires a + 12 <= b <= |s| && b <= |t| && s[..b] == t[..b]
    ensures t[a..a + 4] == s[a..a + 4] && t[a + 8..a + 12] == s[a + 8..a + 12] && t[..a] == s[..a]
  {
    assert forall i | 0 <= i < b :: s[i] == s[..b][i] == t[i];
  }

  lemma GluedBlock(s: seq<Byte>, t: seq<Byte>, a: nat, b: nat, c: nat)
    requires a <= b <= |t| && a <= |s| && c <= |s| && t[..a] == s[..a] && t[b..] == s[c..]
    ensures t == s[..a] + t[a..b] + s[c..]
  {
  }

  lemma NamedProp(nameoff: nat, value: seq<Byte>, strs: seq<Byte>)
    requires Terminated(strs, nameoff)
    ensures Named([PropP(nameoff, value)], strs)
  {
  }

  lemma NamedEntry(kids: seq<Piece>, i: nat, value: seq<Byte>, strs: seq<Byte>)
    requires Named(kids, strs) && i < |kids| && kids[i].PropP?
    ensures Named([PropP(kids[i].nameoff, value)], strs + [])
  {
    assert NamedOne(kids[i], strs) && strs + [] == strs;
  }

  lemma TokenSpan(s: seq<Byte>, ts: seq<Token>, i: nat, j: nat)
    requires Lexes(s, ts) && i <= j <= |ts|
    ensures Off(ts, i) <= Off(ts, j) <= |s| && (Off(ts, j) - Off(ts, i)) % 4 == 0
  {
    hide Off, Lexes;
    OffMonotone(ts, i, j);
    OffMonotone(ts, j, |ts|);
    WholeSize(s, ts);
    BoundaryAligned(ts, i);
    BoundaryAligned(ts, j);
  }

  lemma WholeSize(s: seq<Byte>, ts: seq<Token>)
    requires Lexes(s, ts)
    ensures Off(ts, |ts|) == |s|
  {
    assert ts[..|ts|] == ts;
  }

  lemma EmptyMeans(name: seq<Byte>, strs: seq<Byte>)
    ensures Items([NodeP(name, [])], strs + []) == [N(name, [])] && Named([NodeP(name, [])], strs + []) && strs + [] == strs
  {
    SingleProp(NodeP(name, []), strs);
    assert strs + [] == strs;
  }

  /** One more filler word. */
  lemma NopWritten(s: seq<Byte>, off: nat, start: nat, end: nat, n: nat)
    requires off == start + 4 * n && off + 4 <= end <= |s|
    requires forall i | 0 <= i < n :: Word(s[start..end][4 * i..4 * i + 4]) == NOP
    ensures var t := Over(s, off, WordBytes(NOP));
            && t[..start] == s[..start] && t[end..] == s[end..]
            && forall i | 0 <= i < n + 1 :: Word(t[start..end][4 * i..4 * i + 4]) == NOP
  {
    hide Word, WordBytes, Over;
    var t := Over(s, off, WordBytes(NOP));
    OverInside(s, off, WordBytes(NOP), start, end);
    forall i | 0 <= i < n + 1 ensures Word(t[start..end][4 * i..4 * i + 4]) == NOP {
      SliceIn(t, start, end, 4 * i, 4 * i + 4);
      SliceIn(s, start, end, 4 * i, 4 * i + 4);
      if i < n { OverApart(s, off, WordBytes(NOP), start + 4 * i, start + 4 * i + 4); }
    }
  }

  lemma NothingLexes(strs: seq<Byte>)
    ensures Lexes([], Flat([])) && Named([], strs) && Items([], strs) == [] && strs + [] == strs
  {
  }

  /** What a splice does to the two blocks after it. */
  lemma SplicedBlocks(s: seq<Byte>, r: seq<Byte>, o: nat, n: nat, o2: nat, n2: nat, off: nat, oldlen: nat, newlen: nat)
    requires off + oldlen <= n && o + n <= o2 && o2 + n2 <= |s| && o2 + n2 - oldlen + newlen <= |s|
    requires r == Moved(s, o + off + newlen, o + off + oldlen, o2 + n2 - (o + off + oldlen))
    ensures var m, p2 := n - oldlen + newlen, o2 - oldlen + newlen;
            && Block(r, o, m)[..off] == Block(s, o, n)[..off] && Block(r, o, m)[off + newlen..] == Block(s, o, n)[off + oldlen..]
            && Block(r, p2, n2) == Block(s, o2, n2)
  {
    hide Moved, Block;
    var m, p2 := n - oldlen + newlen, o2 - oldlen + newlen;
    SameSlices(r, o, m, 0, off, s, o, n, 0);
    SameSlices(r, o, m, off + newlen, m, s, o, n, off + oldlen);
    SameSlices(r, p2, n2, 0, n2, s, o2, n2, 0);
  }

  /** Blocks that agree byte by byte agree in a slice. */
  lemma SameSlices(r: seq<Byte>, o: nat, n: nat, i: nat, j: nat, s: seq<Byte>, o2: nat, n2: nat, i2: nat)
    requires i <= j <= n && o + n <= |r| && i2 + (j - i) <= n2 && o2 + n2 <= |s|
    requires forall k | o + i <= k < o + j :: r[k] == s[k - (o + i) + (o2 + i2)]
    ensures Block(r, o, n)[i..j] == Block(s, o2, n2)[i2..i2 + (j - i)]
    ensures i == 0 == i2 ==> Block(r, o, n)[..j] == Block(s, o2, n2)[..j]
    ensures j == n && i2 + (j - i) == n2 ==> Block(r, o, n)[i..] == Block(s, o2, n2)[i2..]
    ensures i == 0 == i2 && j == n == n2 ==> Block(r, o, n) == Block(s, o2, n2)
  {
    var a, b := Block(r, o, n), Block(s, o2, n2);
    var t, u := a[i..j], b[i2..i2 + (j - i)];
    forall k | 0 <= k < j - i ensures t[k] == u[k] {
      assert t[k] == a[i + k] == r[o + i + k] && u[k] == b[i2 + k] == s[o2 + i2 + k];
    }
    assert t == u;
    assert a[..n] == a && b[..n2] == b;
  }

  lemma NodeOffset(ps: seq<Piece>, path: seq<nat>)
    requires IsAt(ps, path) && At(ps, path).NodeP?
    ensures Before(ps, path) + 1 < |Flat(ps)|
    ensures (Flat(ps) + [End])[Before(ps, path)] == Begin(At(ps, path).name)
  {
    var rest := NodeTokens(ps, path);
  }

  /** Token `j` opens the node reached while looking for the end of node `k`. */
  ghost predicate Closing(ts: seq<Token>, k: nat, j: nat, d: int) {
    k <= j < |ts| && ts[j].Begin? && d >= 0 && Close(ts[k + 1..], 0) == Plus(j - k, Close(ts[j + 1..], d))
  }

  lemma ClosingStart(ts: seq<Token>, k: nat)
    requires k < |ts| && ts[k].Begin?
    ensures Closing(ts, k, k, 0)
  {
    hide Close;
  }

  lemma CloseHop(ts: seq<Token>, k: nat, j: nat, d: int)
    requires Closing(ts, k, j, d) && ts[|ts| - 1] == End
    ensures var n := Next(ts[j + 1..], d);
            && (n.Node? ==> Closing(ts, k, j + 1 + n.index, n.depth) && j + 2 + n.index < |ts| && ts[j + 1 + n.index].Begin?)
            && (n.Out? ==> Close(ts[k + 1..], 0) == Some(j + n.index - k) && j + n.index < |ts|)
            && (n.Last? ==> Close(ts[k + 1..], 0) == None)
  {
    hide Close, Next;
    CloseIs(ts[j + 1..], d);
    var n := Next(ts[j + 1..], d);
    if n.Node? { assert ts[j + 1..][n.index + 1..] == ts[j + 2 + n.index..]; }
  }

  /** Token `j` opens the node reached, no child before it matching. */
  ghost predicate Seeking(ts: seq<Token>, k: nat, j: nat, d: int, name: seq<Byte>) {
    && k <= j < |ts| && ts[j].Begin? && d >= 0 && (j == k ==> d == 0) && (j > k ==> d >= 1)
    && Seek(ts[k + 1..], 0, name) == if d == 1 && NameEq(ts[j].name, name) then Some(j - k - 1) else Plus(j - k, Seek(ts[j + 1..], d, name))
  }

  lemma SeekingStart(ts: seq<Token>, k: nat, name: seq<Byte>)
    requires k < |ts| && ts[k].Begin?
    ensures Seeking(ts, k, k, 0, name)
  {
    hide Seek;
  }

  lemma SeekHop(ts: seq<Token>, k: nat, j: nat, d: int, name: seq<Byte>)
    requires Seeking(ts, k, j, d, name) && ts[|ts| - 1] == End
    ensures d == 1 && NameEq(ts[j].name, name) ==> j > k && Seek(ts[k + 1..], 0, name) == Some(j - k - 1)
    ensures var n := Next(ts[j + 1..], d);
            !(d == 1 && NameEq(ts[j].name, name)) ==>
              && (n.Node? ==> Seeking(ts, k, j + 1 + n.index, n.depth, name) && j + 2 + n.index < |ts| && ts[j + 1 + n.index].Begin?)
              && (n.Out? ==> Seek(ts[k + 1..], 0, name) == None && j + n.index < |ts|)
              && (n.Last? ==> Seek(ts[k + 1..], 0, name) == None)
  {
    hide Seek, Next, NameEq;
    SeekIs(ts[j + 1..], d, name);
    var n := Next(ts[j + 1..], d);
    if n.Node? { assert ts[j + 1..][n.index + 1..] == ts[j + 2 + n.index..]; }
  }

  /** A scan from token `from` that has come to token `j`. */
  ghost predicate Scanning(ts: seq<Token>, from: nat, depth: int, j: nat, d: int) {
    from <= j < |ts| && Next(ts[from..], depth) == Skip(j - from, Next(ts[j..], d))
  }

  lemma ScanningStart(ts: seq<Token>, from: nat, depth: int)
    requires from < |ts|
    ensures Scanning(ts, from, depth, from, depth)
  {
    hide Next;
  }

  /** One token further; the last token ends the block. */
  lemma Hop(ts: seq<Token>, from: nat, depth: int, j: nat, d: int)
    requires Scanning(ts, from, depth, j, d) && ts[|ts| - 1] == End
    ensures j < |ts|
    ensures ts[j].Begin? ==> Next(ts[from..], depth) == Node(j - from, d + 1)
    ensures ts[j].EndNode? ==> if d <= 0 then Next(ts[from..], depth) == Out(j + 1 - from) else Scanning(ts, from, depth, j + 1, d - 1)
    ensures ts[j].End? ==> Next(ts[from..], depth) == Last
    ensures ts[j].Prop? || ts[j].Nop? ==> Scanning(ts, from, depth, j + 1, d)
  {
    assert ts[j..][1..] == ts[j + 1..];
  }
}
