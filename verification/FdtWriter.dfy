/** The sequential writer: reservations, then nodes and properties in order, with the strings block
    growing down from the end of the buffer and moved into place at the end. */
module FdtWriter {
  import opened FdtBytes
  import opened FdtTokens
  import opened FdtTree
  import opened FdtSplice
  import opened FdtRead
  import opened FdtCalls
  import opened FdtWalk

  const BADSTATE: int := -7
  const FIRST: nat := 48

  class Writer {
    const buf: array<Byte>
    const dedup: bool
    var finished: bool
    var totalsize: nat
    var offStruct: nat
    var sizeStruct: nat
    var offStrings: nat
    var sizeStrings: nat
    ghost var rsv: seq<Reserve>
    ghost var calls: seq<Call>
    ghost var toks: seq<Token>

    ghost predicate Shape()
      reads this
    {
      && FIRST <= totalsize <= buf.Length && totalsize < MAX_TOTAL && buf.Length < ADDRESSES
      && FIRST <= offStruct && offStruct + sizeStruct + sizeStrings <= totalsize
    }

    ghost function Struct(): (s: seq<Byte>)
      requires Shape()
      reads this, buf
      ensures |s| == sizeStruct
    {
      Block(buf[..], offStruct, sizeStruct)
    }

    /** The strings, which end with the buffer. */
    ghost function Strings(): (s: seq<Byte>)
      requires Shape()
      reads this, buf
      ensures |s| == sizeStrings
    {
      Block(buf[..], totalsize - sizeStrings, sizeStrings)
    }

    ghost predicate Reserving()
      reads this
    {
      !finished && offStrings == 0
    }

    ghost predicate Building()
      reads this
    {
      !finished && offStrings == totalsize
    }

    ghost predicate Reserved(rs: seq<Reserve>, s: seq<Byte>)
      reads this`offStruct
    {
      ReservedIn(rs, s, offStruct)
    }

    /** The calls so far are recorded in the bytes `s`, in a structure block of `size` bytes. */
    ghost predicate Built(s: seq<Byte>, size: nat)
      reads this`offStruct, this`sizeStrings, this`totalsize, this`rsv, this`calls, this`toks
    {
      Recorded(s, offStruct, size, totalsize, sizeStrings, rsv, calls, toks)
    }

    ghost predicate Valid()
      reads this, buf
      ensures Valid() ==> Shape()
      ensures Valid() && Building() ==> Built(buf[..], sizeStruct)
      ensures Building() && Shape() && Built(buf[..], sizeStruct) ==> Valid()
    {
      && Shape() && (finished || Reserving() || Building())
      && (Reserving() ==> Reserved(rsv, buf[..]) && sizeStruct == 0 && sizeStrings == 0 && calls == [] && toks == [])
      && (Building() ==> Built(buf[..], sizeStruct))
      && (finished ==> Complete())
    }

    /** The strings are in place and the block is closed. */
    ghost predicate Complete()
      requires Shape()
      reads this, buf
    {
      && offStrings == offStruct + sizeStruct && totalsize == offStrings + sizeStrings
      && NamesOK(calls) && Reserved(rsv + [Reserve(0, 0)], buf[..])
      && Lexes(Struct(), toks + [End]) && AllStored(calls, toks, Strings())
    }

    constructor (buf: array<Byte>, dedup: bool)
      requires FIRST <= buf.Length < MAX_TOTAL
      ensures Valid() && Reserving() && rsv == [] && calls == [] && totalsize == buf.Length && this.buf == buf && this.dedup == dedup
    {
      this.buf, this.dedup, finished := buf, dedup, false;
      totalsize, offStruct, sizeStruct, offStrings, sizeStrings := buf.Length, FIRST, 0, 0, 0;
      rsv, calls, toks := [], [], [];
    }

    /** Adds a reservation. */
    method AddReserve(address: nat, size: nat) returns (err: int)
      requires Valid() && address < LONGS && size < LONGS
      modifies this`offStruct, this`rsv, buf
      ensures err == if !old(Reserving()) then BADSTATE else if old(offStruct) + 16 > totalsize then NOSPACE else 0
      ensures err != 0 ==> buf[..] == old(buf[..]) && offStruct == old(offStruct)
      ensures Valid() && rsv == if err == 0 then old(rsv) + [Reserve(address, size)] else old(rsv)
    {
      if finished || offStrings != 0 { return BADSTATE; }
      if offStruct + 16 > totalsize { return NOSPACE; }
      hide Over, Block, LongBytes, ReservedIn;
      ReserveWritten(rsv, buf[..], offStruct, Reserve(address, size));
      WriteAt(buf, offStruct, LongBytes(address) + LongBytes(size));
      offStruct := offStruct + 16;
      rsv := rsv + [Reserve(address, size)];
      err := 0;
    }

    /** Closes the reservations. */
    method FinishReserves() returns (err: int)
      requires Valid()
      modifies this`offStruct, this`offStrings, this`rsv, buf
      ensures err == if !old(Reserving()) then BADSTATE else if old(offStruct) + 16 > totalsize then NOSPACE else 0
      ensures Valid() && rsv == old(rsv) && (err == 0 ==> Building())
    {
      ghost var rs := rsv;
      err := AddReserve(0, 0);
      if err == 0 {
        rsv := rs;
        offStrings := totalsize;
        NothingWritten(Struct(), Strings());
      }
    }

    /** Takes the next bytes of the structure block if the strings leave room. */
    method Grab(len: nat) returns (ok: bool)
      requires Shape()
      modifies this`sizeStruct
      ensures Shape() && ok == (offStruct + old(sizeStruct) + len + sizeStrings <= totalsize)
      ensures sizeStruct == old(sizeStruct) + if ok then len else 0
    {
      ok := sizeStruct + len <= totalsize - offStruct - sizeStrings;
      if ok { sizeStruct := sizeStruct + len; }
    }

    /** A token was written in the bytes just taken. */
    ghost method Append(c: Call, t: Token, was: seq<Byte>)
      requires Shape() && Building() && Len(t) <= sizeStruct && Built(was, sizeStruct - Len(t)) && (c.CloseNode? || 0 !in c.name)
      requires SameAround(was, buf[..], offStruct + sizeStruct - Len(t), Len(t))
      requires Holds(Block(buf[..], offStruct + sizeStruct - Len(t), Len(t)), t) && Pending(c, t, Strings())
      modifies this`calls, this`toks
      ensures Valid() && calls == old(calls) + [c]
    {
      hide Lexes, Holds, Block, Pending, Len, ReserveBytes, SameAround;
      var n := sizeStruct - Len(t);
      var at := offStruct + n;
      WritesInside(was, buf[..], FIRST, 16 * (|rsv| + 1), at, Len(t));
      WritesInside(was, buf[..], offStruct, n, at, Len(t));
      WritesInside(was, buf[..], totalsize - sizeStrings, sizeStrings, at, Len(t));
      BlockSplit(buf[..], offStruct, n, Len(t));
      LexesOne(Block(buf[..], at, Len(t)), t);
      LexesConcat(Block(was, offStruct, n), Block(buf[..], at, Len(t)), toks, [t]);
      calls, toks := calls + [c], toks + [t];
    }

    method BeginNode(name: seq<Byte>) returns (err: int)
      requires Valid() && 0 !in name
      modifies this`sizeStruct, this`calls, this`toks, buf
      ensures err == if !old(Building()) then BADSTATE
                     else if offStruct + old(sizeStruct) + 4 + Align4(|name| + 1) + sizeStrings > totalsize then NOSPACE else 0
      ensures Valid() && calls == if err == 0 then old(calls) + [OpenNode(name)] else old(calls)
    {
      hide Valid, Built, Over, Block, WordBytes, Word, Align4, Holds, SameAround;
      if finished || offStrings != totalsize { return BADSTATE; }
      ghost var was := buf[..];
      var size := sizeStruct;
      var ok := Grab(4 + Align4(|name| + 1));
      if !ok { return NOSPACE; }
      var at := offStruct + size;
      WriteAt(buf, at, WordBytes(BEGIN_NODE));
      WriteAt(buf, at + 4, name + [0]);
      NameWritten(was, at, name);
      Append(OpenNode(name), Begin(name), was);
      err := 0;
    }

    method EndNode() returns (err: int)
      requires Valid()
      modifies this`sizeStruct, this`calls, this`toks, buf
      ensures err == if !old(Building()) then BADSTATE
                     else if offStruct + old(sizeStruct) + 4 + sizeStrings > totalsize then NOSPACE else 0
      ensures Valid() && calls == if err == 0 then old(calls) + [CloseNode] else old(calls)
    {
      hide Valid, Built, Over, Block, WordBytes, Word, Holds, SameAround;
      if finished || offStrings != totalsize { return BADSTATE; }
      ghost var was := buf[..];
      var size := sizeStruct;
      var ok := Grab(4);
      if !ok { return NOSPACE; }
      var at := offStruct + size;
      WriteAt(buf, at, WordBytes(END_NODE));
      TagWritten(was, at, FdtTokens.EndNode);
      Append(CloseNode, FdtTokens.EndNode, was);
      err := 0;
    }

    /** Puts a string in front of the others; zero means no room. */
    method AddString(name: seq<Byte>) returns (off: int)
      requires Shape() && Built(buf[..], sizeStruct)
      modifies buf, this`sizeStrings
      ensures Shape() && Built(buf[..], sizeStruct)
      ensures off == 0 <==> offStruct + sizeStruct + old(sizeStrings) + |name| + 1 > totalsize
      ensures off == 0 ==> buf[..] == old(buf[..]) && sizeStrings == old(sizeStrings)
      ensures off != 0 ==> sizeStrings == -off == old(sizeStrings) + |name| + 1 && StringAt(Strings(), name, 0)
                           && SameAround(old(buf[..]), buf[..], totalsize - sizeStrings, |name| + 1)
    {
      hide Recorded, Block, Over, SameAround;
      var len := |name| + 1;
      off := 0 - sizeStrings - len;
      if totalsize + off < offStruct + sizeStruct { return 0; }
      RecordGrown(buf[..], offStruct, sizeStruct, totalsize, sizeStrings, rsv, calls, toks, name);
      WriteAt(buf, totalsize + off, name + [0]);
      sizeStrings := sizeStrings + len;
    }

    /** Adds a property; its name is shared with an equal one when names are de-duplicated. */
    method AddProperty(name: seq<Byte>, value: seq<Byte>) returns (err: int)
      requires Valid() && 0 !in name && |value| < MAX_TOTAL
      modifies this`sizeStruct, this`sizeStrings, this`calls, this`toks, buf
      ensures err == if !old(Building()) then BADSTATE
                     else if old(offStruct + sizeStruct + sizeStrings) + 12 + Align4(|value|)
                             + (if dedup && HasString(old(Strings()), name) then 0 else |name| + 1) > totalsize
                     then NOSPACE else 0
      ensures Valid() && calls == if err == 0 then old(calls) + [Property(name, value)] else old(calls)
      ensures err != 0 ==> sizeStrings == old(sizeStrings)
    {
      hide Valid, Recorded, Block, Align4, SameAround, HasString, StringAt;
      if finished || offStrings != totalsize { return BADSTATE; }
      ghost var start := buf[..];
      var off, added := PlaceName(name);
      if off == 0 { return NOSPACE; }
      var ok := Grab(12 + Align4(|value|));
      if !ok {
        if added {
          sizeStrings := sizeStrings - (|name| + 1);
          RecordKept(start, buf[..], offStruct, sizeStruct, totalsize, sizeStrings, rsv, calls, toks, totalsize - sizeStrings - (|name| + 1), |name| + 1);
        }
        return NOSPACE;
      }
      WriteProperty(name, value, off);
      err := 0;
    }

    /** The place of a name, counted back from the end of the buffer. */
    method PlaceName(name: seq<Byte>) returns (off: int, added: bool)
      requires Shape() && Built(buf[..], sizeStruct)
      modifies buf, this`sizeStrings
      ensures Shape() && Built(buf[..], sizeStruct)
      ensures added <==> off != 0 && !(dedup && HasString(old(Strings()), name))
      ensures off == 0 <==> !(dedup && HasString(old(Strings()), name)) && offStruct + sizeStruct + old(sizeStrings) + |name| + 1 > totalsize
      ensures sizeStrings == old(sizeStrings) + if added then |name| + 1 else 0
      ensures off != 0 ==> 0 <= sizeStrings + off < sizeStrings && StringAt(Strings(), name, sizeStrings + off)
      ensures added ==> SameAround(old(buf[..]), buf[..], totalsize - sizeStrings, |name| + 1)
      ensures !added ==> buf[..] == old(buf[..])
    {
      hide Built, Block, SameAround, HasString;
      added := false;
      if dedup {
        var p := FindString(buf, totalsize - sizeStrings, sizeStrings, name);
        if p >= 0 {
          StringIn(Strings(), name, p);
          return p - sizeStrings, false;
        }
      }
      off := AddString(name);
      added := off != 0;
    }

    /** Writes a property token in the bytes just taken. */
    method WriteProperty(name: seq<Byte>, value: seq<Byte>, off: int)
      requires Shape() && Building() && |value| < MAX_TOTAL && 0 !in name && 12 + Align4(|value|) <= sizeStruct
      requires Built(buf[..], sizeStruct - 12 - Align4(|value|))
      requires 0 <= sizeStrings + off < sizeStrings && StringAt(Strings(), name, sizeStrings + off)
      modifies this`calls, this`toks, buf
      ensures Valid() && calls == old(calls) + [Property(name, value)]
    {
      hide Valid, Built, Block, Align4, SameAround, Over, WordBytes, Word, Lexes, Holds;
      ghost var was := buf[..];
      var at, nameoff := offStruct + sizeStruct - 12 - Align4(|value|), WORDS + off;
      WriteAt(buf, at, WordBytes(PROP));
      WriteAt(buf, at + 8, WordBytes(nameoff));
      WriteAt(buf, at + 4, WordBytes(|value|));
      WriteAt(buf, at + 12, value);
      ghost var now := PropWritten(was, at, nameoff, value);
      PropAppended(was, now, at, nameoff, value);
      WritesInside(was, now, totalsize - sizeStrings, sizeStrings, at, 12 + Align4(|value|));
      Append(Property(name, value), Prop(nameoff, value), was);
    }

    /** Closes the block, moves the strings into place and settles every name offset. */
    method Finish() returns (err: int)
      requires Valid()
      modifies this, buf
      ensures err == if !old(Building()) then BADSTATE
                     else if old(offStruct + sizeStruct + sizeStrings) + 4 > old(totalsize) then NOSPACE else 0
      ensures Valid() && calls == old(calls) && rsv == old(rsv) && (finished <==> old(finished) || err == 0)
    {
      hide Valid, Built, Block, SameAround, Lexes, AllPending, AllStored, ReserveBytes, SettledTo, NamesOK;
      if finished || offStrings != totalsize { return BADSTATE; }
      var ok := Grab(4);
      if !ok { return NOSPACE; }
      CloseBlock();
      ghost var moved := buf[..];
      SettleNames();
      WritesInside(moved, buf[..], FIRST, 16 * (|rsv| + 1), offStruct, sizeStruct);
      WritesInside(moved, buf[..], offStrings, sizeStrings, offStruct, sizeStruct);
      totalsize := offStrings + sizeStrings;
      finished := true;
      AllSettled(calls, toks, Strings());
      toks := SettledTo(toks, |toks|, sizeStrings);
      err := 0;
      CompleteNow();
    }

    /** Writes the end token in the bytes just taken and moves the strings down behind it. */
    method CloseBlock()
      requires Shape() && sizeStruct >= 4 && Built(buf[..], sizeStruct - 4)
      modifies buf, this`offStrings
      ensures Shape() && offStrings == offStruct + sizeStruct && NamesOK(calls) && Reserved(rsv + [Reserve(0, 0)], buf[..])
      ensures Lexes(Struct(), toks + [End]) && AllPending(calls, toks, Block(buf[..], offStrings, sizeStrings))
    {
      hide Recorded, Block, SameAround, Over, WordBytes, Word, Lexes, Holds, Moved, AllPending, NamesOK, ReserveBytes;
      ghost var was, size := buf[..], sizeStruct - 4;
      WriteAt(buf, offStruct + sizeStruct - 4, WordBytes(END));
      TagWritten(was, offStruct + size, End);
      RecordKept(was, buf[..], offStruct, size, totalsize, sizeStrings, rsv, calls, toks, offStruct + size, 4);
      ghost var closed := buf[..];
      BuiltParts(closed, size, offStruct + size);
      var from, to := totalsize - sizeStrings, offStruct + sizeStruct;
      StringsMoved(closed, FIRST, 16 * (|rsv| + 1), offStruct, sizeStruct, from, to, sizeStrings);
      Memmove(buf, to, from, sizeStrings);
      offStrings := to;
    }

    /** What the recorded calls look like once the end token is written. */
    lemma BuiltParts(s: seq<Byte>, size: nat, at: nat)
      requires Built(s, size) && at == offStruct + size && at + 4 <= |s| && Holds(Block(s, at, 4), End)
      ensures Lexes(Block(s, offStruct, size + 4), toks + [End]) && NamesOK(calls) && Reserved(rsv + [Reserve(0, 0)], s)
      ensures AllPending(calls, toks, Block(s, totalsize - sizeStrings, sizeStrings))
    {
      hide Lexes, Block, Holds, AllPending, ReserveBytes;
      BlockSplit(s, offStruct, size, 4);
      LexesOne(Block(s, at, 4), End);
      LexesConcat(Block(s, offStruct, size), Block(s, at, 4), toks, [End]);
    }

    lemma CompleteNow()
      requires Shape() && finished && Complete()
      ensures Valid()
    {
    }

    /** Walks the tokens, adding the size of the strings block to every property's name offset. */
    method SettleNames()
      requires Shape() && Lexes(Struct(), toks + [End])
      requires offStrings + sizeStrings <= buf.Length && AllPending(calls, toks, Block(buf[..], offStrings, sizeStrings))
      modifies buf
      ensures Lexes(Struct(), SettledTo(toks, |toks|, sizeStrings) + [End])
      ensures SameAround(old(buf[..]), buf[..], offStruct, sizeStruct)
    {
      hide Block, Over, WordBytes, Word, Lexes, SameAround, Off, SettledTo, TagAt, AllPending;
      ghost var k := 0;
      NotEnds(calls, toks, Block(buf[..], offStrings, sizeStrings));
      var n := sizeStrings;
      SettledNone(toks, n);
      OffZero(toks + [End]);
      SameRefl(buf[..], offStruct, sizeStruct);
      TagAtToken(Struct(), SettledTo(toks, 0, n) + [End], 0);
      if 0 < |toks| { SettledAt(toks, 0, n); }
      var offset := 0;
      var tag, next := ReadTag(buf, offStruct, sizeStruct, offset);
      while tag != END
        invariant k <= |toks| && n == sizeStrings && (k < |toks| ==> tag != END)
        invariant SameAround(old(buf[..]), buf[..], offStruct, sizeStruct)
        invariant Lexes(Struct(), SettledTo(toks, k, n) + [End])
        invariant offset == Off(SettledTo(toks, k, n) + [End], k)
        invariant tag == Tag((SettledTo(toks, k, n) + [End])[k]) && next == Off(SettledTo(toks, k, n) + [End], k + 1)
        decreases |toks| - k
      {
        SettledAt(toks, k, n);
        ghost var was := buf[..];
        SettleOne(offset, tag, k);
        SameTrans(old(buf[..]), was, buf[..], offStruct, sizeStruct);
        offset := next;
        k := k + 1;
        if k < |toks| { SettledAt(toks, k, n); }
        TagAtToken(Struct(), SettledTo(toks, k, n) + [End], k);
        tag, next := ReadTag(buf, offStruct, sizeStruct, offset);
      }
    }

    /** One token of that walk. */
    method SettleOne(offset: nat, tag: nat, ghost k: nat)
      requires Shape() && k < |toks| && Lexes(Struct(), SettledTo(toks, k, sizeStrings) + [End])
      requires offset == Off(SettledTo(toks, k, sizeStrings) + [End], k) && tag == Tag(toks[k])
      modifies buf
      ensures Lexes(Struct(), SettledTo(toks, k + 1, sizeStrings) + [End])
      ensures SameAround(old(buf[..]), buf[..], offStruct, sizeStruct)
      ensures Off(SettledTo(toks, k + 1, sizeStrings) + [End], k + 1) == Off(SettledTo(toks, k, sizeStrings) + [End], k + 1)
    {
      hide Block, Over, WordBytes, Word, Lexes, SameAround, Off, SettledTo;
      ghost var cur := SettledTo(toks, k, sizeStrings) + [End];
      SettledNext(toks, k, sizeStrings);
      SameRefl(buf[..], offStruct, sizeStruct);
      if tag == PROP {
        PropAt(Struct(), cur, k);
        var nameoff := ReadWord(buf, offStruct, sizeStruct, offset + 8);
        nameoff := (nameoff + sizeStrings) % WORDS;
        OverBlockOnly(buf[..], offStruct, sizeStruct, offset + 8, WordBytes(nameoff));
        LexesRename(Struct(), cur, k, nameoff);
        WriteAt(buf, offStruct + offset + 8, WordBytes(nameoff));
      }
    }

    /** Reading back a finished blob gives the tree that was written. */
    lemma RoundTrip(xs: seq<Item>) returns (ps: seq<Piece>)
      requires Valid() && finished && calls == CallsOf(xs)
      ensures Parses(Struct(), ps) && Named(ps, Strings()) && Items(ps, Strings()) == xs
    {
      ps := RecordsTree(xs, toks, Strings());
    }

    lemma ReserveStored(i: nat)
      requires Valid() && finished && i <= |rsv|
      ensures FIRST + 16 * i + 16 <= totalsize && ReserveAt(buf[..], FIRST + 16 * i) == (rsv + [Reserve(0, 0)])[i]
    {
      hide ReserveBytes, Lexes, AllStored, NamesOK, ReserveAt;
      ReservedAt(rsv + [Reserve(0, 0)], buf[..], offStruct, i);
    }

    /** Reads back the reservations of a finished blob: those written before the first of size zero. */
    method ReadReserves() returns (rs: seq<Reserve>)
      requires Valid() && finished
      ensures rs <= rsv && (|rs| < |rsv| ==> rsv[|rs|].size == 0) && forall i | 0 <= i < |rs| :: rs[i].size != 0
      ensures rs == rsv <==> forall i | 0 <= i < |rsv| :: rsv[i].size != 0
    {
      hide Valid, ReserveAt;
      forall i: nat | i <= |rsv| ensures FIRST + 16 * i + 16 <= totalsize && ReserveAt(buf[..], FIRST + 16 * i) == (rsv + [Reserve(0, 0)])[i] {
        ReserveStored(i);
      }
      var n := NumReserves(buf, FIRST, totalsize);
      assert (rsv + [Reserve(0, 0)])[|rsv|].size == 0;
      rs := [];
      while |rs| < n
        invariant |rs| <= n <= |rsv| && rs <= rsv && forall i | 0 <= i < |rs| :: rs[i].size != 0
      {
        assert (rsv + [Reserve(0, 0)])[|rs|] == rsv[|rs|];
        var ok, r := GetReserve(buf, FIRST, totalsize, |rs|);
        rs := rs + [r];
      }
    }
  }

  lemma ReservedAt(rs: seq<Reserve>, s: seq<Byte>, o: nat, i: nat)
    requires ReservedIn(rs, s, o) && i < |rs|
    ensures FIRST + 16 * i + 16 <= o <= |s| && ReserveAt(s, FIRST + 16 * i) == rs[i]
  {
    hide ReserveBytes, Long;
    ReserveInPlace(rs, i);
    var t, at := Block(s, FIRST, 16 * |rs|), 16 * i;
    SubSlice(s, FIRST, |t|, at, at + 8);
    SubSlice(s, FIRST, |t|, at + 8, at + 16);
  }

  /** One reservation of a blob. */
  method GetReserve(buf: array<Byte>, off: nat, total: nat, n: nat) returns (ok: bool, r: Reserve)
    requires total <= buf.Length
    ensures ok <==> off + 16 * n + 16 <= total
    ensures ok ==> r == ReserveAt(buf[..], off + 16 * n)
  {
    var at := off + 16 * n;
    if at + 16 > total { return false, Reserve(0, 0); }
    r := ReserveAt(buf[..], at);
    ok := true;
  }

  /** How many reservations come before the first of size zero. */
  method NumReserves(buf: array<Byte>, off: nat, total: nat) returns (c: int)
    requires total <= buf.Length
    ensures c >= 0 ==> off + 16 * c + 16 <= total && ReserveAt(buf[..], off + 16 * c).size == 0
                       && forall i: nat | i < c :: ReserveAt(buf[..], off + 16 * i).size != 0
    ensures c < 0 ==> c == TRUNCATED && forall i: nat | off + 16 * i + 16 <= total :: ReserveAt(buf[..], off + 16 * i).size != 0
  {
    hide ReserveAt;
    c := 0;
    while true
      invariant c >= 0 && forall i: nat | i < c :: off + 16 * i + 16 <= total && ReserveAt(buf[..], off + 16 * i).size != 0
      decreases total - off - 16 * c
    {
      var ok, r := GetReserve(buf, off, total, c);
      if !ok { return TRUNCATED; }
      if r.size == 0 { return; }
      c := c + 1;
    }
  }

  /** The first `k` tokens settled. */
  ghost function SettledTo(ts: seq<Token>, k: nat, n: nat): (r: seq<Token>)
    ensures |r| == |ts|
  {
    seq(|ts|, i requires 0 <= i < |ts| => if i < k then Settled(ts[i], n) else ts[i])
  }

  lemma SettledAt(ts: seq<Token>, k: nat, n: nat)
    requires k < |ts|
    ensures (SettledTo(ts, k, n) + [End])[k] == ts[k]
  {
  }

  /** No call writes the end token. */
  lemma NotEnds(cs: seq<Call>, ts: seq<Token>, strs: seq<Byte>)
    requires AllPending(cs, ts, strs)
    ensures forall i | 0 <= i < |ts| :: Tag(ts[i]) != END
  {
    forall i | 0 <= i < |ts| ensures Tag(ts[i]) != END {
      assert Pending(cs[i], ts[i], strs);
    }
  }

  lemma SameTrans(s: seq<Byte>, t: seq<Byte>, r: seq<Byte>, at: nat, len: nat)
    requires SameAround(s, t, at, len) && SameAround(t, r, at, len)
    ensures SameAround(s, r, at, len)
  {
  }

  lemma SettledNone(ts: seq<Token>, n: nat)
    ensures SettledTo(ts, 0, n) == ts
  {
  }

  lemma SettledNext(ts: seq<Token>, k: nat, n: nat)
    requires k < |ts|
    ensures var cur := SettledTo(ts, k, n) + [End];
            && cur[k] == ts[k] && SettledTo(ts, k + 1, n) + [End] == cur[k := Settled(ts[k], n)]
            && (!ts[k].Prop? ==> SettledTo(ts, k + 1, n) == SettledTo(ts, k, n))
            && Off(SettledTo(ts, k + 1, n) + [End], k + 1) == Off(cur, k + 1)
  {
    hide Off, Len;
    var cur := SettledTo(ts, k, n) + [End];
    var now := cur[k := Settled(ts[k], n)];
    assert SettledTo(ts, k + 1, n) + [End] == now;
    assert !ts[k].Prop? ==> SettledTo(ts, k + 1, n) == SettledTo(ts, k, n);
    SettledLen(ts[k], n);
    OffStep(cur, k);
    OffStep(now, k);
    OffPrefix(cur, now, k);
  }

  lemma SettledLen(t: Token, n: nat)
    ensures Len(Settled(t, n)) == Len(t)
  {
  }

  lemma OffPrefix(ts: seq<Token>, us: seq<Token>, k: nat)
    requires k <= |ts| == |us| && ts[..k] == us[..k]
    ensures Off(ts, k) == Off(us, k)
  {
  }

  /** Settled names are stored names. */
  lemma AllSettled(cs: seq<Call>, ts: seq<Token>, strs: seq<Byte>)
    requires AllPending(cs, ts, strs) && |strs| < WORDS
    ensures AllStored(cs, SettledTo(ts, |ts|, |strs|), strs)
  {
    forall i | 0 <= i < |cs| ensures Stored(cs[i], SettledTo(ts, |ts|, |strs|)[i], strs) {
      assert Pending(cs[i], ts[i], strs);
      SettledStored(cs[i], ts[i], strs);
    }
  }

  lemma SameRefl(s: seq<Byte>, at: nat, len: nat)
    ensures SameAround(s, s, at, len)
  {
  }

  lemma PropAt(s: seq<Byte>, ts: seq<Token>, k: nat)
    requires Lexes(s, ts) && k < |ts| && ts[k].Prop?
    ensures Off(ts, k) + 12 <= |s| && Word(s[Off(ts, k) + 8..Off(ts, k) + 12]) == ts[k].nameoff
  {
    hide Lexes, Off;
    TokenAt(s, ts, k);
    BoundaryAligned(ts, k);
    HeldProp(s, Off(ts, k), ts[k].nameoff, ts[k].value);
  }

  lemma OverBlockOnly(s: seq<Byte>, o: nat, n: nat, off: nat, bytes: seq<Byte>)
    requires o + n <= |s| && off + |bytes| <= n
    ensures Block(Over(s, o + off, bytes), o, n) == Over(Block(s, o, n), off, bytes)
    ensures SameAround(s, Over(s, o + off, bytes), o, n)
  {
  }

  /** A new name offset in one property token. */
  lemma LexesRename(s: seq<Byte>, ts: seq<Token>, k: nat, nameoff: nat)
    requires Lexes(s, ts) && k < |ts| && ts[k].Prop? && nameoff < WORDS
    ensures Off(ts, k) + 12 <= |s|
    ensures Lexes(Over(s, Off(ts, k) + 8, WordBytes(nameoff)), ts[k := Prop(nameoff, ts[k].value)])
  {
    hide Lexes, Off, Word, WordBytes, Over, Align4, Holds;
    var a, v := Off(ts, k), ts[k].value;
    TokenAt(s, ts, k);
    BoundaryAligned(ts, k);
    HeldProp(s, a, ts[k].nameoff, v);
    var r, b := Over(s, a + 8, WordBytes(nameoff)), a + 12 + Align4(|v|);
    OverInside(s, a + 8, WordBytes(nameoff), a, b);
    OverApart(s, a + 8, WordBytes(nameoff), a, a + 4);
    OverApart(s, a + 8, WordBytes(nameoff), a + 4, a + 8);
    OverApart(s, a + 8, WordBytes(nameoff), a + 12, a + 12 + |v|);
    PropHeld(r, a, nameoff, v);
    FlatSingle(PropP(nameoff, v));
    LexesSplice(s, ts, k, k + 1, r[a..b], [Prop(nameoff, v)]);
    assert ts[..k] + [Prop(nameoff, v)] + ts[k + 1..] == ts[k := Prop(nameoff, v)];
    assert r == s[..a] + r[a..b] + s[b..];
  }

  /** Moving the strings down leaves what is below them. */
  lemma StringsMoved(s: seq<Byte>, o: nat, n: nat, o2: nat, n2: nat, from: nat, to: nat, len: nat)
    requires o + n <= o2 && o2 + n2 == to <= from && from + len <= |s|
    ensures var r := Moved(s, to, from, len);
            Block(r, o, n) == Block(s, o, n) && Block(r, o2, n2) == Block(s, o2, n2) && Block(r, to, len) == Block(s, from, len)
  {
  }

  lemma StringPrepended(s: seq<Byte>, at: nat, n: nat, name: seq<Byte>)
    requires at + |name| + 1 + n <= |s|
    ensures var r := Over(s, at, name + [0]);
            && SameAround(s, r, at, |name| + 1) && Block(r, at, |name| + 1 + n) == (name + [0]) + Block(s, at + |name| + 1, n)
            && StringAt(Block(r, at, |name| + 1 + n), name, 0)
  {
    var b := Block(Over(s, at, name + [0]), at, |name| + 1 + n);
    assert b == (name + [0]) + Block(s, at + |name| + 1, n);
    assert b[0..|name| + 1] == name + [0];
  }

  lemma PropAppended(s: seq<Byte>, r: seq<Byte>, at: nat, nameoff: nat, value: seq<Byte>)
    requires var b := at + 12 + Align4(|value|);
             b <= |s| == |r| && r[..at] == s[..at] && r[b..] == s[b..] && Lexes(r[at..b], Flat([PropP(nameoff, value)]))
    ensures SameAround(s, r, at, 12 + Align4(|value|)) && Holds(Block(r, at, 12 + Align4(|value|)), Prop(nameoff, value))
  {
    hide Lexes, Holds, Align4;
    var b := at + 12 + Align4(|value|);
    FlatSingle(PropP(nameoff, value));
    LexesFirst(r[at..b], Prop(nameoff, value));
    forall i | 0 <= i < |s| && !(at <= i < b) ensures r[i] == s[i] {
      if i < at { assert r[i] == r[..at][i] == s[..at][i]; } else { assert r[i] == r[b..][i - b] == s[b..][i - b]; }
    }
  }

  /** The reservations fill the bytes up to `o`. */
  ghost predicate ReservedIn(rs: seq<Reserve>, s: seq<Byte>, o: nat) {
    && (forall i | 0 <= i < |rs| :: rs[i].OK())
    && o == FIRST + 16 * |rs| <= |s| && Block(s, FIRST, 16 * |rs|) == ReserveBytes(rs)
  }

  /** The bytes record these calls: a structure block of `n` bytes at `o`, and `m` bytes of strings up to `end`. */
  ghost predicate Recorded(s: seq<Byte>, o: nat, n: nat, end: nat, m: nat, rs: seq<Reserve>, cs: seq<Call>, ts: seq<Token>)
    ensures Recorded(s, o, n, end, m, rs, cs, ts) ==> o + n + m <= end <= |s|
  {
    && o + n + m <= end <= |s| && NamesOK(cs) && ReservedIn(rs + [Reserve(0, 0)], s, o)
    && Lexes(Block(s, o, n), ts) && AllPending(cs, ts, Block(s, end - m, m))
  }

  /** Bytes written between the two blocks disturb neither. */
  lemma RecordKept(s: seq<Byte>, r: seq<Byte>, o: nat, n: nat, end: nat, m: nat, rs: seq<Reserve>, cs: seq<Call>, ts: seq<Token>,
                   at: nat, len: nat)
    requires Recorded(s, o, n, end, m, rs, cs, ts) && SameAround(s, r, at, len) && o + n <= at && at + len <= end - m
    ensures Recorded(r, o, n, end, m, rs, cs, ts)
  {
    hide Lexes, Block, ReserveBytes, SameAround, NamesOK, AllPending;
    WritesInside(s, r, FIRST, 16 * (|rs| + 1), at, len);
    WritesInside(s, r, o, n, at, len);
    WritesInside(s, r, end - m, m, at, len);
  }

  /** A string written in front of the others. */
  lemma RecordGrown(s: seq<Byte>, o: nat, n: nat, end: nat, m: nat, rs: seq<Reserve>, cs: seq<Call>, ts: seq<Token>, name: seq<Byte>)
    requires Recorded(s, o, n, end, m, rs, cs, ts) && o + n + m + |name| + 1 <= end
    ensures var k, at := |name| + 1 + m, end - m - |name| - 1;
            var r := Over(s, at, name + [0]);
            && Recorded(r, o, n, end, k, rs, cs, ts) && SameAround(s, r, at, |name| + 1) && StringAt(Block(r, end - k, k), name, 0)
  {
    hide Recorded, Over, Block, SameAround;
    var at := end - m - |name| - 1;
    var r := Over(s, at, name + [0]);
    StringPrepended(s, at, m, name);
    RecordKept(s, r, o, n, end, m, rs, cs, ts, at, |name| + 1);
    RecordExtended(r, o, n, end, m, rs, cs, ts, name + [0]);
  }

  lemma RecordExtended(s: seq<Byte>, o: nat, n: nat, end: nat, m: nat, rs: seq<Reserve>, cs: seq<Call>, ts: seq<Token>, more: seq<Byte>)
    requires Recorded(s, o, n, end, m, rs, cs, ts) && o + n + m + |more| <= end
    requires Block(s, end - m - |more|, |more| + m)[..|more|] == more
    ensures Recorded(s, o, n, end, |more| + m, rs, cs, ts)
  {
    hide Lexes, ReserveBytes, NamesOK, AllPending;
    assert Block(s, end - m - |more|, |more| + m) == more + Block(s, end - m, m);
    PendingKept(cs, ts, Block(s, end - m, m), more);
  }

  /** The two buffers differ only in [at, at + len). */
  ghost predicate SameAround(s: seq<Byte>, r: seq<Byte>, at: nat, len: nat)
    ensures SameAround(s, r, at, len) ==> |r| == |s|
  {
    |r| == |s| && forall i | 0 <= i < |s| && !(at <= i < at + len) :: r[i] == s[i]
  }

  lemma WritesInside(s: seq<Byte>, r: seq<Byte>, o: nat, n: nat, at: nat, len: nat)
    requires SameAround(s, r, at, len) && o + n <= |s| && (o + n <= at || at + len <= o)
    ensures Block(r, o, n) == Block(s, o, n)
  {
  }

  lemma BlockSplit(s: seq<Byte>, o: nat, n: nat, m: nat)
    requires o + n + m <= |s|
    ensures Block(s, o, n + m) == Block(s, o, n) + Block(s, o + n, m)
  {
  }

  lemma NameWritten(s: seq<Byte>, a: nat, name: seq<Byte>)
    requires 0 !in name && a + 4 + Align4(|name| + 1) <= |s|
    ensures var r, n := Over(Over(s, a, WordBytes(BEGIN_NODE)), a + 4, name + [0]), 4 + Align4(|name| + 1);
            SameAround(s, r, a, n) && Holds(Block(r, a, n), Begin(name))
  {
    hide Word, WordBytes, Align4, Over;
    var t := Over(s, a, WordBytes(BEGIN_NODE));
    var r := Over(t, a + 4, name + [0]);
    OverInside(s, a, WordBytes(BEGIN_NODE), a, a + 4);
    OverInside(t, a + 4, name + [0], a, |s|);
    OverApart(t, a + 4, name + [0], a, a + 4);
    assert r[a + 4..a + 4 + |name|] == name;
    NameHeld(r, a, name);
  }

  lemma TagWritten(s: seq<Byte>, a: nat, t: Token)
    requires (t == EndNode || t == End) && a + 4 <= |s|
    ensures var r := Over(s, a, WordBytes(Tag(t)));
            SameAround(s, r, a, 4) && Holds(Block(r, a, 4), t)
  {
    hide Word, WordBytes, Over;
    OverInside(s, a, WordBytes(Tag(t)), a, a + 4);
    var b := Block(Over(s, a, WordBytes(Tag(t))), a, 4);
    assert b[..4] == b;
  }

  lemma NothingWritten(s: seq<Byte>, strs: seq<Byte>)
    ensures s == [] ==> Lexes(s, [])
    ensures AllPending([], [], strs)
  {
  }

  /** One more reservation in the bytes. */
  lemma ReserveWritten(rs: seq<Reserve>, s: seq<Byte>, o: nat, r: Reserve)
    requires ReservedIn(rs, s, o) && r.OK() && o + 16 <= |s|
    ensures ReservedIn(rs + [r], Over(s, o, LongBytes(r.address) + LongBytes(r.size)), o + 16)
  {
    hide Over, Block, LongBytes, ReserveBytes;
    ReserveAppend(rs, r);
    BlockAppended(s, FIRST, 16 * |rs|, LongBytes(r.address) + LongBytes(r.size));
    assert forall i | 0 <= i < |rs + [r]| :: (rs + [r])[i].OK();
  }

  lemma BlockAppended(s: seq<Byte>, o: nat, n: nat, bytes: seq<Byte>)
    requires o + n + |bytes| <= |s|
    ensures Block(Over(s, o + n, bytes), o, n + |bytes|) == Block(s, o, n) + bytes
  {
  }
}
