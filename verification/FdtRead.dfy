/** Reading and writing a structure block in a byte buffer. */
module FdtRead {
  import opened FdtBytes
  import opened FdtTokens
  import opened FdtTree
  import opened FdtSplice

  const NOTFOUND: int := -1
  const EXISTS: int := -2
  const NOSPACE: int := -3
  const BADOFFSET: int := -4
  const TRUNCATED: int := -8
  const BADSTRUCTURE: int := -11

  const MAX_TOTAL: nat := 0x7FFF_FFFF
  const HEADER: nat := 40
  const RESERVE_ENTRY: nat := 16

  /** The length field that wraps a property's size to nothing. */
  const WRAPPING: nat := 0xFFFF_FFF4

  /** One past the terminator of the name at `off`, if there is one. */
  function NameEnd(s: seq<Byte>, off: nat): (r: int)
    ensures r >= 0 ==> off < r <= |s| && s[r - 1] == 0 && forall i | off <= i < r - 1 :: s[i] != 0
    ensures r < 0 ==> forall i | off <= i < |s| :: s[i] != 0
    decreases |s| - off
  {
    if off >= |s| then -1 else if s[off] == 0 then off + 1 else NameEnd(s, off + 1)
  }

  /** The token at an offset of a structure block and where the next one starts. */
  function TagAt(s: seq<Byte>, start: int): (nat, int) {
    if start < 0 || start + 4 > |s| then (END, TRUNCATED) else
    var word := Word(s[start..start + 4]);
    var off := if word == BEGIN_NODE then NameEnd(s, start + 4)
               else if word == PROP then
                 (if start + 8 > |s| then -1 else start + (12 + Word(s[start + 4..start + 8])) % WORDS)
               else if word == END || word == END_NODE || word == NOP then start + 4 else -1;
    if 0 <= off <= |s| then (word, Align4(off)) else (END, BADSTRUCTURE)
  }

  /** On any bytes the walk moves forward, except over a property whose length field wraps around. */
  lemma TagAtProgress(s: seq<Byte>, start: int)
    ensures var (tag, next) := TagAt(s, start);
            && (next < 0 ==> tag == END)
            && (next >= 0 ==> 0 <= start && start + 4 <= |s| && (tag == PROP ==> start + 8 <= |s|))
            && (next >= 0 ==> (next <= start <==> tag == PROP && start % 4 == 0 && Word(s[start + 4..start + 8]) == WRAPPING))
  {
    var (tag, next) := TagAt(s, start);
    if next >= 0 && tag == PROP {
      var len := Word(s[start + 4..start + 8]);
      assert (12 + len) % WORDS == if len < WRAPPING then 12 + len else len - WRAPPING;
      if len == WRAPPING && start % 4 == 0 { Align4Is(start, start); }
    }
  }

  /** What is read at any offset of any bytes: tags 2, 4 and 9 end after their word, 1 after the terminator of a
      name, 3 after three words and a value whose end is computed on 32 bits; a word cut off is the one error, an
      unknown tag or an end outside the block the other. */
  lemma TagAtMeans(s: seq<Byte>, start: int, z: int)
    ensures start < 0 || start + 4 > |s| ==> TagAt(s, start) == (9, -8)
    ensures start >= 0 && start + 4 <= |s| ==>
              var word := Word(s[start..start + 4]);
              && (word == 2 || word == 4 || word == 9 ==> TagAt(s, start) == (word, Align4(start + 4)))
              && (word == 1 && FirstZero(s, start + 4, z) ==> TagAt(s, start) == (1, Align4(z + 1)))
              && (word == 1 && (forall i | start + 4 <= i < |s| :: s[i] != 0) ==> TagAt(s, start) == (9, -11))
              && (word == 3 && start + 8 > |s| ==> TagAt(s, start) == (9, -11))
              && (word == 3 && start + 8 <= |s| ==>
                    var len := Word(s[start + 4..start + 8]);
                    var end := start + if 12 + len < 0x1_0000_0000 then 12 + len else 12 + len - 0x1_0000_0000;
                    && (end <= |s| ==> TagAt(s, start) == (3, Align4(end)))
                    && (end > |s| ==> TagAt(s, start) == (9, -11)))
              && (word == 0 || (5 <= word && word != 9) ==> TagAt(s, start) == (9, -11))
  {
    hide Word, Align4;
    if start >= 0 && start + 4 <= |s| && Word(s[start..start + 4]) == 1 {
      var end := NameEnd(s, start + 4);
      hide NameEnd;
      assert FirstZero(s, start + 4, z) ==> end == z + 1;
    }
  }

  /** The first zero from an offset on. */
  predicate FirstZero(s: seq<Byte>, from: nat, z: int) {
    from <= z < |s| && s[z] == 0 && forall i | from <= i < z :: s[i] != 0
  }

  /** At a token boundary it reads that token. */
  lemma TagAtToken(s: seq<Byte>, ts: seq<Token>, k: nat)
    requires Lexes(s, ts) && k < |ts| && |s| < MAX_TOTAL
    ensures TagAt(s, Off(ts, k)) == (Tag(ts[k]), Off(ts, k + 1))
  {
    hide Lexes;
    TokenAt(s, ts, k);
    var a, n := Off(ts, k), Off(ts, k + 1);
    BoundaryAligned(ts, k);
    HeldTag(s, a, ts[k]);
  }

  lemma BoundaryAligned(ts: seq<Token>, k: nat)
    requires k <= |ts|
    ensures Off(ts, k) % 4 == 0
  {
    SizeAligned(ts[..k]);
  }

  lemma HeldTag(s: seq<Byte>, a: nat, t: Token)
    requires a % 4 == 0 && a + Len(t) <= |s| < MAX_TOTAL && Holds(s[a..a + Len(t)], t)
    ensures TagAt(s, a) == (Tag(t), a + Len(t))
  {
    hide Word, NameEnd, Holds, Align4;
    match t {
      case Begin(name) => HeldName(s, a, name);
      case Prop(nameoff, value) => HeldProp(s, a, nameoff, value);
      case _ =>
        HeldWord(s, a, t);
        Align4Is(a + 4, a + 4);
    }
  }

  lemma HeldWord(s: seq<Byte>, a: nat, t: Token)
    requires a + Len(t) <= |s| && Holds(s[a..a + Len(t)], t)
    ensures Word(s[a..a + 4]) == Tag(t)
  {
    hide Word;
    assert s[a..a + 4] == s[a..a + Len(t)][..4];
  }

  lemma HeldName(s: seq<Byte>, a: nat, name: seq<Byte>)
    requires a % 4 == 0 && a + Len(Begin(name)) <= |s| && Holds(s[a..a + Len(Begin(name))], Begin(name))
    ensures Word(s[a..a + 4]) == BEGIN_NODE && NameEnd(s, a + 4) == a + 4 + |name| + 1
    ensures Align4(a + 4 + |name| + 1) == a + Len(Begin(name))
    ensures a + 4 + |name| < |s| && s[a + 4..a + 4 + |name|] == name
  {
    hide Word, NameEnd;
    HeldWord(s, a, Begin(name));
    var b := s[a..a + Len(Begin(name))];
    forall i | a + 4 <= i < a + 4 + |name| ensures s[i] != 0 {
      assert s[i] == b[i - a] == b[4..4 + |name|][i - a - 4] == name[i - a - 4];
    }
    assert s[a + 4 + |name|] == b[4 + |name|] == 0;
    assert s[a + 4..a + 4 + |name|] == b[4..4 + |name|];
    AlignAfter(a + 4, |name| + 1);
  }

  lemma AlignAfter(a: nat, n: nat)
    requires a % 4 == 0
    ensures Align4(a + n) == a + Align4(n)
  {
    var r := Align4(n);
    assert (a + r) % 4 == 0;
    Align4Is(a + n, a + r);
  }

  lemma HeldProp(s: seq<Byte>, a: nat, nameoff: nat, value: seq<Byte>)
    requires var t := Prop(nameoff, value); a % 4 == 0 && a + Len(t) <= |s| && Holds(s[a..a + Len(t)], t)
    ensures var n := Len(Prop(nameoff, value));
            && n >= 12 && Word(s[a..a + 4]) == PROP && Word(s[a + 4..a + 8]) == |value| && Word(s[a + 8..a + 12]) == nameoff
            && s[a + 12..a + 12 + |value|] == value && Align4(a + 12 + |value|) == a + n
  {
    hide Word;
    var t := Prop(nameoff, value);
    HeldWord(s, a, t);
    var b := s[a..a + Len(t)];
    assert s[a + 4..a + 8] == b[4..8] && s[a + 8..a + 12] == b[8..12] && s[a + 12..a + 12 + |value|] == b[12..12 + |value|];
    AlignAfter(a + 12, |value|);
  }

  function Block(s: seq<Byte>, o: nat, n: nat): (r: seq<Byte>)
    requires o + n <= |s|
    ensures |r| == n
  {
    s[o..o + n]
  }

  /** A terminated copy of `name` starts at this offset. */
  ghost predicate StringAt(strs: seq<Byte>, name: seq<Byte>, p: nat) {
    p + |name| + 1 <= |strs| && strs[p..p + |name| + 1] == name + [0]
  }

  ghost predicate HasString(strs: seq<Byte>, name: seq<Byte>) {
    exists p: nat :: StringAt(strs, name, p)
  }

  lemma StringIn(strs: seq<Byte>, name: seq<Byte>, p: nat)
    requires StringAt(strs, name, p)
    ensures HasString(strs, name)
  {
  }

  lemma StringRead(strs: seq<Byte>, name: seq<Byte>, p: nat)
    requires StringAt(strs, name, p) && 0 !in name
    ensures Terminated(strs, p) && NameOf(strs, p) == name
  {
    hide NameOf;
    var t := strs[p..p + |name| + 1];
    assert t[..|name|] == name && t[|name|] == 0;
    assert strs[p..p + |name|] == t[..|name|];
    NameRead(strs, p, name);
  }

  /** The name at an offset runs up to its terminator. */
  lemma NameSlice(strs: seq<Byte>, off: nat)
    requires Terminated(strs, off)
    ensures off < NameEnd(strs, off) <= |strs| && NameOf(strs, off) == strs[off..NameEnd(strs, off) - 1]
  {
    hide NameEnd;
    var end := NameEnd(strs, off);
    var i :| 0 <= i < |strs[off..]| && strs[off..][i] == 0;
    assert strs[off + i] == 0;
    NameRead(strs, off, strs[off..end - 1]);
  }

  lemma NotTerminated(strs: seq<Byte>, off: nat)
    requires NameEnd(strs, off) < 0
    ensures !Terminated(strs, off)
  {
  }

  lemma SubSlice<T>(s: seq<T>, o: nat, n: nat, i: nat, j: nat)
    requires i <= j <= n && o + n <= |s|
    ensures s[o..o + n][i..j] == s[o + i..o + j]
  {
    var t, u := s[o..o + n][i..j], s[o + i..o + j];
    assert forall k | 0 <= k < j - i :: t[k] == u[k];
  }

  lemma OffZero(ts: seq<Token>)
    ensures Off(ts, 0) == 0
  {
    assert ts[..0] == [];
  }

  // ----- On the buffer

  method ReadWord(buf: array<Byte>, o: nat, n: nat, off: nat) returns (w: nat)
    requires o + n <= buf.Length && off + 4 <= n
    ensures w == Word(Block(buf[..], o, n)[off..off + 4]) < WORDS
  {
    var at := o + off;
    var b: seq<Byte> := [buf[at], buf[at + 1], buf[at + 2], buf[at + 3]];
    assert b == Block(buf[..], o, n)[off..off + 4];
    w := Word(b);
  }

  /** `len` bytes at offset `off` are inside a block of `n`. */
  predicate Inside(n: nat, off: int, len: nat) {
    off >= 0 && off + len <= n
  }

  method ReadTag(buf: array<Byte>, o: nat, n: nat, start: int) returns (tag: nat, next: int)
    requires o + n <= buf.Length
    ensures (tag, next) == TagAt(Block(buf[..], o, n), start)
  {
    hide Word, NameEnd, Align4, Block;
    tag, next := END, TRUNCATED;
    if Inside(n, start, 4) {
      var word := ReadWord(buf, o, n, start);
      next := BADSTRUCTURE;
      var off := start + 4;
      if word == BEGIN_NODE {
        off := FindZero(buf, o, n, off);
        if off < 0 { return; }
      } else if word == PROP {
        if !Inside(n, off, 4) { return; }
        var len := ReadWord(buf, o, n, off);
        off := start + (12 + len) % WORDS;
      } else if word != END && word != END_NODE && word != NOP {
        return;
      }
      if off <= n { tag, next := word, Align4(off); }
    }
  }

  /** Looks for the terminator of a name in a block. */
  method FindZero(buf: array<Byte>, o: nat, n: nat, from: nat) returns (off: int)
    requires o + n <= buf.Length
    ensures off == NameEnd(Block(buf[..], o, n), from)
  {
    off := from;
    while off < n && buf[o + off] != 0
      invariant off >= from && NameEnd(Block(buf[..], o, n), off) == NameEnd(Block(buf[..], o, n), from)
    {
      off := off + 1;
    }
    off := if off < n then off + 1 else -1;
  }

  /** Looks for a terminated string, anywhere in a strings block. */
  method FindString(buf: array<Byte>, o: nat, n: nat, name: seq<Byte>) returns (r: int)
    requires o + n <= buf.Length
    ensures r >= 0 ==> StringAt(Block(buf[..], o, n), name, r) && forall p: nat | p < r :: !StringAt(Block(buf[..], o, n), name, p)
    ensures r < 0 ==> !HasString(Block(buf[..], o, n), name)
  {
    var len := |name| + 1;
    r := 0;
    while r <= n - len
      invariant r >= 0 && forall p: nat | p < r :: !StringAt(Block(buf[..], o, n), name, p)
    {
      SubSlice(buf[..], o, n, r, r + len);
      if buf[o + r..o + r + len] == name + [0] { return; }
      r := r + 1;
    }
    r := -1;
  }

  method WriteAt(buf: array<Byte>, at: nat, bytes: seq<Byte>)
    requires at + |bytes| <= buf.Length
    modifies buf
    ensures buf[..] == Over(old(buf[..]), at, bytes)
  {
    for i := 0 to |bytes|
      invariant forall k | 0 <= k < buf.Length :: buf[k] == if at <= k < at + i then bytes[k - at] else old(buf[k])
    {
      buf[at + i] := bytes[i];
    }
    assert buf[..] == Over(old(buf[..]), at, bytes);
  }
}
