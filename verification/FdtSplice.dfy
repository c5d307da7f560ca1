/** Bytes written over a structure block, and the tokens that makes. */
module FdtSplice {
  import opened FdtBytes
  import opened FdtTokens
  import opened FdtTree
  import opened FdtWalk

  /** `bytes` written over `s` at `off`. */
  function Over(s: seq<Byte>, off: nat, bytes: seq<Byte>): (r: seq<Byte>)
    requires off + |bytes| <= |s|
    ensures |r| == |s| && forall i | 0 <= i < |s| :: r[i] == if off <= i < off + |bytes| then bytes[i - off] else s[i]
  {
    s[..off] + bytes + s[off + |bytes|..]
  }

  /** Writing inside a gap leaves what is around it. */
  lemma OverInside(s: seq<Byte>, off: nat, bytes: seq<Byte>, a: nat, b: nat)
    requires a <= off && off + |bytes| <= b <= |s|
    ensures Over(s, off, bytes)[..a] == s[..a] && Over(s, off, bytes)[b..] == s[b..]
    ensures Over(s, off, bytes)[off..off + |bytes|] == bytes
  {
  }

  /** Writing elsewhere leaves a slice. */
  lemma OverApart(s: seq<Byte>, off: nat, bytes: seq<Byte>, a: nat, b: nat)
    requires a <= b <= |s| && off + |bytes| <= |s| && (b <= off || off + |bytes| <= a)
    ensures Over(s, off, bytes)[a..b] == s[a..b]
  {
  }

  /** Tag, name offset, length and value written at `a` make a property token. */
  lemma PropWritten(s: seq<Byte>, a: nat, nameoff: nat, value: seq<Byte>) returns (r: seq<Byte>)
    requires a + 12 + Align4(|value|) <= |s| && nameoff < WORDS && |value| < WORDS
    ensures r == Over(Over(Over(Over(s, a, WordBytes(PROP)), a + 8, WordBytes(nameoff)), a + 4, WordBytes(|value|)), a + 12, value)
    ensures var b := a + 12 + Align4(|value|);
            |r| == |s| && r[..a] == s[..a] && r[b..] == s[b..] && Lexes(r[a..b], Flat([PropP(nameoff, value)]))
  {
    hide Word, WordBytes, Over, Align4;
    var b := a + 12 + Align4(|value|);
    var s1 := Over(s, a, WordBytes(PROP));
    var s2 := Over(s1, a + 8, WordBytes(nameoff));
    var s3 := Over(s2, a + 4, WordBytes(|value|));
    r := Over(s3, a + 12, value);
    OverInside(s, a, WordBytes(PROP), a, b);
    OverInside(s1, a + 8, WordBytes(nameoff), a, b);
    OverInside(s2, a + 4, WordBytes(|value|), a, b);
    OverInside(s3, a + 12, value, a, b);
    OverApart(s1, a + 8, WordBytes(nameoff), a, a + 4);
    OverApart(s2, a + 4, WordBytes(|value|), a, a + 4);
    OverApart(s3, a + 12, value, a, a + 4);
    OverApart(s2, a + 4, WordBytes(|value|), a + 8, a + 12);
    OverApart(s3, a + 12, value, a + 8, a + 12);
    OverApart(s3, a + 12, value, a + 4, a + 8);
    PropHeld(r, a, nameoff, value);
  }

  lemma PropHeld(s: seq<Byte>, a: nat, nameoff: nat, value: seq<Byte>)
    requires a + 12 + Align4(|value|) <= |s| && |value| < WORDS
    requires Word(s[a..a + 4]) == PROP && Word(s[a + 4..a + 8]) == |value| && Word(s[a + 8..a + 12]) == nameoff
    requires s[a + 12..a + 12 + |value|] == value
    ensures Lexes(s[a..a + 12 + Align4(|value|)], Flat([PropP(nameoff, value)]))
  {
    var t, b := Prop(nameoff, value), s[a..a + 12 + Align4(|value|)];
    assert Holds(b, t) by {
      hide Word, Align4;
      SliceIn(s, a, a + 12 + Align4(|value|), 0, 4);
      SliceIn(s, a, a + 12 + Align4(|value|), 4, 8);
      SliceIn(s, a, a + 12 + Align4(|value|), 8, 12);
      SliceIn(s, a, a + 12 + Align4(|value|), 12, 12 + |value|);
      assert b[..4] == b[0..4];
    }
    hide Lexes, Holds;
    LexesOne(b, t);
    FlatSingle(PropP(nameoff, value));
  }

  lemma SliceIn(s: seq<Byte>, a: nat, b: nat, i: nat, j: nat)
    requires a <= b <= |s| && i <= j <= b - a
    ensures s[a..b][i..j] == s[a + i..a + j]
  {
    var t, u := s[a..b][i..j], s[a + i..a + j];
    assert forall k | 0 <= k < j - i :: t[k] == u[k];
  }

  /** New value bytes and length in place of the old ones keep tag and name offset. */
  lemma PropResized(s: seq<Byte>, a: nat, nameoff: nat, value: seq<Byte>) returns (r: seq<Byte>)
    requires a + 12 + Align4(|value|) <= |s| && |value| < WORDS
    requires Word(s[a..a + 4]) == PROP && Word(s[a + 8..a + 12]) == nameoff
    ensures r == Over(Over(s, a + 4, WordBytes(|value|)), a + 12, value)
    ensures var b := a + 12 + Align4(|value|);
            |r| == |s| && r[..a] == s[..a] && r[b..] == s[b..] && Lexes(r[a..b], Flat([PropP(nameoff, value)]))
  {
    hide Word, WordBytes, Over, Align4;
    var b := a + 12 + Align4(|value|);
    var s1 := Over(s, a + 4, WordBytes(|value|));
    r := Over(s1, a + 12, value);
    OverInside(s, a + 4, WordBytes(|value|), a, b);
    OverInside(s1, a + 12, value, a, b);
    OverApart(s, a + 4, WordBytes(|value|), a, a + 4);
    OverApart(s, a + 4, WordBytes(|value|), a + 8, a + 12);
    OverApart(s1, a + 12, value, a, a + 4);
    OverApart(s1, a + 12, value, a + 4, a + 8);
    OverApart(s1, a + 12, value, a + 8, a + 12);
    PropHeld(r, a, nameoff, value);
  }

  /** Opening tag, zeroed and filled name, closing tag make an empty node. */
  lemma NodeWritten(s: seq<Byte>, a: nat, name: seq<Byte>, zeros: seq<Byte>) returns (r: seq<Byte>)
    requires 0 !in name && a + 8 + Align4(|name| + 1) <= |s| && |zeros| == Align4(|name| + 1) && forall i | 0 <= i < |zeros| :: zeros[i] == 0
    ensures var n := Align4(|name| + 1);
            r == Over(Over(Over(Over(s, a, WordBytes(BEGIN_NODE)), a + 4, zeros), a + 4, name), a + 4 + n, WordBytes(END_NODE))
    ensures var b := a + 8 + Align4(|name| + 1);
            |r| == |s| && r[..a] == s[..a] && r[b..] == s[b..] && Lexes(r[a..b], Flat([NodeP(name, [])]))
  {
    hide Word, WordBytes, Over;
    var n := Align4(|name| + 1);
    var b := a + 8 + n;
    var s1 := Over(s, a, WordBytes(BEGIN_NODE));
    var s2 := Over(s1, a + 4, zeros);
    var s3 := Over(s2, a + 4, name);
    r := Over(s3, a + 4 + n, WordBytes(END_NODE));
    OverInside(s, a, WordBytes(BEGIN_NODE), a, b);
    OverInside(s1, a + 4, zeros, a, b);
    OverInside(s2, a + 4, name, a, b);
    OverInside(s3, a + 4 + n, WordBytes(END_NODE), a, b);
    OverApart(s1, a + 4, zeros, a, a + 4);
    OverApart(s2, a + 4, name, a, a + 4);
    OverApart(s3, a + 4 + n, WordBytes(END_NODE), a, a + 4);
    OverApart(s3, a + 4 + n, WordBytes(END_NODE), a + 4, a + 4 + |name|);
    assert s2[a + 4 + |name|] == 0;
    NodeHeld(r, a, name);
  }

  /** An opening tag and a terminated name make an opening token. */
  lemma NameHeld(s: seq<Byte>, a: nat, name: seq<Byte>)
    requires 0 !in name && a + 4 + Align4(|name| + 1) <= |s|
    requires Word(s[a..a + 4]) == BEGIN_NODE && s[a + 4..a + 4 + |name|] == name && s[a + 4 + |name|] == 0
    ensures Holds(s[a..a + 4 + Align4(|name| + 1)], Begin(name))
  {
    hide Word, Align4;
    var n := Align4(|name| + 1);
    var b := s[a..a + 4 + n];
    SliceIn(s, a, a + 4 + n, 0, 4);
    SliceIn(s, a, a + 4 + n, 4, 4 + |name|);
    assert b[..4] == b[0..4];
  }

  lemma NodeHeld(s: seq<Byte>, a: nat, name: seq<Byte>)
    requires 0 !in name && a + 8 + Align4(|name| + 1) <= |s|
    requires Word(s[a..a + 4]) == BEGIN_NODE && s[a + 4..a + 4 + |name|] == name && s[a + 4 + |name|] == 0
    requires var m := a + 4 + Align4(|name| + 1); Word(s[m..m + 4]) == END_NODE
    ensures Lexes(s[a..a + 8 + Align4(|name| + 1)], Flat([NodeP(name, [])]))
  {
    var n := Align4(|name| + 1);
    var t, b, e := Begin(name), s[a..a + 4 + n], s[a + 4 + n..a + 8 + n];
    NameHeld(s, a, name);
    assert Holds(e, EndNode) by { assert e[..4] == e; }
    hide Lexes, Holds, Align4;
    LexesOne(b, t);
    LexesOne(e, EndNode);
    LexesConcat(b, e, [t], [EndNode]);
    assert s[a..a + 8 + n] == b + e;
    EmptyNode(name);
  }

  lemma EmptyNode(name: seq<Byte>)
    ensures Flat([NodeP(name, [])]) == [Begin(name)] + [EndNode]
  {
    FlatSingle(NodeP(name, []));
  }

  /** Filler words make filler tokens, one each. */
  lemma {:induction false} NopsHeld(s: seq<Byte>, n: nat)
    requires |s| == 4 * n && forall i | 0 <= i < n :: Word(s[4 * i..4 * i + 4]) == NOP
    ensures Lexes(s, Flat(Nops(n)))
  {
    if n > 0 {
      hide Word;
      var b := s[..4];
      assert s[4 * 0..4 * 0 + 4] == b;
      assert Holds(b, Nop) by { assert b[..4] == b; }
      forall i | 0 <= i < n - 1 ensures Word(s[4..][4 * i..4 * i + 4]) == NOP {
        assert s[4..][4 * i..4 * i + 4] == s[4 * (i + 1)..4 * (i + 1) + 4];
      }
      NopsHeld(s[4..], n - 1);
      LexesOne(b, Nop);
      LexesConcat(b, s[4..], [Nop], Flat(Nops(n - 1)));
      assert s == b + s[4..];
      assert Nops(n)[1..] == Nops(n - 1);
    }
  }

  function Nops(n: nat): (r: seq<Piece>)
    ensures |r| == n && forall i | 0 <= i < n :: r[i] == NopP
  {
    seq(n, _ => NopP)
  }

  lemma {:induction false} NopsMeanNothing(n: nat, strs: seq<Byte>)
    ensures Items(Nops(n), strs) == [] && Named(Nops(n), strs)
  {
    if n > 0 {
      NopsMeanNothing(n - 1, strs);
      assert Nops(n)[1..] == Nops(n - 1);
    }
  }

  /** New pieces with known names keep every name known. */
  lemma {:induction false} NamedPut(ps: seq<Piece>, path: seq<nat>, rs: seq<Piece>, strs: seq<Byte>)
    requires Named(ps, strs) && IsAt(ps, path) && Named(rs, strs)
    ensures Named(Put(ps, path, rs), strs)
    decreases |path|
  {
    var i := path[0];
    assert NamedOne(ps[i], strs);
    if |path| > 1 {
      var kids := ps[i].kids;
      NamedPut(kids, path[1..], rs, strs);
      assert NamedOne(ps[i].(kids := Put(kids, path[1..], rs)), strs);
    }
  }

  lemma NamedRebody(ps: seq<Piece>, path: seq<nat>, j: nat, m: nat, rs: seq<Piece>, strs: seq<Byte>)
    requires Named(ps, strs) && Named(rs, strs) && IsAt(ps, path) && At(ps, path).NodeP? && j + m <= |At(ps, path).kids|
    ensures Named(Rebody(ps, path, j, m, rs), strs)
  {
    var p := At(ps, path);
    NamedKids(ps, path, strs);
    var body := p.kids[..j] + rs + p.kids[j + m..];
    forall i | 0 <= i < |body| ensures NamedOne(body[i], strs) {
      assert body[i] == if i < j then p.kids[i] else if i < j + |rs| then rs[i - j] else p.kids[i - |rs| + m];
    }
    assert NamedOne(NodeP(p.name, body), strs);
    NamedPut(ps, path, [NodeP(p.name, body)], strs);
  }

  lemma {:induction false} NamedKids(ps: seq<Piece>, path: seq<nat>, strs: seq<Byte>)
    requires Named(ps, strs) && IsAt(ps, path) && At(ps, path).NodeP?
    ensures Named(At(ps, path).kids, strs)
    decreases |path|
  {
    assert NamedOne(ps[path[0]], strs);
    if |path| > 1 { NamedKids(ps[path[0]].kids, path[1..], strs); }
  }
}
