/** The structure block of a flattened device tree as a sequence of tokens (section 5.4 of the
    Devicetree Specification). */
module FdtTokens {
  import opened FdtBytes

  datatype Token =
    | Begin(name: seq<Byte>)
    | EndNode
    | Prop(nameoff: nat, value: seq<Byte>)
    | Nop
    | End

  const BEGIN_NODE: nat := 1
  const END_NODE: nat := 2
  const PROP: nat := 3
  const NOP: nat := 4
  const END: nat := 9

  function Tag(t: Token): nat {
    match t
    case Begin(_) => BEGIN_NODE
    case EndNode => END_NODE
    case Prop(_, _) => PROP
    case Nop => NOP
    case End => END
  }

  /** Bytes a token takes, padding included. */
  function Len(t: Token): (n: nat)
    ensures n >= 4
  {
    match t
    case Begin(name) => 4 + Align4(|name| + 1)
    case Prop(_, value) => 12 + Align4(|value|)
    case _ => 4
  }

  /** The bytes hold this token; what the padding holds does not matter. */
  predicate Holds(b: seq<Byte>, t: Token)
    ensures Holds(b, t) ==> |b| == Len(t)
  {
    && |b| == Len(t) && Word(b[..4]) == Tag(t)
    && match t
       case Begin(name) => 0 !in name && b[4..4 + |name|] == name && b[4 + |name|] == 0
       case Prop(nameoff, value) =>
         |value| < WORDS && Word(b[4..8]) == |value| && Word(b[8..12]) == nameoff && b[12..12 + |value|] == value
       case _ => true
  }

  /** A token is determined by its bytes, wherever they end. */
  lemma HoldsUnique(b: seq<Byte>, c: seq<Byte>, s: Token, t: Token)
    requires Holds(b, s) && Holds(c, t) && (b <= c || c <= b)
    ensures s == t
  {
    assert b[..4] == c[..4];
    match s {
      case Begin(name) =>
        var m := t.name;
        assert forall i | 0 <= i < |name| :: b[4 + i] == name[i] != 0;
        assert forall i | 0 <= i < |m| :: c[4 + i] == m[i] != 0;
        assert |name| == |m|;
        assert b[4..4 + |name|] == c[4..4 + |name|];
      case Prop(nameoff, value) =>
        assert b[4..8] == c[4..8] && b[8..12] == c[8..12];
        assert b[12..12 + |value|] == c[12..12 + |value|];
      case _ =>
    }
  }

  function Size(ts: seq<Token>): nat {
    if ts == [] then 0 else Len(ts[0]) + Size(ts[1..])
  }

  /** The bytes are exactly these tokens, one after the other. */
  ghost predicate Lexes(s: seq<Byte>, ts: seq<Token>)
    decreases |ts|
    ensures Lexes(s, ts) ==> |s| == Size(ts)
  {
    if ts == [] then s == []
    else Len(ts[0]) <= |s| && Holds(s[..Len(ts[0])], ts[0]) && Lexes(s[Len(ts[0])..], ts[1..])
  }

  lemma {:induction false} SizeConcat(ts: seq<Token>, us: seq<Token>)
    ensures Size(ts + us) == Size(ts) + Size(us)
  {
    hide Holds, Len;
    if ts == [] {
      assert ts + us == us;
    } else {
      assert (ts + us)[1..] == ts[1..] + us;
      SizeConcat(ts[1..], us);
    }
  }

  /** Lexing respects concatenation. */
  lemma {:induction false} LexesConcat(s: seq<Byte>, u: seq<Byte>, ts: seq<Token>, us: seq<Token>)
    requires Lexes(s, ts) && Lexes(u, us)
    ensures Lexes(s + u, ts + us)
  {
    hide Holds, Len;
    if ts == [] {
      assert ts + us == us && s + u == u;
    } else {
      var n := Len(ts[0]);
      assert (ts + us)[1..] == ts[1..] + us && (s + u)[n..] == s[n..] + u && (s + u)[..n] == s[..n];
      LexesConcat(s[n..], u, ts[1..], us);
    }
  }

  /** Any split of the tokens splits the bytes. */
  lemma {:induction false} LexesSplit(s: seq<Byte>, ts: seq<Token>, us: seq<Token>)
    requires Lexes(s, ts + us)
    ensures Size(ts) <= |s| && Lexes(s[..Size(ts)], ts) && Lexes(s[Size(ts)..], us)
  {
    hide Holds, Len;
    if ts == [] {
      assert ts + us == us && s[0..] == s;
    } else {
      var n := Len(ts[0]);
      assert (ts + us)[1..] == ts[1..] + us;
      LexesSplit(s[n..], ts[1..], us);
      var m := Size(ts[1..]);
      assert s[n..][..m] == s[..n + m][n..] && s[n..][m..] == s[n + m..] && s[..n + m][..n] == s[..n];
    }
  }

  /** The bytes of three consecutive runs of tokens. */
  lemma LexesSplit3(s: seq<Byte>, ts: seq<Token>, us: seq<Token>, vs: seq<Token>)
    requires Lexes(s, ts + us + vs)
    ensures var a, b := Size(ts), Size(ts) + Size(us);
            b <= |s| && Lexes(s[..a], ts) && Lexes(s[a..b], us) && Lexes(s[b..], vs)
  {
    hide Holds, Len, Lexes, Size;
    var a, b := Size(ts), Size(ts) + Size(us);
    SizeConcat(ts, us);
    LexesSplit(s, ts + us, vs);
    LexesSplit(s[..b], ts, us);
    assert s[..b][..a] == s[..a] && s[..b][a..] == s[a..b];
  }

  lemma LexesOne(b: seq<Byte>, t: Token)
    requires Holds(b, t)
    ensures Lexes(b, [t]) && Size([t]) == Len(t)
  {
    hide Holds, Len;
    assert b[..Len(t)] == b && b[Len(t)..] == [] && [t][1..] == [];
  }

  lemma SizeOne(t: Token)
    ensures Size([t]) == Len(t)
  {
    assert [t][1..] == [];
  }

  lemma LexesFirst(b: seq<Byte>, t: Token)
    requires Lexes(b, [t])
    ensures Holds(b, t) && Size([t]) == Len(t)
  {
    hide Holds, Len;
    assert [t][1..] == [];
    assert b[..Len(t)] == b;
  }

  /** Where token `k` starts. */
  function Off(ts: seq<Token>, k: nat): nat
    requires k <= |ts|
  {
    Size(ts[..k])
  }

  lemma OffStep(ts: seq<Token>, k: nat)
    requires k < |ts|
    ensures Off(ts, k + 1) == Off(ts, k) + Len(ts[k]) <= Size(ts)
  {
    hide Holds, Len, Lexes, Size;
    assert ts[..k + 1] == ts[..k] + [ts[k]];
    SizeConcat(ts[..k], [ts[k]]);
    SizeOne(ts[k]);
    assert ts == ts[..k + 1] + ts[k + 1..];
    SizeConcat(ts[..k + 1], ts[k + 1..]);
  }

  lemma {:induction false} OffMonotone(ts: seq<Token>, j: nat, k: nat)
    requires j <= k <= |ts|
    ensures Off(ts, j) + 4 * (k - j) <= Off(ts, k)
  {
    hide Holds, Len, Lexes, Size;
    if j < k {
      OffMonotone(ts, j, k - 1);
      OffStep(ts, k - 1);
    }
  }

  lemma LenAligned(t: Token)
    ensures Len(t) % 4 == 0
  {
  }

  lemma {:induction false} SizeAligned(ts: seq<Token>)
    ensures Size(ts) % 4 == 0
  {
    hide Len;
    if ts != [] {
      SizeAligned(ts[1..]);
      LenAligned(ts[0]);
    }
  }

  /** Token `k` is what the bytes at its offset hold. */
  lemma TokenAt(s: seq<Byte>, ts: seq<Token>, k: nat)
    requires Lexes(s, ts) && k < |ts|
    ensures Off(ts, k + 1) == Off(ts, k) + Len(ts[k]) <= |s| && Holds(s[Off(ts, k)..Off(ts, k + 1)], ts[k])
  {
    hide Holds, Len, Lexes, Size;
    OffStep(ts, k);
    assert ts == ts[..k] + [ts[k]] + ts[k + 1..];
    LexesSplit3(s, ts[..k], [ts[k]], ts[k + 1..]);
    var a, b := Off(ts, k), Off(ts, k + 1);
    SizeOne(ts[k]);
    LexesFirst(s[a..b], ts[k]);
  }

  /** The bytes determine the tokens. */
  lemma {:induction false} LexesUnique(s: seq<Byte>, ts: seq<Token>, us: seq<Token>)
    requires Lexes(s, ts) && Lexes(s, us)
    ensures ts == us
    decreases |ts|
  {
    hide Holds, Len;
    if ts != [] && us != [] {
      var m, n := Len(ts[0]), Len(us[0]);
      assert s[..m] <= s[..n] || s[..n] <= s[..m] by { if m <= n { assert s[..n][..m] == s[..m]; } else { assert s[..m][..n] == s[..n]; } }
      HoldsUnique(s[..m], s[..n], ts[0], us[0]);
      LexesUnique(s[m..], ts[1..], us[1..]);
      assert ts == [ts[0]] + ts[1..] && us == [us[0]] + us[1..];
    }
  }
}
