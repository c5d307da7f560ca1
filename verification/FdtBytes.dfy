/** Bytes, big-endian words and block moves: what the device-tree library stands on. */
module FdtBytes {
  type Byte = x: int | 0 <= x < 256

  const WORDS: nat := 0x1_0000_0000
  const ADDRESSES: nat := 0x1_0000_0000_0000_0000

  function Word(b: seq<Byte>): (w: nat)
    requires |b| == 4
    ensures w < WORDS
  {
    var b0: int, b1: int, b2: int, b3: int := b[0], b[1], b[2], b[3];
    0x100_0000 * b0 + 0x1_0000 * b1 + 0x100 * b2 + b3
  }

  /** The big-endian bytes of a 32-bit word. */
  function WordBytes(w: nat): (b: seq<Byte>)
    requires w < WORDS
    ensures |b| == 4 && Word(b) == w
  {
    [w / 0x100_0000, w / 0x1_0000 % 0x100, w / 0x100 % 0x100, w % 0x100]
  }

  /** The next multiple of four. */
  function Align4(n: nat): (r: nat)
    ensures r % 4 == 0 && n <= r < n + 4
  {
    (n + 3) / 4 * 4
  }

  lemma Align4Is(n: nat, r: nat)
    requires r % 4 == 0 && n <= r < n + 4
    ensures Align4(n) == r
  {
  }

  /** `len` elements copied from `src` to `dst`, as if through a temporary. */
  function Moved<T>(s: seq<T>, dst: nat, src: nat, len: nat): (r: seq<T>)
    requires dst + len <= |s| && src + len <= |s|
    ensures |r| == |s| && r[dst..dst + len] == s[src..src + len] && r[..dst] == s[..dst] && r[dst + len..] == s[dst + len..]
    ensures forall i | 0 <= i < |s| :: r[i] == if dst <= i < dst + len then s[src + (i - dst)] else s[i]
  {
    s[..dst] + s[src..src + len] + s[dst + len..]
  }

  /** dst - src in unsigned 64-bit arithmetic. */
  function Distance(dst: nat, src: nat): (d: nat)
    requires dst < ADDRESSES && src < ADDRESSES
    ensures d < ADDRESSES && (src <= dst ==> d == dst - src) && (dst < src ==> d == dst + ADDRESSES - src)
  {
    if src <= dst then dst - src else dst + ADDRESSES - src
  }

  /** The forward copy, right when no source byte is overwritten before it is read. */
  method Memcpy(a: array<Byte>, dst: nat, src: nat, len: nat)
    requires dst + len <= a.Length < ADDRESSES && src + len <= a.Length && Distance(dst, src) >= len
    modifies a
    ensures a[..] == Moved(old(a[..]), dst, src, len)
  {
    var i := 0;
    while i < len
      invariant 0 <= i <= len
      invariant forall k | 0 <= k < a.Length :: a[k] == if dst <= k < dst + i then old(a[src + (k - dst)]) else old(a[k])
    {
      a[dst + i] := a[src + i];
      i := i + 1;
    }
    assert a[..] == Moved(old(a[..]), dst, src, len);
  }

  /** The overlapping copy, its direction chosen by one unsigned comparison. */
  method Memmove(a: array<Byte>, dst: nat, src: nat, len: nat)
    requires dst + len <= a.Length < ADDRESSES && src + len <= a.Length
    modifies a
    ensures a[..] == Moved(old(a[..]), dst, src, len)
  {
    if Distance(dst, src) >= len {
      Memcpy(a, dst, src, len);
      return;
    }
    var i := len;
    while i != 0
      invariant 0 <= i <= len
      invariant forall k | 0 <= k < a.Length :: a[k] == if dst + i <= k < dst + len then old(a[src + (k - dst)]) else old(a[k])
    {
      i := i - 1;
      a[dst + i] := a[src + i];
    }
    assert a[..] == Moved(old(a[..]), dst, src, len);
  }
}
