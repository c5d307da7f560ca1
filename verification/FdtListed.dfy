/** Which references an overlay's fix-ups correct: one for each word in the fix-up tree, in the node of the same path,
    in the property of the same name. */
module FdtListed {
  import opened Wrappers
  import opened FdtBytes
  import opened FdtTree
  import opened FdtWalk
  import opened FdtAlike
  import opened FdtPhandle
  import opened FdtFixups
  import FdtPath

  // ----- The words of a fix-up tree

  /** The word at byte `c.off` of entry `c.entry` of the node at `c.path`, relative to the body: it is in a property
      before any child, at a multiple of four. */
  ghost predicate WordIn(body: seq<Piece>, c: Cell) {
    HasCell(body, c) && c.entry < Lead(BodyAt(body, c.path)) && c.off % 4 == 0
  }

  ghost predicate IsUnder(path: seq<nat>, at: seq<nat>) {
    |path| <= |at| && at[..|path|] == path
  }

  /** The same word by its place in the whole tree, for the body of the node at `path`. */
  ghost predicate WordUnder(body: seq<Piece>, path: seq<nat>, s: Cell) {
    IsUnder(path, s.path) && WordIn(body, Cell(s.path[|path|..], s.entry, s.off))
  }

  function ValueWords(path: seq<nat>, i: nat, len: nat, c: nat): seq<Cell>
    decreases len - 4 * c
  {
    if len < 4 * c + 4 then [] else [Cell(path, i, 4 * c)] + ValueWords(path, i, len, c + 1)
  }

  function PropWords(body: seq<Piece>, path: seq<nat>, i: nat): seq<Cell>
    decreases |body| - i
  {
    if i >= Lead(body) then []
    else (if body[i].PropP? then ValueWords(path, i, |body[i].value|, 0) else []) + PropWords(body, path, i + 1)
  }

  function NodeWords(body: seq<Piece>, path: seq<nat>, j: nat): seq<Cell>
    requires j <= |body|
    decreases body, 0, |body| - j
  {
    if j == |body| then []
    else (if body[j].NodeP? then Words(body[j].kids, path + [j]) else []) + NodeWords(body, path, j + 1)
  }

  /** Every word of a tree, node by node. */
  function Words(body: seq<Piece>, path: seq<nat>): seq<Cell>
    decreases body, 1
  {
    PropWords(body, path, 0) + NodeWords(body, path, 0)
  }

  ghost predicate Distinct(ss: seq<Cell>) {
    forall i, j | 0 <= i < j < |ss| :: ss[i] != ss[j]
  }

  lemma DistinctConcat(a: seq<Cell>, b: seq<Cell>)
    requires Distinct(a) && Distinct(b) && forall s | s in a :: s !in b
    ensures Distinct(a + b)
  {
    var c := a + b;
    forall i, j | 0 <= i < j < |c| ensures c[i] != c[j] {
      if i < |a| <= j { assert a[i] in a && b[j - |a|] in b; }
    }
  }

  lemma {:induction false} ValueWordsAre(path: seq<nat>, i: nat, len: nat, c: nat)
    ensures Distinct(ValueWords(path, i, len, c))
    ensures forall s :: s in ValueWords(path, i, len, c) <==> s.path == path && s.entry == i && s.off % 4 == 0 && 4 * c <= s.off && s.off + 4 <= len
    decreases len - 4 * c
  {
    if len >= 4 * c + 4 {
      ValueWordsAre(path, i, len, c + 1);
      DistinctConcat([Cell(path, i, 4 * c)], ValueWords(path, i, len, c + 1));
    }
  }

  /** The word is in one of the node's own properties from entry `i` on. */
  ghost predicate OwnWord(body: seq<Piece>, path: seq<nat>, i: nat, s: Cell) {
    && s.path == path && i <= s.entry < Lead(body) && body[s.entry].PropP?
    && s.off % 4 == 0 && s.off + 4 <= |body[s.entry].value|
  }

  lemma {:induction false} PropWordsAre(body: seq<Piece>, path: seq<nat>, i: nat)
    ensures Distinct(PropWords(body, path, i))
    ensures forall s :: s in PropWords(body, path, i) <==> OwnWord(body, path, i, s)
    decreases |body| - i
  {
    if i < Lead(body) {
      PropWordsAre(body, path, i + 1);
      if body[i].PropP? {
        ValueWordsAre(path, i, |body[i].value|, 0);
        DistinctConcat(ValueWords(path, i, |body[i].value|, 0), PropWords(body, path, i + 1));
      } else {
        assert [] + PropWords(body, path, i + 1) == PropWords(body, path, i + 1);
      }
    }
  }

  /** The word is below one of the children from entry `j` on. */
  ghost predicate ChildWord(body: seq<Piece>, path: seq<nat>, j: nat, s: Cell) {
    && |path| < |s.path| && s.path[..|path|] == path
    && var k := s.path[|path|];
       j <= k < |body| && body[k].NodeP? && WordUnder(body[k].kids, path + [k], s)
  }

  lemma UnderChild(path: seq<nat>, k: nat, at: seq<nat>)
    ensures IsUnder(path + [k], at) <==> |path| < |at| && at[..|path|] == path && at[|path|] == k
    ensures |path| < |at| ==> at[|path|..] == [at[|path|]] + at[|path| + 1..]
  {
    if |path| < |at| { assert at[..|path| + 1] == at[..|path|] + [at[|path|]]; }
  }

  lemma {:induction false} NodeWordsAre(body: seq<Piece>, path: seq<nat>, j: nat)
    requires j <= |body|
    ensures Distinct(NodeWords(body, path, j))
    ensures forall s :: s in NodeWords(body, path, j) <==> ChildWord(body, path, j, s)
    decreases body, 0, |body| - j
  {
    hide WordUnder, Words, IsUnder, ChildWord, Distinct;
    forall s: Cell ensures j < |body| ==> (ChildWord(body, path, j, s) <==> HereWord(body, path, j, s) || ChildWord(body, path, j + 1, s)) { ChildNext(body, path, j, s); }
    if j == |body| {
      NoWords(body, path);
    } else {
      NodeWordsAre(body, path, j + 1);
      var rest := NodeWords(body, path, j + 1);
      if body[j].NodeP? {
        WordsAre(body[j].kids, path + [j]);
        var own := Words(body[j].kids, path + [j]);
        forall s | s in own ensures s !in rest { NotBoth(body, path, j, s); }
        DistinctConcat(own, rest);
      } else {
        assert [] + rest == rest;
      }
    }
  }

  /** The word is below child `j`. */
  ghost predicate HereWord(body: seq<Piece>, path: seq<nat>, j: nat, s: Cell) {
    j < |body| && body[j].NodeP? && WordUnder(body[j].kids, path + [j], s)
  }

  lemma NoWords(body: seq<Piece>, path: seq<nat>)
    ensures Distinct([]) && forall s :: !ChildWord(body, path, |body|, s)
  {
  }

  lemma ChildNext(body: seq<Piece>, path: seq<nat>, j: nat, s: Cell)
    ensures j < |body| ==> (ChildWord(body, path, j, s) <==> HereWord(body, path, j, s) || ChildWord(body, path, j + 1, s))
  {
    if j < |body| { UnderChild(path, j, s.path); }
    hide WordIn;
  }

  lemma NotBoth(body: seq<Piece>, path: seq<nat>, j: nat, s: Cell)
    requires HereWord(body, path, j, s)
    ensures !ChildWord(body, path, j + 1, s)
  {
    UnderChild(path, j, s.path);
    hide WordIn;
  }

  /** A word under a node is in one of its own properties or below one of its children. */
  lemma WordSplits(body: seq<Piece>, path: seq<nat>, s: Cell)
    ensures WordUnder(body, path, s) <==> OwnWord(body, path, 0, s) || ChildWord(body, path, 0, s)
  {
    if IsUnder(path, s.path) {
      var q := s.path[|path|..];
      if q == [] {
        assert s.path == path;
      } else {
        var k := s.path[|path|];
        UnderChild(path, k, s.path);
        assert q[0] == k && q[1..] == s.path[|path| + 1..];
        assert |path + [k]| == |path| + 1;
      }
    }
  }

  /** The list holds every word of the tree, each once, and nothing else. */
  lemma {:induction false} WordsAre(body: seq<Piece>, path: seq<nat>)
    ensures Distinct(Words(body, path))
    ensures forall s :: s in Words(body, path) <==> WordUnder(body, path, s)
    decreases body, 1
  {
    hide WordUnder, PropWords, NodeWords;
    PropWordsAre(body, path, 0);
    NodeWordsAre(body, path, 0);
    DistinctConcat(PropWords(body, path, 0), NodeWords(body, path, 0));
    forall s: Cell ensures WordUnder(body, path, s) <==> OwnWord(body, path, 0, s) || ChildWord(body, path, 0, s) { WordSplits(body, path, s); }
  }

  lemma {:induction false} PropWordsAlike(ks: seq<Piece>, ls: seq<Piece>, path: seq<nat>, i: nat)
    requires Alike(ks, ls)
    ensures PropWords(ks, path, i) == PropWords(ls, path, i)
    decreases |ks| - i
  {
    hide ValueWords;
    AlikeFinds(ks, ls, [], []);
    if i < Lead(ks) {
      AlikeAt(ks, ls, i);
      PropWordsAlike(ks, ls, path, i + 1);
    }
  }

  // ----- Where a word of the fix-up tree points

  /** Going down `q` in the fix-up tree goes down `p` in the target: at each step to the first child whose name
      matches. */
  ghost predicate Matched(target: seq<Piece>, fix: seq<Piece>, q: seq<nat>, p: seq<nat>)
    decreases |q|
  {
    && |p| == |q|
    && (q != [] ==>
          && q[0] < |fix| && fix[q[0]].NodeP? && FirstMatch(target, fix[q[0]].name, p[0])
          && Matched(target[p[0]].kids, fix[q[0]].kids, q[1..], p[1..]))
  }

  /** The property a word of the fix-up tree at `fp` is about: in the node of the same path below `tp`, the first one
      with the name of the property the word is in. */
  ghost predicate About(kids: seq<Piece>, strs: seq<Byte>, tp: seq<nat>, fp: seq<nat>, s: Cell, c: Cell) {
    && Reaches(kids, tp) && Reaches(kids, fp) && IsUnder(fp, s.path) && IsUnder(tp, c.path)
    && Matched(BodyAt(kids, tp), BodyAt(kids, fp), s.path[|fp|..], c.path[|tp|..])
    && Reaches(kids, s.path) && s.entry < |BodyAt(kids, s.path)| && BodyAt(kids, s.path)[s.entry].PropP?
    && Reaches(kids, c.path) && FirstNamed(BodyAt(kids, c.path), strs, NameOf(strs, BodyAt(kids, s.path)[s.entry].nameoff), c.entry)
  }

  /** Reference `k` is where word `k` says, read once the references before it are corrected. */
  ghost predicate TraceAt(kids: seq<Piece>, strs: seq<Byte>, tp: seq<nat>, fp: seq<nat>, delta: nat, s: Cell, c: Cell, before: seq<Cell>) {
    && About(kids, strs, tp, fp, s, c)
    && HasCell(BumpAll(kids, before, delta), s) && c.off == WordAt(BumpAll(kids, before, delta), s)
  }

  ghost predicate Traces(kids: seq<Piece>, strs: seq<Byte>, tp: seq<nat>, fp: seq<nat>, delta: nat, ss: seq<Cell>, cs: seq<Cell>) {
    && |cs| == |ss| && HasCells(kids, cs)
    && forall k | 0 <= k < |cs| :: TraceAt(kids, strs, tp, fp, delta, ss[k], cs[k], cs[..k])
  }

  // ----- Changes of values do not matter to it

  lemma MatchAlike(ks: seq<Piece>, ls: seq<Piece>, name: seq<Byte>, i: nat)
    requires Alike(ks, ls) && FirstMatch(ks, name, i)
    ensures FirstMatch(ls, name, i)
  {
    hide NameEq;
    forall k | 0 <= k <= i ensures AlikeOne(ks[k], ls[k]) { AlikeAt(ks, ls, k); }
  }

  lemma NamedAlike(ks: seq<Piece>, ls: seq<Piece>, strs: seq<Byte>, name: seq<Byte>, i: nat)
    requires Alike(ks, ls) && FirstNamed(ks, strs, name, i)
    ensures FirstNamed(ls, strs, name, i)
  {
    hide NameOf;
    forall k | 0 <= k <= i ensures AlikeOne(ks[k], ls[k]) { AlikeAt(ks, ls, k); }
  }

  lemma {:induction false} MatchedAlike(t: seq<Piece>, t': seq<Piece>, f: seq<Piece>, f': seq<Piece>, q: seq<nat>, p: seq<nat>)
    requires Alike(t, t') && Alike(f, f') && Matched(t, f, q, p)
    ensures Matched(t', f', q, p)
    decreases |q|
  {
    hide FirstMatch;
    if q != [] {
      MatchAlike(t, t', f[q[0]].name, p[0]);
      AlikeAt(f, f', q[0]);
      AlikeAt(t, t', p[0]) by { MatchBound(t, f[q[0]].name, p[0]); }
      MatchBound(t, f[q[0]].name, p[0]);
      MatchedAlike(t[p[0]].kids, t'[p[0]].kids, f[q[0]].kids, f'[q[0]].kids, q[1..], p[1..]);
    }
  }

  lemma MatchBound(kids: seq<Piece>, name: seq<Byte>, i: nat)
    requires FirstMatch(kids, name, i)
    ensures i < |kids| && kids[i].NodeP?
  {
  }

  lemma AboutAlike(ks: seq<Piece>, ls: seq<Piece>, strs: seq<Byte>, tp: seq<nat>, fp: seq<nat>, s: Cell, c: Cell)
    requires Alike(ks, ls) && About(ks, strs, tp, fp, s, c)
    ensures About(ls, strs, tp, fp, s, c)
  {
    hide Alike, Matched, FirstNamed, NameOf, Reaches, BodyAt;
    AlikeReaches(ks, ls, tp);
    AlikeReaches(ks, ls, fp);
    AlikeReaches(ks, ls, s.path);
    AlikeReaches(ks, ls, c.path);
    MatchedAlike(BodyAt(ks, tp), BodyAt(ls, tp), BodyAt(ks, fp), BodyAt(ls, fp), s.path[|fp|..], c.path[|tp|..]);
    AlikeAt(BodyAt(ks, s.path), BodyAt(ls, s.path), s.entry);
    BodyLength(BodyAt(ks, s.path), BodyAt(ls, s.path));
    NamedAlike(BodyAt(ks, c.path), BodyAt(ls, c.path), strs, NameOf(strs, BodyAt(ks, s.path)[s.entry].nameoff), c.entry);
  }

  lemma BodyLength(ks: seq<Piece>, ls: seq<Piece>)
    requires Alike(ks, ls)
    ensures |ls| == |ks|
  {
  }

  // ----- Putting traces together

  lemma TraceNone(kids: seq<Piece>, strs: seq<Byte>, tp: seq<nat>, fp: seq<nat>, delta: nat)
    ensures Traces(kids, strs, tp, fp, delta, [], [])
  {
  }

  /** One trace after another. */
  lemma TraceThen(kids: seq<Piece>, ls: seq<Piece>, strs: seq<Byte>, tp: seq<nat>, fp: seq<nat>, delta: nat,
                  ss: seq<Cell>, cs: seq<Cell>, more: seq<Cell>, es: seq<Cell>)
    requires Traces(kids, strs, tp, fp, delta, ss, cs) && ls == BumpAll(kids, cs, delta) && Traces(ls, strs, tp, fp, delta, more, es)
    ensures Traces(kids, strs, tp, fp, delta, ss + more, cs + es)
  {
    hide HasCells, BumpAll, About, HasCell, WordAt, Alike;
    CellsBack(kids, cs, es, delta);
    BumpAllAlike(kids, cs, delta);
    AlikeSwap(kids, ls);
    var all, words := cs + es, ss + more;
    forall k | 0 <= k < |all| ensures TraceAt(kids, strs, tp, fp, delta, words[k], all[k], all[..k]) {
      if k < |cs| {
        assert all[..k] == cs[..k];
        assert TraceAt(kids, strs, tp, fp, delta, ss[k], cs[k], cs[..k]);
      } else {
        var m := k - |cs|;
        assert TraceAt(ls, strs, tp, fp, delta, more[m], es[m], es[..m]);
        assert all[..k] == cs + es[..m];
        BumpConcat(kids, cs, es[..m], delta);
        AboutAlike(ls, kids, strs, tp, fp, more[m], es[m]);
      }
    }
  }

  lemma {:induction false} BodyBelow(kids: seq<Piece>, path: seq<nat>, q: seq<nat>)
    requires Reaches(kids, path)
    ensures Reaches(kids, path + q) <==> Reaches(BodyAt(kids, path), q)
    ensures Reaches(kids, path + q) ==> BodyAt(kids, path + q) == BodyAt(BodyAt(kids, path), q)
    decreases |path|
  {
    if path == [] {
      assert path + q == q;
    } else {
      assert (path + q)[1..] == path[1..] + q;
      BodyBelow(kids[path[0]].kids, path[1..], q);
    }
  }

  /** What is about a child is about its parent. */
  lemma AboutLift(kids: seq<Piece>, strs: seq<Byte>, tp: seq<nat>, fp: seq<nat>, k: nat, j: nat, s: Cell, c: Cell)
    requires Reaches(kids, tp) && Reaches(kids, fp) && j < |BodyAt(kids, fp)| && BodyAt(kids, fp)[j].NodeP?
    requires FirstMatch(BodyAt(kids, tp), BodyAt(kids, fp)[j].name, k) && About(kids, strs, tp + [k], fp + [j], s, c)
    ensures About(kids, strs, tp, fp, s, c)
  {
    hide FirstNamed, NameOf, Reaches, BodyAt, FirstMatch;
    MatchBound(BodyAt(kids, tp), BodyAt(kids, fp)[j].name, k);
    Below(kids, tp, k);
    Below(kids, fp, j);
    UnderChild(fp, j, s.path);
    UnderChild(tp, k, c.path);
    var q, p := s.path[|fp|..], c.path[|tp|..];
    assert q[0] == j && p[0] == k && q[1..] == s.path[|fp| + 1..] && p[1..] == c.path[|tp| + 1..];
    assert |fp + [j]| == |fp| + 1 && |tp + [k]| == |tp| + 1;
  }

  lemma TraceLift(kids: seq<Piece>, strs: seq<Byte>, tp: seq<nat>, fp: seq<nat>, k: nat, j: nat, delta: nat, ss: seq<Cell>, cs: seq<Cell>)
    requires Reaches(kids, tp) && Reaches(kids, fp) && j < |BodyAt(kids, fp)| && BodyAt(kids, fp)[j].NodeP?
    requires FirstMatch(BodyAt(kids, tp), BodyAt(kids, fp)[j].name, k) && Traces(kids, strs, tp + [k], fp + [j], delta, ss, cs)
    ensures Traces(kids, strs, tp, fp, delta, ss, cs)
  {
    hide HasCells, BumpAll, About, HasCell, WordAt, FirstMatch;
    forall m | 0 <= m < |cs| ensures TraceAt(kids, strs, tp, fp, delta, ss[m], cs[m], cs[..m]) {
      assert TraceAt(kids, strs, tp + [k], fp + [j], delta, ss[m], cs[m], cs[..m]);
      AboutLift(kids, strs, tp, fp, k, j, ss[m], cs[m]);
    }
  }

  // ----- Where the correction stops

  /** The end of the offset, on 32 bits, is past the property, or has wrapped around. */
  ghost predicate BadOffset(len: nat, off: nat, err: int) {
    var end := if off + 4 < WORDS then off + 4 else off + 4 - WORDS;
    if end > len then err == BADOVERLAY else off + 4 >= WORDS && err == WILD
  }

  /** Word `c` of the list is a bad offset for the property of that name. */
  ghost predicate BadWord(t: seq<Piece>, strs: seq<Byte>, name: seq<Byte>, j: nat, list: seq<Byte>, c: nat, err: int) {
    FirstNamed(t, strs, name, j) && 4 * c + 4 <= |list| && BadOffset(|t[j].value|, Word(list[4 * c..4 * c + 4]), err)
  }

  /** Entry `i` of the fix-up node `f` has no counterpart in `t`, is no list of words, or holds a bad offset. */
  ghost predicate Blocked(t: seq<Piece>, f: seq<Piece>, strs: seq<Byte>, i: nat, err: int) {
    && i < |f|
    && (f[i].NodeP? ==> NoMatch(t, f[i].name) && err == BADOVERLAY)
    && (!f[i].NodeP? ==>
          && i < Lead(f) && f[i].PropP?
          && var name := NameOf(strs, f[i].nameoff);
          || (err == BADOVERLAY && (|f[i].value| % 4 != 0 || NoneNamed(t, strs, name)))
          || (exists j: nat, c: nat :: BadWord(t, strs, name, j, f[i].value, c, err)))
  }

  /** After the references of the first words the walk stops at entry `i` of the fix-up node `q`. */
  ghost predicate Halts(kids: seq<Piece>, strs: seq<Byte>, tp: seq<nat>, fp: seq<nat>, delta: nat, words: seq<Cell>,
                        cs: seq<Cell>, q: seq<nat>, p: seq<nat>, i: nat, err: int) {
    && |cs| <= |words| && Traces(kids, strs, tp, fp, delta, words[..|cs|], cs)
    && Reaches(kids, tp) && Reaches(kids, fp) && Matched(BodyAt(kids, tp), BodyAt(kids, fp), q, p)
    && var now := BumpAll(kids, cs, delta);
    Reaches(now, tp + p) && Reaches(now, fp + q) && Blocked(BodyAt(now, tp + p), BodyAt(now, fp + q), strs, i, err)
  }

  lemma HaltMore(kids: seq<Piece>, strs: seq<Byte>, tp: seq<nat>, fp: seq<nat>, delta: nat, words: seq<Cell>, more: seq<Cell>,
                 cs: seq<Cell>, q: seq<nat>, p: seq<nat>, i: nat, err: int)
    requires Halts(kids, strs, tp, fp, delta, words, cs, q, p, i, err)
    ensures Halts(kids, strs, tp, fp, delta, words + more, cs, q, p, i, err)
  {
    assert (words + more)[..|cs|] == words[..|cs|];
    hide Traces, Matched, Blocked, BumpAll;
  }

  lemma HaltThen(kids: seq<Piece>, ls: seq<Piece>, strs: seq<Byte>, tp: seq<nat>, fp: seq<nat>, delta: nat, ss: seq<Cell>, cs: seq<Cell>,
                 words: seq<Cell>, es: seq<Cell>, q: seq<nat>, p: seq<nat>, i: nat, err: int)
    requires Traces(kids, strs, tp, fp, delta, ss, cs) && ls == BumpAll(kids, cs, delta) && Reaches(kids, tp) && Reaches(kids, fp)
    requires Halts(ls, strs, tp, fp, delta, words, es, q, p, i, err)
    ensures Halts(kids, strs, tp, fp, delta, ss + words, cs + es, q, p, i, err)
  {
    TraceThen(kids, ls, strs, tp, fp, delta, ss, cs, words[..|es|], es);
    assert |cs| == |ss| && HasCells(kids, cs);
    assert (ss + words)[..|cs + es|] == ss + words[..|es|];
    hide Traces, Matched, Blocked, BumpAll, HasCells, Reaches, BodyAt, Alike;
    BumpConcat(kids, cs, es, delta);
    BumpAllAlike(kids, cs, delta);
    AlikeSwap(kids, ls);
    AlikeReaches(ls, kids, tp);
    AlikeReaches(ls, kids, fp);
    MatchedAlike(BodyAt(ls, tp), BodyAt(kids, tp), BodyAt(ls, fp), BodyAt(kids, fp), q, p);
  }

  lemma HaltLift(kids: seq<Piece>, strs: seq<Byte>, tp: seq<nat>, fp: seq<nat>, k: nat, j: nat, delta: nat, words: seq<Cell>,
                 cs: seq<Cell>, q: seq<nat>, p: seq<nat>, i: nat, err: int)
    requires Reaches(kids, tp) && Reaches(kids, fp) && j < |BodyAt(kids, fp)| && BodyAt(kids, fp)[j].NodeP?
    requires FirstMatch(BodyAt(kids, tp), BodyAt(kids, fp)[j].name, k) && Halts(kids, strs, tp + [k], fp + [j], delta, words, cs, q, p, i, err)
    ensures Halts(kids, strs, tp, fp, delta, words, cs, [j] + q, [k] + p, i, err)
  {
    TraceLift(kids, strs, tp, fp, k, j, delta, words[..|cs|], cs);
    hide Traces, Blocked, BumpAll, Reaches, BodyAt, FirstMatch, Matched;
    MatchedLift(kids, tp, fp, k, j, q, p);
    Regroup(tp, k, p);
    Regroup(fp, j, q);
  }

  lemma Regroup(a: seq<nat>, k: nat, b: seq<nat>)
    ensures a + ([k] + b) == a + [k] + b
  {
  }

  lemma MatchedLift(kids: seq<Piece>, tp: seq<nat>, fp: seq<nat>, k: nat, j: nat, q: seq<nat>, p: seq<nat>)
    requires Reaches(kids, tp) && Reaches(kids, fp) && j < |BodyAt(kids, fp)| && BodyAt(kids, fp)[j].NodeP?
    requires FirstMatch(BodyAt(kids, tp), BodyAt(kids, fp)[j].name, k) && Reaches(kids, tp + [k]) && Reaches(kids, fp + [j])
    requires Matched(BodyAt(kids, tp + [k]), BodyAt(kids, fp + [j]), q, p)
    ensures Matched(BodyAt(kids, tp), BodyAt(kids, fp), [j] + q, [k] + p)
  {
    hide Reaches, BodyAt, FirstMatch;
    MatchBound(BodyAt(kids, tp), BodyAt(kids, fp)[j].name, k);
    Below(kids, tp, k);
    Below(kids, fp, j);
    assert ([j] + q)[1..] == q && ([k] + p)[1..] == p;
  }

  /** Stopping right here. */
  lemma HaltHere(kids: seq<Piece>, strs: seq<Byte>, tp: seq<nat>, fp: seq<nat>, delta: nat, words: seq<Cell>, i: nat, err: int)
    requires Reaches(kids, tp) && Reaches(kids, fp) && Blocked(BodyAt(kids, tp), BodyAt(kids, fp), strs, i, err)
    ensures Halts(kids, strs, tp, fp, delta, words, [], [], [], i, err)
  {
    TraceNone(kids, strs, tp, fp, delta);
    assert words[..0] == [] && tp + [] == tp && fp + [] == fp;
    hide Traces, Blocked, Reaches, BodyAt;
  }

  // ----- One property

  /** What the walk needs to read entry `i` of the fix-up node for entry `j` of the target. */
  ghost predicate Facing(kids: seq<Piece>, strs: seq<Byte>, tp: seq<nat>, j: nat, fp: seq<nat>, i: nat) {
    && Reaches(kids, tp) && Reaches(kids, fp) && i < Lead(BodyAt(kids, fp)) && BodyAt(kids, fp)[i].PropP?
    && FirstNamed(BodyAt(kids, tp), strs, NameOf(strs, BodyAt(kids, fp)[i].nameoff), j)
  }

  lemma FacingAlike(ks: seq<Piece>, ls: seq<Piece>, strs: seq<Byte>, tp: seq<nat>, j: nat, fp: seq<nat>, i: nat)
    requires Alike(ks, ls) && Facing(ks, strs, tp, j, fp, i)
    ensures Facing(ls, strs, tp, j, fp, i) && |BodyAt(ls, fp)[i].value| == |BodyAt(ks, fp)[i].value|
  {
    hide FirstNamed, NameOf, Reaches, BodyAt;
    AlikeReaches(ks, ls, tp);
    AlikeReaches(ks, ls, fp);
    AlikeFinds(BodyAt(ks, fp), BodyAt(ls, fp), [], []);
    AlikeAt(BodyAt(ks, fp), BodyAt(ls, fp), i);
    NamedAlike(BodyAt(ks, tp), BodyAt(ls, tp), strs, NameOf(strs, BodyAt(ks, fp)[i].nameoff), j);
  }

  /** One word. */
  lemma TraceWord(kids: seq<Piece>, strs: seq<Byte>, tp: seq<nat>, j: nat, fp: seq<nat>, i: nat, c: nat, delta: nat, off: nat)
    requires Facing(kids, strs, tp, j, fp, i) && 4 * c + 4 <= |BodyAt(kids, fp)[i].value|
    requires off == Word(BodyAt(kids, fp)[i].value[4 * c..4 * c + 4]) && HasCell(kids, Cell(tp, j, off))
    ensures Traces(kids, strs, tp, fp, delta, [Cell(fp, i, 4 * c)], [Cell(tp, j, off)])
  {
    hide FirstNamed, NameOf, Reaches, BodyAt, Word;
    var s, e := Cell(fp, i, 4 * c), Cell(tp, j, off);
    assert s.path[|fp|..] == [] && e.path[|tp|..] == [] && s.path[..|fp|] == fp && e.path[..|tp|] == tp;
    assert [e][..0] == [];
    BumpNone(kids, delta);
    assert TraceAt(kids, strs, tp, fp, delta, s, e, []);
  }

  lemma {:induction false} CellsTrace(kids: seq<Piece>, strs: seq<Byte>, tp: seq<nat>, j: nat, fp: seq<nat>, i: nat, c: nat, delta: nat) returns (cs: seq<Cell>)
    requires Facing(kids, strs, tp, j, fp, i)
    ensures var r, words := FixCells(kids, tp, j, fp, i, c, delta), ValueWords(fp, i, |BodyAt(kids, fp)[i].value|, c);
            if r.Done? then cs == r.value && Traces(kids, strs, tp, fp, delta, words, cs) else Halts(kids, strs, tp, fp, delta, words, cs, [], [], i, r.err)
    decreases |BodyAt(kids, fp)[i].value| - 4 * c
  {
    hide NameOf, Halts, Traces, Reaches, BodyAt, Blocked, Word;
    var f := BodyAt(kids, fp)[i].value;
    var words := ValueWords(fp, i, |f|, c);
    if |f| < 4 * c + 4 {
      cs := [];
      TraceNone(kids, strs, tp, fp, delta);
    } else {
      var off := Word(f[4 * c..4 * c + 4]);
      var e := Cell(tp, j, off);
      CellsStep(kids, tp, j, fp, i, c, delta, off);
      if Verdict(|BodyAt(kids, tp)[j].value|, off) != 0 {
        cs := [];
        OffsetBlocks(kids, strs, tp, j, fp, i, c);
        HaltHere(kids, strs, tp, fp, delta, words, i, Verdict(|BodyAt(kids, tp)[j].value|, off));
      } else {
        hide FixCells, Facing, HasCell, BumpAll;
        var ls := BumpAll(kids, [e], delta);
        TraceWord(kids, strs, tp, j, fp, i, c, delta, off);
        BumpAllAlike(kids, [e], delta);
        FacingAlike(kids, ls, strs, tp, j, fp, i);
        var es := CellsTrace(ls, strs, tp, j, fp, i, c + 1, delta);
        cs := [e] + es;
        var rest := ValueWords(fp, i, |f|, c + 1);
        if FixCells(ls, tp, j, fp, i, c + 1, delta).Done? {
          TraceThen(kids, ls, strs, tp, fp, delta, [Cell(fp, i, 4 * c)], [e], rest, es);
        } else {
          FacingParts(kids, strs, tp, j, fp, i);
          HaltThen(kids, ls, strs, tp, fp, delta, [Cell(fp, i, 4 * c)], [e], rest, es, [], [], i, FixCells(ls, tp, j, fp, i, c + 1, delta).err);
        }
      }
    }
  }

  lemma FacingParts(kids: seq<Piece>, strs: seq<Byte>, tp: seq<nat>, j: nat, fp: seq<nat>, i: nat)
    requires Facing(kids, strs, tp, j, fp, i)
    ensures Reaches(kids, tp) && Reaches(kids, fp)
  {
  }

  lemma OffsetBlocks(kids: seq<Piece>, strs: seq<Byte>, tp: seq<nat>, j: nat, fp: seq<nat>, i: nat, c: nat)
    requires Facing(kids, strs, tp, j, fp, i) && 4 * c + 4 <= |BodyAt(kids, fp)[i].value|
    requires Verdict(|BodyAt(kids, tp)[j].value|, Word(BodyAt(kids, fp)[i].value[4 * c..4 * c + 4])) != 0
    ensures Blocked(BodyAt(kids, tp), BodyAt(kids, fp), strs, i, Verdict(|BodyAt(kids, tp)[j].value|, Word(BodyAt(kids, fp)[i].value[4 * c..4 * c + 4])))
  {
    hide NameOf, Reaches, BodyAt, NoneNamed;
    var t, f := BodyAt(kids, tp), BodyAt(kids, fp);
    var off := Word(f[i].value[4 * c..4 * c + 4]);
    OffsetBad(|t[j].value|, off);
    hide Verdict, Word, BadOffset;
    assert BadWord(t, strs, NameOf(strs, f[i].nameoff), j, f[i].value, c, Verdict(|t[j].value|, off));
  }

  lemma OffsetBad(len: nat, off: nat)
    requires off < WORDS
    ensures Verdict(len, off) != 0 ==> BadOffset(len, off, Verdict(len, off))
  {
  }

  // ----- The whole tree

  /** Every property of the fix-up tree is a list of words about a property of the target, and every node of it has one
      of the same name in the target. */
  ghost predicate Answered(t: seq<Piece>, f: seq<Piece>, strs: seq<Byte>)
    decreases f, 1
  {
    PropsAnswered(t, f, strs, 0) && NodesAnswered(t, f, strs, 0)
  }

  ghost predicate PropAnswered(t: seq<Piece>, p: Piece, strs: seq<Byte>) {
    p.PropP? ==> |p.value| % 4 == 0 && exists j: nat :: FirstNamed(t, strs, NameOf(strs, p.nameoff), j)
  }

  ghost predicate PropsAnswered(t: seq<Piece>, f: seq<Piece>, strs: seq<Byte>, i: nat) {
    forall k | i <= k < Lead(f) :: PropAnswered(t, f[k], strs)
  }

  ghost predicate NodeAnswered(t: seq<Piece>, p: Piece, strs: seq<Byte>)
    decreases p, 2
  {
    p.NodeP? ==> exists k: nat :: FirstMatch(t, p.name, k) && Answered(t[k].kids, p.kids, strs)
  }

  ghost predicate NodesAnswered(t: seq<Piece>, f: seq<Piece>, strs: seq<Byte>, j: nat)
    decreases f, 0
  {
    forall k | j <= k < |f| :: NodeAnswered(t, f[k], strs)
  }

  lemma PropAnsweredAlike(t: seq<Piece>, t': seq<Piece>, p: Piece, p': Piece, strs: seq<Byte>)
    requires Alike(t, t') && AlikeOne(p, p') && PropAnswered(t, p, strs)
    ensures PropAnswered(t', p', strs)
  {
    hide FirstNamed, NameOf;
    if p.PropP? {
      var j: nat :| FirstNamed(t, strs, NameOf(strs, p.nameoff), j);
      NamedAlike(t, t', strs, NameOf(strs, p.nameoff), j);
    }
  }

  lemma PropsAnsweredAlike(t: seq<Piece>, t': seq<Piece>, f: seq<Piece>, f': seq<Piece>, strs: seq<Byte>, i: nat)
    requires Alike(t, t') && Alike(f, f') && PropsAnswered(t, f, strs, i)
    ensures PropsAnswered(t', f', strs, i)
  {
    hide PropAnswered;
    AlikeFinds(f, f', [], []);
    forall k | i <= k < Lead(f') ensures PropAnswered(t', f'[k], strs) {
      AlikeAt(f, f', k);
      PropAnsweredAlike(t, t', f[k], f'[k], strs);
    }
  }

  lemma {:induction false} NodeAnsweredAlike(t: seq<Piece>, t': seq<Piece>, p: Piece, p': Piece, strs: seq<Byte>)
    requires Alike(t, t') && AlikeOne(p, p') && NodeAnswered(t, p, strs)
    ensures NodeAnswered(t', p', strs)
    decreases p, 2
  {
    hide NameEq;
    if p.NodeP? {
      var k: nat :| FirstMatch(t, p.name, k) && Answered(t[k].kids, p.kids, strs);
      MatchBound(t, p.name, k);
      MatchAlike(t, t', p.name, k);
      AlikeAt(t, t', k);
      AnsweredAlike(t[k].kids, t'[k].kids, p.kids, p'.kids, strs);
    }
  }

  lemma {:induction false} NodesAnsweredAlike(t: seq<Piece>, t': seq<Piece>, f: seq<Piece>, f': seq<Piece>, strs: seq<Byte>, j: nat)
    requires Alike(t, t') && Alike(f, f') && NodesAnswered(t, f, strs, j)
    ensures NodesAnswered(t', f', strs, j)
    decreases f, 0
  {
    hide NodeAnswered;
    forall k | j <= k < |f'| ensures NodeAnswered(t', f'[k], strs) {
      AlikeAt(f, f', k);
      NodeAnsweredAlike(t, t', f[k], f'[k], strs);
    }
  }

  lemma {:induction false} AnsweredAlike(t: seq<Piece>, t': seq<Piece>, f: seq<Piece>, f': seq<Piece>, strs: seq<Byte>)
    requires Alike(t, t') && Alike(f, f') && Answered(t, f, strs)
    ensures Answered(t', f', strs)
    decreases f, 1
  {
    hide PropsAnswered, NodesAnswered;
    PropsAnsweredAlike(t, t', f, f', strs, 0);
    NodesAnsweredAlike(t, t', f, f', strs, 0);
  }

  /** One fix-up property: its references and that it is answered, or where it stops. */
  lemma OneTrace(kids: seq<Piece>, strs: seq<Byte>, tp: seq<nat>, fp: seq<nat>, i: nat, delta: nat) returns (cs: seq<Cell>)
    requires Reaches(kids, tp) && Reaches(kids, fp) && i < Lead(BodyAt(kids, fp)) && BodyAt(kids, fp)[i].PropP?
    ensures var r, words := FixOne(kids, strs, tp, fp, i, delta), ValueWords(fp, i, |BodyAt(kids, fp)[i].value|, 0);
            if r.Done? then cs == r.value && Traces(kids, strs, tp, fp, delta, words, cs) && PropAnswered(BodyAt(kids, tp), BodyAt(kids, fp)[i], strs)
            else Halts(kids, strs, tp, fp, delta, words, cs, [], [], i, r.err)
  {
    hide Reaches, BodyAt, FindProp, NameOf, FirstNamed, NoneNamed, Traces, Halts, FixCells, ValueWords;
    var f, t := BodyAt(kids, fp)[i], BodyAt(kids, tp);
    var name := NameOf(strs, f.nameoff);
    FindPropIs(t, strs, name);
    var j := FindProp(t, strs, name);
    if |f.value| % 4 != 0 || j.None? {
      cs := [];
      HaltHere(kids, strs, tp, fp, delta, ValueWords(fp, i, |f.value|, 0), i, BADOVERLAY);
    } else {
      cs := CellsTrace(kids, strs, tp, j.value, fp, i, 0, delta);
    }
  }

  lemma {:induction false} PropsTrace(kids: seq<Piece>, strs: seq<Byte>, tp: seq<nat>, fp: seq<nat>, i: nat, delta: nat) returns (cs: seq<Cell>, at: nat)
    requires Reaches(kids, tp) && Reaches(kids, fp)
    ensures var r, words := FixProps(kids, strs, tp, fp, i, delta), PropWords(BodyAt(kids, fp), fp, i);
            if r.Done? then cs == r.value && Traces(kids, strs, tp, fp, delta, words, cs) && PropsAnswered(BodyAt(kids, tp), BodyAt(kids, fp), strs, i)
            else Halts(kids, strs, tp, fp, delta, words, cs, [], [], at, r.err)
    decreases |BodyAt(kids, fp)| - i
  {
    hide Reaches, BodyAt, Traces, Halts, FixOne, ValueWords, BumpAll, PropAnswered, PropsAnswered, PropWords, Alike;
    var f, t := BodyAt(kids, fp), BodyAt(kids, tp);
    at := i;
    PropWordsStep(f, fp, i);
    AnsweredStep(t, f, strs, i);
    if i >= Lead(f) {
      cs := [];
      TraceNone(kids, strs, tp, fp, delta);
    } else if f[i].NopP? {
      cs, at := PropsTrace(kids, strs, tp, fp, i + 1, delta);
      NopAnswered(t, strs);
    } else {
      PropsStep(kids, strs, tp, fp, i, delta);
      hide FixProps;
      var one := OneTrace(kids, strs, tp, fp, i, delta);
      var words, rest := ValueWords(fp, i, |f[i].value|, 0), PropWords(f, fp, i + 1);
      if FixOne(kids, strs, tp, fp, i, delta).Fail? {
        cs := one;
        HaltMore(kids, strs, tp, fp, delta, words, rest, cs, [], [], i, FixOne(kids, strs, tp, fp, i, delta).err);
      } else {
        var ls := BumpAll(kids, one, delta);
        BumpAllKeeps(kids, one, delta, tp);
        BumpAllKeeps(kids, one, delta, fp);
        PropWordsAlike(f, BodyAt(ls, fp), fp, i + 1);
        var es;
        es, at := PropsTrace(ls, strs, tp, fp, i + 1, delta);
        cs := one + es;
        var r := FixProps(ls, strs, tp, fp, i + 1, delta);
        if r.Done? {
          TraceThen(kids, ls, strs, tp, fp, delta, words, one, rest, es);
          AlikeSwap(t, BodyAt(ls, tp));
          AlikeSwap(f, BodyAt(ls, fp));
          PropsAnsweredAlike(BodyAt(ls, tp), t, BodyAt(ls, fp), f, strs, i + 1);
        } else {
          HaltThen(kids, ls, strs, tp, fp, delta, words, one, rest, es, [], [], at, r.err);
        }
      }
    }
  }

  lemma PropWordsStep(body: seq<Piece>, path: seq<nat>, i: nat)
    ensures i >= Lead(body) ==> PropWords(body, path, i) == []
    ensures i < Lead(body) && body[i].NopP? ==> PropWords(body, path, i) == PropWords(body, path, i + 1)
    ensures i < Lead(body) && body[i].PropP? ==> PropWords(body, path, i) == ValueWords(path, i, |body[i].value|, 0) + PropWords(body, path, i + 1)
  {
    assert [] + PropWords(body, path, i + 1) == PropWords(body, path, i + 1);
  }

  lemma AnsweredStep(t: seq<Piece>, f: seq<Piece>, strs: seq<Byte>, i: nat)
    ensures i >= Lead(f) ==> PropsAnswered(t, f, strs, i)
    ensures i < Lead(f) && PropAnswered(t, f[i], strs) && PropsAnswered(t, f, strs, i + 1) ==> PropsAnswered(t, f, strs, i)
  {
    hide PropAnswered;
  }

  lemma NopAnswered(t: seq<Piece>, strs: seq<Byte>)
    ensures PropAnswered(t, NopP, strs)
  {
  }

  /** One child of a fix-up node. */
  lemma {:induction false} UnderTrace(kids: seq<Piece>, strs: seq<Byte>, tp: seq<nat>, fp: seq<nat>, gs: seq<Piece>, j: nat, delta: nat)
    returns (cs: seq<Cell>, q: seq<nat>, p: seq<nat>, at: nat)
    requires Reaches(kids, tp) && Reaches(kids, fp) && Alike(gs, BodyAt(kids, fp)) && j < |gs| && gs[j].NodeP?
    ensures var r, words := FixUnder(kids, strs, tp, fp, gs, j, delta), Words(gs[j].kids, fp + [j]);
            if r.Done? then cs == r.value && Traces(kids, strs, tp, fp, delta, words, cs) && NodeAnswered(BodyAt(kids, tp), gs[j], strs)
            else Halts(kids, strs, tp, fp, delta, words, cs, q, p, at, r.err)
    decreases gs, 2
  {
    hide Reaches, BodyAt, Traces, Halts, FirstChild, FirstMatch, NoMatch, Words, Fix, Answered, Alike;
    var t, f := BodyAt(kids, tp), BodyAt(kids, fp);
    AlikeAt(gs, f, j);
    BodyLength(gs, f);
    FirstChildIs(t, gs[j].name);
    var k := FirstChild(t, gs[j].name);
    cs, q, p, at := [], [], [], j;
    if k.None? {
      HaltHere(kids, strs, tp, fp, delta, Words(gs[j].kids, fp + [j]), j, BADOVERLAY);
    } else {
      Below(kids, tp, k.value);
      Below(kids, fp, j);
      cs, q, p, at := FixTrace(kids, strs, tp + [k.value], fp + [j], gs[j].kids, delta);
      var r := Fix(kids, strs, tp + [k.value], fp + [j], gs[j].kids, delta);
      if r.Done? {
        TraceLift(kids, strs, tp, fp, k.value, j, delta, Words(gs[j].kids, fp + [j]), cs);
      } else {
        HaltLift(kids, strs, tp, fp, k.value, j, delta, Words(gs[j].kids, fp + [j]), cs, q, p, at, r.err);
        q, p := [j] + q, [k.value] + p;
      }
    }
  }

  lemma {:induction false} NodesTrace(kids: seq<Piece>, strs: seq<Byte>, tp: seq<nat>, fp: seq<nat>, gs: seq<Piece>, j: nat, delta: nat)
    returns (cs: seq<Cell>, q: seq<nat>, p: seq<nat>, at: nat)
    requires Reaches(kids, tp) && Reaches(kids, fp) && Alike(gs, BodyAt(kids, fp)) && j <= |gs|
    ensures var r, words := FixNodes(kids, strs, tp, fp, gs, j, delta), NodeWords(gs, fp, j);
            if r.Done? then cs == r.value && Traces(kids, strs, tp, fp, delta, words, cs) && NodesAnswered(BodyAt(kids, tp), gs, strs, j)
            else Halts(kids, strs, tp, fp, delta, words, cs, q, p, at, r.err)
    decreases gs, 3, |gs| - j
  {
    hide Reaches, BodyAt, Traces, Halts, Words, FixUnder, BumpAll, NodeAnswered, Alike, FirstChild, Fix;
    cs, q, p, at := [], [], [], j;
    if j == |gs| {
      TraceNone(kids, strs, tp, fp, delta);
    } else if !gs[j].NodeP? {
      cs, q, p, at := NodesTrace(kids, strs, tp, fp, gs, j + 1, delta);
      assert [] + NodeWords(gs, fp, j + 1) == NodeWords(gs, fp, j + 1);
      NotNode(BodyAt(kids, tp), gs[j], strs);
    } else {
      NodesStep(kids, strs, tp, fp, gs, j, delta);
      var one;
      one, q, p, at := UnderTrace(kids, strs, tp, fp, gs, j, delta);
      var words, rest := Words(gs[j].kids, fp + [j]), NodeWords(gs, fp, j + 1);
      hide FixNodes;
      if FixUnder(kids, strs, tp, fp, gs, j, delta).Fail? {
        cs := one;
        HaltMore(kids, strs, tp, fp, delta, words, rest, cs, q, p, at, FixUnder(kids, strs, tp, fp, gs, j, delta).err);
      } else {
        var ls := BumpAll(kids, one, delta);
        BumpAllKeeps(kids, one, delta, tp);
        var es;
        es, q, p, at := NodesTrace(ls, strs, tp, fp, gs, j + 1, delta);
        cs := one + es;
        var r := FixNodes(ls, strs, tp, fp, gs, j + 1, delta);
        if r.Done? {
          TraceThen(kids, ls, strs, tp, fp, delta, words, one, rest, es);
          AlikeSwap(BodyAt(kids, tp), BodyAt(ls, tp));
          AlikeSelf(gs);
          NodesAnsweredAlike(BodyAt(ls, tp), BodyAt(kids, tp), gs, gs, strs, j + 1);
        } else {
          HaltThen(kids, ls, strs, tp, fp, delta, words, one, rest, es, q, p, at, r.err);
        }
      }
    }
  }

  lemma NotNode(t: seq<Piece>, p: Piece, strs: seq<Byte>)
    requires !p.NodeP?
    ensures NodeAnswered(t, p, strs)
  {
  }

  /** What the walk over a fix-up tree corrects: the references of all its words in turn; or those of its first words,
      up to the entry that stops it. */
  lemma {:induction false} FixTrace(kids: seq<Piece>, strs: seq<Byte>, tp: seq<nat>, fp: seq<nat>, gs: seq<Piece>, delta: nat)
    returns (cs: seq<Cell>, q: seq<nat>, p: seq<nat>, at: nat)
    requires Reaches(kids, tp) && Reaches(kids, fp) && Alike(gs, BodyAt(kids, fp))
    ensures var r, words := Fix(kids, strs, tp, fp, gs, delta), Words(gs, fp);
            if r.Done? then cs == r.value && Traces(kids, strs, tp, fp, delta, words, cs) && Answered(BodyAt(kids, tp), gs, strs)
            else Halts(kids, strs, tp, fp, delta, words, cs, q, p, at, r.err)
    decreases gs, 4
  {
    hide Reaches, BodyAt, Traces, Halts, PropWords, NodeWords, FixProps, FixNodes, BumpAll, PropsAnswered, NodesAnswered, Alike;
    var f := BodyAt(kids, fp);
    AlikeSwap(gs, f);
    PropWordsAlike(f, gs, fp, 0);
    var words, rest := PropWords(gs, fp, 0), NodeWords(gs, fp, 0);
    q, p := [], [];
    var one;
    one, at := PropsTrace(kids, strs, tp, fp, 0, delta);
    var r := FixProps(kids, strs, tp, fp, 0, delta);
    if r.Fail? {
      cs := one;
      HaltMore(kids, strs, tp, fp, delta, words, rest, cs, [], [], at, r.err);
    } else {
      AlikeSelf(BodyAt(kids, tp));
      PropsAnsweredAlike(BodyAt(kids, tp), BodyAt(kids, tp), f, gs, strs, 0);
      var ls := BumpAll(kids, one, delta);
      BumpAllKeeps(kids, one, delta, tp);
      BumpAllKeeps(kids, one, delta, fp);
      AlikeTrans(gs, f, BodyAt(ls, fp));
      var es;
      es, q, p, at := NodesTrace(ls, strs, tp, fp, gs, 0, delta);
      cs := one + es;
      var more := FixNodes(ls, strs, tp, fp, gs, 0, delta);
      if more.Done? {
        TraceThen(kids, ls, strs, tp, fp, delta, words, one, rest, es);
        AlikeSwap(BodyAt(kids, tp), BodyAt(ls, tp));
        AlikeSelf(gs);
        NodesAnsweredAlike(BodyAt(ls, tp), BodyAt(kids, tp), gs, gs, strs, 0);
      } else {
        HaltThen(kids, ls, strs, tp, fp, delta, words, one, rest, es, q, p, at, more.err);
      }
    }
  }

  // ----- What becomes of an overlay

  lemma {:induction false} MatchedUnique(t: seq<Piece>, f: seq<Piece>, q: seq<nat>, p: seq<nat>, r: seq<nat>)
    requires Matched(t, f, q, p) && Matched(t, f, q, r)
    ensures p == r
    decreases |q|
  {
    hide NameEq;
    if q != [] {
      assert p[0] == r[0];
      MatchedUnique(t[p[0]].kids, f[q[0]].kids, q[1..], p[1..], r[1..]);
      assert p == [p[0]] + p[1..] && r == [r[0]] + r[1..];
    }
  }

  /** A word is about one property only. */
  lemma AboutUnique(kids: seq<Piece>, strs: seq<Byte>, tp: seq<nat>, fp: seq<nat>, s: Cell, c: Cell, e: Cell)
    requires About(kids, strs, tp, fp, s, c) && About(kids, strs, tp, fp, s, e)
    ensures c.path == e.path && c.entry == e.entry
  {
    hide NameOf, Reaches, BodyAt, Matched;
    MatchedUnique(BodyAt(kids, tp), BodyAt(kids, fp), s.path[|fp|..], c.path[|tp|..], e.path[|tp|..]);
    assert c.path == tp + c.path[|tp|..] && e.path == tp + e.path[|tp|..];
  }

  /** Word `s` of the fix-up tree names the reference at `c`. */
  ghost predicate PointsTo(kids: seq<Piece>, strs: seq<Byte>, tp: seq<nat>, fp: seq<nat>, s: Cell, c: Cell) {
    About(kids, strs, tp, fp, s, c) && HasCell(kids, s) && c.off == WordAt(kids, s)
  }

  /** `s` is a word of the fix-up tree at `fp`. */
  ghost predicate FixupWord(kids: seq<Piece>, fp: seq<nat>, s: Cell) {
    Reaches(kids, fp) && WordUnder(BodyAt(kids, fp), fp, s)
  }

  /** No reference is itself a word of the fix-up tree. */
  ghost predicate Inert(kids: seq<Piece>, strs: seq<Byte>, tp: seq<nat>, fp: seq<nat>) {
    forall s, c, w | FixupWord(kids, fp, s) && PointsTo(kids, strs, tp, fp, s, c) && FixupWord(kids, fp, w) :: !Overlaps(c, w)
  }

  /** The references corrected, word by word: all the words of the fix-up tree, each once, in some order. */
  ghost predicate Corrected(kids: seq<Piece>, strs: seq<Byte>, tp: seq<nat>, fp: seq<nat>, delta: nat, ss: seq<Cell>, cs: seq<Cell>) {
    && Distinct(ss) && (forall s :: s in ss <==> FixupWord(kids, fp, s)) && Traces(kids, strs, tp, fp, delta, ss, cs)
  }

  lemma FixCorrects(kids: seq<Piece>, strs: seq<Byte>, tp: seq<nat>, fp: seq<nat>, delta: nat) returns (ss: seq<Cell>)
    requires Reaches(kids, tp) && Reaches(kids, fp) && Alike(BodyAt(kids, fp), BodyAt(kids, fp))
    requires Fix(kids, strs, tp, fp, BodyAt(kids, fp), delta).Done?
    ensures Corrected(kids, strs, tp, fp, delta, ss, Fix(kids, strs, tp, fp, BodyAt(kids, fp), delta).value)
    ensures Answered(BodyAt(kids, tp), BodyAt(kids, fp), strs)
  {
    hide Reaches, BodyAt, Traces, Fix, Answered, Words, WordUnder;
    var f := BodyAt(kids, fp);
    ss := Words(f, fp);
    WordsAre(f, fp);
    var cs, q, p, at := FixTrace(kids, strs, tp, fp, f, delta);
  }

  /** With an inert fix-up tree, each reference is the one its word names in the tree as it was. */
  lemma {:induction false} InertPoints(kids: seq<Piece>, strs: seq<Byte>, tp: seq<nat>, fp: seq<nat>, delta: nat, ss: seq<Cell>, cs: seq<Cell>, k: nat)
    requires Corrected(kids, strs, tp, fp, delta, ss, cs) && Inert(kids, strs, tp, fp) && k < |cs|
    ensures PointsTo(kids, strs, tp, fp, ss[k], cs[k])
  {
    var before := cs[..k];
    assert ss[k] in ss;
    forall m | 0 <= m < k ensures !Overlaps(before[m], ss[k]) {
      InertPoints(kids, strs, tp, fp, delta, ss, cs, m);
      assert ss[m] in ss;
    }
    assert TraceAt(kids, strs, tp, fp, delta, ss[k], cs[k], before);
    WordThere(kids, fp, ss[k]);
    hide Overlaps, HasCell, WordAt, BumpAll, About, FixupWord, Inert;
    assert forall m | 0 <= m < |before| :: before[m] == cs[m];
    UnlistedKept(kids, before, delta, ss[k]);
  }

  lemma WordThere(kids: seq<Piece>, fp: seq<nat>, s: Cell)
    requires FixupWord(kids, fp, s)
    ensures HasCell(kids, s)
  {
    var q := s.path[|fp|..];
    assert s.path == fp + q;
    BodyBelow(kids, fp, q);
  }

  /** No word of the fix-up tree, `except` apart, names a reference that overlaps `e`. */
  ghost predicate NoneNear(kids: seq<Piece>, strs: seq<Byte>, tp: seq<nat>, fp: seq<nat>, e: Cell, except: Option<Cell>) {
    forall w, c | FixupWord(kids, fp, w) && Some(w) != except && PointsTo(kids, strs, tp, fp, w, c) :: !Overlaps(c, e)
  }

  lemma NearListed(kids: seq<Piece>, strs: seq<Byte>, tp: seq<nat>, fp: seq<nat>, delta: nat, ss: seq<Cell>, cs: seq<Cell>, e: Cell, except: Option<Cell>, k: nat)
    requires Corrected(kids, strs, tp, fp, delta, ss, cs) && Inert(kids, strs, tp, fp) && NoneNear(kids, strs, tp, fp, e, except)
    requires k < |cs| && Some(ss[k]) != except
    ensures !Overlaps(cs[k], e)
  {
    InertPoints(kids, strs, tp, fp, delta, ss, cs, k);
    assert ss[k] in ss;
    hide PointsTo, FixupWord, Overlaps, Traces, Inert;
  }

  /** A word that no reference overlaps stays. */
  lemma OthersStay(kids: seq<Piece>, strs: seq<Byte>, tp: seq<nat>, fp: seq<nat>, delta: nat, ss: seq<Cell>, cs: seq<Cell>, e: Cell)
    requires Corrected(kids, strs, tp, fp, delta, ss, cs) && Inert(kids, strs, tp, fp) && HasCell(kids, e) && NoneNear(kids, strs, tp, fp, e, None)
    ensures HasCell(BumpAll(kids, cs, delta), e) && WordAt(BumpAll(kids, cs, delta), e) == WordAt(kids, e)
  {
    hide Inert, NoneNear, Overlaps, HasCell, WordAt, BumpAll;
    forall k | 0 <= k < |cs| ensures !Overlaps(cs[k], e) { NearListed(kids, strs, tp, fp, delta, ss, cs, e, None, k); }
    UnlistedKept(kids, cs, delta, e);
  }

  /** A reference that one word names, and no other word names one that overlaps it, is raised once. */
  lemma RaisedOnce(kids: seq<Piece>, strs: seq<Byte>, tp: seq<nat>, fp: seq<nat>, delta: nat, ss: seq<Cell>, cs: seq<Cell>, s: Cell, e: Cell)
    requires Corrected(kids, strs, tp, fp, delta, ss, cs) && Inert(kids, strs, tp, fp)
    requires FixupWord(kids, fp, s) && PointsTo(kids, strs, tp, fp, s, e) && NoneNear(kids, strs, tp, fp, e, Some(s))
    ensures HasCell(kids, e) && HasCell(BumpAll(kids, cs, delta), e)
    ensures WordAt(BumpAll(kids, cs, delta), e) == (WordAt(kids, e) + delta) % WORDS
  {
    hide Inert, PointsTo, FixupWord, NoneNear, Overlaps, HasCell, WordAt, BumpAll, Traces;
    var k := WhichWord(kids, strs, tp, fp, delta, ss, cs, s, e);
    forall m | 0 <= m < |cs| && m != k ensures !Overlaps(cs[m], cs[k]) {
      assert ss[m] != s;
      NearListed(kids, strs, tp, fp, delta, ss, cs, e, Some(s), m);
    }
    ListedOnce(kids, cs, delta, k);
  }

  lemma WhichWord(kids: seq<Piece>, strs: seq<Byte>, tp: seq<nat>, fp: seq<nat>, delta: nat, ss: seq<Cell>, cs: seq<Cell>, s: Cell, e: Cell) returns (k: nat)
    requires Corrected(kids, strs, tp, fp, delta, ss, cs) && Inert(kids, strs, tp, fp) && FixupWord(kids, fp, s) && PointsTo(kids, strs, tp, fp, s, e)
    ensures k < |cs| == |ss| && ss[k] == s && cs[k] == e && HasCells(kids, cs) && HasCell(kids, e)
  {
    hide Inert, PointsTo, FixupWord, HasCell, TraceAt;
    assert s in ss;
    k :| 0 <= k < |ss| && ss[k] == s;
    InertPoints(kids, strs, tp, fp, delta, ss, cs, k);
    PointsUnique(kids, strs, tp, fp, s, cs[k], e);
  }

  lemma PointsUnique(kids: seq<Piece>, strs: seq<Byte>, tp: seq<nat>, fp: seq<nat>, s: Cell, c: Cell, e: Cell)
    requires PointsTo(kids, strs, tp, fp, s, c) && PointsTo(kids, strs, tp, fp, s, e)
    ensures c == e
  {
    hide About, HasCell, WordAt;
    AboutUnique(kids, strs, tp, fp, s, c, e);
  }

  /** The overlay made ready: shifted, and with the references that its fix-up tree names corrected, one for each
      word of that tree. */
  lemma PreparedCorrects(kids: seq<Piece>, strs: seq<Byte>, delta: nat) returns (ls: seq<Piece>, ss: seq<Cell>, cs: seq<Cell>)
    requires Prepared(kids, strs, delta).Done?
    ensures Shift(kids, strs, delta) == Done(ls) && FdtPath.Resolve(ls, LOCAL_FIXUPS) == FdtPath.Resolve(kids, LOCAL_FIXUPS)
    ensures var fp := FdtPath.Resolve(kids, LOCAL_FIXUPS);
            if fp.None? then Prepared(kids, strs, delta).value == ls
            else Prepared(kids, strs, delta).value == BumpAll(ls, cs, delta) && Corrected(ls, strs, [], fp.value, delta, ss, cs)
                 && Reaches(ls, fp.value) && Answered(ls, BodyAt(ls, fp.value), strs)
  {
    hide Shift, FdtPath.Resolve, Fix, Corrected, Answered, BumpAll;
    PreparedSoon(kids, strs, delta);
    ls := Shift(kids, strs, delta).value;
    ss, cs := [], [];
    ShiftAlike(kids, strs, delta);
    ResolveAlike(kids, ls, LOCAL_FIXUPS);
    var fp := FdtPath.Resolve(kids, LOCAL_FIXUPS);
    if fp.Some? {
      ListedIs(kids, strs, delta, ls, fp.value);
      ss := FixCorrects(ls, strs, [], fp.value, delta);
      cs := Fix(ls, strs, [], fp.value, BodyAt(ls, fp.value), delta).value;
    }
  }

  /** An overlay that cannot be made ready: a handle that cannot be raised, or an entry of the fix-up tree that stops
      the corrections. */
  lemma PreparedStops(kids: seq<Piece>, strs: seq<Byte>, delta: nat) returns (cs: seq<Cell>, q: seq<nat>, p: seq<nat>, at: nat)
    requires Prepared(kids, strs, delta).Fail?
    ensures Shift(kids, strs, delta).Fail? ==>
              && Reaches(kids, q) && at < |BodyAt(kids, q)| && IsHandle(BodyAt(kids, q), strs, at)
              && Blocks(BodyAt(kids, q)[at], delta, Prepared(kids, strs, delta).err)
    ensures Shift(kids, strs, delta).Done? ==>
              var ls, fp := Shift(kids, strs, delta).value, FdtPath.Resolve(kids, LOCAL_FIXUPS);
              && fp.Some? && Reaches(ls, fp.value)
              && Halts(ls, strs, [], fp.value, delta, Words(BodyAt(ls, fp.value), fp.value), cs, q, p, at, Prepared(kids, strs, delta).err)
  {
    hide Shift, FdtPath.Resolve, Fix, BumpAll, Words, Halts, IsHandle, Blocks;
    PreparedSoon(kids, strs, delta);
    cs, p := [], [];
    if Shift(kids, strs, delta).Fail? {
      q, at := ShiftFails(kids, strs, delta);
    } else {
      var ls, fp := Shift(kids, strs, delta).value, FdtPath.Resolve(kids, LOCAL_FIXUPS);
      ListedIs(kids, strs, delta, ls, fp.value);
      cs, q, p, at := FixTrace(ls, strs, [], fp.value, BodyAt(ls, fp.value), delta);
    }
  }
}
