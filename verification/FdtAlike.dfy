/** Trees that differ only in the bytes of their property values: what in-place edits keep. */
module FdtAlike {
  import opened FdtBytes
  import opened FdtTokens
  import opened FdtTree
  import opened FdtWalk
  import opened FdtEdit

  /** The same entries, names and value lengths. */
  ghost predicate Alike(ps: seq<Piece>, qs: seq<Piece>)
    decreases ps
  {
    |ps| == |qs| && forall i | 0 <= i < |ps| :: AlikeOne(ps[i], qs[i])
  }

  ghost predicate AlikeOne(p: Piece, q: Piece)
    decreases p
  {
    match p
    case NopP => q.NopP?
    case PropP(nameoff, value) => q.PropP? && q.nameoff == nameoff && |q.value| == |value|
    case NodeP(name, kids) => q.NodeP? && q.name == name && Alike(kids, q.kids)
  }

  lemma {:induction false} AlikeSelf(ps: seq<Piece>)
    ensures Alike(ps, ps)
    decreases ps
  {
    forall i | 0 <= i < |ps| ensures AlikeOne(ps[i], ps[i]) {
      if ps[i].NodeP? { AlikeSelf(ps[i].kids); }
    }
  }

  lemma {:induction false} AlikeTrans(ps: seq<Piece>, qs: seq<Piece>, rs: seq<Piece>)
    requires Alike(ps, qs) && Alike(qs, rs)
    ensures Alike(ps, rs)
    decreases ps
  {
    forall i | 0 <= i < |ps| ensures AlikeOne(ps[i], rs[i]) {
      assert AlikeOne(ps[i], qs[i]) && AlikeOne(qs[i], rs[i]);
      if ps[i].NodeP? { AlikeTrans(ps[i].kids, qs[i].kids, rs[i].kids); }
    }
  }

  lemma AlikeAt(ps: seq<Piece>, qs: seq<Piece>, i: nat)
    requires Alike(ps, qs) && i < |ps|
    ensures |ps| == |qs| && AlikeOne(ps[i], qs[i])
  {
  }

  lemma AlikeTail(ps: seq<Piece>, qs: seq<Piece>)
    requires Alike(ps, qs) && ps != []
    ensures AlikeOne(ps[0], qs[0]) && Alike(ps[1..], qs[1..])
  {
    hide AlikeOne;
    forall i | 0 <= i < |ps[1..]| ensures AlikeOne(ps[1..][i], qs[1..][i]) { AlikeAt(ps, qs, i + 1); }
  }

  /** Nodes are at the same paths. */
  lemma {:induction false} AlikePath(ps: seq<Piece>, qs: seq<Piece>, path: seq<nat>)
    requires Alike(ps, qs) && IsAt(ps, path)
    ensures IsAt(qs, path) && AlikeOne(At(ps, path), At(qs, path))
    decreases |path|
  {
    AlikeAt(ps, qs, path[0]);
    if |path| > 1 { AlikePath(ps[path[0]].kids, qs[path[0]].kids, path[1..]); }
  }

  /** Properties and children are found at the same places. */
  lemma {:induction false} AlikeFinds(ks: seq<Piece>, ls: seq<Piece>, strs: seq<Byte>, name: seq<Byte>)
    requires Alike(ks, ls)
    ensures FindProp(ls, strs, name) == FindProp(ks, strs, name) && FirstChild(ls, name) == FirstChild(ks, name) && Lead(ls) == Lead(ks)
  {
    hide NameOf, NameEq;
    if ks != [] {
      AlikeTail(ks, ls);
      AlikeFinds(ks[1..], ls[1..], strs, name);
    }
  }

  /** Tokens of the same lengths. */
  ghost predicate SameLens(ts: seq<Token>, us: seq<Token>) {
    |ts| == |us| && forall k | 0 <= k < |ts| :: Len(us[k]) == Len(ts[k])
  }

  lemma SameConcat(a: seq<Token>, b: seq<Token>, c: seq<Token>, d: seq<Token>)
    requires SameLens(a, b) && SameLens(c, d)
    ensures SameLens(a + c, b + d)
  {
    hide Len;
  }

  lemma {:induction false} AlikeFlat(ps: seq<Piece>, qs: seq<Piece>)
    requires Alike(ps, qs)
    ensures SameLens(Flat(ps), Flat(qs))
    decreases ps
  {
    hide Len, SameLens;
    if ps == [] {
      NoTokens();
    } else {
      AlikeTail(ps, qs);
      AlikeFlat(ps[1..], qs[1..]);
      if ps[0].NodeP? {
        AlikeFlat(ps[0].kids, qs[0].kids);
        OneToken(Begin(ps[0].name), Begin(qs[0].name));
        OneToken(EndNode, EndNode);
        SameConcat([Begin(ps[0].name)], [Begin(qs[0].name)], Flat(ps[0].kids), Flat(qs[0].kids));
        SameConcat([Begin(ps[0].name)] + Flat(ps[0].kids), [Begin(qs[0].name)] + Flat(qs[0].kids), [EndNode], [EndNode]);
      } else {
        HeadLens(ps[0], qs[0]);
        OneToken(Head(ps[0]), Head(qs[0]));
      }
      SameConcat(FlatOne(ps[0]), FlatOne(qs[0]), Flat(ps[1..]), Flat(qs[1..]));
    }
  }

  lemma NoTokens()
    ensures SameLens([], [])
  {
  }

  lemma OneToken(t: Token, u: Token)
    requires Len(u) == Len(t)
    ensures SameLens([t], [u])
  {
  }

  lemma HeadLens(p: Piece, q: Piece)
    requires AlikeOne(p, q)
    ensures Len(Head(q)) == Len(Head(p))
  {
  }

  lemma {:induction false} AlikeSize(ts: seq<Token>, us: seq<Token>)
    requires SameLens(ts, us)
    ensures Size(us) == Size(ts)
  {
    hide Len;
    if ts != [] { AlikeSize(ts[1..], us[1..]); }
  }

  lemma AlikePrefix(ps: seq<Piece>, qs: seq<Piece>, i: nat)
    requires Alike(ps, qs) && i <= |ps|
    ensures |ps| == |qs| && Alike(ps[..i], qs[..i])
  {
    hide AlikeOne;
  }

  lemma {:induction false} AlikeBefore(ps: seq<Piece>, qs: seq<Piece>, path: seq<nat>)
    requires Alike(ps, qs) && IsAt(ps, path)
    ensures IsAt(qs, path) && Before(qs, path) == Before(ps, path)
    decreases |path|
  {
    hide Flat;
    AlikePath(ps, qs, path);
    AlikePrefix(ps, qs, path[0]);
    AlikeFlat(ps[..path[0]], qs[..path[0]]);
    AlikeAt(ps, qs, path[0]);
    if |path| > 1 { AlikeBefore(ps[path[0]].kids, qs[path[0]].kids, path[1..]); }
  }

  /** Everything stays where it is. */
  lemma AlikeOff(ps: seq<Piece>, qs: seq<Piece>, k: nat)
    requires Alike(ps, qs) && k <= |Flat(ps)| + 1
    ensures |Flat(qs)| == |Flat(ps)| && Off(Flat(qs) + [End], k) == Off(Flat(ps) + [End], k)
  {
    hide Flat, Len, Size;
    AlikeFlat(ps, qs);
    AlikeSize((Flat(ps) + [End])[..k], (Flat(qs) + [End])[..k]);
  }

  /** One value replaced by another of the same length. */
  lemma AlikeValue(ps: seq<Piece>, path: seq<nat>, i: nat, value: seq<Byte>)
    requires IsAt(ps, path) && At(ps, path).NodeP? && i < |At(ps, path).kids| && At(ps, path).kids[i].PropP?
    requires |value| == |At(ps, path).kids[i].value|
    ensures Alike(ps, Rebody(ps, path, i, 1, [At(ps, path).kids[i].(value := value)]))
  {
    var p := At(ps, path);
    var kids := p.kids[..i] + [p.kids[i].(value := value)] + p.kids[i + 1..];
    forall k | 0 <= k < |kids| ensures AlikeOne(p.kids[k], kids[k]) {
      if k != i && p.kids[k].NodeP? { AlikeSelf(p.kids[k].kids); }
    }
    AlikePut(ps, path, NodeP(p.name, kids));
  }

  lemma {:induction false} AlikePut(ps: seq<Piece>, path: seq<nat>, q: Piece)
    requires IsAt(ps, path) && AlikeOne(At(ps, path), q)
    ensures Alike(ps, Put(ps, path, [q]))
    decreases |path|
  {
    var i, qs := path[0], Put(ps, path, [q]);
    if |path| > 1 { AlikePut(ps[i].kids, path[1..], q); }
    AlikeSelf(ps);
    forall k | 0 <= k < |ps| ensures AlikeOne(ps[k], qs[k]) {
      if k != i { assert qs[k] == ps[k]; AlikeAt(ps, ps, k); }
    }
  }
}
