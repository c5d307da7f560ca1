/** Merging an overlay twice: the merge as a sequence of single edits, and when repeating them changes
    nothing. */
module FdtRemerge {
  import opened Wrappers
  import opened FdtBytes
  import opened FdtTree
  import opened FdtWalk
  import opened FdtMeaning
  import opened FdtOverlay

  /** Follow a path of names, adding what is missing, and set one property there or none. */
  datatype Edit = Edit(path: seq<Name>, prop: Option<Item>)

  type Name = seq<Byte>

  function SetOne(b: seq<Item>, prop: Option<Item>): seq<Item> {
    if prop.Some? && prop.value.P? then SetProp(b, prop.value.name, prop.value.value) else b
  }

  function Apply(b: seq<Item>, path: seq<Name>, prop: Option<Item>): seq<Item>
    decreases |path|
  {
    if path == [] then SetOne(b, prop) else
    var c := WithChild(b, path[0]);
    match FirstItem(c, path[0])
    case None => c
    case Some(j) => c[j := N(c[j].name, Apply(c[j].items, path[1..], prop))]
  }

  function ApplyAll(b: seq<Item>, es: seq<Edit>): seq<Item>
    decreases |es|
  {
    if es == [] then b else ApplyAll(Apply(b, es[0].path, es[0].prop), es[1..])
  }

  function Below(name: Name, es: seq<Edit>): (r: seq<Edit>)
    ensures |r| == |es| && forall i | 0 <= i < |es| :: r[i] == Edit([name] + es[i].path, es[i].prop)
  {
    if es == [] then [] else [Edit([name] + es[0].path, es[0].prop)] + Below(name, es[1..])
  }

  function PropEdits(xs: seq<Item>): seq<Edit> {
    if xs == [] || xs[0].N? then [] else [Edit([], Some(xs[0]))] + PropEdits(xs[1..])
  }

  function NodeEdits(xs: seq<Item>): seq<Edit>
    decreases xs, 0
  {
    if xs == [] then [] else
    (if xs[0].N? then [Edit([xs[0].name], None)] + Below(xs[0].name, Edits(xs[0].items)) else []) + NodeEdits(xs[1..])
  }

  /** The edits an overlay stands for, in the order the merge makes them. */
  function Edits(xs: seq<Item>): seq<Edit>
    decreases xs, 1
  {
    PropEdits(xs) + NodeEdits(xs)
  }

  lemma {:induction false} ApplyConcat(b: seq<Item>, es: seq<Edit>, fs: seq<Edit>)
    ensures ApplyAll(b, es + fs) == ApplyAll(ApplyAll(b, es), fs)
    decreases |es|
  {
    hide Apply;
    if es == [] {
      assert es + fs == fs;
    } else {
      assert (es + fs)[1..] == es[1..] + fs;
      ApplyConcat(Apply(b, es[0].path, es[0].prop), es[1..], fs);
    }
  }

  lemma ApplyOne(b: seq<Item>, e: Edit)
    ensures ApplyAll(b, [e]) == Apply(b, e.path, e.prop)
  {
    assert [e][1..] == [];
  }

  // ----- What one edit does to a body

  /** The body with child `k` given another content. */
  function Redo(b: seq<Item>, k: nat, items: seq<Item>): seq<Item>
    requires k < |b| && b[k].N?
  {
    b[k := N(b[k].name, items)]
  }

  lemma FirstRedo(b: seq<Item>, k: nat, items: seq<Item>, m: Name)
    requires k < |b| && b[k].N?
    ensures FirstItem(Redo(b, k, items), m) == FirstItem(b, m) && LeadItems(Redo(b, k, items)) == LeadItems(b) <= k
  {
    hide NameEq;
    var c, r := Redo(b, k, items), FirstItem(b, m);
    assert forall i | 0 <= i < |b| :: c[i].N? == b[i].N? && c[i].name == b[i].name;
    if r.Some? { FirstItemIs(c, m, r.value); }
    LeadStops(b);
    LeadIs(c, LeadItems(b));
  }

  /** The body with a new child right after the properties. */
  function Added(b: seq<Item>, n: Name, items: seq<Item>): seq<Item> {
    var l := LeadItems(b);
    b[..l] + [N(n, items)] + b[l..]
  }

  lemma FirstAdded(b: seq<Item>, n: Name, items: seq<Item>, m: Name)
    ensures FirstItem(Added(b, n, items), m) == if NameEq(n, m) then Some(LeadItems(b)) else Shifted(b, FirstItem(b, m))
    ensures LeadItems(Added(b, n, items)) == LeadItems(b)
  {
    hide NameEq, FirstItem, LeadItems;
    var c, l, r := Added(b, n, items), LeadItems(b), FirstItem(b, m);
    LeadIs(c, l);
    AddedAt(b, l, N(n, items));
    if NameEq(n, m) {
      FirstItemIs(c, m, l);
    } else if r.Some? {
      assert r.value >= l;
      FirstItemIs(c, m, r.value + 1);
    } else {
      assert FirstItem(c, m).None?;
    }
  }

  lemma AddedAt(b: seq<Item>, l: nat, x: Item)
    requires l <= |b|
    ensures var c := b[..l] + [x] + b[l..];
            |c| == |b| + 1 && c[l] == x && forall i {:trigger c[i]} | 0 <= i < |c| && i != l :: c[i] == if i < l then b[i] else b[i - 1]
  {
  }

  /** A child's place after one more entry in front of the children. */
  function Shifted(b: seq<Item>, r: Option<nat>): Option<nat> {
    match r
    case None => None
    case Some(j) => Some(j + 1)
  }

  lemma FirstSet(b: seq<Item>, name: Name, value: seq<Byte>, m: Name)
    ensures FirstItem(SetProp(b, name, value), m) == if FindItem(b, name).Some? then FirstItem(b, m) else Shifted(b, FirstItem(b, m))
  {
    hide NameEq, FirstItem, FindItem, LeadItems;
    var c, f, r := SetProp(b, name, value), FindItem(b, name), FirstItem(b, m);
    if f.Some? {
      assert forall i | 0 <= i < |b| && i != f.value :: c[i] == b[i];
      if r.Some? { FirstItemIs(c, m, r.value); }
    } else {
      assert forall i | 0 <= i < |b| :: c[i + 1] == b[i];
      if r.Some? { FirstItemIs(c, m, r.value + 1); }
    }
  }

  /** An edit below a child that is there, and below one that is not. */
  lemma ApplyThere(b: seq<Item>, path: seq<Name>, prop: Option<Item>, k: nat)
    requires path != [] && FirstItem(b, path[0]) == Some(k)
    ensures Apply(b, path, prop) == Redo(b, k, Apply(b[k].items, path[1..], prop))
  {
  }

  lemma ApplyNew(b: seq<Item>, path: seq<Name>, prop: Option<Item>)
    requires path != [] && FirstItem(b, path[0]) == None
    ensures Apply(b, path, prop) == Added(b, path[0], Apply([], path[1..], prop))
  {
    var n, l := path[0], LeadItems(b);
    assert NameEq(n, n);
    hide NameEq, FirstItem, LeadItems;
    FirstAdded(b, n, [], n);
    assert WithChild(b, n) == Added(b, n, []);
    var now := Apply([], path[1..], prop);
    AddedAt(b, l, N(n, []));
    AddedAt(b, l, N(n, now));
    assert Added(b, n, [])[l := N(n, now)] == Added(b, n, now);
  }

  // ----- The merge is its edits

  lemma {:induction false} PropsAre(b: seq<Item>, xs: seq<Item>)
    ensures MergeProps(b, xs) == ApplyAll(b, PropEdits(xs))
    decreases |xs|
  {
    if xs != [] && xs[0].P? {
      var e := Edit([], Some(xs[0]));
      assert ([e] + PropEdits(xs[1..]))[1..] == PropEdits(xs[1..]);
      PropsAre(SetProp(b, xs[0].name, xs[0].value), xs[1..]);
    }
  }

  /** Edits below a child that is there. */
  lemma {:induction false} BelowAll(b: seq<Item>, name: Name, k: nat, es: seq<Edit>)
    requires FirstItem(b, name) == Some(k)
    ensures ApplyAll(b, Below(name, es)) == Redo(b, k, ApplyAll(b[k].items, es))
    decreases |es|
  {
    hide FirstItem, Apply;
    if es == [] {
      assert b[k := N(b[k].name, b[k].items)] == b;
    } else {
      var e, fs := es[0], Below(name, es);
      var here := Apply(b[k].items, e.path, e.prop);
      assert ([name] + e.path)[1..] == e.path;
      ApplyThere(b, [name] + e.path, e.prop, k);
      FirstRedo(b, k, here, name);
      BelowAll(Redo(b, k, here), name, k, es[1..]);
      assert fs[1..] == Below(name, es[1..]);
      assert Redo(Redo(b, k, here), k, ApplyAll(here, es[1..])) == Redo(b, k, ApplyAll(here, es[1..]));
    }
  }

  lemma {:induction false} NodesAre(b: seq<Item>, xs: seq<Item>)
    ensures MergeNodes(b, xs) == ApplyAll(b, NodeEdits(xs))
    decreases xs, 0
  {
    if xs != [] {
      if xs[0].P? {
        NodesAre(b, xs[1..]);
        assert [] + NodeEdits(xs[1..]) == NodeEdits(xs[1..]);
      } else {
        var x, c := xs[0], WithChild(b, xs[0].name);
        ChildThere(b, x.name);
        var j := FirstItem(c, x.name).value;
        var e, es := Edit([x.name], None), Below(x.name, Edits(x.items));
        TouchIs(b, x.name);
        ApplyConcat(b, [e] + es, NodeEdits(xs[1..]));
        ApplyConcat(b, [e], es);
        ApplyOne(b, e);
        BelowAll(c, x.name, j, Edits(x.items));
        MergeIs(c[j].items, x.items);
        NodesAre(c[j := N(c[j].name, Merge(c[j].items, x.items))], xs[1..]);
      }
    }
  }

  lemma TouchIs(b: seq<Item>, name: Name)
    ensures Apply(b, [name], None) == WithChild(b, name)
  {
    ChildThere(b, name);
    var c := WithChild(b, name);
    var j := FirstItem(c, name).value;
    assert c[j := N(c[j].name, c[j].items)] == c;
  }

  lemma {:induction false} MergeIs(b: seq<Item>, xs: seq<Item>)
    ensures Merge(b, xs) == ApplyAll(b, Edits(xs))
    decreases xs, 1
  {
    PropsAre(b, xs);
    NodesAre(MergeProps(b, xs), xs);
    ApplyConcat(b, PropEdits(xs), NodeEdits(xs));
  }

  // ----- Repeating one edit

  lemma SetAgain(b: seq<Item>, prop: Option<Item>)
    ensures SetOne(SetOne(b, prop), prop) == SetOne(b, prop)
  {
    if prop.Some? && prop.value.P? {
      ValueSet(b, prop.value.name, prop.value.value, prop.value.name);
      SetSame(SetOne(b, prop), prop.value.name, prop.value.value);
    }
  }

  lemma {:induction false} ApplyTwice(b: seq<Item>, path: seq<Name>, prop: Option<Item>)
    ensures Apply(Apply(b, path, prop), path, prop) == Apply(b, path, prop)
    decreases |path|
  {
    if path == [] {
      SetAgain(b, prop);
    } else {
      var r := FirstItem(b, path[0]);
      ApplyTwice(if r.Some? then b[r.value].items else [], path[1..], prop);
      if r.Some? { ThereTwice(b, path, prop, r.value); } else { NewTwice(b, path, prop); }
    }
  }

  lemma ThereTwice(b: seq<Item>, path: seq<Name>, prop: Option<Item>, k: nat)
    requires path != [] && FirstItem(b, path[0]) == Some(k)
    requires var now := Apply(b[k].items, path[1..], prop); Apply(now, path[1..], prop) == now
    ensures Apply(Apply(b, path, prop), path, prop) == Apply(b, path, prop)
  {
    hide Apply, FirstItem, NameEq, LeadItems;
    var now := Apply(b[k].items, path[1..], prop);
    ApplyThere(b, path, prop, k);
    FirstRedo(b, k, now, path[0]);
    ApplyThere(Redo(b, k, now), path, prop, k);
  }

  lemma NewTwice(b: seq<Item>, path: seq<Name>, prop: Option<Item>)
    requires path != [] && FirstItem(b, path[0]) == None
    requires var now := Apply([], path[1..], prop); Apply(now, path[1..], prop) == now
    ensures Apply(Apply(b, path, prop), path, prop) == Apply(b, path, prop)
  {
    assert NameEq(path[0], path[0]);
    hide Apply, FirstItem, NameEq, LeadItems;
    var n, l, now := path[0], LeadItems(b), Apply([], path[1..], prop);
    ApplyNew(b, path, prop);
    FirstAdded(b, n, now, n);
    AddedAt(b, l, N(n, now));
    ApplyThere(Added(b, n, now), path, prop, l);
    assert Redo(Added(b, n, now), l, now) == Added(b, n, now);
  }

  // ----- Independent changes of a body

  lemma SetRedo(b: seq<Item>, m: Name, w: seq<Byte>, j: nat, ys: seq<Item>)
    requires j < |b| && b[j].N?
    ensures var k := if FindItem(b, m).Some? then j else j + 1;
            var c := SetProp(b, m, w);
            k < |c| && c[k] == b[j] && SetProp(Redo(b, j, ys), m, w) == Redo(c, k, ys)
  {
    hide NameEq, FirstItem, LeadItems, FindItem;
    var d, x := Redo(b, j, ys), N(b[j].name, ys);
    FirstRedo(b, j, ys, []);
    assert d[..LeadItems(b)] == b[..LeadItems(b)];
    FindLead(b, d, m);
    if FindItem(b, m).None? { ConsUpdate(b, j, x, P(m, w)); } else { assert d[FindItem(b, m).value := P(m, w)] == b[FindItem(b, m).value := P(m, w)][j := x]; }
  }

  lemma ConsUpdate(b: seq<Item>, j: nat, x: Item, y: Item)
    requires j < |b|
    ensures ([y] + b)[j + 1] == b[j] && [y] + b[j := x] == ([y] + b)[j + 1 := x]
  {
  }

  /** Only the leading properties decide where one is found. */
  lemma {:induction false} FindLead(b: seq<Item>, c: seq<Item>, m: Name)
    requires LeadItems(b) == LeadItems(c) && b[..LeadItems(b)] == c[..LeadItems(b)]
    ensures FindItem(b, m) == FindItem(c, m)
  {
    if LeadItems(b) > 0 {
      var n := LeadItems(b);
      assert b[0] == b[..n][0] && c[0] == c[..n][0];
      assert b[1..][..n - 1] == b[..n][1..] && c[1..][..n - 1] == c[..n][1..];
      FindLead(b[1..], c[1..], m);
    }
  }

  /** Setting a property that is there commutes with adding a child. */
  lemma SetAdded(b: seq<Item>, m: Name, w: seq<Byte>, n: Name, ys: seq<Item>)
    requires FindItem(b, m).Some?
    ensures SetProp(Added(b, n, ys), m, w) == Added(SetProp(b, m, w), n, ys)
    ensures FindItem(Added(b, n, ys), m) == FindItem(b, m)
  {
    hide FirstItem, NameEq, FindItem;
    var l, i := LeadItems(b), FindItem(b, m).value;
    FirstAdded(b, n, ys, []);
    assert Added(b, n, ys)[..l] == b[..l];
    FindLead(b, Added(b, n, ys), m);
    LeadStops(b);
    LeadIs(b[i := P(m, w)], l);
    UpdateBefore(b, l, N(n, ys), i, P(m, w));
  }

  lemma UpdateBefore(b: seq<Item>, l: nat, x: Item, i: nat, y: Item)
    requires i < l <= |b|
    ensures (b[..l] + [x] + b[l..])[i := y] == b[i := y][..l] + [x] + b[i := y][l..]
  {
  }

  lemma RedoAdded(b: seq<Item>, k: nat, xs: seq<Item>, n: Name, ys: seq<Item>)
    requires k < |b| && b[k].N?
    ensures k + 1 < |Added(b, n, ys)| && Added(b, n, ys)[k + 1] == b[k]
    ensures Redo(Added(b, n, ys), k + 1, xs) == Added(Redo(b, k, xs), n, ys)
  {
    FirstRedo(b, k, xs, []);
  }

  // ----- When one edit does not disturb another

  /** Everything the edit asks for is there. */
  ghost predicate Has(b: seq<Item>, path: seq<Name>, prop: Option<Item>)
    decreases |path|
  {
    if path == [] then prop.Some? && prop.value.P? ==> FindItem(b, prop.value.name).Some?
    else FirstItem(b, path[0]).Some? && Has(b[FirstItem(b, path[0]).value].items, path[1..], prop)
  }

  /** A node named `n` answers to the name `m` without having it. */
  predicate Shadows(n: Name, m: Name) {
    n != m && NameEq(n, m)
  }

  /** Some stored name answers to both. */
  predicate Related(m: Name, n: Name) {
    NameEq(m, n) || NameEq(n, m)
  }

  /** Where both could follow the same nodes, the later path adds none that shadows the earlier one. */
  predicate Calm(path: seq<Name>, later: seq<Name>)
    decreases |path|
  {
    path == [] || later == [] ||
    (!Shadows(later[0], path[0]) && (Related(path[0], later[0]) ==> Calm(path[1..], later[1..])))
  }

  lemma RelatedBy(b: seq<Item>, m: Name, n: Name)
    requires FirstItem(b, m).Some? && FirstItem(b, m) == FirstItem(b, n)
    ensures Related(m, n)
  {
    var k := FirstItem(b, m).value;
    TwoMatch(b[k].name, m, n);
  }

  lemma {:induction false} HasSelf(b: seq<Item>, path: seq<Name>, prop: Option<Item>)
    ensures Has(Apply(b, path, prop), path, prop)
    decreases |path|
  {
    if path == [] {
      if prop.Some? && prop.value.P? { ValueSet(b, prop.value.name, prop.value.value, prop.value.name); }
    } else {
      hide Apply, FirstItem;
      var n, r := path[0], FirstItem(b, path[0]);
      var was := if r.Some? then b[r.value].items else [];
      var now := Apply(was, path[1..], prop);
      HasSelf(was, path[1..], prop);
      if r.Some? {
        ApplyThere(b, path, prop, r.value);
        FirstRedo(b, r.value, now, n);
      } else {
        ApplyNew(b, path, prop);
        assert NameEq(n, n);
        FirstAdded(b, n, now, n);
      }
    }
  }

  lemma SetHas(b: seq<Item>, p: Option<Item>, q: Option<Item>)
    requires Has(b, [], p)
    ensures Has(SetOne(b, q), [], p)
  {
    if p.Some? && p.value.P? && q.Some? && q.value.P? {
      ValueSet(b, q.value.name, q.value.value, p.value.name);
    }
  }

  /** What is there stays there. */
  lemma {:induction false} HasKept(b: seq<Item>, p: seq<Name>, pp: Option<Item>, q: seq<Name>, qp: Option<Item>)
    requires Has(b, p, pp) && (Calm(p, q) || Has(b, q, qp))
    ensures Has(Apply(b, q, qp), p, pp)
    decreases |p|
  {
    if p == [] && q == [] {
      SetHas(b, pp, qp);
    } else if p == [] {
      HasHere(b, pp, q, qp);
    } else if q == [] {
      HasBelow(b, p, pp, qp);
    } else {
      var j := FirstItem(b, p[0]).value;
      if FirstItem(b, q[0]) == Some(j) {
        RelatedBy(b, p[0], q[0]);
        HasKept(b[j].items, p[1..], pp, q[1..], qp);
      }
      HasDown(b, p, pp, q, qp, j);
    }
  }

  lemma HasDown(b: seq<Item>, p: seq<Name>, pp: Option<Item>, q: seq<Name>, qp: Option<Item>, j: nat)
    requires p != [] && q != [] && FirstItem(b, p[0]) == Some(j) && Has(b[j].items, p[1..], pp)
    requires FirstItem(b, q[0]).None? ==> !Shadows(q[0], p[0])
    requires FirstItem(b, q[0]) == Some(j) ==> Has(Apply(b[j].items, q[1..], qp), p[1..], pp)
    ensures Has(Apply(b, q, qp), p, pp)
  {
    hide Apply, FirstItem, NameEq;
    var r := FirstItem(b, q[0]);
    if r.Some? {
      var now := Apply(b[r.value].items, q[1..], qp);
      ApplyThere(b, q, qp, r.value);
      FirstRedo(b, r.value, now, p[0]);
    } else {
      var now := Apply([], q[1..], qp);
      ApplyNew(b, q, qp);
      FirstAdded(b, q[0], now, p[0]);
      RedoAdded(b, j, b[j].items, q[0], now);
    }
  }

  lemma HasHere(b: seq<Item>, pp: Option<Item>, q: seq<Name>, qp: Option<Item>)
    requires Has(b, [], pp) && q != []
    ensures Has(Apply(b, q, qp), [], pp)
  {
    hide Apply, FirstItem, NameEq;
    if pp.Some? && pp.value.P? {
      var r := FirstItem(b, q[0]);
      if r.Some? {
        var now := Apply(b[r.value].items, q[1..], qp);
        ApplyThere(b, q, qp, r.value);
        FirstRedo(b, r.value, now, []);
        FindLead(b, Redo(b, r.value, now), pp.value.name);
      } else {
        ApplyNew(b, q, qp);
        SetAdded(b, pp.value.name, [], q[0], Apply([], q[1..], qp));
      }
    }
  }

  lemma HasBelow(b: seq<Item>, p: seq<Name>, pp: Option<Item>, qp: Option<Item>)
    requires p != [] && Has(b, p, pp)
    ensures Has(SetOne(b, qp), p, pp)
  {
    hide FirstItem, NameEq;
    if qp.Some? && qp.value.P? {
      var j := FirstItem(b, p[0]).value;
      FirstSet(b, qp.value.name, qp.value.value, p[0]);
      SetRedo(b, qp.value.name, qp.value.value, j, []);
    }
  }

  // ----- An earlier edit made again before a later one

  /** A new value for a property moves none. */
  lemma {:induction false} FindUpdate(b: seq<Item>, i: nat, v: seq<Byte>, m: Name)
    requires i < LeadItems(b)
    ensures FindItem(b[i := P(b[i].name, v)], m) == FindItem(b, m)
  {
    var c := b[i := P(b[i].name, v)];
    if i > 0 {
      FindUpdate(b[1..], i - 1, v, m);
      assert c[1..] == b[1..][i - 1 := P(b[i].name, v)];
    } else {
      assert c[1..] == b[1..];
    }
  }

  lemma FindAfterFirst(b: seq<Item>, x: Item, m: Name)
    requires x.P?
    ensures FindItem([x] + b, m) == if x.name == m then Some(0) else Plus(1, FindItem(b, m))
  {
    assert ([x] + b)[1..] == b;
  }

  /** Two properties of one node. */
  lemma SetBetween(b: seq<Item>, p: Option<Item>, q: Option<Item>)
    requires Has(b, [], p)
    ensures SetOne(SetOne(SetOne(b, q), p), q) == SetOne(SetOne(b, p), q)
  {
    SetAgain(b, q);
    if p.Some? && p.value.P? && q.Some? && q.value.P? {
      SetPair(b, p.value.name, p.value.value, q.value.name, q.value.value);
    }
  }

  lemma SetPair(b: seq<Item>, n: Name, v: seq<Byte>, m: Name, w: seq<Byte>)
    requires FindItem(b, n).Some?
    ensures SetProp(SetProp(SetProp(b, m, w), n, v), m, w) == SetProp(SetProp(b, n, v), m, w)
  {
    hide FindItem, LeadItems;
    var i, r := FindItem(b, n).value, FindItem(b, m);
    FindUpdate(b, i, v, m);
    if r.Some? { SetBoth(b, i, n, v, r.value, m, w); } else { SetNew(b, i, n, v, m, w); }
  }

  lemma SetBoth(b: seq<Item>, i: nat, n: Name, v: seq<Byte>, k: nat, m: Name, w: seq<Byte>)
    requires FindItem(b, n) == Some(i) && FindItem(b, m) == Some(k) && FindItem(b[i := P(n, v)], m) == Some(k)
    ensures SetProp(SetProp(SetProp(b, m, w), n, v), m, w) == SetProp(SetProp(b, n, v), m, w)
  {
    hide FindItem, LeadItems;
    var d := b[k := P(m, w)];
    FindUpdate(b, k, w, n);
    FindUpdate(b, k, w, m);
    LeadUpdate(b, k, w);
    FindUpdate(d, i, v, m);
    assert d[i := P(n, v)][k := P(m, w)] == b[i := P(n, v)][k := P(m, w)];
  }

  lemma SetNew(b: seq<Item>, i: nat, n: Name, v: seq<Byte>, m: Name, w: seq<Byte>)
    requires FindItem(b, n) == Some(i) && FindItem(b, m) == None && FindItem(b[i := P(n, v)], m) == None
    ensures SetProp(SetProp(SetProp(b, m, w), n, v), m, w) == SetProp(SetProp(b, n, v), m, w)
  {
    hide FindItem, LeadItems;
    var x, c := P(m, w), b[i := P(n, v)];
    FindAfterFirst(b, x, n);
    FindAfterFirst(c, x, m);
    assert ([x] + b)[i + 1 := P(n, v)] == [x] + c;
    assert ([x] + c)[0 := x] == [x] + c;
  }

  lemma LeadUpdate(b: seq<Item>, k: nat, w: seq<Byte>)
    requires k < LeadItems(b)
    ensures LeadItems(b[k := P(b[k].name, w)]) == LeadItems(b)
  {
    LeadStops(b);
    LeadIs(b[k := P(b[k].name, w)], LeadItems(b));
  }

  /** A property of a node, and an edit below the node. */
  lemma HereBetween(b: seq<Item>, p: Option<Item>, q: seq<Name>, qp: Option<Item>)
    requires Has(b, [], p) && q != []
    ensures Apply(SetOne(Apply(b, q, qp), p), q, qp) == Apply(SetOne(b, p), q, qp)
  {
    hide Apply, FirstItem, NameEq;
    ApplyTwice(b, q, qp);
    if p.Some? && p.value.P? {
      var n, v, r := p.value.name, p.value.value, FirstItem(b, q[0]);
      var was := if r.Some? then b[r.value].items else [];
      var now := Apply(was, q[1..], qp);
      var c := SetProp(b, n, v);
      FirstSet(b, n, v, q[0]);
      ApplyTwice(was, q[1..], qp);
      if r.Some? {
        SetRedo(b, n, v, r.value, now);
        ApplyThere(b, q, qp, r.value);
        FirstRedo(c, r.value, now, q[0]);
        ApplyThere(c, q, qp, r.value);
        ApplyThere(Redo(c, r.value, now), q, qp, r.value);
      } else {
        ApplyNew(b, q, qp);
        ApplyNew(c, q, qp);
        SetAdded(b, n, v, q[0], now);
        ApplyTwice(c, q, qp);
      }
    }
  }

  /** An edit below a node, and a property of the node. */
  lemma BelowBetween(b: seq<Item>, p: seq<Name>, pp: Option<Item>, q: Option<Item>)
    requires p != [] && Has(b, p, pp)
    ensures SetOne(Apply(SetOne(b, q), p, pp), q) == SetOne(Apply(b, p, pp), q)
  {
    hide Apply, FirstItem, NameEq;
    if q.Some? && q.value.P? {
      var m, w, j := q.value.name, q.value.value, FirstItem(b, p[0]).value;
      var now := Apply(b[j].items, p[1..], pp);
      var c := SetProp(b, m, w);
      FirstSet(b, m, w, p[0]);
      SetRedo(b, m, w, j, now);
      ApplyThere(b, p, pp, j);
      var k := FirstItem(c, p[0]).value;
      ApplyThere(c, p, pp, k);
      SetAgain(Redo(b, j, now), q);
    }
  }

  /** Two edits that go below different children of a node, or both below the same one. */
  lemma {:induction false} Between(b: seq<Item>, p: seq<Name>, pp: Option<Item>, q: seq<Name>, qp: Option<Item>)
    requires Has(b, p, pp) && Calm(p, q)
    ensures Apply(Apply(Apply(b, q, qp), p, pp), q, qp) == Apply(Apply(b, p, pp), q, qp)
    decreases |p|
  {
    if p == [] && q == [] {
      SetBetween(b, pp, qp);
    } else if p == [] {
      HereBetween(b, pp, q, qp);
    } else if q == [] {
      BelowBetween(b, p, pp, qp);
    } else if FirstItem(b, q[0]).None? {
      NewBetween(b, p, pp, q, qp);
    } else if FirstItem(b, q[0]) == FirstItem(b, p[0]) {
      var k := FirstItem(b, p[0]).value;
      RelatedBy(b, p[0], q[0]);
      Between(b[k].items, p[1..], pp, q[1..], qp);
      SameBetween(b, p, pp, q, qp, k);
    } else {
      OtherBetween(b, p, pp, q, qp);
    }
  }

  lemma SameBetween(b: seq<Item>, p: seq<Name>, pp: Option<Item>, q: seq<Name>, qp: Option<Item>, k: nat)
    requires p != [] && q != [] && FirstItem(b, p[0]) == FirstItem(b, q[0]) == Some(k)
    requires var xs := b[k].items;
             Apply(Apply(Apply(xs, q[1..], qp), p[1..], pp), q[1..], qp) == Apply(Apply(xs, p[1..], pp), q[1..], qp)
    ensures Apply(Apply(Apply(b, q, qp), p, pp), q, qp) == Apply(Apply(b, p, pp), q, qp)
  {
    hide Apply, FirstItem, NameEq;
    var xs := b[k].items;
    var x1, y1 := Apply(xs, q[1..], qp), Apply(xs, p[1..], pp);
    var x2 := Apply(x1, p[1..], pp);
    ApplyThere(b, q, qp, k);
    ApplyThere(b, p, pp, k);
    FirstRedo(b, k, x1, p[0]);
    FirstRedo(b, k, y1, q[0]);
    FirstRedo(b, k, x2, q[0]);
    ApplyThere(Redo(b, k, x1), p, pp, k);
    ApplyThere(Redo(b, k, y1), q, qp, k);
    assert Redo(Redo(b, k, x1), k, x2) == Redo(b, k, x2);
    ApplyThere(Redo(b, k, x2), q, qp, k);
  }

  lemma OtherBetween(b: seq<Item>, p: seq<Name>, pp: Option<Item>, q: seq<Name>, qp: Option<Item>)
    requires p != [] && q != [] && FirstItem(b, p[0]).Some? && FirstItem(b, q[0]).Some? && FirstItem(b, p[0]) != FirstItem(b, q[0])
    ensures Apply(Apply(Apply(b, q, qp), p, pp), q, qp) == Apply(Apply(b, p, pp), q, qp)
  {
    hide Apply, FirstItem, NameEq;
    var j, k := FirstItem(b, p[0]).value, FirstItem(b, q[0]).value;
    var x, y := Apply(b[k].items, q[1..], qp), Apply(b[j].items, p[1..], pp);
    ApplyThere(b, q, qp, k);
    ApplyThere(b, p, pp, j);
    FirstRedo(b, k, x, p[0]);
    FirstRedo(b, j, y, q[0]);
    ApplyThere(Redo(b, k, x), p, pp, j);
    ApplyThere(Redo(b, j, y), q, qp, k);
    var c := Redo(Redo(b, k, x), j, y);
    assert c == Redo(Redo(b, j, y), k, x);
    FirstRedo(Redo(b, k, x), j, y, q[0]);
    FirstRedo(b, k, x, q[0]);
    ApplyThere(c, q, qp, k);
    ApplyTwice(b[k].items, q[1..], qp);
  }

  lemma NewBetween(b: seq<Item>, p: seq<Name>, pp: Option<Item>, q: seq<Name>, qp: Option<Item>)
    requires p != [] && q != [] && FirstItem(b, p[0]).Some? && FirstItem(b, q[0]).None? && Calm(p, q)
    ensures Apply(Apply(Apply(b, q, qp), p, pp), q, qp) == Apply(Apply(b, p, pp), q, qp)
  {
    hide Apply, FirstItem, NameEq;
    var j := FirstItem(b, p[0]).value;
    var x, y := Apply([], q[1..], qp), Apply(b[j].items, p[1..], pp);
    ApplyNew(b, q, qp);
    ApplyThere(b, p, pp, j);
    FirstRedo(b, j, y, q[0]);
    ApplyNew(Redo(b, j, y), q, qp);
    FirstAdded(b, q[0], x, p[0]);
    RedoAdded(b, j, y, q[0], x);
    ApplyThere(Added(b, q[0], x), p, pp, j + 1);
    ApplyTwice(Redo(b, j, y), q, qp);
  }

  // ----- Making all the edits again

  ghost predicate AllHas(b: seq<Item>, es: seq<Edit>) {
    forall i {:trigger es[i]} | 0 <= i < |es| :: Has(b, es[i].path, es[i].prop)
  }

  /** No edit adds a node that shadows one an earlier edit goes through. */
  predicate CalmAll(es: seq<Edit>) {
    forall i, j | 0 <= i < j < |es| :: Calm(es[i].path, es[j].path)
  }

  lemma AllHasKept(b: seq<Item>, es: seq<Edit>, q: Edit)
    requires AllHas(b, es) && (Has(b, q.path, q.prop) || forall i | 0 <= i < |es| :: Calm(es[i].path, q.path))
    ensures AllHas(Apply(b, q.path, q.prop), es)
  {
    hide Has, Calm, Apply;
    forall i | 0 <= i < |es| ensures Has(Apply(b, q.path, q.prop), es[i].path, es[i].prop) {
      HasKept(b, es[i].path, es[i].prop, q.path, q.prop);
    }
  }

  /** A later edit made first makes no difference to the end. */
  lemma {:induction false} MadeFirst(b: seq<Item>, es: seq<Edit>, q: Edit)
    requires AllHas(b, es) && forall i | 0 <= i < |es| :: Calm(es[i].path, q.path)
    ensures Apply(ApplyAll(Apply(b, q.path, q.prop), es), q.path, q.prop) == Apply(ApplyAll(b, es), q.path, q.prop)
    decreases |es|
  {
    hide Apply, Has, Calm;
    if es == [] {
      ApplyTwice(b, q.path, q.prop);
    } else {
      var p, rest := es[0], es[1..];
      assert forall i | 0 <= i < |rest| :: rest[i] == es[i + 1];
      var after, other := Apply(b, p.path, p.prop), Apply(Apply(b, q.path, q.prop), p.path, p.prop);
      AllHasKept(b, es, p);
      AllHasKept(b, es, q);
      AllHasKept(Apply(b, q.path, q.prop), es, p);
      MadeFirst(after, rest, q);
      MadeFirst(other, rest, q);
      Between(b, p.path, p.prop, q.path, q.prop);
    }
  }

  lemma Unsnoc(es: seq<Edit>)
    requires es != [] && CalmAll(es)
    ensures var n := |es| - 1;
            es == es[..n] + [es[n]] && CalmAll(es[..n]) && forall i | 0 <= i < n :: Calm(es[..n][i].path, es[n].path)
  {
    hide Calm;
  }

  lemma {:induction false} EndHas(b: seq<Item>, es: seq<Edit>)
    requires CalmAll(es)
    ensures AllHas(ApplyAll(b, es), es)
    decreases |es|
  {
    hide Apply, Has, CalmAll;
    if es != [] {
      var n := |es| - 1;
      var q := es[n];
      Unsnoc(es);
      EndHas(b, es[..n]);
      ApplyConcat(b, es[..n], [q]);
      var r := ApplyAll(b, es[..n]);
      ApplyOne(r, q);
      AllHasKept(r, es[..n], q);
      HasSelf(r, q.path, q.prop);
      forall i | 0 <= i < |es| ensures Has(Apply(r, q.path, q.prop), es[i].path, es[i].prop) {
        if i < n { assert es[..n][i] == es[i]; }
      }
    }
  }

  lemma {:induction false} AllTwice(b: seq<Item>, es: seq<Edit>)
    requires CalmAll(es)
    ensures ApplyAll(ApplyAll(b, es), es) == ApplyAll(b, es)
    decreases |es|
  {
    hide Apply, Has, CalmAll;
    if es != [] {
      var n := |es| - 1;
      var pre, q := es[..n], es[n];
      Unsnoc(es);
      AllTwice(b, pre);
      EndHas(b, pre);
      var r := ApplyAll(b, pre);
      MadeFirst(r, pre, q);
      ApplyConcat(b, pre, [q]);
      ApplyOne(r, q);
      var end := Apply(r, q.path, q.prop);
      ApplyConcat(end, pre, [q]);
      ApplyOne(ApplyAll(end, pre), q);
    }
  }

  /** Merging the same overlay again changes nothing, whatever the base, when no overlay node shadows one
      that comes before it where both could land. */
  lemma MergeTwice(b: seq<Item>, xs: seq<Item>)
    requires CalmAll(Edits(xs))
    ensures Merge(Merge(b, xs), xs) == Merge(b, xs)
  {
    hide CalmAll, Edits, Merge;
    MergeIs(b, xs);
    MergeIs(Merge(b, xs), xs);
    AllTwice(b, Edits(xs));
  }

  // ----- Overlays whose siblings cannot be taken for each other

  /** No two sibling nodes could be taken for each other. */
  ghost predicate NodesApart(xs: seq<Item>)
    decreases xs
  {
    && (forall i, j | 0 <= i < |xs| && 0 <= j < |xs| && i != j && xs[i].N? && xs[j].N? :: !NameEq(xs[i].name, xs[j].name))
    && (forall i | 0 <= i < |xs| && xs[i].N? :: NodesApart(xs[i].items))
  }

  lemma {:induction false} PropPaths(xs: seq<Item>)
    ensures forall i | 0 <= i < |PropEdits(xs)| :: PropEdits(xs)[i].path == []
  {
    if xs != [] && xs[0].P? { PropPaths(xs[1..]); }
  }

  /** Every node edit goes through one of the overlay's nodes. */
  lemma {:induction false} NodePaths(xs: seq<Item>, k: nat)
    requires k < |NodeEdits(xs)|
    ensures NodeEdits(xs)[k].path != [] && exists i :: 0 <= i < |xs| && xs[i].N? && xs[i].name == NodeEdits(xs)[k].path[0]
    decreases xs, 0
  {
    hide Edits;
    var here := if xs[0].N? then [Edit([xs[0].name], None)] + Below(xs[0].name, Edits(xs[0].items)) else [];
    if k >= |here| {
      NodePaths(xs[1..], k - |here|);
      var i :| 0 <= i < |xs[1..]| && xs[1..][i].N? && xs[1..][i].name == NodeEdits(xs)[k].path[0];
      assert xs[i + 1] == xs[1..][i];
    }
  }

  lemma BelowCalm(name: Name, es: seq<Edit>)
    requires CalmAll(es)
    ensures CalmAll([Edit([name], None)] + Below(name, es))
  {
    var fs := [Edit([name], None)] + Below(name, es);
    forall i, j | 0 <= i < j < |fs| ensures Calm(fs[i].path, fs[j].path) {
      assert fs[j] == Edit([name] + es[j - 1].path, es[j - 1].prop) && ([name] + es[j - 1].path)[1..] == es[j - 1].path;
      if i > 0 { assert fs[i] == Edit([name] + es[i - 1].path, es[i - 1].prop) && ([name] + es[i - 1].path)[1..] == es[i - 1].path; }
    }
  }

  lemma ApartPaths(p: seq<Name>, q: seq<Name>, xs: seq<Item>)
    requires xs != [] && xs[0].N? && NodesApart(xs) && p != [] && p[0] == xs[0].name
    requires q != [] && exists i :: 0 <= i < |xs[1..]| && xs[1..][i].N? && xs[1..][i].name == q[0]
    ensures Calm(p, q)
  {
    hide NameEq;
    var i :| 0 <= i < |xs[1..]| && xs[1..][i].N? && xs[1..][i].name == q[0];
    assert xs[i + 1] == xs[1..][i];
  }

  lemma {:induction false} NodesCalm(xs: seq<Item>)
    requires NodesApart(xs)
    ensures CalmAll(NodeEdits(xs))
    decreases xs, 0
  {
    if xs != [] {
      hide Calm, CalmAll, NameEq;
      var rest := xs[1..];
      assert forall i | 0 <= i < |rest| :: rest[i] == xs[i + 1];
      NodesCalm(rest);
      if xs[0].N? {
        ApartIsCalm(xs[0].items);
        BelowCalm(xs[0].name, Edits(xs[0].items));
        var here, more := [Edit([xs[0].name], None)] + Below(xs[0].name, Edits(xs[0].items)), NodeEdits(rest);
        forall i, j | 0 <= i < |here| && 0 <= j < |more| ensures Calm(here[i].path, more[j].path) {
          NodePaths(rest, j);
          ApartPaths(here[i].path, more[j].path, xs);
        }
        CalmConcat(here, more);
      } else {
        assert [] + NodeEdits(rest) == NodeEdits(rest);
      }
    }
  }

  lemma CalmConcat(es: seq<Edit>, fs: seq<Edit>)
    requires CalmAll(es) && CalmAll(fs) && forall i, j | 0 <= i < |es| && 0 <= j < |fs| :: Calm(es[i].path, fs[j].path)
    ensures CalmAll(es + fs)
  {
    hide Calm;
  }

  /** Such an overlay can be merged again without change, however often a property is named. */
  lemma {:induction false} ApartIsCalm(xs: seq<Item>)
    requires NodesApart(xs)
    ensures CalmAll(Edits(xs))
    decreases xs, 1
  {
    hide NodesApart;
    PropPaths(xs);
    NodesCalm(xs);
    CalmConcat(PropEdits(xs), NodeEdits(xs));
  }

  // ----- The order of two siblings decides

  lemma MergeNone(b: seq<Item>)
    ensures Merge(b, []) == b && MergeNodes(b, []) == b
  {
    assert MergeProps(b, []) == b && MergeNodes(b, []) == b;
  }

  /** One overlay node merged. */
  lemma MergeOne(b: seq<Item>, x: Item, rest: seq<Item>, c: seq<Item>, j: nat)
    requires x.N? && WithChild(b, x.name) == c && FirstItem(c, x.name) == Some(j)
    ensures MergeNodes(b, [x] + rest) == MergeNodes(c[j := N(c[j].name, Merge(c[j].items, x.items))], rest)
  {
    hide Merge;
    assert ([x] + rest)[1..] == rest;
  }

  lemma NoProps(b: seq<Item>, x: Item, rest: seq<Item>)
    requires x.N?
    ensures Merge(b, [x] + rest) == MergeNodes(b, [x] + rest)
  {
    hide MergeNodes;
  }

  lemma MergeProp(name: seq<Byte>)
    ensures Merge([], [P(name, [])]) == [P(name, [])]
  {
    var none: seq<Item> := [];
    var p := [P(name, [])];
    assert p[1..] == none;
    assert SetProp(none, name, []) == p;
    assert MergeProps(none, p) == MergeProps(p, none) == p;
    assert MergeNodes(p, p) == MergeNodes(p, none) == p;
  }

  /** A node that shadows an earlier one is put in front of it and answers to its name the next time. */
  lemma ShadowFails(m: Name, n: Name)
    requires Shadows(n, m)
    ensures var xs := [N(m, [P(m, [])])] + [N(n, [])];
            Merge(Merge([], xs), xs) != Merge([], xs)
  {
    hide Merge, MergeNodes;
    var none: seq<Item> := [];
    var p := [P(m, [])];
    var x, y := N(m, p), N(n, none);
    assert NameEq(m, m) && NameEq(n, n) && NameEq(n, m) && !NameEq(m, n);
    hide NameEq;
    MergeNone(none);
    MergeNone(p);
    MergeProp(m);
    var added, one, two, three := [N(m, none)], [N(m, p)], [N(n, none), N(m, p)], [N(n, p), N(m, p)];
    NoProps(none, x, [y]);
    NoProps(two, x, [y]);
    assert [y] + [] == [y];
    assert AddNode(none, m) == added && FirstItem(added, m) == Some(0) && added[0 := N(m, p)] == one;
    MergeOne(none, x, [y], added, 0);
    assert FirstItem(one, n) == None by { assert one[1..] == []; }
    assert AddNode(one, n) == two && FirstItem(two, n) == Some(0) && two[0 := N(n, none)] == two;
    MergeOne(one, y, [], two, 0);
    MergeNone(two);
    assert FirstItem(two, m) == Some(0) && two[0 := N(n, p)] == three;
    MergeOne(two, x, [y], two, 0);
    assert FirstItem(three, n) == Some(0) && three[0 := N(n, p)] == three;
    MergeOne(three, y, [], three, 0);
    MergeNone(three);
  }

  /** Of two sibling names in this order, every base can be merged twice exactly when the second does not
      shadow the first: `a` before `a@0` fails, `a@0` before `a` does not. */
  lemma OrderDecides(m: Name, n: Name)
    ensures var xs := [N(m, [P(m, [])])] + [N(n, [])];
            (forall b: seq<Item> :: Merge(Merge(b, xs), xs) == Merge(b, xs)) <==> !Shadows(n, m)
  {
    var xs := [N(m, [P(m, [])])] + [N(n, [])];
    if Shadows(n, m) {
      ShadowFails(m, n);
    } else {
      TwoCalm(m, n);
      forall b: seq<Item> ensures Merge(Merge(b, xs), xs) == Merge(b, xs) { MergeTwice(b, xs); }
    }
  }

  lemma TwoCalm(m: Name, n: Name)
    requires !Shadows(n, m)
    ensures CalmAll(Edits([N(m, [P(m, [])])] + [N(n, [])]))
  {
    var p := [P(m, [])];
    var xs := [N(m, p)] + [N(n, [])];
    assert p[1..] == [] && xs[1..] == [N(n, [])] && xs[1..][1..] == [];
    var none: seq<Item> := [];
    assert PropEdits(none) == [] && NodeEdits(none) == [];
    assert PropEdits(p) == [Edit([], Some(p[0]))] && NodeEdits(p) == [] + NodeEdits(none);
    assert Edits(p) == [Edit([], Some(p[0]))];
    assert Below(m, Edits(p)) == [Edit([m], Some(p[0]))] by { assert [m] + [] == [m]; }
    assert Edits([]) == [] && Below(n, Edits([])) == [];
    assert NodeEdits(xs[1..]) == [Edit([n], None)];
    assert Edits(xs) == [Edit([m], None), Edit([m], Some(p[0])), Edit([n], None)];
  }
}
