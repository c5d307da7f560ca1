/** Edits of a node's body as the caller means them, and what the stored pieces make of them. */
module FdtMeaning {
  import opened Wrappers
  import opened FdtBytes
  import opened FdtTokens
  import opened FdtTree
  import opened FdtWalk

  /** The items before the first child. */
  function LeadItems(xs: seq<Item>): (n: nat)
    ensures n <= |xs| && forall i | 0 <= i < n :: xs[i].P?
  {
    if xs == [] || xs[0].N? then 0 else 1 + LeadItems(xs[1..])
  }

  /** The first property of that name before any child. */
  function FindItem(xs: seq<Item>, name: seq<Byte>): (r: Option<nat>)
    ensures r.Some? ==> r.value < LeadItems(xs) && xs[r.value].P? && xs[r.value].name == name
                        && forall i | 0 <= i < r.value :: xs[i].name != name
    ensures r.None? ==> forall i | 0 <= i < LeadItems(xs) :: xs[i].name != name
  {
    if xs == [] || xs[0].N? then None
    else if xs[0].name == name then Some(0)
    else Plus(1, FindItem(xs[1..], name))
  }

  /** The value a property has. */
  function Value(xs: seq<Item>, name: seq<Byte>): Option<seq<Byte>> {
    match FindItem(xs, name)
    case None => None
    case Some(i) => Some(xs[i].value)
  }

  function SetProp(xs: seq<Item>, name: seq<Byte>, value: seq<Byte>): seq<Item> {
    match FindItem(xs, name)
    case None => [P(name, value)] + xs
    case Some(i) => xs[i := P(name, value)]
  }

  function DelProp(xs: seq<Item>, name: seq<Byte>): seq<Item> {
    match FindItem(xs, name)
    case None => xs
    case Some(i) => xs[..i] + xs[i + 1..]
  }

  /** A new empty child, right after the properties. */
  function AddNode(xs: seq<Item>, name: seq<Byte>): seq<Item> {
    var n := LeadItems(xs);
    xs[..n] + [N(name, [])] + xs[n..]
  }

  lemma ValueHead(x: Item, rest: seq<Item>, name: seq<Byte>)
    ensures Value([x] + rest, name) == if x.N? then None else if x.name == name then Some(x.value) else Value(rest, name)
  {
    assert ([x] + rest)[1..] == rest;
  }

  lemma SetHead(x: Item, rest: seq<Item>, name: seq<Byte>, value: seq<Byte>)
    ensures var xs := [x] + rest;
            SetProp(xs, name, value) == if FindItem(xs, name).None? then [P(name, value)] + xs
                                        else if x.P? && x.name == name then [P(name, value)] + rest else [x] + SetProp(rest, name, value)
    ensures FindItem([x] + rest, name).Some? ==> x.P? && (x.name == name || FindItem(rest, name).Some?)
  {
    assert ([x] + rest)[1..] == rest;
  }

  /** Setting a property sets that one and no other. */
  lemma {:induction false} ValueSet(xs: seq<Item>, name: seq<Byte>, value: seq<Byte>, other: seq<Byte>)
    ensures Value(SetProp(xs, name, value), other) == if other == name then Some(value) else Value(xs, other)
  {
    if xs == [] {
      ValueHead(P(name, value), xs, other);
    } else {
      hide Value, SetProp, FindItem;
      var x, rest := xs[0], xs[1..];
      assert xs == [x] + rest;
      SetHead(x, rest, name, value);
      ValueHead(P(name, value), xs, other);
      ValueHead(P(name, value), rest, other);
      ValueHead(x, rest, other);
      ValueHead(x, SetProp(rest, name, value), other);
      ValueSet(rest, name, value, other);
    }
  }

  /** Deleting a property leaves every other one, and one of that name only if it was there twice. */
  lemma {:induction false} ValueDel(xs: seq<Item>, name: seq<Byte>, other: seq<Byte>)
    ensures other != name ==> Value(DelProp(xs, name), other) == Value(xs, other)
    ensures Value(DelProp(xs, name), name).Some? ==> exists i, j :: 0 <= i < j < LeadItems(xs) && xs[i].name == xs[j].name == name
  {
    var ys := DelProp(xs, name);
    if FindItem(xs, name).Some? {
      var i := FindItem(xs, name).value;
      DelFind(xs, i, name);
      DelFind(xs, i, other);
    }
  }

  lemma {:induction false} DelFind(xs: seq<Item>, i: nat, other: seq<Byte>)
    requires i < LeadItems(xs)
    ensures var ys := xs[..i] + xs[i + 1..];
            && LeadItems(ys) == LeadItems(xs) - 1
            && (xs[i].name != other ==> Value(ys, other) == Value(xs, other))
            && (FindItem(ys, other).Some? ==> exists j :: 0 <= j < LeadItems(xs) && j != i && xs[j].name == other)
  {
    hide LeadItems, Value, FindItem;
    var ys := xs[..i] + xs[i + 1..];
    DelLead(xs, i);
    DelValue(xs, i, other);
    if FindItem(ys, other).Some? {
      var k := FindItem(ys, other).value;
      assert ys[k] == xs[if k < i then k else k + 1];
    }
  }

  lemma {:induction false} DelLead(xs: seq<Item>, i: nat)
    requires i < LeadItems(xs)
    ensures LeadItems(xs[..i] + xs[i + 1..]) == LeadItems(xs) - 1
  {
    var ys := xs[..i] + xs[i + 1..];
    if i == 0 {
      assert ys == xs[1..];
    } else {
      DelLead(xs[1..], i - 1);
      assert ys[1..] == xs[1..][..i - 1] + xs[1..][i..];
    }
  }

  lemma {:induction false} DelValue(xs: seq<Item>, i: nat, other: seq<Byte>)
    requires i < LeadItems(xs)
    ensures xs[i].name != other ==> Value(xs[..i] + xs[i + 1..], other) == Value(xs, other)
  {
    hide Value;
    var x, rest := xs[0], xs[1..];
    DelHead(xs, i);
    ValueHead(x, rest, other);
    if i > 0 {
      hide LeadItems;
      DelValue(rest, i - 1, other);
      ValueHead(x, rest[..i - 1] + rest[i..], other);
    }
  }

  lemma DelHead(xs: seq<Item>, i: nat)
    requires i < |xs|
    ensures xs == [xs[0]] + xs[1..]
    ensures xs[..i] + xs[i + 1..] == if i == 0 then xs[1..] else [xs[0]] + (xs[1..][..i - 1] + xs[1..][i..])
  {
  }

  // ----- The same lookups on the stored pieces

  lemma ItemsHead(kids: seq<Piece>, strs: seq<Byte>)
    ensures kids == [] ==> Items(kids, strs) == []
    ensures kids != [] && kids[0].NopP? ==> Items(kids, strs) == Items(kids[1..], strs)
    ensures kids != [] && !kids[0].NopP? ==> Items(kids, strs) != [] && Items(kids, strs)[1..] == Items(kids[1..], strs)
                                             && [Items(kids, strs)[0]] == ItemsOne(kids[0], strs)
  {
  }

  lemma {:induction false} LeadMeans(kids: seq<Piece>, strs: seq<Byte>)
    ensures LeadItems(Items(kids, strs)) == |Items(kids[..Lead(kids)], strs)|
  {
    hide NameOf, Items;
    ItemsHead(kids, strs);
    var n := Lead(kids);
    ItemsHead(kids[..n], strs);
    if n > 0 {
      LeadMeans(kids[1..], strs);
      assert kids[..n][1..] == kids[1..][..n - 1];
    }
  }

  lemma {:induction false} FindMeans(kids: seq<Piece>, strs: seq<Byte>, name: seq<Byte>)
    ensures FindItem(Items(kids, strs), name) ==
            match FindProp(kids, strs, name)
            case None => None
            case Some(j) => Some(|Items(kids[..j], strs)|)
  {
    hide NameOf, Items;
    ItemsHead(kids, strs);
    var r := FindProp(kids, strs, name);
    if r.Some? { ItemsHead(kids[..r.value], strs); }
    if kids != [] && !kids[0].NodeP? && r != Some(0) {
      FindMeans(kids[1..], strs, name);
      if r.Some? { assert kids[..r.value][1..] == kids[1..][..r.value - 1]; }
    }
  }

  /** Rewriting a stored body rewrites the meant body, in place in the tree. */
  lemma RebodyMeans(ps: seq<Piece>, path: seq<nat>, j: nat, m: nat, rs: seq<Piece>, strs: seq<Byte>)
    requires IsAt(ps, path) && At(ps, path).NodeP? && j + m <= |At(ps, path).kids|
    ensures HasItem(Items(ps, strs), ItemPath(ps, path, strs))
    ensures ItemAt(Items(ps, strs), ItemPath(ps, path, strs)) == N(At(ps, path).name, Items(At(ps, path).kids, strs))
    ensures var p := At(ps, path);
            Items(Rebody(ps, path, j, m, rs), strs) ==
            Edit(Items(ps, strs), ItemPath(ps, path, strs),
                 [N(p.name, Items(p.kids[..j], strs) + Items(rs, strs) + Items(p.kids[j + m..], strs))])
  {
    var p := At(ps, path);
    var body := p.kids[..j] + rs + p.kids[j + m..];
    ItemsPut(ps, path, [NodeP(p.name, body)], strs);
    assert Items([NodeP(p.name, body)], strs) == [N(p.name, Items(body, strs))] by { assert [NodeP(p.name, body)][1..] == []; }
    ItemsConcat(p.kids[..j] + rs, p.kids[j + m..], strs);
    ItemsConcat(p.kids[..j], rs, strs);
  }

  lemma BodySplit(kids: seq<Piece>, j: nat, m: nat, strs: seq<Byte>)
    requires j + m <= |kids|
    ensures Items(kids, strs) == Items(kids[..j], strs) + Items(kids[j..j + m], strs) + Items(kids[j + m..], strs)
  {
    assert kids == kids[..j] + kids[j..j + m] + kids[j + m..];
    ItemsConcat(kids[..j] + kids[j..j + m], kids[j + m..], strs);
    ItemsConcat(kids[..j], kids[j..j + m], strs);
  }

  /** The stored entry found is the one a deletion or a change means. */
  lemma FoundMeans(kids: seq<Piece>, strs: seq<Byte>, name: seq<Byte>, i: nat, value: seq<Byte>, x: Item)
    requires FindProp(kids, strs, name) == Some(i) && x == P(name, value)
    ensures DelProp(Items(kids, strs), name) == Items(kids[..i], strs) + [] + Items(kids[i + 1..], strs)
    ensures SetProp(Items(kids, strs), name, value) == Items(kids[..i], strs) + [x] + Items(kids[i + 1..], strs)
    ensures FindItem(Items(kids, strs), name).Some?
  {
    hide Items, FindItem, FindProp, NameOf;
    FindMeans(kids, strs, name);
    BodySplit(kids, i, 1, strs);
    assert kids[i..i + 1] == [kids[i]];
    SingleProp(kids[i], strs);
    var a, c := Items(kids[..i], strs), Items(kids[i + 1..], strs);
    assert (a + Items([kids[i]], strs) + c)[..|a|] == a && (a + Items([kids[i]], strs) + c)[|a| + 1..] == c;
  }

  lemma SingleProp(p: Piece, strs: seq<Byte>)
    ensures p.PropP? ==> Items([p], strs) == [P(NameOf(strs, p.nameoff), p.value)]
    ensures p.NodeP? ==> Items([p], strs) == [N(p.name, Items(p.kids, strs))]
  {
    assert [p][1..] == [];
  }

  /** Without such a property, setting it puts it in front. */
  lemma MissingMeans(kids: seq<Piece>, strs: seq<Byte>, name: seq<Byte>, value: seq<Byte>, x: Item)
    requires FindProp(kids, strs, name) == None && x == P(name, value)
    ensures SetProp(Items(kids, strs), name, value) == Items(kids[..0], strs) + [x] + Items(kids[0..], strs)
    ensures FindItem(Items(kids, strs), name).None?
  {
    FindMeans(kids, strs, name);
    assert kids[..0] == [] && kids[0..] == kids;
  }

  /** A node added after the leading entries comes after the properties. */
  lemma AddMeans(kids: seq<Piece>, strs: seq<Byte>, name: seq<Byte>)
    ensures var n := Lead(kids);
            AddNode(Items(kids, strs), name) == Items(kids[..n], strs) + [N(name, [])] + Items(kids[n..], strs)
  {
    hide Items;
    var n := Lead(kids);
    LeadMeans(kids, strs);
    assert kids == kids[..n] + kids[n..];
    ItemsConcat(kids[..n], kids[n..], strs);
    var a, c := Items(kids[..n], strs), Items(kids[n..], strs);
    assert (a + c)[..|a|] == a && (a + c)[|a|..] == c;
  }
}
