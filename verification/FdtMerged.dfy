/** What a merge of an overlay into a base holds: every property value, and every child no overlay node
    matches. */
module FdtMerged {
  import opened Wrappers
  import opened FdtBytes
  import opened FdtTree
  import opened FdtWalk
  import opened FdtMeaning
  import opened FdtOverlay

  type Name = seq<Byte>

  /** The last leading property of that name. */
  function LastValue(xs: seq<Item>, name: Name): Option<seq<Byte>> {
    if xs == [] || xs[0].N? then None
    else if LastValue(xs[1..], name).Some? then LastValue(xs[1..], name)
    else if xs[0].name == name then Some(xs[0].value) else None
  }

  lemma {:induction false} PropsValue(b: seq<Item>, xs: seq<Item>, name: Name)
    ensures Value(MergeProps(b, xs), name) == if LastValue(xs, name).Some? then LastValue(xs, name) else Value(b, name)
    decreases |xs|
  {
    hide Value, SetProp;
    if xs != [] && xs[0].P? {
      ValueSet(b, xs[0].name, xs[0].value, name);
      PropsValue(SetProp(b, xs[0].name, xs[0].value), xs[1..], name);
    }
  }

  lemma {:induction false} NodesValue(b: seq<Item>, xs: seq<Item>, name: Name)
    ensures Value(MergeNodes(b, xs), name) == Value(b, name)
    decreases |xs|
  {
    hide Value, Merge, FirstItem, WithChild;
    if xs != [] {
      if xs[0].P? {
        NodesValue(b, xs[1..], name);
      } else {
        var c := WithChild(b, xs[0].name);
        ChildThere(b, xs[0].name);
        var j := FirstItem(c, xs[0].name).value;
        var items := Merge(c[j].items, xs[0].items);
        ValueKept(b, xs[0], items, name);
        NodesValue(c[j := N(c[j].name, items)], xs[1..], name);
      }
    }
  }

  /** After the merge every property has the last value the overlay gives it, or the one it had. */
  lemma MergedValue(b: seq<Item>, xs: seq<Item>, name: Name)
    ensures Value(Merge(b, xs), name) == if LastValue(xs, name).Some? then LastValue(xs, name) else Value(b, name)
  {
    hide Value, MergeProps, MergeNodes;
    PropsValue(b, xs, name);
    NodesValue(MergeProps(b, xs), xs, name);
  }

  /** The names of the nodes of an overlay body. */
  function NodeNames(xs: seq<Item>): seq<Name> {
    if xs == [] then [] else (if xs[0].N? then [xs[0].name] else []) + NodeNames(xs[1..])
  }

  predicate Answers(y: Item, ns: seq<Name>) {
    y.N? ==> exists i :: 0 <= i < |ns| && NameEq(y.name, ns[i])
  }

  /** The nodes of a body that answer to none of the names, in order. */
  function Others(b: seq<Item>, ns: seq<Name>): seq<Item> {
    if b == [] then [] else (if Answers(b[0], ns) then [] else [b[0]]) + Others(b[1..], ns)
  }

  lemma {:induction false} OthersConcat(b: seq<Item>, c: seq<Item>, ns: seq<Name>)
    ensures Others(b + c, ns) == Others(b, ns) + Others(c, ns)
  {
    hide Answers;
    if b == [] {
      assert b + c == c;
    } else {
      assert (b + c)[1..] == b[1..] + c;
      OthersConcat(b[1..], c, ns);
    }
  }

  /** Entries that answer come and go without notice. */
  lemma OthersSwap(b: seq<Item>, x: seq<Item>, y: seq<Item>, c: seq<Item>, ns: seq<Name>)
    requires |x| <= 1 && |y| <= 1 && (forall i | 0 <= i < |x| :: Answers(x[i], ns)) && (forall i | 0 <= i < |y| :: Answers(y[i], ns))
    ensures Others(b + x + c, ns) == Others(b + y + c, ns)
  {
    hide Answers, Others;
    OthersConcat(b + x, c, ns);
    OthersConcat(b, x, ns);
    OthersConcat(b + y, c, ns);
    OthersConcat(b, y, ns);
    OthersNone(x, ns);
    OthersNone(y, ns);
  }

  lemma OthersNone(x: seq<Item>, ns: seq<Name>)
    requires |x| <= 1 && forall i | 0 <= i < |x| :: Answers(x[i], ns)
    ensures Others(x, ns) == []
  {
    hide Answers;
    if x != [] { assert Others(x[1..], ns) == []; }
  }

  lemma OthersUpdate(b: seq<Item>, k: nat, y: Item, ns: seq<Name>)
    requires k < |b| && Answers(b[k], ns) && Answers(y, ns)
    ensures Others(b[k := y], ns) == Others(b, ns)
  {
    hide Answers, Others;
    assert b == b[..k] + [b[k]] + b[k + 1..] && b[k := y] == b[..k] + [y] + b[k + 1..];
    OthersSwap(b[..k], [b[k]], [y], b[k + 1..], ns);
  }

  lemma OthersInsert(b: seq<Item>, k: nat, y: Item, ns: seq<Name>)
    requires k <= |b| && Answers(y, ns)
    ensures Others(b[..k] + [y] + b[k..], ns) == Others(b, ns)
  {
    hide Answers, Others;
    assert b == b[..k] + [] + b[k..];
    OthersSwap(b[..k], [], [y], b[k..], ns);
  }

  lemma {:induction false} OthersProps(b: seq<Item>, xs: seq<Item>, ns: seq<Name>)
    ensures Others(MergeProps(b, xs), ns) == Others(b, ns)
    decreases |xs|
  {
    if xs != [] && xs[0].P? {
      var f := FindItem(b, xs[0].name);
      if f.Some? {
        OthersUpdate(b, f.value, P(xs[0].name, xs[0].value), ns);
      } else {
        assert [P(xs[0].name, xs[0].value)] + b == b[..0] + [P(xs[0].name, xs[0].value)] + b[0..];
        OthersInsert(b, 0, P(xs[0].name, xs[0].value), ns);
      }
      OthersProps(SetProp(b, xs[0].name, xs[0].value), xs[1..], ns);
    }
  }

  lemma OthersChild(b: seq<Item>, name: Name, ns: seq<Name>)
    requires name in ns
    ensures Others(WithChild(b, name), ns) == Others(b, ns)
    ensures var c := WithChild(b, name);
            FirstItem(c, name).Some? && var j := FirstItem(c, name).value; forall items :: Others(c[j := N(c[j].name, items)], ns) == Others(b, ns)
  {
    ChildThere(b, name);
    var c := WithChild(b, name);
    var i :| 0 <= i < |ns| && ns[i] == name;
    assert NameEq(name, name);
    hide NameEq, Others;
    if FirstItem(b, name).None? { OthersInsert(b, LeadItems(b), N(name, []), ns); }
    var j := FirstItem(c, name).value;
    forall items ensures Others(c[j := N(c[j].name, items)], ns) == Others(b, ns) { OthersUpdate(c, j, N(c[j].name, items), ns); }
  }

  lemma {:induction false} OthersNodes(b: seq<Item>, xs: seq<Item>, ns: seq<Name>)
    requires forall i | 0 <= i < |xs| && xs[i].N? :: xs[i].name in ns
    ensures Others(MergeNodes(b, xs), ns) == Others(b, ns)
    decreases |xs|
  {
    hide Others, Merge, WithChild, FirstItem;
    if xs != [] {
      assert forall i | 0 <= i < |xs[1..]| :: xs[1..][i] == xs[i + 1];
      if xs[0].P? {
        OthersNodes(b, xs[1..], ns);
      } else {
        var c := WithChild(b, xs[0].name);
        OthersChild(b, xs[0].name, ns);
        var j := FirstItem(c, xs[0].name).value;
        OthersNodes(c[j := N(c[j].name, Merge(c[j].items, xs[0].items))], xs[1..], ns);
      }
    }
  }

  lemma {:induction false} NamesIn(xs: seq<Item>, i: nat)
    requires i < |xs| && xs[i].N?
    ensures xs[i].name in NodeNames(xs)
  {
    if i > 0 { NamesIn(xs[1..], i - 1); }
  }

  /** Children that no overlay node matches are kept as they are, in order, and none appears. */
  lemma UnmatchedKept(b: seq<Item>, xs: seq<Item>)
    ensures Others(Merge(b, xs), NodeNames(xs)) == Others(b, NodeNames(xs))
  {
    forall i | 0 <= i < |xs| && xs[i].N? ensures xs[i].name in NodeNames(xs) { NamesIn(xs, i); }
    OthersProps(b, xs, NodeNames(xs));
    OthersNodes(MergeProps(b, xs), xs, NodeNames(xs));
  }
}
