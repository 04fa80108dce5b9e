/** Decoded trees as values, and their flattened form at token and byte-size level. */
module Flattening {
  import opened Bytes
  import opened Blobs
  import opened Trees
  import opened MergeLaws
  import opened Paths
  import opened Phandles
  import opened Parse
  import opened FdtBuffers

  /** A tree with its property values. */
  type Value = Tree<(), seq<byte>>

  /** Looks up the values of all properties. */
  function Fill<N, I>(t: Tree<N, I>, d: Store<I>): (r: Value)
    ensures r.Node? == t.Node? && r.name == t.name
  {
    match t
    case Prop(_, name, i) => Prop((), name, Val(d, i))
    case Node(_, name, kids) => Node((), name, FillKids(kids, d))
  }

  function FillKids<N, I>(kids: seq<Tree<N, I>>, d: Store<I>): (r: seq<Value>)
    ensures |r| == |kids|
    ensures forall i | 0 <= i < |kids| :: r[i] == Fill(kids[i], d)
  {
    seq(|kids|, i requires 0 <= i < |kids| => Fill(kids[i], d))
  }

  // ---------------------------------------------------------------- merging and looking up values commute

  lemma {:induction false} FindFilled<N, I>(kids: seq<Tree<N, I>>, d: Store<I>, isNode: bool, name: string)
    ensures Find(FillKids(kids, d), isNode, name) == Find(kids, isNode, name)
  {
    FindIs(FillKids(kids, d), isNode, name, Find(kids, isNode, name));
  }

  lemma {:induction false} FillMerge<N, I>(a: Tree<N, I>, b: Tree<N, I>, d: Store<I>)
    requires a.Node? == b.Node?
    ensures Fill(Merge(a, b), d) == Merge(Fill(a, d), Fill(b, d))
    decreases b, 0
  {
    if a.Node? {
      FillMergeKids(a.kids, b.kids, d);
    }
  }

  lemma {:induction false} FillMergeKid<N, I>(ka: seq<Tree<N, I>>, x: Tree<N, I>, d: Store<I>)
    ensures FillKids(MergeKid(ka, x), d) == MergeKid(FillKids(ka, d), Fill(x, d))
    decreases x, 1
  {
    FindFilled(ka, d, x.Node?, x.name);
    var i := Find(ka, x.Node?, x.name);
    if i < |ka| {
      FillMerge(ka[i], x, d);
    }
  }

  lemma {:induction false} FillMergeKids<N, I>(ka: seq<Tree<N, I>>, kb: seq<Tree<N, I>>, d: Store<I>)
    ensures FillKids(MergeKids(ka, kb), d) == MergeKids(FillKids(ka, d), FillKids(kb, d))
    decreases kb, 0
  {
    if kb != [] {
      var kb', x := kb[..|kb| - 1], kb[|kb| - 1];
      FillMergeKids(ka, kb', d);
      FillMergeKid(MergeKids(ka, kb'), x, d);
      assert FillKids(kb, d)[..|kb| - 1] == FillKids(kb', d);
    }
  }

  // ---------------------------------------------------------------- properties before subnodes

  function Select<N, D>(kids: seq<Tree<N, D>>, isNode: bool): (r: seq<Tree<N, D>>)
    ensures forall i | 0 <= i < |r| :: r[i].Node? == isNode && r[i] in kids
  {
    if kids == [] then []
    else (if kids[0].Node? == isNode then [kids[0]] else []) + Select(kids[1..], isNode)
  }

  /** These are, in order, the positions of the children of that kind. */
  ghost predicate Positions<N, D>(kids: seq<Tree<N, D>>, isNode: bool, idx: seq<nat>) {
    && (forall k, l | 0 <= k < l < |idx| :: idx[k] < idx[l])
    && forall i :: i in idx <==> 0 <= i < |kids| && kids[i].Node? == isNode
  }

  ghost predicate Taken<T>(s: seq<T>, idx: seq<nat>, r: seq<T>) {
    |r| == |idx| && forall k | 0 <= k < |idx| :: idx[k] < |s| && r[k] == s[idx[k]]
  }

  /** Exactly the children of that kind are selected, in the order they had. */
  lemma {:induction false} SelectIs<N, D>(kids: seq<Tree<N, D>>, isNode: bool) returns (idx: seq<nat>)
    ensures Positions(kids, isNode, idx) && Taken(kids, idx, Select(kids, isNode))
    decreases |kids|
  {
    hide Select, Positions, Taken;
    if kids == [] {
      idx := [];
      NoneSelected<N, D>(isNode);
    } else {
      var n := |kids| - 1;
      SelectLast(kids, isNode);
      idx := SelectIs(kids[..n], isNode);
      PositionsMore(kids, isNode, idx);
      TakenMore(kids, idx, Select(kids[..n], isNode));
      if kids[n].Node? == isNode {
        idx := idx + [n];
      }
    }
  }

  lemma {:induction false} PositionsMore<N, D>(kids: seq<Tree<N, D>>, isNode: bool, idx: seq<nat>)
    requires kids != [] && Positions(kids[..|kids| - 1], isNode, idx)
    ensures Positions(kids, isNode, if kids[|kids| - 1].Node? == isNode then idx + [|kids| - 1] else idx)
  {
    var n := |kids| - 1;
    assert forall i | 0 <= i < n :: kids[..n][i] == kids[i];
    assert forall k | 0 <= k < |idx| :: idx[k] in idx;
  }

  lemma {:induction false} TakenMore<T>(s: seq<T>, idx: seq<nat>, r: seq<T>)
    requires s != [] && Taken(s[..|s| - 1], idx, r)
    ensures Taken(s, idx, r) && Taken(s, idx + [|s| - 1], r + [s[|s| - 1]])
  {
  }

  lemma {:induction false} NoneSelected<N, D>(isNode: bool)
    ensures Select<N, D>([], isNode) == [] && Positions<N, D>([], isNode, []) && Taken<Tree<N, D>>([], [], [])
  {
  }

  lemma {:induction false} SelectLast<N, D>(kids: seq<Tree<N, D>>, isNode: bool)
    requires kids != []
    ensures var rest, last := kids[..|kids| - 1], kids[|kids| - 1];
            Select(kids, isNode) == if last.Node? == isNode then Select(rest, isNode) + [last] else Select(rest, isNode)
  {
    var rest, last := kids[..|kids| - 1], kids[|kids| - 1];
    assert kids == rest + [last];
    SelectAppend(rest, [last], isNode);
    assert Select([last], isNode) == if last.Node? == isNode then [last] else [];
  }

  /** The tree with properties stably moved before subnodes, at every level. */
  function PropsFirst<N, D>(t: Tree<N, D>): (r: Tree<N, D>)
    ensures r.Node? == t.Node? && r.name == t.name
  {
    match t
    case Prop(_, _, _) => t
    case Node(id, name, kids) =>
      var kids' := PropsFirstKids(kids);
      Node(id, name, Select(kids', false) + Select(kids', true))
  }

  function PropsFirstKids<N, D>(kids: seq<Tree<N, D>>): (r: seq<Tree<N, D>>)
    ensures |r| == |kids|
    ensures forall i | 0 <= i < |kids| :: r[i] == PropsFirst(kids[i])
  {
    seq(|kids|, i requires 0 <= i < |kids| => PropsFirst(kids[i]))
  }

  // ---------------------------------------------------------------- the flattened form

  function FlattenTree(v: Value): seq<Flat> {
    match v
    case Prop(_, name, data) => [FlatProp(name, data)]
    case Node(_, name, kids) => [FlatBegin(name)] + FlattenKids(kids) + [FlatEnd]
  }

  function FlattenKids(kids: seq<Value>): seq<Flat> {
    if kids == [] then [] else FlattenTree(kids[0]) + FlattenKids(kids[1..])
  }

  /** The tokens of a structure block from `i` to `j`, without NOPs, names and values looked up. */
  function Spelled(fdt: Fdt, d: Values, i: nat, j: nat): seq<Flat>
    requires i <= j <= |fdt.structure|
    decreases j - i
  {
    if i == j then []
    else
      var tag := fdt.structure[i];
      (match tag.kind
       case BeginNode => [FlatBegin(tag.name)]
       case Property => [FlatProp(fdt.String(tag.nameoff), Val(d, tag))]
       case EndNode => [FlatEnd]
       case _ => []) + Spelled(fdt, d, i + 1, j)
  }

  lemma {:induction false} SpelledSplit(fdt: Fdt, d: Values, i: nat, j: nat, k: nat)
    requires i <= j <= k <= |fdt.structure|
    ensures Spelled(fdt, d, i, k) == Spelled(fdt, d, i, j) + Spelled(fdt, d, j, k)
    decreases j - i
  {
    if i < j {
      SpelledSplit(fdt, d, i + 1, j, k);
    }
  }

  lemma {:induction false} FlattenKidsPush<N, I>(x: Tree<N, I>, rest: seq<Tree<N, I>>, d: Store<I>)
    ensures FillKids([x] + rest, d) == [Fill(x, d)] + FillKids(rest, d)
    ensures FlattenKids(FillKids([x] + rest, d)) == FlattenTree(Fill(x, d)) + FlattenKids(FillKids(rest, d))
  {
    assert FillKids([x] + rest, d) == [Fill(x, d)] + FillKids(rest, d);
    assert ([Fill(x, d)] + FillKids(rest, d))[1..] == FillKids(rest, d);
  }

  /** Flattening the children that were parsed gives back the tokens that were read, minus NOPs. */
  lemma {:induction false} ParseThenFlatten(fdt: Fdt, d: Values, i: nat)
    requires ParseKids(fdt, i).Some?
    ensures var c := ParseKids(fdt, i).value;
            Spelled(fdt, d, i, c.next) == FlattenKids(FillKids(c.kids, d)) + [FlatEnd]
    decreases |fdt.structure| - i
  {
    var tag, c := fdt.structure[i], ParseKids(fdt, i).value;
    match tag.kind {
      case EndNode =>
      case Nop => ParseThenFlatten(fdt, d, i + 1);
      case Property =>
        ParseThenFlatten(fdt, d, i + 1);
        FlattenKidsPush<(), FdtTag>(Prop((), fdt.String(tag.nameoff), tag), ParseKids(fdt, i + 1).value.kids, d);
      case BeginNode =>
        var sub := ParseKids(fdt, i + 1).value;
        ParseThenFlatten(fdt, d, i + 1);
        ParseThenFlatten(fdt, d, sub.next);
        SpelledSplit(fdt, d, i + 1, sub.next, c.next);
        NodeThenFlatten(fdt, d, i);
      case End =>
    }
  }

  lemma {:induction false} NodeThenFlatten(fdt: Fdt, d: Values, i: nat)
    requires ParseKids(fdt, i).Some? && fdt.structure[i].kind == BeginNode
    requires var sub, c := ParseKids(fdt, i + 1).value, ParseKids(fdt, i).value;
             var rest := ParseKids(fdt, sub.next).value;
             && Spelled(fdt, d, i + 1, sub.next) == FlattenKids(FillKids(sub.kids, d)) + [FlatEnd]
             && Spelled(fdt, d, sub.next, c.next) == FlattenKids(FillKids(rest.kids, d)) + [FlatEnd]
             && Spelled(fdt, d, i + 1, c.next) == Spelled(fdt, d, i + 1, sub.next) + Spelled(fdt, d, sub.next, c.next)
    ensures var c := ParseKids(fdt, i).value;
            Spelled(fdt, d, i, c.next) == FlattenKids(FillKids(c.kids, d)) + [FlatEnd]
  {
    hide Spelled, ParseKids, FlattenKids, FillKids;
    ParsedNode(fdt, d, i);
    var name, sub, c := fdt.structure[i].name, ParseKids(fdt, i + 1).value, ParseKids(fdt, i).value;
    var rest := ParseKids(fdt, sub.next).value;
    FlattenKidsPush<(), FdtTag>(Node((), name, sub.kids), rest.kids, d);
    FlattenedTree((), name, sub.kids, d);
    var s, r := FlattenKids(FillKids(sub.kids, d)), FlattenKids(FillKids(rest.kids, d));
    assert [FlatBegin(name)] + ((s + [FlatEnd]) + (r + [FlatEnd])) ==
        (([FlatBegin(name)] + s + [FlatEnd]) + r) + [FlatEnd];
  }

  lemma {:induction false} ParsedNode(fdt: Fdt, d: Values, i: nat)
    requires ParseKids(fdt, i).Some? && fdt.structure[i].kind == BeginNode
    ensures ParseKids(fdt, i + 1).Some? && ParseKids(fdt, ParseKids(fdt, i + 1).value.next).Some?
    ensures var name, sub, c := fdt.structure[i].name, ParseKids(fdt, i + 1).value, ParseKids(fdt, i).value;
            var rest := ParseKids(fdt, sub.next).value;
            && i < c.next == rest.next && c.kids == [Node((), name, sub.kids)] + rest.kids
            && Spelled(fdt, d, i, c.next) == [FlatBegin(name)] + Spelled(fdt, d, i + 1, c.next)
  {
  }

  lemma {:induction false} FlattenedTree<N, I>(id: N, name: string, kids: seq<Tree<N, I>>, d: Store<I>)
    ensures FlattenTree(Fill(Node(id, name, kids), d)) == [FlatBegin(name)] + FlattenKids(FillKids(kids, d)) + [FlatEnd]
  {
  }

  // ---------------------------------------------------------------- flatten, then parse

  /** Tokens `i..j` of a block are exactly these, without NOPs in between. */
  ghost predicate Spells(fdt: Fdt, d: Values, i: nat, s: seq<Flat>) {
    && i + |s| <= |fdt.structure|
    && forall k | 0 <= k < |s| :: SpellsOne(fdt, d, i + k, s[k])
  }

  ghost predicate SpellsOne(fdt: Fdt, d: Values, i: nat, f: Flat)
    requires i < |fdt.structure|
  {
    var tag := fdt.structure[i];
    match f
    case FlatBegin(name) => tag.kind == BeginNode && tag.name == name
    case FlatProp(name, data) => tag.kind == Property && fdt.String(tag.nameoff) == name && Val(d, tag) == data
    case FlatEnd => tag.kind == EndNode
  }

  lemma {:induction false} SpellsSplit(fdt: Fdt, d: Values, i: nat, s: seq<Flat>, t: seq<Flat>)
    requires Spells(fdt, d, i, s + t)
    ensures Spells(fdt, d, i, s) && Spells(fdt, d, i + |s|, t)
  {
    forall k | 0 <= k < |s| ensures SpellsOne(fdt, d, i + k, s[k]) {
      assert (s + t)[k] == s[k];
    }
    forall k | 0 <= k < |t| ensures SpellsOne(fdt, d, i + |s| + k, t[k]) {
      assert (s + t)[|s| + k] == t[k];
    }
  }

  /** Parsing a flattened child list gives the children back. */
  lemma {:induction false} FlattenThenParse(fdt: Fdt, d: Values, i: nat, kids: seq<Value>)
    requires Spells(fdt, d, i, FlattenKids(kids) + [FlatEnd])
    ensures var r := ParseKids(fdt, i);
            && r.Some? && r.value.next == i + |FlattenKids(kids)| + 1
            && FillKids(r.value.kids, d) == kids
    decreases kids
  {
    hide Spells, SpellsOne, ParseKids, FlattenKids, FlattenTree, FillKids;
    if kids == [] {
      EndSpelled(fdt, d, i);
    } else {
      var x, rest := kids[0], kids[1..];
      assert kids == [x] + rest;
      HeadSpelled(fdt, d, i, x, rest);
      FlattenThenParse(fdt, d, i + |FlattenTree(x)|, rest);
      if x.Node? {
        FlattenThenParse(fdt, d, i + 1, x.kids);
        FlattenedNode(fdt, d, i, x, rest);
      } else {
        FlattenedProp(fdt, d, i, x, rest);
      }
    }
  }

  lemma {:induction false} EndSpelled(fdt: Fdt, d: Values, i: nat)
    requires Spells(fdt, d, i, FlattenKids([]) + [FlatEnd])
    ensures var r := ParseKids(fdt, i);
            r.Some? && r.value.next == i + |FlattenKids([])| + 1 && FillKids(r.value.kids, d) == []
  {
    assert FlattenKids([]) + [FlatEnd] == [FlatEnd];
    assert SpellsOne(fdt, d, i + 0, [FlatEnd][0]);
  }

  /** The tokens of the first child, and where those of the others start. */
  lemma {:induction false} HeadSpelled(fdt: Fdt, d: Values, i: nat, x: Value, rest: seq<Value>)
    requires Spells(fdt, d, i, FlattenKids([x] + rest) + [FlatEnd])
    ensures i < |fdt.structure| && SpellsOne(fdt, d, i, if x.Node? then FlatBegin(x.name) else FlatProp(x.name, x.data))
    ensures x.Node? ==> Spells(fdt, d, i + 1, FlattenKids(x.kids) + [FlatEnd])
    ensures |FlattenTree(x)| == if x.Node? then |FlattenKids(x.kids)| + 2 else 1
    ensures Spells(fdt, d, i + |FlattenTree(x)|, FlattenKids(rest) + [FlatEnd])
    ensures |FlattenKids([x] + rest)| == |FlattenTree(x)| + |FlattenKids(rest)|
  {
    assert ([x] + rest)[1..] == rest;
    var sx, sr := FlattenTree(x), FlattenKids(rest);
    assert FlattenKids([x] + rest) + [FlatEnd] == sx + (sr + [FlatEnd]);
    SpellsSplit(fdt, d, i, sx, sr + [FlatEnd]);
    assert SpellsOne(fdt, d, i + 0, sx[0]);
    if x.Node? {
      assert sx == [FlatBegin(x.name)] + (FlattenKids(x.kids) + [FlatEnd]);
      SpellsSplit(fdt, d, i, [FlatBegin(x.name)], FlattenKids(x.kids) + [FlatEnd]);
    }
  }

  lemma {:induction false} FlattenedProp(fdt: Fdt, d: Values, i: nat, x: Value, rest: seq<Value>)
    requires x.Prop? && i < |fdt.structure| && SpellsOne(fdt, d, i, FlatProp(x.name, x.data))
    requires ParseKids(fdt, i + 1).Some? && FillKids(ParseKids(fdt, i + 1).value.kids, d) == rest
    ensures ParseKids(fdt, i).Some? && ParseKids(fdt, i).value.next == ParseKids(fdt, i + 1).value.next
    ensures FillKids(ParseKids(fdt, i).value.kids, d) == [x] + rest
  {
    var tag := fdt.structure[i];
    var t: Parsed := Prop((), fdt.String(tag.nameoff), tag);
    assert x.id == () && Fill(t, d) == x;
    FlattenKidsPush(t, ParseKids(fdt, i + 1).value.kids, d);
  }

  lemma {:induction false} FlattenedNode(fdt: Fdt, d: Values, i: nat, x: Value, rest: seq<Value>)
    requires x.Node? && i < |fdt.structure| && SpellsOne(fdt, d, i, FlatBegin(x.name))
    requires ParseKids(fdt, i + 1).Some? && FillKids(ParseKids(fdt, i + 1).value.kids, d) == x.kids
    requires var next := ParseKids(fdt, i + 1).value.next;
             ParseKids(fdt, next).Some? && FillKids(ParseKids(fdt, next).value.kids, d) == rest
    ensures ParseKids(fdt, i).Some?
    ensures ParseKids(fdt, i).value.next == ParseKids(fdt, ParseKids(fdt, i + 1).value.next).value.next
    ensures FillKids(ParseKids(fdt, i).value.kids, d) == [x] + rest
  {
    var tag, sub := fdt.structure[i], ParseKids(fdt, i + 1).value;
    var t: Parsed := Node((), tag.name, sub.kids);
    assert x.id == () && Fill(t, d) == x;
    FlattenKidsPush(t, ParseKids(fdt, sub.next).value.kids, d);
  }

  lemma {:induction false} FlattenOne(x: Value)
    ensures FlattenKids([x]) == FlattenTree(x)
  {
    assert [x][1..] == [];
  }

  lemma {:induction false} FlattenKidsAppend(s: seq<Value>, t: seq<Value>)
    ensures FlattenKids(s + t) == FlattenKids(s) + FlattenKids(t)
    decreases s
  {
    if s == [] {
      assert s + t == t;
    } else {
      assert (s + t)[1..] == s[1..] + t;
      FlattenKidsAppend(s[1..], t);
    }
  }

  // ---------------------------------------------------------------- what the output functions write

  /** The tokens of a tree: properties first, then subnodes. */
  function OutTree<N, I>(t: Tree<N, I>, d: Store<I>): seq<Flat> {
    match t
    case Prop(_, name, i) => [FlatProp(name, Val(d, i))]
    case Node(_, name, kids) =>
      [FlatBegin(name)] + OutKids(kids, false, d) + OutKids(kids, true, d) + [FlatEnd]
  }

  /** The tokens of the children of one kind. */
  function OutKids<N, I>(kids: seq<Tree<N, I>>, isNode: bool, d: Store<I>): seq<Flat> {
    if kids == [] then []
    else
      OutKids(kids[..|kids| - 1], isNode, d) +
      if kids[|kids| - 1].Node? == isNode then OutTree(kids[|kids| - 1], d) else []
  }

  /** The tokens written for a tree are the flattened form of the tree with properties first. */
  lemma {:induction false} OutIsFlatten<N, I>(t: Tree<N, I>, d: Store<I>)
    ensures OutTree(t, d) == FlattenTree(PropsFirst(Fill(t, d)))
  {
    if t.Node? {
      var v := PropsFirstKids(FillKids(t.kids, d));
      OutKidsIsFlatten(t.kids, false, d);
      OutKidsIsFlatten(t.kids, true, d);
      FlattenKidsAppend(Select(v, false), Select(v, true));
    }
  }

  lemma {:induction false} OutKidsIsFlatten<N, I>(kids: seq<Tree<N, I>>, isNode: bool, d: Store<I>)
    ensures OutKids(kids, isNode, d) == FlattenKids(Select(PropsFirstKids(FillKids(kids, d)), isNode))
  {
    if kids != [] {
      var rest, last := kids[..|kids| - 1], kids[|kids| - 1];
      var v, x := PropsFirstKids(FillKids(rest, d)), PropsFirst(Fill(last, d));
      OutKidsIsFlatten(rest, isNode, d);
      OutIsFlatten(last, d);
      assert OutKids(kids, isNode, d) == OutKids(rest, isNode, d) + if last.Node? == isNode then OutTree(last, d)
          else [];
      hide Select, FlattenKids, FlattenTree, PropsFirst, Fill, OutTree, OutKids;
      LastReordered(kids, d);
      FlattenLast(v, x, isNode);
    }
  }

  lemma {:induction false} LastReordered<N, I>(kids: seq<Tree<N, I>>, d: Store<I>)
    requires kids != []
    ensures PropsFirstKids(FillKids(kids, d)) ==
              PropsFirstKids(FillKids(kids[..|kids| - 1], d)) + [PropsFirst(Fill(kids[|kids| - 1], d))]
  {
    hide PropsFirst, Fill;
  }

  lemma {:induction false} FlattenLast(v: seq<Value>, x: Value, isNode: bool)
    ensures FlattenKids(Select(v + [x], isNode)) ==
              FlattenKids(Select(v, isNode)) + if x.Node? == isNode then FlattenTree(x) else []
  {
    SelectAppend(v, [x], isNode);
    FlattenKidsAppend(Select(v, isNode), Select([x], isNode));
    FlattenOne(x);
    assert Select([x], isNode) == if x.Node? == isNode then [x] else [];
  }

  lemma {:induction false} SelectAppend<N, D>(s: seq<Tree<N, D>>, t: seq<Tree<N, D>>, isNode: bool)
    ensures Select(s + t, isNode) == Select(s, isNode) + Select(t, isNode)
    decreases s
  {
    if s == [] {
      assert s + t == t;
    } else {
      assert (s + t)[0] == s[0] && (s + t)[1..] == s[1..] + t;
      SelectAppend(s[1..], t, isNode);
      var one := if s[0].Node? == isNode then [s[0]] else [];
      assert one + (Select(s[1..], isNode) + Select(t, isNode)) == one + Select(s[1..], isNode) + Select(t, isNode);
    }
  }

  /** A blob that spells the tokens of a tree decodes to that tree, properties first. */
  lemma {:induction false} DecodeWritten<N, I>(out: Fdt, d': Values, t: Tree<N, I>, d: Store<I>)
    requires t.Node? && Spells(out, d', 0, OutTree(t, d))
    requires Placed(out) && |OutTree(t, d)| < |out.structure|
    ensures WellFormed(out) && Fill(Decode(out), d') == PropsFirst(Fill(t, d))
  {
    OutIsFlatten(t, d);
    var v := PropsFirst(Fill(t, d));
    FlattenOne(v);
    assert FlattenTree(v) == [FlatBegin(v.name)] + (FlattenKids(v.kids) + [FlatEnd]);
    SpellsSplit(out, d', 0, [FlatBegin(v.name)], FlattenKids(v.kids) + [FlatEnd]);
    assert SpellsOne(out, d', 0 + 0, [FlatBegin(v.name)][0]);
    FlattenThenParse(out, d', 1, v.kids);
    assert v.id == ();
  }
}
