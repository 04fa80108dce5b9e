/** Moving properties before subnodes changes nothing but the order. */
module Reordering {
  import opened Bytes
  import opened Trees
  import opened MergeLaws
  import opened Paths
  import opened Phandles
  import opened OverlaySpec
  import opened Flattening
  import opened PhandleLaws
  import opened Uniqueness
  import opened Preservation

  // ---------------------------------------------------------------- lookups

  lemma {:induction false} FindAppend<N, D>(s: seq<Tree<N, D>>, t: seq<Tree<N, D>>, isNode: bool, name: string)
    ensures Find(s + t, isNode, name) == if Find(s, isNode, name) < |s| then Find(s, isNode, name)
            else |s| + Find(t, isNode, name)
  {
    var i := Find(s, isNode, name);
    FindIs(s + t, isNode, name, if i < |s| then i else |s| + Find(t, isNode, name));
  }

  /** Selecting one kind keeps what a lookup of that kind finds. */
  lemma {:induction false} FindSelected<N, D>(kids: seq<Tree<N, D>>, isNode: bool, name: string)
    ensures var s, i := Select(kids, isNode), Find(kids, isNode, name);
            var k := Find(s, isNode, name);
            (k < |s| <==> i < |kids|) && (k < |s| ==> s[k] == kids[i])
  {
    hide Find, Select;
    if kids == [] {
      NothingFound<N, D>(isNode, name);
    } else {
      var x, rest := kids[0], kids[1..];
      assert kids == [x] + rest;
      FindSelected(rest, isNode, name);
      FindFront(x, rest, isNode, name);
      SelectFront(x, rest, isNode);
      if x.Node? == isNode {
        FindFront(x, Select(rest, isNode), isNode, name);
      }
    }
  }

  lemma {:induction false} NothingFound<N, D>(isNode: bool, name: string)
    ensures var none: seq<Tree<N, D>> := []; Select(none, isNode) == [] && Find(none, isNode, name) == 0
  {
  }

  lemma {:induction false} FindFront<N, D>(x: Tree<N, D>, rest: seq<Tree<N, D>>, isNode: bool, name: string)
    ensures Find([x] + rest, isNode, name) == if Named(x, isNode, name) then 0 else 1 + Find(rest, isNode, name)
  {
    assert ([x] + rest)[1..] == rest;
  }

  lemma {:induction false} SelectFront<N, D>(x: Tree<N, D>, rest: seq<Tree<N, D>>, isNode: bool)
    ensures Select([x] + rest, isNode) == if x.Node? == isNode then [x] + Select(rest, isNode) else Select(rest, isNode)
  {
    assert ([x] + rest)[1..] == rest;
  }

  /** It leaves nothing of the other kind. */
  lemma {:induction false} FindOtherKind<N, D>(kids: seq<Tree<N, D>>, isNode: bool, name: string)
    ensures Find(Select(kids, !isNode), isNode, name) == |Select(kids, !isNode)|
  {
    FindIs(Select(kids, !isNode), isNode, name, |Select(kids, !isNode)|);
  }

  /** Nor does putting one kind in front of the other. */
  lemma {:induction false} FindTwoKinds<N, D>(kids: seq<Tree<N, D>>, isNode: bool, name: string)
    ensures var r, i := Select(kids, false) + Select(kids, true), Find(kids, isNode, name);
            var k := Find(r, isNode, name);
            (k < |r| <==> i < |kids|) && (k < |r| ==> r[k] == kids[i])
  {
    FindSelected(kids, isNode, name);
    FindOtherKind(kids, isNode, name);
    hide Select, Find;
    FindAppend(Select(kids, false), Select(kids, true), isNode, name);
  }

  /** A lookup finds the same child, itself reordered. */
  lemma {:induction false} FindReordered<N, D>(t: Tree<N, D>, isNode: bool, name: string)
    requires t.Node?
    ensures var r := PropsFirst(t);
            var i, k := Find(t.kids, isNode, name), Find(r.kids, isNode, name);
            && (k < |r.kids| <==> i < |t.kids|) && (k < |r.kids| ==> r.kids[k] == PropsFirst(t.kids[i]))
  {
    var kids := PropsFirstKids(t.kids);
    FindIs(kids, isNode, name, Find(t.kids, isNode, name));
    assert PropsFirst(t).kids == Select(kids, false) + Select(kids, true);
    hide Select, Find, PropsFirst;
    FindTwoKinds(kids, isNode, name);
  }

  /** Properties read the same. */
  lemma {:induction false} PropOfReordered<N, D>(t: Tree<N, D>, name: string)
    ensures PropOf(PropsFirst(t), name) == PropOf(t, name)
  {
    if t.Node? {
      FindReordered(t, false, name);
    }
  }

  /** Paths lead to the same nodes. */
  lemma {:induction false} DescendReordered<N, D>(t: Tree<N, D>, path: seq<string>)
    ensures var n, r := Descend(t, path), Descend(PropsFirst(t), path);
            (r.Some? <==> n.Some?) && (r.Some? ==> r.value == PropsFirst(n.value))
    decreases path
  {
    if path != [] && t.Node? {
      FindReordered(t, true, path[0]);
      var i := Find(t.kids, true, path[0]);
      if i < |t.kids| {
        DescendReordered(t.kids[i], path[1..]);
      }
    }
  }

  // ---------------------------------------------------------------- uniqueness of names

  lemma {:induction false} SelectDistinct<N, D>(kids: seq<Tree<N, D>>, isNode: bool)
    requires DistinctNames(kids)
    ensures DistinctNames(Select(kids, isNode))
    ensures forall x | x in Select(kids, isNode) :: x in kids
  {
    if kids != [] {
      var rest := kids[1..];
      assert forall i, j | 0 <= i < j < |rest| :: rest[i] == kids[i + 1] && rest[j] == kids[j + 1];
      SelectDistinct(rest, isNode);
      forall x | x in Select(rest, isNode) ensures !SameName(kids[0], x) {
        var j :| 0 <= j < |rest| && rest[j] == x;
        assert !SameName(kids[0], kids[j + 1]);
      }
    }
  }

  lemma {:induction false} UniqueReordered<N, D>(t: Tree<N, D>)
    requires Unique(t)
    ensures Unique(PropsFirst(t))
  {
    if t.Node? {
      var kids := PropsFirstKids(t.kids);
      forall i | 0 <= i < |kids| ensures Unique(kids[i]) {
        UniqueReordered(t.kids[i]);
      }
      assert DistinctNames(kids);
      SelectDistinct(kids, false);
      SelectDistinct(kids, true);
      TwoKinds(Select(kids, false), Select(kids, true));
    }
  }

  lemma {:induction false} TwoKinds<N, D>(props: seq<Tree<N, D>>, nodes: seq<Tree<N, D>>)
    requires DistinctNames(props) && DistinctNames(nodes)
    requires (forall x | x in props :: x.Prop? && Unique(x)) && (forall x | x in nodes :: x.Node? && Unique(x))
    ensures UniqueKids(props + nodes)
  {
    var kids := props + nodes;
    forall i | 0 <= i < |kids| ensures Unique(kids[i]) && kids[i].Node? == (i >= |props|) {
      assert kids[i] in props || kids[i] in nodes;
      assert i >= |props| ==> kids[i] == nodes[i - |props|] && kids[i] in nodes;
      assert i < |props| ==> kids[i] == props[i] && kids[i] in props;
    }
    forall i, j | 0 <= i < j < |kids| ensures !SameName(kids[i], kids[j]) {
      if j < |props| {
        assert kids[i] == props[i] && kids[j] == props[j];
      } else if i >= |props| {
        assert kids[i] == nodes[i - |props|] && kids[j] == nodes[j - |props|];
      }
    }
  }

  // ---------------------------------------------------------------- phandles

  lemma {:induction false} KidTimesAppend(s: seq<Value>, t: seq<Value>, p: u32)
    ensures KidTimes(s + t, p) == KidTimes(s, p) + KidTimes(t, p)
    decreases |t|
  {
    if t == [] {
      assert s + t == s;
    } else {
      assert (s + t)[..|s + t| - 1] == s + t[..|t| - 1];
      KidTimesAppend(s, t[..|t| - 1], p);
    }
  }

  lemma {:induction false} SelectTimes(kids: seq<Value>, p: u32)
    ensures KidTimes(Select(kids, false), p) + KidTimes(Select(kids, true), p) == KidTimes(kids, p)
  {
    if kids != [] {
      var x, rest := kids[0], kids[1..];
      SelectTimes(rest, p);
      assert Select(kids, x.Node?) == [x] + Select(rest, x.Node?);
      assert Select(kids, !x.Node?) == Select(rest, !x.Node?);
      KidTimesAppend([x], rest, p);
      KidTimesAppend([x], Select(rest, x.Node?), p);
      assert [x] + rest == kids && [x][..0] == [];
    }
  }

  lemma {:induction false} PhandleReordered(v: Value)
    ensures PhandleOf(PropsFirst(v)) == PhandleOf(v)
  {
    hide PropsFirst, PropOf;
    PropOfReordered(v, "phandle");
    PropOfReordered(v, "linux,phandle");
  }

  lemma {:induction false} TimesReordered(v: Value, p: u32)
    ensures Times(PropsFirst(v), p) == Times(v, p)
    decreases v, 0
  {
    if v.Node? {
      var kids := PropsFirstKids(v.kids);
      PhandleReordered(v);
      KidTimesReordered(v.kids, p);
      assert PropsFirst(v).kids == Select(kids, false) + Select(kids, true);
      hide PhandleOf, Select, PropsFirst, KidTimes;
      SelectTimes(kids, p);
      KidTimesAppend(Select(kids, false), Select(kids, true), p);
    }
  }

  lemma {:induction false} KidTimesReordered(kids: seq<Value>, p: u32)
    ensures KidTimes(PropsFirstKids(kids), p) == KidTimes(kids, p)
    decreases kids, 0
  {
    if kids != [] {
      assert PropsFirstKids(kids)[..|kids| - 1] == PropsFirstKids(kids[..|kids| - 1]);
      KidTimesReordered(kids[..|kids| - 1], p);
      TimesReordered(kids[|kids| - 1], p);
    }
  }

  lemma {:induction false} CellsReordered(v: Value)
    requires CellPhandles(v)
    ensures CellPhandles(PropsFirst(v))
  {
    if v.Node? {
      PropOfReordered(v, "phandle");
      PropOfReordered(v, "linux,phandle");
      var kids, r := PropsFirstKids(v.kids), PropsFirst(v);
      forall i | 0 <= i < |kids| ensures CellPhandles(kids[i]) {
        CellsReordered(v.kids[i]);
      }
      forall i | 0 <= i < |r.kids| ensures CellPhandles(r.kids[i]) {
        assert r.kids[i] in kids by {
          assert i < |Select(kids, false)| ==> r.kids[i] == Select(kids, false)[i];
          assert i >= |Select(kids, false)| ==> r.kids[i] == Select(kids, true)[i - |Select(kids, false)|];
        }
      }
    }
  }

  /** What the next overlay relies on survives writing the blob. */
  lemma {:induction false} SaneReordered(v: Value, b: nat)
    requires Sane(v) && 0 < b && Below(v, b)
    ensures Sane(PropsFirst(v)) && Below(PropsFirst(v), b)
  {
    hide Times, Below, CellPhandles, Unique, PropsFirst;
    UniqueReordered(v);
    CellsReordered(v);
    forall p: u32 ensures Times(PropsFirst(v), p) == Times(v, p) {
      TimesReordered(v, p);
    }
    forall p: u32 | p >= b ensures Times(PropsFirst(v), p) == 0 {
      TimesBelow(v, b, p);
    }
    BelowTimes(PropsFirst(v), b);
  }

  // ---------------------------------------------------------------- names stay unique in the result

  lemma {:induction false} MergeAtUnique<N, D>(t: Tree<N, D>, id: N, o: Tree<N, D>)
    requires Unique(t) && o.Node? && Unique(o)
    ensures Unique(MergeAt(t, id, o))
    decreases t
  {
    if t.Node? {
      if t.id == id {
        MergeUnique(t, o);
      } else {
        var r := MergeAt(t, id, o);
        forall i | 0 <= i < |t.kids| ensures Unique(r.kids[i]) && (r.kids[i].Node? == t.kids[i].Node?)
            && r.kids[i].name == t.kids[i].name {
          MergeAtUnique(t.kids[i], id, o);
        }
        forall i, j | 0 <= i < j < |t.kids| ensures !SameName(r.kids[i], r.kids[j]) {
          assert !SameName(t.kids[i], t.kids[j]);
        }
      }
    }
  }

  lemma {:induction false} FragmentsUnique<N, I>(m: Tree<N, I>, table: seq<Entry<N>>, frags: seq<Tree<N, I>>,
                                                 d: Store<I>)
    requires Unique(m) && forall i | 0 <= i < |frags| :: Unique(frags[i])
    ensures Unique(ApplyFragments(m, table, frags, d))
    decreases |frags|
  {
    if frags != [] {
      var rest, frag := frags[..|frags| - 1], frags[|frags| - 1];
      FragmentsUnique(m, table, rest, d);
      FragmentUnique(ApplyFragments(m, table, rest, d), table, frag, d);
    }
  }

  lemma {:induction false} FragmentUnique<N, I>(m: Tree<N, I>, table: seq<Entry<N>>, frag: Tree<N, I>, d: Store<I>)
    requires Unique(m) && Unique(frag)
    ensures Unique(ApplyFragment(m, table, frag, d).1)
  {
    hide Target, Components, Unique, MergeAt;
    var target, overlay := Target(m, table, frag, d).1, Subnode(frag, "__overlay__");
    if target.Some? && overlay.Some? && overlay.value.Node? {
      DescendUnique(frag, ["__overlay__"]);
      MergeAtUnique(m, target.value, overlay.value);
    }
  }
}
