/** What applying fragments keeps and adds, for trees with any labels. */
module FragmentLaws {
  import opened Bytes
  import opened Blobs
  import opened Trees
  import opened MergeLaws
  import opened Paths
  import opened Phandles
  import opened OverlaySpec
  import opened Subtrees
  import opened Flattening
  import opened Sizes
  import opened Renumbering

  // ---------------------------------------------------------------- targets

  /** All entries of the table name nodes of the main tree. */
  ghost predicate TableIn<N(!new), I>(table: seq<Entry<N>>, mt: Tree<N, I>) {
    Sorted(table) && forall e | e in table :: HasNode(mt, e.node)
  }

  lemma {:induction false} TargetFound<N(!new), I>(mt: Tree<N, I>, table: seq<Entry<N>>, frag: Tree<N, I>, d: Store<I>)
    requires TableIn(table, mt) && mt.Node? && Separate(mt)
    ensures var n := Target(mt, table, frag, d).1; n.Some? ==> HasNode(mt, n.value)
  {
    var path := PropOf(frag, "target-path");
    if path.Some? {
      var text := Text(d, path.value);
      if TreePath(mt, d, text).Some? {
        TreePathHasNode(mt, d, text);
      }
    }
  }

  lemma {:induction false} TreePathHasNode<N, I>(t: Tree<N, I>, d: Store<I>, path: string)
    requires Separate(t) && t.Node? && TreePath(t, d, path).Some?
    ensures HasNode(t, TreePath(t, d, path).value.id)
  {
    if path != "" && path[0] == '/' {
      DescendAt(t, Components(path));
    } else {
      var k := IndexOf(path, '/');
      var alias := PropAt(t, ["aliases"], path[..k]);
      AliasExpands(t, d, path);
      DescendAt(t, AliasComponents(Val(d, alias.value)) + Components(path[k..]));
    }
  }

  /** Table entries survive every merge. */
  lemma {:induction false} TableStays<N(!new), I>(table: seq<Entry<N>>, mt: Tree<N, I>, id: N, ov: Tree<N, I>)
    requires TableIn(table, mt) && ov.Node?
    ensures TableIn(table, MergeAt(mt, id, ov))
  {
    forall e | e in table ensures HasNode(MergeAt(mt, id, ov), e.node) {
      MergeAtKeepsNode(mt, id, ov, e.node);
    }
  }

  // ---------------------------------------------------------------- labels

  lemma {:induction false} MergeAtIds<N, D>(t: Tree<N, D>, id: N, o: Tree<N, D>)
    requires Separate(t) && HasNode(t, id) && o.Node? && Separate(o) && Ids(t) !! Ids(o)
    ensures Separate(MergeAt(t, id, o))
    ensures Ids(t) <= Ids(MergeAt(t, id, o)) <= Ids(t) + Ids(o)
  {
    NodeAt(t, id);
    AtInside(t, id);
    MergeIds(At(t, id), o);
    MergeAtReplaces(t, id, o);
    ReplaceIds(t, id, Merge(At(t, id), o));
  }

  /** One fragment: the result is still a tree without shared nodes that has all nodes the tree had. */
  lemma {:induction false} FragmentIds<N(!new), I>(m: Tree<N, I>, table: seq<Entry<N>>, frag: Tree<N, I>, d: Store<I>)
    requires m.Node? && Separate(m) && TableIn(table, m) && frag.Node? && Separate(frag) && Ids(m) !! Ids(frag)
    ensures var m' := ApplyFragment(m, table, frag, d).1;
            && m'.Node? && Separate(m') && TableIn(table, m') && Ids(m) <= Ids(m') <= Ids(m) + Ids(frag)
    ensures forall n | HasNode(m, n) :: HasNode(ApplyFragment(m, table, frag, d).1, n)
  {
    hide Target, TreePath, Descend, Components, Separate, HasNode, TableIn, MergeAt, Ids, KidIds, Fill, TreeSize;
    hide FillKids;
    TargetFound(m, table, frag, d);
    var target, overlay := Target(m, table, frag, d).1, Subnode(frag, "__overlay__");
    if target.Some? && overlay.Some? && overlay.value.Node? {
      DescendAt(frag, ["__overlay__"]);
      AtInside(frag, overlay.value.id);
      MergeAtIds(m, target.value, overlay.value);
      TableStays(table, m, target.value, overlay.value);
      forall n | HasNode(m, n) ensures HasNode(MergeAt(m, target.value, overlay.value), n) {
        MergeAtKeepsNode(m, target.value, overlay.value, n);
      }
    }
  }

  /** All fragments; nodes of the main tree, and with them table entries, never go away. */
  lemma {:induction false} FragmentsIds<N(!new), I>(m: Tree<N, I>, table: seq<Entry<N>>, frags: seq<Tree<N, I>>,
                                                    d: Store<I>)
    requires m.Node? && Separate(m) && TableIn(table, m) && SeparateKids(frags) && Ids(m) !! KidIds(frags)
    ensures var m' := ApplyFragments(m, table, frags, d);
            && m'.Node? && Separate(m') && TableIn(table, m') && Ids(m) <= Ids(m') <= Ids(m) + KidIds(frags)
    ensures forall n | HasNode(m, n) :: HasNode(ApplyFragments(m, table, frags, d), n)
    decreases |frags|
  {
    if frags != [] {
      var rest, frag := frags[..|frags| - 1], frags[|frags| - 1];
      LastIds(frags);
      FragmentsIds(m, table, rest, d);
      if frag.Node? {
        FragmentIds(ApplyFragments(m, table, rest, d), table, frag, d);
      }
    }
  }

  lemma {:induction false} NoFragments<N, I>(m: Tree<N, I>, table: seq<Entry<N>>, frags: seq<Tree<N, I>>, d: Store<I>)
    ensures ApplyFragments(m, table, frags[..0], d) == m
  {
  }

  lemma {:induction false} LastIds<N, D>(kids: seq<Tree<N, D>>)
    requires kids != [] && SeparateKids(kids)
    ensures var rest, last := kids[..|kids| - 1], kids[|kids| - 1];
            && SeparateKids(rest) && Separate(last) && KidIds(rest) !! Ids(last)
                && KidIds(kids) == KidIds(rest) + Ids(last)
  {
    KidIdsSplit(kids, |kids| - 1);
    assert kids[..|kids|] == kids;
  }

  // ---------------------------------------------------------------- one after the other

  /** Two fragments for one target are one fragment with their merge. */
  lemma {:induction false} MergeAtTwice<N, D>(t: Tree<N, D>, id: N, b: Tree<N, D>, c: Tree<N, D>)
    requires b.Node? && c.Node? && Unique(b) && Unique(c)
    ensures MergeAt(MergeAt(t, id, b), id, c) == MergeAt(t, id, Merge(b, c))
    decreases t
  {
    if t.Node? {
      if t.id == id {
        MergeAssoc(t, b, c);
      } else {
        var r := MergeAt(MergeAt(t, id, b), id, c);
        forall i | 0 <= i < |t.kids| ensures r.kids[i] == MergeAt(t, id, Merge(b, c)).kids[i] {
          MergeAtTwice(t.kids[i], id, b, c);
        }
        assert r.kids == MergeAt(t, id, Merge(b, c)).kids;
      }
    }
  }

  /** The same fragment twice is the fragment once. */
  lemma {:induction false} MergeAtAgain<N, D>(t: Tree<N, D>, id: N, b: Tree<N, D>)
    requires b.Node? && Unique(b)
    ensures MergeAt(MergeAt(t, id, b), id, b) == MergeAt(t, id, b)
  {
    MergeAtTwice(t, id, b, b);
    MergeSelf(b);
  }

  /** An overlay without children changes nothing. */
  lemma {:induction false} EmptyOverlay<N(!new), I(!new)>(m: Tree<N, I>, table: seq<Entry<N>>, o: Tree<N, I>,
                                                          d: Store<I>)
    requires o.Node? && o.kids == []
    ensures OverlayApply(m, table, o, d) == Some(Outcome(m, d))
  {
    hide Shift, LocalFixups, Fixups;
    EmptyShift(o, d, MaxPhandle(table));
    EmptyFixups(m, o, d, MaxPhandle(table));
  }

  lemma {:induction false} EmptyShift<N, I(!new)>(o: Tree<N, I>, d: Store<I>, delta: u32)
    requires o.Node? && o.kids == []
    ensures Shift(o, d, delta) == d
  {
    assert PropOf(o, "phandle").None? && PropOf(o, "linux,phandle").None?;
    assert PhandleCells(o, d) == {};
  }

  lemma {:induction false} EmptyFixups<N, I>(m: Tree<N, I>, o: Tree<N, I>, d: Store<I>, delta: u32)
    requires o.Node? && o.kids == []
    ensures LocalFixups(o, d, delta) == Some(d) && Fixups(m, o, d) == Some(d)
  {
    hide Descend, LocalFixup, FixupProps, HasProp;
    NothingBelow(o, "__local_fixups__");
    NothingBelow(o, "__fixups__");
  }

  lemma {:induction false} NothingBelow<N, D>(o: Tree<N, D>, name: string)
    requires o.Node? && o.kids == []
    ensures Subnode(o, name).None?
  {
  }

  // ---------------------------------------------------------------- sizes

  lemma {:induction false} MergeAtSize<N, I>(t: Tree<N, I>, id: N, o: Tree<N, I>, d: Store<I>)
    requires Separate(t) && HasNode(t, id) && o.Node?
    ensures TreeSize(Fill(MergeAt(t, id, o), d)) <= TreeSize(Fill(t, d)) + KidSizes(FillKids(o.kids, d))
    decreases t
  {
    if t.id == id {
      FillMerge(t, o, d);
      MergeSize(Fill(t, d), Fill(o, d));
    } else {
      HasNodeHasId(t, id);
      var i := KidWith(t, id);
      KidHasNode(t, i, id);
      MergeAtSize(t.kids[i], id, o, d);
      MergeAtKid(t, id, o, i);
      var x := MergeAt(t.kids[i], id, o);
      assert FillKids(t.kids[i := x], d) == FillKids(t.kids, d)[i := Fill(x, d)];
      KidSizesUpdate(FillKids(t.kids, d), i, Fill(x, d));
    }
  }

  /** A subtree takes no more than the tree. */
  lemma {:induction false} DescendSize<N, I>(t: Tree<N, I>, path: seq<string>, d: Store<I>)
    requires Descend(t, path).Some?
    ensures TreeSize(Fill(Descend(t, path).value, d)) <= TreeSize(Fill(t, d))
    decreases path
  {
    if path != [] {
      var i := Find(t.kids, true, path[0]);
      DescendSize(t.kids[i], path[1..], d);
      KidSizesPrefix(FillKids(t.kids, d), i + 1);
      assert FillKids(t.kids, d)[..i + 1][..i] == FillKids(t.kids, d)[..i];
    }
  }

  /** The whole result takes no more than the main tree and the fragments together. */
  lemma {:induction false} FragmentsSize<N(!new), I>(m: Tree<N, I>, table: seq<Entry<N>>, frags: seq<Tree<N, I>>,
                                                     d: Store<I>)
    requires m.Node? && Separate(m) && TableIn(table, m) && SeparateKids(frags) && Ids(m) !! KidIds(frags)
    ensures TreeSize(Fill(ApplyFragments(m, table, frags, d), d)) <= TreeSize(Fill(m, d)) + KidSizes(FillKids(frags, d))
    decreases |frags|
  {
    if frags != [] {
      var rest, frag := frags[..|frags| - 1], frags[|frags| - 1];
      LastIds(frags);
      FragmentsSize(m, table, rest, d);
      FragmentsIds(m, table, rest, d);
      assert FillKids(frags, d)[..|frags| - 1] == FillKids(rest, d);
      if frag.Node? {
        FragmentSize(ApplyFragments(m, table, rest, d), table, frag, d);
      }
    }
  }

  lemma {:induction false} FragmentSize<N(!new), I>(m: Tree<N, I>, table: seq<Entry<N>>, frag: Tree<N, I>, d: Store<I>)
    requires m.Node? && Separate(m) && TableIn(table, m) && frag.Node?
    ensures TreeSize(Fill(ApplyFragment(m, table, frag, d).1, d)) <= TreeSize(Fill(m, d)) + TreeSize(Fill(frag, d))
  {
    hide Target, TreePath, Descend, Components, Separate, HasNode, TableIn, MergeAt, Ids, KidIds, Fill, TreeSize;
    hide FillKids;
    TargetFound(m, table, frag, d);
    var target, overlay := Target(m, table, frag, d).1, Subnode(frag, "__overlay__");
    if target.Some? && overlay.Some? && overlay.value.Node? {
      DescendSize(frag, ["__overlay__"], d);
      MergeAtSize(m, target.value, overlay.value, d);
      ChildrenSize(overlay.value, d);
    }
  }

  lemma {:induction false} ChildrenSize<N, I>(t: Tree<N, I>, d: Store<I>)
    requires t.Node?
    ensures KidSizes(FillKids(t.kids, d)) + 8 <= TreeSize(Fill(t, d))
  {
  }

  lemma {:induction false} SizeSame<N, I(!new)>(t: Tree<N, I>, d: Store<I>, d': Store<I>)
    requires SameLengths(d, d')
    ensures TreeSize(Fill(t, d')) == TreeSize(Fill(t, d))
    decreases t, 0
  {
    if t.Node? {
      KidSizesSame(t.kids, d, d');
    }
  }

  lemma {:induction false} KidSizesSame<N, I(!new)>(kids: seq<Tree<N, I>>, d: Store<I>, d': Store<I>)
    requires SameLengths(d, d')
    ensures KidSizes(FillKids(kids, d')) == KidSizes(FillKids(kids, d))
    decreases kids, 0
  {
    if kids != [] {
      var rest := kids[..|kids| - 1];
      KidSizesSame(rest, d, d');
      SizeSame(kids[|kids| - 1], d, d');
      assert FillKids(kids, d)[..|kids| - 1] == FillKids(rest, d);
      assert FillKids(kids, d')[..|kids| - 1] == FillKids(rest, d');
    }
  }
}
