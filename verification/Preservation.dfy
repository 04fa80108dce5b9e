/** What fragments preserve: the paths of the main tree, its property values, and phandles that are not overwritten. */
module Preservation {
  import opened Bytes
  import opened Trees
  import opened MergeLaws
  import opened Paths
  import opened Phandles
  import opened OverlaySpec
  import opened Subtrees
  import opened TableLaws
  import opened Renumbering
  import opened ReferenceLaws
  import opened FixupPlans
  import opened FragmentLaws
  import opened Uniqueness

  // ---------------------------------------------------------------- paths

  /** A path that resolves still resolves, to the same node, after a merge anywhere. */
  lemma {:induction false} MergeAtResolves<N, D>(t: Tree<N, D>, id: N, o: Tree<N, D>, path: seq<string>)
    requires t.Node? && o.Node? && Unique(o) && Descend(t, path).Some?
    ensures var r := Descend(MergeAt(t, id, o), path); r.Some? && r.value.id == Descend(t, path).value.id
    decreases t
  {
    if t.id == id {
      MergeResolves(t, o, path);
    } else if path != [] {
      var i, t' := Find(t.kids, true, path[0]), MergeAt(t, id, o);
      FindIs(t'.kids, true, path[0], i);
      MergeAtResolves(t.kids[i], id, o, path[1..]);
    }
  }

  /** The node that was merged into is where it was, and is the merge. */
  lemma {:induction false} DescendMerged<N, D>(t: Tree<N, D>, id: N, o: Tree<N, D>, path: seq<string>)
    requires t.Node? && Separate(t) && o.Node? && Descend(t, path).Some? && Descend(t, path).value.id == id
    ensures Descend(MergeAt(t, id, o), path) == Some(Merge(Descend(t, path).value, o))
    decreases path
  {
    if path != [] {
      var i, t' := Find(t.kids, true, path[0]), MergeAt(t, id, o);
      DescendAt(t.kids[i], path[1..]);
      AtKid(t, i, id);
      FindIs(t'.kids, true, path[0], i);
      DescendMerged(t.kids[i], id, o, path[1..]);
    }
  }

  /** What properties read as below the target: the overlay's value, else the one from before. */
  lemma {:induction false} ReadsBelowTarget<N, D>(t: Tree<N, D>, id: N, o: Tree<N, D>, path: seq<string>,
                                                  below: seq<string>, name: string)
    requires t.Node? && Separate(t) && o.Node? && Unique(o) && Descend(t, path).Some? && Descend(t, path).value.id == id
    ensures PropAt(MergeAt(t, id, o), path + below, name) ==
              if PropAt(o, below, name).Some? then PropAt(o, below, name) else PropAt(t, path + below, name)
  {
    DescendMerged(t, id, o, path);
    DescendAppend(t, path, below);
    DescendAppend(MergeAt(t, id, o), path, below);
    MergeReads(Descend(t, path).value, o, below, name);
  }

  /** The path does not pass through the node labelled `id`. */
  ghost predicate Avoids<N, D>(t: Tree<N, D>, path: seq<string>, id: N)
    decreases path
  {
    && t.id != id
    && (path != [] && t.Node? ==>
          var i := Find(t.kids, true, path[0]); i < |t.kids| ==> Avoids(t.kids[i], path[1..], id))
  }

  /** Everywhere else properties read as before. */
  lemma {:induction false} ReadsElsewhere<N, D>(t: Tree<N, D>, id: N, o: Tree<N, D>, path: seq<string>, name: string)
    requires o.Node? && Avoids(t, path, id)
    ensures PropAt(MergeAt(t, id, o), path, name) == PropAt(t, path, name)
    decreases path
  {
    if t.Node? {
      var t' := MergeAt(t, id, o);
      if path == [] {
        FindIs(t'.kids, false, name, Find(t.kids, false, name));
      } else {
        var i := Find(t.kids, true, path[0]);
        FindIs(t'.kids, true, path[0], i);
        if i < |t.kids| {
          ReadsElsewhere(t.kids[i], id, o, path[1..], name);
        }
      }
    }
  }

  lemma {:induction false} DescendUnique<N, D>(t: Tree<N, D>, path: seq<string>)
    requires Unique(t) && Descend(t, path).Some?
    ensures Unique(Descend(t, path).value)
    decreases path
  {
    if path != [] {
      DescendUnique(t.kids[Find(t.kids, true, path[0])], path[1..]);
    }
  }

  lemma {:induction false} FragmentResolves<N, I>(m: Tree<N, I>, table: seq<Entry<N>>, frag: Tree<N, I>, d: Store<I>,
                                                  path: seq<string>)
    requires m.Node? && Descend(m, path).Some? && frag.Node? && Unique(frag)
    ensures var r := Descend(ApplyFragment(m, table, frag, d).1, path);
            r.Some?
            && r.value.id == Descend(m, path).value.id
  {
    hide Target, Components, Descend, MergeAt, Unique;
    var target, overlay := Target(m, table, frag, d).1, Subnode(frag, "__overlay__");
    if target.Some? && overlay.Some? && overlay.value.Node? {
      DescendUnique(frag, ["__overlay__"]);
      MergeAtResolves(m, target.value, overlay.value, path);
    }
  }

  /** Fragment by fragment, every path of the main tree goes on leading to the node it led to. */
  lemma {:induction false} FragmentsResolve<N, I>(m: Tree<N, I>, table: seq<Entry<N>>, frags: seq<Tree<N, I>>,
                                                  d: Store<I>, path: seq<string>)
    requires m.Node? && Descend(m, path).Some? && forall i | 0 <= i < |frags| :: Unique(frags[i])
    ensures var m' := ApplyFragments(m, table, frags, d);
            m'.Node? && Descend(m', path).Some? && Descend(m', path).value.id == Descend(m, path).value.id
    decreases |frags|
  {
    hide Descend, Unique, ApplyFragment;
    if frags != [] {
      var rest, frag := frags[..|frags| - 1], frags[|frags| - 1];
      FragmentsResolve(m, table, rest, d, path);
      if frag.Node? {
        FragmentResolves(ApplyFragments(m, table, rest, d), table, frag, d, path);
        FragmentStaysNode(ApplyFragments(m, table, rest, d), table, frag, d);
      }
    }
  }

  lemma {:induction false} FragmentStaysNode<N, I>(m: Tree<N, I>, table: seq<Entry<N>>, frag: Tree<N, I>, d: Store<I>)
    requires m.Node?
    ensures ApplyFragment(m, table, frag, d).1.Node?
  {
    hide Target, Components, Descend;
  }

  // ---------------------------------------------------------------- phandle properties that are not overwritten

  /** The node brings a phandle property along. */
  predicate BringsPhandle<N, D>(t: Tree<N, D>) {
    PropOf(t, "phandle").Some? || PropOf(t, "linux,phandle").Some?
  }

  /** Merging `b` into `a` meets no node that both give a phandle to. */
  ghost predicate NoOverwrite<N, D>(a: Tree<N, D>, b: Tree<N, D>)
    decreases b
  {
    a.Node? && b.Node? ==>
      && !(BringsPhandle(a) && BringsPhandle(b))
      && forall j | 0 <= j < |b.kids| && b.kids[j].Node? ::
           var i := Find(a.kids, true, b.kids[j].name); i < |a.kids| ==> NoOverwrite(a.kids[i], b.kids[j])
  }

  /** Two nodes have the same phandle properties. */
  ghost predicate SamePhandleProps<N, D>(s: Tree<N, D>, t: Tree<N, D>) {
    PropOf(s, "phandle") == PropOf(t, "phandle") && PropOf(s, "linux,phandle") == PropOf(t, "linux,phandle")
  }

  lemma {:induction false} SamePropsSamePhandle<N, I>(s: Tree<N, I>, t: Tree<N, I>, d: Store<I>)
    requires SamePhandleProps(s, t)
    ensures Phandle(s, d) == Phandle(t, d)
  {
  }

  /** The phandle properties of a merged node. */
  lemma {:induction false} MergedProps<N, D>(a: Tree<N, D>, b: Tree<N, D>)
    requires a.Node? && b.Node? && Unique(b)
    ensures BringsPhandle(a) && !BringsPhandle(b) ==> SamePhandleProps(Merge(a, b), a)
    ensures !BringsPhandle(a) ==> SamePhandleProps(Merge(a, b), b)
  {
    FindMerged(a.kids, b.kids, false, "phandle");
    FindMerged(a.kids, b.kids, false, "linux,phandle");
  }

  /** A node of the target with a phandle keeps it. */
  lemma {:induction false} MergeKeepsPhandle<N, D>(a: Tree<N, D>, b: Tree<N, D>, x: N)
    requires a.Node? && b.Node? && Unique(b) && NoOverwrite(a, b)
    requires Separate(a) && Separate(b) && Ids(a) !! Ids(b) && HasNode(a, x) && x in Ids(a) && BringsPhandle(At(a, x))
    ensures Separate(Merge(a, b)) && x in Ids(Merge(a, b)) && SamePhandleProps(At(Merge(a, b), x), At(a, x))
    decreases a
  {
    MergeIds(a, b);
    if a.id == x {
      MergedProps(a, b);
    } else {
      var i := KidWith(a, x);
      KidHasNode(a, i, x);
      KidAfterMerge(a, b, i);
      var j := Find(b.kids, a.kids[i].Node?, a.kids[i].name);
      var r := Merge(a, b);
      if r.kids[i] != a.kids[i] {
        KidIdsContain(a.kids, i);
        KidIdsContain(b.kids, j);
        assert SeparateKids(a.kids) && SeparateKids(b.kids);
        MergeKeepsPhandle(a.kids[i], b.kids[j], x);
      }
      AtKid(r, i, x);
    }
  }

  /** What becomes of child `i` when the whole node is merged, names being unique in the source. */
  lemma {:induction false} KidAfterMerge<N, D>(a: Tree<N, D>, b: Tree<N, D>, i: nat)
    requires a.Node? && b.Node? && Unique(b) && NoOverwrite(a, b) && i < |a.kids| && a.kids[i].Node?
    ensures var r, j := Merge(a, b), Find(b.kids, true, a.kids[i].name);
            && |a.kids| <= |r.kids|
            && (r.kids[i] != a.kids[i] ==>
                  && j < |b.kids| && b.kids[j].Node? && Unique(b.kids[j]) && NoOverwrite(a.kids[i], b.kids[j])
                  && r.kids[i] == Merge(a.kids[i], b.kids[j]))
  {
    KidsAfterMerge(a.kids, b.kids, i);
    var j := Find(b.kids, true, a.kids[i].name);
    if Find(a.kids, true, a.kids[i].name) == i && j < |b.kids| {
      assert b.kids[j].name == a.kids[i].name;
    }
  }

  /** A child that is not the first of its name is left alone; the first takes in its namesake. */
  lemma {:induction false} KidsAfterMerge<N, D>(ka: seq<Tree<N, D>>, kb: seq<Tree<N, D>>, i: nat)
    requires DistinctNames(kb) && i < |ka|
    ensures var r, k, j := MergeKids(ka, kb), Find(ka, ka[i].Node?, ka[i].name), Find(kb, ka[i].Node?, ka[i].name);
            && |ka| <= |r|
            && r[i] == if k == i && j < |kb| then Merge(ka[i], kb[j]) else ka[i]
    decreases |kb|
  {
    if kb != [] {
      var kb', x := kb[..|kb| - 1], kb[|kb| - 1];
      KidsAfterMerge(ka, kb', i);
      var k, j := Find(ka, ka[i].Node?, ka[i].name), Find(kb, ka[i].Node?, ka[i].name);
      KidAfterOne(ka, kb', x, i);
      FindIs(kb', ka[i].Node?, ka[i].name, if j < |kb'| then j else |kb'|);
      hide Merge, Unique;
      assert j < |kb'| ==> !SameName(kb[j], kb[|kb| - 1]);
    }
  }

  /** Taking in one more child touches child `i` iff it is the first of that name. */
  lemma {:induction false} KidAfterOne<N, D>(ka: seq<Tree<N, D>>, kb: seq<Tree<N, D>>, x: Tree<N, D>, i: nat)
    requires DistinctNames(kb) && i < |ka|
    ensures var r, r' := MergeKids(ka, kb), MergeKid(MergeKids(ka, kb), x);
            && |ka| <= |r| <= |r'| && SameName(r[i], ka[i])
            && r'[i] == if SameName(x, ka[i]) && Find(ka, ka[i].Node?, ka[i].name) == i then Merge(r[i], x) else r[i]
  {
    MergeKeepsOrder(ka, kb);
    assert SameName(MergeKids(ka, kb)[i], ka[i]);
    FindMerged(ka, kb, x.Node?, x.name);
    var r := MergeKids(ka, kb);
    var k := Find(r, x.Node?, x.name);
    assert SameName(r[i], ka[i]);
    assert k == i ==> SameName(x, ka[i]);
  }

  /** The same for a merge at a label. */
  lemma {:induction false} MergeAtKeepsPhandle<N, D>(t: Tree<N, D>, id: N, o: Tree<N, D>, x: N)
    requires Separate(t) && HasNode(t, id) && id in Ids(t) && At(t, id).Node? && o.Node? && Unique(o) && Separate(o)
            && Ids(t) !! Ids(o)
    requires NoOverwrite(At(t, id), o) && HasNode(t, x) && x in Ids(t) && BringsPhandle(At(t, x))
    ensures var t' := MergeAt(t, id, o); Separate(t') && x in Ids(t') && SamePhandleProps(At(t', x), At(t, x))
    decreases t
  {
    MergeAtIds(t, id, o);
    if t.id == id {
      MergeKeepsPhandle(t, o, x);
    } else if t.id == x {
      OwnPropsMergeAt(t, id, o, "phandle");
      OwnPropsMergeAt(t, id, o, "linux,phandle");
    } else {
      var i := KidWith(t, x);
      KidHasNode(t, i, x);
      KidIdsContain(t.kids, i);
      if id in Ids(t.kids[i]) {
        KidHasNode(t, i, id);
        AtKid(t, i, id);
        MergeAtKeepsPhandle(t.kids[i], id, o, x);
      } else {
        MergeAtAbsent(t.kids[i], id, o);
      }
      AtKid(MergeAt(t, id, o), i, x);
    }
  }

  lemma {:induction false} OwnPropsMergeAt<N, D>(t: Tree<N, D>, id: N, o: Tree<N, D>, name: string)
    requires t.Node? && t.id != id && o.Node?
    ensures PropOf(MergeAt(t, id, o), name) == PropOf(t, name)
  {
    FindIs(MergeAt(t, id, o).kids, false, name, Find(t.kids, false, name));
  }

  // ---------------------------------------------------------------- paths below a label

  /** From the node labelled `x` the path leads to the node labelled `y`. */
  ghost predicate LeadsTo<N, D>(t: Tree<N, D>, x: N, path: seq<string>, y: N) {
    x in Ids(t) && Descend(At(t, x), path).Some? && Descend(At(t, x), path).value.id == y
  }

  /** It still does after a merge. */
  lemma {:induction false} MergeKeepsPath<N, D>(a: Tree<N, D>, b: Tree<N, D>, x: N, path: seq<string>, y: N)
    requires a.Node? && b.Node? && Unique(b) && Separate(a) && Separate(b) && Ids(a) !! Ids(b)
    requires HasNode(a, x) && LeadsTo(a, x, path, y)
    ensures LeadsTo(Merge(a, b), x, path, y)
    decreases a
  {
    hide Descend;
    MergeIds(a, b);
    if a.id == x {
      MergeResolves(a, b, path);
    } else {
      var i := KidWith(a, x);
      KidHasNode(a, i, x);
      KidsAfterMerge(a.kids, b.kids, i);
      var j, r := Find(b.kids, a.kids[i].Node?, a.kids[i].name), Merge(a, b);
      if r.kids[i] != a.kids[i] {
        KidIdsContain(a.kids, i);
        KidIdsContain(b.kids, j);
        assert SeparateKids(a.kids) && SeparateKids(b.kids);
        MergeKeepsPath(a.kids[i], b.kids[j], x, path, y);
      }
      AtKid(r, i, x);
    }
  }

  /** The same for a merge at a label. */
  lemma {:induction false} MergeAtKeepsPath<N, D>(t: Tree<N, D>, id: N, o: Tree<N, D>, x: N, path: seq<string>, y: N)
    requires Separate(t) && HasNode(t, id) && o.Node? && Unique(o) && Separate(o) && Ids(t) !! Ids(o)
    requires HasNode(t, x) && LeadsTo(t, x, path, y)
    ensures LeadsTo(MergeAt(t, id, o), x, path, y)
    decreases t
  {
    hide Descend;
    MergeAtIds(t, id, o);
    HasNodeHasId(t, id);
    if t.id == id {
      MergeKeepsPath(t, o, x, path, y);
    } else if t.id == x {
      MergeAtResolves(t, id, o, path);
    } else {
      var i := KidWith(t, x);
      KidHasNode(t, i, x);
      KidIdsContain(t.kids, i);
      if id in Ids(t.kids[i]) {
        KidHasNode(t, i, id);
        MergeAtKeepsPath(t.kids[i], id, o, x, path, y);
      } else {
        MergeAtAbsent(t.kids[i], id, o);
      }
      AtKid(MergeAt(t, id, o), i, x);
    }
  }

  lemma {:induction false} FragmentKeepsPath<N(!new), I>(m: Tree<N, I>, table: seq<Entry<N>>, frag: Tree<N, I>,
                                                         d: Store<I>, x: N, path: seq<string>, y: N)
    requires m.Node? && Separate(m) && TableIn(table, m) && frag.Node? && Separate(frag) && Ids(m) !! Ids(frag)
            && Unique(frag)
    requires HasNode(m, x) && LeadsTo(m, x, path, y)
    ensures LeadsTo(ApplyFragment(m, table, frag, d).1, x, path, y)
  {
    hide Target, TreePath, Descend, Components, Separate, HasNode, TableIn, MergeAt, Ids, KidIds, Unique, LeadsTo;
    TargetFound(m, table, frag, d);
    var target, overlay := Target(m, table, frag, d).1, Subnode(frag, "__overlay__");
    if target.Some? && overlay.Some? && overlay.value.Node? {
      DescendAt(frag, ["__overlay__"]);
      AtInside(frag, overlay.value.id);
      DescendUnique(frag, ["__overlay__"]);
      MergeAtKeepsPath(m, target.value, overlay.value, x, path, y);
    }
  }

  /** And after all fragments from `j` on. */
  lemma {:induction false} FragmentsKeepPath<N(!new), I>(m: Tree<N, I>, table: seq<Entry<N>>, frags: seq<Tree<N, I>>,
                                                         d: Store<I>, j: nat, x: N, path: seq<string>, y: N)
    requires m.Node? && Separate(m) && TableIn(table, m) && SeparateKids(frags) && Ids(m) !! KidIds(frags)
    requires j <= |frags| && forall i | 0 <= i < |frags| :: Unique(frags[i])
    requires var a := ApplyFragments(m, table, frags[..j], d); HasNode(a, x) && LeadsTo(a, x, path, y)
    ensures var m' := ApplyFragments(m, table, frags, d); HasNode(m', x) && LeadsTo(m', x, path, y)
    decreases |frags|
  {
    hide LeadsTo, Separate, Ids, KidIds, HasNode, Unique, TableIn, ApplyFragment;
    if j == |frags| {
      assert frags[..j] == frags;
    } else {
      var rest, frag := frags[..|frags| - 1], frags[|frags| - 1];
      assert rest[..j] == frags[..j];
      LastIds(frags);
      FragmentsIds(m, table, rest, d);
      FragmentsKeepPath(m, table, rest, d, j, x, path, y);
      if frag.Node? {
        FragmentKeepsPath(ApplyFragments(m, table, rest, d), table, frag, d, x, path, y);
        FragmentIds(ApplyFragments(m, table, rest, d), table, frag, d);
      }
    }
  }

  // ---------------------------------------------------------------- over all fragments

  /** No fragment gives a phandle to a node that has one. */
  ghost predicate NoOverwrites<N, I>(m: Tree<N, I>, table: seq<Entry<N>>, frags: seq<Tree<N, I>>, d: Store<I>)
    decreases |frags|
  {
    frags != [] ==>
      var rest, frag := frags[..|frags| - 1], frags[|frags| - 1];
      NoOverwrites(m, table, rest, d)
          && (frag.Node? ==> FragmentSpares(ApplyFragments(m, table, rest, d), table, frag, d))
  }

  ghost predicate FragmentSpares<N, I>(m: Tree<N, I>, table: seq<Entry<N>>, frag: Tree<N, I>, d: Store<I>) {
    var target, overlay := Target(m, table, frag, d).1, Subnode(frag, "__overlay__");
    target.Some? && overlay.Some? && target.value in Ids(m) ==> NoOverwrite(At(m, target.value), overlay.value)
  }

  lemma {:induction false} FragmentKeepsPhandle<N(!new), I>(m: Tree<N, I>, table: seq<Entry<N>>, frag: Tree<N, I>,
                                                            d: Store<I>, x: N)
    requires m.Node? && Separate(m) && TableIn(table, m) && frag.Node? && Separate(frag) && Ids(m) !! Ids(frag)
            && Unique(frag)
    requires FragmentSpares(m, table, frag, d) && HasNode(m, x) && x in Ids(m) && BringsPhandle(At(m, x))
    ensures var m' := ApplyFragment(m, table, frag, d).1; x in Ids(m') && SamePhandleProps(At(m', x), At(m, x))
  {
    hide Target, TreePath, Descend, Components, Separate, HasNode, TableIn, MergeAt, Ids, KidIds, Unique, NoOverwrite;
    hide BringsPhandle, PropOf;
    TargetFound(m, table, frag, d);
    var target, overlay := Target(m, table, frag, d).1, Subnode(frag, "__overlay__");
    if target.Some? && overlay.Some? && overlay.value.Node? {
      NodeAt(m, target.value);
      DescendAt(frag, ["__overlay__"]);
      AtInside(frag, overlay.value.id);
      DescendUnique(frag, ["__overlay__"]);
      MergeAtKeepsPhandle(m, target.value, overlay.value, x);
    }
  }

  /** Over the fragments from `j` on: a node with a phandle keeps its phandle properties. */
  lemma {:induction false} FragmentsKeepPhandle<N(!new), I>(m: Tree<N, I>, table: seq<Entry<N>>, frags: seq<Tree<N, I>>,
                                                            d: Store<I>, j: nat, x: N)
    requires m.Node? && Separate(m) && TableIn(table, m) && SeparateKids(frags) && Ids(m) !! KidIds(frags)
    requires j <= |frags| && NoOverwrites(m, table, frags, d) && forall i | 0 <= i < |frags| :: Unique(frags[i])
    requires var a := ApplyFragments(m, table, frags[..j], d); HasNode(a, x) && x in Ids(a) && BringsPhandle(At(a, x))
    ensures var a, m' := ApplyFragments(m, table, frags[..j], d), ApplyFragments(m, table, frags, d);
            HasNode(m', x) && x in Ids(m') && SamePhandleProps(At(m', x), At(a, x))
    decreases |frags|
  {
    if j == |frags| {
      assert frags[..j] == frags;
    } else {
      var rest, frag := frags[..|frags| - 1], frags[|frags| - 1];
      assert rest[..j] == frags[..j];
      LastIds(frags);
      FragmentsIds(m, table, rest, d);
      FragmentsKeepPhandle(m, table, rest, d, j, x);
      if frag.Node? {
        FragmentKeepsPhandle(ApplyFragments(m, table, rest, d), table, frag, d, x);
        FragmentIds(ApplyFragments(m, table, rest, d), table, frag, d);
      }
    }
  }
}
