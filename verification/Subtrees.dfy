/** Subtrees addressed by label: finding one, exchanging one, merging into one. */
module Subtrees {
  import opened Trees
  import opened MergeLaws
  import opened Phandles
  import opened OverlaySpec

  /** The subtree with that label. */
  ghost function At<N, D>(t: Tree<N, D>, id: N): (r: Tree<N, D>)
    requires id in Ids(t)
    ensures r.id == id
    decreases t
  {
    if t.id == id then t
    else
      assert id in KidIds(t.kids);
      var i :| 0 <= i < |t.kids| && id in Ids(t.kids[i]);
      At(t.kids[i], id)
  }

  /** The tree with the subtree labelled `id` exchanged for `r`. */
  function ReplaceAt<N(==), D>(t: Tree<N, D>, id: N, r: Tree<N, D>): Tree<N, D> {
    if t.id == id then r
    else if t.Prop? then t
    else Node(t.id, t.name, seq(|t.kids|, i requires 0 <= i < |t.kids| => ReplaceAt(t.kids[i], id, r)))
  }

  /** Some node of the tree has that label. */
  ghost predicate HasNode<N, D>(t: Tree<N, D>, id: N) {
    t.Node? && (t.id == id || exists i :: 0 <= i < |t.kids| && HasNode(t.kids[i], id))
  }

  /** Labels lead to one subtree only. */
  lemma {:induction false} AtKid<N, D>(t: Tree<N, D>, i: nat, id: N)
    requires t.Node? && Separate(t) && i < |t.kids| && id in Ids(t.kids[i])
    ensures id != t.id && id in Ids(t) && At(t, id) == At(t.kids[i], id)
    ensures forall j | 0 <= j < |t.kids| && j != i :: id !in Ids(t.kids[j])
  {
    KidIdsContain(t.kids, i);
    forall j | 0 <= j < |t.kids| && j != i ensures id !in Ids(t.kids[j]) {
      KidsApart(t, i, j);
    }
  }

  /** Which child holds a label. */
  lemma {:induction false} KidWith<N, D>(t: Tree<N, D>, id: N) returns (i: nat)
    requires t.Node? && Separate(t) && id in Ids(t) && id != t.id
    ensures i < |t.kids| && id in Ids(t.kids[i]) && Separate(t.kids[i])
    ensures At(t, id) == At(t.kids[i], id) && Ids(t.kids[i]) <= KidIds(t.kids)
    ensures forall j | 0 <= j < |t.kids| && j != i :: id !in Ids(t.kids[j]) && Ids(t.kids[j]) !! Ids(t.kids[i])
  {
    i :| 0 <= i < |t.kids| && id in Ids(t.kids[i]);
    AtKid(t, i, id);
    KidIdsContain(t.kids, i);
    assert SeparateKids(t.kids);
    forall j | 0 <= j < |t.kids| && j != i ensures Ids(t.kids[j]) !! Ids(t.kids[i]) {
      KidsApart(t, i, j);
    }
  }

  lemma {:induction false} AtInside<N, D>(t: Tree<N, D>, id: N)
    requires Separate(t) && id in Ids(t)
    ensures Separate(At(t, id)) && Ids(At(t, id)) <= Ids(t)
    ensures t.id != id ==> t.id !in Ids(At(t, id))
    decreases t
  {
    if t.id != id {
      var i := KidWith(t, id);
      AtInside(t.kids[i], id);
    }
  }

  /** A path leads to the subtree with the label of what it leads to. */
  lemma {:induction false} DescendAt<N, D>(t: Tree<N, D>, path: seq<string>)
    requires Separate(t) && Descend(t, path).Some?
    ensures var n := Descend(t, path).value; n.id in Ids(t) && At(t, n.id) == n
    ensures t.Node? ==> HasNode(t, Descend(t, path).value.id)
    decreases path
  {
    if path != [] {
      var i := Find(t.kids, true, path[0]);
      assert SeparateKids(t.kids);
      DescendAt(t.kids[i], path[1..]);
      AtKid(t, i, Descend(t, path).value.id);
      assert HasNode(t.kids[i], Descend(t, path).value.id);
    }
  }

  lemma {:induction false} NodeAt<N, D>(t: Tree<N, D>, id: N)
    requires Separate(t) && HasNode(t, id)
    ensures id in Ids(t) && At(t, id).Node?
    decreases t
  {
    if t.id != id {
      var i :| 0 <= i < |t.kids| && HasNode(t.kids[i], id);
      assert SeparateKids(t.kids);
      NodeAt(t.kids[i], id);
      AtKid(t, i, id);
    }
  }

  /** Table entries name nodes of the tree. */
  lemma {:induction false} EntriesHaveNodes<N(!new), I>(t: Tree<N, I>, d: Store<I>)
    ensures forall e | e in Entries(t, d) :: HasNode(t, e.node)
    decreases t, 0
  {
    if t.Node? {
      KidEntriesHaveNodes(t.kids, d);
      forall e | e in Entries(t, d) ensures HasNode(t, e.node) {
        if e !in Own(t, d) {
          assert e in KidEntries(t.kids, d);
        }
      }
    }
  }

  lemma {:induction false} KidEntriesHaveNodes<N(!new), I>(kids: seq<Tree<N, I>>, d: Store<I>)
    ensures forall e | e in KidEntries(kids, d) :: exists i :: 0 <= i < |kids| && HasNode(kids[i], e.node)
    decreases kids, 0
  {
    if kids != [] {
      var rest, last := kids[..|kids| - 1], kids[|kids| - 1];
      KidEntriesHaveNodes(rest, d);
      EntriesHaveNodes(last, d);
      forall e | e in KidEntries(kids, d) ensures exists i :: 0 <= i < |kids| && HasNode(kids[i], e.node) {
        if e in KidEntries(rest, d) {
          var i :| 0 <= i < |rest| && HasNode(rest[i], e.node);
          assert HasNode(kids[i], e.node);
        } else {
          assert HasNode(kids[|kids| - 1], e.node);
        }
      }
    }
  }

  // ---------------------------------------------------------------- exchanging a subtree

  lemma {:induction false} ReplaceAbsent<N, D>(t: Tree<N, D>, id: N, r: Tree<N, D>)
    requires id !in Ids(t)
    ensures ReplaceAt(t, id, r) == t
  {
    if t.Node? {
      forall i | 0 <= i < |t.kids| ensures ReplaceAt(t.kids[i], id, r) == t.kids[i] {
        KidIdsContain(t.kids, i);
        ReplaceAbsent(t.kids[i], id, r);
      }
      assert ReplaceAt(t, id, r).kids == t.kids;
    }
  }

  /** Exchanging a subtree exchanges one child for what becomes of it. */
  lemma {:induction false} ReplaceKid<N, D>(t: Tree<N, D>, id: N, r: Tree<N, D>, i: nat)
    requires t.Node? && Separate(t) && i < |t.kids| && id in Ids(t.kids[i])
    ensures ReplaceAt(t, id, r) == t.(kids := t.kids[i := ReplaceAt(t.kids[i], id, r)])
  {
    AtKid(t, i, id);
    forall j | 0 <= j < |t.kids| && j != i ensures ReplaceAt(t.kids[j], id, r) == t.kids[j] {
      ReplaceAbsent(t.kids[j], id, r);
    }
    assert ReplaceAt(t, id, r).kids == t.kids[i := ReplaceAt(t.kids[i], id, r)];
  }

  lemma {:induction false} ReplaceIds<N, D>(t: Tree<N, D>, id: N, r: Tree<N, D>)
    requires Separate(t) && id in Ids(t) && r.id == id && Separate(r)
    requires Ids(r) !! Ids(t) - Ids(At(t, id))
    ensures Separate(ReplaceAt(t, id, r)) && ReplaceAt(t, id, r).id == t.id
    ensures Ids(ReplaceAt(t, id, r)) == Ids(t) - Ids(At(t, id)) + Ids(r)
    decreases t
  {
    if t.id != id {
      var i := KidWith(t, id);
      AtInside(t.kids[i], id);
      AtInside(t, id);
      KidIdsContain(t.kids, i);
      ReplaceIds(t.kids[i], id, r);
      ReplaceKid(t, id, r, i);
      UpdateKidIds(t, i, ReplaceAt(t.kids[i], id, r));
    }
  }

  /** The labels of a node after one child was exchanged. */
  lemma {:induction false} UpdateKidIds<N, D>(t: Tree<N, D>, i: nat, x: Tree<N, D>)
    requires t.Node? && Separate(t) && i < |t.kids| && Separate(x)
    requires Ids(x) !! Ids(t) - Ids(t.kids[i])
    ensures var t' := t.(kids := t.kids[i := x]);
            Separate(t') && Ids(t') == Ids(t) - Ids(t.kids[i]) + Ids(x)
  {
    var kids' := t.kids[i := x];
    KidIdsContain(t.kids, i);
    KidIdsContain(kids', i);
    forall j | 0 <= j < |kids'| && j != i
      ensures Ids(kids'[j]) <= KidIds(t.kids) - Ids(t.kids[i]) && Ids(kids'[j]) <= KidIds(kids') && Separate(kids'[j])
    {
      KidIdsContain(t.kids, j);
      KidIdsContain(kids', j);
      KidsApart(t, i, j);
      assert SeparateKids(t.kids);
    }
    forall n | n in KidIds(kids') ensures n in KidIds(t.kids) - Ids(t.kids[i]) + Ids(x) {
      var j :| 0 <= j < |kids'| && n in Ids(kids'[j]);
    }
    forall n | n in KidIds(t.kids) - Ids(t.kids[i]) ensures n in KidIds(kids') {
      var j :| 0 <= j < |t.kids| && n in Ids(t.kids[j]);
      assert n in Ids(kids'[j]);
    }
    forall j, k | 0 <= j < k < |kids'| ensures Ids(kids'[j]) !! Ids(kids'[k]) {
      KidsApart(t, j, k);
    }
    assert SeparateKids(kids');
  }

  // ---------------------------------------------------------------- merging at a label

  lemma {:induction false} MergeAtAbsent<N, D>(t: Tree<N, D>, id: N, o: Tree<N, D>)
    requires id !in Ids(t) && o.Node?
    ensures MergeAt(t, id, o) == t
  {
    if t.Node? {
      forall i | 0 <= i < |t.kids| ensures MergeAt(t.kids[i], id, o) == t.kids[i] {
        KidIdsContain(t.kids, i);
        MergeAtAbsent(t.kids[i], id, o);
      }
      assert MergeAt(t, id, o).kids == t.kids;
    }
  }

  /** Merging at a label exchanges one child for what becomes of it. */
  lemma {:induction false} MergeAtKid<N, D>(t: Tree<N, D>, id: N, o: Tree<N, D>, i: nat)
    requires t.Node? && Separate(t) && i < |t.kids| && id in Ids(t.kids[i]) && o.Node?
    ensures MergeAt(t, id, o) == t.(kids := t.kids[i := MergeAt(t.kids[i], id, o)])
  {
    AtKid(t, i, id);
    forall j | 0 <= j < |t.kids| && j != i ensures MergeAt(t.kids[j], id, o) == t.kids[j] {
      MergeAtAbsent(t.kids[j], id, o);
    }
    assert MergeAt(t, id, o).kids == t.kids[i := MergeAt(t.kids[i], id, o)];
  }

  /** Merging at a label exchanges the subtree there for the merge. */
  lemma {:induction false} MergeAtReplaces<N, D>(t: Tree<N, D>, id: N, o: Tree<N, D>)
    requires Separate(t) && HasNode(t, id) && o.Node? && id in Ids(t) && At(t, id).Node?
    ensures MergeAt(t, id, o) == ReplaceAt(t, id, Merge(At(t, id), o))
    decreases t
  {
    if t.id != id {
      var i := KidWith(t, id);
      KidHasNode(t, i, id);
      MergeAtReplaces(t.kids[i], id, o);
      MergeAtKid(t, id, o, i);
      ReplaceKid(t, id, Merge(At(t, id), o), i);
    }
  }

  lemma {:induction false} HasNodeHasId<N, D>(t: Tree<N, D>, id: N)
    requires HasNode(t, id)
    ensures id in Ids(t)
  {
    if t.id != id {
      var i :| 0 <= i < |t.kids| && HasNode(t.kids[i], id);
      HasNodeHasId(t.kids[i], id);
    }
  }

  lemma {:induction false} KidHasNode<N, D>(t: Tree<N, D>, i: nat, id: N)
    requires t.Node? && Separate(t) && i < |t.kids| && id in Ids(t.kids[i]) && HasNode(t, id)
    ensures HasNode(t.kids[i], id)
  {
    AtKid(t, i, id);
    var j :| 0 <= j < |t.kids| && HasNode(t.kids[j], id);
    HasNodeHasId(t.kids[j], id);
  }

  /** Nodes of the tree are still there after a merge at a label. */
  lemma {:induction false} MergeKeepsNode<N, D>(a: Tree<N, D>, b: Tree<N, D>, id: N)
    requires a.Node? && b.Node? && HasNode(a, id)
    ensures HasNode(Merge(a, b), id)
    decreases b, 0
  {
    if a.id != id {
      MergeKidsKeepNode(a.kids, b.kids, id);
    }
  }

  ghost predicate SomeHasNode<N, D>(kids: seq<Tree<N, D>>, id: N) {
    exists i :: 0 <= i < |kids| && HasNode(kids[i], id)
  }

  lemma {:induction false} MergeKidKeepsNode<N, D>(ka: seq<Tree<N, D>>, x: Tree<N, D>, id: N)
    requires SomeHasNode(ka, id)
    ensures SomeHasNode(MergeKid(ka, x), id)
    decreases x, 1
  {
    var i :| 0 <= i < |ka| && HasNode(ka[i], id);
    if i == Find(ka, x.Node?, x.name) {
      MergeKeepsNode(ka[i], x, id);
    }
    assert HasNode(MergeKid(ka, x)[i], id);
  }

  lemma {:induction false} MergeKidsKeepNode<N, D>(ka: seq<Tree<N, D>>, kb: seq<Tree<N, D>>, id: N)
    requires SomeHasNode(ka, id)
    ensures SomeHasNode(MergeKids(ka, kb), id)
    decreases kb, 0
  {
    if kb != [] {
      MergeKidsKeepNode(ka, kb[..|kb| - 1], id);
      MergeKidKeepsNode(MergeKids(ka, kb[..|kb| - 1]), kb[|kb| - 1], id);
    }
  }

  /** A node of the tree, and so every table entry, outlives a merge anywhere in the tree. */
  lemma {:induction false} MergeAtKeepsNode<N, D>(t: Tree<N, D>, id: N, o: Tree<N, D>, n: N)
    requires o.Node? && HasNode(t, n)
    ensures HasNode(MergeAt(t, id, o), n)
    decreases t
  {
    if t.id == id {
      MergeKeepsNode(t, o, n);
    } else if t.id != n {
      var i :| 0 <= i < |t.kids| && HasNode(t.kids[i], n);
      MergeAtKeepsNode(t.kids[i], id, o, n);
      assert HasNode(MergeAt(t, id, o).kids[i], n);
    }
  }
}
