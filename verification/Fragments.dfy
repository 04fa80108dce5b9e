/** Applying the fragments of an overlay: subtrees of its tree are merged into the main tree in place. */
module Fragments {
  import opened Bytes
  import opened Blobs
  import opened Trees
  import opened MergeLaws
  import opened Paths
  import opened Phandles
  import opened NodePool
  import opened Nodes
  import opened Table
  import opened Lookup
  import opened Ufdts
  import opened Subtrees
  import opened FragmentLaws
  import opened Confinement
  import Spec = OverlaySpec

  // ---------------------------------------------------------------- who owns which entry

  /**
   * Ownership: the live entries are exactly the nodes of the main tree and those of the overlay
   * tree, none of them twice. In the overlay tree some nodes were emptied.
   */
  ghost predicate Owned(m: Memory, mt: Linked, ot: Linked, stale: set<Addr>) {
    && mt.Node? && Rep(m, mt, {}) && Separate(mt)
    && ot.Node? && Rep(m, ot, stale) && Separate(ot)
    && Ids(mt) !! Ids(ot) && m.Keys == Ids(mt) + Ids(ot)
  }

  /** After a subtree was exchanged in memory the whole tree is represented again. */
  lemma {:induction false} RepReplaced(m: Memory, m': Memory, t: Linked, stale: set<Addr>, stale': set<Addr>, id: Addr,
                                       r: Linked, s: set<Addr>)
    requires Rep(m, t, stale) && Separate(t) && id in Ids(t) && r.id == id && Rep(m', r, stale') && stale <= stale'
    requires SameOutside(m, m', s) && s !! Ids(t) - Ids(At(t, id))
    requires id in m && id in m' && m'[id].sibling == m[id].sibling
    ensures Rep(m', ReplaceAt(t, id, r), stale')
    decreases t
  {
    if t.id != id {
      var i := KidWith(t, id);
      AtInside(t, id);
      AtInside(t.kids[i], id);
      KidIdsContain(t.kids, i);
      RepKid(m, t, stale, i);
      RepReplaced(m, m', t.kids[i], stale, stale', id, r, s);
      ReplaceKid(t, id, r, i);
      ExchangedKid(m, m', t, stale, stale', i, ReplaceAt(t.kids[i], id, r), s);
    }
  }

  // ---------------------------------------------------------------- one fragment

  /** The overlay tree once the children of `ov` have been taken. */
  function Emptied(ot: Linked, ov: Linked): Linked
    requires ov.Node?
  {
    ReplaceAt(ot, ov.id, ov.(kids := []))
  }

  /** `ov` is an untouched node of the overlay tree. */
  ghost predicate Untouched(ot: Linked, stale: set<Addr>, ov: Linked) {
    ov.Node? && ov.id in Ids(ot) && At(ot, ov.id) == ov && stale !! Ids(ov)
  }

  lemma {:induction false} FragmentMergeable(m: Memory, mt: Linked, ot: Linked, stale: set<Addr>, id: Addr, ov: Linked)
    requires Owned(m, mt, ot, stale) && HasNode(mt, id) && Untouched(ot, stale, ov)
    ensures id in Ids(mt) && At(mt, id).Node? && Mergeable(m, At(mt, id), ov)
    ensures Ids(At(mt, id)) <= Ids(mt) && Ids(ov) <= Ids(ot)
  {
    NodeAt(mt, id);
    AtInside(mt, id);
    AtInside(ot, ov.id);
    RepAt(m, mt, {}, id);
    RepAt(m, ot, stale, ov.id);
    RepStale(m, ov, stale, {});
  }

  /** The main tree after the merge. */
  lemma {:induction false} MainMerged(m: Memory, m': Memory, mt: Linked, ot: Linked, stale: set<Addr>, id: Addr,
                                      ov: Linked)
    requires Owned(m, mt, ot, stale) && HasNode(mt, id) && Untouched(ot, stale, ov)
    requires id in Ids(mt) && At(mt, id).Node? && Merged(m, m', At(mt, id), ov)
    ensures var mt', sub := Spec.MergeAt(mt, id, ov), At(mt, id);
            && mt'.Node? && Rep(m', mt', {}) && Separate(mt')
            && Ids(mt') == Ids(mt) - Ids(sub) + Ids(Merge(sub, ov))
            && Ids(sub) <= Ids(Merge(sub, ov)) <= Ids(sub) + Ids(ov) - {ov.id}
  {
    var sub := At(mt, id);
    FragmentMergeable(m, mt, ot, stale, id, ov);
    MergeIds(sub, ov);
    MergeAtReplaces(mt, id, ov);
    ReplaceIds(mt, id, Merge(sub, ov));
    RepReplaced(m, m', mt, {}, {}, id, Merge(sub, ov), Ids(sub) + Ids(ov));
  }

  /** The overlay tree after the merge. */
  lemma {:induction false} OverlayMerged(m: Memory, m': Memory, mt: Linked, ot: Linked, stale: set<Addr>, id: Addr,
                                         ov: Linked)
    requires Owned(m, mt, ot, stale) && HasNode(mt, id) && Untouched(ot, stale, ov)
    requires id in Ids(mt) && At(mt, id).Node? && Merged(m, m', At(mt, id), ov)
    ensures var ot' := Emptied(ot, ov);
            && ot'.Node? && Rep(m', ot', stale + {ov.id}) && Separate(ot')
            && Ids(ot') == Ids(ot) - Ids(ov) + {ov.id}
  {
    var sub := At(mt, id);
    FragmentMergeable(m, mt, ot, stale, id, ov);
    ReplaceIds(ot, ov.id, ov.(kids := []));
    RepRoot(m, ov, {});
    assert Rep(m', ov.(kids := []), stale + {ov.id});
    RepReplaced(m, m', ot, stale, stale + {ov.id}, ov.id, ov.(kids := []), Ids(sub) + Ids(ov));
  }

  /** Ownership after the merge. */
  lemma {:induction false} StillOwned(m: Memory, m': Memory, mt: Linked, ot: Linked, stale: set<Addr>, id: Addr,
                                      ov: Linked)
    requires Owned(m, mt, ot, stale) && HasNode(mt, id) && Untouched(ot, stale, ov)
    requires id in Ids(mt) && At(mt, id).Node? && Merged(m, m', At(mt, id), ov)
    ensures Owned(m', Spec.MergeAt(mt, id, ov), Emptied(ot, ov), stale + {ov.id}) && SameNames(m, m')
  {
    FragmentMergeable(m, mt, ot, stale, id, ov);
    MainMerged(m, m', mt, ot, stale, id, ov);
    OverlayMerged(m, m', mt, ot, stale, id, ov);
    var sub := At(mt, id);
    hide Rep, Ids, KidIds, Merge, Spec.MergeAt, Separate, SameOutside, SameNames, Emptied, HasNode, At;
    KeysAfter(m.Keys, m'.Keys, Ids(mt), Ids(ot), Ids(sub), Ids(ov), Ids(Merge(sub, ov)), ov.id);
  }

  lemma {:induction false} KeysAfter(keys: set<Addr>, keys': set<Addr>, main: set<Addr>, overlay: set<Addr>,
                                     sub: set<Addr>, ov: set<Addr>, merged: set<Addr>, id: Addr)
    requires main !! overlay && keys == main + overlay && sub <= main && ov <= overlay && id in ov
    requires sub <= merged <= sub + ov - {id} && keys' == keys - (ov - {id} - merged)
    ensures main - sub + merged !! overlay - ov + {id}
    ensures keys' == (main - sub + merged) + (overlay - ov + {id})
  {
  }

  /** From child `i` on the overlay tree is as it was, and no child moved. */
  ghost predicate Pending(ot: Linked, ot': Linked, stale: set<Addr>, i: nat) {
    && ot.Node? && ot'.Node? && ot'.id == ot.id && |ot'.kids| == |ot.kids|
    && (forall j | 0 <= j < |ot.kids| :: ot'.kids[j].id == ot.kids[j].id && ot'.kids[j].Node? == ot.kids[j].Node?)
    && (forall j | i <= j < |ot.kids| :: ot'.kids[j] == ot.kids[j] && stale !! Ids(ot.kids[j]))
  }

  /** The `__overlay__` of a fragment that is still to come is untouched. */
  lemma {:induction false} OverlayUntouched(was: Linked, ot: Linked, stale: set<Addr>, i: nat)
    requires Pending(was, ot, stale, i) && Separate(ot) && i < |ot.kids| && ot.kids[i].Node?
    requires Subnode(ot.kids[i], "__overlay__").Some?
    ensures var ov := Subnode(ot.kids[i], "__overlay__").value;
            Untouched(ot, stale, ov) && ov.id in Ids(ot.kids[i]) && ov.Node?
  {
    var frag, ov := ot.kids[i], Subnode(ot.kids[i], "__overlay__").value;
    assert SeparateKids(ot.kids);
    DescendAt(frag, ["__overlay__"]);
    AtKid(ot, i, ov.id);
    AtInside(frag, ov.id);
  }

  lemma {:induction false} OthersPending(ot: Linked, ot': Linked, stale: set<Addr>, i: nat, ov: Linked)
    requires Pending(ot, ot', stale, i) && Separate(ot') && i < |ot.kids|
    requires ov.Node? && ov.id in Ids(ot'.kids[i]) && ot.kids[i].Node?
    ensures Pending(ot, Emptied(ot', ov), stale + {ov.id}, i + 1)
  {
    ReplaceKid(ot', ov.id, ov.(kids := []), i);
    assert Emptied(ot', ov).kids == ot'.kids[i := ReplaceAt(ot'.kids[i], ov.id, ov.(kids := []))];
    forall j | i < j < |ot.kids| ensures ov.id !in Ids(ot.kids[j]) {
      AtKid(ot', i, ov.id);
    }
  }

  lemma {:induction false} FragmentReady(m: Memory, table: seq<Entry<Addr>>, mt: Linked, was: Linked, ot: Linked,
                                         stale: set<Addr>, i: nat)
    requires Owned(m, mt, ot, stale) && Pending(was, ot, stale, i) && i < |was.kids| && TableIn(table, mt)
    ensures mt.Node? && mt.id != NULL && Rep(m, mt, {}) && Separate(mt) && Separate(ot) && ot.Node? && Sorted(table)
    ensures var ft := was.kids[i]; ft == ot.kids[i] && ft.id != NULL && Rep(m, ft, stale) && stale !! Ids(ft)
    ensures forall e | e in table :: e.node != NULL
    ensures Pending(was, ot, stale, i + 1)
  {
    RepKid(m, ot, stale, i);
    forall e | e in table ensures e.node != NULL {
      NodeAt(mt, e.node);
      RepAt(m, mt, {}, e.node);
    }
  }

  /** The target of a fragment, when it has a usable one. */
  method FindTarget(tree: Ufdt, h: NodeHeap, mem: BlobMemory, frag: Addr, ghost mt: Linked, ghost ft: Linked,
                    ghost stale: set<Addr>)
    returns (code: Spec.OverlayResult, node: Addr)
    requires tree.root != NULL && mt.id == tree.root && Rep(h.nodes, mt, {})
    requires frag != NULL && ft.id == frag && Rep(h.nodes, ft, stale) && Sorted(tree.table[..])
    requires forall e | e in tree.table[..] :: e.node != NULL
    requires TargetFilled(ft, mem.values)
    ensures var (c, n) := Spec.Target(mt, tree.table[..], ft, mem.values);
            code == c && node == if n.None? then NULL else n.value
    ensures node != NULL <==> Spec.Target(mt, tree.table[..], ft, mem.values).1.Some?
    ensures node != NULL <==> code == Spec.Ok
  {
    hide Rep, TreePath;
    node := NULL;
    var val := h.GetPropDataByName(frag, "target", ft, stale);
    if val.Some? {
      var target := Get32(Val(mem.values, val.value), 0);
      var found := GetNodeByPhandle(tree.table, target);
      if found.None? {
        return Spec.TargetInvalid, NULL;
      }
      node := found.value;
    }
    if node == NULL {
      var path := h.GetPropDataByName(frag, "target-path", ft, stale);
      if path.None? {
        return Spec.MissingTarget, NULL;
      }
      node := GetNodeByPath(h, mem, tree.root, Text(mem.values, path.value), mt, {});
      if node == NULL {
        return Spec.TargetPathInvalid, NULL;
      }
    }
    code := Spec.Ok;
  }

  /** `ufdt_overlay_node`. */
  method OverlayNode(h: NodeHeap, target: Addr, overlay: Addr, ghost mt: Linked, ghost ot: Linked,
                     ghost stale: set<Addr>, ghost ov: Linked)
    returns (err: int)
    requires h.Valid() && Owned(h.nodes, mt, ot, stale) && HasNode(mt, target) && Untouched(ot, stale, ov)
            && ov.id == overlay
    modifies h, h.pool, h.pool.members
    ensures h.Valid() && h.pool.members <= old(h.pool.members) && err == 0
    ensures Owned(h.nodes, Spec.MergeAt(mt, target, ov), Emptied(ot, ov), stale + {overlay})
            && SameNames(old(h.nodes), h.nodes)
  {
    hide NodeHeap.Valid, Rep, Ids, Separate, HasNode, Merged, Mergeable, Spec.MergeAt, Owned, Untouched, Emptied;
    hide SameNames;
    ghost var m := h.nodes;
    FragmentMergeable(m, mt, ot, stale, target, ov);
    err := h.MergeInto(target, overlay, At(mt, target), ov);
    StillOwned(m, h.nodes, mt, ot, stale, target, ov);
  }

  /** Where the overlay of a fragment is. */
  method FindOverlay(h: NodeHeap, frag: Addr, ghost ft: Linked, ghost stale: set<Addr>) returns (overlay: Addr)
    requires frag != NULL && ft.id == frag && Rep(h.nodes, ft, stale)
    ensures overlay == IdOf(Subnode(ft, "__overlay__"))
    ensures overlay == NULL <==> Subnode(ft, "__overlay__").None?
  {
    hide Rep, Components, Descend;
    OneComponent("/__overlay__", "__overlay__");
    overlay := h.GetNodeByPath(frag, "__overlay__", ft, stale);
    if Subnode(ft, "__overlay__").Some? {
      RepDescend(h.nodes, ft, stale, ["__overlay__"]);
    }
  }

  /** `ufdt_apply_fragment` for child `i` of the overlay root. */
  method ApplyFragment(tree: Ufdt, h: NodeHeap, mem: BlobMemory, frag: Addr, ghost mt: Linked, ghost was: Linked,
                       ghost ot: Linked, ghost stale: set<Addr>, ghost i: nat)
    returns (code: Spec.OverlayResult, ghost mt': Linked, ghost ot': Linked, ghost stale': set<Addr>)
    requires h.Valid() && Owned(h.nodes, mt, ot, stale) && tree.root == mt.id
    requires was.Node? && i < |was.kids| && was.kids[i].Node? && frag == was.kids[i].id && Pending(was, ot, stale, i)
    requires TableIn(tree.table[..], mt) && TargetFilled(was.kids[i], mem.values)
    modifies h, h.pool, h.pool.members
    ensures h.Valid() && h.pool.members <= old(h.pool.members)
    ensures (code, mt') == Spec.ApplyFragment(mt, tree.table[..], was.kids[i], mem.values)
    ensures var ov := Subnode(was.kids[i], "__overlay__");
            if code == Spec.Ok
            then ov.Some? && ov.value.Node? && ot' == Emptied(ot, ov.value) && stale' == stale + {ov.value.id}
            else mt' == mt && ot' == ot && stale' == stale
    ensures Owned(h.nodes, mt', ot', stale') && Pending(was, ot', stale', i + 1)
    ensures SameNames(old(h.nodes), h.nodes) && TableIn(tree.table[..], mt')
  {
    hide NodeHeap.Valid, Rep, Ids, Separate, HasNode, Owned, Pending, TableIn, Untouched, Emptied, SameNames;
    hide Spec.MergeAt, Spec.Target, Components, Descend;
    ghost var table, ft := tree.table[..], was.kids[i];
    FragmentReady(h.nodes, table, mt, was, ot, stale, i);
    TargetFound(mt, table, ft, mem.values);
    NoneChanged(h.nodes);
    mt', ot', stale' := mt, ot, stale;
    var target, overlay;
    code, target := FindTarget(tree, h, mem, frag, mt, ft, stale);
    if target == NULL {
      return;
    }
    overlay := FindOverlay(h, frag, ft, stale);
    if overlay == NULL {
      code := Spec.MissingOverlay;
      return;
    }
    ghost var ov := Subnode(ft, "__overlay__").value;
    OverlayUntouched(was, ot, stale, i);
    OthersPending(was, ot, stale, i, ov);
    TableStays(table, mt, target, ov);
    mt', ot', stale' := Spec.MergeAt(mt, target, ov), Emptied(ot, ov), stale + {overlay};
    var err := OverlayNode(h, target, overlay, mt, ot, stale, ov);
    if err < 0 {
      code := Spec.MergeFail;
    }
  }

  lemma {:induction false} NoneChanged(m: Memory)
    ensures SameNames(m, m)
  {
  }

  lemma {:induction false} NamesCompose(m: Memory, m': Memory, m'': Memory)
    requires SameNames(m, m') && SameNames(m', m'')
    ensures SameNames(m, m'')
  {
  }

  /** The main tree after the first fragments. */
  lemma {:induction false} OneMoreFragment(mt: Linked, table: seq<Entry<Addr>>, kids: seq<Linked>, i: nat, d: Values)
    requires i < |kids|
    ensures var m' := Spec.ApplyFragments(mt, table, kids[..i], d);
            Spec.ApplyFragments(mt, table, kids[..i + 1], d) ==
              if kids[i].Prop? then m' else Spec.ApplyFragment(m', table, kids[i], d).1
    ensures Spec.ApplyFragment(Spec.ApplyFragments(mt, table, kids[..i], d), table, kids[i], d).0 != Spec.MergeFail
    ensures Spec.ApplyFragments(mt, table, kids[..i + 1], d).id == mt.id
  {
    assert kids[..i + 1][..i] == kids[..i];
    FragmentsKeepRoot(mt, table, kids[..i + 1], d);
  }

  lemma {:induction false} FragmentsKeepRoot(mt: Linked, table: seq<Entry<Addr>>, frags: seq<Linked>, d: Values)
    ensures var m' := Spec.ApplyFragments(mt, table, frags, d);
            m'.id == mt.id && m'.Node? == mt.Node?
            && m'.name == mt.name
  {
    if frags != [] {
      FragmentsKeepRoot(mt, table, frags[..|frags| - 1], d);
    }
  }

  lemma {:induction false} NextFragment(m: Memory, mt: Linked, was: Linked, ot: Linked, stale: set<Addr>, j: nat,
                                        i: nat)
    requires Owned(m, mt, ot, stale) && Pending(was, ot, stale, j) && i < |was.kids|
    ensures var x := was.kids[i]; x.id != NULL && x.id in m && m[x.id].IsNode() == x.Node?
    ensures m[was.kids[i].id].sibling == KidAt(was.kids, i + 1)
    ensures Pending(was, ot, stale, i) ==> Pending(was, ot, stale, i + 1)
  {
    RepKid(m, ot, stale, i);
  }

  lemma {:induction false} SameOverlayRoot(was: Linked, ot: Linked, stale: set<Addr>, i: nat)
    requires Pending(was, ot, stale, i)
    ensures ot.id == was.id
  {
  }

  lemma {:induction false} FirstFragment(m: Memory, mt: Linked, ot: Linked, stale: set<Addr>)
    requires Owned(m, mt, ot, stale) && stale !! Ids(ot)
    ensures ot.Node? && Pending(ot, ot, stale, 0) && ot.id in m && m[ot.id].child == KidAt(ot.kids, 0)
            && ot.kids[..|ot.kids|] == ot.kids
  {
    forall j | 0 <= j < |ot.kids| ensures stale !! Ids(ot.kids[j]) {
      KidIdsContain(ot.kids, j);
    }
  }

  /** `ufdt_overlay_apply_fragments`. */
  method ApplyFragments(tree: Ufdt, h: NodeHeap, mem: BlobMemory, overlayRoot: Addr, ghost mt: Linked, ghost ot: Linked)
    returns (err: int, ghost ot': Linked, ghost stale': set<Addr>)
    requires h.Valid() && Owned(h.nodes, mt, ot, {}) && tree.root == mt.id && overlayRoot == ot.id
    requires TableIn(tree.table[..], mt) && TargetsFilled(ot.kids, mem.values)
    modifies h, h.pool, h.pool.members
    ensures h.Valid() && h.pool.members <= old(h.pool.members) && err == 0
    ensures Owned(h.nodes, Spec.ApplyFragments(mt, tree.table[..], ot.kids, mem.values), ot', stale') && ot'.id == ot.id
    ensures SameNames(old(h.nodes), h.nodes)
  {
    hide NodeHeap.Valid, Rep, Ids, Separate, Owned, Pending, SameNames, TableIn;
    hide Spec.ApplyFragment, Spec.ApplyFragments, Spec.MergeAt, Spec.Target, TargetFilled;
    FirstFragment(h.nodes, mt, ot, {});
    NoneChanged(h.nodes);
    ghost var table, d, mt' := tree.table[..], mem.values, mt;
    ot', stale' := ot, {};
    var it := h.nodes[overlayRoot].child;
    ghost var i := 0;
    NoFragments(mt, table, ot.kids, d);
    while it != NULL
      invariant h.Valid() && h.pool.members <= old(h.pool.members)
      invariant i <= |ot.kids| && it == KidAt(ot.kids, i)
      invariant mt' == Spec.ApplyFragments(mt, table, ot.kids[..i], d) && mt'.id == mt.id
      invariant Owned(h.nodes, mt', ot', stale') && Pending(ot, ot', stale', i)
      invariant SameNames(old(h.nodes), h.nodes) && TableIn(table, mt')
      decreases |ot.kids| - i
    {
      NextFragment(h.nodes, mt', ot, ot', stale', i, i);
      OneMoreFragment(mt, table, ot.kids, i, d);
      if h.nodes[it].IsNode() {
        ghost var m := h.nodes;
        var code;
        code, mt', ot', stale' := ApplyFragment(tree, h, mem, it, mt', ot, ot', stale', i);
        NamesCompose(old(h.nodes), m, h.nodes);
        if code == Spec.MergeFail {
          return -1, ot', stale';
        }
      }
      NextFragment(h.nodes, mt', ot, ot', stale', i + 1, i);
      it := h.nodes[it].sibling;
      i := i + 1;
    }
    if i < |ot.kids| {
      NextFragment(h.nodes, mt', ot, ot', stale', i, i);
    }
    SameOverlayRoot(ot, ot', stale', i);
    err := 0;
  }
}
