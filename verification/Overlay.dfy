/** Applying one overlay blob to one main blob. */
module Overlay {
  import opened Bytes
  import opened Blobs
  import opened Trees
  import opened Paths
  import opened Phandles
  import opened NodePool
  import opened Nodes
  import opened Parse
  import opened FdtBuffers
  import opened Flattening
  import opened Sizes
  import opened Ufdts
  import opened Table
  import opened Output
  import opened Renumbering
  import opened ReferenceLaws
  import opened FragmentLaws
  import opened Subtrees
  import opened References
  import opened Erasing
  import opened Confinement
  import Spec = OverlaySpec
  import Fragments

  // ---------------------------------------------------------------- applying a linked overlay

  /** `ufdt_get_max_phandle`. */
  method GetMaxPhandle(table: array<Entry<Addr>>) returns (r: u32)
    ensures r == MaxPhandle(table[..])
  {
    if table.Length > 0 {
      return table[table.Length - 1].phandle;
    } else {
      return 0;
    }
  }

  /** `ufdt_overlay_local_ref_update`. */
  method LocalRefUpdate(h: NodeHeap, mem: BlobMemory, main: Ufdt, overlay: Ufdt, ghost ot: Linked) returns (err: int)
    requires overlay.root == ot.id && ot.Node? && Rep(h.nodes, ot, {}) && Separate(ot) && OwnRecords(ot)
    requires IsTable(overlay.table[..], ot, mem.values)
    requires var delta := MaxPhandle(main.table[..]);
             Confined(OwnAccesses(ot, Confinement.Renumbered(main.table[..], ot, mem.values), delta))
    modifies mem
    ensures var delta, d := MaxPhandle(main.table[..]), old(mem.values);
            Updated(Spec.LocalFixups(ot, if delta > 0 then Spec.Shift(ot, d, delta) else d, delta), err, mem.values)
  {
    hide Rep, Separate, OwnRecords, IsTable, Spec.Shift, Spec.LocalFixups, Confined, OwnAccesses;
    RepRoot(h.nodes, ot, {});
    var offset := GetMaxPhandle(main.table);
    if offset > 0 {
      TryIncreasePhandle(h, mem, overlay.table, offset, ot);
    }
    err := DoLocalFixups(h, mem, overlay.root, offset, ot, {});
    if err < 0 {
      return -1;
    }
    return 0;
  }

  /** `_ufdt_overlay_fdtps`: the main tree takes over the overlay's list of blobs. */
  method OverlayFdtps(main: Ufdt, overlay: Ufdt) returns (err: int)
    requires main.Valid() && overlay.Valid() && main != overlay && main.fdtps != overlay.fdtps
    modifies main, main.fdtps
    ensures err == 0 && main.Valid() && main.Fdts() == old(main.Fdts()) + overlay.Fdts()
    ensures main.root == old(main.root) && main.table == old(main.table)
    ensures main.fdtps == old(main.fdtps) || fresh(main.fdtps)
  {
    var i := 0;
    while i < overlay.numUsed
      invariant i <= overlay.numUsed && main.Valid() && overlay.Valid()
      invariant main.Fdts() == old(main.Fdts()) + overlay.Fdts()[..i]
      invariant main.root == old(main.root) && main.table == old(main.table)
      invariant main.fdtps == old(main.fdtps) || fresh(main.fdtps)
      invariant overlay.fdtps[..] == old(overlay.fdtps[..])
    {
      err := main.AddFdt(Some(overlay.fdtps[i]));
      if err < 0 {
        return -1;
      }
      i := i + 1;
    }
    err := 0;
  }

  /** Updates all references of the overlay. */
  method UpdateReferences(h: NodeHeap, mem: BlobMemory, main: Ufdt, overlay: Ufdt, ghost mt: Linked, ghost ot: Linked)
    returns (err: int)
    requires Fragments.Owned(h.nodes, mt, ot, {}) && main.root == mt.id && overlay.root == ot.id && OwnRecords(ot)
    requires IsTable(overlay.table[..], ot, mem.values)
    requires Confined(FixupAccesses(mt, main.table[..], ot, mem.values))
    modifies mem
    ensures Updated(Spec.UpdateReferences(mt, main.table[..], ot, old(mem.values)), err, mem.values)
  {
    hide Rep, Separate, OwnRecords, IsTable, Spec.Shift, Spec.LocalFixups, Spec.Fixups, OwnAccesses, ExternalAccesses;
    RepRoot(h.nodes, ot, {});
    RepRoot(h.nodes, mt, {});
    err := LocalRefUpdate(h, mem, main, overlay, ot);
    if err < 0 {
      return -1;
    }
    err := DoFixups(h, mem, main.root, overlay.root, mt, ot, {});
    if err < 0 {
      return -1;
    }
    err := 0;
  }

  lemma {:induction false} OwnedRoots(m: Memory, mt: Linked, ot: Linked, stale: set<Addr>)
    requires Fragments.Owned(m, mt, ot, stale)
    ensures mt.Node? && ot.Node? && mt.id != NULL && ot.id != NULL
  {
  }

  /** Updating references does not empty a target. */
  lemma {:induction false} TargetsKept(mt: Linked, table: seq<Entry<Addr>>, ot: Linked, d: Values)
    requires ot.Node? && OwnRecords(ot) && TargetsFilled(ot.kids, d)
    ensures var r := Spec.UpdateReferences(mt, table, ot, d); r.Some? ==> TargetsFilled(ot.kids, r.value)
  {
    hide Spec.UpdateReferences, OwnRecords;
    UpdateWithin(mt, table, ot, d);
    var r := Spec.UpdateReferences(mt, table, ot, d);
    if r.Some? {
      forall i | 0 <= i < |ot.kids| ensures TargetFilled(ot.kids[i], r.value) {
        assert TargetFilled(ot.kids[i], d);
      }
    }
  }

  const FDT_HEADER_SIZE := 40

  /**
   * `ufdt_overlay_apply`: fails, with all nodes where they were, or leaves the specified tree and
   * values. Every live entry belongs to one of the two trees either way.
   */
  method OverlayApply(h: NodeHeap, mem: BlobMemory, main: Ufdt, overlay: Ufdt, overlayLength: nat, ghost mt: Linked,
                      ghost ot: Linked)
    returns (err: int, ghost mt': Linked, ghost ot': Linked, ghost stale: set<Addr>)
    requires h.Valid() && Fragments.Owned(h.nodes, mt, ot, {}) && main.root == mt.id && overlay.root == ot.id
            && OwnRecords(ot)
    requires IsTable(overlay.table[..], ot, mem.values) && TableIn(main.table[..], mt)
    requires WellBounded(mt, main.table[..], ot, mem.values)
    requires main.Valid() && overlay.Valid() && main != overlay && main.fdtps != overlay.fdtps
    modifies h, h.pool, h.pool.members, mem, main, main.fdtps
    ensures h.Valid() && h.pool.members <= old(h.pool.members)
    ensures main.Valid() && main.Fdts() == old(main.Fdts()) + old(overlay.Fdts())
    ensures main.root == old(main.root) && (main.fdtps == old(main.fdtps) || fresh(main.fdtps))
    ensures SameNames(old(h.nodes), h.nodes)
    ensures Fragments.Owned(h.nodes, mt', ot', stale) && mt'.id == mt.id && ot'.id == ot.id
    ensures var r := Spec.OverlayApply(mt, old(main.table[..]), ot, old(mem.values));
            && err == (if overlayLength < FDT_HEADER_SIZE || r.None? then -1 else 0)
            && (err == 0 ==> mt' == r.value.tree && mem.values == r.value.values)
  {
    hide NodeHeap.Valid, Fragments.Owned, OwnRecords, IsTable, TableIn, SameNames, Spec.UpdateReferences;
    hide Spec.ApplyFragments;
    hide FixupAccesses, TargetsFilled;
    Fragments.NoneChanged(h.nodes);
    OwnedRoots(h.nodes, mt, ot, {});
    mt', ot', stale := mt, ot, {};
    ghost var table := main.table[..];
    err := OverlayFdtps(main, overlay);
    if err < 0 {
      return -1, mt, ot, {};
    }
    if overlayLength < FDT_HEADER_SIZE {
      return -1, mt, ot, {};
    }
    TargetsKept(mt, table, ot, mem.values);
    err := UpdateReferences(h, mem, main, overlay, mt, ot);
    if err < 0 {
      return -1, mt, ot, {};
    }
    err, ot', stale := Fragments.ApplyFragments(main, h, mem, overlay.root, mt, ot);
    mt' := Spec.ApplyFragments(mt, table, ot.kids, mem.values);
    Fragments.FragmentsKeepRoot(mt, table, ot.kids, mem.values);
    if err < 0 {
      return -1, mt', ot', stale;
    }
    return 0, mt', ot', stale;
  }

  // ---------------------------------------------------------------- from blobs to a blob

  /** The first token of the structure block opens a node. */
  predicate HasRoot(fdt: Fdt) {
    fdt.structure != [] && fdt.structure[0].kind == BeginNode
  }

  /**
   * `ufdt_from_fdt`. A blob whose header libfdt refuses gives a tree object without blobs. The path of the
   * root is offset 0 whatever token is there; only a token that opens a node gives a tree, so a block that
   * starts with a NOP leaves the root NULL.
   */
  method FromFdt(h: NodeHeap, mem: BlobMemory, fdt: Fdt, validHeader: bool) returns (tree: Ufdt, ghost t: Linked)
    requires h.Valid() && NamesInside(fdt) && fdt.structure != [] && fdt.structure[0].kind != Property
    requires HasRoot(fdt) ==> WellFormed(fdt)
    modifies h, h.pool, h.pool.members
    ensures h.Valid() && fresh(h.pool.members - old(h.pool.members))
    ensures fresh(tree) && fresh(tree.fdtps) && fresh(tree.table)
    ensures tree.Valid()
    ensures tree.Fdts() == if validHeader then [fdt] else []
    ensures !validHeader || !HasRoot(fdt) ==> tree.root == NULL && tree.table.Length == 0 && h.nodes == old(h.nodes)
    ensures validHeader && HasRoot(fdt) ==>
              && tree.root == t.id
              && Built(old(h.nodes), h.nodes, t) && NamesFrom(old(h.nodes), h.nodes, fdt)
              && Erase(t) == Decode(fdt)
              && (Signed(Decode(fdt), mem.values) ==> IsTable(tree.table[..], t, mem.values))
  {
    hide NodeHeap.Valid, Built, NamesFrom, Signed, IsTable, Rep, SortedWith;
    t := Node(NULL, "", []);
    if !validHeader {
      tree := new Ufdt(None);
      return;
    }
    tree := new Ufdt(Some(fdt));
    var root, next;
    root, next, t := FdtToUfdtTree(h, fdt, 0);
    tree.root := root;
    if root != NULL {
      BuiltRoot(old(h.nodes), h.nodes, t);
    }
    var table, unwritten := BuildPhandleTable(h, mem, root, t, {});
    if root != NULL && Signed(Decode(fdt), mem.values) {
      SignedErased(t, mem.values);
      AllWritten(table[..], unwritten, t, mem.values);
    }
    tree.table := table;
  }

  lemma {:induction false} BuiltRoot(m: Memory, m': Memory, t: Linked)
    requires Built(m, m', t)
    ensures Rep(m', t, {}) && t.id != NULL && Separate(t)
  {
  }

  /** Two trees parsed into an empty heap. */
  lemma {:induction false} BothBuilt(m: Memory, m': Memory, mt: Linked, ot: Linked, main: Fdt, overlay: Fdt)
    requires mt.Node? && ot.Node? && Built(map[], m, mt) && Built(m, m', ot)
    requires NamesFrom(map[], m, main) && NamesFrom(m, m', overlay) && Terminated(main) && Terminated(overlay)
    ensures Fragments.Owned(m', mt, ot, {}) && Output.Named(m', [main, overlay])
  {
    RepOutside(m, m', mt, {}, Ids(ot));
    var fdts := [main, overlay];
    assert fdts[0] == main && fdts[1] == overlay;
    forall n | n in m' && m'[n].tag.kind == Property ensures KnownName(m'[n].namePtr, fdts) {
      assert n in m ==> n !in Ids(ot) && m'[n] == m[n];
    }
  }

  lemma {:induction false} StillNamed(m: Memory, m': Memory, fdts: seq<Fdt>)
    requires Output.Named(m, fdts) && SameNames(m, m')
    ensures Output.Named(m', fdts)
  {
  }

  /** `ufdt_destruct` of both trees and of the pool: no entry is left. */
  method DestroyTrees(h: NodeHeap, main: Ufdt, overlay: Ufdt, ghost mt: Linked, ghost ot: Linked,
                      ghost stale: set<Addr>)
    returns (isLeak: bool)
    requires h.Valid() && Fragments.Owned(h.nodes, mt, ot, stale) && main.root == mt.id && overlay.root == ot.id
    modifies h, h.pool, h.pool.members
    ensures h.nodes == map[] && !isLeak && h.pool.members == {}
  {
    hide NodeHeap.Valid, Rep, Separate, Ids;
    ghost var m := h.nodes;
    OwnedRoots(m, mt, ot, stale);
    h.Destruct(overlay.root, ot, stale);
    RepOutside(m, h.nodes, mt, {}, Ids(ot));
    h.Destruct(main.root, mt, {});
    assert h.nodes.Keys == {};
    isLeak := DestroyPool(h);
  }

  method DestroyPool(h: NodeHeap) returns (isLeak: bool)
    requires h.Valid() && h.nodes.Keys == {}
    modifies h.pool, h.pool.members
    ensures !isLeak && h.pool.members == {}
  {
    hide Pool.Valid;
    isLeak := h.pool.Destruct();
  }

  // ---------------------------------------------------------------- the buffer is large enough

  /** The labelled trees of two blobs that share no label, and the main tree's table. */
  ghost predicate Loaded(main: Fdt, overlay: Fdt, mt: Linked, ot: Linked, table: seq<Entry<Addr>>, d: Values)
    requires WellFormed(main) && WellFormed(overlay)
  {
    && Erase(mt) == Decode(main) && Erase(ot) == Decode(overlay)
    && Separate(mt) && Separate(ot) && Ids(mt) !! Ids(ot)
    && IsTable(table, mt, d)
  }

  lemma {:induction false} LoadedRecords(main: Fdt, overlay: Fdt, mt: Linked, ot: Linked, table: seq<Entry<Addr>>,
                                         d: Values)
    requires WellFormed(main) && WellFormed(overlay) && Loaded(main, overlay, mt, ot, table, d)
    ensures mt.Node? && ot.Node? && OwnRecords(mt) && OwnRecords(ot) && TableIn(table, mt)
    ensures main.blob != overlay.blob ==> Records(mt) !! Records(ot)
  {
    RecordsErased(mt);
    RecordsErased(ot);
    DecodedRecords(main);
    DecodedRecords(overlay);
    EntriesHaveNodes(mt, d);
    forall e | e in table ensures HasNode(mt, e.node) {
      assert e in multiset(table);
      assert e in multiset(Entries(mt, d));
    }
  }

  /** A buffer of the size of both blobs is always enough. */
  lemma {:induction false} BothSizesSuffice(main: Fdt, overlay: Fdt, mt: Linked, ot: Linked, table: seq<Entry<Addr>>,
                                            d: Values)
    requires SoundBlob(main, d) && SoundBlob(overlay, d) && Loaded(main, overlay, mt, ot, table, d)
    requires ot.Node? && Spec.OverlayApply(mt, table, ot, d).Some?
    ensures var out := Spec.OverlayApply(mt, table, ot, d).value;
            OutSize([main, overlay], Fill(out.tree, out.values)) <= main.totalsize + overlay.totalsize
  {
    hide WellFormed, Loaded, Fill, TreeSize, Spec.UpdateReferences, Spec.ApplyFragments, IsTable, TableIn, OwnRecords;
    hide Within, Decode;
    var out := Spec.OverlayApply(mt, table, ot, d).value;
    LoadedRecords(main, overlay, mt, ot, table, d);
    LoadedSizes(main, overlay, mt, ot, table, d);
    UpdateWithin(mt, table, ot, d);
    LengthsOf(d, out.values, Records(ot));
    SizeSame(mt, d, out.values);
    SizeSame(ot, d, out.values);
    SeparateParts(mt, ot);
    FragmentsSize(mt, table, ot.kids, out.values);
    ChildrenSize(ot, out.values);
    TwoStrtabs(main, overlay);
  }

  lemma {:induction false} LengthsOf(d: Values, d': Values, s: set<FdtTag>)
    requires Within(d, d', s)
    ensures SameLengths(d, d')
  {
  }

  lemma {:induction false} SeparateParts(mt: Linked, ot: Linked)
    requires Separate(mt) && Separate(ot) && ot.Node? && Ids(mt) !! Ids(ot)
    ensures SeparateKids(ot.kids) && Ids(mt) !! KidIds(ot.kids)
  {
  }

  lemma {:induction false} LoadedSizes(main: Fdt, overlay: Fdt, mt: Linked, ot: Linked, table: seq<Entry<Addr>>,
                                       d: Values)
    requires SoundBlob(main, d) && SoundBlob(overlay, d) && Loaded(main, overlay, mt, ot, table, d)
    ensures 40 + 16 * (|main.reserve| + 1) + TreeSize(Fill(mt, d)) + 4 + |main.strings| <= main.totalsize
    ensures 40 + 16 + TreeSize(Fill(ot, d)) + 4 + |overlay.strings| <= overlay.totalsize
    ensures Separate(mt) && Separate(ot) && Ids(mt) !! Ids(ot)
  {
    FillErased(mt, d);
    FillErased(ot, d);
    DecodedFits(main, d);
    DecodedFits(overlay, d);
  }

  lemma {:induction false} TwoStrtabs(main: Fdt, overlay: Fdt)
    ensures Strtab([main, overlay]) == overlay.strings + main.strings
  {
    assert [main, overlay][..1] == [main];
    assert Strtab([main]) == main.strings + Strtab([main][..0]);
  }

  // ---------------------------------------------------------------- the whole

  /** What a caller has to provide: sound blobs with phandles below 2^31. */
  ghost predicate Acceptable(fdt: Fdt, d: Values) {
    SoundBlob(fdt, d) && Signed(Decode(fdt), d)
  }

  /** However the trees of the two blobs are labelled, the offsets in the overlay stay inside its values. */
  ghost predicate BoundedBlobs(main: Fdt, overlay: Fdt, d: Values)
    requires WellFormed(main) && WellFormed(overlay)
  {
    forall mt, ot, table | Loaded(main, overlay, mt, ot, table, d) :: WellBounded(mt, table, ot, d)
  }

  /**
   * End to end: the overlay is applied as specified to the trees of the two blobs, and the produced
   * blob decodes to the result, properties before subnodes, with the main blob's reserve list.
   */
  ghost predicate Produced(r: Option<Fdt>, blob: nat, d': Values, main: Fdt, overlay: Fdt, d: Values, mt: Linked,
                           ot: Linked, table: seq<Entry<Addr>>)
  {
    && WellFormed(main) && WellFormed(overlay) && ot.Node?
    && Loaded(main, overlay, mt, ot, table, d)
    && var out := Spec.OverlayApply(mt, table, ot, d);
    && (r.Some? <==> out.Some?)
    && (r.Some? ==>
          && r.value.blob == blob && SoundBlob(r.value, d') && Kept(out.value.values, d', blob)
          && r.value.totalsize == main.totalsize + overlay.totalsize
          && r.value.reserve == main.reserve
          && Fill(Decode(r.value), d') == PropsFirst(Fill(out.value.tree, out.value.values)))
  }

  /** `ufdt_apply_overlay`; `blob` is the address of the new buffer. */
  method UfdtApplyOverlay(mem: BlobMemory, main: Option<Fdt>, mainSize: nat, overlay: Fdt, overlaySize: nat, blob: nat)
    returns (r: Option<Fdt>, ghost mt: Linked, ghost ot: Linked, ghost table: seq<Entry<Addr>>)
    requires main.Some? ==> Acceptable(main.value, mem.values)
    requires Acceptable(overlay, mem.values)
    requires main.Some? ==> BoundedBlobs(main.value, overlay, mem.values)
    requires forall tag | tag in mem.values :: tag.blob != blob
    modifies mem
    ensures main.None? ==> r.None? && mem.values == old(mem.values)
    ensures overlaySize < 8 || overlaySize != overlay.totalsize ==> r.None? && mem.values == old(mem.values)
    ensures main.Some? && (mainSize < 8 || mainSize != main.value.totalsize) ==>
              r.None? && mem.values == old(mem.values)
    ensures (&& main.Some?
             && overlaySize >= 8 && overlaySize == overlay.totalsize
             && mainSize >= 8 && mainSize == main.value.totalsize) ==>
              Produced(r, blob, mem.values, main.value, overlay, old(mem.values), mt, ot, table)
  {
    mt, ot, table := Node(NULL, "", []), Node(NULL, "", []), [];
    if main.None? {
      return None, mt, ot, table;
    }
    if overlaySize < 8 || overlaySize != overlay.totalsize {
      return None, mt, ot, table;
    }
    if mainSize < 8 || mainSize != main.value.totalsize {
      return None, mt, ot, table;
    }
    var outSize := main.value.totalsize + overlaySize;
    var h := new NodeHeap();
    var isLeak;
    r, isLeak, mt, ot, table := ApplyToBlob(h, mem, main.value, overlay, overlaySize, outSize, blob);
  }

  /**
   * The same once the sizes were checked and the pool was set up. On success and on failure no node
   * and no block is left, and the pool reports no leak.
   */
  method ApplyToBlob(h: NodeHeap, mem: BlobMemory, main: Fdt, overlay: Fdt, overlaySize: nat, outSize: nat, blob: nat)
    returns (r: Option<Fdt>, isLeak: bool, ghost mt: Linked, ghost ot: Linked, ghost table: seq<Entry<Addr>>)
    requires h.Valid() && h.nodes == map[]
    requires Acceptable(main, mem.values) && Acceptable(overlay, mem.values) && BoundedBlobs(main, overlay, mem.values)
    requires overlaySize == overlay.totalsize && outSize == main.totalsize + overlay.totalsize
    requires forall tag | tag in mem.values :: tag.blob != blob
    modifies mem, h, h.pool, h.pool.members
    ensures Produced(r, blob, mem.values, main, overlay, old(mem.values), mt, ot, table)
    ensures !isLeak && h.nodes == map[] && h.pool.members == {}
  {
    hide NodeHeap.Valid, Fragments.Owned, Output.Named, Loaded, Produced, Acceptable, IsTable, TableIn, OwnRecords;
    hide Spec.OverlayApply;
    hide SameNames, Flattened, Rep, Strtab, TreeSize, Fill, Terminated, WellFormed, WellBounded;
    ghost var d := mem.values;
    AcceptableParts(main, d);
    AcceptableParts(overlay, d);
    var mainTree, overlayTree;
    mainTree, overlayTree, mt, ot := LoadBoth(h, mem, main, overlay);
    table := mainTree.table[..];
    ghost var m := h.nodes;
    LoadedRecords(main, overlay, mt, ot, table, d);
    ghost var mt', ot', stale;
    var err;
    err, mt', ot', stale := OverlayApply(h, mem, mainTree, overlayTree, overlaySize, mt, ot);
    if err < 0 {
      NothingProduced(main, overlay, d, blob, mem.values, mt, ot, table);
      isLeak := DestroyTrees(h, mainTree, overlayTree, mt', ot', stale);
      return None, isLeak, mt, ot, table;
    }
    assert mainTree.Fdts() == [main, overlay];
    ghost var d1 := mem.values;
    Applied(main, overlay, mt, ot, table, d, blob);
    StillNamed(m, h.nodes, [main, overlay]);
    OwnedRoots(h.nodes, mt', ot', stale);
    OwnedMain(h.nodes, mt', ot', stale);
    r := UfdtToFdt(mainTree, h, mem, blob, outSize, mt');
    BlobProduced(r.value, main, overlay, d, mem.values, mt, ot, table);
    isLeak := DestroyTrees(h, mainTree, overlayTree, mt', ot', stale);
  }

  lemma {:induction false} AcceptableParts(fdt: Fdt, d: Values)
    requires Acceptable(fdt, d)
    ensures WellFormed(fdt) && HasRoot(fdt) && NamesInside(fdt) && fdt.structure != [] && Terminated(fdt)
            && SoundBlob(fdt, d) && fdt.totalsize >= FDT_HEADER_SIZE
    ensures forall i | 0 <= i < |fdt.reserve| :: fdt.reserve[i].size > 0
  {
  }

  lemma {:induction false} OwnedMain(m: Memory, mt: Linked, ot: Linked, stale: set<Addr>)
    requires Fragments.Owned(m, mt, ot, stale)
    ensures Rep(m, mt, {})
  {
  }

  /** What is known between updating the trees and writing the blob. */
  lemma {:induction false} Applied(main: Fdt, overlay: Fdt, mt: Linked, ot: Linked, table: seq<Entry<Addr>>, d: Values,
                                   blob: nat)
    requires SoundBlob(main, d) && SoundBlob(overlay, d) && WellFormed(main) && WellFormed(overlay)
    requires Loaded(main, overlay, mt, ot, table, d)
    requires ot.Node? && OwnRecords(ot) && Spec.OverlayApply(mt, table, ot, d).Some?
    requires forall tag | tag in d :: tag.blob != blob
    ensures var out := Spec.OverlayApply(mt, table, ot, d).value;
            && OutSize([main, overlay], Fill(out.tree, out.values)) <= main.totalsize + overlay.totalsize
            && forall tag | tag in out.values :: tag.blob != blob
    ensures forall f | f in [main, overlay] :: Terminated(f)
  {
    hide Fill, TreeSize, Strtab, Loaded, Spec.UpdateReferences, Spec.ApplyFragments, OwnRecords;
    BothSizesSuffice(main, overlay, mt, ot, table, d);
    UpdateWithin(mt, table, ot, d);
  }

  lemma {:induction false} NothingProduced(main: Fdt, overlay: Fdt, d: Values, blob: nat, d': Values, mt: Linked,
                                           ot: Linked, table: seq<Entry<Addr>>)
    requires WellFormed(main) && WellFormed(overlay) && Loaded(main, overlay, mt, ot, table, d)
    requires ot.Node? && Spec.OverlayApply(mt, table, ot, d).None?
    ensures Produced(None, blob, d', main, overlay, d, mt, ot, table)
  {
  }

  lemma {:induction false} BlobProduced(r: Fdt, main: Fdt, overlay: Fdt, d: Values, d': Values, mt: Linked, ot: Linked,
                                        table: seq<Entry<Addr>>)
    requires WellFormed(main) && WellFormed(overlay) && Loaded(main, overlay, mt, ot, table, d)
    requires ot.Node? && Spec.OverlayApply(mt, table, ot, d).Some?
    requires var out := Spec.OverlayApply(mt, table, ot, d).value;
             out.tree.Node? && Flattened(r, out.values, d', [main, overlay], out.tree)
    requires r.totalsize == main.totalsize + overlay.totalsize
    ensures Produced(Some(r), r.blob, d', main, overlay, d, mt, ot, table)
  {
  }

  /** Parses both blobs. */
  method LoadBoth(h: NodeHeap, mem: BlobMemory, main: Fdt, overlay: Fdt)
    returns (mainTree: Ufdt, overlayTree: Ufdt, ghost mt: Linked, ghost ot: Linked)
    requires h.Valid() && h.nodes == map[] && Acceptable(main, mem.values) && Acceptable(overlay, mem.values)
    modifies h, h.pool, h.pool.members
    ensures h.Valid() && fresh(h.pool.members - old(h.pool.members))
    ensures fresh(mainTree) && fresh(mainTree.fdtps) && fresh(overlayTree) && fresh(overlayTree.fdtps)
    ensures mainTree.Valid() && overlayTree.Valid() && mainTree != overlayTree && mainTree.fdtps != overlayTree.fdtps
    ensures mainTree.Fdts() == [main] && overlayTree.Fdts() == [overlay]
    ensures mainTree.root == mt.id && overlayTree.root == ot.id
    ensures Fragments.Owned(h.nodes, mt, ot, {}) && Output.Named(h.nodes, [main, overlay])
    ensures Loaded(main, overlay, mt, ot, mainTree.table[..], mem.values)
    ensures IsTable(overlayTree.table[..], ot, mem.values)
  {
    hide NodeHeap.Valid, Built, NamesFrom, Signed, IsTable, Rep, Fragments.Owned, WellFormed, NamesInside, BlobFits;
    hide Separate, Ids, Output.Named, Decode, HasRoot;
    AcceptableParts(main, mem.values);
    AcceptableParts(overlay, mem.values);
    mainTree, mt := FromFdt(h, mem, main, true);
    ghost var m := h.nodes;
    overlayTree, ot := FromFdt(h, mem, overlay, true);
    BothBuilt(m, h.nodes, mt, ot, main, overlay);
    OwnedSeparate(h.nodes, mt, ot, {});
  }

  lemma {:induction false} OwnedSeparate(m: Memory, mt: Linked, ot: Linked, stale: set<Addr>)
    requires Fragments.Owned(m, mt, ot, stale)
    ensures Separate(mt) && Separate(ot) && Ids(mt) !! Ids(ot)
  {
  }
}
