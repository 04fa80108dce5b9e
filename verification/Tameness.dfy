/**
 * Overlays whose fixups only write ordinary references: a condition on the overlay alone, and why it
 * is enough whatever main tree the overlay is applied to.
 */
module Tameness {
  import opened Bytes
  import opened Trees
  import opened Paths
  import opened Phandles
  import opened OverlaySpec
  import opened Confinement
  import opened Numbers
  import opened Renumbering
  import opened ReferenceLaws
  import opened FixupPlans
  import opened Uniqueness
  import opened Targeting

  /** The two stores have values of the same length in `lens`, and the same values in `s`. */
  ghost predicate Alike<I>(d: Store<I>, d': Store<I>, lens: set<I>, s: set<I>) {
    && (forall i | i in lens :: |Val(d', i)| == |Val(d, i)|)
    && (forall i | i in s :: Val(d', i) == Val(d, i))
  }

  /** The records that the fixups of an overlay are read from. */
  ghost function OwnReads<N, I>(o: Tree<N, I>): set<I> {
    var local, fixups := Subnode(o, "__local_fixups__"), Subnode(o, "__fixups__");
    AliasRecords(o)
    + (if local.None? then {} else Records(local.value))
    + (if fixups.None? then {} else Records(fixups.value))
  }

  /** No listed cell is part of a phandle property or of what is read; nothing that is read is a phandle. */
  ghost predicate Tame<N, I>(o: Tree<N, I>, d: Store<I>) {
    var s, fixups := OwnReads(o) + PhandleRecords(o), Subnode(o, "__fixups__");
    && OwnReads(o) !! PhandleRecords(o)
    && Quiet(LocalPart(o, d).edits, s)
    && (fixups.Some? && fixups.value.Node? ==> TameLists(o, fixups.value.kids, d, s))
  }

  ghost predicate TameLists<N, I>(o: Tree<N, I>, fixups: seq<Tree<N, I>>, d: Store<I>, s: set<I>) {
    forall i | 0 <= i < |fixups| && fixups[i].Prop? :: TameList(o, fixups[i].data, d, s)
  }

  ghost predicate TameList<N, I>(o: Tree<N, I>, list: I, d: Store<I>, s: set<I>) {
    Quiet(PlanList(o, d, list, |Val(d, list)|, 0, 0).edits, s)
  }

  // ---------------------------------------------------------------- plans depend on what is read only

  lemma {:induction false} CellsAlike<I>(d: Store<I>, d': Store<I>, target: I, fixup: I, len: nat, i: nat, lens: set<I>,
                                         s: set<I>)
    requires Alike(d, d', lens, s) && fixup in s && target in lens
    ensures PlanCells(d', target, fixup, len, i) == PlanCells(d, target, fixup, len, i)
    decreases len - i
  {
    if i < len {
      CellsAlike(d, d', target, fixup, len, i + CELL, lens, s);
    }
  }

  lemma {:induction false} PropsAlike<N, I>(t: Tree<N, I>, fixups: seq<Tree<N, I>>, d: Store<I>, d': Store<I>,
                                            lens: set<I>, s: set<I>)
    requires Alike(d, d', lens, s) && KidRecords(fixups) <= s && Records(t) <= lens
    ensures PlanProps(t, fixups, d') == PlanProps(t, fixups, d)
    decreases |fixups|
  {
    if fixups != [] {
      TailRecords(fixups);
      PropsAlike(t, fixups[1..], d, d', lens, s);
      if fixups[0].Prop? && PropOf(t, fixups[0].name).Some? {
        var list := fixups[0].data;
        assert list in Records(fixups[0]);
        PropInRecords(t, fixups[0].name);
        CellsAlike(d, d', PropOf(t, fixups[0].name).value, list, |Val(d, list)|, 0, lens, s);
      }
    }
  }

  lemma {:induction false} NodesAlike<N, I>(t: Tree<N, I>, fixups: seq<Tree<N, I>>, d: Store<I>, d': Store<I>,
                                            lens: set<I>, s: set<I>)
    requires Alike(d, d', lens, s) && KidRecords(fixups) <= s && Records(t) <= lens
    ensures PlanNodes(t, fixups, d') == PlanNodes(t, fixups, d)
    decreases fixups
  {
    if fixups != [] {
      TailRecords(fixups);
      NodesAlike(t, fixups[1..], d, d', lens, s);
      if fixups[0].Node? && Resolve(t, fixups[0].name).Some? {
        ResolveRecords(t, fixups[0].name);
        LocalAlike(Resolve(t, fixups[0].name).value, fixups[0], d, d', lens, s);
      }
    }
  }

  lemma {:induction false} LocalAlike<N, I>(t: Tree<N, I>, fixups: Tree<N, I>, d: Store<I>, d': Store<I>, lens: set<I>,
                                            s: set<I>)
    requires fixups.Node? && Alike(d, d', lens, s) && Records(fixups) <= s && Records(t) <= lens
    ensures PlanLocal(t, fixups, d') == PlanLocal(t, fixups, d)
    decreases fixups
  {
    PropsAlike(t, fixups.kids, d, d', lens, s);
    NodesAlike(t, fixups.kids, d, d', lens, s);
  }

  lemma {:induction false} TreePathAlike<N, I>(o: Tree<N, I>, d: Store<I>, d': Store<I>, path: string, lens: set<I>,
                                               s: set<I>)
    requires Alike(d, d', lens, s) && AliasRecords(o) <= s
    ensures TreePath(o, d', path) == TreePath(o, d, path)
  {
    hide Components;
    if path == "" || path[0] != '/' {
      var k := IndexOf(path, '/');
      if PropAt(o, ["aliases"], path[..k]).Some? {
        PropInRecords(Subnode(o, "aliases").value, path[..k]);
      }
    }
  }

  lemma {:induction false} LocationAlike<N, I(!new)>(o: Tree<N, I>, d: Store<I>, d': Store<I>, fixup: string,
                                                     lens: set<I>, s: set<I>)
    requires Alike(d, d', lens, s) && AliasRecords(o) <= s && Records(o) <= lens
    ensures FixupLocation(o, d', fixup) == FixupLocation(o, d, fixup)
  {
    hide TreePath, AliasRecords, Records, PropOf, StrToUl, ToInt32, FixupCheck;
    var i := IndexOf(fixup, ':');
    TreePathAlike(o, d, d', fixup[..i], lens, s);
    var node := TreePath(o, d, fixup[..i]);
    if i < |fixup| && node.Some? {
      var rest := fixup[i + 1..];
      TreePathRecords(o, d, fixup[..i]);
      LengthAlike(node.value, rest[..IndexOf(rest, ':')], d, d', lens, s);
    }
  }

  /** A property of the overlay has the same length in both stores. */
  lemma {:induction false} LengthAlike<N, I>(t: Tree<N, I>, name: string, d: Store<I>, d': Store<I>, lens: set<I>,
                                             s: set<I>)
    requires Alike(d, d', lens, s) && Records(t) <= lens
    ensures var p := PropOf(t, name); p.Some? ==> |Val(d', p.value)| == |Val(d, p.value)|
  {
    if PropOf(t, name).Some? {
      PropInRecords(t, name);
    }
  }

  /** The same places, all of them in `s`. */
  ghost predicate SamePlaces<I>(a: Plan<I>, b: Plan<I>, s: set<I>) {
    && a.ok == b.ok && |a.edits| == |b.edits|
    && (forall i | 0 <= i < |a.edits| :: a.edits[i].at == b.edits[i].at)
    && Inside(b.edits, s)
  }

  ghost predicate Inside<I>(edits: seq<Edit<I>>, s: set<I>) {
    forall i | 0 <= i < |edits| :: edits[i].at.prop in s
  }

  lemma {:induction false} OneMorePlace<I>(a: Plan<I>, b: Plan<I>, at: Location<I>, p: u32, q: u32, s: set<I>)
    requires SamePlaces(a, b, s) && at.prop in s
    ensures SamePlaces(Then(Plan([Assign(at, p)], true), a), Then(Plan([Assign(at, q)], true), b), s)
  {
  }

  /** Where a list of strings leads does not depend on the phandle that is written there. */
  lemma {:induction false} ListAlike<N, I(!new)>(o: Tree<N, I>, d: Store<I>, d': Store<I>, list: I, len: nat, pos: nat,
                                                 p: u32, q: u32, lens: set<I>, s: set<I>)
    requires Alike(d, d', lens, s) && AliasRecords(o) <= s && Records(o) <= lens && list in s
    ensures SamePlaces(PlanList(o, d, list, len, pos, p), PlanList(o, d', list, len, pos, q), Records(o))
    decreases len - pos
  {
    hide FixupLocation, CString, AliasRecords, SamePlaces, Records;
    NoPlaces(Records(o));
    if pos < len {
      var bytes := Val(d, list);
      var fixup := if pos <= |bytes| then CString(bytes[pos..]) else "";
      LocationAlike(o, d, d', fixup, lens, s);
      LocationIn(o, d, fixup);
      var at := FixupLocation(o, d, fixup);
      if at.Some? {
        var next := pos + |fixup| + 1;
        PlaceFits(o, d, d', at.value, lens, s);
        ListAlike(o, d, d', list, len, next, p, q, lens, s);
        OneMorePlace(PlanList(o, d, list, len, next, p), PlanList(o, d', list, len, next, q), at.value, p, q,
            Records(o));
      }
    }
  }

  lemma {:induction false} NoPlaces<I>(s: set<I>)
    ensures SamePlaces(Plan([], true), Plan([], true), s) && SamePlaces(Plan([], false), Plan([], false), s)
  {
  }

  lemma {:induction false} PlaceFits<N, I(!new)>(o: Tree<N, I>, d: Store<I>, d': Store<I>, at: Location<I>,
                                                 lens: set<I>, s: set<I>)
    requires Alike(d, d', lens, s) && at.prop in Records(o) && Records(o) <= lens
    ensures Fits(d', at) == Fits(d, at)
  {
  }

  // ---------------------------------------------------------------- listed cells belong to the overlay

  lemma {:induction false} CellsInside<I>(d: Store<I>, target: I, fixup: I, len: nat, i: nat, s: set<I>)
    requires target in s
    ensures Inside(PlanCells(d, target, fixup, len, i).edits, s)
    decreases len - i
  {
    if i < len {
      CellsInside(d, target, fixup, len, i + CELL, s);
    }
  }

  lemma {:induction false} PropsInside<N, I>(t: Tree<N, I>, fixups: seq<Tree<N, I>>, d: Store<I>, s: set<I>)
    requires Records(t) <= s
    ensures Inside(PlanProps(t, fixups, d).edits, s)
    decreases |fixups|
  {
    if fixups != [] {
      PropsInside(t, fixups[1..], d, s);
      if fixups[0].Prop? && PropOf(t, fixups[0].name).Some? {
        PropInRecords(t, fixups[0].name);
        CellsInside(d, PropOf(t, fixups[0].name).value, fixups[0].data, |Val(d, fixups[0].data)|, 0, s);
      }
    }
  }

  lemma {:induction false} NodesInside<N, I>(t: Tree<N, I>, fixups: seq<Tree<N, I>>, d: Store<I>, s: set<I>)
    requires Records(t) <= s
    ensures Inside(PlanNodes(t, fixups, d).edits, s)
    decreases fixups
  {
    if fixups != [] {
      NodesInside(t, fixups[1..], d, s);
      if fixups[0].Node? && Resolve(t, fixups[0].name).Some? {
        ResolveRecords(t, fixups[0].name);
        LocalInside(Resolve(t, fixups[0].name).value, fixups[0], d, s);
      }
    }
  }

  lemma {:induction false} LocalInside<N, I>(t: Tree<N, I>, fixups: Tree<N, I>, d: Store<I>, s: set<I>)
    requires fixups.Node? && Records(t) <= s
    ensures Inside(PlanLocal(t, fixups, d).edits, s)
    decreases fixups
  {
    PropsInside(t, fixups.kids, d, s);
    NodesInside(t, fixups.kids, d, s);
  }

  // ---------------------------------------------------------------- tame overlays are harmless

  /** All lists together, for any symbols. */
  lemma {:induction false} FixupsQuiet<N, I(!new)>(m: Tree<N, I>, symbols: Tree<N, I>, o: Tree<N, I>,
                                                   fixups: seq<Tree<N, I>>, d: Store<I>, d': Store<I>, own: set<I>,
                                                   s: set<I>)
    requires Alike(d, d', Records(o), own) && AliasRecords(o) <= own && KidRecords(fixups) <= own
    requires TameLists(o, fixups, d, s)
    ensures Quiet(PlanFixups(m, symbols, o, fixups, d').edits, s)
    ensures Inside(PlanFixups(m, symbols, o, fixups, d').edits, Records(o))
    decreases |fixups|
  {
    hide SymbolNode, PlanList, Phandle, AliasRecords;
    if fixups != [] {
      TailRecords(fixups);
      assert TameLists(o, fixups[1..], d, s);
      FixupsQuiet(m, symbols, o, fixups[1..], d, d', own, s);
      var node := SymbolNode(m, d', symbols, fixups[0].name);
      if fixups[0].Prop? && node.Some? {
        var list := fixups[0].data;
        assert list in Records(fixups[0]) && TameList(o, list, d, s);
        ListAlike(o, d, d', list, |Val(d, list)|, 0, 0, Phandle(node.value, d'), Records(o), own);
      }
    }
  }

  lemma {:induction false} QuietBoth<I>(p: Plan<I>, q: Plan<I>, s: set<I>, t: set<I>, r: set<I>)
    requires Quiet(p.edits, s) && Quiet(q.edits, s) && Inside(p.edits, r) && Inside(q.edits, r) && t !! r
    ensures Quiet(Then(p, q).edits, s + t)
  {
  }

  /** The two parts of the plan after renumbering. */
  lemma {:induction false} PartsQuiet<N(!new), I(!new)>(m: Tree<N, I>, o: Tree<N, I>, d: Store<I>, d': Store<I>)
    requires o.Node? && Tame(o, d) && Alike(d, d', Records(o), OwnReads(o))
    ensures var s := OwnReads(o) + PhandleRecords(o);
            && Quiet(LocalPart(o, d').edits, s) && Inside(LocalPart(o, d').edits, Records(o))
            && Quiet(ExternalPart(m, o, d').edits, s) && Inside(ExternalPart(m, o, d').edits, Records(o))
  {
    var own, s := OwnReads(o), OwnReads(o) + PhandleRecords(o);
    var local, fixups, symbols := Subnode(o, "__local_fixups__"), Subnode(o, "__fixups__"), Subnode(m, "__symbols__");
    hide Subnode, PlanLocal, PlanFixups, HasProp, AliasRecords, PhandleRecords;
    if local.Some? && local.value.Node? {
      LocalAlike(o, local.value, d, d', Records(o), own);
      LocalInside(o, local.value, d', Records(o));
    }
    if fixups.Some? && fixups.value.Node? && symbols.Some? {
      FixupsQuiet(m, symbols.value, o, fixups.value.kids, d, d', own, s);
    }
  }

  /** A tame overlay is harmless to any main tree that shares no record with it. */
  lemma {:induction false} TameIsHarmless<N(!new), I(!new)>(m: Tree<N, I>, table: seq<Entry<N>>, o: Tree<N, I>,
                                                            d: Store<I>)
    requires o.Node? && Tame(o, d) && Records(m) !! Records(o)
    ensures Harmless(m, table, o, d)
  {
    hide Renumbered, OwnReads, PhandleRecords, LocalPart, ExternalPart, Records, ReadRecords, Then, Tame;
    var d1 := Renumbered(table, o, d);
    RenumberedAlike(table, o, d);
    PartsQuiet(m, o, d, d1);
    ReadsAre(m, o);
    QuietBoth(LocalPart(o, d1), ExternalPart(m, o, d1), OwnReads(o) + PhandleRecords(o), Records(m), Records(o));
  }

  lemma {:induction false} ReadsAre<N, I>(m: Tree<N, I>, o: Tree<N, I>)
    ensures ReadRecords(m, o) + PhandleRecords(o) == OwnReads(o) + PhandleRecords(o) + Records(m)
  {
    hide Subnode, Records, PhandleRecords, AliasRecords;
  }

  /** Renumbering touches nothing that is read. */
  lemma {:induction false} RenumberedAlike<N(!new), I(!new)>(table: seq<Entry<N>>, o: Tree<N, I>, d: Store<I>)
    requires Tame(o, d)
    ensures Alike(d, Renumbered(table, o, d), Records(o), OwnReads(o))
  {
    hide OwnReads, LocalPart, TameLists;
    CellsArePhandles(o, d);
  }

  /** Tameness depends on the overlay's own values only. */
  lemma {:induction false} TameSame<N(!new), I(!new)>(o: Tree<N, I>, d: Store<I>, d': Store<I>)
    requires o.Node? && Tame(o, d) && forall i | i in Records(o) :: Val(d', i) == Val(d, i)
    ensures Tame(o, d')
  {
    var own, s := OwnReads(o), OwnReads(o) + PhandleRecords(o);
    OwnReadsInside(o);
    var local, fixups := Subnode(o, "__local_fixups__"), Subnode(o, "__fixups__");
    assert Alike(d, d', Records(o), own);
    if local.Some? && local.value.Node? {
      LocalAlike(o, local.value, d, d', Records(o), own);
    }
    if fixups.Some? && fixups.value.Node? {
      TameListsSame(o, fixups.value.kids, d, d', own, s);
    }
  }

  lemma {:induction false} TameListsSame<N, I(!new)>(o: Tree<N, I>, fixups: seq<Tree<N, I>>, d: Store<I>, d': Store<I>,
                                                     own: set<I>, s: set<I>)
    requires Alike(d, d', Records(o), own) && AliasRecords(o) <= own && KidRecords(fixups) <= own
    requires TameLists(o, fixups, d, s)
    ensures TameLists(o, fixups, d', s)
  {
    forall i | 0 <= i < |fixups| && fixups[i].Prop? ensures TameList(o, fixups[i].data, d', s) {
      var list := fixups[i].data;
      KidRecordsContain(fixups, i);
      assert list in Records(fixups[i]) && TameList(o, list, d, s);
      ListAlike(o, d, d', list, |Val(d, list)|, 0, 0, 0, Records(o), own);
    }
  }

  lemma {:induction false} OwnReadsInside<N, I>(o: Tree<N, I>)
    ensures OwnReads(o) <= Records(o)
  {
    AliasesInside(o);
    if Subnode(o, "__local_fixups__").Some? { SubnodeParts(o, "__local_fixups__"); }
    if Subnode(o, "__fixups__").Some? { SubnodeParts(o, "__fixups__"); }
  }
}
