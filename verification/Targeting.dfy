/** Phandle references after an overlay was applied, and fragments that target a symbol. */
module Targeting {
  import opened Bytes
  import opened Trees
  import opened MergeLaws
  import opened Paths
  import opened Phandles
  import opened OverlaySpec
  import opened Numbers
  import opened Spelling
  import opened Addressing
  import opened Confinement
  import opened Subtrees
  import opened TableLaws
  import opened Flattening
  import opened Renumbering
  import opened ReferenceLaws
  import opened FixupPlans
  import opened FragmentLaws
  import opened PhandleLaws
  import opened Uniqueness
  import opened Preservation

  // ---------------------------------------------------------------- distinct phandles make lookups exact

  /** A node counts for its phandle. */
  lemma {:induction false} CountedOnce<N, I>(t: Tree<N, I>, d: Store<I>, a: N)
    requires Separate(t) && HasNode(t, a) && a in Ids(t)
    ensures Times(Fill(t, d), Phandle(At(t, a), d)) >= 1
    decreases t
  {
    if t.id == a {
      PhandleFilled(t, d);
    } else {
      var i := KidWith(t, a);
      KidHasNode(t, i, a);
      CountedOnce(t.kids[i], d, a);
      KidTimesOne(Fill(t, d).kids, i, Phandle(At(t, a), d));
    }
  }

  /** Two nodes with one phandle are counted twice. */
  lemma {:induction false} CountedTwice<N, I>(t: Tree<N, I>, d: Store<I>, a: N, b: N)
    requires Separate(t) && HasNode(t, a) && HasNode(t, b) && a in Ids(t) && b in Ids(t) && a != b
    requires Phandle(At(t, a), d) == Phandle(At(t, b), d)
    ensures Times(Fill(t, d), Phandle(At(t, a), d)) >= 2
    decreases t
  {
    hide Phandle, PhandleOf, Separate, HasNode;
    var v, p := Fill(t, d), Phandle(At(t, a), d);
    PhandleFilled(t, d);
    if t.id == a {
      var j := KidWith(t, b);
      KidHasNode(t, j, b);
      CountedOnce(t.kids[j], d, b);
      KidTimesOne(v.kids, j, p);
    } else if t.id == b {
      var i := KidWith(t, a);
      KidHasNode(t, i, a);
      CountedOnce(t.kids[i], d, a);
      KidTimesOne(v.kids, i, p);
    } else {
      var i := KidWith(t, a);
      var j := KidWith(t, b);
      KidHasNode(t, i, a);
      KidHasNode(t, j, b);
      if i == j {
        CountedTwice(t.kids[i], d, a, b);
        KidTimesOne(v.kids, i, p);
      } else {
        CountedOnce(t.kids[i], d, a);
        CountedOnce(t.kids[j], d, b);
        KidTimesTwo(v.kids, if i < j then i else j, if i < j then j else i, p);
      }
    }
  }

  lemma {:induction false} KidTimesTwo(kids: seq<Value>, i: nat, j: nat, p: u32)
    requires i < j < |kids|
    ensures Times(kids[i], p) + Times(kids[j], p) <= KidTimes(kids, p)
    decreases |kids|
  {
    var rest := kids[..|kids| - 1];
    if j < |rest| {
      KidTimesTwo(rest, i, j, p);
    } else {
      KidTimesOne(rest, i, p);
    }
  }

  /** With distinct phandles the table leads from a phandle to the one node that has it. */
  lemma {:induction false} LookupUnique<N(!new), I>(table: seq<Entry<N>>, t: Tree<N, I>, d: Store<I>, a: N)
    requires Separate(t) && IsTable(table, t, d) && Distinct(Fill(t, d))
    requires HasNode(t, a) && a in Ids(t) && Tabled(At(t, a), d)
    ensures Lookup(table, Phandle(At(t, a), d)) == Some(a)
  {
    LookupFinds(table, t, d, a);
    var n := Lookup(table, Phandle(At(t, a), d)).value;
    if n != a {
      CountedTwice(t, d, a, n);
    }
  }

  // ---------------------------------------------------------------- references to main nodes

  /** The values of main nodes are not touched. */
  lemma {:induction false} MainPhandleSame<N, I(!new)>(t: Tree<N, I>, d: Store<I>, d': Store<I>, s: set<I>)
    requires Within(d, d', s) && Records(t) !! s
    ensures Phandle(t, d') == Phandle(t, d)
  {
    FillSame(t, d, d', s);
    PhandleFilled(t, d);
    PhandleFilled(t, d');
  }

  lemma {:induction false} RecordsAt<N, D>(t: Tree<N, D>, id: N)
    requires Separate(t) && id in Ids(t)
    ensures Records(At(t, id)) <= Records(t)
    decreases t
  {
    if t.id != id {
      var i := KidWith(t, id);
      RecordsAt(t.kids[i], id);
      KidRecordsContain(t.kids, i);
    }
  }

  lemma {:induction false} HasPhandleBrings<N, I>(t: Tree<N, I>, d: Store<I>)
    requires Phandle(t, d) > 0
    ensures BringsPhandle(t)
  {
  }

  /** Where no two phandles of the result are the same, the node of the main tree is found again. */
  lemma {:induction false} MainReferenceFound<N(!new), I(!new)>(m: Tree<N, I>, table: seq<Entry<N>>, o: Tree<N, I>,
                                                                d: Store<I>, x: N, table': seq<Entry<N>>)
    requires m.Node? && o.Node? && Separate(m) && Separate(o) && Ids(m) !! Ids(o) && Unique(o)
    requires OwnRecords(o) && Records(m) !! Records(o) && TableIn(table, m)
    requires OverlayApply(m, table, o, d).Some?
    requires var out := OverlayApply(m, table, o, d).value;
             && NoOverwrites(m, table, o.kids, out.values)
             && Distinct(Fill(out.tree, out.values)) && IsTable(table', out.tree, out.values)
    requires HasNode(m, x) && x in Ids(m) && Tabled(At(m, x), d)
    ensures var out := OverlayApply(m, table, o, d).value;
            && x in Ids(out.tree) && Phandle(At(out.tree, x), out.values) == Phandle(At(m, x), d)
            && Lookup(table', Phandle(At(m, x), d)) == Some(x)
  {
    var out := OverlayApply(m, table, o, d).value;
    var d' := out.values;
    hide UpdateReferences, ApplyFragments, Distinct, IsTable, TableIn, Phandle, NoOverwrites, Fill, BringsPhandle;
    hide SamePhandleProps;
    UpdateWithin(m, table, o, d);
    NodeAt(m, x);
    HasPhandleBrings(At(m, x), d);
    RecordsAt(m, x);
    MainPhandleSame(At(m, x), d, d', Records(o));
    OverlayKids(m, o);
    FragmentsIds(m, table, o.kids, d');
    NoFragments(m, table, o.kids, d');
    FragmentsKeepPhandle(m, table, o.kids, d', 0, x);
    NodeAt(out.tree, x);
    SamePropsSamePhandle(At(out.tree, x), At(m, x), d');
    LookupUnique(table', out.tree, d', x);
  }

  /**
   * A reference to a node of the main tree still leads to that node, in the phandle table of the
   * result, when no fragment gives a phandle to a node that has one.
   */
  lemma {:induction false} MainReferenceKept<N(!new), I(!new)>(m: Tree<N, I>, table: seq<Entry<N>>, o: Tree<N, I>,
                                                               d: Store<I>, b: nat, c: nat, x: N, table': seq<Entry<N>>)
    requires Joinable(m, table, o, d, b, c) && KeepsPhandles(m, table, o, d) && OverlayApply(m, table, o, d).Some?
    requires var out := OverlayApply(m, table, o, d).value;
             NoOverwrites(m, table, o.kids, out.values) && IsTable(table', out.tree, out.values)
    requires HasNode(m, x) && x in Ids(m) && Tabled(At(m, x), d)
    ensures var out := OverlayApply(m, table, o, d).value;
            && x in Ids(out.tree) && Phandle(At(out.tree, x), out.values) == Phandle(At(m, x), d)
            && Lookup(table', Phandle(At(m, x), d)) == Some(x)
  {
    hide *;
    JoinableParts(m, table, o, d, b, c);
    JoinedDistinct(m, table, o, d, b, c);
    MainReferenceFound(m, table, o, d, x, table');
  }

  lemma {:induction false} OverlayKids<N, D>(m: Tree<N, D>, o: Tree<N, D>)
    requires o.Node? && Separate(o) && Unique(o) && Ids(m) !! Ids(o)
    ensures SeparateKids(o.kids) && Ids(m) !! KidIds(o.kids) && forall i | 0 <= i < |o.kids| :: Unique(o.kids[i])
  {
  }

  // ---------------------------------------------------------------- references between overlay nodes

  /** The cells that are renumbered hold phandles. */
  lemma {:induction false} CellsArePhandles<N, I>(t: Tree<N, I>, d: Store<I>)
    ensures PhandleCells(t, d) <= PhandleRecords(t)
    decreases t, 0
  {
    if t.Node? {
      PhandleIsRecord(t, "phandle");
      PhandleIsRecord(t, "linux,phandle");
      KidCellsArePhandles(t.kids, d);
      forall x | x in KidPhandleCells(t.kids, d) ensures x in PhandleRecords(t) {
        var i :| 0 <= i < |t.kids| && x in PhandleRecords(t.kids[i]);
        PhandleRecordsKid(t, i);
      }
    }
  }

  lemma {:induction false} KidCellsArePhandles<N, I>(kids: seq<Tree<N, I>>, d: Store<I>)
    ensures forall x | x in KidPhandleCells(kids, d) :: exists i :: 0 <= i < |kids| && x in PhandleRecords(kids[i])
    decreases kids, 0
  {
    if kids != [] {
      var rest, last := kids[..|kids| - 1], kids[|kids| - 1];
      KidCellsArePhandles(rest, d);
      CellsArePhandles(last, d);
      forall x | x in KidPhandleCells(kids, d) ensures exists i :: 0 <= i < |kids| && x in PhandleRecords(kids[i]) {
        if x in KidPhandleCells(rest, d) {
          var i :| 0 <= i < |rest| && x in PhandleRecords(rest[i]);
          assert x in PhandleRecords(kids[i]);
        } else {
          assert x in PhandleRecords(kids[|kids| - 1]);
        }
      }
    }
  }

  /** A cell outside the phandle properties is not renumbered. */
  lemma {:induction false} RenumberedElsewhere<N, I(!new)>(table: seq<Entry<N>>, o: Tree<N, I>, d: Store<I>,
                                                           at: Location<I>)
    requires at.prop !in PhandleRecords(o)
    ensures CellAt(Renumbered(table, o, d), at) == CellAt(d, at)
  {
    CellsArePhandles(o, d);
  }

  /** The edits of an overlay's fixups all take effect. */
  lemma {:induction false} EditsTakeEffect<N(!new), I(!new)>(m: Tree<N, I>, table: seq<Entry<N>>, o: Tree<N, I>,
                                                             d: Store<I>, k: nat)
    requires m.Node? && o.Node? && Harmless(m, table, o, d)
    requires UpdateReferences(m, table, o, d).Some?
    requires var edits := OverlayPlan(m, o, Renumbered(table, o, d)).edits; Apart(edits) && k < |edits|
    ensures var e, d' := OverlayPlan(m, o, Renumbered(table, o, d)).edits[k], UpdateReferences(m, table, o, d).value;
            && CellAt(d', e.at) == match e
                                   case Bump(at) => Add32(CellAt(d, at), MaxPhandle(table))
                                   case Assign(_, value) => value
  {
    var delta, d1 := MaxPhandle(table), Renumbered(table, o, d);
    var plan, s, phandles := OverlayPlan(m, o, d1), ReadRecords(m, o), PhandleRecords(o);
    hide OverlayPlan, ReadRecords, PhandleRecords, UpdateReferences, Perform, Renumbered, Apart, AllFit;
    QuietUnion(plan.edits, s, phandles);
    UpdateFollows(m, table, o, d);
    PlanFits(m, o, d1);
    PerformExact(d1, plan.edits, delta, k);
    assert plan.edits[k].at.prop !in s + phandles;
    RenumberedElsewhere(table, o, d, plan.edits[k].at);
  }

  /** A listed local reference to a node of the overlay follows that node's phandle. */
  lemma {:induction false} LocalReferenceFollows<N(!new), I(!new)>(m: Tree<N, I>, table: seq<Entry<N>>, o: Tree<N, I>,
                                                                   d: Store<I>, k: nat, n: N)
    requires m.Node? && o.Node? && Separate(o) && OwnRecords(o)
    requires MaxPhandle(table) <= SIGN_BIT && Below(Fill(o, d), SIGN_BIT - MaxPhandle(table))
    requires Harmless(m, table, o, d) && UpdateReferences(m, table, o, d).Some?
    requires var edits := OverlayPlan(m, o, Renumbered(table, o, d)).edits;
             Apart(edits) && k < |edits|
             && edits[k].Bump?
    requires HasNode(o, n) && n in Ids(o) && Phandle(At(o, n), d) > 0
    requires CellAt(d, OverlayPlan(m, o, Renumbered(table, o, d)).edits[k].at) == Phandle(At(o, n), d)
    ensures var d', at := UpdateReferences(m, table, o, d).value,
            OverlayPlan(m, o, Renumbered(table, o, d)).edits[k].at;
            && CellAt(d', at) == Phandle(At(o, n), d') == Phandle(At(o, n), d) + MaxPhandle(table) < SIGN_BIT
  {
    hide OverlayPlan, UpdateReferences, Harmless, Renumbered, Apart, Separate, Fill, Shifted, Below, HasNode;
    hide OwnRecords, Phandle, CellAt, Add32;
    Add32Is(Phandle(At(o, n), d), MaxPhandle(table));
    EditsTakeEffect(m, table, o, d, k);
    HarmlessKeeps(m, table, o, d);
    OverlayShifted(m, table, o, d);
    BelowAt(o, d, n, SIGN_BIT - MaxPhandle(table));
    ShiftedNodeAt(o, d, UpdateReferences(m, table, o, d).value, MaxPhandle(table), n);
  }

  lemma {:induction false} ShiftedNodeAt<N, I>(t: Tree<N, I>, d: Store<I>, d': Store<I>, delta: u32, n: N)
    requires Separate(t) && HasNode(t, n) && n in Ids(t) && Shifted(Fill(t, d), Fill(t, d'), delta)
    ensures Phandle(At(t, n), d') == if Phandle(At(t, n), d) > 0 then Phandle(At(t, n), d) + delta else 0
    decreases t
  {
    if t.id == n {
      PhandleFilled(t, d);
      PhandleFilled(t, d');
    } else {
      var i := KidWith(t, n);
      KidHasNode(t, i, n);
      assert Shifted(Fill(t, d).kids[i], Fill(t, d').kids[i], delta);
      ShiftedNodeAt(t.kids[i], d, d', delta, n);
    }
  }

  // ---------------------------------------------------------------- where overlay nodes end up

  /** Labels inside a subtree lead to the same subtree from above. */
  lemma {:induction false} AtWithin<N, D>(t: Tree<N, D>, id: N, x: N)
    requires Separate(t) && HasNode(t, id) && id in Ids(t) && HasNode(At(t, id), x) && x in Ids(At(t, id))
    ensures HasNode(t, x) && x in Ids(t) && At(t, x) == At(At(t, id), x)
    decreases t
  {
    AtInside(t, id);
    if t.id != id {
      var i := KidWith(t, id);
      KidHasNode(t, i, id);
      AtWithin(t.kids[i], id, x);
      AtKid(t, i, x);
      assert HasNode(t.kids[i], x);
    }
  }

  /** After a merge at a label the subtree there is the merge. */
  lemma {:induction false} AtMerged<N, D>(t: Tree<N, D>, id: N, o: Tree<N, D>)
    requires Separate(t) && HasNode(t, id) && id in Ids(t) && At(t, id).Node? && o.Node? && Separate(o)
            && Ids(t) !! Ids(o)
    ensures var t' := MergeAt(t, id, o);
            Separate(t') && HasNode(t', id) && id in Ids(t')
            && At(t', id) == Merge(At(t, id), o)
    decreases t
  {
    MergeAtIds(t, id, o);
    MergeAtKeepsNode(t, id, o, id);
    if t.id != id {
      var i := KidWith(t, id);
      KidHasNode(t, i, id);
      KidIdsContain(t.kids, i);
      AtMerged(t.kids[i], id, o);
      AtKid(MergeAt(t, id, o), i, id);
    }
  }

  lemma {:induction false} NoOverwriteBelow<N, D>(a: Tree<N, D>, b: Tree<N, D>, path: seq<string>)
    requires a.Node? && b.Node? && NoOverwrite(a, b) && Descend(a, path).Some? && Descend(b, path).Some?
    ensures NoOverwrite(Descend(a, path).value, Descend(b, path).value)
    decreases path
  {
    if path != [] {
      var i, j := Find(a.kids, true, path[0]), Find(b.kids, true, path[0]);
      NoOverwriteBelow(a.kids[i], b.kids[j], path[1..]);
    }
  }

  /** The node of the result that stands for the node at `path` of a fragment's overlay. */
  lemma {:induction false} OverlayNodeImage<N(!new), I>(m: Tree<N, I>, table: seq<Entry<N>>, frag: Tree<N, I>,
                                                        d: Store<I>, path: seq<string>)
    requires m.Node? && Separate(m) && TableIn(table, m) && frag.Node? && Separate(frag) && Ids(m) !! Ids(frag)
            && Unique(frag)
    requires FragmentSpares(m, table, frag, d) && Target(m, table, frag, d).1.Some?
    requires var ov := Subnode(frag, "__overlay__");
             ov.Some? && Descend(ov.value, path).Some?
             && BringsPhandle(Descend(ov.value, path).value)
    ensures var m', id, n := ApplyFragment(m, table, frag, d).1, Target(m, table, frag, d).1.value,
                             Descend(Subnode(frag, "__overlay__").value, path).value;
            && HasNode(m', id) && id in Ids(m') && Descend(At(m', id), path).Some?
            && var y := Descend(At(m', id), path).value;
               HasNode(m', y.id) && y.id in Ids(m') && At(m', y.id) == y && SamePhandleProps(y, n)
  {
    hide Target, TreePath, Components, TableIn, MergeAt;
    var id, ov := Target(m, table, frag, d).1.value, Subnode(frag, "__overlay__").value;
    var p := ["__overlay__"];
    TargetFound(m, table, frag, d);
    NodeAt(m, id);
    DescendAt(frag, p);
    AtInside(frag, ov.id);
    DescendUnique(frag, p);
    AtMerged(m, id, ov);
    ImageBelow(At(m, id), ov, path);
    var m' := MergeAt(m, id, ov);
    AtInside(m', id);
    DescendAt(At(m', id), path);
    AtWithin(m', id, Descend(At(m', id), path).value.id);
  }

  lemma {:induction false} ImageBelow<N, D>(a: Tree<N, D>, b: Tree<N, D>, path: seq<string>)
    requires a.Node? && b.Node? && Unique(b) && NoOverwrite(a, b)
    requires Descend(b, path).Some? && BringsPhandle(Descend(b, path).value)
    ensures var r := Descend(Merge(a, b), path); r.Some? && SamePhandleProps(r.value, Descend(b, path).value)
  {
    MergeResolves(a, b, path);
    DescendUnique(b, path);
    if Descend(a, path).Some? {
      NoOverwriteBelow(a, b, path);
      MergedProps(Descend(a, path).value, Descend(b, path).value);
    }
  }

  /** Nodes of a fragment's overlay are nodes of the overlay tree. */
  lemma {:induction false} OverlayNodeAt<N, D>(o: Tree<N, D>, i: nat, path: seq<string>)
    requires o.Node? && Separate(o) && i < |o.kids| && o.kids[i].Node?
    requires var ov := Subnode(o.kids[i], "__overlay__"); ov.Some? && Descend(ov.value, path).Some?
    ensures var n := Descend(Subnode(o.kids[i], "__overlay__").value, path).value;
            HasNode(o, n.id) && n.id in Ids(o) && At(o, n.id) == n
  {
    var p := ["__overlay__"];
    DescendAppend(o.kids[i], p, path);
    assert SeparateKids(o.kids);
    DescendAt(o.kids[i], p + path);
    var n := Descend(o.kids[i], p + path).value;
    AtKid(o, i, n.id);
    assert HasNode(o.kids[i], n.id);
  }

  /** The main tree just before and just after fragment `i`. */
  lemma {:induction false} FragmentBetween<N(!new), I>(m: Tree<N, I>, table: seq<Entry<N>>, frags: seq<Tree<N, I>>,
                                                       d: Store<I>, i: nat)
    requires m.Node? && Separate(m) && TableIn(table, m) && SeparateKids(frags) && Ids(m) !! KidIds(frags)
    requires i < |frags| && frags[i].Node? && NoOverwrites(m, table, frags, d)
    ensures var a, frag := ApplyFragments(m, table, frags[..i], d), frags[i];
            && a.Node? && Separate(a) && TableIn(table, a) && Separate(frag) && Ids(a) !! Ids(frag)
            && FragmentSpares(a, table, frag, d)
            && ApplyFragments(m, table, frags[..i + 1], d) == ApplyFragment(a, table, frag, d).1
    decreases |frags|
  {
    hide FragmentSpares, Separate, Ids, KidIds, TableIn, ApplyFragment;
    var rest := frags[..|frags| - 1];
    LastIds(frags);
    if i < |rest| {
      assert rest[..i] == frags[..i] && rest[..i + 1] == frags[..i + 1];
      FragmentBetween(m, table, rest, d, i);
    } else {
      assert frags[..i + 1] == frags && frags[..i] == rest;
      FragmentsIds(m, table, rest, d);
    }
  }

  /** Where no two phandles of the result are the same, a listed reference is resolved. */
  lemma {:induction false} LocalReferenceFound<N(!new), I(!new)>(m: Tree<N, I>, table: seq<Entry<N>>, o: Tree<N, I>,
                                                                 d: Store<I>, k: nat, i: nat, path: seq<string>,
                                                                 table': seq<Entry<N>>)
    returns (y: N)
    requires m.Node? && o.Node? && Separate(m) && Separate(o) && Ids(m) !! Ids(o) && Unique(o)
    requires OwnRecords(o) && TableIn(table, m)
    requires MaxPhandle(table) <= SIGN_BIT && Below(Fill(o, d), SIGN_BIT - MaxPhandle(table))
    requires Harmless(m, table, o, d) && OverlayApply(m, table, o, d).Some?
    requires var edits := OverlayPlan(m, o, Renumbered(table, o, d)).edits;
             Apart(edits) && k < |edits|
             && edits[k].Bump?
    requires i < |o.kids| && o.kids[i].Node?
    requires var ov := Subnode(o.kids[i], "__overlay__"); ov.Some? && Descend(ov.value, path).Some?
    requires var n := Descend(Subnode(o.kids[i], "__overlay__").value, path).value;
             CellAt(d, OverlayPlan(m, o, Renumbered(table, o, d)).edits[k].at) == Phandle(n, d) > 0
    requires var out := OverlayApply(m, table, o, d).value;
             && NoOverwrites(m, table, o.kids, out.values)
             && Target(ApplyFragments(m, table, o.kids[..i], out.values), table, o.kids[i], out.values).1.Some?
             && Distinct(Fill(out.tree, out.values)) && IsTable(table', out.tree, out.values)
    ensures var out := OverlayApply(m, table, o, d).value;
            var n := Descend(Subnode(o.kids[i], "__overlay__").value, path).value;
            var id := Target(ApplyFragments(m, table, o.kids[..i], out.values), table, o.kids[i], out.values).1.value;
            && Lookup(table', CellAt(out.values, OverlayPlan(m, o, Renumbered(table, o, d)).edits[k].at)) == Some(y)
            && LeadsTo(out.tree, id, path, y)
            && y in Ids(out.tree) && SamePhandleProps(At(out.tree, y), n)
  {
    hide UpdateReferences, Harmless, Apart, OverlayPlan, Renumbered, NoOverwrites, Target, Distinct, IsTable, TableIn;
    hide Below, Fill;
    hide SamePhandleProps, BringsPhandle, Phandle, FragmentSpares, OwnRecords, ApplyFragments, ApplyFragment;
    hide Components;
    hide Ids, KidIds, Separate, HasNode, LeadsTo;
    var out := OverlayApply(m, table, o, d).value;
    var n := Descend(Subnode(o.kids[i], "__overlay__").value, path).value;
    OverlayNodeAt(o, i, path);
    LocalReferenceFollows(m, table, o, d, k, n.id);
    HasPhandleBrings(n, d);
    y := ImageInResult(m, table, o, out.values, i, path);
    SamePropsSamePhandle(At(out.tree, y), n, out.values);
    OverlayKids(m, o);
    FragmentsIds(m, table, o.kids, out.values);
    NodeAt(out.tree, y);
    LookupUnique(table', out.tree, out.values, y);
  }

  /**
   * A listed reference from one overlay node to another leads, in the phandle table of the result, to
   * the node that stands there for the one referred to: the one at the same path below the target of
   * the fragment.
   */
  lemma {:induction false} LocalReferenceResolves<N(!new), I(!new)>(m: Tree<N, I>, table: seq<Entry<N>>, o: Tree<N, I>,
                                                                    d: Store<I>, b: nat, c: nat, k: nat, i: nat,
                                                                    path: seq<string>, table': seq<Entry<N>>)
    returns (y: N)
    requires Joinable(m, table, o, d, b, c)
    requires Harmless(m, table, o, d) && OverlayApply(m, table, o, d).Some?
    requires var edits := OverlayPlan(m, o, Renumbered(table, o, d)).edits;
             Apart(edits) && k < |edits|
             && edits[k].Bump?
    requires i < |o.kids| && o.kids[i].Node?
    requires var ov := Subnode(o.kids[i], "__overlay__"); ov.Some? && Descend(ov.value, path).Some?
    requires var n := Descend(Subnode(o.kids[i], "__overlay__").value, path).value;
             CellAt(d, OverlayPlan(m, o, Renumbered(table, o, d)).edits[k].at) == Phandle(n, d) > 0
    requires var out := OverlayApply(m, table, o, d).value;
             && NoOverwrites(m, table, o.kids, out.values)
             && Target(ApplyFragments(m, table, o.kids[..i], out.values), table, o.kids[i], out.values).1.Some?
             && IsTable(table', out.tree, out.values)
    ensures var out := OverlayApply(m, table, o, d).value;
            var n := Descend(Subnode(o.kids[i], "__overlay__").value, path).value;
            var id := Target(ApplyFragments(m, table, o.kids[..i], out.values), table, o.kids[i], out.values).1.value;
            && Lookup(table', CellAt(out.values, OverlayPlan(m, o, Renumbered(table, o, d)).edits[k].at)) == Some(y)
            && LeadsTo(out.tree, id, path, y)
            && y in Ids(out.tree) && SamePhandleProps(At(out.tree, y), n)
  {
    hide *;
    JoinableParts(m, table, o, d, b, c);
    HarmlessKeeps(m, table, o, d);
    JoinedDistinct(m, table, o, d, b, c);
    y := LocalReferenceFound(m, table, o, d, k, i, path, table');
  }

  /** The node of the final tree that stands for a node of fragment `i`. */
  lemma {:induction false} ImageInResult<N(!new), I>(m: Tree<N, I>, table: seq<Entry<N>>, o: Tree<N, I>, d: Store<I>,
                                                     i: nat, path: seq<string>)
    returns (y: N)
    requires m.Node? && o.Node? && Separate(m) && Separate(o) && Ids(m) !! Ids(o) && Unique(o) && TableIn(table, m)
    requires i < |o.kids| && o.kids[i].Node? && NoOverwrites(m, table, o.kids, d)
    requires var ov := Subnode(o.kids[i], "__overlay__");
             ov.Some? && Descend(ov.value, path).Some?
             && BringsPhandle(Descend(ov.value, path).value)
    requires Target(ApplyFragments(m, table, o.kids[..i], d), table, o.kids[i], d).1.Some?
    ensures var m' := ApplyFragments(m, table, o.kids, d);
            HasNode(m', y) && y in Ids(m')
                && SamePhandleProps(At(m', y), Descend(Subnode(o.kids[i], "__overlay__").value, path).value)
    ensures var id := Target(ApplyFragments(m, table, o.kids[..i], d), table, o.kids[i], d).1.value;
            LeadsTo(ApplyFragments(m, table, o.kids, d), id, path, y)
  {
    hide NoOverwrites, Target, TableIn, BringsPhandle, FragmentSpares, ApplyFragments, ApplyFragment, Components, Ids;
    hide KidIds, Separate, HasNode;
    OverlayKids(m, o);
    FragmentBetween(m, table, o.kids, d, i);
    var a, frag := ApplyFragments(m, table, o.kids[..i], d), o.kids[i];
    OverlayNodeImage(a, table, frag, d, path);
    var id := Target(a, table, frag, d).1.value;
    var b := ApplyFragments(m, table, o.kids[..i + 1], d);
    y := Descend(At(b, id), path).value.id;
    BringsSame(At(b, y), Descend(Subnode(frag, "__overlay__").value, path).value);
    FragmentsKeepPhandle(m, table, o.kids, d, i + 1, y);
    FragmentsKeepPath(m, table, o.kids, d, i + 1, id, path, y);
  }

  lemma {:induction false} BringsSame<N, D>(s: Tree<N, D>, t: Tree<N, D>)
    requires SamePhandleProps(s, t) && BringsPhandle(t)
    ensures BringsPhandle(s)
  {
  }

  // ---------------------------------------------------------------- targeting a symbol

  /** The strings of a property under `__fixups__`. */
  function Strings(list: seq<byte>, len: nat, pos: nat): seq<string>
    decreases len - pos
  {
    if pos >= len then []
    else
      var s := if pos <= |list| then CString(list[pos..]) else "";
      [s] + Strings(list, len, pos + |s| + 1)
  }

  /** Every string contributes one assignment. */
  lemma {:induction false} ListAssigns<N, I>(o: Tree<N, I>, d: Store<I>, fixups: I, len: nat, pos: nat, phandle: u32,
                                             j: nat)
    requires PlanList(o, d, fixups, len, pos, phandle).ok && j < |Strings(Val(d, fixups), len, pos)|
    ensures var at := FixupLocation(o, d, Strings(Val(d, fixups), len, pos)[j]);
            && at.Some? && j < |PlanList(o, d, fixups, len, pos, phandle).edits|
            && PlanList(o, d, fixups, len, pos, phandle).edits[j] == Assign(at.value, phandle)
    decreases len - pos
  {
    hide FixupLocation, CString;
    var list := Val(d, fixups);
    var s := if pos <= |list| then CString(list[pos..]) else "";
    if j > 0 {
      ListAssigns(o, d, fixups, len, pos + |s| + 1, phandle, j - 1);
    }
  }

  /** The assignments for a symbol are among those of all fixups. */
  lemma {:induction false} SymbolAssigns<N, I>(m: Tree<N, I>, symbols: Tree<N, I>, o: Tree<N, I>,
                                               fixups: seq<Tree<N, I>>, d: Store<I>, q: nat, j: nat)
    returns (k: nat)
    requires PlanFixups(m, symbols, o, fixups, d).ok && q < |fixups| && fixups[q].Prop?
    requires var list := fixups[q].data; j < |Strings(Val(d, list), |Val(d, list)|, 0)|
    ensures var list, node, edits := fixups[q].data, SymbolNode(m, d, symbols, fixups[q].name),
            PlanFixups(m, symbols, o, fixups, d).edits;
            var at := FixupLocation(o, d, Strings(Val(d, list), |Val(d, list)|, 0)[j]);
            node.Some? && at.Some? && k < |edits| && edits[k] == Assign(at.value, Phandle(node.value, d))
    decreases |fixups|
  {
    hide SymbolNode, PlanList, Phandle, FixupLocation, Strings;
    var node := SymbolNode(m, d, symbols, fixups[0].name);
    if q == 0 {
      var list := fixups[0].data;
      ListAssigns(o, d, list, |Val(d, list)|, 0, Phandle(node.value, d), j);
      k := j;
    } else {
      assert fixups[1..][q - 1] == fixups[q];
      k := SymbolAssigns(m, symbols, o, fixups[1..], d, q - 1, j);
      if fixups[0].Prop? {
        var list := fixups[0].data;
        k := |PlanList(o, d, list, |Val(d, list)|, 0, Phandle(node.value, d)).edits| + k;
      }
    }
  }

  /** Renumbering the overlay does not change what a symbol names. */
  lemma {:induction false} SymbolRenumbered<N(!new), I(!new)>(m: Tree<N, I>, symbols: Tree<N, I>, table: seq<Entry<N>>,
                                                              o: Tree<N, I>, d: Store<I>, name: string)
    requires OwnRecords(o) && Records(m) !! Records(o) && Records(symbols) <= Records(m)
    ensures var d1, n := Renumbered(table, o, d), SymbolNode(m, d, symbols, name);
            && SymbolNode(m, d1, symbols, name) == n
            && (n.Some? ==> Phandle(n.value, d1) == Phandle(n.value, d) && Records(n.value) <= Records(m))
  {
    hide SymbolNode, Shift, OwnRecords;
    var d1 := Renumbered(table, o, d);
    ShiftWithin(o, d, MaxPhandle(table));
    assert Agree(d, d1, Records(m));
    SymbolAgrees(m, symbols, d, d1, name, Records(m));
    SymbolInside(m, symbols, d, name);
  }

  lemma {:induction false} SymbolInside<N, I>(m: Tree<N, I>, symbols: Tree<N, I>, d: Store<I>, name: string)
    ensures var n := SymbolNode(m, d, symbols, name); n.Some? ==> Records(n.value) <= Records(m)
    ensures var n := SymbolNode(m, d, symbols, name);
            n.Some? && m.Node? && Separate(m) ==>
              HasNode(m, n.value.id) && n.value.id in Ids(m)
              && At(m, n.value.id) == n.value
  {
    var p := PropOf(symbols, name);
    if p.Some? && TreePath(m, d, Text(d, p.value)).Some? {
      TreePathRecords(m, d, Text(d, p.value));
      if m.Node? && Separate(m) {
        TreePathAt(m, d, Text(d, p.value));
      }
    }
  }

  lemma {:induction false} TreePathAt<N, I>(t: Tree<N, I>, d: Store<I>, path: string)
    requires Separate(t) && t.Node? && TreePath(t, d, path).Some?
    ensures var n := TreePath(t, d, path).value; HasNode(t, n.id) && n.id in Ids(t) && At(t, n.id) == n
  {
    if path != "" && path[0] == '/' {
      DescendAt(t, Components(path));
    } else {
      var k := IndexOf(path, '/');
      AliasExpands(t, d, path);
      var v := Val(d, PropAt(t, ["aliases"], path[..k]).value);
      DescendAt(t, AliasComponents(v) + Components(path[k..]));
    }
  }

  lemma {:induction false} ResolveRecords<N, D>(t: Tree<N, D>, path: string)
    requires Resolve(t, path).Some?
    ensures Records(Resolve(t, path).value) <= Records(t)
  {
    DescendRecords(t, Components(path));
  }

  lemma {:induction false} PropPresent<N, D>(kids: seq<Tree<N, D>>, q: nat)
    requires q < |kids| && kids[q].Prop?
    ensures HasProp(kids)
  {
  }

  lemma {:induction false} PlanSucceeds<N(!new), I(!new)>(m: Tree<N, I>, table: seq<Entry<N>>, o: Tree<N, I>,
                                                          d: Store<I>)
    requires m.Node? && o.Node? && Harmless(m, table, o, d) && UpdateReferences(m, table, o, d).Some?
    ensures OverlayPlan(m, o, Renumbered(table, o, d)).ok
  {
    hide Renumbered, OverlayPlan, ReadRecords, UpdateReferences, Perform, PhandleRecords;
    QuietUnion(OverlayPlan(m, o, Renumbered(table, o, d)).edits, ReadRecords(m, o), PhandleRecords(o));
    UpdateFollows(m, table, o, d);
  }

  /** The edit that a string under `__fixups__` stands for. */
  lemma {:induction false} ExternalEdit<N(!new), I(!new)>(m: Tree<N, I>, table: seq<Entry<N>>, o: Tree<N, I>,
                                                          d: Store<I>, q: nat, j: nat)
    returns (k: nat)
    requires m.Node? && o.Node? && OwnRecords(o) && Records(m) !! Records(o)
    requires Harmless(m, table, o, d) && UpdateReferences(m, table, o, d).Some?
    requires var fixups, symbols := Subnode(o, "__fixups__"), Subnode(m, "__symbols__");
             fixups.Some? && symbols.Some? && q < |fixups.value.kids| && fixups.value.kids[q].Prop?
    requires var d1, list := Renumbered(table, o, d), Subnode(o, "__fixups__").value.kids[q].data;
             j < |Strings(Val(d1, list), |Val(d1, list)|, 0)|
    ensures var d1, symbols, f := Renumbered(table, o, d), Subnode(m, "__symbols__").value,
            Subnode(o, "__fixups__").value.kids[q];
            var at := FixupLocation(o, d1, Strings(Val(d1, f.data), |Val(d1, f.data)|, 0)[j]);
            var edits := OverlayPlan(m, o, d1).edits;
            && SymbolNode(m, d, symbols, f.name).Some? && at.Some?
            && k < |edits| && edits[k] == Assign(at.value, Phandle(SymbolNode(m, d, symbols, f.name).value, d))
  {
    hide SymbolNode, PlanFixups, Phandle, FixupLocation, Strings, LocalPart, Renumbered, UpdateReferences, HasProp;
    hide Harmless;
    hide Records, OwnRecords, Components;
    assert Subnode(o, "__fixups__").value.Node?;
    hide Subnode;
    var d1, symbols, kids := Renumbered(table, o, d), Subnode(m, "__symbols__").value,
        Subnode(o, "__fixups__").value.kids;
    SubnodeParts(m, "__symbols__");
    PropPresent(kids, q);
    PlanSucceeds(m, table, o, d);
    k := SymbolAssigns(m, symbols, o, kids, d1, q, j);
    SymbolRenumbered(m, symbols, table, o, d, kids[q].name);
    k := |LocalPart(o, d1).edits| + k;
  }

  /** The value of the symbol spells the absolute path with these components. */
  ghost predicate SymbolAt<N, I>(symbols: Tree<N, I>, symbol: string, d: Store<I>, c: seq<string>) {
    && Plain(c)
    && var p := PropOf(symbols, symbol);
       p.Some? && ValueSpells(Val(d, p.value), Absolute(c))
  }

  /** String `j` of property `q` of `__fixups__` is about the target cell of this fragment. */
  ghost predicate ListsTarget<N, I>(o: Tree<N, I>, d: Store<I>, frag: Tree<N, I>, list: I, j: nat) {
    && j < |Strings(Val(d, list), |Val(d, list)|, 0)| && PropOf(frag, "target").Some?
    && FixupLocation(o, d, Strings(Val(d, list), |Val(d, list)|, 0)[j]) ==
        Some(Location(PropOf(frag, "target").value, 0))
  }

  /** The string that names the target cell of fragment `i`: its path, `target`, byte 0. */
  lemma {:induction false} TargetString<N, I>(o: Tree<N, I>, d: Store<I>, i: nat)
    requires o.Node? && i < |o.kids| && o.kids[i].Node? && Find(o.kids, true, o.kids[i].name) == i
    requires var name := o.kids[i].name; name != "" && forall k | 0 <= k < |name| :: name[k] != '/' && name[k] != ':'
    requires var p := PropOf(o.kids[i], "target"); p.Some? && |Val(d, p.value)| >= CELL
    ensures FixupLocation(o, d, "/" + o.kids[i].name + ":target:0") ==
            Some(Location(PropOf(o.kids[i], "target").value, 0))
  {
    hide FixupLocation, PropOf, Find, Descend, Absolute, FixupText;
    var name := o.kids[i].name;
    var c := [name];
    KidAtName(o, i);
    assert c[0] == name && NoChar(name, '/') && NoChar(name, ':');
    TargetText(name);
    FixupSpelled(o, d, c, "target", 0);
  }

  lemma {:induction false} TargetText(name: string)
    ensures FixupText(Absolute([name]), "target", 0) == "/" + name + ":target:0"
  {
    OneSlashed(name);
    assert Decimal(0) == "0";
  }

  lemma {:induction false} KidAtName<N, D>(o: Tree<N, D>, i: nat)
    requires o.Node? && i < |o.kids| && o.kids[i].Node? && Find(o.kids, true, o.kids[i].name) == i
    ensures Descend(o, [o.kids[i].name]) == Some(o.kids[i])
  {
    var none: seq<string> := [];
    assert [o.kids[i].name][1..] == none && Descend(o.kids[i], none) == Some(o.kids[i]);
  }

  /** A property of `__fixups__` that has this string among its strings lists the target. */
  lemma {:induction false} TargetListed<N, I>(o: Tree<N, I>, d: Store<I>, i: nat, list: I, j: nat)
    requires o.Node? && i < |o.kids| && o.kids[i].Node? && Find(o.kids, true, o.kids[i].name) == i
    requires var name := o.kids[i].name; name != "" && forall k | 0 <= k < |name| :: name[k] != '/' && name[k] != ':'
    requires var p := PropOf(o.kids[i], "target"); p.Some? && |Val(d, p.value)| >= CELL
    requires var strings := Strings(Val(d, list), |Val(d, list)|, 0);
             j < |strings| && strings[j] == "/" + o.kids[i].name + ":target:0"
    ensures ListsTarget(o, d, o.kids[i], list, j)
  {
    hide FixupLocation, PropOf, Strings;
    TargetString(o, d, i);
  }

  /** A fragment whose target is listed under a symbol is for the node that the symbol names. */
  lemma {:induction false} SymbolTarget<N(!new), I(!new)>(m: Tree<N, I>, table: seq<Entry<N>>, o: Tree<N, I>,
                                                          d: Store<I>, frag: Tree<N, I>, q: nat, j: nat, m': Tree<N, I>)
    requires m.Node? && o.Node? && Separate(m) && OwnRecords(o) && Records(m) !! Records(o)
    requires IsTable(table, m, d) && Distinct(Fill(m, d))
    requires Harmless(m, table, o, d) && UpdateReferences(m, table, o, d).Some?
    requires Apart(OverlayPlan(m, o, Renumbered(table, o, d)).edits)
    requires var fixups, symbols := Subnode(o, "__fixups__"), Subnode(m, "__symbols__");
             && fixups.Some? && symbols.Some? && q < |fixups.value.kids| && fixups.value.kids[q].Prop?
             && var node := SymbolNode(m, d, symbols.value, fixups.value.kids[q].name);
                node.Some? ==> Tabled(node.value, d)
    requires ListsTarget(o, Renumbered(table, o, d), frag, Subnode(o, "__fixups__").value.kids[q].data, j)
    ensures var node := SymbolNode(m, d, Subnode(m, "__symbols__").value, Subnode(o, "__fixups__").value.kids[q].name);
            && node.Some?
            && Target(m', table, frag, UpdateReferences(m, table, o, d).value) == (Ok, Some(node.value.id))
  {
    var symbols, name := Subnode(m, "__symbols__").value, Subnode(o, "__fixups__").value.kids[q].name;
    hide SymbolNode, PlanFixups, Phandle, FixupLocation, Strings, Resolve, Renumbered, OverlayPlan, UpdateReferences;
    hide Harmless, Apart;
    hide Distinct, IsTable, Separate, Ids, HasNode, Fill;
    var k := ExternalEdit(m, table, o, d, q, j);
    EditsTakeEffect(m, table, o, d, k);
    SymbolInside(m, symbols, d, name);
    LookupUnique(table, m, d, SymbolNode(m, d, symbols, name).value.id);
  }

  /**
   * With `__overlay__` in it, fragment `i` is merged into exactly that node: string `j` under symbol
   * number `q` of `__fixups__` points at its target cell.
   */
  lemma {:induction false} SymbolMerged<N(!new), I(!new)>(m: Tree<N, I>, table: seq<Entry<N>>, o: Tree<N, I>,
                                                          d: Store<I>, i: nat, q: nat, j: nat)
    requires m.Node? && o.Node? && Separate(m) && OwnRecords(o) && Records(m) !! Records(o)
    requires IsTable(table, m, d) && Distinct(Fill(m, d))
    requires Harmless(m, table, o, d) && UpdateReferences(m, table, o, d).Some?
    requires Apart(OverlayPlan(m, o, Renumbered(table, o, d)).edits)
    requires var fixups, symbols := Subnode(o, "__fixups__"), Subnode(m, "__symbols__");
             && fixups.Some? && symbols.Some? && q < |fixups.value.kids| && fixups.value.kids[q].Prop?
             && var node := SymbolNode(m, d, symbols.value, fixups.value.kids[q].name);
                node.Some? ==> Tabled(node.value, d)
    requires i < |o.kids| && o.kids[i].Node?
    requires ListsTarget(o, Renumbered(table, o, d), o.kids[i], Subnode(o, "__fixups__").value.kids[q].data, j)
    ensures var node := SymbolNode(m, d, Subnode(m, "__symbols__").value, Subnode(o, "__fixups__").value.kids[q].name);
            var d', ov := UpdateReferences(m, table, o, d).value, Subnode(o.kids[i], "__overlay__");
            var a := ApplyFragments(m, table, o.kids[..i], d');
            && node.Some? && Target(a, table, o.kids[i], d') == (Ok, Some(node.value.id))
            && ApplyFragments(m, table, o.kids[..i + 1], d') ==
                 if ov.Some? && ov.value.Node? then MergeAt(a, node.value.id, ov.value) else a
  {
    hide SymbolNode, Renumbered, OverlayPlan, UpdateReferences, Harmless, Apart, ListsTarget, Target, MergeAt;
    hide Distinct, IsTable, Separate, Ids, HasNode, Fill, Components, Descend;
    var d' := UpdateReferences(m, table, o, d).value;
    SymbolTarget(m, table, o, d, o.kids[i], q, j, ApplyFragments(m, table, o.kids[..i], d'));
    assert o.kids[..i + 1][..i] == o.kids[..i];
  }

  /**
   * The same with the symbol's value spelled out: fragment `i` is merged into the node of the main tree
   * at the path that the symbol gives.
   */
  lemma {:induction false} SymbolTargeted<N(!new), I(!new)>(m: Tree<N, I>, table: seq<Entry<N>>, o: Tree<N, I>,
                                                            d: Store<I>, i: nat, q: nat, j: nat, c: seq<string>)
    requires m.Node? && o.Node? && Separate(m) && OwnRecords(o) && Records(m) !! Records(o)
    requires IsTable(table, m, d) && Distinct(Fill(m, d))
    requires Harmless(m, table, o, d) && UpdateReferences(m, table, o, d).Some?
    requires Apart(OverlayPlan(m, o, Renumbered(table, o, d)).edits)
    requires var fixups, symbols := Subnode(o, "__fixups__"), Subnode(m, "__symbols__");
             && fixups.Some? && symbols.Some? && q < |fixups.value.kids| && fixups.value.kids[q].Prop?
             && SymbolAt(symbols.value, fixups.value.kids[q].name, d, c)
    requires Descend(m, c).Some? ==> Tabled(Descend(m, c).value, d)
    requires i < |o.kids| && o.kids[i].Node?
    requires ListsTarget(o, Renumbered(table, o, d), o.kids[i], Subnode(o, "__fixups__").value.kids[q].data, j)
    ensures var d' := UpdateReferences(m, table, o, d).value;
            && Descend(m, c).Some?
            && ApplyFragments(m, table, o.kids[..i + 1], d') ==
                 MergedAt(ApplyFragments(m, table, o.kids[..i], d'), Descend(m, c), o.kids[i])
  {
    hide SymbolNode, Renumbered, OverlayPlan, UpdateReferences, Harmless, Apart, ListsTarget, Target, MergeAt;
    hide Distinct, IsTable, Separate, Ids, HasNode, Fill, Components, Descend, ApplyFragments, OwnRecords, Records;
    SymbolSpelled(m, d, Subnode(m, "__symbols__").value, Subnode(o, "__fixups__").value.kids[q].name, c);
    SymbolMerged(m, table, o, d, i, q, j);
  }
}
