/** Phandles stay unique: renumbering, fixups and fragments together. */
module Uniqueness {
  import opened Bytes
  import opened Trees
  import opened MergeLaws
  import opened Paths
  import opened Phandles
  import opened OverlaySpec
  import opened Confinement
  import opened Subtrees
  import opened TableLaws
  import opened Flattening
  import opened Renumbering
  import opened ReferenceLaws
  import opened FixupPlans
  import opened FragmentLaws
  import opened PhandleLaws

  // ---------------------------------------------------------------- two trees whose phandles differ by a constant

  /** Same shape; every phandle of `v` is `delta` more in `w`, and nodes without one have none. */
  ghost predicate Shifted(v: Value, w: Value, delta: u32) {
    && v.Node? == w.Node?
    && (v.Node? ==>
          && |w.kids| == |v.kids|
          && PhandleOf(w) == (if PhandleOf(v) > 0 then PhandleOf(v) + delta else 0)
          && (OwnCellPhandles(v) ==> OwnCellPhandles(w))
          && forall i | 0 <= i < |v.kids| :: Shifted(v.kids[i], w.kids[i], delta))
  }

  /** Every phandle is below `b`. */
  ghost predicate Below(v: Value, b: nat) {
    v.Node? ==> PhandleOf(v) < b && forall i | 0 <= i < |v.kids| :: Below(v.kids[i], b)
  }

  lemma {:induction false} ShiftedTimes(v: Value, w: Value, delta: u32, p: u32)
    requires Shifted(v, w, delta) && p > 0
    ensures Times(w, p) == if p > delta then Times(v, p - delta) else 0
    decreases v, 0
  {
    if v.Node? {
      ShiftedKidTimes(v.kids, w.kids, delta, p);
    }
  }

  lemma {:induction false} ShiftedKidTimes(v: seq<Value>, w: seq<Value>, delta: u32, p: u32)
    requires |w| == |v| && p > 0 && forall i | 0 <= i < |v| :: Shifted(v[i], w[i], delta)
    ensures KidTimes(w, p) == if p > delta then KidTimes(v, p - delta) else 0
    decreases v, 0
  {
    if v != [] {
      ShiftedKidTimes(v[..|v| - 1], w[..|v| - 1], delta, p);
      ShiftedTimes(v[|v| - 1], w[|v| - 1], delta, p);
    }
  }

  lemma {:induction false} ShiftedBelow(v: Value, w: Value, delta: u32, b: nat)
    requires Shifted(v, w, delta) && Below(v, b) && b > 0
    ensures Below(w, b + delta)
  {
    if v.Node? {
      forall i | 0 <= i < |w.kids| ensures Below(w.kids[i], b + delta) {
        ShiftedBelow(v.kids[i], w.kids[i], delta, b);
      }
    }
  }

  lemma {:induction false} ShiftedCells(v: Value, w: Value, delta: u32)
    requires Shifted(v, w, delta) && CellPhandles(v)
    ensures CellPhandles(w)
  {
    if v.Node? {
      forall i | 0 <= i < |w.kids| ensures CellPhandles(w.kids[i]) {
        ShiftedCells(v.kids[i], w.kids[i], delta);
      }
    }
  }

  lemma {:induction false} ShiftedBoth(v: Value, w: Value, x: Value, delta: u32)
    requires Shifted(v, w, delta) && Shifted(w, x, 0)
    ensures Shifted(v, x, delta)
  {
    if v.Node? {
      forall i | 0 <= i < |v.kids| ensures Shifted(v.kids[i], x.kids[i], delta) {
        ShiftedBoth(v.kids[i], w.kids[i], x.kids[i], delta);
      }
    }
  }

  /** A phandle that is counted is below every bound. */
  lemma {:induction false} TimesBelow(v: Value, b: nat, p: u32)
    requires Below(v, b) && p >= b
    ensures Times(v, p) == 0
    decreases v, 0
  {
    if v.Node? {
      KidTimesBelow(v.kids, b, p);
    }
  }

  lemma {:induction false} KidTimesBelow(kids: seq<Value>, b: nat, p: u32)
    requires p >= b && forall i | 0 <= i < |kids| :: Below(kids[i], b)
    ensures KidTimes(kids, p) == 0
    decreases kids, 0
  {
    if kids != [] {
      KidTimesBelow(kids[..|kids| - 1], b, p);
      TimesBelow(kids[|kids| - 1], b, p);
    }
  }

  /** Conversely, when no phandle from `b` on is counted, all are below. */
  lemma {:induction false} BelowTimes(v: Value, b: nat)
    requires 0 < b && forall p: u32 | p >= b :: Times(v, p) == 0
    ensures Below(v, b)
    decreases v
  {
    if v.Node? {
      assert Times(v, PhandleOf(v)) > 0;
      forall i | 0 <= i < |v.kids| ensures Below(v.kids[i], b) {
        forall p: u32 | p >= b ensures Times(v.kids[i], p) == 0 {
          KidTimesOne(v.kids, i, p);
          assert Times(v, p) == 0;
        }
        BelowTimes(v.kids[i], b);
      }
    }
  }

  lemma {:induction false} SignedIsBelow<N, I>(t: Tree<N, I>, d: Store<I>)
    ensures Signed(t, d) == Below(Fill(t, d), SIGN_BIT)
  {
    PhandleFilled(t, d);
    if t.Node? {
      forall i | 0 <= i < |t.kids| ensures Signed(t.kids[i], d) == Below(Fill(t, d).kids[i], SIGN_BIT) {
        SignedIsBelow(t.kids[i], d);
      }
    }
  }

  // ---------------------------------------------------------------- renumbering

  /** Down from a node: labels lead to its children. */
  lemma {:induction false} AtStep<N, D>(t: Tree<N, D>, id: N, i: nat)
    requires Separate(t) && HasNode(t, id) && id in Ids(t) && At(t, id).Node? && i < |At(t, id).kids|
            && At(t, id).kids[i].Node?
    ensures var x := At(t, id).kids[i]; HasNode(t, x.id) && x.id in Ids(t) && At(t, x.id) == x
    decreases t
  {
    if t.id == id {
      KidIdsContain(t.kids, i);
      AtKid(t, i, t.kids[i].id);
      assert HasNode(t.kids[i], t.kids[i].id);
    } else {
      var j := KidWith(t, id);
      KidHasNode(t, j, id);
      var x := At(t, id).kids[i];
      AtStep(t.kids[j], id, i);
      AtKid(t, j, x.id);
      assert HasNode(t.kids[j], x.id);
    }
  }

  /** From a node's own phandle and its children to the node. */
  lemma {:induction false} ShiftedNode<N, I(!new)>(t: Tree<N, I>, d: Store<I>, d': Store<I>, delta: u32)
    requires t.Node? && SameLengths(d, d')
    requires Phandle(t, d') == if Phandle(t, d) > 0 then Phandle(t, d) + delta else 0
    requires forall i | 0 <= i < |t.kids| :: Shifted(Fill(t.kids[i], d), Fill(t.kids[i], d'), delta)
    ensures Shifted(Fill(t, d), Fill(t, d'), delta)
  {
    var v, w := Fill(t, d), Fill(t, d');
    PhandleFilled(t, d);
    PhandleFilled(t, d');
    SameOwnCells(t, d, d');
    assert forall i | 0 <= i < |t.kids| :: v.kids[i] == Fill(t.kids[i], d) && w.kids[i] == Fill(t.kids[i], d');
    hide Fill, Phandle, PhandleOf, OwnCellPhandles;
  }

  lemma {:induction false} SameOwnCells<N, I(!new)>(t: Tree<N, I>, d: Store<I>, d': Store<I>)
    requires SameLengths(d, d')
    ensures OwnCellPhandles(Fill(t, d')) == OwnCellPhandles(Fill(t, d))
  {
    LengthSame(d, d');
    PropOfFilled(t, d, "phandle");
    PropOfFilled(t, d, "linux,phandle");
    PropOfFilled(t, d', "phandle");
    PropOfFilled(t, d', "linux,phandle");
  }

  lemma {:induction false} ShiftedAt<N, I(!new)>(t: Tree<N, I>, d: Store<I>, delta: u32, x: Tree<N, I>)
    requires OwnRecords(t) && Separate(t)
    requires x.Node? && HasNode(t, x.id) && x.id in Ids(t) && At(t, x.id) == x
    requires delta <= SIGN_BIT && Below(Fill(x, d), SIGN_BIT - delta)
    ensures Shifted(Fill(x, d), Fill(x, Shift(t, d, delta)), delta)
    decreases x
  {
    hide Shift, Ids, Separate, Records, OwnRecords, HasNode;
    var d' := Shift(t, d, delta);
    ShiftedOne(t, d, delta, x);
    forall i | 0 <= i < |x.kids| ensures Shifted(Fill(x.kids[i], d), Fill(x.kids[i], d'), delta) {
      assert Fill(x, d).kids[i] == Fill(x.kids[i], d);
      if x.kids[i].Node? {
        AtStep(t, x.id, i);
        ShiftedAt(t, d, delta, x.kids[i]);
      }
    }
    hide Shifted, Fill, Below;
    ShiftedNode(x, d, d', delta);
  }

  lemma {:induction false} ShiftedOne<N, I(!new)>(t: Tree<N, I>, d: Store<I>, delta: u32, x: Tree<N, I>)
    requires OwnRecords(t) && Separate(t)
    requires x.Node? && HasNode(t, x.id) && x.id in Ids(t) && At(t, x.id) == x
    requires delta <= SIGN_BIT && Below(Fill(x, d), SIGN_BIT - delta)
    ensures var d' := Shift(t, d, delta);
            SameLengths(d, d') && Phandle(x, d') == if Phandle(x, d) > 0 then Phandle(x, d) + delta else 0
  {
    hide Shift, Ids, Separate, Records, OwnRecords, HasNode, Phandle;
    ShiftedPhandle(t, d, delta, x.id);
    PhandleFilled(x, d);
  }

  lemma {:induction false} LengthSame<I(!new)>(d: Store<I>, d': Store<I>)
    requires SameLengths(d, d')
    ensures forall i :: |Val(d', i)| == |Val(d, i)|
  {
  }

  // ---------------------------------------------------------------- fixups

  /** The records of the phandle properties of a tree. */
  ghost function PhandleRecords<N, D>(t: Tree<N, D>): set<D> {
    match t
    case Prop(_, name, data) => if name == "phandle" || name == "linux,phandle" then {data} else {}
    case Node(_, _, kids) => set i, n | 0 <= i < |kids| && n in PhandleRecords(kids[i]) :: n
  }

  lemma {:induction false} PhandleRecordsKid<N, D>(t: Tree<N, D>, i: nat)
    requires t.Node? && i < |t.kids|
    ensures PhandleRecords(t.kids[i]) <= PhandleRecords(t)
  {
  }

  lemma {:induction false} PhandleIsRecord<N, D>(t: Tree<N, D>, name: string)
    requires name == "phandle" || name == "linux,phandle"
    ensures PropOf(t, name).Some? ==> PropOf(t, name).value in PhandleRecords(t)
  {
    if PropOf(t, name).Some? {
      var i := Find(t.kids, false, name);
      assert PropOf(t, name).value in PhandleRecords(t.kids[i]);
      PhandleRecordsKid(t, i);
    }
  }

  /** When no phandle property was written, all phandles are as before. */
  lemma {:induction false} SamePhandles<N, I(!new)>(t: Tree<N, I>, d: Store<I>, d': Store<I>, s: set<I>)
    requires Agree(d, d', s) && PhandleRecords(t) <= s
    ensures Shifted(Fill(t, d), Fill(t, d'), 0)
  {
    if t.Node? {
      SamePhandle(t, d, d', s);
      forall i | 0 <= i < |t.kids| ensures Shifted(Fill(t.kids[i], d), Fill(t.kids[i], d'), 0) {
        PhandleRecordsKid(t, i);
        SamePhandles(t.kids[i], d, d', s);
      }
      hide Shifted, Fill;
      ShiftedNode(t, d, d', 0);
    }
  }

  lemma {:induction false} SamePhandle<N, I(!new)>(t: Tree<N, I>, d: Store<I>, d': Store<I>, s: set<I>)
    requires Agree(d, d', s) && PhandleRecords(t) <= s
    ensures Phandle(t, d') == Phandle(t, d)
  {
    AgreeVal(d, d', s);
    PhandleIsRecord(t, "phandle");
    PhandleIsRecord(t, "linux,phandle");
  }

  /** Values outside the written records look as before. */
  lemma {:induction false} FillSame<N, I(!new)>(t: Tree<N, I>, d: Store<I>, d': Store<I>, s: set<I>)
    requires Within(d, d', s) && Records(t) !! s
    ensures Fill(t, d') == Fill(t, d)
  {
    if t.Node? {
      forall i | 0 <= i < |t.kids| ensures FillKids(t.kids, d')[i] == FillKids(t.kids, d)[i] {
        KidRecordsContain(t.kids, i);
        FillSame(t.kids[i], d, d', s);
      }
      assert FillKids(t.kids, d') == FillKids(t.kids, d);
    }
  }

  // ---------------------------------------------------------------- one overlay

  /** Unique sibling names, phandles that are cells, and no phandle twice. */
  ghost predicate Sane(v: Value) {
    Unique(v) && CellPhandles(v) && Distinct(v)
  }

  lemma {:induction false} ShiftedSelf(v: Value)
    ensures Shifted(v, v, 0)
  {
    if v.Node? {
      forall i | 0 <= i < |v.kids| ensures Shifted(v.kids[i], v.kids[i], 0) {
        ShiftedSelf(v.kids[i]);
      }
    }
  }

  /** The last entry of the table bounds all phandles of the tree. */
  lemma {:induction false} MaxBelow<N(!new), I>(table: seq<Entry<N>>, t: Tree<N, I>, d: Store<I>, x: Tree<N, I>)
    requires Separate(t) && IsTable(table, t, d)
    requires x.Node? ==> HasNode(t, x.id) && x.id in Ids(t) && At(t, x.id) == x
    requires Below(Fill(x, d), SIGN_BIT)
    ensures Below(Fill(x, d), MaxPhandle(table) + 1)
    decreases x
  {
    hide IsTable, Separate, Ids, HasNode;
    if x.Node? {
      PhandleFilled(x, d);
      if Tabled(x, d) {
        MaxBounds(table, t, d, x.id);
      }
      forall i | 0 <= i < |x.kids| ensures Below(Fill(x, d).kids[i], MaxPhandle(table) + 1) {
        if x.kids[i].Node? {
          AtStep(t, x.id, i);
        }
        MaxBelow(table, t, d, x.kids[i]);
      }
    }
  }

  lemma {:induction false} BelowAt<N, I>(t: Tree<N, I>, d: Store<I>, id: N, b: nat)
    requires Separate(t) && HasNode(t, id) && id in Ids(t) && Below(Fill(t, d), b)
    ensures Phandle(At(t, id), d) < b
    decreases t
  {
    if t.id == id {
      PhandleFilled(t, d);
    } else {
      var i := KidWith(t, id);
      KidHasNode(t, i, id);
      assert Below(Fill(t, d).kids[i], b);
      BelowAt(t.kids[i], d, id, b);
    }
  }

  lemma {:induction false} MaxIsBelow<N(!new), I>(table: seq<Entry<N>>, t: Tree<N, I>, d: Store<I>, b: nat)
    requires Separate(t) && IsTable(table, t, d) && Below(Fill(t, d), b) && 0 < b
    ensures MaxPhandle(table) < b
  {
    if table != [] {
      var e := table[|table| - 1];
      TableLists(table, t, d);
      BelowAt(t, d, e.node, b);
    }
  }

  lemma {:induction false} QuietUnion<I>(edits: seq<Edit<I>>, s: set<I>, t: set<I>)
    requires Quiet(edits, s + t)
    ensures Quiet(edits, s)
  {
    forall i | 0 <= i < |edits| ensures edits[i].at.prop !in s {
      assert edits[i].at.prop !in s + t;
    }
  }

  /** What an overlay has to keep its hands off: phandle properties, and what its fixups are read from. */
  ghost predicate Harmless<N, I>(m: Tree<N, I>, table: seq<Entry<N>>, o: Tree<N, I>, d: Store<I>) {
    Quiet(OverlayPlan(m, o, Renumbered(table, o, d)).edits, ReadRecords(m, o) + PhandleRecords(o))
  }

  /** The fixups of this run leave the phandle properties of the overlay as renumbering made them. */
  ghost predicate KeepsPhandles<N(!new), I(!new)>(m: Tree<N, I>, table: seq<Entry<N>>, o: Tree<N, I>, d: Store<I>) {
    var r := UpdateReferences(m, table, o, d);
    r.Some? ==> Agree(Renumbered(table, o, d), r.value, PhandleRecords(o))
  }

  /** One reason: the places of the fixups can be read off beforehand, and none is in a phandle property. */
  lemma {:induction false} HarmlessKeeps<N(!new), I(!new)>(m: Tree<N, I>, table: seq<Entry<N>>, o: Tree<N, I>,
                                                           d: Store<I>)
    requires o.Node? && m.Node? && Harmless(m, table, o, d)
    ensures KeepsPhandles(m, table, o, d)
  {
    var d1 := Renumbered(table, o, d);
    var edits, s, phandles := OverlayPlan(m, o, d1).edits, ReadRecords(m, o), PhandleRecords(o);
    hide OverlayPlan, ReadRecords, PhandleRecords, UpdateReferences, Perform, Renumbered;
    QuietUnion(edits, s, phandles);
    UpdateFollows(m, table, o, d);
    QuietUnion(edits, phandles, s);
    assert s + phandles == phandles + s;
    assert Agree(d1, d1, phandles);
    PerformAgrees(d1, d1, edits, MaxPhandle(table), phandles);
  }

  /** The phandles of the overlay after all its references were updated. */
  lemma {:induction false} OverlayShifted<N(!new), I(!new)>(m: Tree<N, I>, table: seq<Entry<N>>, o: Tree<N, I>,
                                                            d: Store<I>)
    requires o.Node? && m.Node? && OwnRecords(o) && Separate(o)
    requires MaxPhandle(table) <= SIGN_BIT && Below(Fill(o, d), SIGN_BIT - MaxPhandle(table))
    requires KeepsPhandles(m, table, o, d) && UpdateReferences(m, table, o, d).Some?
    ensures Shifted(Fill(o, d), Fill(o, UpdateReferences(m, table, o, d).value), MaxPhandle(table))
  {
    hide PhandleRecords, UpdateReferences, Fill, Below, Separate, Shifted;
    var delta, d1, d' := MaxPhandle(table), Renumbered(table, o, d), UpdateReferences(m, table, o, d).value;
    SamePhandles(o, d1, d', PhandleRecords(o));
    RootAt(o);
    if delta > 0 {
      ShiftedAt(o, d, delta, o);
    } else {
      ShiftedSelf(Fill(o, d));
    }
    ShiftedBoth(Fill(o, d), Fill(o, d1), Fill(o, d'), delta);
  }

  lemma {:induction false} RootAt<N, D>(t: Tree<N, D>)
    requires t.Node?
    ensures HasNode(t, t.id) && t.id in Ids(t) && At(t, t.id) == t
  {
  }

  /**
   * Distinct phandles stay distinct, even where the overlay replaces one: the overlay's phandles move
   * above all of the main tree's, and merging doubles none. With the largest phandles `b - 1` and
   * `c - 1` the largest afterwards is at most their sum, which has to stay below 2^31.
   */
  lemma {:induction false} OverlayKeepsDistinct<N(!new), I(!new)>(m: Tree<N, I>, table: seq<Entry<N>>, o: Tree<N, I>,
                                                                  d: Store<I>, b: nat, c: nat)
    requires m.Node? && o.Node? && Separate(m) && Separate(o) && Ids(m) !! Ids(o)
    requires OwnRecords(o) && Records(m) !! Records(o) && IsTable(table, m, d) && TableIn(table, m)
    requires Sane(Fill(m, d)) && Sane(Fill(o, d))
    requires 0 < b && 0 < c && b + c <= SIGN_BIT + 1 && Below(Fill(m, d), b) && Below(Fill(o, d), c)
    requires KeepsPhandles(m, table, o, d) && OverlayApply(m, table, o, d).Some?
    ensures var out := OverlayApply(m, table, o, d).value;
            var v := Fill(out.tree, out.values);
            Distinct(v) && CellPhandles(v) && Below(v, b + c - 1)
  {
    hide *;
    var delta := MaxPhandle(table);
    var out := OverlayApply(m, table, o, d).value;
    OverlayCounts(m, table, o, d, b, c);
    CountsDistinct(Fill(m, d), Fill(o, d), Fill(o, out.values), Fill(out.tree, out.values), delta, b, c);
  }

  /** Where the phandles of the result come from. */
  lemma {:induction false} OverlayCounts<N(!new), I(!new)>(m: Tree<N, I>, table: seq<Entry<N>>, o: Tree<N, I>,
                                                           d: Store<I>, b: nat, c: nat)
    requires m.Node? && o.Node? && Separate(m) && Separate(o) && Ids(m) !! Ids(o)
    requires OwnRecords(o) && Records(m) !! Records(o) && IsTable(table, m, d) && TableIn(table, m)
    requires Sane(Fill(m, d)) && Sane(Fill(o, d))
    requires 0 < b && 0 < c && b + c <= SIGN_BIT + 1 && Below(Fill(m, d), b) && Below(Fill(o, d), c)
    requires KeepsPhandles(m, table, o, d) && OverlayApply(m, table, o, d).Some?
    ensures var out := OverlayApply(m, table, o, d).value;
            var v, w := Fill(out.tree, out.values), Fill(o, out.values);
            && MaxPhandle(table) < b && Below(Fill(m, d), MaxPhandle(table) + 1)
            && Shifted(Fill(o, d), w, MaxPhandle(table)) && CellPhandles(v)
            && forall p: u32 :: Times(v, p) <= Times(Fill(m, d), p) + Times(w, p)
  {
    var delta := MaxPhandle(table);
    var out := OverlayApply(m, table, o, d).value;
    var d', v, w := out.values, Fill(out.tree, out.values), Fill(o, out.values);
    hide UpdateReferences, ApplyFragments, Fill, IsTable, TableIn, KeepsPhandles, Times, Below, CellPhandles, Shifted;
    hide Separate, Ids, KidIds, Unique;
    hide Records, OwnRecords, Phandle, Distinct;
    MaxIsBelow(table, m, d, b);
    BelowMore(Fill(o, d), c, SIGN_BIT - delta);
    BelowMore(Fill(m, d), b, SIGN_BIT);
    OverlayShifted(m, table, o, d);
    UpdateWithin(m, table, o, d);
    FillSame(m, d, d', Records(o));
    RootAt(m);
    MaxBelow(table, m, d, m);
    ShiftedCells(Fill(o, d), w, delta);
    UniqueFilled(o, d);
    FragmentsCounts(m, table, o, d');
  }

  /** The same for the fragments alone. */
  lemma {:induction false} FragmentsCounts<N(!new), I(!new)>(m: Tree<N, I>, table: seq<Entry<N>>, o: Tree<N, I>,
                                                             d: Store<I>)
    requires m.Node? && o.Node? && Separate(m) && Separate(o) && Ids(m) !! Ids(o) && TableIn(table, m)
    requires CellPhandles(Fill(m, d)) && CellPhandles(Fill(o, d)) && Unique(o)
    ensures var v := Fill(ApplyFragments(m, table, o.kids, d), d);
            CellPhandles(v) && forall p: u32 :: Times(v, p) <= Times(Fill(m, d), p) + Times(Fill(o, d), p)
  {
    hide Fill, FillKids, Times, KidTimes, CellPhandles, Separate, Ids, KidIds, Unique, TableIn, ApplyFragments;
    OverlayParts(m, o, d);
    var v := Fill(ApplyFragments(m, table, o.kids, d), d);
    forall p: u32 ensures Times(v, p) <= Times(Fill(m, d), p) + Times(Fill(o, d), p) {
      FragmentsPhandles(m, table, o.kids, d, p);
      KidsOfNode(o, d, p);
    }
    FragmentsPhandles(m, table, o.kids, d, 1);
  }

  lemma {:induction false} CountsDistinct(m: Value, o: Value, o': Value, v: Value, delta: u32, b: nat, c: nat)
    requires Sane(m) && Sane(o) && delta < b && 0 < c && Below(m, delta + 1) && Below(o, c) && Shifted(o, o', delta)
    requires forall p: u32 :: Times(v, p) <= Times(m, p) + Times(o', p)
    ensures Distinct(v) && Below(v, b + c - 1)
  {
    hide Times, Below, Shifted, Unique, CellPhandles;
    forall p: u32 | p > 0 ensures Times(v, p) <= 1 && (p >= b + c - 1 ==> Times(v, p) == 0) {
      ShiftedTimes(o, o', delta, p);
      if p > delta {
        TimesBelow(m, delta + 1, p);
        if p >= b + c - 1 {
          TimesBelow(o, c, p - delta);
        }
      }
    }
    BelowTimes(v, b + c - 1);
  }

  lemma {:induction false} BelowMore(v: Value, b: nat, c: nat)
    requires Below(v, b) && b <= c
    ensures Below(v, c)
  {
    if v.Node? {
      forall i | 0 <= i < |v.kids| ensures Below(v.kids[i], c) {
        BelowMore(v.kids[i], b, c);
      }
    }
  }

  lemma {:induction false} KidsOfNode<N, I>(o: Tree<N, I>, d: Store<I>, p: u32)
    requires o.Node?
    ensures KidTimes(FillKids(o.kids, d), p) <= Times(Fill(o, d), p)
  {
  }

  /** What the fragments need to know of the overlay. */
  lemma {:induction false} OverlayParts<N, I>(m: Tree<N, I>, o: Tree<N, I>, d: Store<I>)
    requires o.Node? && Separate(o) && Ids(m) !! Ids(o) && Unique(o) && CellPhandles(Fill(o, d))
    ensures SeparateKids(o.kids) && Ids(m) !! KidIds(o.kids)
    ensures forall i | 0 <= i < |o.kids| :: Unique(o.kids[i]) && CellPhandles(Fill(o.kids[i], d))
  {
    forall i | 0 <= i < |o.kids| ensures CellPhandles(Fill(o.kids[i], d)) {
      assert Fill(o, d).kids[i] == Fill(o.kids[i], d);
    }
  }

  /** Two sound trees that share nothing, with room for the phandles of both: `b - 1` and `c - 1` bound them. */
  ghost predicate Joinable<N(!new), I(!new)>(m: Tree<N, I>, table: seq<Entry<N>>, o: Tree<N, I>, d: Store<I>, b: nat,
                                             c: nat) {
    && m.Node? && o.Node? && Separate(m) && Separate(o) && Ids(m) !! Ids(o)
    && OwnRecords(o) && Records(m) !! Records(o) && IsTable(table, m, d) && TableIn(table, m)
    && Sane(Fill(m, d)) && Sane(Fill(o, d))
    && 0 < b && 0 < c && b + c <= SIGN_BIT + 1 && Below(Fill(m, d), b) && Below(Fill(o, d), c)
  }

  lemma {:induction false} JoinableParts<N(!new), I(!new)>(m: Tree<N, I>, table: seq<Entry<N>>, o: Tree<N, I>,
                                                           d: Store<I>, b: nat, c: nat)
    requires Joinable(m, table, o, d, b, c)
    ensures m.Node? && o.Node? && Separate(m) && Separate(o) && Ids(m) !! Ids(o) && Unique(o)
    ensures OwnRecords(o) && Records(m) !! Records(o) && IsTable(table, m, d) && TableIn(table, m)
            && Distinct(Fill(m, d))
    ensures MaxPhandle(table) <= SIGN_BIT && Below(Fill(o, d), SIGN_BIT - MaxPhandle(table))
  {
    hide Separate, Ids, Records, OwnRecords, IsTable, TableIn, Distinct, Below, Fill, CellPhandles;
    UniqueFilled(o, d);
    MaxIsBelow(table, m, d, b);
    BelowMore(Fill(o, d), c, SIGN_BIT - MaxPhandle(table));
  }

  /** Distinct phandles in the result, for such trees. */
  lemma {:induction false} JoinedDistinct<N(!new), I(!new)>(m: Tree<N, I>, table: seq<Entry<N>>, o: Tree<N, I>,
                                                            d: Store<I>, b: nat, c: nat)
    requires Joinable(m, table, o, d, b, c) && KeepsPhandles(m, table, o, d) && OverlayApply(m, table, o, d).Some?
    ensures var out := OverlayApply(m, table, o, d).value; Distinct(Fill(out.tree, out.values))
  {
    hide Separate, Ids, Records, OwnRecords, IsTable, TableIn, Distinct, Below, Fill, Sane, KeepsPhandles, OverlayApply;
    OverlayKeepsDistinct(m, table, o, d, b, c);
  }
}
