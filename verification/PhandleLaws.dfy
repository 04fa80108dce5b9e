/** The phandles of decoded trees, and what merging does to them. */
module PhandleLaws {
  import opened Bytes
  import opened Trees
  import opened MergeLaws
  import opened Paths
  import opened Phandles
  import opened OverlaySpec
  import opened Subtrees
  import opened Flattening
  import opened FragmentLaws

  // ---------------------------------------------------------------- phandles of values

  function CellOf(v: Value, name: string): Option<u32> {
    var p := PropOf(v, name);
    if p.Some? && |p.value| == CELL then Some(Get32(p.value, 0)) else None
  }

  /** The phandle of a node, 0 when it has none. */
  function PhandleOf(v: Value): u32 {
    var p, q := CellOf(v, "phandle"), CellOf(v, "linux,phandle");
    if p.Some? then p.value else if q.Some? then q.value else 0
  }

  /** How many nodes have the phandle `p`. */
  function Times(v: Value, p: u32): nat {
    if v.Prop? then 0 else (if PhandleOf(v) == p then 1 else 0) + KidTimes(v.kids, p)
  }

  function KidTimes(kids: seq<Value>, p: u32): nat {
    if kids == [] then 0 else KidTimes(kids[..|kids| - 1], p) + Times(kids[|kids| - 1], p)
  }

  /** No two nodes have the same phandle. */
  ghost predicate Distinct(v: Value) {
    forall p: u32 | p > 0 :: Times(v, p) <= 1
  }

  /** Phandle properties are cells, as section 2.3.3 of the Devicetree Specification has it. */
  ghost predicate CellPhandles(v: Value) {
    v.Node? ==> OwnCellPhandles(v) && forall i | 0 <= i < |v.kids| :: CellPhandles(v.kids[i])
  }

  predicate OwnCellPhandles(v: Value) {
    && (PropOf(v, "phandle").Some? ==> |PropOf(v, "phandle").value| == CELL)
    && (PropOf(v, "linux,phandle").Some? ==> |PropOf(v, "linux,phandle").value| == CELL)
  }

  ghost predicate CellPhandleKids(kids: seq<Value>) {
    forall i | 0 <= i < |kids| :: CellPhandles(kids[i])
  }

  lemma {:induction false} PhandleFilled<N, I>(t: Tree<N, I>, d: Store<I>)
    ensures PhandleOf(Fill(t, d)) == Phandle(t, d)
  {
    PropOfFilled(t, d, "phandle");
    PropOfFilled(t, d, "linux,phandle");
  }

  lemma {:induction false} PropOfFilled<N, I>(t: Tree<N, I>, d: Store<I>, name: string)
    ensures PropOf(Fill(t, d), name) == if PropOf(t, name).None? then None else Some(Val(d, PropOf(t, name).value))
  {
    if t.Node? {
      FindFilled(t.kids, d, false, name);
    }
  }

  lemma {:induction false} UniqueFilled<N, I>(t: Tree<N, I>, d: Store<I>)
    ensures Unique(Fill(t, d)) == Unique(t)
  {
    if t.Node? {
      var v := Fill(t, d);
      forall i | 0 <= i < |t.kids| ensures Unique(v.kids[i]) == Unique(t.kids[i]) {
        UniqueFilled(t.kids[i], d);
      }
      forall i, j | 0 <= i < j < |t.kids| ensures SameName(v.kids[i], v.kids[j]) == SameName(t.kids[i], t.kids[j]) {
      }
    }
  }

  // ---------------------------------------------------------------- merging

  /** The merged node's phandle is that of the source when the source brings one, else the target's. */
  lemma {:induction false} MergedPhandle(a: Value, b: Value)
    requires a.Node? && b.Node? && Unique(b) && OwnCellPhandles(a) && OwnCellPhandles(b)
    ensures OwnCellPhandles(Merge(a, b))
    ensures PhandleOf(Merge(a, b)) ==
              if PropOf(b, "phandle").Some? || (PropOf(a, "phandle").None? && PropOf(b, "linux,phandle").Some?)
              then PhandleOf(b) else PhandleOf(a)
  {
    FindMerged(a.kids, b.kids, false, "phandle");
    FindMerged(a.kids, b.kids, false, "linux,phandle");
  }

  lemma {:induction false} KidTimesUpdate(kids: seq<Value>, i: nat, x: Value, p: u32)
    requires i < |kids|
    ensures KidTimes(kids[i := x], p) + Times(kids[i], p) == KidTimes(kids, p) + Times(x, p)
    decreases |kids|
  {
    var rest := kids[..|kids| - 1];
    if i < |rest| {
      assert kids[i := x][..|kids| - 1] == rest[i := x];
      KidTimesUpdate(rest, i, x, p);
    } else {
      assert kids[i := x][..|kids| - 1] == rest;
    }
  }

  /** Merging invents no phandle and doubles none, even where one is replaced. */
  lemma {:induction false} MergePhandles(a: Value, b: Value, p: u32)
    requires a.Node? == b.Node? && Unique(b) && CellPhandles(a) && CellPhandles(b)
    ensures CellPhandles(Merge(a, b))
    ensures Times(Merge(a, b), p) <= Times(a, p) + Times(b, p)
    decreases b, 0
  {
    if a.Node? {
      MergedPhandle(a, b);
      MergeKidsPhandles(a.kids, b.kids, p);
    }
  }

  lemma {:induction false} MergeKidPhandles(ka: seq<Value>, x: Value, p: u32)
    requires Unique(x) && CellPhandleKids(ka) && CellPhandles(x)
    ensures CellPhandleKids(MergeKid(ka, x))
    ensures KidTimes(MergeKid(ka, x), p) <= KidTimes(ka, p) + Times(x, p)
    decreases x, 1
  {
    var i := Find(ka, x.Node?, x.name);
    if i < |ka| {
      MergePhandles(ka[i], x, p);
      KidTimesUpdate(ka, i, Merge(ka[i], x), p);
    } else {
      assert (ka + [x])[..|ka|] == ka;
    }
  }

  lemma {:induction false} MergeKidsPhandles(ka: seq<Value>, kb: seq<Value>, p: u32)
    requires UniqueKids(kb) && CellPhandleKids(ka) && CellPhandleKids(kb)
    ensures CellPhandleKids(MergeKids(ka, kb))
    ensures KidTimes(MergeKids(ka, kb), p) <= KidTimes(ka, p) + KidTimes(kb, p)
    decreases kb, 0
  {
    if kb != [] {
      var kb', x := kb[..|kb| - 1], kb[|kb| - 1];
      MergeKidsPhandles(ka, kb', p);
      MergeKidPhandles(MergeKids(ka, kb'), x, p);
    }
  }

  // ---------------------------------------------------------------- fragments

  lemma {:induction false} MergeAtPhandles<N, I>(t: Tree<N, I>, id: N, o: Tree<N, I>, d: Store<I>, p: u32)
    requires Separate(t) && HasNode(t, id) && o.Node? && Unique(Fill(o, d))
    requires CellPhandles(Fill(t, d)) && CellPhandles(Fill(o, d))
    ensures CellPhandles(Fill(MergeAt(t, id, o), d))
    ensures Times(Fill(MergeAt(t, id, o), d), p) <= Times(Fill(t, d), p) + Times(Fill(o, d), p)
    decreases t
  {
    if t.id == id {
      FillMerge(t, o, d);
      MergePhandles(Fill(t, d), Fill(o, d), p);
    } else {
      HasNodeHasId(t, id);
      var i := KidWith(t, id);
      KidHasNode(t, i, id);
      MergeAtPhandles(t.kids[i], id, o, d, p);
      MergeAtKid(t, id, o, i);
      ExchangedPhandles(t, i, MergeAt(t.kids[i], id, o), d, p);
    }
  }

  /** Exchanging a subnode. */
  lemma {:induction false} ExchangedPhandles<N, I>(t: Tree<N, I>, i: nat, x: Tree<N, I>, d: Store<I>, p: u32)
    requires t.Node? && i < |t.kids| && CellPhandles(Fill(t, d)) && CellPhandles(Fill(x, d))
    requires t.kids[i].Node? && x.Node?
    ensures var t' := t.(kids := t.kids[i := x]);
            && CellPhandles(Fill(t', d))
            && Times(Fill(t', d), p) + Times(Fill(t.kids[i], d), p) == Times(Fill(t, d), p) + Times(Fill(x, d), p)
  {
    var v := Fill(t, d);
    assert FillKids(t.kids[i := x], d) == FillKids(t.kids, d)[i := Fill(x, d)];
    assert Fill(t.(kids := t.kids[i := x]), d) == v.(kids := v.kids[i := Fill(x, d)]);
    hide Fill, FillKids, Times, CellPhandles;
    ExchangedValue(v, i, Fill(x, d), p);
  }

  lemma {:induction false} ExchangedValue(v: Value, i: nat, x: Value, p: u32)
    requires v.Node? && i < |v.kids| && v.kids[i].Node? && x.Node? && CellPhandles(v) && CellPhandles(x)
    ensures var v' := v.(kids := v.kids[i := x]);
            CellPhandles(v') && Times(v', p) + Times(v.kids[i], p) == Times(v, p) + Times(x, p)
  {
    KidTimesUpdate(v.kids, i, x, p);
    OwnPropsSame(v.kids, i, x, "phandle");
    OwnPropsSame(v.kids, i, x, "linux,phandle");
  }

  lemma {:induction false} OwnPropsSame(kids: seq<Value>, i: nat, x: Value, name: string)
    requires i < |kids| && kids[i].Node? && x.Node?
    ensures var j := Find(kids, false, name);
            Find(kids[i := x], false, name) == j && (j < |kids| ==> kids[i := x][j] == kids[j])
  {
    FindIs(kids[i := x], false, name, Find(kids, false, name));
  }

  lemma {:induction false} KidTimesOne(kids: seq<Value>, i: nat, p: u32)
    requires i < |kids|
    ensures Times(kids[i], p) <= KidTimes(kids, p)
    decreases |kids|
  {
    if i < |kids| - 1 {
      KidTimesOne(kids[..|kids| - 1], i, p);
    }
  }

  lemma {:induction false} DescendPhandles<N, I>(t: Tree<N, I>, path: seq<string>, d: Store<I>, p: u32)
    requires Descend(t, path).Some? && Unique(t) && CellPhandles(Fill(t, d))
    ensures var n := Descend(t, path).value;
            Unique(n) && CellPhandles(Fill(n, d)) && Times(Fill(n, d), p) <= Times(Fill(t, d), p)
    decreases path
  {
    if path != [] {
      var i := Find(t.kids, true, path[0]);
      DescendPhandles(t.kids[i], path[1..], d, p);
      KidTimesOne(FillKids(t.kids, d), i, p);
    }
  }

  lemma {:induction false} FragmentPhandles<N(!new), I>(m: Tree<N, I>, table: seq<Entry<N>>, frag: Tree<N, I>,
                                                        d: Store<I>, p: u32)
    requires m.Node? && Separate(m) && TableIn(table, m) && frag.Node? && Unique(frag)
    requires CellPhandles(Fill(m, d)) && CellPhandles(Fill(frag, d))
    ensures var m' := ApplyFragment(m, table, frag, d).1;
            CellPhandles(Fill(m', d)) && Times(Fill(m', d), p) <= Times(Fill(m, d), p) + Times(Fill(frag, d), p)
  {
    hide Target, TreePath, Descend, Components, Separate, HasNode, TableIn, MergeAt, Fill, Times, CellPhandles, Unique;
    TargetFound(m, table, frag, d);
    var target, overlay := Target(m, table, frag, d).1, Subnode(frag, "__overlay__");
    if target.Some? && overlay.Some? && overlay.value.Node? {
      DescendPhandles(frag, ["__overlay__"], d, p);
      UniqueFilled(overlay.value, d);
      MergeAtPhandles(m, target.value, overlay.value, d, p);
    }
  }

  /** All phandles of the result come from the main tree and the fragments, each at most as often as there. */
  lemma {:induction false} FragmentsPhandles<N(!new), I>(m: Tree<N, I>, table: seq<Entry<N>>, frags: seq<Tree<N, I>>,
                                                         d: Store<I>, p: u32)
    requires m.Node? && Separate(m) && TableIn(table, m) && SeparateKids(frags) && Ids(m) !! KidIds(frags)
    requires CellPhandles(Fill(m, d)) && forall i | 0 <= i < |frags| ::
            Unique(frags[i])
            && CellPhandles(Fill(frags[i], d))
    ensures var m' := ApplyFragments(m, table, frags, d);
            && CellPhandles(Fill(m', d))
            && Times(Fill(m', d), p) <= Times(Fill(m, d), p) + KidTimes(FillKids(frags, d), p)
    decreases |frags|
  {
    if frags != [] {
      var rest, frag := frags[..|frags| - 1], frags[|frags| - 1];
      LastIds(frags);
      FragmentsPhandles(m, table, rest, d, p);
      FragmentsIds(m, table, rest, d);
      assert FillKids(frags, d)[..|frags| - 1] == FillKids(rest, d);
      if frag.Node? {
        FragmentPhandles(ApplyFragments(m, table, rest, d), table, frag, d, p);
      }
    }
  }
}
