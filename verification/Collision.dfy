/** An overlay whose fixups write a phandle property: two of its nodes end up with the same phandle. */
module Collision {
  import opened Bytes
  import opened Trees
  import opened Paths
  import opened Phandles
  import opened Numbers
  import opened OverlaySpec
  import opened Confinement
  import opened Flattening
  import opened PhandleLaws
  import opened Uniqueness
  import FixupPlans
  import Targeting

  type T = Tree<nat, nat>

  /** A cell with a small number in it. */
  function Small(n: byte): seq<byte> {
    [0, 0, 0, n]
  }

  /** `/ { a { phandle = <1>; }; };` */
  const A: T := Node(1, "a", [Prop(2, "phandle", 0)])
  const MAIN: T := Node(0, "", [A])

  /** `n { phandle = <1>; };` and `p { phandle = <2>; };` in `f { target = <1>; __overlay__ { ... }; };` */
  const N: T := Node(14, "n", [Prop(15, "phandle", 2)])
  const P: T := Node(16, "p", [Prop(17, "phandle", 3)])
  const OV: T := Node(13, "__overlay__", [N, P])
  const F: T := Node(11, "f", [Prop(12, "target", 1), OV])

  /** `__local_fixups__` lists byte 0 of the phandle of `n`. */
  const LN: T := Node(23, "n", [Prop(24, "phandle", 4)])
  const LO: T := Node(22, "__overlay__", [LN])
  const LF: T := Node(21, "f", [LO])
  const L: T := Node(20, "__local_fixups__", [LF])
  const O: T := Node(10, "", [F, L])

  const TABLE: seq<Entry<nat>> := [Entry(1, 1)]

  function Stored(x: byte, y: byte): Store<nat> {
    map[0 := Small(1), 1 := Small(1), 2 := Small(x), 3 := Small(y), 4 := Small(0)]
  }

  lemma {:induction false} SmallCell(n: byte)
    ensures Get32(Small(n), 0) == n && |Small(n)| == 4
    ensures n < 255 ==> Increase(Small(n), 0, 1) == Small(n + 1)
  {
    if n < 255 {
      assert Add32(n, 1) == n + 1;
      assert Cell(n + 1) == Small(n + 1);
    }
  }

  /** The phandle of a node whose first child is the `phandle` property. */
  lemma {:induction false} FirstPhandle(id: nat, name: string, prop: nat, i: nat, rest: seq<T>, d: Store<nat>, n: byte)
    requires i in d && d[i] == Small(n)
    ensures var t := Node(id, name, [Prop(prop, "phandle", i)] + rest);
            PropOf(t, "phandle") == Some(i) && Phandle(t, d) == n
  {
    SmallCell(n);
    var t := Node(id, name, [Prop(prop, "phandle", i)] + rest);
    FindIs(t.kids, false, "phandle", 0);
  }

  lemma {:induction false} NoPhandle(t: T, d: Store<nat>)
    requires t.Node? && forall k | 0 <= k < |t.kids| && t.kids[k].Prop? :: t.kids[k].name == "target"
    ensures Phandle(t, d) == 0 && CellProp(t, d, "phandle").None? && CellProp(t, d, "linux,phandle").None?
  {
    FindIs(t.kids, false, "phandle", |t.kids|);
    FindIs(t.kids, false, "linux,phandle", |t.kids|);
  }

  // ---------------------------------------------------------------- renumbering

  lemma {:induction false} OneKid<X, I>(x: Tree<X, I>, d: Store<I>)
    ensures KidPhandleCells([x], d) == PhandleCells(x, d)
  {
    assert [x][..0] == [];
  }

  lemma {:induction false} TwoKids<X, I>(x: Tree<X, I>, y: Tree<X, I>, d: Store<I>)
    ensures KidPhandleCells([x, y], d) == PhandleCells(x, d) + PhandleCells(y, d)
  {
    assert [x, y][..1] == [x];
    OneKid(x, d);
  }

  lemma {:induction false} LeafCells(t: T, id: nat, name: string, prop: nat, i: nat, d: Store<nat>, n: byte)
    requires t == Node(id, name, [Prop(prop, "phandle", i)]) && i in d && d[i] == Small(n)
    ensures PhandleCells(t, d) == if n > 0 then {i} else {}
  {
    FirstPhandle(id, name, prop, i, [], d, n);
    assert [Prop(prop, "phandle", i)] + [] == t.kids;
    FindIs(t.kids, false, "linux,phandle", 1);
    OneKid(t.kids[0], d);
  }

  lemma {:induction false} PlainCells(t: T, d: Store<nat>)
    requires t.Node? && forall k | 0 <= k < |t.kids| && t.kids[k].Prop? :: t.kids[k].name == "target"
    ensures PhandleCells(t, d) == KidPhandleCells(t.kids, d)
  {
    NoPhandle(t, d);
  }

  lemma {:induction false} CellsOfO()
    ensures PhandleCells(O, Stored(1, 2)) == {2, 3}
  {
    hide PhandleCells, KidPhandleCells;
    var d := Stored(1, 2);
    LeafCells(N, 14, "n", 15, 2, d, 1);
    LeafCells(P, 16, "p", 17, 3, d, 2);
    TwoKids(N, P, d);
    PlainCells(OV, d);
    PropCells(F.kids[0], d);
    TwoKids(F.kids[0], OV, d);
    PlainCells(F, d);
    CellsOfL(d);
    TwoKids(F, L, d);
    PlainCells(O, d);
  }

  lemma {:induction false} PropCells(t: T, d: Store<nat>)
    requires t.Prop?
    ensures PhandleCells(t, d) == {}
  {
  }

  lemma {:induction false} CellsOfL(d: Store<nat>)
    requires 4 in d && d[4] == Small(0)
    ensures PhandleCells(L, d) == {}
  {
    hide PhandleCells, KidPhandleCells;
    LeafCells(LN, 23, "n", 24, 4, d, 0);
    OneKid(LN, d);
    PlainCells(LO, d);
    OneKid(LO, d);
    PlainCells(LF, d);
    OneKid(LF, d);
    PlainCells(L, d);
  }

  lemma {:induction false} AfterShift()
    ensures Renumbered(TABLE, O, Stored(1, 2)) == Stored(2, 3)
  {
    hide PhandleCells, Increase;
    CellsOfO();
    SmallCell(1);
    SmallCell(2);
  }

  // ---------------------------------------------------------------- fixups

  lemma {:induction false} ResolveKid(t: T, i: nat)
    requires t.Node? && i < |t.kids| && t.kids[i].Node? && t.kids[i].name != ""
    requires forall j | 0 <= j < |t.kids[i].name| :: t.kids[i].name[j] != '/'
    requires forall j | 0 <= j < i :: t.kids[j].Prop? || t.kids[j].name != t.kids[i].name
    ensures Resolve(t, t.kids[i].name) == Some(t.kids[i]) == Subnode(t, t.kids[i].name)
  {
    var name := t.kids[i].name;
    OneComponent("/" + name, name);
    FindIs(t.kids, true, name, i);
    var none: seq<string> := [];
    assert [name][1..] == none && Descend(t.kids[i], none) == Some(t.kids[i]);
    assert Descend(t, [name]) == Some(t.kids[i]);
  }

  /** A fixups node with one subnode. */
  lemma {:induction false} OneSubnode(t: T, fixups: T, sub: T, d: Store<nat>, d': Store<nat>)
    requires fixups.Node? && |fixups.kids| == 1 && fixups.kids[0].Node?
    requires Resolve(t, fixups.kids[0].name) == Some(sub) && LocalFixup(sub, fixups.kids[0], d, 1) == Some(d')
    ensures LocalFixup(t, fixups, d, 1) == Some(d')
  {
    hide Resolve;
    var none: seq<T> := [];
    assert fixups.kids[1..] == none;
    assert LocalProps(t, none, d, 1) == Some(d) && LocalNodes(t, none, d', 1) == Some(d');
    assert LocalProps(t, fixups.kids, d, 1) == Some(d);
    assert LocalNodes(t, fixups.kids, d, 1) == Some(d');
  }

  /** A fixups node with one property. */
  lemma {:induction false} OneProperty(t: T, fixups: T, d: Store<nat>, d': Store<nat>)
    requires fixups.Node? && |fixups.kids| == 1 && fixups.kids[0].Prop?
    requires var x := fixups.kids[0];
             PropOf(t, x.name).Some?
                 && LocalCells(d, PropOf(t, x.name).value, x.data, |Val(d, x.data)|, 0, 1) == Some(d')
    ensures LocalFixup(t, fixups, d, 1) == Some(d')
  {
    hide LocalCells, PropOf;
    var none: seq<T> := [];
    assert fixups.kids[1..] == none;
    assert LocalProps(t, none, d', 1) == Some(d') && LocalNodes(t, none, d', 1) == Some(d');
    assert LocalProps(t, fixups.kids, d, 1) == Some(d');
    assert LocalNodes(t, fixups.kids, d', 1) == Some(d');
  }

  /** The fixup of `n` adds 1 to its phandle. */
  lemma {:induction false} FixupOfN()
    ensures LocalFixup(N, LN, Stored(2, 3), 1) == Some(Stored(3, 3))
  {
    hide LocalCells, LocalFixup, Phandle, PropOf;
    FirstPhandle(14, "n", 15, 2, [], Stored(2, 3), 2);
    assert [Prop(15, "phandle", 2)] + [] == N.kids;
    OneCell();
    OneProperty(N, LN, Stored(2, 3), Stored(3, 3));
  }

  lemma {:induction false} OneCell()
    ensures LocalCells(Stored(2, 3), 2, 4, 4, 0, 1) == Some(Stored(3, 3)) && |Val(Stored(2, 3), 4)| == 4
  {
    hide LocalCells;
    var d := Stored(2, 3);
    SingleCell(d, 2, 4, 2);
    assert d[2 := Small(3)] == Stored(3, 3);
  }

  /** A list of the one offset 0. */
  lemma {:induction false} SingleCell(d: Store<nat>, target: nat, list: nat, n: byte)
    requires target in d && d[target] == Small(n) && list in d && d[list] == Small(0) && n < 255 && target != list
    ensures LocalCells(d, target, list, 4, 0, 1) == Some(d[target := Small(n + 1)])
  {
    hide Increase, Get32, Small;
    SmallCell(0);
    SmallCell(n);
    var d' := d[target := Small(n + 1)];
    assert LocalCells(d', target, list, 4, 4, 1) == Some(d');
  }

  lemma {:induction false} AfterFixups()
    ensures LocalFixups(O, Stored(2, 3), 1) == Some(Stored(3, 3))
    ensures Fixups(MAIN, O, Stored(3, 3)) == Some(Stored(3, 3))
  {
    hide LocalFixup, HasProp, FixupProps, Resolve, Descend;
    FixupOfN();
    ResolveKid(OV, 0);
    OneSubnode(OV, LO, N, Stored(2, 3), Stored(3, 3));
    ResolveKid(F, 1);
    OneSubnode(F, LF, OV, Stored(2, 3), Stored(3, 3));
    ResolveKid(O, 0);
    OneSubnode(O, L, F, Stored(2, 3), Stored(3, 3));
    ResolveKid(O, 1);
    FixupPlans.WholeTree(O);
    NoSubnode(O, "__fixups__");
  }

  lemma {:induction false} NoSubnode(t: T, name: string)
    requires t.Node? && forall i | 0 <= i < |t.kids| :: t.kids[i].name != name
    ensures Subnode(t, name).None?
  {
    FindIs(t.kids, true, name, |t.kids|);
  }

  // ---------------------------------------------------------------- the fragment

  /** `a` with `n` and `p` in it. */
  const RESULT: T := Node(0, "", [Node(1, "a", [Prop(2, "phandle", 0), N, P])])

  lemma {:induction false} TakesIn(x: T, ka: seq<T>)
    requires x.Node? && forall i | 0 <= i < |ka| :: ka[i].name != x.name
    ensures MergeKid(ka, x) == ka + [x]
  {
    FindIs(ka, true, x.name, |ka|);
  }

  lemma {:induction false} Merged()
    ensures MergeAt(MAIN, 1, OV) == RESULT
  {
    var ka := [Prop(2, "phandle", 0)];
    TakesIn(N, ka);
    TakesIn(P, ka + [N]);
    assert OV.kids[..1] == [N] && [N][..0] == [] && ka + [N] + [P] == [Prop(2, "phandle", 0), N, P];
    assert MergeKids(ka, [N]) == MergeKid(MergeKids(ka, []), N);
    assert MergeKids(ka, OV.kids) == MergeKid(MergeKids(ka, [N]), P);
    assert MergeAt(MAIN, 1, OV).kids == [Merge(A, OV)];
  }

  lemma {:induction false} Applies(m: T, table: seq<Entry<nat>>, frag: T, d: Store<nat>, p: nat, x: nat, ov: T)
    requires PropOf(frag, "target") == Some(p) && Lookup(table, Get32(Val(d, p), 0)) == Some(x)
    requires Subnode(frag, "__overlay__") == Some(ov) && ov.Node?
    ensures ApplyFragment(m, table, frag, d).1 == MergeAt(m, x, ov)
  {
    hide PropOf, Lookup, Get32, Subnode, MergeAt;
  }

  lemma {:induction false} FApplied()
    ensures ApplyFragment(MAIN, TABLE, F, Stored(3, 3)).1 == RESULT
  {
    hide MergeAt, Get32, Resolve, ApplyFragment, Floor;
    SmallCell(1);
    FindIs(F.kids, false, "target", 0);
    ResolveKid(F, 1);
    Merged();
    TableAnswers();
    Applies(MAIN, TABLE, F, Stored(3, 3), 1, 1, OV);
  }

  lemma {:induction false} TableAnswers()
    ensures Lookup(TABLE, 1) == Some(1)
  {
  }

  lemma {:induction false} LApplied(t: T, d: Store<nat>)
    ensures ApplyFragment(t, TABLE, L, d).1 == t
  {
    FindIs(L.kids, false, "target", 1);
    FindIs(L.kids, false, "target-path", 1);
  }

  lemma {:induction false} Applied()
    ensures ApplyFragments(MAIN, TABLE, O.kids, Stored(3, 3)) == RESULT
  {
    hide ApplyFragment;
    var d := Stored(3, 3);
    FApplied();
    LApplied(RESULT, d);
    assert O.kids[..1] == [F] && [F][..0] == [];
    assert ApplyFragments(MAIN, TABLE, [F][..0], d) == MAIN;
    assert ApplyFragments(MAIN, TABLE, [F], d) == RESULT;
  }

  // ---------------------------------------------------------------- the inputs

  lemma {:induction false} OneTimes(x: T, d: Store<nat>, p: u32)
    ensures KidTimes(FillKids([x], d), p) == Times(Fill(x, d), p)
  {
    assert FillKids([x], d)[..0] == [];
  }

  lemma {:induction false} TwoTimes(x: T, y: T, d: Store<nat>, p: u32)
    ensures KidTimes(FillKids([x, y], d), p) == Times(Fill(x, d), p) + Times(Fill(y, d), p)
  {
    assert FillKids([x, y], d)[..1] == FillKids([x], d);
    OneTimes(x, d, p);
  }

  lemma {:induction false} PropTimes(t: T, d: Store<nat>, p: u32)
    requires t.Prop?
    ensures Times(Fill(t, d), p) == 0
  {
  }

  lemma {:induction false} LeafTimes(t: T, id: nat, name: string, prop: nat, i: nat, d: Store<nat>, n: byte, p: u32)
    requires t == Node(id, name, [Prop(prop, "phandle", i)]) && i in d && d[i] == Small(n)
    ensures Times(Fill(t, d), p) == if n == p then 1 else 0
  {
    FirstPhandle(id, name, prop, i, [], d, n);
    assert [Prop(prop, "phandle", i)] + [] == t.kids;
    PhandleFilled(t, d);
    OneTimes(t.kids[0], d, p);
    PropTimes(t.kids[0], d, p);
  }

  lemma {:induction false} PlainTimes(t: T, d: Store<nat>, p: u32)
    requires t.Node? && forall k | 0 <= k < |t.kids| && t.kids[k].Prop? :: t.kids[k].name == "target"
    requires p > 0
    ensures Times(Fill(t, d), p) == KidTimes(FillKids(t.kids, d), p)
  {
    NoPhandle(t, d);
    PhandleFilled(t, d);
  }

  lemma {:induction false} TimesInO(p: u32)
    requires p > 0
    ensures Times(Fill(O, Stored(1, 2)), p) <= 1
  {
    hide Times, KidTimes, Fill, FillKids;
    var d := Stored(1, 2);
    LeafTimes(N, 14, "n", 15, 2, d, 1, p);
    LeafTimes(P, 16, "p", 17, 3, d, 2, p);
    TwoTimes(N, P, d, p);
    PlainTimes(OV, d, p);
    PropTimes(F.kids[0], d, p);
    TwoTimes(F.kids[0], OV, d, p);
    PlainTimes(F, d, p);
    TimesInL(d, p);
    TwoTimes(F, L, d, p);
    PlainTimes(O, d, p);
  }

  lemma {:induction false} TimesInL(d: Store<nat>, p: u32)
    requires 4 in d && d[4] == Small(0) && p > 0
    ensures Times(Fill(L, d), p) == 0
  {
    hide Times, KidTimes, Fill, FillKids;
    LeafTimes(LN, 23, "n", 24, 4, d, 0, p);
    OneTimes(LN, d, p);
    PlainTimes(LO, d, p);
    OneTimes(LO, d, p);
    PlainTimes(LF, d, p);
    OneTimes(LF, d, p);
    PlainTimes(L, d, p);
  }

  /** No phandle occurs twice in either input, and the table is that of the main tree. */
  lemma {:induction false} DistinctInputs()
    ensures Distinct(Fill(MAIN, Stored(1, 2))) && Distinct(Fill(O, Stored(1, 2)))
    ensures IsTable(TABLE, MAIN, Stored(1, 2))
  {
    hide Times, KidTimes, Fill, FillKids, IsTable;
    var d := Stored(1, 2);
    forall p: u32 | p > 0 ensures Times(Fill(MAIN, d), p) <= 1 {
      LeafTimes(A, 1, "a", 2, 0, d, 1, p);
      OneTimes(A, d, p);
      PlainTimes(MAIN, d, p);
    }
    forall p: u32 | p > 0 ensures Times(Fill(O, d), p) <= 1 {
      TimesInO(p);
    }
    TableOfMain(d);
  }

  lemma {:induction false} TableOfMain(d: Store<nat>)
    requires 0 in d && d[0] == Small(1)
    ensures IsTable(TABLE, MAIN, d)
  {
    FirstPhandle(1, "a", 2, 0, [], d, 1);
    assert [Prop(2, "phandle", 0)] + [] == A.kids;
    NoPhandle(MAIN, d);
    hide Phandle;
    assert A.kids[..0] == [] && MAIN.kids[..0] == [];
    assert Entries(A.kids[0], d) == [];
    assert KidEntries(A.kids, d) == KidEntries(A.kids[..0], d) + Entries(A.kids[0], d);
    assert Entries(A, d) == [Entry(1, 1)];
    assert KidEntries(MAIN.kids, d) == KidEntries(MAIN.kids[..0], d) + Entries(A, d);
  }

  // ---------------------------------------------------------------- the collision

  lemma {:induction false} PhandleValue(t: T, d: Store<nat>, n: byte)
    requires Phandle(t, d) == n && t.Node?
    ensures Times(Fill(t, d), n) >= 1
  {
    PhandleFilled(t, d);
  }

  /**
   * Phandles are distinct in both inputs and their maxima add up to 3; the application succeeds, and
   * `n` and `p` share phandle 3.
   */
  lemma {:induction false} PhandlesCollide()
    ensures Distinct(Fill(MAIN, Stored(1, 2))) && Distinct(Fill(O, Stored(1, 2))) && IsTable(TABLE, MAIN, Stored(1, 2))
    ensures var out := OverlayApply(MAIN, TABLE, O, Stored(1, 2));
            out == Some(Outcome(RESULT, Stored(3, 3))) && !Distinct(Fill(RESULT, Stored(3, 3)))
  {
    hide LocalFixups, Fixups, ApplyFragments, Shift, Times, Fill, IsTable, Increase, PropOf, Phandle;
    DistinctInputs();
    AfterShift();
    AfterFixups();
    Applied();
    var d := Stored(3, 3);
    FirstPhandle(14, "n", 15, 2, [], d, 3);
    FirstPhandle(16, "p", 17, 3, [], d, 3);
    assert [Prop(15, "phandle", 2)] + [] == N.kids && [Prop(17, "phandle", 3)] + [] == P.kids;
    PhandleValue(N, d, 3);
    PhandleValue(P, d, 3);
    TwoInA(d);
  }

  lemma {:induction false} TwoInA(d: Store<nat>)
    requires Times(Fill(N, d), 3) >= 1 && Times(Fill(P, d), 3) >= 1
    ensures Times(Fill(RESULT, d), 3) >= 2
  {
    var a := RESULT.kids[0];
    Targeting.KidTimesTwo(Fill(a, d).kids, 1, 2, 3);
    KidTimesOne(Fill(RESULT, d).kids, 0, 3);
  }
}
