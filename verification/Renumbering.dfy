/** Renumbering an overlay's phandles: the cells it touches, and what the phandles are afterwards. */
module Renumbering {
  import opened Bytes
  import opened Blobs
  import opened Trees
  import opened Paths
  import opened Phandles
  import opened OverlaySpec
  import opened Subtrees
  import opened TableLaws

  // ---------------------------------------------------------------- property records

  /** The records that the properties of a tree refer to. */
  ghost function Records<N, D>(t: Tree<N, D>): set<D> {
    match t
    case Prop(_, _, data) => {data}
    case Node(_, _, kids) => KidRecords(kids)
  }

  ghost function KidRecords<N, D>(kids: seq<Tree<N, D>>): set<D> {
    set i, n | 0 <= i < |kids| && n in Records(kids[i]) :: n
  }

  /** No record is shared by two properties. */
  ghost predicate OwnRecords<N, D>(t: Tree<N, D>) {
    t.Node? ==> OwnKidRecords(t.kids)
  }

  ghost predicate OwnKidRecords<N, D>(kids: seq<Tree<N, D>>) {
    && (forall i | 0 <= i < |kids| :: OwnRecords(kids[i]))
    && (forall i, j | 0 <= i < j < |kids| :: Records(kids[i]) !! Records(kids[j]))
  }

  lemma {:induction false} KidRecordsContain<N, D>(kids: seq<Tree<N, D>>, i: nat)
    requires i < |kids|
    ensures Records(kids[i]) <= KidRecords(kids)
  {
  }

  /** A property's record is one of its node's, and different properties have different ones. */
  lemma {:induction false} PropRecord<N, D>(t: Tree<N, D>, name: string, name': string)
    requires t.Node? && OwnRecords(t)
    ensures PropOf(t, name).Some? ==> PropOf(t, name).value in Records(t)
    ensures PropOf(t, name).Some? && PropOf(t, name').Some? && name != name' ==> PropOf(t, name) != PropOf(t, name')
  {
    var i, j := Find(t.kids, false, name), Find(t.kids, false, name');
    if i < |t.kids| {
      assert PropOf(t, name).value in Records(t.kids[i]);
      KidRecordsContain(t.kids, i);
      if j < |t.kids| && name != name' {
        assert i != j && Records(t.kids[i]) !! Records(t.kids[j]);
        assert PropOf(t, name').value in Records(t.kids[j]);
      }
    }
  }

  // ---------------------------------------------------------------- cells

  /** Two stores agree on which records they have and how long the values are. */
  ghost predicate SameLengths<I(!new)>(d: Store<I>, d': Store<I>) {
    d'.Keys == d.Keys && forall i | i in d :: |d'[i]| == |d[i]|
  }

  lemma {:induction false} CellPropSame<N, I(!new)>(t: Tree<N, I>, d: Store<I>, d': Store<I>, name: string)
    requires SameLengths(d, d')
    ensures CellProp(t, d', name).Some? == CellProp(t, d, name).Some?
  {
    if PropOf(t, name).Some? && PropOf(t, name).value in d {
      assert |d'[PropOf(t, name).value]| == |d[PropOf(t, name).value]|;
    }
  }

  lemma {:induction false} OwnCellsIn<N, I>(t: Tree<N, I>, d: Store<I>)
    requires t.Node? && OwnRecords(t)
    ensures OwnCells(t, d) <= Records(t)
  {
    PropRecord(t, "phandle", "linux,phandle");
    PropRecord(t, "linux,phandle", "phandle");
  }

  lemma {:induction false} PhandleCellsIn<N, I>(t: Tree<N, I>, d: Store<I>)
    requires OwnRecords(t)
    ensures PhandleCells(t, d) <= Records(t)
    decreases t, 0
  {
    if t.Node? {
      OwnCellsIn(t, d);
      KidPhandleCellsIn(t.kids, d);
    }
  }

  lemma {:induction false} KidPhandleCellsIn<N, I>(kids: seq<Tree<N, I>>, d: Store<I>)
    requires OwnKidRecords(kids)
    ensures KidPhandleCells(kids, d) <= KidRecords(kids)
    decreases kids, 0
  {
    if kids != [] {
      var rest := kids[..|kids| - 1];
      assert OwnKidRecords(rest);
      KidPhandleCellsIn(rest, d);
      PhandleCellsIn(kids[|kids| - 1], d);
      KidRecordsContain(kids, |kids| - 1);
      forall x | x in KidRecords(rest) ensures x in KidRecords(kids) {
        var i :| 0 <= i < |rest| && x in Records(rest[i]);
        assert x in Records(kids[i]);
      }
    }
  }

  /** What increasing does to the phandle of one node whose cells are among those increased, or not. */
  lemma {:induction false} IncreasedCell<N, I(!new)>(t: Tree<N, I>, d: Store<I>, cells: set<I>, delta: u32,
                                                     name: string)
    requires t.Node? && CellProp(t, d, name).Some?
    ensures var d' := IncreaseAll(d, cells, delta);
            CellProp(t, d', name) ==
              Some(if PropOf(t, name).value in cells then Add32(CellProp(t, d, name).value, delta)
                  else CellProp(t, d, name).value)
  {
    var i := PropOf(t, name).value;
    assert i in d;
    if i in cells {
      PutGet(d[i], 0, Add32(Get32(d[i], 0), delta));
    }
  }

  lemma {:induction false} IncreasedPhandle<N, I(!new)>(t: Tree<N, I>, d: Store<I>, cells: set<I>, delta: u32)
    requires t.Node?
    requires OwnCells(t, d) <= cells || OwnCells(t, d) !! cells
    ensures var d' := IncreaseAll(d, cells, delta);
            && SameLengths(d, d')
            && (OwnCells(t, d) == {} ==> Phandle(t, d) == 0 == Phandle(t, d'))
            && (OwnCells(t, d) != {} && OwnCells(t, d) <= cells ==> Phandle(t, d') == Add32(Phandle(t, d), delta))
            && (OwnCells(t, d) !! cells ==> Phandle(t, d') == Phandle(t, d))
  {
    var d' := IncreaseAll(d, cells, delta);
    CellPropSame(t, d, d', "phandle");
    CellPropSame(t, d, d', "linux,phandle");
    if CellProp(t, d, "phandle").Some? {
      IncreasedCell(t, d, cells, delta, "phandle");
    } else if CellProp(t, d, "linux,phandle").Some? {
      IncreasedCell(t, d, cells, delta, "linux,phandle");
    }
  }

  /** The cells that increasing the whole tree touches in one of its nodes: all or none. */
  lemma {:induction false} CellsOfNode<N, I(!new)>(t: Tree<N, I>, d: Store<I>, id: N)
    requires OwnRecords(t) && Separate(t) && HasNode(t, id) && id in Ids(t)
    ensures At(t, id).Node? && OwnRecords(At(t, id)) && Records(At(t, id)) <= Records(t)
    ensures Tabled(At(t, id), d) ==> OwnCells(At(t, id), d) <= PhandleCells(t, d)
    ensures !Tabled(At(t, id), d) ==> OwnCells(At(t, id), d) !! PhandleCells(t, d)
    decreases t
  {
    NodeAt(t, id);
    OwnCellsIn(t, d);
    KidPhandleCellsApart(t, d);
    if t.id != id {
      var i := KidWith(t, id);
      KidHasNode(t, i, id);
      CellsOfNode(t.kids[i], d, id);
      OwnCellsIn(At(t, id), d);
      KidRecordsContain(t.kids, i);
      CellsInKid(t, d, i);
    }
  }

  /** The cells of a node are not among those of its subnodes. */
  lemma {:induction false} KidPhandleCellsApart<N, I(!new)>(t: Tree<N, I>, d: Store<I>)
    requires t.Node? && OwnRecords(t)
    ensures OwnCells(t, d) !! KidPhandleCells(t.kids, d)
  {
    forall x | x in OwnCells(t, d) ensures x !in KidPhandleCells(t.kids, d) {
      var name := if CellProp(t, d, "phandle").Some?
          && PropOf(t, "phandle").value == x then "phandle" else "linux,phandle";
      var i := Find(t.kids, false, name);
      assert t.kids[i] == Prop(t.kids[i].id, name, x);
      CellOfKid(t.kids, d, i, x);
    }
  }

  /** A record of child `i` is a touched cell iff it is one of that child. */
  lemma {:induction false} CellOfKid<N, I(!new)>(kids: seq<Tree<N, I>>, d: Store<I>, i: nat, x: I)
    requires OwnKidRecords(kids) && i < |kids| && x in Records(kids[i])
    ensures x in KidPhandleCells(kids, d) <==> x in PhandleCells(kids[i], d)
    decreases |kids|
  {
    var rest, last := kids[..|kids| - 1], kids[|kids| - 1];
    assert OwnKidRecords(rest);
    if i < |rest| {
      PhandleCellsIn(last, d);
      assert Records(kids[i]) !! Records(last);
      CellOfKid(rest, d, i, x);
    } else {
      KidPhandleCellsIn(rest, d);
      forall j | 0 <= j < |rest| ensures x !in Records(rest[j]) {
        assert Records(kids[j]) !! Records(kids[i]);
      }
    }
  }

  lemma {:induction false} CellsInKid<N, I(!new)>(t: Tree<N, I>, d: Store<I>, i: nat)
    requires t.Node? && OwnRecords(t) && i < |t.kids|
    ensures PhandleCells(t.kids[i], d) <= PhandleCells(t, d)
    ensures PhandleCells(t, d) * Records(t.kids[i]) <= PhandleCells(t.kids[i], d) + OwnCells(t, d)
    ensures t.kids[i].Node? ==> OwnCells(t, d) !! Records(t.kids[i])
  {
    assert OwnRecords(t.kids[i]);
    PhandleCellsIn(t.kids[i], d);
    forall x | x in Records(t.kids[i]) ensures x in KidPhandleCells(t.kids, d) <==> x in PhandleCells(t.kids[i], d) {
      CellOfKid(t.kids, d, i, x);
    }
    if t.kids[i].Node? {
      forall x | x in OwnCells(t, d) ensures x !in Records(t.kids[i]) {
        var name := if CellProp(t, d, "phandle").Some?
            && PropOf(t, "phandle").value == x then "phandle" else "linux,phandle";
        var j := Find(t.kids, false, name);
        assert x in Records(t.kids[j]) && i != j;
      }
    }
  }

  /**
   * After renumbering a node that was in the table has its old phandle plus `delta`, and a node that
   * had none has none.
   */
  lemma {:induction false} ShiftedPhandle<N, I(!new)>(t: Tree<N, I>, d: Store<I>, delta: u32, id: N)
    requires OwnRecords(t) && Separate(t) && HasNode(t, id) && id in Ids(t)
    ensures var d', n := Shift(t, d, delta), At(t, id);
            && SameLengths(d, d')
            && (Tabled(n, d) ==> Phandle(n, d') == Add32(Phandle(n, d), delta))
            && (!Tabled(n, d) ==> Phandle(n, d') == Phandle(n, d))
  {
    CellsOfNode(t, d, id);
    IncreasedPhandle(At(t, id), d, PhandleCells(t, d), delta);
  }

  /** That is so for each of the two phandle properties, where it is one cell long. */
  lemma {:induction false} ShiftedCells<N, I(!new)>(t: Tree<N, I>, d: Store<I>, delta: u32, id: N, name: string)
    requires OwnRecords(t) && Separate(t) && HasNode(t, id) && id in Ids(t)
    requires name == "phandle" || name == "linux,phandle"
    requires var p := PropOf(At(t, id), name); p.Some? && |Val(d, p.value)| == CELL
    ensures var v, v' := Val(d, PropOf(At(t, id), name).value), Val(Shift(t, d, delta), PropOf(At(t, id), name).value);
            |v'| == CELL && Get32(v', 0) == if Tabled(At(t, id), d) then Add32(Get32(v, 0), delta) else Get32(v, 0)
  {
    hide Get32, PropOf, PhandleCells, IncreaseAll;
    CellsOfNode(t, d, id);
    IncreasedCell(At(t, id), d, PhandleCells(t, d), delta, name);
  }

  /** Nothing else is written: a changed value belongs to a phandle property of a node that was in the table. */
  lemma {:induction false} ShiftedOnly<N(!new), I(!new)>(t: Tree<N, I>, d: Store<I>, delta: u32, x: I) returns (id: N)
    requires Separate(t) && OwnRecords(t) && Val(Shift(t, d, delta), x) != Val(d, x)
    ensures HasNode(t, id) && id in Ids(t) && Tabled(At(t, id), d)
    ensures PropOf(At(t, id), "phandle") == Some(x) || PropOf(At(t, id), "linux,phandle") == Some(x)
  {
    var e := CellHasEntry(t, d, x);
    EntryIs(t, d, e);
    id := e.node;
  }

  // ---------------------------------------------------------------- the cells, entry by entry

  /** The cells of the nodes that these entries name. */
  ghost function CellsOf<N, I>(entries: seq<Entry<N>>, t: Tree<N, I>, d: Store<I>): set<I>
    requires forall e | e in entries :: e.node in Ids(t)
  {
    if entries == [] then {}
        else CellsOf(entries[..|entries| - 1], t, d) + OwnCells(At(t, entries[|entries| - 1].node), d)
  }

  /** Different nodes have different cells. */
  lemma {:induction false} CellsApart<N, I(!new)>(t: Tree<N, I>, d: Store<I>, a: N, b: N)
    requires OwnRecords(t) && Separate(t) && HasNode(t, a) && HasNode(t, b) && a in Ids(t) && b in Ids(t) && a != b
    ensures OwnCells(At(t, a), d) !! OwnCells(At(t, b), d)
    decreases t
  {
    if t.id == a {
      RootCellsApart(t, d, b);
    } else if t.id == b {
      RootCellsApart(t, d, a);
    } else {
      var i := KidWith(t, a);
      var j := KidWith(t, b);
      KidHasNode(t, i, a);
      KidHasNode(t, j, b);
      if i == j {
        CellsApart(t.kids[i], d, a, b);
      } else {
        assert Records(t.kids[i]) !! Records(t.kids[j]);
        CellsOfNode(t.kids[i], d, a);
        CellsOfNode(t.kids[j], d, b);
        OwnCellsIn(At(t, a), d);
        OwnCellsIn(At(t, b), d);
      }
    }
  }

  lemma {:induction false} RootCellsApart<N, I(!new)>(t: Tree<N, I>, d: Store<I>, b: N)
    requires t.Node? && OwnRecords(t) && Separate(t) && HasNode(t, b) && b in Ids(t) && b != t.id
    ensures OwnCells(t, d) !! OwnCells(At(t, b), d)
  {
    var i := KidWith(t, b);
    KidHasNode(t, i, b);
    CellsInKid(t, d, i);
    CellsOfNode(t.kids[i], d, b);
    OwnCellsIn(At(t, b), d);
  }

  /** The cells of entry `k` are not among those of the entries before it. */
  lemma {:induction false} NextCellsApart<N(!new), I(!new)>(entries: seq<Entry<N>>, t: Tree<N, I>, d: Store<I>, n: N)
    requires OwnRecords(t) && Separate(t) && HasNode(t, n) && n in Ids(t)
    requires forall e | e in entries :: HasNode(t, e.node) && e.node in Ids(t) && e.node != n
    ensures CellsOf(entries, t, d) !! OwnCells(At(t, n), d)
    decreases |entries|
  {
    if entries != [] {
      NextCellsApart(entries[..|entries| - 1], t, d, n);
      CellsApart(t, d, entries[|entries| - 1].node, n);
    }
  }

  /** Every touched cell belongs to a node with an entry. */
  lemma {:induction false} CellHasEntry<N(!new), I(!new)>(t: Tree<N, I>, d: Store<I>, x: I) returns (e: Entry<N>)
    requires Separate(t) && x in PhandleCells(t, d)
    ensures e in Entries(t, d) && e.node in Ids(t) && x in OwnCells(At(t, e.node), d)
    decreases t, 0
  {
    if Tabled(t, d) && x in OwnCells(t, d) {
      e := Entry(Phandle(t, d), t.id);
      assert Own(t, d) == [e];
      assert Entries(t, d)[0] == e;
    } else {
      var i;
      i, e := CellInKid(t.kids, d, x);
      KidEntryIn(t.kids, d, i, e);
      AtKid(t, i, e.node);
    }
  }

  lemma {:induction false} CellInKid<N(!new), I(!new)>(kids: seq<Tree<N, I>>, d: Store<I>, x: I)
    returns (i: nat, e: Entry<N>)
    requires SeparateKids(kids) && x in KidPhandleCells(kids, d)
    ensures i < |kids| && e in Entries(kids[i], d) && e.node in Ids(kids[i]) && x in OwnCells(At(kids[i], e.node), d)
    decreases kids, 0
  {
    var rest := kids[..|kids| - 1];
    if x in KidPhandleCells(rest, d) {
      assert SeparateKids(rest);
      i, e := CellInKid(rest, d, x);
    } else {
      i := |kids| - 1;
      e := CellHasEntry(kids[i], d, x);
    }
  }

  /** Entry by entry through the table, the cells are those of the whole tree. */
  lemma {:induction false} TableCells<N(!new), I(!new)>(table: seq<Entry<N>>, t: Tree<N, I>, d: Store<I>)
    requires OwnRecords(t) && Separate(t) && IsTable(table, t, d)
    requires forall e | e in table :: e.node in Ids(t)
    ensures CellsOf(table, t, d) == PhandleCells(t, d)
  {
    TableLists(table, t, d);
    CellsOfIn(table, t, d);
    forall x | x in PhandleCells(t, d) ensures x in CellsOf(table, t, d) {
      var e := CellHasEntry(t, d, x);
      assert e in multiset(Entries(t, d));
      assert e in multiset(table);
      CellsOfHas(table, t, d, e, x);
    }
  }

  lemma {:induction false} CellsOfIn<N(!new), I(!new)>(entries: seq<Entry<N>>, t: Tree<N, I>, d: Store<I>)
    requires OwnRecords(t) && Separate(t)
    requires forall e | e in entries :: HasNode(t, e.node) && e.node in Ids(t) && Tabled(At(t, e.node), d)
    ensures CellsOf(entries, t, d) <= PhandleCells(t, d)
    decreases |entries|
  {
    if entries != [] {
      CellsOfIn(entries[..|entries| - 1], t, d);
      CellsOfNode(t, d, entries[|entries| - 1].node);
    }
  }

  lemma {:induction false} CellsOfHas<N(!new), I(!new)>(entries: seq<Entry<N>>, t: Tree<N, I>, d: Store<I>, e: Entry<N>,
                                                        x: I)
    requires e in entries && forall e | e in entries :: e.node in Ids(t)
    requires x in OwnCells(At(t, e.node), d)
    ensures x in CellsOf(entries, t, d)
    decreases |entries|
  {
    if e != entries[|entries| - 1] {
      CellsOfHas(entries[..|entries| - 1], t, d, e, x);
    }
  }

  /** Increasing two disjoint sets of cells, one after the other. */
  lemma {:induction false} IncreaseBoth<I(!new)>(d: Store<I>, a: set<I>, b: set<I>, delta: u32)
    requires a !! b
    ensures IncreaseAll(IncreaseAll(d, a, delta), b, delta) == IncreaseAll(d, a + b, delta)
    ensures SameLengths(d, IncreaseAll(d, a, delta))
  {
  }

  /** Which properties are cells depends on lengths only. */
  lemma {:induction false} OwnCellsSame<N, I(!new)>(t: Tree<N, I>, d: Store<I>, d': Store<I>)
    requires SameLengths(d, d')
    ensures OwnCells(t, d') == OwnCells(t, d)
  {
    CellPropSame(t, d, d', "phandle");
    CellPropSame(t, d, d', "linux,phandle");
  }

  /** The store after the first `i` entries were visited. */
  ghost function ShiftedUpTo<N, I>(table: seq<Entry<N>>, i: nat, t: Tree<N, I>, d: Store<I>, delta: u32): Store<I>
    requires i <= |table| && forall e | e in table :: e.node in Ids(t)
  {
    IncreaseAll(d, CellsOf(table[..i], t, d), delta)
  }

  /** Visiting the next entry. */
  lemma {:induction false} ShiftNext<N(!new), I(!new)>(table: seq<Entry<N>>, i: nat, t: Tree<N, I>, d: Store<I>,
                                                       delta: u32)
    requires OwnRecords(t) && Separate(t) && IsTable(table, t, d) && i < |table|
    requires forall e | e in table :: e.node in Ids(t)
    ensures var d', n := ShiftedUpTo(table, i, t, d, delta), At(t, table[i].node);
            && n.Node? && OwnRecords(n) && HasNode(t, table[i].node)
            && ShiftedUpTo(table, i + 1, t, d, delta) == IncreaseAll(d', OwnCells(n, d'), delta)
  {
    hide IsTable, Separate, OwnRecords, HasNode, Ids, IncreaseAll, OwnCells, Phandle;
    TableLists(table, t, d);
    var n := At(t, table[i].node);
    assert table[..i + 1][..i] == table[..i];
    forall e | e in table[..i] ensures HasNode(t, e.node) && e.node in Ids(t) && e.node != table[i].node {
      var j :| 0 <= j < i && table[j] == e;
    }
    NextCellsApart(table[..i], t, d, table[i].node);
    CellsOfNode(t, d, table[i].node);
    IncreaseBoth(d, CellsOf(table[..i], t, d), OwnCells(n, d), delta);
    OwnCellsSame(n, d, ShiftedUpTo(table, i, t, d, delta));
  }

  /** After the last entry the whole tree is shifted. */
  lemma {:induction false} ShiftAll<N(!new), I(!new)>(table: seq<Entry<N>>, t: Tree<N, I>, d: Store<I>, delta: u32)
    requires OwnRecords(t) && Separate(t) && IsTable(table, t, d)
    requires forall e | e in table :: e.node in Ids(t)
    ensures ShiftedUpTo(table, 0, t, d, delta) == d && ShiftedUpTo(table, |table|, t, d, delta) == Shift(t, d, delta)
  {
    hide IsTable, Separate, OwnRecords, Ids, PhandleCells;
    assert table[..|table|] == table;
    TableCells(table, t, d);
  }
}
