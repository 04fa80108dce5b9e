/** Phandles (section 2.3.3 of the Devicetree Specification) and the sorted phandle table. */
module Phandles {
  import opened Bytes
  import opened Trees
  import opened Paths

  type Store<I> = map<I, seq<byte>>

  const SIGN_BIT := 0x8000_0000

  /** A property read as one cell, when it is exactly one cell long. */
  function CellProp<N, I>(t: Tree<N, I>, d: Store<I>, name: string): Option<u32> {
    var p := PropOf(t, name);
    if p.Some? && |Val(d, p.value)| == CELL then Some(Get32(Val(d, p.value), 0)) else None
  }

  /** The phandle of a node, 0 when it has none. */
  function Phandle<N, I>(t: Tree<N, I>, d: Store<I>): u32 {
    var p := CellProp(t, d, "phandle");
    var q := CellProp(t, d, "linux,phandle");
    if p.Some? then p.value else if q.Some? then q.value else 0
  }

  datatype Entry<N> = Entry(phandle: u32, node: N)

  /** The count takes phandles as unsigned. */
  predicate Counted<N, I>(t: Tree<N, I>, d: Store<I>) {
    t.Node? && Phandle(t, d) > 0
  }

  /** The fill takes them as signed. */
  predicate Tabled<N, I>(t: Tree<N, I>, d: Store<I>) {
    t.Node? && 0 < Phandle(t, d) < SIGN_BIT
  }

  function Own<N, I>(t: Tree<N, I>, d: Store<I>): seq<Entry<N>> {
    if Tabled(t, d) then [Entry(Phandle(t, d), t.id)] else []
  }

  /** The table entries of a tree, parents before children. */
  function Entries<N, I>(t: Tree<N, I>, d: Store<I>): seq<Entry<N>> {
    if t.Prop? then [] else Own(t, d) + KidEntries(t.kids, d)
  }

  function KidEntries<N, I>(kids: seq<Tree<N, I>>, d: Store<I>): seq<Entry<N>> {
    if kids == [] then [] else KidEntries(kids[..|kids| - 1], d) + Entries(kids[|kids| - 1], d)
  }

  function Count<N, I>(t: Tree<N, I>, d: Store<I>): nat {
    if t.Prop? then 0 else (if Counted(t, d) then 1 else 0) + KidCount(t.kids, d)
  }

  function KidCount<N, I>(kids: seq<Tree<N, I>>, d: Store<I>): nat {
    if kids == [] then 0 else KidCount(kids[..|kids| - 1], d) + Count(kids[|kids| - 1], d)
  }

  /** Every phandle is below 2^31. */
  ghost predicate Signed<N, I>(t: Tree<N, I>, d: Store<I>) {
    t.Node? ==> Phandle(t, d) < SIGN_BIT && forall i | 0 <= i < |t.kids| :: Signed(t.kids[i], d)
  }

  /** The count pass reserves exactly the space that the fill pass uses iff no phandle has its top bit set. */
  lemma {:induction false} CountIsFill<N, I>(t: Tree<N, I>, d: Store<I>)
    ensures |Entries(t, d)| <= Count(t, d)
    ensures |Entries(t, d)| == Count(t, d) <==> Signed(t, d)
  {
    if t.Node? {
      KidCountIsFill(t.kids, d);
    }
  }

  lemma {:induction false} KidCountIsFill<N, I>(kids: seq<Tree<N, I>>, d: Store<I>)
    ensures |KidEntries(kids, d)| <= KidCount(kids, d)
    ensures |KidEntries(kids, d)| == KidCount(kids, d) <==> forall i | 0 <= i < |kids| :: Signed(kids[i], d)
  {
    if kids != [] {
      KidCountIsFill(kids[..|kids| - 1], d);
      CountIsFill(kids[|kids| - 1], d);
      assert forall i | 0 <= i < |kids| - 1 :: kids[..|kids| - 1][i] == kids[i];
    }
  }

  // ---------------------------------------------------------------- the sorted table

  ghost predicate Sorted<N(!new)>(table: seq<Entry<N>>) {
    forall i, j | 0 <= i < j < |table| :: table[i].phandle <= table[j].phandle
  }

  /** A sorted permutation of the entries of a tree. */
  ghost predicate IsTable<N(!new), I>(table: seq<Entry<N>>, t: Tree<N, I>, d: Store<I>) {
    Sorted(table) && multiset(table) == multiset(Entries(t, d))
  }

  /** The phandle of the last entry, 0 for an empty table. */
  function MaxPhandle<N>(table: seq<Entry<N>>): u32 {
    if table == [] then 0 else table[|table| - 1].phandle
  }

  /** The last entry not above `phandle`; the first entry when all are above. */
  function Floor<N>(table: seq<Entry<N>>, phandle: u32): (i: nat)
    requires table != []
    ensures i < |table|
  {
    if |table| == 1 || table[|table| - 1].phandle <= phandle then |table| - 1
    else Floor(table[..|table| - 1], phandle)
  }

  /** What the search answers: nothing for an empty table, else the floor entry's node. */
  function Lookup<N>(table: seq<Entry<N>>, phandle: u32): Option<N> {
    if table == [] then None else Some(table[Floor(table, phandle)].node)
  }

  lemma {:induction false} FloorIs<N(!new)>(table: seq<Entry<N>>, phandle: u32)
    requires Sorted(table) && table != []
    ensures var i := Floor(table, phandle);
            && (forall j | i < j < |table| :: table[j].phandle > phandle)
            && (i > 0 ==> table[i].phandle <= phandle)
    decreases |table|
  {
    if |table| > 1 && table[|table| - 1].phandle > phandle {
      FloorIs(table[..|table| - 1], phandle);
    }
  }

  /** A phandle that is in the table is found. */
  lemma {:induction false} LookupPresent<N(!new)>(table: seq<Entry<N>>, k: nat)
    requires Sorted(table) && k < |table|
    ensures table[Floor(table, table[k].phandle)].phandle == table[k].phandle
  {
    FloorIs(table, table[k].phandle);
    var i := Floor(table, table[k].phandle);
    assert k <= i;
  }

  ghost predicate DistinctPhandles<N(!new)>(table: seq<Entry<N>>) {
    forall i, j | 0 <= i < j < |table| :: table[i].phandle != table[j].phandle
  }

  /** With distinct phandles the node found is the one that has the phandle. */
  lemma {:induction false} LookupExact<N(!new)>(table: seq<Entry<N>>, k: nat)
    requires Sorted(table) && DistinctPhandles(table) && k < |table|
    ensures Lookup(table, table[k].phandle) == Some(table[k].node)
  {
    LookupPresent(table, k);
  }

  /** The answer carries the phandle that was asked for iff some entry carries it. */
  lemma {:induction false} LookupFloor<N(!new)>(table: seq<Entry<N>>, phandle: u32)
    requires Sorted(table)
    ensures Lookup(table, phandle).None? <==> table == []
    ensures table != [] ==>
              var i := Floor(table, phandle);
              && Lookup(table, phandle) == Some(table[i].node)
              && (table[i].phandle == phandle <==> exists k :: 0 <= k < |table| && table[k].phandle == phandle)
              && (table[i].phandle > phandle ==> i == 0 && forall k | 0 <= k < |table| :: table[k].phandle > phandle)
              && (table[i].phandle < phandle ==>
                    forall k | 0 <= k < |table| && table[k].phandle <= phandle :: table[k].phandle <= table[i].phandle)
  {
    if table != [] {
      FloorIs(table, phandle);
      var i := Floor(table, phandle);
      if k :| 0 <= k < |table| && table[k].phandle == phandle {
        LookupPresent(table, k);
      }
    }
  }

  // ---------------------------------------------------------------- the documented answer

  /** What the header promises: a node that has the phandle, or nothing when none has it. */
  ghost predicate AsDocumented<N(!new)>(table: seq<Entry<N>>, phandle: u32) {
    match Lookup(table, phandle)
    case None => forall k | 0 <= k < |table| :: table[k].phandle != phandle
    case Some(n) => exists k :: 0 <= k < |table| && table[k] == Entry(phandle, n)
  }

  /** The search keeps the promise exactly for an empty table and for phandles that are in the table. */
  lemma {:induction false} DocumentedIff<N(!new)>(table: seq<Entry<N>>, phandle: u32)
    requires Sorted(table)
    ensures AsDocumented(table, phandle) <==> table == [] || exists k :: 0 <= k < |table| && table[k].phandle == phandle
  {
    LookupFloor(table, phandle);
    if table != [] && exists k :: 0 <= k < |table| && table[k].phandle == phandle {
      var i := Floor(table, phandle);
      assert table[i] == Entry(phandle, table[i].node);
    }
  }

  /** Asked for phandle 2, a table that only lists phandle 1 answers with the node that has phandle 1. */
  lemma {:induction false} AbsentPhandleAnswered<N(!new)>(n: N)
    ensures Lookup([Entry(1, n)], 2) == Some(n) && !AsDocumented([Entry(1, n)], 2)
  {
    var table := [Entry(1, n)];
    assert Floor(table, 2) == 0;
    assert forall k | 0 <= k < |table| :: table[k].phandle == 1;
  }

  /** A node whose phandle is 2^31 is counted and then not filled in. */
  lemma {:induction false} TopBitNotFilled<N, I>(node: N, prop: N, i: I)
    ensures var t, d := Node(node, "", [Prop(prop, "phandle", i)]), map[i := [0x80, 0, 0, 0]];
            Count(t, d) == 1 && Entries(t, d) == [] && !Signed(t, d)
  {
    var kids := [Prop(prop, "phandle", i)];
    var t, d: Store<I> := Node(node, "", kids), map[i := [0x80, 0, 0, 0]];
    assert Find(kids, false, "phandle") == 0;
    assert Val(d, i) == [0x80, 0, 0, 0] && Get32([0x80, 0, 0, 0], 0) == SIGN_BIT;
    assert Phandle(t, d) == SIGN_BIT;
    assert kids[..|kids| - 1] == [];
    assert KidEntries(kids, d) == KidEntries(kids[..|kids| - 1], d) + Entries(kids[0], d);
    assert KidCount(kids, d) == KidCount(kids[..|kids| - 1], d) + Count(kids[0], d);
  }
}
