/** What is in a phandle table: every node with a phandle, once, and a bound for all phandles. */
module TableLaws {
  import opened Trees
  import opened Phandles
  import opened Subtrees

  /** An entry holds the phandle of the node it names. */
  lemma {:induction false} EntryIs<N(!new), I>(t: Tree<N, I>, d: Store<I>, e: Entry<N>)
    requires Separate(t) && e in Entries(t, d)
    ensures HasNode(t, e.node) && e.node in Ids(t)
    ensures Tabled(At(t, e.node), d) && e.phandle == Phandle(At(t, e.node), d)
    decreases t, 0
  {
    if e !in Own(t, d) {
      assert e in KidEntries(t.kids, d);
      var i := EntryInKid(t.kids, d, e);
      assert SeparateKids(t.kids);
      EntryIs(t.kids[i], d, e);
      AtKid(t, i, e.node);
      assert HasNode(t.kids[i], e.node);
    }
  }

  lemma {:induction false} EntryInKid<N(!new), I>(kids: seq<Tree<N, I>>, d: Store<I>, e: Entry<N>) returns (i: nat)
    requires e in KidEntries(kids, d)
    ensures i < |kids| && e in Entries(kids[i], d)
    decreases |kids|
  {
    var rest := kids[..|kids| - 1];
    if e in KidEntries(rest, d) {
      i := EntryInKid(rest, d, e);
    } else {
      i := |kids| - 1;
    }
  }

  /** Every node with a phandle below 2^31 has its entry. */
  lemma {:induction false} EntryOf<N(!new), I>(t: Tree<N, I>, d: Store<I>, id: N)
    requires Separate(t) && HasNode(t, id) && id in Ids(t) && Tabled(At(t, id), d)
    ensures Entry(Phandle(At(t, id), d), id) in Entries(t, d)
    decreases t
  {
    if t.id == id {
      assert Own(t, d) == [Entry(Phandle(t, d), id)];
      assert Entries(t, d)[0] == Own(t, d)[0];
    } else {
      var i := KidWith(t, id);
      KidHasNode(t, i, id);
      EntryOf(t.kids[i], d, id);
      KidEntryIn(t.kids, d, i, Entry(Phandle(At(t, id), d), id));
    }
  }

  lemma {:induction false} KidEntryIn<N(!new), I>(kids: seq<Tree<N, I>>, d: Store<I>, i: nat, e: Entry<N>)
    requires i < |kids| && e in Entries(kids[i], d)
    ensures e in KidEntries(kids, d)
    decreases |kids|
  {
    if i < |kids| - 1 {
      KidEntryIn(kids[..|kids| - 1], d, i, e);
    }
  }

  /** No node is listed twice. */
  lemma {:induction false} EntryOnce<N(!new), I>(t: Tree<N, I>, d: Store<I>, e: Entry<N>)
    requires Separate(t)
    ensures multiset(Entries(t, d))[e] <= 1
    decreases t, 0
  {
    if t.Node? {
      assert multiset(Entries(t, d)) == multiset(Own(t, d)) + multiset(KidEntries(t.kids, d));
      KidEntryOnce(t.kids, d, e);
      if e in KidEntries(t.kids, d) {
        var i := EntryInKid(t.kids, d, e);
        assert SeparateKids(t.kids);
        EntryIs(t.kids[i], d, e);
        KidIdsContain(t.kids, i);
        assert e.node != t.id;
      }
    }
  }

  lemma {:induction false} KidEntryOnce<N(!new), I>(kids: seq<Tree<N, I>>, d: Store<I>, e: Entry<N>)
    requires SeparateKids(kids)
    ensures multiset(KidEntries(kids, d))[e] <= 1
    decreases kids, 0
  {
    if kids != [] {
      var rest, last := kids[..|kids| - 1], kids[|kids| - 1];
      assert SeparateKids(rest);
      assert multiset(KidEntries(kids, d)) == multiset(KidEntries(rest, d)) + multiset(Entries(last, d));
      KidEntryOnce(rest, d, e);
      EntryOnce(last, d, e);
      if e in KidEntries(rest, d) {
        var i := EntryInKid(rest, d, e);
        EntryIs(rest[i], d, e);
        assert Ids(kids[i]) !! Ids(kids[|kids| - 1]);
        if e in Entries(last, d) {
          EntryIs(last, d, e);
        }
      }
    }
  }

  /** A table lists every node with a phandle exactly once, and nothing else. */
  lemma {:induction false} TableLists<N(!new), I>(table: seq<Entry<N>>, t: Tree<N, I>, d: Store<I>)
    requires Separate(t) && IsTable(table, t, d)
    ensures forall e | e in table ::
            HasNode(t, e.node) && e.node in Ids(t) && Tabled(At(t, e.node), d)
            && e.phandle == Phandle(At(t, e.node), d)
    ensures forall id | HasNode(t, id) && id in Ids(t) && Tabled(At(t, id), d) ::
              multiset(table)[Entry(Phandle(At(t, id), d), id)] == 1
    ensures forall i, j | 0 <= i < j < |table| :: table[i].node != table[j].node
  {
    forall e | e in table ensures HasNode(t, e.node) && e.node in Ids(t) && Tabled(At(t, e.node), d)
        && e.phandle == Phandle(At(t, e.node), d) {
      assert e in multiset(table);
      EntryIs(t, d, e);
    }
    forall id | HasNode(t, id) && id in Ids(t) && Tabled(At(t, id), d)
      ensures multiset(table)[Entry(Phandle(At(t, id), d), id)] == 1
    {
      var e := Entry(Phandle(At(t, id), d), id);
      EntryOf(t, d, id);
      EntryOnce(t, d, e);
      assert e in multiset(Entries(t, d));
    }
    forall i, j | 0 <= i < j < |table| ensures table[i].node != table[j].node {
      EntryOnce(t, d, table[i]);
      TwiceInTable(table, i, j);
    }
  }

  lemma {:induction false} TwiceInTable<N(!new)>(table: seq<Entry<N>>, i: nat, j: nat)
    requires i < j < |table|
    ensures table[i] == table[j] ==> multiset(table)[table[i]] >= 2
  {
    assert table == table[..i] + [table[i]] + table[i + 1..];
    assert table[i + 1..][j - i - 1] == table[j];
    assert multiset(table) == multiset(table[..i]) + multiset([table[i]]) + multiset(table[i + 1..]);
  }

  /** The last entry bounds all phandles that are in the table. */
  lemma {:induction false} MaxBounds<N(!new), I>(table: seq<Entry<N>>, t: Tree<N, I>, d: Store<I>, id: N)
    requires Separate(t) && IsTable(table, t, d) && HasNode(t, id) && id in Ids(t) && Tabled(At(t, id), d)
    ensures Phandle(At(t, id), d) <= MaxPhandle(table)
  {
    EntryOf(t, d, id);
    var e := Entry(Phandle(At(t, id), d), id);
    assert e in multiset(Entries(t, d));
    assert e in multiset(table);
    var i :| 0 <= i < |table| && table[i] == e;
    assert i < |table| - 1 ==> table[i].phandle <= table[|table| - 1].phandle;
  }

  /** A phandle that a node has leads back to a node with that phandle. */
  lemma {:induction false} LookupFinds<N(!new), I>(table: seq<Entry<N>>, t: Tree<N, I>, d: Store<I>, id: N)
    requires Separate(t) && IsTable(table, t, d) && HasNode(t, id) && id in Ids(t) && Tabled(At(t, id), d)
    ensures var n := Lookup(table, Phandle(At(t, id), d));
            && n.Some? && HasNode(t, n.value) && n.value in Ids(t)
            && Phandle(At(t, n.value), d) == Phandle(At(t, id), d)
            && (DistinctPhandles(table) ==> n.value == id)
  {
    EntryOf(t, d, id);
    var e := Entry(Phandle(At(t, id), d), id);
    assert e in multiset(Entries(t, d));
    assert e in multiset(table);
    var k :| 0 <= k < |table| && table[k] == e;
    LookupPresent(table, k);
    TableLists(table, t, d);
    if DistinctPhandles(table) {
      LookupExact(table, k);
    }
  }
}
