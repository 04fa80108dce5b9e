/** The phandle table of a linked tree: count, fill, sort and search. */
module Table {
  import opened Bytes
  import opened Blobs
  import opened Trees
  import opened Paths
  import opened Phandles
  import opened NodePool
  import opened Nodes

  /** `count_phandle_node`. */
  method CountPhandleNode(h: NodeHeap, mem: BlobMemory, node: Addr, ghost t: Linked, ghost stale: set<Addr>)
    returns (r: nat)
    requires node != NULL ==> t.id == node && Rep(h.nodes, t, stale)
    ensures r == if node == NULL then 0 else Count(t, mem.values)
    decreases t
  {
    if node == NULL || !h.nodes[node].IsNode() {
      return 0;
    }
    hide Rep;
    RepRoot(h.nodes, t, stale);
    var phandle := h.GetPhandle(mem, node, t, stale);
    r := if phandle > 0 then 1 else 0;
    var it := h.nodes[node].child;
    ghost var i, own := 0, r;
    while it != NULL
      invariant i <= |t.kids| && it == KidAt(t.kids, i)
      invariant r == own + KidCount(t.kids[..i], mem.values)
      decreases |t.kids| - i
    {
      NextKid(h.nodes, t, stale, i);
      var c := CountPhandleNode(h, mem, it, t.kids[i], stale);
      r := r + c;
      it := h.nodes[it].sibling;
      i := i + 1;
    }
    EndOfKids(h.nodes, t, stale, i);
  }

  /** Walking a child list: the next child, and the next prefix. */
  lemma {:induction false} NextKid(m: Memory, t: Linked, stale: set<Addr>, i: nat)
    requires Rep(m, t, stale) && t.Node? && i < |t.kids|
    ensures var x := t.kids[i];
            && x.id != NULL && x.id in m && Rep(m, x, stale)
            && m[x.id].IsNode() == x.Node? && m[x.id].sibling == KidAt(t.kids, i + 1)
    ensures t.kids[..i + 1][..i] == t.kids[..i] && t.kids[..i + 1][i] == t.kids[i] && |t.kids[..i + 1]| == i + 1
  {
    RepKid(m, t, stale, i);
  }

  lemma {:induction false} EndOfKids(m: Memory, t: Linked, stale: set<Addr>, i: nat)
    requires Rep(m, t, stale) && t.Node? && i <= |t.kids| && KidAt(t.kids, i) == NULL
    ensures i == |t.kids| && t.kids[..i] == t.kids
  {
    if i < |t.kids| {
      RepKid(m, t, stale, i);
    }
  }

  /** `set_phandle_table_entry`: fills the table from `cur` on. */
  method SetPhandleTableEntry(h: NodeHeap, mem: BlobMemory, node: Addr, data: array<Entry<Addr>>, cur: nat,
                              ghost t: Linked, ghost stale: set<Addr>) returns (cur': nat)
    requires node != NULL ==> t.id == node && Rep(h.nodes, t, stale)
    requires cur + (if node == NULL then 0 else |Entries(t, mem.values)|) <= data.Length
    modifies data
    ensures cur' == cur + if node == NULL then 0 else |Entries(t, mem.values)|
    ensures data[..cur'] == old(data[..cur]) + if node == NULL then [] else Entries(t, mem.values)
    decreases t
  {
    hide Rep, Entries, KidEntries;
    cur' := cur;
    if node == NULL {
      return;
    }
    RepRoot(h.nodes, t, stale);
    ghost var d, before := mem.values, data[..cur];
    EntriesParts(t, d);
    if !h.nodes[node].IsNode() {
      return;
    }
    var phandle := h.GetPhandle(mem, node, t, stale);
    if 0 < phandle < SIGN_BIT {
      data[cur'] := Entry(phandle, node);
      cur' := cur' + 1;
    }
    var it := h.nodes[node].child;
    ghost var i := 0;
    while it != NULL
      invariant i <= |t.kids| && it == KidAt(t.kids, i)
      invariant cur' <= data.Length && data[..cur'] == FilledSoFar(before, t, d, i)
      decreases |t.kids| - i
    {
      NextKid(h.nodes, t, stale, i);
      OneMoreKid(before, t, d, i);
      if h.nodes[it].IsNode() {
        cur' := SetPhandleTableEntry(h, mem, it, data, cur', t.kids[i], stale);
      }
      it := h.nodes[it].sibling;
      i := i + 1;
    }
    EndOfKids(h.nodes, t, stale, i);
  }

  /** The table after the node itself and its first children. */
  ghost function FilledSoFar(before: seq<Entry<Addr>>, t: Linked, d: Values, i: nat): seq<Entry<Addr>>
    requires t.Node? && i <= |t.kids|
  {
    before + (Own(t, d) + KidEntries(t.kids[..i], d))
  }

  lemma {:induction false} EntriesParts(t: Linked, d: Values)
    ensures t.Node? ==> Entries(t, d) == Own(t, d) + KidEntries(t.kids, d) && KidEntries(t.kids[..0], d) == []
    ensures t.Prop? ==> Entries(t, d) == []
  {
  }

  lemma {:induction false} OneMoreKid(before: seq<Entry<Addr>>, t: Linked, d: Values, i: nat)
    requires t.Node? && i < |t.kids|
    ensures FilledSoFar(before, t, d, i + 1) == FilledSoFar(before, t, d, i) + Entries(t.kids[i], d)
    ensures |FilledSoFar(before, t, d, i + 1)| <= |before| + |Entries(t, d)|
    ensures t.kids[i].Prop? ==> Entries(t.kids[i], d) == []
  {
    hide Entries, KidEntries, Own;
    KidEntriesMore(t.kids, d, i);
    KidEntriesPrefix(t.kids, d, i + 1);
    EntriesParts(t, d);
    EntriesParts(t.kids[i], d);
  }

  lemma {:induction false} KidEntriesMore(kids: seq<Linked>, d: Values, i: nat)
    requires i < |kids|
    ensures KidEntries(kids[..i + 1], d) == KidEntries(kids[..i], d) + Entries(kids[i], d)
  {
    assert kids[..i + 1][..i] == kids[..i];
  }

  lemma {:induction false} KidEntriesPrefix(kids: seq<Linked>, d: Values, i: nat)
    requires i <= |kids|
    ensures |KidEntries(kids[..i], d)| <= |KidEntries(kids, d)|
    decreases |kids|
  {
    if i < |kids| {
      assert kids[..|kids| - 1][..i] == kids[..i];
      KidEntriesPrefix(kids[..|kids| - 1], d, i);
    } else {
      assert kids[..i] == kids;
    }
  }

  /** `ufdt_get_node_by_phandle`: binary search in the sorted table. */
  method GetNodeByPhandle(data: array<Entry<Addr>>, phandle: u32) returns (r: Option<Addr>)
    requires Sorted(data[..])
    ensures r == Lookup(data[..], phandle)
  {
    var s, e := 0, data.Length;
    while e - s > 1
      invariant 0 <= s <= e <= data.Length && (data.Length > 0 ==> s < e)
      invariant s > 0 ==> data[s].phandle <= phandle
      invariant e < data.Length ==> data[e].phandle > phandle
    {
      var mid := s + (e - s) / 2;
      if phandle < data[mid].phandle {
        e := mid;
      } else {
        s := mid;
      }
    }
    if e - s > 0 {
      FloorUnique(data[..], phandle, s);
      return Some(data[s].node);
    }
    return None;
  }

  lemma {:induction false} FloorUnique<N(!new)>(table: seq<Entry<N>>, phandle: u32, i: nat)
    requires Sorted(table) && i < |table|
    requires i > 0 ==> table[i].phandle <= phandle
    requires i + 1 < |table| ==> table[i + 1].phandle > phandle
    ensures Floor(table, phandle) == i
    decreases |table|
  {
    if i + 1 < |table| {
      assert table[|table| - 1].phandle >= table[i + 1].phandle;
      FloorUnique(table[..|table| - 1], phandle, i);
    }
  }

  /** The sort behind the table: insertion from the left. */
  method SortEntries(data: array<Entry<Addr>>)
    modifies data
    ensures Sorted(data[..])
    ensures multiset(data[..]) == old(multiset(data[..]))
  {
    var i := 0;
    while i < data.Length
      invariant i <= data.Length
      invariant Sorted(data[..i])
      invariant multiset(data[..]) == old(multiset(data[..]))
    {
      SinkEntry(data, i);
      i := i + 1;
    }
    assert data[..i] == data[..];
  }

  /** All of a table's first `i + 1` entries but the one at `j` are in order. */
  ghost predicate SortedBut(s: seq<Entry<Addr>>, i: nat, j: nat)
    requires i < |s|
  {
    forall a, b | 0 <= a < b <= i && b != j :: s[a].phandle <= s[b].phandle
  }

  /** Moves entry `i` down to its place. */
  method SinkEntry(data: array<Entry<Addr>>, i: nat)
    requires i < data.Length && Sorted(data[..i])
    modifies data
    ensures Sorted(data[..i + 1])
    ensures multiset(data[..]) == old(multiset(data[..]))
  {
    var j := i;
    while j > 0 && data[j].phandle < data[j - 1].phandle
      invariant 0 <= j <= i
      invariant SortedBut(data[..], i, j)
      invariant multiset(data[..]) == old(multiset(data[..]))
    {
      SwapKeepsOrder(data[..], i, j);
      ghost var s := data[..];
      data[j], data[j - 1] := data[j - 1], data[j];
      assert data[..] == s[j := s[j - 1]][j - 1 := s[j]];
      SwapPermutes(s, j);
      j := j - 1;
    }
  }

  lemma {:induction false} SwapKeepsOrder(s: seq<Entry<Addr>>, i: nat, j: nat)
    requires 0 < j <= i < |s| && SortedBut(s, i, j) && s[j].phandle < s[j - 1].phandle
    ensures SortedBut(s[j := s[j - 1]][j - 1 := s[j]], i, j - 1)
  {
  }

  lemma {:induction false} SwapPermutes(s: seq<Entry<Addr>>, j: nat)
    requires 0 < j < |s|
    ensures multiset(s[j := s[j - 1]][j - 1 := s[j]]) == multiset(s)
  {
  }

  /** The sorted entries of a tree, and what was in memory where the count exceeds what was filled in. */
  ghost predicate SortedWith(table: seq<Entry<Addr>>, unwritten: seq<Entry<Addr>>, t: Linked, d: Values) {
    && Sorted(table) && |table| == Count(t, d)
    && multiset(table) == multiset(Entries(t, d)) + multiset(unwritten)
    && (unwritten == [] <==> Signed(t, d))
  }

  /** With phandles below 2^31 nothing is left unwritten. */
  lemma {:induction false} AllWritten(table: seq<Entry<Addr>>, unwritten: seq<Entry<Addr>>, t: Linked, d: Values)
    requires SortedWith(table, unwritten, t, d) && Signed(t, d)
    ensures IsTable(table, t, d)
  {
  }

  lemma {:induction false} FilledTable(filled: seq<Entry<Addr>>, table: seq<Entry<Addr>>, unwritten: seq<Entry<Addr>>,
                                       t: Linked, d: Values)
    requires filled == Entries(t, d) + unwritten && |filled| == Count(t, d)
    requires Sorted(table) && multiset(table) == multiset(filled)
    ensures SortedWith(table, unwritten, t, d)
  {
    hide Entries, Count, Signed, Sorted;
    CountIsFill(t, d);
    assert |multiset(table)| == |multiset(filled)|;
  }

  /** `build_phandle_table`: the table has the length that was counted. */
  method BuildPhandleTable(h: NodeHeap, mem: BlobMemory, root: Addr, ghost t: Linked, ghost stale: set<Addr>)
    returns (data: array<Entry<Addr>>, ghost unwritten: seq<Entry<Addr>>)
    requires root != NULL ==> t.id == root && Rep(h.nodes, t, stale)
    ensures fresh(data)
    ensures if root == NULL then data.Length == 0 else SortedWith(data[..], unwritten, t, mem.values)
  {
    hide Rep, Entries, Count, Signed, Sorted, SortedWith;
    unwritten := [];
    var len := CountPhandleNode(h, mem, root, t, stale);
    data := new Entry<Addr>[len];
    if root != NULL {
      CountIsFill(t, mem.values);
    }
    var cur := SetPhandleTableEntry(h, mem, root, data, 0, t, stale);
    ghost var filled := data[..];
    SortEntries(data);
    if root != NULL {
      unwritten := filled[cur..];
      assert filled == filled[..cur] + unwritten;
      FilledTable(filled, data[..], unwritten, t, mem.values);
    }
  }
}
