/**
 * Linked tree nodes: construction, appending, lookup, in-place merge and destruction.
 *
 * Node structures live at pool addresses. `NodeHeap.nodes` is the memory that holds them: it maps
 * exactly the live entries of the pool to their current contents and is updated in place, so
 * aliasing, pointers to link fields and the use of freed entries are all visible.
 */
module Nodes {
  import opened Bytes
  import opened Blobs
  import opened Trees
  import opened MergeLaws
  import opened NodePool
  import opened Paths
  import opened Phandles

  /** `struct ufdt_node **`: the child link of a node or the sibling link of one. */
  datatype Slot = ChildOf(owner: Addr) | SiblingOf(owner: Addr)

  /** `struct ufdt_node_fdt_node` and `struct ufdt_node_fdt_prop`, which share one entry size. */
  datatype UfdtNode = UfdtNode(
    tag: FdtTag,
    namePtr: StrPtr,
    sibling: Addr,
    child: Addr,
    lastChildP: Slot)
  {
    predicate IsNode() {
      tag.kind == BeginNode
    }

    /** Only properties and nodes are appended. */
    predicate CanBeChild() {
      tag.kind == Property || tag.kind == BeginNode
    }

    /** `ufdt_node_name`. */
    function Name(): string {
      if IsNode() then tag.name else namePtr.Text()
    }
  }

  type Memory = map<Addr, UfdtNode>

  /** A linked tree: labels are addresses, properties hold their record in a blob. */
  type Linked = Tree<Addr, FdtTag>

  /** The child at `i`, or the NULL that ends the list. */
  function KidAt(kids: seq<Linked>, i: nat): Addr {
    if i < |kids| then kids[i].id else NULL
  }

  /** The slot that holds the NULL ending the child list. */
  function LastSlot(n: Addr, kids: seq<Linked>): Slot {
    if kids == [] then ChildOf(n) else SiblingOf(kids[|kids| - 1].id)
  }

  /** The address of a node that was looked up. */
  function IdOf(t: Option<Linked>): Addr {
    if t.None? then NULL else t.value.id
  }

  /** Child `i` is a live entry linked to the following one. */
  ghost predicate LinkedKid(m: Memory, kids: seq<Linked>, i: nat)
    requires i < |kids|
  {
    kids[i].id in m && m[kids[i].id].sibling == KidAt(kids, i + 1)
  }

  /**
   * The memory holds the tree `t`: entries are live, links, tags and names agree, and the tail
   * pointer of every node is the slot that holds the terminating NULL. The sibling link of the root
   * belongs to its parent. Nodes in `stale` were emptied by a merge, which leaves their tail pointer
   * behind.
   */
  ghost predicate Rep(m: Memory, t: Linked, stale: set<Addr>)
    decreases t
  {
    && t.id != NULL && t.id in m && m[t.id].Name() == t.name && m[t.id].IsNode() == t.Node?
    && match t
       case Prop(n, _, data) => m[n].tag == data && data.kind == Property
       case Node(n, _, kids) =>
         && m[n].child == KidAt(kids, 0)
         && (n !in stale ==> m[n].lastChildP == LastSlot(n, kids))
         && RepKids(m, kids, stale)
  }

  ghost predicate RepKids(m: Memory, kids: seq<Linked>, stale: set<Addr>)
    decreases kids
  {
    forall i | 0 <= i < |kids| :: LinkedKid(m, kids, i) && Rep(m, kids[i], stale)
  }

  /** Two memories agree on a tree, the sibling link of its root aside. */
  ghost predicate SameTree(m: Memory, m': Memory, t: Linked) {
    && (forall n | n in Ids(t) && n != t.id && n in m :: n in m' && m'[n] == m[n])
    && (t.id in m ==> t.id in m' && m'[t.id].(sibling := m[t.id].sibling) == m[t.id])
  }

  /** Memory outside a tree, and the sibling link of its root, do not matter to it. */
  lemma {:induction false} RepFrame(m: Memory, m': Memory, t: Linked, stale: set<Addr>)
    requires Rep(m, t, stale) && Separate(t) && SameTree(m, m', t)
    ensures Rep(m', t, stale)
    decreases t
  {
    if t.Node? {
      forall i | 0 <= i < |t.kids| ensures LinkedKid(m', t.kids, i) && Rep(m', t.kids[i], stale) {
        assert LinkedKid(m, t.kids, i);
        KidIdsContain(t.kids, i);
        RepFrame(m, m', t.kids[i], stale);
      }
    }
  }

  /** A child of a represented node is linked and represented. */
  lemma {:induction false} RepKid(m: Memory, t: Linked, stale: set<Addr>, i: nat)
    requires Rep(m, t, stale) && t.Node? && i < |t.kids|
    ensures LinkedKid(m, t.kids, i) && Rep(m, t.kids[i], stale)
  {
    assert RepKids(m, t.kids, stale);
  }

  /** Entries that remain keep their kind and name pointer. */
  ghost predicate SameNames(m: Memory, m': Memory) {
    forall n | n in m' :: n in m && m'[n].namePtr == m[n].namePtr && m'[n].tag.kind == m[n].tag.kind
  }

  /** Nothing outside `s` changed, and no entry outside `s` came or went. */
  ghost predicate SameOutside(m: Memory, m': Memory, s: set<Addr>) {
    forall n | n !in s :: (n in m' <==> n in m) && (n in m ==> m'[n] == m[n])
  }

  lemma {:induction false} RepRoot(m: Memory, t: Linked, stale: set<Addr>)
    requires Rep(m, t, stale)
    ensures t.id != NULL && t.id in m && m[t.id].IsNode() == t.Node? && m[t.id].Name() == t.name
    ensures t.Node? ==> m[t.id].child == KidAt(t.kids, 0)
    ensures t.Prop? ==> m[t.id].tag == t.data
  {
  }

  /** While the children before `i` are gone, child `i` is untouched. */
  lemma {:induction false} NextToFree(m: Memory, t: Linked, i: nat, stale: set<Addr>)
    requires Rep(m, t, stale) && Separate(t) && t.Node? && i < |t.kids|
    ensures var x, m' := t.kids[i], m - KidIds(t.kids[..i]);
            && Rep(m', x, stale) && Separate(x) && x.id != NULL
            && x.id in m' && m'[x.id].sibling == KidAt(t.kids, i + 1)
    ensures m - KidIds(t.kids[..i]) - Ids(t.kids[i]) == m - KidIds(t.kids[..i + 1])
    ensures t.id !in KidIds(t.kids[..i + 1])
  {
    hide Rep, Ids, KidIds, Separate;
    RepKid(m, t, stale, i);
    ToFree(m, t, i, stale);
    RepOutside(m, m - KidIds(t.kids[..i]), t.kids[i], stale, KidIds(t.kids[..i]));
  }

  lemma {:induction false} ToFree(m: Memory, t: Linked, i: nat, stale: set<Addr>)
    requires Rep(m, t, stale) && Separate(t) && t.Node? && i < |t.kids|
    ensures Separate(t.kids[i]) && Ids(t.kids[i]) !! KidIds(t.kids[..i]) && t.kids[i].id in Ids(t.kids[i])
    ensures t.kids[i].id != NULL && t.id !in KidIds(t.kids[..i + 1])
    ensures KidIds(t.kids[..i + 1]) == KidIds(t.kids[..i]) + Ids(t.kids[i])
    ensures SameOutside(m, m - KidIds(t.kids[..i]), KidIds(t.kids[..i]))
  {
    RepKid(m, t, stale, i);
    KidIdsContain(t.kids, i);
    KidIdsSplit(t.kids, i);
    assert SeparateKids(t.kids);
  }

  lemma {:induction false} NothingFreed(m: Memory, t: Linked)
    ensures t.Prop? ==> Ids(t) == {t.id}
    ensures t.Node? ==> m - KidIds(t.kids[..0]) == m
  {
  }

  lemma {:induction false} AllFreed(m: Memory, t: Linked)
    requires t.Node? && Separate(t) && t.id in m
    ensures t.kids[..|t.kids|] == t.kids && t.id in m - KidIds(t.kids)
    ensures m - KidIds(t.kids) - {t.id} == m - Ids(t)
  {
    assert t.kids[..|t.kids|] == t.kids;
  }

  lemma {:induction false} PathStart(m: Memory, node: Addr, t: Linked, stale: set<Addr>, path: string)
    requires node != NULL ==> t.id == node && Rep(m, t, stale)
    ensures path[0..] == path && CountedComponents(path, false) == Components(path)
  {
  }

  lemma {:induction false} PathSlash<N, D>(c: Tree<N, D>, path: string, pos: nat, nul: bool)
    requires pos < |path| && path[pos] == '/'
    ensures CountedComponents(path[pos..], nul) == CountedComponents(path[pos + 1..], nul)
  {
    assert path[pos..][1..] == path[pos + 1..];
  }

  lemma {:induction false} PathEnd<N, D>(c: Tree<N, D>, path: string)
    ensures Descend(c, CountedComponents(path[|path|..], false)) == Some(c)
  {
  }

  /** One component: the walk goes on in the child of that name, or fails. */
  lemma {:induction false} PathStep(m: Memory, c: Linked, stale: set<Addr>, path: string, pos: nat, nul: bool, k: nat)
    requires pos <= |path| && k == IndexOf(path[pos..], '/') && if pos < |path| then path[pos] != '/' else nul
    ensures k <= |path| - pos && (pos < |path| ==> k > 0)
    ensures var i := if c.Node? then Find(c.kids, true, path[pos..][..k]) else 0;
            Descend(c, CountedComponents(path[pos..], nul)) ==
              if c.Prop? || i == |c.kids| then None
              else Descend(c.kids[i], CountedComponents(path[pos + k..], nul && pos + k < |path|))
    ensures Rep(m, c, stale) && c.Node? && Find(c.kids, true, path[pos..][..k]) < |c.kids| ==>
              var x := c.kids[Find(c.kids, true, path[pos..][..k])];
              Rep(m, x, stale) && x.id != NULL
  {
    var name := path[pos..][..k];
    var rest := CountedComponents(path[pos + k..], nul && pos + k < |path|);
    FirstComponent(path[pos..], nul, k);
    assert path[pos..][k..] == path[pos + k..];
    assert ([name] + rest)[1..] == rest;
    if Rep(m, c, stale) && c.Node? && Find(c.kids, true, name) < |c.kids| {
      RepKid(m, c, stale, Find(c.kids, true, name));
    }
  }

  /** The first component, and the ones behind it. */
  lemma {:induction false} FirstComponent(p: string, nul: bool, k: nat)
    requires k == IndexOf(p, '/') && if p != "" then p[0] != '/' else nul
    ensures CountedComponents(p, nul) == [p[..k]] + CountedComponents(p[k..], nul && k < |p|)
  {
    if p == "" {
      assert Components(p) == [] && p[k..] == "";
    } else {
      assert Components(p) == [p[..k]] + Components(p[k..]);
      hide Components, IndexOf;
      if k < |p| {
        assert p[|p| - 1] == p[k..][|p| - k - 1];
      }
    }
  }

  /** The memory after `*slot = n`. */
  function WriteSlot(m: Memory, slot: Slot, n: Addr): Memory
    requires slot.owner in m
  {
    if slot.ChildOf? then m[slot.owner := m[slot.owner].(child := n)]
    else m[slot.owner := m[slot.owner].(sibling := n)]
  }

  class NodeHeap {
    const pool: Pool
    var nodes: Memory

    /** The pool's live entries are exactly the entries that hold a structure. */
    ghost predicate Valid()
      reads this, pool, pool.blocks, pool.members
    {
      pool.Valid() && pool.Live() == nodes.Keys
    }

    constructor ()
      ensures Valid() && nodes == map[]
      ensures fresh(pool) && fresh(pool.members)
    {
      pool := new Pool();
      nodes := map[];
    }

    /** `ufdt_node_construct`. */
    method Construct(fdt: Fdt, tag: FdtTag) returns (n: Addr)
      requires Valid()
      modifies this, pool, pool.members
      ensures Valid() && fresh(pool.members - old(pool.members))
      ensures n != NULL && n !in old(nodes)
      ensures nodes == old(nodes)[n := UfdtNode(tag, StrPtr(fdt, tag.nameoff), NULL, NULL, ChildOf(n))]
    {
      hide Pool.Valid;
      n := pool.Alloc();
      nodes := nodes[n := UfdtNode(tag, StrPtr(fdt, tag.nameoff), NULL, NULL, ChildOf(n))];
    }

    /** `ufdt_node_destruct`: frees every node of the tree, each once. */
    method Destruct(node: Addr, ghost t: Linked, ghost stale: set<Addr>)
      requires Valid()
      requires node != NULL ==> t.id == node && Rep(nodes, t, stale) && Separate(t)
      modifies this, pool, pool.members
      ensures Valid() && pool.members <= old(pool.members)
      ensures nodes == if node == NULL then old(nodes) else old(nodes) - Ids(t)
      decreases t
    {
      hide Valid, Rep, KidIds, Ids, Separate;
      if node == NULL {
        return;
      }
      ghost var m := nodes;
      RepRoot(m, t, stale);
      NothingFreed(m, t);
      if nodes[node].IsNode() {
        var it := nodes[node].child;
        ghost var i := 0;
        while it != NULL
          invariant Valid() && pool.members <= old(pool.members)
          invariant i <= |t.kids| && it == KidAt(t.kids, i)
          invariant nodes == m - KidIds(t.kids[..i])
          decreases |t.kids| - i
        {
          NextToFree(m, t, i, stale);
          var next := nodes[it].sibling;
          Destruct(it, t.kids[i], stale);
          it := next;
          i := i + 1;
        }
        if i < |t.kids| {
          NextToFree(m, t, i, stale);
        }
        AllFreed(m, t);
      }
      Free(node);
    }

    /** `*slot = n`. */
    method Store(slot: Slot, n: Addr)
      requires Valid() && slot.owner in nodes
      modifies `nodes
      ensures Valid() && nodes == WriteSlot(old(nodes), slot, n)
    {
      match slot {
        case ChildOf(o) => nodes := nodes[o := nodes[o].(child := n)];
        case SiblingOf(o) => nodes := nodes[o := nodes[o].(sibling := n)];
      }
    }

    /** `n->sibling = s`. */
    method SetSibling(n: Addr, s: Addr)
      requires Valid() && n in nodes
      modifies `nodes
      ensures Valid() && nodes == old(nodes)[n := old(nodes)[n].(sibling := s)]
    {
      nodes := nodes[n := nodes[n].(sibling := s)];
    }

    /** `n->child = c`. */
    method SetChild(n: Addr, c: Addr)
      requires Valid() && n in nodes
      modifies `nodes
      ensures Valid() && nodes == old(nodes)[n := old(nodes)[n].(child := c)]
    {
      nodes := nodes[n := nodes[n].(child := c)];
    }

    /** `n->last_child_p = slot`. */
    method SetLastChildP(n: Addr, slot: Slot)
      requires Valid() && n in nodes
      modifies `nodes
      ensures Valid() && nodes == old(nodes)[n := old(nodes)[n].(lastChildP := slot)]
    {
      nodes := nodes[n := nodes[n].(lastChildP := slot)];
    }

    /** `n->fdt_tag_ptr = tag`. */
    method SetTag(n: Addr, tag: FdtTag)
      requires Valid() && n in nodes
      modifies `nodes
      ensures Valid() && nodes == old(nodes)[n := old(nodes)[n].(tag := tag)]
    {
      nodes := nodes[n := nodes[n].(tag := tag)];
    }

    /** `ufdt_node_add_child`: appends through the tail pointer. */
    method AddChild(parent: Addr, child: Addr, ghost tp: Linked, ghost tc: Linked) returns (err: int)
      requires Valid()
      requires (parent != NULL ==> parent in nodes) && (child != NULL ==> child in nodes)
      requires parent != NULL && child != NULL && nodes[parent].IsNode() && nodes[child].CanBeChild() ==>
                 && tp.id == parent && tp.Node? && Rep(nodes, tp, {}) && Separate(tp)
                 && tc.id == child && Rep(nodes, tc, {}) && Separate(tc) && Ids(tp) !! Ids(tc)
                 && nodes[child].sibling == NULL
      modifies `nodes
      ensures Valid()
      ensures err == if parent == NULL || child == NULL || !old(nodes[parent].IsNode())
              || !old(nodes[child].CanBeChild()) then -1 else 0
      ensures err != 0 ==> nodes == old(nodes)
      ensures err == 0 ==>
                && Rep(nodes, tp.(kids := tp.kids + [tc]), {})
                && SameOutside(old(nodes), nodes, Ids(tp)) && nodes.Keys == old(nodes.Keys)
                && SameNames(old(nodes), nodes)
                && nodes[parent].sibling == old(nodes[parent].sibling)
    {
      if parent == NULL || child == NULL {
        return -1;
      }
      if !nodes[parent].IsNode() {
        return -1;
      }
      if !nodes[child].CanBeChild() {
        return -1;
      }
      hide Valid, Rep, Separate, Ids, SameOutside;
      ghost var m := nodes;
      AppendSlot(m, tp);
      Store(nodes[parent].lastChildP, child);
      ghost var m' := nodes;
      SetLastChildP(parent, SiblingOf(child));
      Appended(m, m', nodes, tp, tc);
      err := 0;
    }

    /** First child of the given kind and name, in the order of the sibling links. */
    method GetChild(node: Addr, isNode: bool, name: string, ghost t: Linked, ghost stale: set<Addr>) returns (r: Addr)
      requires node != NULL ==> t.id == node && Rep(nodes, t, stale)
      ensures r == if node == NULL || t.Prop? then NULL else KidAt(t.kids, Find(t.kids, isNode, name))
    {
      hide Rep, Find;
      if node != NULL {
        RepRoot(nodes, t, stale);
      }
      if node == NULL || !nodes[node].IsNode() {
        return NULL;
      }
      r := nodes[node].child;
      ghost var i := 0;
      while r != NULL
        invariant i <= |t.kids| && r == KidAt(t.kids, i)
        invariant forall j | 0 <= j < i :: !Named(t.kids[j], isNode, name)
        decreases |t.kids| - i
      {
        RepKid(nodes, t, stale, i);
        RepRoot(nodes, t.kids[i], stale);
        if nodes[r].IsNode() == isNode && nodes[r].Name() == name {
          break;
        }
        r := nodes[r].sibling;
        i := i + 1;
      }
      if i < |t.kids| {
        RepKid(nodes, t, stale, i);
        RepRoot(nodes, t.kids[i], stale);
      }
      FindIs(t.kids, isNode, name, i);
    }

    /** `ufdt_node_get_subnode_by_name`. */
    method GetSubnode(node: Addr, name: string, ghost t: Linked, ghost stale: set<Addr>) returns (r: Addr)
      requires node != NULL ==> t.id == node && Rep(nodes, t, stale)
      ensures r == if node == NULL || t.Prop? then NULL else KidAt(t.kids, Find(t.kids, true, name))
    {
      r := GetChild(node, true, name, t, stale);
    }

    /** `ufdt_node_get_property_by_name`. */
    method GetProperty(node: Addr, name: string, ghost t: Linked, ghost stale: set<Addr>) returns (r: Addr)
      requires node != NULL ==> t.id == node && Rep(nodes, t, stale)
      ensures r == if node == NULL || t.Prop? then NULL else KidAt(t.kids, Find(t.kids, false, name))
    {
      r := GetChild(node, false, name, t, stale);
    }

    /** `ufdt_node_get_fdt_prop_data`. */
    method GetPropData(node: Addr) returns (r: Option<FdtTag>)
      requires node != NULL ==> node in nodes
      ensures r == if node == NULL || nodes[node].tag.kind != Property then None else Some(nodes[node].tag)
    {
      if node == NULL || nodes[node].tag.kind != Property {
        return None;
      }
      return Some(nodes[node].tag);
    }

    /** `ufdt_node_get_fdt_prop_data_by_name`. */
    method GetPropDataByName(node: Addr, name: string, ghost t: Linked, ghost stale: set<Addr>)
      returns (r: Option<FdtTag>)
      requires node != NULL ==> t.id == node && Rep(nodes, t, stale)
      ensures r == if node == NULL then None else PropOf(t, name)
    {
      var p := GetProperty(node, name, t, stale);
      if p != NULL {
        RepKid(nodes, t, stale, Find(t.kids, false, name));
      } else if node != NULL && t.Node? && Find(t.kids, false, name) < |t.kids| {
        RepKid(nodes, t, stale, Find(t.kids, false, name));
      }
      r := GetPropData(p);
    }

    /** `ufdt_node_get_phandle`. */
    method GetPhandle(mem: BlobMemory, node: Addr, ghost t: Linked, ghost stale: set<Addr>) returns (r: u32)
      requires node != NULL ==> t.id == node && Rep(nodes, t, stale)
      ensures r == if node == NULL then 0 else Phandle(t, mem.values)
    {
      if node == NULL || !nodes[node].IsNode() {
        return 0;
      }
      var p := GetPropDataByName(node, "phandle", t, stale);
      if p.None? || |Val(mem.values, p.value)| != CELL {
        p := GetPropDataByName(node, "linux,phandle", t, stale);
        if p.None? || |Val(mem.values, p.value)| != CELL {
          return 0;
        }
      }
      r := Get32(Val(mem.values, p.value), 0);
    }

    /** `ufdt_node_get_node_by_path`: the length is that of the path. */
    method GetNodeByPath(node: Addr, path: string, ghost t: Linked, ghost stale: set<Addr>) returns (cur: Addr)
      requires node != NULL ==> t.id == node && Rep(nodes, t, stale)
      ensures cur == if node == NULL then NULL else IdOf(Resolve(t, path))
    {
      hide Rep, Components, Descend;
      PathStart(nodes, node, t, stale, path);
      cur := GetNodeByPathLen(node, path, false, t, stale);
    }

    /**
     * `ufdt_node_get_node_by_path_len`: skips slashes and descends one component at a time; `nul` says that
     * the length counts the NUL behind the path.
     */
    method GetNodeByPathLen(node: Addr, path: string, nul: bool, ghost t: Linked, ghost stale: set<Addr>)
      returns (cur: Addr)
      requires node != NULL ==> t.id == node && Rep(nodes, t, stale)
      ensures cur == if node == NULL then NULL else IdOf(Descend(t, CountedComponents(path, nul)))
    {
      hide Rep, CountedComponents, Descend;
      cur := node;
      ghost var c := t;
      var pos, more := 0, nul;
      PathStart(nodes, node, t, stale, path);
      while pos < |path| || more
        invariant pos <= |path|
        invariant node == NULL ==> cur == NULL
        invariant node != NULL ==>
                cur != NULL && c.id == cur && Rep(nodes, c, stale)
                && Descend(t, CountedComponents(path, nul)) == Descend(c, CountedComponents(path[pos..], more))
        decreases |path| - pos, more
      {
        while pos < |path| && path[pos] == '/'
          invariant pos <= |path|
          invariant node != NULL ==>
                  Descend(t, CountedComponents(path, nul)) == Descend(c, CountedComponents(path[pos..], more))
        {
          PathSlash(c, path, pos, more);
          pos := pos + 1;
        }
        if pos == |path| && !more {
          PathEnd(c, path);
          return cur;
        }
        var k := IndexOf(path[pos..], '/');
        PathStep(nodes, c, stale, path, pos, more, k);
        var name := path[pos..][..k];
        cur := GetSubnode(cur, name, c, stale);
        more := more && pos + k < |path|;
        pos := pos + k;
        if cur == NULL {
          return cur;
        }
        c := c.kids[Find(c.kids, true, name)];
      }
      PathEnd(c, path);
    }

    /** The child of `a` that the node at `cur` is to be merged into. */
    method GetMatch(a: Addr, cur: Addr, ghost ta: Linked) returns (r: Addr)
      requires a != NULL && ta.id == a && ta.Node? && Rep(nodes, ta, {}) && cur in nodes
      ensures r == KidAt(ta.kids, Find(ta.kids, nodes[cur].IsNode(), nodes[cur].Name()))
    {
      if nodes[cur].IsNode() {
        r := GetSubnode(a, nodes[cur].Name(), ta, {});
      } else {
        r := GetProperty(a, nodes[cur].Name(), ta, {});
      }
    }

    /** `ufdt_node_pool_free` of a live node. */
    method Free(n: Addr)
      requires Valid() && n in nodes
      modifies this, pool, pool.members
      ensures Valid() && pool.members <= old(pool.members)
      ensures nodes == old(nodes) - {n}
    {
      hide Pool.Valid;
      pool.Free(n);
      nodes := nodes - {n};
    }

    /**
     * `ufdt_node_merge_into`: the source's children move into the target or are freed, each once;
     * a property takes over the source's record.
     */
    method MergeInto(a: Addr, b: Addr, ghost ta: Linked, ghost tb: Linked) returns (err: int)
      requires Valid() && Mergeable(nodes, ta, tb) && ta.id == a && tb.id == b
      modifies this, pool, pool.members
      ensures err == 0
      ensures Valid() && pool.members <= old(pool.members)
      ensures Merged(old(nodes), nodes, ta, tb)
      decreases tb, 1
    {
      hide Valid, Mergeable, Merged, Rep, Ids, KidIds, Separate;
      MergeableRoots(nodes, ta, tb);
      if !nodes[a].IsNode() {
        SetTag(a, nodes[b].tag);
        PropertyMerged(old(nodes), nodes, ta, tb);
        return 0;
      }
      err := MergeChildren(a, b, ta, tb);
    }

    /** `merge_children`. */
    method MergeChildren(a: Addr, b: Addr, ghost ta: Linked, ghost tb: Linked) returns (err: int)
      requires Valid() && Mergeable(nodes, ta, tb) && ta.id == a && tb.id == b && ta.Node? && tb.Node?
      modifies this, pool, pool.members
      ensures err == 0
      ensures Valid() && pool.members <= old(pool.members)
      ensures Merged(old(nodes), nodes, ta, tb)
      decreases tb, 0
    {
      hide Valid, Mergeable, Attachable, TakenIn, Merged, TakenInUpTo, Rep, Ids, KidIds, Separate, MergeKids;
      MergeableRoots(nodes, ta, tb);
      ghost var m, kids := nodes, tb.kids;
      var it := nodes[b].child;
      ghost var i := 0;
      NothingTakenIn(m, ta, tb);
      while it != NULL
        invariant Valid() && pool.members <= old(pool.members)
        invariant i <= |kids| && it == KidAt(kids, i)
        invariant TakenInUpTo(m, nodes, ta, tb, i)
        decreases |kids| - i
      {
        NextToTakeIn(m, nodes, ta, tb, i);
        var cur := it;
        it := nodes[it].sibling;
        ghost var m' := nodes;
        err := TakeIn(a, cur, ta.(kids := MergeKids(ta.kids, kids[..i])), kids[i]);
        OneMoreTakenIn(m, m', nodes, ta, tb, i);
        if err < 0 {
          return -1;
        }
        i := i + 1;
      }
      if i < |kids| {
        NextToTakeIn(m, nodes, ta, tb, i);
      }
      AllTakenIn(m, nodes, ta, tb, i);
      SetChild(b, NULL);
      return 0;
    }

    /** The body of that loop: one child of the source moves, or is merged and freed. */
    method TakeIn(a: Addr, cur: Addr, ghost ta: Linked, ghost x: Linked) returns (err: int)
      requires Valid() && Attachable(nodes, ta, x) && ta.id == a && x.id == cur
      modifies this, pool, pool.members
      ensures err == 0
      ensures Valid() && pool.members <= old(pool.members)
      ensures TakenIn(old(nodes), nodes, ta, x)
      decreases x, 2
    {
      hide Valid, Mergeable, Attachable, Merged, TakenIn, Rep, Ids, KidIds, Separate, SameOutside, MergeKid;
      AttachableRoots(nodes, ta, x);
      ghost var m0 := nodes;
      SetSibling(cur, NULL);
      ghost var m1 := nodes;
      Detached(m0, m1, ta, x);
      var target := GetMatch(a, cur, ta);
      ghost var k := Find(ta.kids, x.Node?, x.name);
      if k < |ta.kids| {
        KidMergeable(m1, ta, k, x);
      }
      if target == NULL {
        err := AddChild(a, cur, ta, x);
        AppendedIsTakenIn(m0, m1, nodes, ta, x);
      } else {
        err := MergeInto(target, cur, ta.kids[k], x);
        ghost var m2 := nodes;
        MergedRoots(m1, m2, ta.kids[k], x);
        Free(cur);
        MergedIsTakenIn(m0, m1, m2, nodes, ta, k, x);
      }
    }
  }

  // ---------------------------------------------------------------- what the merge methods establish

  /** Two separate linked trees of one kind. */
  ghost predicate Mergeable(m: Memory, ta: Linked, tb: Linked) {
    && Rep(m, ta, {}) && Separate(ta) && Rep(m, tb, {}) && Separate(tb)
    && ta.Node? == tb.Node? && Ids(ta) !! Ids(tb)
  }

  ghost predicate Attachable(m: Memory, ta: Linked, x: Linked) {
    && Rep(m, ta, {}) && Separate(ta) && Rep(m, x, {}) && Separate(x)
    && ta.Node? && Ids(ta) !! Ids(x)
  }

  /**
   * The target holds the merge; the source is empty; of the source's nodes exactly those that are
   * not part of the result were freed; nothing else changed.
   */
  ghost predicate Merged(m: Memory, m': Memory, ta: Linked, tb: Linked)
    requires ta.Node? == tb.Node?
  {
    && Rep(m', Merge(ta, tb), {})
    && SameOutside(m, m', Ids(ta) + Ids(tb))
    && m'.Keys == m.Keys - (Ids(tb) - {tb.id} - Ids(Merge(ta, tb)))
    && SameNames(m, m')
    && ta.id in m && ta.id in m' && m'[ta.id].sibling == m[ta.id].sibling
    && tb.id in m && tb.id in m' && m'[tb.id] == m[tb.id].(child := if tb.Node? then NULL else m[tb.id].child)
  }

  ghost predicate TakenIn(m: Memory, m': Memory, ta: Linked, x: Linked)
    requires ta.Node?
  {
    && Rep(m', ta.(kids := MergeKid(ta.kids, x)), {})
    && SameOutside(m, m', Ids(ta) + Ids(x))
    && m'.Keys == m.Keys - (Ids(x) - KidIds(MergeKid(ta.kids, x)))
    && SameNames(m, m')
    && ta.id in m && ta.id in m' && m'[ta.id].sibling == m[ta.id].sibling
  }

  ghost predicate TakenInUpTo(m: Memory, m': Memory, ta: Linked, tb: Linked, i: nat)
    requires ta.Node? && tb.Node? && i <= |tb.kids|
  {
    && Rep(m', ta.(kids := MergeKids(ta.kids, tb.kids[..i])), {})
    && SameOutside(m, m', Ids(ta) + KidIds(tb.kids[..i]))
    && m'.Keys == m.Keys - (KidIds(tb.kids[..i]) - KidIds(MergeKids(ta.kids, tb.kids[..i])))
    && SameNames(m, m')
    && ta.id in m && ta.id in m' && m'[ta.id].sibling == m[ta.id].sibling
  }

  lemma {:induction false} MergeableRoots(m: Memory, ta: Linked, tb: Linked)
    requires Mergeable(m, ta, tb)
    ensures ta.id in m && tb.id in m && m[ta.id].IsNode() == ta.Node? == tb.Node?
    ensures tb.Node? ==> m[tb.id].child == KidAt(tb.kids, 0)
  {
  }

  lemma {:induction false} AttachableRoots(m: Memory, ta: Linked, x: Linked)
    requires Attachable(m, ta, x)
    ensures ta.Node? && ta.id != NULL && x.id != NULL && x.id in m && m[x.id].Name() == x.name
            && m[x.id].IsNode() == x.Node?
  {
  }

  lemma {:induction false} MergedRoots(m: Memory, m': Memory, ta: Linked, tb: Linked)
    requires ta.Node? == tb.Node? && Merged(m, m', ta, tb)
    ensures tb.id in m'
  {
  }

  lemma {:induction false} PropertyMerged(m: Memory, m': Memory, ta: Linked, tb: Linked)
    requires Mergeable(m, ta, tb) && ta.Prop?
    requires ta.id in m && tb.id in m && m' == m[ta.id := m[ta.id].(tag := m[tb.id].tag)]
    ensures Merged(m, m', ta, tb)
  {
  }

  lemma {:induction false} Detached(m: Memory, m': Memory, ta: Linked, x: Linked)
    requires Attachable(m, ta, x)
    requires x.id in m && m' == m[x.id := m[x.id].(sibling := NULL)]
    ensures Attachable(m', ta, x)
    ensures Rep(m', ta, {}) && Separate(ta) && Rep(m', x, {}) && Separate(x) && ta.Node? && Ids(ta) !! Ids(x)
  {
    assert x.id in Ids(x);
    RepFrame(m, m', ta, {});
    RepFrame(m, m', x, {});
  }

  lemma {:induction false} AppendedIsTakenIn(m0: Memory, m1: Memory, m2: Memory, ta: Linked, x: Linked)
    requires Attachable(m0, ta, x) && x.id in m0 && m1 == m0[x.id := m0[x.id].(sibling := NULL)]
    requires Find(ta.kids, x.Node?, x.name) == |ta.kids|
    requires Rep(m2, ta.(kids := ta.kids + [x]), {}) && SameOutside(m1, m2, Ids(ta)) && m2.Keys == m1.Keys
    requires SameNames(m1, m2)
    requires ta.id in m1 && ta.id in m2 && m2[ta.id].sibling == m1[ta.id].sibling
    ensures TakenIn(m0, m2, ta, x)
  {
    assert ta.id in Ids(ta) && x.id in Ids(x);
    KidIdsContain(ta.kids + [x], |ta.kids|);
  }

  lemma {:induction false} KidMergeable(m: Memory, ta: Linked, k: nat, x: Linked)
    requires Attachable(m, ta, x) && k < |ta.kids| && ta.kids[k].Node? == x.Node?
    ensures Mergeable(m, ta.kids[k], x) && ta.kids[k].id != NULL
  {
    RepKid(m, ta, {}, k);
    KidIdsContain(ta.kids, k);
    assert SeparateKids(ta.kids);
  }

  lemma {:induction false} MergedIsTakenIn(m0: Memory, m1: Memory, m2: Memory, m3: Memory, ta: Linked, k: nat,
                                           x: Linked)
    requires Attachable(m1, ta, x) && x.id in m0 && m1 == m0[x.id := m0[x.id].(sibling := NULL)]
    requires k == Find(ta.kids, x.Node?, x.name) < |ta.kids|
    requires Merged(m1, m2, ta.kids[k], x) && m3 == m2 - {x.id}
    ensures TakenIn(m0, m3, ta, x)
  {
    hide Ids, KidIds, Merge, Separate, Rep, Attachable, Mergeable, MergeKid;
    MergedParts(m1, ta, k, x);
    Replaced(m1, m2, m3, ta, k, x);
    ReplacedKeys(m1, m2, m3, ta, k, x);
    assert SameOutside(m0, m3, Ids(ta) + Ids(x));
  }

  /** Where the labels of the merged child come from. */
  lemma {:induction false} MergedParts(m: Memory, ta: Linked, k: nat, x: Linked)
    requires Attachable(m, ta, x) && k == Find(ta.kids, x.Node?, x.name) < |ta.kids|
    ensures ta.Node?
    ensures var r := Merge(ta.kids[k], x);
            && Separate(r) && x.id !in Ids(r) && x.id in Ids(x) && ta.id in Ids(ta) && ta.id !in Ids(x)
                && Ids(ta.kids[k]) <= Ids(ta)
            && MergeKid(ta.kids, x) == ta.kids[k := r]
            && KidIds(ta.kids[k := r]) * Ids(x) == Ids(r) * Ids(x)
    ensures ta.kids[k].id in m && x.id != ta.kids[k].id
  {
    KidMergeable(m, ta, k, x);
    MergeIds(ta.kids[k], x);
    ReplacedIds(ta, k, x);
    KidIdsContain(ta.kids, k);
    assert x.id in Ids(x) && ta.id in Ids(ta) && ta.kids[k].id in Ids(ta.kids[k]);
  }

  lemma {:induction false} ReplacedKeys(m1: Memory, m2: Memory, m3: Memory, ta: Linked, k: nat, x: Linked)
    requires ta.Node? && k < |ta.kids| && ta.kids[k].Node? == x.Node? && x.id in Ids(x)
    requires x.id !in Ids(Merge(ta.kids[k], x))
    requires KidIds(ta.kids[k := Merge(ta.kids[k], x)]) * Ids(x) == Ids(Merge(ta.kids[k], x)) * Ids(x)
    requires m2.Keys == m1.Keys - (Ids(x) - {x.id} - Ids(Merge(ta.kids[k], x))) && m3 == m2 - {x.id}
    ensures m3.Keys == m1.Keys - (Ids(x) - KidIds(ta.kids[k := Merge(ta.kids[k], x)]))
  {
    var s, t, u := Ids(x), Ids(Merge(ta.kids[k], x)), KidIds(ta.kids[k := Merge(ta.kids[k], x)]);
    hide Ids, KidIds, Merge;
    assert forall n | n in s :: n in u <==> n in u * s;
    assert forall n | n in s :: n in t <==> n in t * s;
  }

  lemma {:induction false} NothingTakenIn(m: Memory, ta: Linked, tb: Linked)
    requires Mergeable(m, ta, tb) && ta.Node?
    ensures TakenInUpTo(m, m, ta, tb, 0)
  {
    assert tb.kids[..0] == [];
  }

  /** The next child of the source is still untouched. */
  lemma {:induction false} NextToTakeIn(m: Memory, m': Memory, ta: Linked, tb: Linked, i: nat)
    requires Mergeable(m, ta, tb) && ta.Node? && i < |tb.kids| && TakenInUpTo(m, m', ta, tb, i)
    ensures Attachable(m', ta.(kids := MergeKids(ta.kids, tb.kids[..i])), tb.kids[i])
    ensures tb.kids[i].id != NULL && tb.kids[i].id in m' && m'[tb.kids[i].id].sibling == KidAt(tb.kids, i + 1)
  {
    FirstKids(ta, tb, i);
    RepKid(m, tb, {}, i);
    RepOutside(m, m', tb.kids[i], {}, Ids(ta) + KidIds(tb.kids[..i]));
  }

  /** The children taken in so far are separate from the next one and from the target. */
  lemma {:induction false} FirstKids(ta: Linked, tb: Linked, i: nat)
    requires ta.Node? && tb.Node? && Separate(ta) && Separate(tb) && Ids(ta) !! Ids(tb) && i < |tb.kids|
    ensures var c := ta.(kids := MergeKids(ta.kids, tb.kids[..i]));
            && Separate(c) && Ids(c) <= Ids(ta) + KidIds(tb.kids[..i])
    ensures Separate(tb.kids[i]) && Ids(tb.kids[i]) !! Ids(ta) + KidIds(tb.kids[..i])
    ensures KidIds(tb.kids[..i + 1]) == KidIds(tb.kids[..i]) + Ids(tb.kids[i]) && tb.kids[i].id in Ids(tb.kids[i])
    ensures KidIds(tb.kids[..i + 1]) <= KidIds(tb.kids)
  {
    assert SeparateKids(tb.kids);
    KidIdsSplit(tb.kids, i);
    KidIdsContain(tb.kids, i);
    assert SeparateKids(tb.kids[..i]) by {
      assert forall j | 0 <= j < i :: tb.kids[..i][j] == tb.kids[j];
    }
    assert KidIds(tb.kids[..i]) <= KidIds(tb.kids);
    MergeKidsIds(ta.kids, tb.kids[..i]);
  }

  lemma {:induction false} OneMoreTakenIn(m: Memory, m': Memory, m'': Memory, ta: Linked, tb: Linked, i: nat)
    requires Mergeable(m, ta, tb) && ta.Node? && i < |tb.kids| && TakenInUpTo(m, m', ta, tb, i)
    requires TakenIn(m', m'', ta.(kids := MergeKids(ta.kids, tb.kids[..i])), tb.kids[i])
    ensures TakenInUpTo(m, m'', ta, tb, i + 1)
  {
    hide KidIds, Ids, Rep, MergeKids, MergeKid, Separate, SameOutside;
    FirstKids(ta, tb, i);
    OneMoreMerged(ta, tb, i);
    var x, merged, merged' := tb.kids[i], MergeKids(ta.kids, tb.kids[..i]), MergeKids(ta.kids, tb.kids[..i + 1]);
    KeysCompose(m.Keys, KidIds(tb.kids[..i]), Ids(x), KidIds(merged), KidIds(merged'));
    var before := ta.(kids := merged);
    OutsideBoth(m, m', m'', Ids(ta) + KidIds(tb.kids[..i]), Ids(before) + Ids(x), Ids(ta) + KidIds(tb.kids[..i + 1]));
  }

  lemma {:induction false} OutsideBoth(m: Memory, m': Memory, m'': Memory, s: set<Addr>, t: set<Addr>, u: set<Addr>)
    requires SameOutside(m, m', s) && SameOutside(m', m'', t) && s <= u && t <= u
    ensures SameOutside(m, m'', u)
  {
  }

  lemma {:induction false} OneMoreMerged(ta: Linked, tb: Linked, i: nat)
    requires ta.Node? && tb.Node? && Separate(ta) && Separate(tb) && Ids(ta) !! Ids(tb) && i < |tb.kids|
    ensures var merged, x := MergeKids(ta.kids, tb.kids[..i]), tb.kids[i];
            && MergeKids(ta.kids, tb.kids[..i + 1]) == MergeKid(merged, x)
            && KidIds(merged) <= KidIds(MergeKid(merged, x)) <= KidIds(merged) + Ids(x)
  {
    FirstKids(ta, tb, i);
    assert tb.kids[..i + 1][..i] == tb.kids[..i];
    var merged := MergeKids(ta.kids, tb.kids[..i]);
    assert SeparateKids(merged);
    MergeKidIds(merged, tb.kids[i]);
  }

  /** Two rounds of "what was taken and not kept is gone" make one. */
  lemma {:induction false} KeysCompose(keys: set<Addr>, first: set<Addr>, last: set<Addr>, kept: set<Addr>,
                                       kept': set<Addr>)
    requires first !! last && kept <= kept' <= kept + last
    ensures keys - (first - kept) - (last - kept') == keys - (first + last - kept')
  {
  }

  lemma {:induction false} AllTakenIn(m: Memory, m': Memory, ta: Linked, tb: Linked, i: nat)
    requires Mergeable(m, ta, tb) && ta.Node? && i == |tb.kids| && TakenInUpTo(m, m', ta, tb, i)
    ensures tb.id in m' && Merged(m, m'[tb.id := m'[tb.id].(child := NULL)], ta, tb)
  {
    assert tb.kids[..i] == tb.kids;
    MergeIds(ta, tb);
    var r := Merge(ta, tb);
    assert tb.id in Ids(tb) && tb.id !in KidIds(tb.kids) && ta.id in Ids(ta);
    assert Ids(tb) - {tb.id} == KidIds(tb.kids);
    assert tb.id in m' && m'[tb.id] == m[tb.id];
    var m'' := m'[tb.id := m'[tb.id].(child := NULL)];
    assert r == ta.(kids := MergeKids(ta.kids, tb.kids));
    assert forall n | n in KidIds(tb.kids) :: n in Ids(r) <==> n in KidIds(r.kids);
    RepOutside(m', m'', r, {}, {tb.id});
  }

  /** A tree out of reach of the changes is kept. */
  lemma {:induction false} RepOutside(m: Memory, m': Memory, t: Linked, stale: set<Addr>, s: set<Addr>)
    requires Rep(m, t, stale) && Separate(t) && SameOutside(m, m', s) && Ids(t) !! s
    ensures Rep(m', t, stale) && m'[t.id] == m[t.id]
  {
    assert t.id in Ids(t);
    RepFrame(m, m', t, stale);
  }

  /** Which nodes outside the tree are stale does not matter, and more may be. */
  lemma {:induction false} RepStale(m: Memory, t: Linked, stale: set<Addr>, stale': set<Addr>)
    requires Rep(m, t, stale) && stale * Ids(t) <= stale'
    ensures Rep(m, t, stale')
    decreases t
  {
    if t.Node? {
      forall i | 0 <= i < |t.kids| ensures LinkedKid(m, t.kids, i) && Rep(m, t.kids[i], stale') {
        RepKid(m, t, stale, i);
        KidIdsContain(t.kids, i);
        RepStale(m, t.kids[i], stale, stale');
      }
      assert t.id in stale ==> t.id in stale * Ids(t);
    }
  }

  /** One child is represented anew, the others and the node itself are as before. */
  lemma {:induction false} ExchangedKid(m: Memory, m': Memory, t: Linked, stale: set<Addr>, stale': set<Addr>, i: nat,
                                        x: Linked, s: set<Addr>)
    requires Rep(m, t, stale) && t.Node? && Separate(t) && i < |t.kids| && stale <= stale'
    requires Rep(m', x, stale') && x.id == t.kids[i].id
    requires x.id in m && x.id in m' && m'[x.id].sibling == m[x.id].sibling
    requires SameOutside(m, m', s) && s !! Ids(t) - Ids(t.kids[i])
    ensures Rep(m', t.(kids := t.kids[i := x]), stale')
  {
    var kids' := t.kids[i := x];
    hide Ids, KidIds, Separate, SameOutside, Rep;
    RootStays(m, m', t, stale, i, s);
    forall j | 0 <= j < |kids'| ensures LinkedKid(m', kids', j) && Rep(m', kids'[j], stale') {
      RepKid(m, t, stale, j);
      if j != i {
        OtherKid(m, m', t, stale, stale', i, j, s);
      }
      NextStays(t.kids, i, x, j);
    }
    assert RepKids(m', kids', stale');
    SameRoot(m, m', t, kids', stale, stale');
  }

  lemma {:induction false} RootStays(m: Memory, m': Memory, t: Linked, stale: set<Addr>, i: nat, s: set<Addr>)
    requires Rep(m, t, stale) && t.Node? && Separate(t) && i < |t.kids|
    requires SameOutside(m, m', s) && s !! Ids(t) - Ids(t.kids[i])
    ensures t.id in m && t.id in m' && m'[t.id] == m[t.id]
  {
    KidIdsContain(t.kids, i);
    assert t.id in Ids(t) && t.id !in s;
  }

  lemma {:induction false} NextStays(kids: seq<Linked>, i: nat, x: Linked, j: nat)
    requires i < |kids| && x.id == kids[i].id && j < |kids|
    ensures KidAt(kids[i := x], j + 1) == KidAt(kids, j + 1) && kids[i := x][j].id == kids[j].id
  {
  }

  lemma {:induction false} SameRoot(m: Memory, m': Memory, t: Linked, kids': seq<Linked>, stale: set<Addr>,
                                    stale': set<Addr>)
    requires Rep(m, t, stale) && t.Node? && stale <= stale'
    requires t.id in m && t.id in m' && m'[t.id] == m[t.id]
    requires |kids'| == |t.kids| && forall j | 0 <= j < |kids'| :: kids'[j].id == t.kids[j].id
    requires RepKids(m', kids', stale')
    ensures Rep(m', t.(kids := kids'), stale')
  {
  }

  lemma {:induction false} OtherKid(m: Memory, m': Memory, t: Linked, stale: set<Addr>, stale': set<Addr>, i: nat,
                                    j: nat, s: set<Addr>)
    requires Rep(m, t, stale) && t.Node? && Separate(t) && i < |t.kids| && j < |t.kids| && i != j && stale <= stale'
    requires SameOutside(m, m', s) && s !! Ids(t) - Ids(t.kids[i])
    ensures Rep(m', t.kids[j], stale') && t.kids[j].id in m && t.kids[j].id in m' && m'[t.kids[j].id] == m[t.kids[j].id]
  {
    RepKid(m, t, stale, j);
    KidsApart(t, i, j);
    KidIdsContain(t.kids, j);
    RepOutside(m, m', t.kids[j], stale, s);
    RepStale(m', t.kids[j], stale, stale');
  }

  /** After the merge of child `k` and the release of its source, the target holds the merged list. */
  lemma {:induction false} Replaced(m1: Memory, m2: Memory, m3: Memory, ta: Linked, k: nat, x: Linked)
    requires Attachable(m1, ta, x) && k < |ta.kids| && ta.kids[k].Node? == x.Node?
    requires var r := Merge(ta.kids[k], x);
             && Rep(m2, r, {}) && SameOutside(m1, m2, Ids(ta.kids[k]) + Ids(x)) && m3 == m2 - {x.id}
             && Separate(r) && x.id !in Ids(r)
             && r.id in m1 && r.id in m2 && m2[r.id].sibling == m1[r.id].sibling
    ensures Rep(m3, ta.(kids := ta.kids[k := Merge(ta.kids[k], x)]), {})
    ensures ta.id in m1 && ta.id in m3 && m3[ta.id] == m1[ta.id]
  {
    hide Rep, Merge, Separate, KidIds;
    var r := Merge(ta.kids[k], x);
    var s := Ids(ta.kids[k]) + Ids(x);
    Freed(m1, m2, m3, r, x, s);
    hide Ids, SameOutside;
    RootStays(m1, m3, ta, {}, k, s);
    ExchangedKid(m1, m3, ta, {}, {}, k, r, s);
  }

  /** Releasing the emptied source does not touch the merged child. */
  lemma {:induction false} Freed(m1: Memory, m2: Memory, m3: Memory, r: Linked, x: Linked, s: set<Addr>)
    requires Rep(m2, r, {}) && Separate(r) && x.id !in Ids(r) && m3 == m2 - {x.id} && Ids(x) <= s
            && SameOutside(m1, m2, s)
    requires r.id in m2
    ensures Rep(m3, r, {}) && SameOutside(m1, m3, s) && r.id in m3 && m3[r.id] == m2[r.id]
  {
    assert x.id in Ids(x) && r.id in Ids(r);
    RepFrame(m2, m3, r, {});
  }

  /** Which entries of the source end up in the target. */
  lemma {:induction false} ReplacedIds(ta: Linked, k: nat, x: Linked)
    requires ta.Node? && k < |ta.kids| && ta.kids[k].Node? == x.Node? && Ids(ta) !! Ids(x)
    ensures KidIds(ta.kids[k := Merge(ta.kids[k], x)]) * Ids(x) == Ids(Merge(ta.kids[k], x)) * Ids(x)
  {
    var kids' := ta.kids[k := Merge(ta.kids[k], x)];
    KidIdsContain(kids', k);
    forall n | n in KidIds(kids') && n in Ids(x) ensures n in Ids(kids'[k]) {
      var i :| 0 <= i < |kids'| && n in Ids(kids'[i]);
      if i != k {
        KidIdsContain(ta.kids, i);
      }
    }
  }

  /** The tail pointer of a node points into the node or into its last child. */
  lemma {:induction false} AppendSlot(m: Memory, tp: Linked)
    requires tp.Node? && Rep(m, tp, {})
    ensures tp.id in m && m[tp.id].lastChildP == LastSlot(tp.id, tp.kids) && m[tp.id].lastChildP.owner in m
  {
    if tp.kids != [] {
      RepKid(m, tp, {}, |tp.kids| - 1);
    }
  }

  lemma {:induction false} Appended(m: Memory, m1: Memory, m': Memory, tp: Linked, tc: Linked)
    requires tp.Node? && Rep(m, tp, {}) && Separate(tp) && Rep(m, tc, {}) && Separate(tc) && Ids(tp) !! Ids(tc)
    requires tc.id in m && m[tc.id].sibling == NULL
    requires tp.id in m && LastSlot(tp.id, tp.kids).owner in m
    requires m1 == WriteSlot(m, LastSlot(tp.id, tp.kids), tc.id)
    requires m' == m1[tp.id := m1[tp.id].(lastChildP := SiblingOf(tc.id))]
    ensures Rep(m', tp.(kids := tp.kids + [tc]), {})
    ensures SameOutside(m, m', Ids(tp)) && m'.Keys == m.Keys && m'[tp.id].sibling == m[tp.id].sibling
    ensures SameNames(m, m')
  {
    if tp.kids != [] { KidIdsContain(tp.kids, |tp.kids| - 1); }
    var kids, kids' := tp.kids, tp.kids + [tc];
    forall i | 0 <= i < |kids'| ensures LinkedKid(m', kids', i) && Rep(m', kids'[i], {}) {
      if i < |kids| {
        assert LinkedKid(m, kids, i);
        KidIdsContain(kids, i);
        assert i < |kids| - 1 ==> kids[|kids| - 1].id in Ids(kids[|kids| - 1]) && Ids(kids[i]) !! Ids(kids[|kids| - 1]);
        RepFrame(m, m', kids[i], {});
      } else {
        if kids != [] { KidIdsContain(kids, |kids| - 1); }
        assert tp.id in Ids(tp) && tc.id in Ids(tc);
        RepFrame(m, m', tc, {});
      }
    }
  }
}
