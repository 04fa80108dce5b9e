/** Lookup by path from the root of a linked tree, with alias expansion. */
module Lookup {
  import opened Bytes
  import opened Blobs
  import opened Trees
  import opened Paths
  import opened NodePool
  import opened Nodes
  import opened Subtrees

  /** Where a path leads is represented. */
  lemma {:induction false} RepDescend(m: Memory, t: Linked, stale: set<Addr>, path: seq<string>)
    requires Rep(m, t, stale) && Descend(t, path).Some?
    ensures Rep(m, Descend(t, path).value, stale) && Descend(t, path).value.id != NULL
    decreases path
  {
    if path != [] {
      var i := Find(t.kids, true, path[0]);
      RepKid(m, t, stale, i);
      RepDescend(m, t.kids[i], stale, path[1..]);
    }
  }

  /** A subtree of a represented tree is represented. */
  lemma {:induction false} RepAt(m: Memory, t: Linked, stale: set<Addr>, id: Addr)
    requires Rep(m, t, stale) && Separate(t) && id in Ids(t)
    ensures Rep(m, At(t, id), stale)
    decreases t
  {
    if t.id != id {
      var i := KidWith(t, id);
      RepKid(m, t, stale, i);
      RepAt(m, t.kids[i], stale, id);
    }
  }

  /** A property that was found is represented. */
  lemma {:induction false} RepProp(m: Memory, t: Linked, stale: set<Addr>, name: string)
    requires Rep(m, t, stale)
    ensures var p := if t.Node? then KidAt(t.kids, Find(t.kids, false, name)) else NULL;
            && (p == NULL <==> PropOf(t, name).None?)
            && (p != NULL ==> p in m && m[p].tag.kind == Property && PropOf(t, name) == Some(m[p].tag))
  {
    if t.Node? && Find(t.kids, false, name) < |t.kids| {
      RepKid(m, t, stale, Find(t.kids, false, name));
    }
  }

  /** `ufdt_get_node_by_path`: a path that does not start with a slash starts with an alias. */
  method GetNodeByPath(h: NodeHeap, mem: BlobMemory, root: Addr, path: string, ghost t: Linked, ghost stale: set<Addr>)
    returns (r: Addr)
    requires root != NULL && t.id == root && Rep(h.nodes, t, stale)
    ensures r == IdOf(TreePath(t, mem.values, path))
    ensures r != NULL <==> TreePath(t, mem.values, path).Some?
    ensures r != NULL ==> Rep(h.nodes, TreePath(t, mem.values, path).value, stale)
  {
    hide Rep, Components, Descend;
    if path == "" || path[0] != '/' {
      var k := IndexOf(path, '/');
      OneComponent("/aliases", "aliases");
      ghost var a := Subnode(t, "aliases");
      if a.Some? {
        RepDescend(h.nodes, t, stale, ["aliases"]);
        RepProp(h.nodes, a.value, stale, path[..k]);
      }
      var aliases := h.GetNodeByPath(root, "/aliases", t, stale);
      var alias := h.GetProperty(aliases, path[..k], if a.Some? then a.value else t, stale);
      var aliasPath := h.GetPropData(alias);
      if aliasPath.None? {
        return NULL;
      }
      var value := Val(mem.values, aliasPath.value);
      ghost var b := Descend(t, AliasComponents(value));
      if b.Some? {
        RepDescend(h.nodes, t, stale, AliasComponents(value));
      }
      var target := h.GetNodeByPathLen(root, CString(value), |CString(value)| < |value|, t, stale);
      r := h.GetNodeByPath(target, path[k..], if b.Some? then b.value else t, stale);
      if b.Some? && Resolve(b.value, path[k..]).Some? {
        RepDescend(h.nodes, b.value, stale, Components(path[k..]));
      }
      return;
    }
    r := h.GetNodeByPath(root, path, t, stale);
    if Resolve(t, path).Some? {
      RepDescend(h.nodes, t, stale, Components(path));
    }
  }
}
