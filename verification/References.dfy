/** Updating the references of an overlay: renumbered phandles, local fixups and external fixups. */
module References {
  import opened Bytes
  import opened Blobs
  import opened Trees
  import opened Paths
  import opened Phandles
  import opened NodePool
  import opened Nodes
  import opened Table
  import opened Lookup
  import opened Subtrees
  import opened TableLaws
  import opened Renumbering
  import opened Numbers
  import opened Confinement
  import Spec = OverlaySpec

  // ---------------------------------------------------------------- phandles

  /** `fdt_increase_u32` on byte `offset` of a property. */
  method IncreaseU32(mem: BlobMemory, tag: FdtTag, offset: nat, delta: u32)
    requires offset + CELL <= |Val(mem.values, tag)|
    modifies mem
    ensures mem.values == old(mem.values)[tag := Spec.Increase(Val(old(mem.values), tag), offset, delta)]
  {
    var data := Val(mem.values, tag);
    mem.values := mem.values[tag := Put32(data, offset, Add32(Get32(data, offset), delta))];
  }

  /** `ufdt_node_try_increase_phandle`. */
  method NodeTryIncreasePhandle(h: NodeHeap, mem: BlobMemory, node: Addr, delta: u32, ghost t: Linked,
                                ghost stale: set<Addr>)
    requires node != NULL && t.id == node && t.Node? && Rep(h.nodes, t, stale) && OwnRecords(t)
    modifies mem
    ensures mem.values == Spec.IncreaseAll(old(mem.values), Spec.OwnCells(t, old(mem.values)), delta)
  {
    hide Rep, PropOf, OwnRecords;
    ghost var d := mem.values;
    PropRecord(t, "phandle", "linux,phandle");
    var data := h.GetPropDataByName(node, "phandle", t, stale);
    if data.Some? && |Val(mem.values, data.value)| == CELL {
      IncreaseU32(mem, data.value, 0, delta);
    }
    data := h.GetPropDataByName(node, "linux,phandle", t, stale);
    if data.Some? && |Val(mem.values, data.value)| == CELL {
      IncreaseU32(mem, data.value, 0, delta);
    }
  }

  /** `ufdt_try_increase_phandle`: visits the nodes in the overlay's table. */
  method TryIncreasePhandle(h: NodeHeap, mem: BlobMemory, table: array<Entry<Addr>>, delta: u32, ghost t: Linked)
    requires Rep(h.nodes, t, {}) && Separate(t) && OwnRecords(t) && IsTable(table[..], t, mem.values)
    modifies mem
    ensures mem.values == Spec.Shift(t, old(mem.values), delta)
  {
    hide Rep, Separate, OwnRecords, IsTable, Spec.IncreaseAll, Spec.OwnCells, Spec.Shift, HasNode;
    ghost var d, s := mem.values, table[..];
    TableLists(s, t, d);
    ShiftAll(s, t, d, delta);
    var i := 0;
    while i < table.Length
      invariant i <= table.Length && mem.values == ShiftedUpTo(s, i, t, d, delta)
    {
      ShiftNext(s, i, t, d, delta);
      RepAt(h.nodes, t, {}, s[i].node);
      NodeOfEntry(h.nodes, t, s[i].node);
      NodeTryIncreasePhandle(h, mem, table[i].node, delta, At(t, s[i].node), {});
      i := i + 1;
    }
  }

  lemma {:induction false} NodeOfEntry(m: Memory, t: Linked, n: Addr)
    requires n in Ids(t) && Rep(m, At(t, n), {})
    ensures n != NULL && n in m
  {
  }

  // ---------------------------------------------------------------- local fixups

  /** What an update promises: success and the new values, or failure, as specified. */
  ghost predicate Updated(r: Option<Values>, err: int, d': Values) {
    err == (if r.None? then -1 else 0) && (r.Some? ==> d' == r.value)
  }

  /** `ufdt_local_fixup_prop`. */
  method LocalFixupProp(h: NodeHeap, mem: BlobMemory, target: Addr, fixup: Addr, delta: u32) returns (err: int)
    requires target in h.nodes && h.nodes[target].tag.kind == Property
    requires fixup in h.nodes && h.nodes[fixup].tag.kind == Property
    requires var d, list := mem.values, h.nodes[fixup].tag;
             Confined(CellAccesses(d, h.nodes[target].tag, list, |Val(d, list)|, 0, delta))
    modifies mem
    ensures var d, list := old(mem.values), h.nodes[fixup].tag;
            Updated(Spec.LocalCells(d, h.nodes[target].tag, list, |Val(d, list)|, 0, delta), err, mem.values)
  {
    hide Spec.Increase, Get32;
    ghost var d := mem.values;
    var offsets, data := h.nodes[fixup].tag, h.nodes[target].tag;
    var len := |Val(mem.values, offsets)|;
    var i := 0;
    while i < len
      invariant Spec.LocalCells(d, data, offsets, len, 0, delta) ==
              Spec.LocalCells(mem.values, data, offsets, len, i, delta)
      invariant Confined(CellAccesses(mem.values, data, offsets, len, i, delta))
    {
      var cell := Get32(Val(mem.values, offsets), i);
      NextCell(mem.values, data, offsets, len, i, delta);
      if !LocalCheck(|Val(mem.values, data)|, cell) {
        return -1;
      }
      IncreaseU32(mem, data, ToInt32(cell), delta);
      i := i + CELL;
    }
    err := 0;
  }

  /** A cell that may be met lies inside its value iff the check lets it through. */
  lemma {:induction false} NextCell(d: Values, target: FdtTag, fixup: FdtTag, len: nat, i: nat, delta: u32)
    requires i < len && Confined(CellAccesses(d, target, fixup, len, i, delta))
    ensures var cell, size := Get32(Val(d, fixup), i), |Val(d, target)|;
            && (LocalCheck(size, cell) <==> CellInside(size, cell))
            && (CellInside(size, cell) ==>
                  && ToInt32(cell) == cell
                  && Confined(CellAccesses(d[target := Spec.Increase(Val(d, target), cell, delta)], target, fixup, len,
                      i + CELL, delta)))
  {
    hide Get32, LocalCheck, Spec.Increase;
    var cell, size := Get32(Val(d, fixup), i), |Val(d, target)|;
    assert LocalCheck(size, cell) || CellInside(size, cell) ==>
             Access(target, ToInt32(cell), size) in CellAccesses(d, target, fixup, len, i, delta);
    if size < INT_LIMIT {
      LocalCheckIff(size, cell);
    }
  }

  /** The first loop of `ufdt_local_fixup_node`. */
  method LocalFixupProps(h: NodeHeap, mem: BlobMemory, node: Addr, fixups: Addr, delta: u32, ghost t: Linked,
                         ghost f: Linked, ghost stale: set<Addr>)
    returns (err: int)
    requires node != NULL && t.id == node && Rep(h.nodes, t, stale)
    requires fixups != NULL && f.id == fixups && f.Node? && Rep(h.nodes, f, stale)
    requires Confined(PropAccesses(t, f.kids, mem.values, delta))
    modifies mem
    ensures Updated(Spec.LocalProps(t, f.kids, old(mem.values), delta), err, mem.values)
  {
    hide Rep, Spec.LocalCells, Spec.LocalProps, Confined, PropAccesses, CellAccesses;
    RepRoot(h.nodes, f, stale);
    ghost var d := mem.values;
    var it := h.nodes[fixups].child;
    ghost var i := 0;
    AllKids(f.kids);
    while it != NULL
      invariant i <= |f.kids| && it == KidAt(f.kids, i)
      invariant Spec.LocalProps(t, f.kids, d, delta) == Spec.LocalProps(t, f.kids[i..], mem.values, delta)
      invariant Confined(PropAccesses(t, f.kids[i..], mem.values, delta))
      decreases |f.kids| - i
    {
      NextKid(h.nodes, f, stale, i);
      NextLocalProp(t, f.kids, i, mem.values, delta);
      RepRoot(h.nodes, f.kids[i], stale);
      if !h.nodes[it].IsNode() {
        var target := h.GetProperty(node, h.nodes[it].Name(), t, stale);
        RepProp(h.nodes, t, stale, h.nodes[it].Name());
        if target == NULL {
          return -1;
        }
        err := LocalFixupProp(h, mem, target, it, delta);
        if err < 0 {
          return -1;
        }
      }
      it := h.nodes[it].sibling;
      i := i + 1;
    }
    EndOfKids(h.nodes, f, stale, i);
    NoMoreLocalProps(t, f.kids, mem.values, delta);
    err := 0;
  }

  lemma {:induction false} AllKids(kids: seq<Linked>)
    ensures kids[0..] == kids
  {
  }

  lemma {:induction false} NextLocalProp(t: Linked, kids: seq<Linked>, i: nat, d: Values, delta: u32)
    requires i < |kids|
    ensures var x, rest := kids[i], kids[i + 1..];
            Spec.LocalProps(t, kids[i..], d, delta) ==
              if x.Node? then Spec.LocalProps(t, rest, d, delta)
              else if PropOf(t, x.name).None? then None
              else
                var r := Spec.LocalCells(d, PropOf(t, x.name).value, x.data, |Val(d, x.data)|, 0, delta);
                if r.None? then None else Spec.LocalProps(t, rest, r.value, delta)
    ensures Confined(PropAccesses(t, kids[i..], d, delta)) ==>
              var x, rest := kids[i], kids[i + 1..];
              if x.Node? then Confined(PropAccesses(t, rest, d, delta))
              else
                PropOf(t, x.name).Some? ==>
                  var p, len := PropOf(t, x.name).value, |Val(d, x.data)|;
                  var r := Spec.LocalCells(d, p, x.data, len, 0, delta);
                  && Confined(CellAccesses(d, p, x.data, len, 0, delta))
                  && (r.Some? ==> Confined(PropAccesses(t, rest, r.value, delta)))
  {
    hide Spec.LocalCells, CellAccesses;
    assert kids[i..][1..] == kids[i + 1..];
  }

  lemma {:induction false} NoMoreLocalProps(t: Linked, kids: seq<Linked>, d: Values, delta: u32)
    ensures Spec.LocalProps(t, kids[|kids|..], d, delta) == Some(d)
    ensures Spec.LocalNodes(t, kids[|kids|..], d, delta) == Some(d)
  {
  }

  /** The second loop. */
  method LocalFixupNodes(h: NodeHeap, mem: BlobMemory, node: Addr, fixups: Addr, delta: u32, ghost t: Linked,
                         ghost f: Linked, ghost stale: set<Addr>)
    returns (err: int)
    requires node != NULL && t.id == node && Rep(h.nodes, t, stale)
    requires fixups != NULL && f.id == fixups && f.Node? && Rep(h.nodes, f, stale)
    requires Confined(NodeAccesses(t, f.kids, mem.values, delta))
    modifies mem
    ensures Updated(Spec.LocalNodes(t, f.kids, old(mem.values), delta), err, mem.values)
    decreases f, 0
  {
    hide Rep, Spec.LocalFixup, Spec.LocalNodes, Resolve, Confined, NodeAccesses, LocalAccesses;
    RepRoot(h.nodes, f, stale);
    ghost var d := mem.values;
    var it := h.nodes[fixups].child;
    ghost var i := 0;
    AllKids(f.kids);
    while it != NULL
      invariant i <= |f.kids| && it == KidAt(f.kids, i)
      invariant Spec.LocalNodes(t, f.kids, d, delta) == Spec.LocalNodes(t, f.kids[i..], mem.values, delta)
      invariant Confined(NodeAccesses(t, f.kids[i..], mem.values, delta))
      decreases |f.kids| - i
    {
      NextKid(h.nodes, f, stale, i);
      NextLocalNode(t, f.kids, i, mem.values, delta);
      RepRoot(h.nodes, f.kids[i], stale);
      if h.nodes[it].IsNode() {
        var sub := h.GetNodeByPath(node, h.nodes[it].Name(), t, stale);
        ResolvedRep(h.nodes, t, stale, f.kids[i].name);
        if sub == NULL {
          return -1;
        }
        err := LocalFixupNode(h, mem, sub, it, delta, Resolve(t, f.kids[i].name).value, f.kids[i], stale);
        if err < 0 {
          return -1;
        }
      }
      it := h.nodes[it].sibling;
      i := i + 1;
    }
    EndOfKids(h.nodes, f, stale, i);
    NoMoreLocalProps(t, f.kids, mem.values, delta);
    err := 0;
  }

  lemma {:induction false} NextLocalNode(t: Linked, kids: seq<Linked>, i: nat, d: Values, delta: u32)
    requires i < |kids|
    ensures var x, rest := kids[i], kids[i + 1..];
            Spec.LocalNodes(t, kids[i..], d, delta) ==
              if x.Prop? then Spec.LocalNodes(t, rest, d, delta)
              else if Resolve(t, x.name).None? then None
              else
                var r := Spec.LocalFixup(Resolve(t, x.name).value, x, d, delta);
                if r.None? then None else Spec.LocalNodes(t, rest, r.value, delta)
    ensures Confined(NodeAccesses(t, kids[i..], d, delta)) ==>
              var x, rest := kids[i], kids[i + 1..];
              if x.Prop? then Confined(NodeAccesses(t, rest, d, delta))
              else
                Resolve(t, x.name).Some? ==>
                  var sub := Resolve(t, x.name).value;
                  var r := Spec.LocalFixup(sub, x, d, delta);
                  && Confined(LocalAccesses(sub, x, d, delta))
                  && (r.Some? ==> Confined(NodeAccesses(t, rest, r.value, delta)))
  {
    hide Spec.LocalFixup, LocalAccesses, Resolve;
    assert kids[i..][1..] == kids[i + 1..];
  }

  lemma {:induction false} ResolvedRep(m: Memory, t: Linked, stale: set<Addr>, path: string)
    requires Rep(m, t, stale)
    ensures var n := Resolve(t, path);
            && (n.Some? ==> Rep(m, n.value, stale))
            && (IdOf(n) == NULL <==> n.None?)
  {
    if Resolve(t, path).Some? {
      RepDescend(m, t, stale, Components(path));
    }
  }

  /** `ufdt_local_fixup_node`. */
  method LocalFixupNode(h: NodeHeap, mem: BlobMemory, node: Addr, fixups: Addr, delta: u32, ghost t: Linked,
                        ghost f: Linked, ghost stale: set<Addr>)
    returns (err: int)
    requires node != NULL && t.id == node && Rep(h.nodes, t, stale)
    requires fixups != NULL ==> f.id == fixups && f.Node? && Rep(h.nodes, f, stale)
    requires fixups != NULL ==> Confined(LocalAccesses(t, f, mem.values, delta))
    modifies mem
    ensures fixups == NULL ==> err == 0 && mem.values == old(mem.values)
    ensures fixups != NULL ==> Updated(Spec.LocalFixup(t, f, old(mem.values), delta), err, mem.values)
    decreases f, 1
  {
    hide Rep, Spec.LocalNodes, Spec.LocalProps, PropAccesses, NodeAccesses;
    if fixups == NULL {
      return 0;
    }
    err := LocalFixupProps(h, mem, node, fixups, delta, t, f, stale);
    if err < 0 {
      return -1;
    }
    err := LocalFixupNodes(h, mem, node, fixups, delta, t, f, stale);
  }

  /** `ufdt_overlay_do_local_fixups`. */
  method DoLocalFixups(h: NodeHeap, mem: BlobMemory, root: Addr, delta: u32, ghost t: Linked, ghost stale: set<Addr>)
    returns (err: int)
    requires root != NULL && t.id == root && t.Node? && Rep(h.nodes, t, stale)
    requires Confined(OwnAccesses(t, mem.values, delta))
    modifies mem
    ensures Updated(Spec.LocalFixups(t, old(mem.values), delta), err, mem.values)
  {
    hide Rep, TreePath, Spec.LocalFixup, LocalAccesses, Confined;
    var overlay := GetNodeByPath(h, mem, root, "/", t, stale);
    var fixups := GetNodeByPath(h, mem, root, "/__local_fixups__", t, stale);
    ghost var o, f := TreePath(t, mem.values, "/"), Subnode(t, "__local_fixups__");
    AbsolutePath(t, mem.values, "/__local_fixups__", "__local_fixups__");
    err := LocalFixupNode(h, mem, overlay, fixups, delta, o.value, if f.Some? then f.value else t, stale);
    if err < 0 {
      return -1;
    }
    err := 0;
  }

  /** The path of a child of the root. */
  lemma {:induction false} AbsolutePath(t: Linked, d: Values, path: string, name: string)
    requires t.Node? && path == "/" + name && name != "" && forall i | 0 <= i < |name| :: name[i] != '/'
    ensures TreePath(t, d, path) == Subnode(t, name)
    ensures Subnode(t, name).Some? ==> Subnode(t, name).value.Node?
    ensures TreePath(t, d, "/") == Some(t)
  {
    OneComponent(path, name);
    assert Components("/") == [];
  }

  // ---------------------------------------------------------------- external fixups

  /** `ufdt_get_fixup_location`: where `path:property:offset` points. */
  method GetFixupLocation(h: NodeHeap, mem: BlobMemory, root: Addr, fixup: string, ghost t: Linked,
                          ghost stale: set<Addr>)
    returns (r: Option<Spec.Place<FdtTag>>)
    requires root != NULL && t.id == root && Rep(h.nodes, t, stale)
    ensures r == Spec.FixupPlace(t, mem.values, fixup)
  {
    hide Rep, TreePath, PropOf, StrToUl, ToInt32, FixupCheck;
    var propPtr := IndexOf(fixup, ':');
    if propPtr == |fixup| {
      return None;
    }
    var path, rest := fixup[..propPtr], fixup[propPtr + 1..];
    var offsetPtr := IndexOf(rest, ':');
    if offsetPtr == |rest| {
      return None;
    }
    var prop := rest[..offsetPtr];
    var number := StrToUl(rest[offsetPtr + 1..]);
    if number.None? {
      return None;
    }
    var offset := ToInt32(number.value);
    var node := GetNodeByPath(h, mem, root, path, t, stale);
    if node == NULL {
      return None;
    }
    var data := h.GetPropDataByName(node, prop, TreePath(t, mem.values, path).value, stale);
    if data.None? {
      return None;
    }
    if !FixupCheck(|Val(mem.values, data.value)|, offset) {
      return None;
    }
    return Some(Spec.Place(data.value, offset));
  }

  /** `ufdt_do_one_fixup`: writes the phandle to every location of a list of strings. */
  method DoOneFixup(h: NodeHeap, mem: BlobMemory, root: Addr, fixups: FdtTag, len: nat, phandle: u32, ghost t: Linked,
                    ghost stale: set<Addr>)
    returns (err: int)
    requires root != NULL && t.id == root && Rep(h.nodes, t, stale)
    requires Confined(ListAccesses(t, mem.values, fixups, len, 0, phandle))
    modifies mem
    ensures Updated(Spec.OneFixup(t, old(mem.values), fixups, len, 0, phandle), err, mem.values)
  {
    hide Rep, Spec.FixupPlace, CString;
    ghost var d := mem.values;
    var pos := 0;
    while len > pos
      invariant Spec.OneFixup(t, d, fixups, len, 0, phandle) == Spec.OneFixup(t, mem.values, fixups, len, pos, phandle)
      invariant Confined(ListAccesses(t, mem.values, fixups, len, pos, phandle))
      decreases len - pos
    {
      var list := Val(mem.values, fixups);
      var fixup := if pos <= |list| then CString(list[pos..]) else "";
      var at := GetFixupLocation(h, mem, root, fixup, t, stale);
      if at.None? {
        return -1;
      }
      var data := Val(mem.values, at.value.prop);
      assert Access(at.value.prop, at.value.offset, |data|) in ListAccesses(t, mem.values, fixups, len, pos, phandle);
      mem.values := mem.values[at.value.prop := Put32(data, at.value.offset, phandle)];
      pos := pos + |fixup| + 1;
    }
    err := 0;
  }

  /** Whether a node has any property. */
  method HasAnyProp(h: NodeHeap, node: Addr, ghost t: Linked, ghost stale: set<Addr>) returns (r: bool)
    requires node != NULL && t.id == node && t.Node? && Rep(h.nodes, t, stale)
    ensures r == Spec.HasProp(t.kids)
  {
    hide Rep;
    RepRoot(h.nodes, t, stale);
    var it := h.nodes[node].child;
    ghost var i := 0;
    while it != NULL
      invariant i <= |t.kids| && it == KidAt(t.kids, i)
      invariant forall j | 0 <= j < i :: t.kids[j].Node?
      decreases |t.kids| - i
    {
      NextKid(h.nodes, t, stale, i);
      if !h.nodes[it].IsNode() {
        return true;
      }
      it := h.nodes[it].sibling;
      i := i + 1;
    }
    EndOfKids(h.nodes, t, stale, i);
    r := false;
  }

  /** The node that a symbol names. */
  method GetSymbolNode(h: NodeHeap, mem: BlobMemory, mainRoot: Addr, symbols: Addr, name: string, ghost mt: Linked,
                       ghost st: Linked)
    returns (r: Addr)
    requires mainRoot != NULL && mt.id == mainRoot && Rep(h.nodes, mt, {})
    requires symbols != NULL && st.id == symbols && Rep(h.nodes, st, {})
    ensures var n := Spec.SymbolNode(mt, mem.values, st, name);
            && r == IdOf(n) && (r == NULL <==> n.None?)
            && (n.Some? ==> Rep(h.nodes, n.value, {}))
  {
    hide Rep, TreePath, PropOf;
    var path := h.GetPropDataByName(symbols, name, st, {});
    if path.None? {
      return NULL;
    }
    r := GetNodeByPath(h, mem, mainRoot, Text(mem.values, path.value), mt, {});
  }

  /** The second loop of `ufdt_overlay_do_fixups`. */
  method DoFixupProps(h: NodeHeap, mem: BlobMemory, mainRoot: Addr, symbols: Addr, root: Addr, fixups: Addr,
                      ghost mt: Linked, ghost st: Linked, ghost t: Linked, ghost f: Linked, ghost stale: set<Addr>)
    returns (err: int)
    requires mainRoot != NULL && mt.id == mainRoot && Rep(h.nodes, mt, {})
    requires symbols != NULL && st.id == symbols && Rep(h.nodes, st, {})
    requires root != NULL && t.id == root && Rep(h.nodes, t, stale)
    requires fixups != NULL && f.id == fixups && f.Node? && Rep(h.nodes, f, stale)
    requires Confined(SymbolAccesses(mt, st, t, f.kids, mem.values))
    modifies mem
    ensures Updated(Spec.FixupProps(mt, st, t, f.kids, old(mem.values)), err, mem.values)
  {
    hide Rep, Spec.OneFixup, Spec.FixupProps, Spec.SymbolNode, Phandle, Confined, SymbolAccesses, ListAccesses;
    RepRoot(h.nodes, f, stale);
    ghost var d := mem.values;
    var it := h.nodes[fixups].child;
    ghost var i := 0;
    AllKids(f.kids);
    while it != NULL
      invariant i <= |f.kids| && it == KidAt(f.kids, i)
      invariant Spec.FixupProps(mt, st, t, f.kids, d) == Spec.FixupProps(mt, st, t, f.kids[i..], mem.values)
      invariant Confined(SymbolAccesses(mt, st, t, f.kids[i..], mem.values))
      decreases |f.kids| - i
    {
      NextKid(h.nodes, f, stale, i);
      NextFixup(mt, st, t, f.kids, i, mem.values);
      RepRoot(h.nodes, f.kids[i], stale);
      if !h.nodes[it].IsNode() {
        var symbol := GetSymbolNode(h, mem, mainRoot, symbols, h.nodes[it].Name(), mt, st);
        if symbol == NULL {
          return -1;
        }
        var phandle := h.GetPhandle(mem, symbol, Spec.SymbolNode(mt, mem.values, st, f.kids[i].name).value, {});
        var list := h.nodes[it].tag;
        err := DoOneFixup(h, mem, root, list, |Val(mem.values, list)|, phandle, t, stale);
        if err < 0 {
          return -1;
        }
      }
      it := h.nodes[it].sibling;
      i := i + 1;
    }
    EndOfKids(h.nodes, f, stale, i);
    NoMoreFixups(mt, st, t, f.kids, mem.values);
    err := 0;
  }

  lemma {:induction false} NextFixup(mt: Linked, st: Linked, t: Linked, kids: seq<Linked>, i: nat, d: Values)
    requires i < |kids|
    ensures var x, rest := kids[i], kids[i + 1..];
            Spec.FixupProps(mt, st, t, kids[i..], d) ==
              if x.Node? then Spec.FixupProps(mt, st, t, rest, d)
              else
                var node := Spec.SymbolNode(mt, d, st, x.name);
                if node.None? then None
                else
                  var r := Spec.OneFixup(t, d, x.data, |Val(d, x.data)|, 0, Phandle(node.value, d));
                  if r.None? then None else Spec.FixupProps(mt, st, t, rest, r.value)
    ensures Confined(SymbolAccesses(mt, st, t, kids[i..], d)) ==>
              var x, rest := kids[i], kids[i + 1..];
              if x.Node? then Confined(SymbolAccesses(mt, st, t, rest, d))
              else
                var node := Spec.SymbolNode(mt, d, st, x.name);
                node.Some? ==>
                  var len, phandle := |Val(d, x.data)|, Phandle(node.value, d);
                  var r := Spec.OneFixup(t, d, x.data, len, 0, phandle);
                  && Confined(ListAccesses(t, d, x.data, len, 0, phandle))
                  && (r.Some? ==> Confined(SymbolAccesses(mt, st, t, rest, r.value)))
  {
    hide Spec.SymbolNode, Spec.OneFixup, ListAccesses, Phandle;
    assert kids[i..][1..] == kids[i + 1..];
  }

  lemma {:induction false} NoMoreFixups(mt: Linked, st: Linked, t: Linked, kids: seq<Linked>, d: Values)
    ensures Spec.FixupProps(mt, st, t, kids[|kids|..], d) == Some(d)
  {
  }

  /** `ufdt_overlay_do_fixups`. */
  method DoFixups(h: NodeHeap, mem: BlobMemory, mainRoot: Addr, root: Addr, ghost mt: Linked, ghost t: Linked,
                  ghost stale: set<Addr>)
    returns (err: int)
    requires mainRoot != NULL && mt.id == mainRoot && mt.Node? && Rep(h.nodes, mt, {})
    requires root != NULL && t.id == root && t.Node? && Rep(h.nodes, t, stale)
    requires Confined(ExternalAccesses(mt, t, mem.values))
    modifies mem
    ensures Updated(Spec.Fixups(mt, t, old(mem.values)), err, mem.values)
  {
    hide Rep, TreePath, Spec.FixupProps, Spec.HasProp, Confined, SymbolAccesses;
    var fixups := GetNodeByPath(h, mem, root, "/__fixups__", t, stale);
    AbsolutePath(t, mem.values, "/__fixups__", "__fixups__");
    AbsolutePath(mt, mem.values, "/__symbols__", "__symbols__");
    if fixups == NULL {
      return 0;
    }
    ghost var f := Subnode(t, "__fixups__").value;
    var symbols := GetNodeByPath(h, mem, mainRoot, "/__symbols__", mt, {});
    ghost var s := Subnode(mt, "__symbols__");
    var any := HasAnyProp(h, fixups, f, stale);
    if any {
      if symbols == NULL {
        return -1;
      }
      err := DoFixupProps(h, mem, mainRoot, symbols, root, fixups, mt, s.value, t, f, stale);
    } else {
      err := 0;
    }
  }
}
