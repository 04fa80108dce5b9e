/** What every reference update keeps, whatever the fixups say. */
module ReferenceLaws {
  import opened Bytes
  import opened Trees
  import opened Paths
  import opened Phandles
  import opened OverlaySpec
  import opened Renumbering

  /** Values changed only in records of `s`, and none changed its length. */
  ghost predicate Within<I(!new)>(d: Store<I>, d': Store<I>, s: set<I>) {
    SameLengths(d, d') && forall i | i in d && i !in s :: d'[i] == d[i]
  }

  lemma {:induction false} PutWithin<I(!new)>(d: Store<I>, i: I, offset: nat, v: u32, s: set<I>)
    requires offset + CELL <= |Val(d, i)| && i in s
    ensures Within(d, d[i := Put32(Val(d, i), offset, v)], s)
  {
  }

  lemma {:induction false} PropInRecords<N, D>(t: Tree<N, D>, name: string)
    requires PropOf(t, name).Some?
    ensures PropOf(t, name).value in Records(t)
  {
    var i := Find(t.kids, false, name);
    assert PropOf(t, name).value in Records(t.kids[i]);
    KidRecordsContain(t.kids, i);
  }

  lemma {:induction false} DescendRecords<N, D>(t: Tree<N, D>, path: seq<string>)
    requires Descend(t, path).Some?
    ensures Records(Descend(t, path).value) <= Records(t)
    decreases path
  {
    if path != [] {
      var i := Find(t.kids, true, path[0]);
      DescendRecords(t.kids[i], path[1..]);
      KidRecordsContain(t.kids, i);
    }
  }

  lemma {:induction false} TreePathRecords<N, I>(t: Tree<N, I>, d: Store<I>, path: string)
    requires TreePath(t, d, path).Some?
    ensures Records(TreePath(t, d, path).value) <= Records(t)
  {
    if path != "" && path[0] == '/' {
      DescendRecords(t, Components(path));
    } else {
      AliasExpands(t, d, path);
      var k := IndexOf(path, '/');
      var v := Val(d, PropAt(t, ["aliases"], path[..k]).value);
      DescendRecords(t, AliasComponents(v) + Components(path[k..]));
    }
  }

  // ---------------------------------------------------------------- local fixups

  lemma {:induction false} LocalCellsWithin<I(!new)>(d: Store<I>, target: I, fixup: I, len: nat, i: nat, delta: u32,
                                                     s: set<I>)
    requires target in s
    ensures var r := LocalCells(d, target, fixup, len, i, delta); r.Some? ==> Within(d, r.value, s)
    decreases len - i
  {
    if i < len {
      var offset := Get32(Val(d, fixup), i);
      if offset + CELL <= |Val(d, target)| {
        PutWithin(d, target, offset, Add32(Get32(Val(d, target), offset), delta), s);
        LocalCellsWithin(d[target := Increase(Val(d, target), offset, delta)], target, fixup, len, i + CELL, delta, s);
      }
    }
  }

  lemma {:induction false} LocalPropsWithin<N, I(!new)>(t: Tree<N, I>, fixups: seq<Tree<N, I>>, d: Store<I>, delta: u32,
                                                        s: set<I>)
    requires Records(t) <= s
    ensures var r := LocalProps(t, fixups, d, delta); r.Some? ==> Within(d, r.value, s)
    decreases |fixups|
  {
    if fixups != [] {
      if fixups[0].Node? {
        LocalPropsWithin(t, fixups[1..], d, delta, s);
      } else if PropOf(t, fixups[0].name).Some? {
        var list := fixups[0].data;
        PropInRecords(t, fixups[0].name);
        LocalCellsWithin(d, PropOf(t, fixups[0].name).value, list, |Val(d, list)|, 0, delta, s);
        var r := LocalCells(d, PropOf(t, fixups[0].name).value, list, |Val(d, list)|, 0, delta);
        if r.Some? {
          LocalPropsWithin(t, fixups[1..], r.value, delta, s);
        }
      }
    }
  }

  lemma {:induction false} LocalNodesWithin<N, I(!new)>(t: Tree<N, I>, fixups: seq<Tree<N, I>>, d: Store<I>, delta: u32,
                                                        s: set<I>)
    requires Records(t) <= s
    ensures var r := LocalNodes(t, fixups, d, delta); r.Some? ==> Within(d, r.value, s)
    decreases fixups
  {
    if fixups != [] {
      if fixups[0].Prop? {
        LocalNodesWithin(t, fixups[1..], d, delta, s);
      } else if Resolve(t, fixups[0].name).Some? {
        var sub := Resolve(t, fixups[0].name).value;
        DescendRecords(t, Components(fixups[0].name));
        LocalFixupWithin(sub, fixups[0], d, delta, s);
        var r := LocalFixup(sub, fixups[0], d, delta);
        if r.Some? {
          LocalNodesWithin(t, fixups[1..], r.value, delta, s);
        }
      }
    }
  }

  lemma {:induction false} LocalFixupWithin<N, I(!new)>(t: Tree<N, I>, fixups: Tree<N, I>, d: Store<I>, delta: u32,
                                                        s: set<I>)
    requires fixups.Node? && Records(t) <= s
    ensures var r := LocalFixup(t, fixups, d, delta); r.Some? ==> Within(d, r.value, s)
    decreases fixups
  {
    LocalPropsWithin(t, fixups.kids, d, delta, s);
    var r := LocalProps(t, fixups.kids, d, delta);
    if r.Some? {
      LocalNodesWithin(t, fixups.kids, r.value, delta, s);
    }
  }

  // ---------------------------------------------------------------- external fixups

  lemma {:induction false} LocationIn<N, I(!new)>(o: Tree<N, I>, d: Store<I>, fixup: string)
    ensures var at := FixupLocation(o, d, fixup); at.Some? ==> at.value.prop in Records(o)
  {
    hide TreePath;
    var at := FixupLocation(o, d, fixup);
    if at.Some? {
      var i := IndexOf(fixup, ':');
      var rest := fixup[i + 1..];
      TreePathRecords(o, d, fixup[..i]);
      PropInRecords(TreePath(o, d, fixup[..i]).value, rest[..IndexOf(rest, ':')]);
    }
  }

  lemma {:induction false} OneFixupWithin<N, I(!new)>(o: Tree<N, I>, d: Store<I>, fixups: I, len: nat, pos: nat,
                                                      phandle: u32)
    ensures var r := OneFixup(o, d, fixups, len, pos, phandle); r.Some? ==> Within(d, r.value, Records(o))
    decreases len - pos
  {
    hide FixupLocation, CString, Put32, Records;
    if pos < len {
      var list := Val(d, fixups);
      var fixup := if pos <= |list| then CString(list[pos..]) else "";
      var at := FixupLocation(o, d, fixup);
      if at.Some? && |Val(d, at.value.prop)| >= at.value.offset + CELL {
        LocationIn(o, d, fixup);
        PutWithin(d, at.value.prop, at.value.offset, phandle, Records(o));
        OneFixupWithin(o, d[at.value.prop := Put32(Val(d, at.value.prop), at.value.offset, phandle)], fixups, len, pos
            + |fixup| + 1, phandle);
      }
    }
  }

  lemma {:induction false} FixupPropsWithin<N, I(!new)>(m: Tree<N, I>, symbols: Tree<N, I>, o: Tree<N, I>,
                                                        fixups: seq<Tree<N, I>>, d: Store<I>)
    ensures var r := FixupProps(m, symbols, o, fixups, d); r.Some? ==> Within(d, r.value, Records(o))
    decreases |fixups|
  {
    hide SymbolNode, OneFixup, Phandle;
    if fixups != [] {
      var node := SymbolNode(m, d, symbols, fixups[0].name);
      if fixups[0].Node? {
        FixupPropsWithin(m, symbols, o, fixups[1..], d);
      } else if node.Some? {
        var list := fixups[0].data;
        OneFixupWithin(o, d, list, |Val(d, list)|, 0, Phandle(node.value, d));
        var r := OneFixup(o, d, list, |Val(d, list)|, 0, Phandle(node.value, d));
        if r.Some? {
          FixupPropsWithin(m, symbols, o, fixups[1..], r.value);
        }
      }
    }
  }

  // ---------------------------------------------------------------- all of it

  lemma {:induction false} ShiftWithin<N, I(!new)>(t: Tree<N, I>, d: Store<I>, delta: u32)
    requires OwnRecords(t)
    ensures Within(d, Shift(t, d, delta), Records(t))
  {
    PhandleCellsIn(t, d);
  }

  lemma {:induction false} LocalFixupsWithin<N, I(!new)>(o: Tree<N, I>, d: Store<I>, delta: u32)
    ensures var r := LocalFixups(o, d, delta); r.Some? ==> Within(d, r.value, Records(o))
  {
    var root, fixups := TreePath(o, d, "/"), Subnode(o, "__local_fixups__");
    hide TreePath, LocalFixup;
    if root.Some? && fixups.Some? && fixups.value.Node? {
      TreePathRecords(o, d, "/");
      LocalFixupWithin(root.value, fixups.value, d, delta, Records(o));
    }
  }

  lemma {:induction false} FixupsWithin<N, I(!new)>(m: Tree<N, I>, o: Tree<N, I>, d: Store<I>)
    ensures var r := Fixups(m, o, d); r.Some? ==> Within(d, r.value, Records(o))
  {
    var fixups, symbols := Subnode(o, "__fixups__"), Subnode(m, "__symbols__");
    hide TreePath, FixupProps, HasProp;
    if fixups.Some? && fixups.value.Node? && HasProp(fixups.value.kids) && symbols.Some? {
      FixupPropsWithin(m, symbols.value, o, fixups.value.kids, d);
    }
  }

  /** Updating references only changes values of the overlay, and no value changes its length. */
  lemma {:induction false} UpdateWithin<N(!new), I(!new)>(m: Tree<N, I>, table: seq<Entry<N>>, o: Tree<N, I>,
                                                          d: Store<I>)
    requires OwnRecords(o)
    ensures var r := UpdateReferences(m, table, o, d); r.Some? ==> Within(d, r.value, Records(o))
  {
    var delta := MaxPhandle(table);
    var d1 := if delta > 0 then Shift(o, d, delta) else d;
    var d2 := LocalFixups(o, d1, delta);
    ShiftWithin(o, d, delta);
    LocalFixupsWithin(o, d1, delta);
    if d2.Some? {
      FixupsWithin(m, o, d2.value);
    }
  }
}
