/** Fixups that are about no phandle property leave all phandles as renumbering made them. */
module Sparing {
  import opened Bytes
  import opened Trees
  import opened Paths
  import opened Phandles
  import opened Numbers
  import opened OverlaySpec
  import opened Confinement
  import opened Renumbering
  import opened FixupPlans
  import opened Uniqueness

  lemma {:induction false} AgreeBoth<I(!new)>(d: Store<I>, d': Store<I>, d'': Store<I>, s: set<I>)
    requires Agree(d, d', s) && Agree(d', d'', s)
    ensures Agree(d, d'', s)
  {
  }

  lemma {:induction false} PutAgrees<I(!new)>(d: Store<I>, i: I, v: seq<byte>, s: set<I>)
    requires i !in s && v != [] && |v| == |Val(d, i)|
    ensures Agree(d, d[i := v], s)
  {
  }

  // ---------------------------------------------------------------- local fixups

  lemma {:induction false} CellsSpare<I(!new)>(d: Store<I>, target: I, fixup: I, len: nat, i: nat, delta: u32,
                                               s: set<I>)
    requires Spares(CellAccesses(d, target, fixup, len, i, delta), s)
    ensures var r := LocalCells(d, target, fixup, len, i, delta); r.Some? ==> Agree(d, r.value, s)
    decreases len - i
  {
    hide Increase, Get32, LocalCheck;
    if i < len {
      var cell, v := Get32(Val(d, fixup), i), Val(d, target);
      if CellInside(|v|, cell) {
        var d' := d[target := Increase(v, cell, delta)];
        assert Access(target, ToInt32(cell), |v|) in CellAccesses(d, target, fixup, len, i, delta);
        PutAgrees(d, target, Increase(v, cell, delta), s);
        CellsSpare(d', target, fixup, len, i + CELL, delta, s);
        var r := LocalCells(d', target, fixup, len, i + CELL, delta);
        if r.Some? {
          AgreeBoth(d, d', r.value, s);
        }
      }
    }
  }

  lemma {:induction false} PropsSpare<N, I(!new)>(t: Tree<N, I>, fixups: seq<Tree<N, I>>, d: Store<I>, delta: u32,
                                                  s: set<I>)
    requires Spares(PropAccesses(t, fixups, d, delta), s)
    ensures var r := LocalProps(t, fixups, d, delta); r.Some? ==> Agree(d, r.value, s)
    decreases |fixups|
  {
    hide LocalCells, CellAccesses;
    if fixups != [] {
      if fixups[0].Node? {
        PropsSpare(t, fixups[1..], d, delta, s);
      } else if PropOf(t, fixups[0].name).Some? {
        var p, list := PropOf(t, fixups[0].name).value, fixups[0].data;
        CellsSpare(d, p, list, |Val(d, list)|, 0, delta, s);
        var r := LocalCells(d, p, list, |Val(d, list)|, 0, delta);
        if r.Some? {
          PropsSpare(t, fixups[1..], r.value, delta, s);
          var r' := LocalProps(t, fixups[1..], r.value, delta);
          if r'.Some? {
            AgreeBoth(d, r.value, r'.value, s);
          }
        }
      }
    }
  }

  lemma {:induction false} NodesSpare<N, I(!new)>(t: Tree<N, I>, fixups: seq<Tree<N, I>>, d: Store<I>, delta: u32,
                                                  s: set<I>)
    requires Spares(NodeAccesses(t, fixups, d, delta), s)
    ensures var r := LocalNodes(t, fixups, d, delta); r.Some? ==> Agree(d, r.value, s)
    decreases fixups
  {
    hide LocalFixup, LocalAccesses, Resolve;
    if fixups != [] {
      if fixups[0].Prop? {
        NodesSpare(t, fixups[1..], d, delta, s);
      } else if Resolve(t, fixups[0].name).Some? {
        var sub := Resolve(t, fixups[0].name).value;
        LocalSpares(sub, fixups[0], d, delta, s);
        var r := LocalFixup(sub, fixups[0], d, delta);
        if r.Some? {
          NodesSpare(t, fixups[1..], r.value, delta, s);
          var r' := LocalNodes(t, fixups[1..], r.value, delta);
          if r'.Some? {
            AgreeBoth(d, r.value, r'.value, s);
          }
        }
      }
    }
  }

  lemma {:induction false} LocalSpares<N, I(!new)>(t: Tree<N, I>, fixups: Tree<N, I>, d: Store<I>, delta: u32,
                                                   s: set<I>)
    requires fixups.Node? && Spares(LocalAccesses(t, fixups, d, delta), s)
    ensures var r := LocalFixup(t, fixups, d, delta); r.Some? ==> Agree(d, r.value, s)
    decreases fixups
  {
    hide LocalProps, LocalNodes, PropAccesses, NodeAccesses;
    PropsSpare(t, fixups.kids, d, delta, s);
    var r := LocalProps(t, fixups.kids, d, delta);
    if r.Some? {
      NodesSpare(t, fixups.kids, r.value, delta, s);
      var r' := LocalNodes(t, fixups.kids, r.value, delta);
      if r'.Some? {
        AgreeBoth(d, r.value, r'.value, s);
      }
    }
  }

  lemma {:induction false} OwnSpare<N, I(!new)>(o: Tree<N, I>, d: Store<I>, delta: u32, s: set<I>)
    requires Spares(OwnAccesses(o, d, delta), s)
    ensures var r := LocalFixups(o, d, delta); r.Some? ==> Agree(d, r.value, s)
  {
    WholeTree(o);
    hide Subnode, LocalFixup, LocalAccesses, Resolve;
    var local := Subnode(o, "__local_fixups__");
    if local.Some? && local.value.Node? {
      LocalSpares(o, local.value, d, delta, s);
    }
  }

  // ---------------------------------------------------------------- external fixups

  lemma {:induction false} ListSpares<N, I(!new)>(o: Tree<N, I>, d: Store<I>, list: I, len: nat, pos: nat, phandle: u32,
                                                  s: set<I>)
    requires Spares(ListAccesses(o, d, list, len, pos, phandle), s)
    ensures var r := OneFixup(o, d, list, len, pos, phandle); r.Some? ==> Agree(d, r.value, s)
    decreases len - pos
  {
    hide FixupPlace, CString, Put32;
    if pos < len {
      var bytes := Val(d, list);
      var fixup := if pos <= |bytes| then CString(bytes[pos..]) else "";
      var at := FixupPlace(o, d, fixup);
      if at.Some? && CellInside(|Val(d, at.value.prop)|, at.value.offset) {
        var prop, offset := at.value.prop, at.value.offset;
        var v := Put32(Val(d, prop), offset, phandle);
        assert Access(prop, offset, |v|) in ListAccesses(o, d, list, len, pos, phandle);
        PutAgrees(d, prop, v, s);
        ListSpares(o, d[prop := v], list, len, pos + |fixup| + 1, phandle, s);
        var r := OneFixup(o, d[prop := v], list, len, pos + |fixup| + 1, phandle);
        if r.Some? {
          AgreeBoth(d, d[prop := v], r.value, s);
        }
      }
    }
  }

  lemma {:induction false} SymbolsSpare<N, I(!new)>(m: Tree<N, I>, symbols: Tree<N, I>, o: Tree<N, I>,
                                                    fixups: seq<Tree<N, I>>, d: Store<I>, s: set<I>)
    requires Spares(SymbolAccesses(m, symbols, o, fixups, d), s)
    ensures var r := FixupProps(m, symbols, o, fixups, d); r.Some? ==> Agree(d, r.value, s)
    decreases |fixups|
  {
    hide SymbolNode, OneFixup, ListAccesses, Phandle;
    if fixups != [] {
      var node := SymbolNode(m, d, symbols, fixups[0].name);
      if fixups[0].Node? {
        SymbolsSpare(m, symbols, o, fixups[1..], d, s);
      } else if node.Some? {
        var list, phandle := fixups[0].data, Phandle(node.value, d);
        ListSpares(o, d, list, |Val(d, list)|, 0, phandle, s);
        var r := OneFixup(o, d, list, |Val(d, list)|, 0, phandle);
        if r.Some? {
          SymbolsSpare(m, symbols, o, fixups[1..], r.value, s);
          var r' := FixupProps(m, symbols, o, fixups[1..], r.value);
          if r'.Some? {
            AgreeBoth(d, r.value, r'.value, s);
          }
        }
      }
    }
  }

  lemma {:induction false} ExternalSpares<N, I(!new)>(m: Tree<N, I>, o: Tree<N, I>, d: Store<I>, s: set<I>)
    requires Spares(ExternalAccesses(m, o, d), s)
    ensures var r := Fixups(m, o, d); r.Some? ==> Agree(d, r.value, s)
  {
    hide Subnode, FixupProps, SymbolAccesses, HasProp;
    var fixups, symbols := Subnode(o, "__fixups__"), Subnode(m, "__symbols__");
    if fixups.Some? && fixups.value.Node? && symbols.Some? {
      SymbolsSpare(m, symbols.value, o, fixups.value.kids, d, s);
    }
  }

  // ---------------------------------------------------------------- the whole run

  /** A run whose fixups are about no phandle property leaves all phandles as renumbered. */
  lemma {:induction false} SparingKeeps<N(!new), I(!new)>(m: Tree<N, I>, table: seq<Entry<N>>, o: Tree<N, I>,
                                                          d: Store<I>)
    requires Spares(FixupAccesses(m, table, o, d), PhandleRecords(o))
    ensures KeepsPhandles(m, table, o, d)
  {
    hide OwnAccesses, ExternalAccesses, LocalFixups, Fixups, PhandleRecords, Renumbered;
    var delta, d1, s := MaxPhandle(table), Renumbered(table, o, d), PhandleRecords(o);
    OwnSpare(o, d1, delta, s);
    UpdateIs(m, table, o, d);
    var r := LocalFixups(o, d1, delta);
    if r.Some? {
      ExternalSpares(m, o, r.value, s);
      var r' := Fixups(m, o, r.value);
      if r'.Some? {
        AgreeBoth(d1, r.value, r'.value, s);
      }
    }
  }
}
