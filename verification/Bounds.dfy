/** Offsets that an overlay may list: a condition on its own values under which no check is outwitted. */
module Bounds {
  import opened Bytes
  import opened Trees
  import opened Paths
  import opened Phandles
  import opened Numbers
  import opened OverlaySpec
  import opened Confinement
  import opened Renumbering
  import opened ReferenceLaws
  import opened FixupPlans
  import opened Uniqueness
  import opened Targeting
  import opened Tameness

  // ---------------------------------------------------------------- the condition

  /** From byte `i` on, the cells of a list of offsets are below 2^32 - 4. */
  predicate CellsFit(list: seq<byte>, i: nat)
    decreases |list| - i
  {
    i < |list| ==> Get32(list, i) < U32_LIMIT - CELL && CellsFit(list, i + CELL)
  }

  /** Cut off to an `int`, the number at the end of the string is not negative and not within 4 of the limit. */
  predicate StringFits(fixup: string) {
    var i := IndexOf(fixup, ':');
    i < |fixup| ==>
      var rest := fixup[i + 1..];
      var j := IndexOf(rest, ':');
      j < |rest| ==>
        var number := StrToUl(rest[j + 1..]);
        number.Some? ==> 0 <= ToInt32(number.value) < INT_LIMIT - CELL
  }

  /** The same for all strings of a property. */
  predicate StringsFit(list: seq<byte>, pos: nat)
    decreases |list| - pos
  {
    pos < |list| ==> var s := CString(list[pos..]); StringFits(s) && StringsFit(list, pos + |s| + 1)
  }

  /** The offsets under `__local_fixups__` and `__fixups__`, the targets of fragments, and all lengths. */
  ghost predicate OffsetsFit<N, I(!new)>(o: Tree<N, I>, d: Store<I>) {
    var local, fixups := Subnode(o, "__local_fixups__"), Subnode(o, "__fixups__");
    && (local.Some? ==> forall x | x in Records(local.value) :: CellsFit(Val(d, x), 0))
    && (fixups.Some? ==> forall x | x in Records(fixups.value) :: StringsFit(Val(d, x), 0))
    && (o.Node? ==> TargetsFilled(o.kids, d))
    && Short(d, Records(o))
  }

  ghost predicate Short<I(!new)>(d: Store<I>, s: set<I>) {
    forall x | x in s :: |Val(d, x)| < INT_LIMIT
  }

  // ---------------------------------------------------------------- one write after the other

  lemma {:induction false} PutAlike<I(!new)>(d: Store<I>, d': Store<I>, i: I, v: seq<byte>, lens: set<I>, s: set<I>)
    requires Alike(d, d', lens, s) && i !in s && |v| == |Val(d', i)|
    ensures Alike(d, d'[i := v], lens, s)
  {
  }

  lemma {:induction false} CellsBounded<I(!new)>(d: Store<I>, d': Store<I>, target: I, fixup: I, len: nat, i: nat,
                                                 delta: u32, lens: set<I>, s: set<I>)
    requires Alike(d, d', lens, s) && fixup in s && target in lens && Short(d, lens)
    requires len == |Val(d, fixup)| && CellsFit(Val(d, fixup), i)
    requires Quiet(PlanCells(d, target, fixup, len, i).edits, s)
    ensures Confined(CellAccesses(d', target, fixup, len, i, delta))
    ensures var r := LocalCells(d', target, fixup, len, i, delta);
            r.Some? ==> Alike(d, r.value, lens, s) && PlanCells(d, target, fixup, len, i).ok
    decreases len - i
  {
    hide Increase, Get32, LocalCheck, Alike, Quiet;
    AlikeAt(d, d', lens, s, target, fixup);
    if i < len {
      var cell, v := Get32(Val(d, fixup), i), Val(d', target);
      LocalCheckIff(|v|, cell);
      if CellInside(|v|, cell) {
        var d'' := d'[target := Increase(v, cell, delta)];
        QuietFirst(Bump(Location(target, cell)), PlanCells(d, target, fixup, len, i + CELL), s);
        PutAlike(d, d', target, Increase(v, cell, delta), lens, s);
        CellsBounded(d, d'', target, fixup, len, i + CELL, delta, lens, s);
        SmallCell(cell, |v|);
      }
    }
  }

  lemma {:induction false} SmallCell(cell: u32, len: nat)
    requires CellInside(len, cell) && len < INT_LIMIT
    ensures ToInt32(cell) == cell
  {
  }

  lemma {:induction false} AlikeAt<I(!new)>(d: Store<I>, d': Store<I>, lens: set<I>, s: set<I>, x: I, y: I)
    requires Alike(d, d', lens, s) && x in lens && y in s && Short(d, lens)
    ensures |Val(d', x)| == |Val(d, x)| < INT_LIMIT && Val(d', y) == Val(d, y)
  {
  }

  // ---------------------------------------------------------------- local fixups

  lemma {:induction false} PropsBounded<N, I(!new)>(t: Tree<N, I>, fixups: seq<Tree<N, I>>, d: Store<I>, d': Store<I>,
                                                    delta: u32, lens: set<I>, s: set<I>)
    requires Alike(d, d', lens, s) && KidRecords(fixups) <= s && Records(t) <= lens && Short(d, lens)
    requires forall x | x in KidRecords(fixups) :: CellsFit(Val(d, x), 0)
    requires Quiet(PlanProps(t, fixups, d).edits, s)
    ensures Confined(PropAccesses(t, fixups, d', delta))
    ensures var r := LocalProps(t, fixups, d', delta);
            r.Some? ==> Alike(d, r.value, lens, s) && PlanProps(t, fixups, d).ok
    decreases |fixups|
  {
    hide LocalCells, CellAccesses, PlanCells, Alike, CellsFit, Records, KidRecords;
    if fixups != [] {
      TailRecords(fixups);
      if fixups[0].Node? {
        PropsBounded(t, fixups[1..], d, d', delta, lens, s);
      } else if PropOf(t, fixups[0].name).Some? {
        var p, list := PropOf(t, fixups[0].name).value, fixups[0].data;
        PropInRecords(t, fixups[0].name);
        OwnRecord(fixups[0]);
        AlikeAt(d, d', lens, s, p, list);
        QuietThen(PlanCells(d, p, list, |Val(d, list)|, 0), PlanProps(t, fixups[1..], d), s);
        CellsBounded(d, d', p, list, |Val(d, list)|, 0, delta, lens, s);
        var r := LocalCells(d', p, list, |Val(d', list)|, 0, delta);
        if r.Some? {
          PropsBounded(t, fixups[1..], d, r.value, delta, lens, s);
        }
      }
    }
  }

  lemma {:induction false} OwnRecord<N, D>(t: Tree<N, D>)
    requires t.Prop?
    ensures t.data in Records(t)
  {
  }

  lemma {:induction false} NodesBounded<N, I(!new)>(t: Tree<N, I>, fixups: seq<Tree<N, I>>, d: Store<I>, d': Store<I>,
                                                    delta: u32, lens: set<I>, s: set<I>)
    requires Alike(d, d', lens, s) && KidRecords(fixups) <= s && Records(t) <= lens && Short(d, lens)
    requires forall x | x in KidRecords(fixups) :: CellsFit(Val(d, x), 0)
    requires Quiet(PlanNodes(t, fixups, d).edits, s)
    ensures Confined(NodeAccesses(t, fixups, d', delta))
    ensures var r := LocalNodes(t, fixups, d', delta);
            r.Some? ==> Alike(d, r.value, lens, s) && PlanNodes(t, fixups, d).ok
    decreases fixups
  {
    hide LocalFixup, LocalAccesses, PlanLocal, Resolve, Alike, CellsFit, Records, KidRecords, Short;
    if fixups != [] {
      TailRecords(fixups);
      if fixups[0].Prop? {
        NodesBounded(t, fixups[1..], d, d', delta, lens, s);
      } else if Resolve(t, fixups[0].name).Some? {
        var sub := Resolve(t, fixups[0].name).value;
        ResolveRecords(t, fixups[0].name);
        QuietThen(PlanLocal(sub, fixups[0], d), PlanNodes(t, fixups[1..], d), s);
        LocalBounded(sub, fixups[0], d, d', delta, lens, s);
        var r := LocalFixup(sub, fixups[0], d', delta);
        if r.Some? {
          NodesBounded(t, fixups[1..], d, r.value, delta, lens, s);
        }
      }
    }
  }

  lemma {:induction false} LocalBounded<N, I(!new)>(t: Tree<N, I>, fixups: Tree<N, I>, d: Store<I>, d': Store<I>,
                                                    delta: u32, lens: set<I>, s: set<I>)
    requires fixups.Node? && Alike(d, d', lens, s) && Records(fixups) <= s && Records(t) <= lens && Short(d, lens)
    requires forall x | x in Records(fixups) :: CellsFit(Val(d, x), 0)
    requires Quiet(PlanLocal(t, fixups, d).edits, s)
    ensures Confined(LocalAccesses(t, fixups, d', delta))
    ensures var r := LocalFixup(t, fixups, d', delta);
            r.Some? ==> Alike(d, r.value, lens, s) && PlanLocal(t, fixups, d).ok
    decreases fixups
  {
    hide LocalProps, LocalNodes, PropAccesses, NodeAccesses, PlanProps, PlanNodes, Alike, CellsFit, Short;
    QuietThen(PlanProps(t, fixups.kids, d), PlanNodes(t, fixups.kids, d), s);
    PropsBounded(t, fixups.kids, d, d', delta, lens, s);
    var r := LocalProps(t, fixups.kids, d', delta);
    if r.Some? {
      NodesBounded(t, fixups.kids, d, r.value, delta, lens, s);
    }
  }

  // ---------------------------------------------------------------- external fixups

  /** A number that fits passes the check only inside the value. */
  lemma {:induction false} PlaceInside<N, I(!new)>(o: Tree<N, I>, d: Store<I>, fixup: string)
    requires StringFits(fixup) && Short(d, Records(o))
    ensures var at := FixupPlace(o, d, fixup);
            at.Some? ==>
              var size := |Val(d, at.value.prop)|;
              at.value.prop in Records(o) && size < INT_LIMIT && CellInside(size, at.value.offset)
  {
    hide TreePath, StrToUl, ToInt32, FixupCheck, Records;
    var at := FixupPlace(o, d, fixup);
    if at.Some? {
      var i := IndexOf(fixup, ':');
      var rest := fixup[i + 1..];
      TreePathRecords(o, d, fixup[..i]);
      PropInRecords(TreePath(o, d, fixup[..i]).value, rest[..IndexOf(rest, ':')]);
      FixupCheckIff(|Val(d, at.value.prop)|, at.value.offset);
    }
  }

  lemma {:induction false} ShortAlike<I(!new)>(d: Store<I>, d': Store<I>, lens: set<I>, s: set<I>)
    requires Alike(d, d', lens, s) && Short(d, lens)
    ensures Short(d', lens)
  {
  }

  lemma {:induction false} ListBounded<N, I(!new)>(o: Tree<N, I>, d: Store<I>, d': Store<I>, list: I, len: nat,
                                                   pos: nat, phandle: u32, s: set<I>)
    requires Alike(d, d', Records(o), s) && AliasRecords(o) <= s && list in s && Short(d, Records(o))
    requires len == |Val(d, list)| && StringsFit(Val(d, list), pos)
    requires Quiet(PlanList(o, d, list, len, pos, 0).edits, s)
    ensures Confined(ListAccesses(o, d', list, len, pos, phandle))
    ensures var r := OneFixup(o, d', list, len, pos, phandle); r.Some? ==> Alike(d, r.value, Records(o), s)
    decreases len - pos
  {
    hide FixupPlace, CString, Put32, Records, AliasRecords, StringFits, Alike, Short, Quiet;
    if pos < len {
      SameList(d, d', Records(o), s, list);
      var bytes := Val(d, list);
      var fixup := CString(bytes[pos..]);
      LocationAlike(o, d, d', fixup, Records(o), s);
      ShortAlike(d, d', Records(o), s);
      PlaceInside(o, d', fixup);
      var at := FixupPlace(o, d', fixup);
      if at.Some? {
        var prop, offset := at.value.prop, at.value.offset;
        var v := Put32(Val(d', prop), offset, phandle);
        SameLength(d, d', Records(o), s, prop);
        QuietFirst(Assign(Location(prop, offset), 0), PlanList(o, d, list, len, pos + |fixup| + 1, 0), s);
        PutAlike(d, d', prop, v, Records(o), s);
        ListBounded(o, d, d'[prop := v], list, len, pos + |fixup| + 1, phandle, s);
      }
    }
  }

  lemma {:induction false} SameList<I(!new)>(d: Store<I>, d': Store<I>, lens: set<I>, s: set<I>, x: I)
    requires Alike(d, d', lens, s) && x in s
    ensures Val(d', x) == Val(d, x)
  {
  }

  lemma {:induction false} SameLength<I(!new)>(d: Store<I>, d': Store<I>, lens: set<I>, s: set<I>, x: I)
    requires Alike(d, d', lens, s) && x in lens
    ensures |Val(d', x)| == |Val(d, x)|
  {
  }

  lemma {:induction false} SymbolsBounded<N, I(!new)>(m: Tree<N, I>, symbols: Tree<N, I>, o: Tree<N, I>,
                                                      fixups: seq<Tree<N, I>>, d: Store<I>, d': Store<I>, own: set<I>,
                                                      s: set<I>)
    requires Alike(d, d', Records(o), own) && AliasRecords(o) <= own && KidRecords(fixups) <= own <= s
            && Short(d, Records(o))
    requires forall x | x in KidRecords(fixups) :: StringsFit(Val(d, x), 0)
    requires TameLists(o, fixups, d, s)
    ensures Confined(SymbolAccesses(m, symbols, o, fixups, d'))
    decreases |fixups|
  {
    hide SymbolNode, OneFixup, ListAccesses, Phandle, AliasRecords, Alike, StringsFit, Records, KidRecords, Short;
    if fixups != [] {
      TailRecords(fixups);
      assert TameLists(o, fixups[1..], d, s);
      var node := SymbolNode(m, d', symbols, fixups[0].name);
      if fixups[0].Node? {
        SymbolsBounded(m, symbols, o, fixups[1..], d, d', own, s);
      } else if node.Some? {
        var list, phandle := fixups[0].data, Phandle(node.value, d');
        OwnRecord(fixups[0]);
        assert TameList(o, list, d, s);
        QuietLess(PlanList(o, d, list, |Val(d, list)|, 0, 0).edits, own, s);
        SameList(d, d', Records(o), own, list);
        ListBounded(o, d, d', list, |Val(d, list)|, 0, phandle, own);
        var r := OneFixup(o, d', list, |Val(d', list)|, 0, phandle);
        if r.Some? {
          SymbolsBounded(m, symbols, o, fixups[1..], d, r.value, own, s);
        }
      }
    }
  }

  lemma {:induction false} QuietLess<I>(edits: seq<Edit<I>>, s: set<I>, t: set<I>)
    requires Quiet(edits, t) && s <= t
    ensures Quiet(edits, s)
  {
  }

  // ---------------------------------------------------------------- the whole overlay

  /** A tame overlay whose offsets fit stays inside its values, whatever the main tree. */
  lemma {:induction false} FittingIsBounded<N(!new), I(!new)>(m: Tree<N, I>, table: seq<Entry<N>>, o: Tree<N, I>,
                                                              d: Store<I>)
    requires o.Node? && Tame(o, d) && OffsetsFit(o, d)
    ensures WellBounded(m, table, o, d)
  {
    var delta, d1, own := MaxPhandle(table), Renumbered(table, o, d), OwnReads(o);
    RenumberedAlike(table, o, d);
    hide Renumbered, Alike, Short;
    LocalPartBounded(o, d, d1, delta);
    var r := LocalFixups(o, d1, delta);
    if r.Some? {
      ExternalPartBounded(m, o, d, r.value);
    }
  }

  lemma {:induction false} LocalPartBounded<N(!new), I(!new)>(o: Tree<N, I>, d: Store<I>, d': Store<I>, delta: u32)
    requires o.Node? && Tame(o, d) && OffsetsFit(o, d) && Alike(d, d', Records(o), OwnReads(o))
    ensures Confined(OwnAccesses(o, d', delta))
    ensures var r := LocalFixups(o, d', delta); r.Some? ==> Alike(d, r.value, Records(o), OwnReads(o))
  {
    WholeTree(o);
    hide Subnode, PlanLocal, LocalFixup, LocalAccesses, Alike, Short, CellsFit, Resolve, PhandleRecords, AliasRecords;
    hide Records;
    var local, own := Subnode(o, "__local_fixups__"), OwnReads(o);
    QuietLess(LocalPart(o, d).edits, own, own + PhandleRecords(o));
    if local.Some? && local.value.Node? {
      LocalBounded(o, local.value, d, d', delta, Records(o), own);
    }
  }

  lemma {:induction false} ExternalPartBounded<N(!new), I(!new)>(m: Tree<N, I>, o: Tree<N, I>, d: Store<I>,
                                                                 d': Store<I>)
    requires o.Node? && Tame(o, d) && OffsetsFit(o, d) && Alike(d, d', Records(o), OwnReads(o))
    ensures Confined(ExternalAccesses(m, o, d'))
  {
    hide Subnode, PlanLocal, SymbolAccesses, Alike, Short, StringsFit, PhandleRecords, AliasRecords, Records;
    hide KidRecords;
    var fixups, symbols, own := Subnode(o, "__fixups__"), Subnode(m, "__symbols__"), OwnReads(o);
    SubnodeParts(o, "__fixups__");
    if fixups.Some? && fixups.value.Node? && symbols.Some? {
      SymbolsBounded(m, symbols.value, o, fixups.value.kids, d, d', own, own + PhandleRecords(o));
    }
  }

  /** The condition depends on the overlay's own values only. */
  lemma {:induction false} OffsetsSame<N, I(!new)>(o: Tree<N, I>, d: Store<I>, d': Store<I>)
    requires OffsetsFit(o, d) && forall i | i in Records(o) :: Val(d', i) == Val(d, i)
    ensures OffsetsFit(o, d')
  {
    hide CellsFit, StringsFit, Subnode;
    SubnodeParts(o, "__local_fixups__");
    SubnodeParts(o, "__fixups__");
    if o.Node? {
      forall i | 0 <= i < |o.kids| ensures TargetFilled(o.kids[i], d') {
        assert TargetFilled(o.kids[i], d);
        KidRecordsContain(o.kids, i);
        if PropOf(o.kids[i], "target").Some? {
          PropInRecords(o.kids[i], "target");
        }
      }
    }
  }
}
