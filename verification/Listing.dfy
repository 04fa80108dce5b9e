/** What fixups list, cell by cell, and when all of it can be resolved: stated without following the code. */
module Listing {
  import opened Bytes
  import opened Trees
  import opened Paths
  import opened Phandles
  import opened Numbers
  import opened Spelling
  import opened OverlaySpec
  import opened Confinement
  import opened Addressing
  import opened Subtrees
  import opened Flattening
  import opened Renumbering
  import opened ReferenceLaws
  import opened FixupPlans
  import opened PhandleLaws
  import opened Uniqueness
  import opened Targeting

  // ---------------------------------------------------------------- lists of strings

  /** From `pos` on the bytes are these strings, each with its NUL. */
  ghost predicate AllSpelled(d: seq<byte>, pos: nat, ss: seq<string>)
    decreases ss
  {
    if ss == [] then pos >= |d| else pos < |d| && SpelledAt(d, pos, ss[0]) && AllSpelled(d, pos + |ss[0]| + 1, ss[1..])
  }

  /** The strings of a property are the ones that its bytes spell. */
  lemma {:induction false} StringsRead(d: seq<byte>, pos: nat)
    ensures AllSpelled(d, pos, Strings(d, |d|, pos))
    decreases |d| - pos
  {
    if pos < |d| {
      CStringReads(d, pos);
      var s := CString(d[pos..]);
      StringsRead(d, pos + |s| + 1);
      assert ([s] + Strings(d, |d|, pos + |s| + 1))[1..] == Strings(d, |d|, pos + |s| + 1);
    }
  }

  lemma {:induction false} StringsSpelled(d: seq<byte>, pos: nat, ss: seq<string>)
    requires AllSpelled(d, pos, ss)
    ensures Strings(d, |d|, pos) == ss
    decreases ss
  {
    hide SpelledAt, CString;
    if ss != [] {
      CStringIs(d, pos, ss[0]);
      StringsSpelled(d, pos + |ss[0]| + 1, ss[1..]);
      assert [ss[0]] + ss[1..] == ss;
    }
  }

  // ---------------------------------------------------------------- names

  /** A subnode is the first child node of that name; there is none exactly when no child node has it. */
  lemma {:induction false} SubnodeIs<N, D>(t: Tree<N, D>, name: string)
    requires t.Node?
    ensures Subnode(t, name).None? <==> forall i | 0 <= i < |t.kids| :: t.kids[i].Node? ==> t.kids[i].name != name
    ensures forall i | 0 <= i < |t.kids| && t.kids[i].Node? && t.kids[i].name == name
                       && (forall j | 0 <= j < i :: t.kids[j].Node? ==> t.kids[j].name != name) ::
              Subnode(t, name) == Some(t.kids[i])
  {
    var none: seq<string> := [];
    assert [name][1..] == none;
    var k := Find(t.kids, true, name);
    assert k < |t.kids| ==> Descend(t.kids[k], none) == Some(t.kids[k]);
    forall i | 0 <= i < |t.kids| && t.kids[i].Node? && t.kids[i].name == name
               && (forall j | 0 <= j < i :: t.kids[j].Node? ==> t.kids[j].name != name)
      ensures Subnode(t, name) == Some(t.kids[i])
    {
      FindIs(t.kids, true, name, i);
    }
  }

  /** The same for properties. */
  lemma {:induction false} PropOfIs<N, D>(t: Tree<N, D>, name: string)
    requires t.Node?
    ensures PropOf(t, name).None? <==> forall i | 0 <= i < |t.kids| :: t.kids[i].Prop? ==> t.kids[i].name != name
    ensures forall i | 0 <= i < |t.kids| && t.kids[i].Prop? && t.kids[i].name == name
                       && (forall j | 0 <= j < i :: t.kids[j].Prop? ==> t.kids[j].name != name) ::
              PropOf(t, name) == Some(t.kids[i].data)
  {
    var k := Find(t.kids, false, name);
    assert k < |t.kids| ==> Named(t.kids[k], false, name);
    forall i | 0 <= i < |t.kids| && t.kids[i].Prop? && t.kids[i].name == name
               && (forall j | 0 <= j < i :: t.kids[j].Prop? ==> t.kids[j].name != name)
      ensures PropOf(t, name) == Some(t.kids[i].data)
    {
      FindIs(t.kids, false, name, i);
    }
  }

  /** Descending one name further. */
  lemma {:induction false} DescendFurther<N, D>(t: Tree<N, D>, c: seq<string>, name: string)
    ensures Descend(t, c + [name]) == if Descend(t, c).None? then None else Subnode(Descend(t, c).value, name)
  {
    DescendAppend(t, c, [name]);
  }

  // ---------------------------------------------------------------- cells under __local_fixups__

  lemma {:induction false} CellListed<I>(d: Store<I>, target: I, fixup: I, len: nat, i: nat, k: nat) returns (j: nat)
    requires PlanCells(d, target, fixup, len, i).ok && i + CELL * k < len
    ensures var edits := PlanCells(d, target, fixup, len, i).edits;
            j < |edits| && edits[j] == Bump(Location(target, Get32(Val(d, fixup), i + CELL * k)))
    decreases k
  {
    hide Get32;
    if k == 0 {
      j := 0;
    } else {
      j := CellListed(d, target, fixup, len, i + CELL, k - 1);
      j := j + 1;
    }
  }

  /** One place in the first or in the second part. */
  lemma {:induction false} InThen<I>(p: Plan<I>, q: Plan<I>, j: nat)
    requires Then(p, q).ok
    ensures p.ok && q.ok
    ensures j < |p.edits| ==> j < |Then(p, q).edits| && Then(p, q).edits[j] == p.edits[j]
    ensures j < |q.edits| ==> |p.edits| + j < |Then(p, q).edits| && Then(p, q).edits[|p.edits| + j] == q.edits[j]
  {
  }

  lemma {:induction false} PropListed<N, I>(t: Tree<N, I>, fixups: seq<Tree<N, I>>, d: Store<I>, q: nat,
                                            k: nat) returns (j: nat)
    requires PlanProps(t, fixups, d).ok && q < |fixups| && fixups[q].Prop? && CELL * k < |Val(d, fixups[q].data)|
    ensures PropOf(t, fixups[q].name).Some?
    ensures var edits, target := PlanProps(t, fixups, d).edits, PropOf(t, fixups[q].name).value;
            j < |edits| && edits[j] == Bump(Location(target, Get32(Val(d, fixups[q].data), CELL * k)))
    decreases |fixups|
  {
    hide Get32, PlanCells, PropOf, Then;
    var rest := PlanProps(t, fixups[1..], d);
    if fixups[0].Prop? {
      var list := fixups[0].data;
      var p := PlanCells(d, PropOf(t, fixups[0].name).value, list, |Val(d, list)|, 0);
      InThen(p, rest, 0);
      if q == 0 {
        j := CellListed(d, PropOf(t, fixups[0].name).value, list, |Val(d, list)|, 0, k);
        InThen(p, rest, j);
      } else {
        assert fixups[1..][q - 1] == fixups[q];
        j := PropListed(t, fixups[1..], d, q - 1, k);
        InThen(p, rest, j);
        j := |p.edits| + j;
      }
    } else {
      assert fixups[1..][q - 1] == fixups[q];
      j := PropListed(t, fixups[1..], d, q - 1, k);
    }
  }

  /** The edits of one subnode are among those of all. */
  lemma {:induction false} NodeListed<N, I>(t: Tree<N, I>, fixups: seq<Tree<N, I>>, d: Store<I>, q: nat, e: Edit<I>,
                                            j: nat)
    returns (k: nat)
    requires PlanNodes(t, fixups, d).ok && q < |fixups| && fixups[q].Node?
    requires var sub := Resolve(t, fixups[q].name);
             sub.Some? ==> var edits := PlanLocal(sub.value, fixups[q], d).edits; j < |edits| && edits[j] == e
    ensures Resolve(t, fixups[q].name).Some? && PlanLocal(Resolve(t, fixups[q].name).value, fixups[q], d).ok
    ensures var edits := PlanNodes(t, fixups, d).edits; k < |edits| && edits[k] == e
    decreases |fixups|
  {
    hide Resolve, PlanLocal;
    var rest := PlanNodes(t, fixups[1..], d);
    if fixups[0].Node? {
      var p := PlanLocal(Resolve(t, fixups[0].name).value, fixups[0], d);
      InThen(p, rest, j);
      if q == 0 {
        k := j;
      } else {
        assert fixups[1..][q - 1] == fixups[q];
        k := NodeListed(t, fixups[1..], d, q - 1, e, j);
        InThen(p, rest, k);
        k := |p.edits| + k;
      }
    } else {
      assert fixups[1..][q - 1] == fixups[q];
      k := NodeListed(t, fixups[1..], d, q - 1, e, j);
    }
  }

  lemma {:induction false} NodeOk<N, I>(t: Tree<N, I>, fixups: seq<Tree<N, I>>, d: Store<I>, q: nat)
    requires PlanNodes(t, fixups, d).ok && q < |fixups| && fixups[q].Node?
    ensures Resolve(t, fixups[q].name).Some? && PlanLocal(Resolve(t, fixups[q].name).value, fixups[q], d).ok
    decreases |fixups|
  {
    hide Resolve, PlanLocal;
    if q > 0 {
      assert fixups[1..][q - 1] == fixups[q];
      NodeOk(t, fixups[1..], d, q - 1);
    }
  }

  lemma {:induction false} ResolveName<N, D>(t: Tree<N, D>, name: string)
    requires name != "" && NoChar(name, '/')
    ensures Resolve(t, name) == Subnode(t, name)
  {
    OneComponent("/" + name, name);
  }

  /** Cell `k` of property `q` of the node at path `c` below the fixups is about the namesakes at that path. */
  lemma {:induction false} LocalListed<N, I>(t: Tree<N, I>, f: Tree<N, I>, d: Store<I>, c: seq<string>, q: nat, k: nat)
    returns (j: nat)
    requires f.Node? && PlanLocal(t, f, d).ok && Plain(c) && Descend(f, c).Some?
    requires var x := Descend(f, c).value;
             q < |x.kids| && x.kids[q].Prop? && CELL * k < |Val(d, x.kids[q].data)|
    ensures Descend(t, c).Some? && PropOf(Descend(t, c).value, Descend(f, c).value.kids[q].name).Some?
    ensures var edits, x := PlanLocal(t, f, d).edits, Descend(f, c).value.kids[q];
            var target := PropOf(Descend(t, c).value, x.name).value;
            j < |edits| && edits[j] == Bump(Location(target, Get32(Val(d, x.data), CELL * k)))
    decreases c
  {
    hide Get32, PropOf, PlanProps, PlanNodes, Then, Resolve;
    var props, nodes := PlanProps(t, f.kids, d), PlanNodes(t, f.kids, d);
    InThen(props, nodes, 0);
    if c == [] {
      j := PropListed(t, f.kids, d, q, k);
      InThen(props, nodes, j);
    } else {
      var i := Find(f.kids, true, c[0]);
      var sub := f.kids[i];
      NodeOk(t, f.kids, d, i);
      ResolveName(t, c[0]);
      DescendFirst(t, c);
      j := LocalListed(Resolve(t, c[0]).value, sub, d, c[1..], q, k);
      var e := PlanLocal(Resolve(t, c[0]).value, sub, d).edits[j];
      j := NodeListed(t, f.kids, d, i, e, j);
      InThen(props, nodes, j);
      j := |props.edits| + j;
    }
  }

  lemma {:induction false} DescendFirst<N, D>(t: Tree<N, D>, c: seq<string>)
    requires c != []
    ensures Descend(t, c) == if Subnode(t, c[0]).None? then None else Descend(Subnode(t, c[0]).value, c[1..])
  {
    assert [c[0]] + c[1..] == c;
    DescendAppend(t, [c[0]], c[1..]);
  }

  /** The fixups node and the property under it that lists cells of `o`. */
  ghost predicate ListsCell<N, I>(o: Tree<N, I>, d: Store<I>, c: seq<string>, q: nat, k: nat) {
    var local := Subnode(o, "__local_fixups__");
    && Plain(c) && local.Some? && local.value.Node? && Descend(local.value, c).Some?
    && var x := Descend(local.value, c).value;
       q < |x.kids| && x.kids[q].Prop? && CELL * k < |Val(d, x.kids[q].data)|
  }

  /** Property `q` of the node at path `c` under `__local_fixups__`. */
  function LocalList<N, I>(o: Tree<N, I>, c: seq<string>, q: nat): Tree<N, I>
    requires var local := Subnode(o, "__local_fixups__");
             && local.Some? && Descend(local.value, c).Some?
             && var x := Descend(local.value, c).value; x.Node? && q < |x.kids|
  {
    Descend(Subnode(o, "__local_fixups__").value, c).value.kids[q]
  }

  /**
   * Every offset listed under `__local_fixups__` takes effect: the cell there, in the property of the same
   * name of the node at the same path, is what it was plus the main maximum.
   */
  lemma {:induction false} LocalCellShifted<N(!new), I(!new)>(m: Tree<N, I>, table: seq<Entry<N>>, o: Tree<N, I>,
                                                              d: Store<I>, c: seq<string>, q: nat, k: nat)
    requires m.Node? && o.Node? && Harmless(m, table, o, d) && UpdateReferences(m, table, o, d).Some?
    requires Apart(OverlayPlan(m, o, Renumbered(table, o, d)).edits)
    requires ListsCell(o, Renumbered(table, o, d), c, q, k)
    ensures var list := LocalList(o, c, q);
            var d' := UpdateReferences(m, table, o, d).value;
            var offset := Get32(Val(Renumbered(table, o, d), list.data), CELL * k);
            && Descend(o, c).Some? && PropOf(Descend(o, c).value, list.name).Some?
            && var at := Location(PropOf(Descend(o, c).value, list.name).value, offset);
               CellAt(d', at) == Add32(CellAt(d, at), MaxPhandle(table))
  {
    hide UpdateReferences, Harmless, Renumbered, Apart, ExternalPart, PlanLocal, Descend, PropOf, Get32, CellAt, Add32;
    hide Then;
    var d1 := Renumbered(table, o, d);
    PlanSucceeds(m, table, o, d);
    InThen(LocalPart(o, d1), ExternalPart(m, o, d1), 0);
    var j := LocalListed(o, Subnode(o, "__local_fixups__").value, d1, c, q, k);
    InThen(LocalPart(o, d1), ExternalPart(m, o, d1), j);
    EditsTakeEffect(m, table, o, d, j);
  }

  // ---------------------------------------------------------------- cells under __fixups__

  /**
   * Property `q` of `__fixups__` is about this symbol, and its string `j` names byte `n` of property `p` of the
   * node at path `c`.
   */
  ghost predicate ListsString<N, I>(o: Tree<N, I>, d: Store<I>, q: nat, symbol: string, ss: seq<string>, j: nat,
                                    c: seq<string>, p: string, n: nat)
  {
    var fixups := Subnode(o, "__fixups__");
    && fixups.Some? && fixups.value.Node? && q < |fixups.value.kids|
    && fixups.value.kids[q].Prop? && fixups.value.kids[q].name == symbol
    && AllSpelled(Val(d, fixups.value.kids[q].data), 0, ss) && j < |ss| && ss[j] == FixupText(Absolute(c), p, n)
    && Plain(c) && (forall i | 0 <= i < |c| :: NoChar(c[i], ':')) && NoChar(p, ':') && n < INT_LIMIT - CELL
  }

  /**
   * Every string listed under a symbol takes effect: the cell that it spells holds the phandle of the
   * main node at the path that the symbol's value spells.
   */
  lemma {:induction false} ExternalCellWritten<N(!new), I(!new)>(m: Tree<N, I>, table: seq<Entry<N>>, o: Tree<N, I>,
                                                                 d: Store<I>, q: nat, symbol: string, b: seq<string>,
                                                                 ss: seq<string>, j: nat, c: seq<string>, p: string,
                                                                 n: nat)
    requires m.Node? && o.Node? && OwnRecords(o) && Records(m) !! Records(o)
    requires Harmless(m, table, o, d) && UpdateReferences(m, table, o, d).Some?
    requires Apart(OverlayPlan(m, o, Renumbered(table, o, d)).edits)
    requires ListsString(o, Renumbered(table, o, d), q, symbol, ss, j, c, p, n)
    requires var symbols := Subnode(m, "__symbols__"); symbols.Some? && SymbolAt(symbols.value, symbol, d, b)
    ensures Descend(m, b).Some? && Descend(o, c).Some? && PropOf(Descend(o, c).value, p).Some?
    ensures var d', at := UpdateReferences(m, table, o, d).value, Location(PropOf(Descend(o, c).value, p).value, n);
            CellAt(d', at) == Phandle(Descend(m, b).value, d)
  {
    hide UpdateReferences, Harmless, Renumbered, Apart, OverlayPlan, Subnode, SymbolNode, FixupLocation, Descend;
    hide PropOf;
    hide Strings, AllSpelled, FixupText, Absolute, Phandle, CellAt, Add32, OwnRecords, Records;
    var d1, list := Renumbered(table, o, d), Subnode(o, "__fixups__").value.kids[q].data;
    StringsSpelled(Val(d1, list), 0, ss);
    var k := ExternalEdit(m, table, o, d, q, j);
    EditsTakeEffect(m, table, o, d, k);
    FixupSpelled(o, d1, c, p, n);
    SymbolSpelled(m, d, Subnode(m, "__symbols__").value, symbol, b);
  }

  /** A fragment whose target cell holds the phandle of a main node is merged into that node. */
  lemma {:induction false} PhandleTargeted<N(!new), I(!new)>(m: Tree<N, I>, table: seq<Entry<N>>, d: Store<I>,
                                                             b: seq<string>, m': Tree<N, I>, frag: Tree<N, I>,
                                                             d': Store<I>)
    requires m.Node? && Separate(m) && IsTable(table, m, d) && Distinct(Fill(m, d))
    requires Descend(m, b).Some? && Tabled(Descend(m, b).value, d)
    requires PropOf(frag, "target").Some?
    requires CellAt(d', Location(PropOf(frag, "target").value, 0)) == Phandle(Descend(m, b).value, d)
    ensures ApplyFragment(m', table, frag, d').1 == MergedAt(m', Descend(m, b), frag)
  {
    hide IsTable, Distinct, Fill, Ids, HasNode, Separate, Lookup, MergeAt, Phandle, Get32;
    DescendAt(m, b);
    LookupUnique(table, m, d, Descend(m, b).value.id);
  }

  // ---------------------------------------------------------------- when everything resolves

  /** Every property listed is there with every cell listed, every subnode listed is there, and so on below. */
  ghost predicate LocalResolves<N, I>(t: Tree<N, I>, f: Tree<N, I>, d: Store<I>)
    requires f.Node?
    decreases f, 0
  {
    && (forall x | x in f.kids && x.Prop? :: PropResolves(t, x, d))
    && (forall x | x in f.kids && x.Node? :: NodeResolves(t, x, d))
  }

  ghost predicate NodeResolves<N, I>(t: Tree<N, I>, f: Tree<N, I>, d: Store<I>)
    requires f.Node?
    decreases f, 1
  {
    Resolve(t, f.name).Some? && LocalResolves(Resolve(t, f.name).value, f, d)
  }

  ghost predicate PropResolves<N, I>(t: Tree<N, I>, f: Tree<N, I>, d: Store<I>)
    requires f.Prop?
  {
    && PropOf(t, f.name).Some?
    && forall k: nat | CELL * k < |Val(d, f.data)| ::
         Fits(d, Location(PropOf(t, f.name).value, Get32(Val(d, f.data), CELL * k)))
  }

  lemma {:induction false} CellsOk<I>(d: Store<I>, target: I, fixup: I, len: nat, i: nat)
    ensures PlanCells(d, target, fixup, len, i).ok <==>
              forall k: nat | i + CELL * k < len :: Fits(d, Location(target, Get32(Val(d, fixup), i + CELL * k)))
    decreases len - i
  {
    hide Get32, Fits;
    if i < len {
      CellsOk(d, target, fixup, len, i + CELL);
      var rest := PlanCells(d, target, fixup, len, i + CELL);
      assert i + CELL * 0 == i;
      if PlanCells(d, target, fixup, len, i).ok {
        forall k: nat | i + CELL * k < len ensures Fits(d, Location(target, Get32(Val(d, fixup), i + CELL * k))) {
          if k > 0 {
            assert i + CELL * k == i + CELL + CELL * (k - 1);
          }
        }
      } else if Fits(d, Location(target, Get32(Val(d, fixup), i))) {
        var next := i + CELL;
        var k: nat :| next + CELL * k < len && !Fits(d, Location(target, Get32(Val(d, fixup), next + CELL * k)));
        assert i + CELL * (k + 1) == i + CELL + CELL * k;
      }
    }
  }

  lemma {:induction false} ThenOk<I>(p: Plan<I>, q: Plan<I>)
    ensures Then(p, q).ok <==> p.ok && q.ok
  {
  }

  lemma {:induction false} PropOk<N, I>(t: Tree<N, I>, f: Tree<N, I>, d: Store<I>)
    requires f.Prop?
    ensures PropResolves(t, f, d) <==>
              PropOf(t, f.name).Some? && PlanCells(d, PropOf(t, f.name).value, f.data, |Val(d, f.data)|, 0).ok
  {
    hide PlanCells, PropOf, Get32, Fits;
    if PropOf(t, f.name).Some? {
      var p, len := PropOf(t, f.name).value, |Val(d, f.data)|;
      CellsOk(d, p, f.data, len, 0);
      if PlanCells(d, p, f.data, len, 0).ok {
        forall k: nat | CELL * k < len ensures Fits(d, Location(p, Get32(Val(d, f.data), CELL * k))) {
          assert 0 + CELL * k == CELL * k;
        }
      } else {
        var k: nat :| 0 + CELL * k < len && !Fits(d, Location(p, Get32(Val(d, f.data), 0 + CELL * k)));
        assert 0 + CELL * k == CELL * k;
      }
    }
  }

  lemma {:induction false} PropsOk<N, I>(t: Tree<N, I>, fixups: seq<Tree<N, I>>, d: Store<I>)
    ensures PlanProps(t, fixups, d).ok <==> forall f | f in fixups && f.Prop? :: PropResolves(t, f, d)
    decreases |fixups|
  {
    hide PlanCells, PropResolves, PropOf, Then;
    if fixups != [] {
      var f, rest := fixups[0], fixups[1..];
      assert fixups == [f] + rest;
      PropsOk(t, rest, d);
      if f.Prop? {
        PropOk(t, f, d);
        if PropOf(t, f.name).Some? {
          ThenOk(PlanCells(d, PropOf(t, f.name).value, f.data, |Val(d, f.data)|, 0), PlanProps(t, rest, d));
        }
      }
    }
  }

  lemma {:induction false} NodesOk<N, I>(t: Tree<N, I>, fixups: seq<Tree<N, I>>, d: Store<I>)
    ensures PlanNodes(t, fixups, d).ok <==> forall f | f in fixups && f.Node? :: NodeResolves(t, f, d)
    decreases fixups
  {
    hide PlanLocal, LocalResolves, Resolve, Then;
    if fixups != [] {
      var f, rest := fixups[0], fixups[1..];
      assert fixups == [f] + rest;
      NodesOk(t, rest, d);
      if f.Node? && Resolve(t, f.name).Some? {
        LocalOk(Resolve(t, f.name).value, f, d);
        ThenOk(PlanLocal(Resolve(t, f.name).value, f, d), PlanNodes(t, rest, d));
      }
    }
  }

  lemma {:induction false} LocalOk<N, I>(t: Tree<N, I>, f: Tree<N, I>, d: Store<I>)
    requires f.Node?
    ensures PlanLocal(t, f, d).ok <==> LocalResolves(t, f, d)
    decreases f
  {
    hide PlanProps, PlanNodes, PropResolves, NodeResolves, Then;
    PropsOk(t, f.kids, d);
    NodesOk(t, f.kids, d);
    ThenOk(PlanProps(t, f.kids, d), PlanNodes(t, f.kids, d));
  }

  /** Every symbol is there, and every string names a cell. */
  ghost predicate SymbolResolves<N, I>(m: Tree<N, I>, symbols: Tree<N, I>, o: Tree<N, I>, f: Tree<N, I>, d: Store<I>)
    requires f.Prop?
  {
    && SymbolNode(m, d, symbols, f.name).Some?
    && forall s | s in Strings(Val(d, f.data), |Val(d, f.data)|, 0) :: FixupLocation(o, d, s).Some?
  }

  lemma {:induction false} ListOk<N, I>(o: Tree<N, I>, d: Store<I>, fixups: I, len: nat, pos: nat, phandle: u32)
    ensures PlanList(o, d, fixups, len, pos, phandle).ok <==>
              forall s | s in Strings(Val(d, fixups), len, pos) :: FixupLocation(o, d, s).Some?
    decreases len - pos
  {
    hide CString, FixupPlace;
    if pos < len {
      var list := Val(d, fixups);
      var s := if pos <= |list| then CString(list[pos..]) else "";
      ListOk(o, d, fixups, len, pos + |s| + 1, phandle);
    }
  }

  lemma {:induction false} FixupsOk<N, I>(m: Tree<N, I>, symbols: Tree<N, I>, o: Tree<N, I>, fixups: seq<Tree<N, I>>,
                                          d: Store<I>)
    ensures PlanFixups(m, symbols, o, fixups, d).ok <==>
              forall f | f in fixups && f.Prop? :: SymbolResolves(m, symbols, o, f, d)
    decreases |fixups|
  {
    hide SymbolNode, PlanList, FixupLocation, Phandle, Strings, Then;
    if fixups != [] {
      var f, rest := fixups[0], fixups[1..];
      assert fixups == [f] + rest;
      FixupsOk(m, symbols, o, rest, d);
      if f.Prop? && SymbolNode(m, d, symbols, f.name).Some? {
        var phandle := Phandle(SymbolNode(m, d, symbols, f.name).value, d);
        ListOk(o, d, f.data, |Val(d, f.data)|, 0, phandle);
        ThenOk(PlanList(o, d, f.data, |Val(d, f.data)|, 0, phandle), PlanFixups(m, symbols, o, rest, d));
      }
    }
  }

  /** What `__local_fixups__` lists is there. */
  ghost predicate OwnResolve<N, I>(o: Tree<N, I>, d: Store<I>) {
    var local := Subnode(o, "__local_fixups__");
    local.Some? && local.value.Node? ==> LocalResolves(o, local.value, d)
  }

  /** What `__fixups__` lists is there; without `__symbols__` nothing may be listed. */
  ghost predicate ExternalResolve<N, I>(m: Tree<N, I>, o: Tree<N, I>, d: Store<I>) {
    var fixups, symbols := Subnode(o, "__fixups__"), Subnode(m, "__symbols__");
    fixups.Some? && fixups.value.Node? ==>
      forall f | f in fixups.value.kids && f.Prop? :: symbols.Some? && SymbolResolves(m, symbols.value, o, f, d)
  }

  /** Reference updates succeed exactly when everything that the overlay lists is there. */
  lemma {:induction false} UpdatesResolve<N(!new), I(!new)>(m: Tree<N, I>, table: seq<Entry<N>>, o: Tree<N, I>,
                                                            d: Store<I>)
    requires m.Node? && o.Node? && Harmless(m, table, o, d)
    ensures var d1 := Renumbered(table, o, d);
            UpdateReferences(m, table, o, d).Some? <==> OwnResolve(o, d1) && ExternalResolve(m, o, d1)
  {
    hide Renumbered, UpdateReferences, Perform, ReadRecords, PhandleRecords, LocalPart, ExternalPart, Then;
    hide OwnResolve, ExternalResolve;
    var d1 := Renumbered(table, o, d);
    QuietUnion(OverlayPlan(m, o, d1).edits, ReadRecords(m, o), PhandleRecords(o));
    UpdateFollows(m, table, o, d);
    ThenOk(LocalPart(o, d1), ExternalPart(m, o, d1));
    OwnOk(o, d1);
    ExternalOk(m, o, d1);
  }

  lemma {:induction false} OwnOk<N, I>(o: Tree<N, I>, d: Store<I>)
    ensures LocalPart(o, d).ok <==> OwnResolve(o, d)
  {
    hide Subnode, PlanLocal, LocalResolves;
    var local := Subnode(o, "__local_fixups__");
    if local.Some? && local.value.Node? {
      LocalOk(o, local.value, d);
    }
  }

  lemma {:induction false} ExternalOk<N, I>(m: Tree<N, I>, o: Tree<N, I>, d: Store<I>)
    ensures ExternalPart(m, o, d).ok <==> ExternalResolve(m, o, d)
  {
    hide Subnode, PlanFixups, SymbolResolves;
    var fixups, symbols := Subnode(o, "__fixups__"), Subnode(m, "__symbols__");
    if fixups.Some? && fixups.value.Node? && symbols.Some? {
      FixupsOk(m, symbols.value, o, fixups.value.kids, d);
    }
  }
}
