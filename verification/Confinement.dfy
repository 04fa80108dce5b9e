/**
 * The cells that the bounds checks of the fixups let through. The code compares truncated numbers, so
 * an offset in an overlay may pass a check without being inside its value; what the code does then is
 * undefined, and overlays that make it do so are excluded.
 */
module Confinement {
  import opened Bytes
  import opened Trees
  import opened Paths
  import opened Phandles
  import opened Numbers
  import opened OverlaySpec

  /** A cell that is about to be written, and the length of its value. */
  datatype Access<I> = Access(prop: I, offset: int, size: nat)

  /** All these cells lie inside their values, and values are shorter than 2^31 bytes. */
  ghost predicate Confined<I(!new)>(s: set<Access<I>>) {
    forall a | a in s :: CellInside(a.size, a.offset) && a.size < INT_LIMIT
  }

  /** None of them is part of a property in `t`. */
  ghost predicate Spares<I(!new)>(s: set<Access<I>>, t: set<I>) {
    forall a | a in s :: a.prop !in t
  }

  // ---------------------------------------------------------------- the cells of a run

  /** Of one property under `__local_fixups__`, from byte `i` of its list on. */
  ghost function CellAccesses<I(!new)>(d: Store<I>, target: I, fixup: I, len: nat, i: nat, delta: u32): set<Access<I>>
    decreases len - i
  {
    if i >= len then {}
    else
      var cell, size := Get32(Val(d, fixup), i), |Val(d, target)|;
      if !CellInside(size, cell) then
        if LocalCheck(size, cell) then {Access(target, ToInt32(cell), size)} else {}
      else
        {Access(target, ToInt32(cell), size)}
        + CellAccesses(d[target := Increase(Val(d, target), cell, delta)], target, fixup, len, i + CELL, delta)
  }

  ghost function PropAccesses<N, I(!new)>(t: Tree<N, I>, fixups: seq<Tree<N, I>>, d: Store<I>,
                                          delta: u32): set<Access<I>> {
    if fixups == [] then {}
    else if fixups[0].Node? then PropAccesses(t, fixups[1..], d, delta)
    else
      var p := PropOf(t, fixups[0].name);
      if p.None? then {}
      else
        var list := fixups[0].data;
        var r := LocalCells(d, p.value, list, |Val(d, list)|, 0, delta);
        CellAccesses(d, p.value, list, |Val(d, list)|, 0, delta)
        + if r.None? then {} else PropAccesses(t, fixups[1..], r.value, delta)
  }

  ghost function NodeAccesses<N, I(!new)>(t: Tree<N, I>, fixups: seq<Tree<N, I>>, d: Store<I>,
                                          delta: u32): set<Access<I>>
    decreases fixups
  {
    if fixups == [] then {}
    else if fixups[0].Prop? then NodeAccesses(t, fixups[1..], d, delta)
    else
      var sub := Resolve(t, fixups[0].name);
      if sub.None? then {}
      else
        var r := LocalFixup(sub.value, fixups[0], d, delta);
        LocalAccesses(sub.value, fixups[0], d, delta)
        + if r.None? then {} else NodeAccesses(t, fixups[1..], r.value, delta)
  }

  ghost function LocalAccesses<N, I(!new)>(t: Tree<N, I>, fixups: Tree<N, I>, d: Store<I>, delta: u32): set<Access<I>>
    requires fixups.Node?
    decreases fixups
  {
    var r := LocalProps(t, fixups.kids, d, delta);
    PropAccesses(t, fixups.kids, d, delta) + if r.None? then {} else NodeAccesses(t, fixups.kids, r.value, delta)
  }

  /** Of all of `__local_fixups__`. */
  ghost function OwnAccesses<N, I(!new)>(o: Tree<N, I>, d: Store<I>, delta: u32): set<Access<I>> {
    var fixups := Subnode(o, "__local_fixups__");
    if fixups.None? || fixups.value.Prop? then {} else LocalAccesses(o, fixups.value, d, delta)
  }

  /** Of one property under `__fixups__`, from byte `pos` of its strings on. */
  ghost function ListAccesses<N, I(!new)>(o: Tree<N, I>, d: Store<I>, fixups: I, len: nat, pos: nat,
                                          phandle: u32): set<Access<I>>
    decreases len - pos
  {
    if pos >= len then {}
    else
      var list := Val(d, fixups);
      var fixup := if pos <= |list| then CString(list[pos..]) else "";
      var at := FixupPlace(o, d, fixup);
      if at.None? then {}
      else
        var prop, offset := at.value.prop, at.value.offset;
        {Access(prop, offset, |Val(d, prop)|)}
        + if !CellInside(|Val(d, prop)|, offset) then {}
          else ListAccesses(o, d[prop := Put32(Val(d, prop), offset, phandle)], fixups, len, pos + |fixup| + 1, phandle)
  }

  ghost function SymbolAccesses<N, I(!new)>(m: Tree<N, I>, symbols: Tree<N, I>, o: Tree<N, I>, fixups: seq<Tree<N, I>>,
                                            d: Store<I>): set<Access<I>>
  {
    if fixups == [] then {}
    else if fixups[0].Node? then SymbolAccesses(m, symbols, o, fixups[1..], d)
    else
      var node := SymbolNode(m, d, symbols, fixups[0].name);
      if node.None? then {}
      else
        var list := fixups[0].data;
        var r := OneFixup(o, d, list, |Val(d, list)|, 0, Phandle(node.value, d));
        ListAccesses(o, d, list, |Val(d, list)|, 0, Phandle(node.value, d))
        + if r.None? then {} else SymbolAccesses(m, symbols, o, fixups[1..], r.value)
  }

  /** Of all of `__fixups__`. */
  ghost function ExternalAccesses<N, I(!new)>(m: Tree<N, I>, o: Tree<N, I>, d: Store<I>): set<Access<I>> {
    var fixups, symbols := Subnode(o, "__fixups__"), Subnode(m, "__symbols__");
    if fixups.None? || fixups.value.Prop? || symbols.None? then {}
    else SymbolAccesses(m, symbols.value, o, fixups.value.kids, d)
  }

  /** The values once phandles were renumbered, before any fixup. */
  ghost function Renumbered<N, I>(table: seq<Entry<N>>, o: Tree<N, I>, d: Store<I>): Store<I> {
    var delta := MaxPhandle(table);
    if delta > 0 then Shift(o, d, delta) else d
  }

  /** All cells that the fixups of an overlay are let through to. */
  ghost function FixupAccesses<N, I(!new)>(m: Tree<N, I>, table: seq<Entry<N>>, o: Tree<N, I>,
                                           d: Store<I>): set<Access<I>> {
    var delta, d1 := MaxPhandle(table), Renumbered(table, o, d);
    var r := LocalFixups(o, d1, delta);
    OwnAccesses(o, d1, delta) + if r.None? then {} else ExternalAccesses(m, o, r.value)
  }

  // ---------------------------------------------------------------- targets

  /** A `target` holds at least one byte; the padding that follows it is zero. */
  predicate TargetFilled<N, I>(frag: Tree<N, I>, d: Store<I>) {
    var p := PropOf(frag, "target"); p.Some? ==> Val(d, p.value) != []
  }

  ghost predicate TargetsFilled<N, I>(frags: seq<Tree<N, I>>, d: Store<I>) {
    forall i | 0 <= i < |frags| :: TargetFilled(frags[i], d)
  }

  /** Applying the overlay touches and reads nothing outside the values of the overlay. */
  ghost predicate WellBounded<N, I(!new)>(m: Tree<N, I>, table: seq<Entry<N>>, o: Tree<N, I>, d: Store<I>) {
    Confined(FixupAccesses(m, table, o, d)) && (o.Node? ==> TargetsFilled(o.kids, d))
  }
}
