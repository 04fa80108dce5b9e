/**
 * What applying an overlay means. Trees give the structure and never change while references are
 * updated; property values live in a store `d`, keyed by the property's record.
 */
module OverlaySpec {
  import opened Bytes
  import opened Trees
  import opened Paths
  import opened Phandles
  import opened Numbers

  // ---------------------------------------------------------------- renumbering

  /** The cells that hold the phandle of one node. */
  ghost function OwnCells<N, I>(t: Tree<N, I>, d: Store<I>): set<I> {
    (if CellProp(t, d, "phandle").Some? then {PropOf(t, "phandle").value} else {}) +
    (if CellProp(t, d, "linux,phandle").Some? then {PropOf(t, "linux,phandle").value} else {})
  }

  /** The phandle cells of all nodes in the table. */
  ghost function PhandleCells<N, I>(t: Tree<N, I>, d: Store<I>): set<I> {
    if t.Prop? then {}
    else (if Tabled(t, d) then OwnCells(t, d) else {}) + KidPhandleCells(t.kids, d)
  }

  ghost function KidPhandleCells<N, I>(kids: seq<Tree<N, I>>, d: Store<I>): set<I> {
    if kids == [] then {} else KidPhandleCells(kids[..|kids| - 1], d) + PhandleCells(kids[|kids| - 1], d)
  }

  /** `fdt_increase_u32` on byte `i` of a value. */
  function Increase(v: seq<byte>, i: nat, delta: u32): (r: seq<byte>)
    requires i + CELL <= |v|
    ensures |r| == |v|
  {
    Put32(v, i, Add32(Get32(v, i), delta))
  }

  /** The store with the first cell of each of these properties increased. */
  ghost function IncreaseAll<I>(d: Store<I>, ids: set<I>, delta: u32): Store<I> {
    map i | i in d :: if i in ids && CELL <= |d[i]| then Increase(d[i], 0, delta) else d[i]
  }

  /** `ufdt_try_increase_phandle`. */
  ghost function Shift<N, I>(t: Tree<N, I>, d: Store<I>, delta: u32): Store<I> {
    IncreaseAll(d, PhandleCells(t, d), delta)
  }

  // ---------------------------------------------------------------- local fixups

  /** `ufdt_local_fixup_prop`, from byte `i` of the offset list on. */
  function LocalCells<I>(d: Store<I>, target: I, fixup: I, len: nat, i: nat, delta: u32): Option<Store<I>>
    decreases len - i
  {
    if i >= len then Some(d)
    else
      var offset := Get32(Val(d, fixup), i);
      if offset + CELL > |Val(d, target)| then None
      else LocalCells(d[target := Increase(Val(d, target), offset, delta)], target, fixup, len, i + CELL, delta)
  }

  /** The first loop of `ufdt_local_fixup_node`: the properties among `fixups`. */
  function LocalProps<N, I>(t: Tree<N, I>, fixups: seq<Tree<N, I>>, d: Store<I>, delta: u32): Option<Store<I>> {
    if fixups == [] then Some(d)
    else if fixups[0].Node? then LocalProps(t, fixups[1..], d, delta)
    else
      var p := PropOf(t, fixups[0].name);
      if p.None? then None
      else
        var r := LocalCells(d, p.value, fixups[0].data, |Val(d, fixups[0].data)|, 0, delta);
        if r.None? then None else LocalProps(t, fixups[1..], r.value, delta)
  }

  /** Its second loop: the subnodes among `fixups`. */
  function LocalNodes<N, I>(t: Tree<N, I>, fixups: seq<Tree<N, I>>, d: Store<I>, delta: u32): Option<Store<I>>
    decreases fixups
  {
    if fixups == [] then Some(d)
    else if fixups[0].Prop? then LocalNodes(t, fixups[1..], d, delta)
    else
      var sub := Resolve(t, fixups[0].name);
      if sub.None? then None
      else
        var r := LocalFixup(sub.value, fixups[0], d, delta);
        if r.None? then None else LocalNodes(t, fixups[1..], r.value, delta)
  }

  /** `ufdt_local_fixup_node`. */
  function LocalFixup<N, I>(t: Tree<N, I>, fixups: Tree<N, I>, d: Store<I>, delta: u32): Option<Store<I>>
    requires fixups.Node?
    decreases fixups
  {
    var r := LocalProps(t, fixups.kids, d, delta);
    if r.None? then None else LocalNodes(t, fixups.kids, r.value, delta)
  }

  /** `ufdt_overlay_do_local_fixups`. */
  function LocalFixups<N, I>(o: Tree<N, I>, d: Store<I>, delta: u32): Option<Store<I>> {
    var root := TreePath(o, d, "/");
    var fixups := Subnode(o, "__local_fixups__");
    if fixups.None? || root.None? || fixups.value.Prop? then Some(d)
    else LocalFixup(root.value, fixups.value, d, delta)
  }

  // ---------------------------------------------------------------- external fixups

  datatype Location<I> = Location(prop: I, offset: nat)

  /** A place as the code computes it, `int` offset and all. */
  datatype Place<I> = Place(prop: I, offset: int)

  /** `ufdt_get_fixup_location` of a string `path:property:offset`. */
  function FixupPlace<N, I>(o: Tree<N, I>, d: Store<I>, fixup: string): Option<Place<I>> {
    var i := IndexOf(fixup, ':');
    if i == |fixup| then None
    else
      var rest := fixup[i + 1..];
      var j := IndexOf(rest, ':');
      if j == |rest| then None
      else
        var number := StrToUl(rest[j + 1..]);
        if number.None? then None
        else
          var offset := ToInt32(number.value);
          var node := TreePath(o, d, fixup[..i]);
          if node.None? then None
          else
            var p := PropOf(node.value, rest[..j]);
            if p.None? || !FixupCheck(|Val(d, p.value)|, offset) then None
            else Some(Place(p.value, offset))
  }

  /** The same for a place inside its value, the only one that can be written to. */
  function FixupLocation<N, I>(o: Tree<N, I>, d: Store<I>, fixup: string): Option<Location<I>> {
    var p := FixupPlace(o, d, fixup);
    if p.None? || !CellInside(|Val(d, p.value.prop)|, p.value.offset) then None
    else Some(Location(p.value.prop, p.value.offset))
  }

  /** `ufdt_do_one_fixup`, from byte `pos` of the list of strings on. */
  function OneFixup<N, I>(o: Tree<N, I>, d: Store<I>, fixups: I, len: nat, pos: nat, phandle: u32): Option<Store<I>>
    decreases len - pos
  {
    if pos >= len then Some(d)
    else
      var list := Val(d, fixups);
      var fixup := if pos <= |list| then CString(list[pos..]) else "";
      var at := FixupLocation(o, d, fixup);
      if at.None? || |Val(d, at.value.prop)| < at.value.offset + CELL then None
      else
        var d' := d[at.value.prop := Put32(Val(d, at.value.prop), at.value.offset, phandle)];
        OneFixup(o, d', fixups, len, pos + |fixup| + 1, phandle)
  }

  /** The node that a symbol of the main tree names. */
  function SymbolNode<N, I>(m: Tree<N, I>, d: Store<I>, symbols: Tree<N, I>, symbol: string): Option<Tree<N, I>> {
    var p := PropOf(symbols, symbol);
    if p.None? then None else TreePath(m, d, Text(d, p.value))
  }

  /** The loop of `ufdt_overlay_do_fixups` over the children of `__fixups__`. */
  function FixupProps<N, I>(m: Tree<N, I>, symbols: Tree<N, I>, o: Tree<N, I>, fixups: seq<Tree<N, I>>,
                            d: Store<I>): Option<Store<I>>
  {
    if fixups == [] then Some(d)
    else if fixups[0].Node? then FixupProps(m, symbols, o, fixups[1..], d)
    else
      var node := SymbolNode(m, d, symbols, fixups[0].name);
      if node.None? then None
      else
        var list := fixups[0].data;
        var r := OneFixup(o, d, list, |Val(d, list)|, 0, Phandle(node.value, d));
        if r.None? then None else FixupProps(m, symbols, o, fixups[1..], r.value)
  }

  ghost predicate HasProp<N, D>(kids: seq<Tree<N, D>>) {
    exists i :: 0 <= i < |kids| && kids[i].Prop?
  }

  /** `ufdt_overlay_do_fixups`. */
  ghost function Fixups<N, I>(m: Tree<N, I>, o: Tree<N, I>, d: Store<I>): Option<Store<I>> {
    var fixups := Subnode(o, "__fixups__");
    var symbols := Subnode(m, "__symbols__");
    if fixups.None? || fixups.value.Prop? || !HasProp(fixups.value.kids) then Some(d)
    else if symbols.None? then None
    else FixupProps(m, symbols.value, o, fixups.value.kids, d)
  }

  // ---------------------------------------------------------------- fragments

  /** The tree with `o` merged into the node labelled `id`. */
  function MergeAt<N(==), D>(t: Tree<N, D>, id: N, o: Tree<N, D>): (r: Tree<N, D>)
    requires o.Node?
    ensures r.id == t.id && r.name == t.name && r.Node? == t.Node?
  {
    if t.Prop? then t
    else if t.id == id then Merge(t, o)
    else Node(t.id, t.name, seq(|t.kids|, i requires 0 <= i < |t.kids| => MergeAt(t.kids[i], id, o)))
  }

  datatype OverlayResult = Ok | MissingTarget | MissingOverlay | TargetPathInvalid | TargetInvalid | MergeFail

  /** The node of the main tree that a fragment is for. */
  function Target<N, I>(m: Tree<N, I>, table: seq<Entry<N>>, frag: Tree<N, I>, d: Store<I>):
    (OverlayResult, Option<N>)
  {
    var target := PropOf(frag, "target");
    if target.Some? then
      var n := Lookup(table, Get32(Val(d, target.value), 0));
      if n.None? then (TargetInvalid, None) else (Ok, n)
    else
      var path := PropOf(frag, "target-path");
      if path.None? then (MissingTarget, None)
      else
        var n := TreePath(m, d, Text(d, path.value));
        if n.None? then (TargetPathInvalid, None) else (Ok, Some(n.value.id))
  }

  /** `ufdt_apply_fragment`: the result code and the main tree afterwards. */
  function ApplyFragment<N(==), I>(m: Tree<N, I>, table: seq<Entry<N>>, frag: Tree<N, I>, d: Store<I>):
    (OverlayResult, Tree<N, I>)
  {
    var (code, target) := Target(m, table, frag, d);
    if target.None? then (code, m)
    else
      var overlay := Subnode(frag, "__overlay__");
      if overlay.None? || overlay.value.Prop? then (MissingOverlay, m)
      else (Ok, MergeAt(m, target.value, overlay.value))
  }

  /** `ufdt_overlay_apply_fragments` over the first fragments. */
  function ApplyFragments<N(==), I>(m: Tree<N, I>, table: seq<Entry<N>>, frags: seq<Tree<N, I>>,
                                    d: Store<I>): Tree<N, I> {
    if frags == [] then m
    else
      var m' := ApplyFragments(m, table, frags[..|frags| - 1], d);
      var frag := frags[|frags| - 1];
      if frag.Prop? then m' else ApplyFragment(m', table, frag, d).1
  }

  // ---------------------------------------------------------------- the whole

  /** The store after all references of the overlay were updated; nothing when a fixup fails. */
  ghost function UpdateReferences<N, I>(m: Tree<N, I>, table: seq<Entry<N>>, o: Tree<N, I>,
                                        d: Store<I>): Option<Store<I>> {
    var delta := MaxPhandle(table);
    var d1 := if delta > 0 then Shift(o, d, delta) else d;
    var d2 := LocalFixups(o, d1, delta);
    if d2.None? then None else Fixups(m, o, d2.value)
  }

  datatype Outcome<N, I> = Outcome(tree: Tree<N, I>, values: Store<I>)

  /** `ufdt_overlay_apply`. */
  ghost function OverlayApply<N, I>(m: Tree<N, I>, table: seq<Entry<N>>, o: Tree<N, I>,
                                    d: Store<I>): Option<Outcome<N, I>>
    requires o.Node?
  {
    var d' := UpdateReferences(m, table, o, d);
    if d'.None? then None else Some(Outcome(ApplyFragments(m, table, o.kids, d'.value), d'.value))
  }
}
