/** From a linked tree to a flattened blob. */
module Output {
  import opened Bytes
  import opened Blobs
  import opened Trees
  import opened Paths
  import opened Phandles
  import opened NodePool
  import opened Nodes
  import opened Parse
  import opened Flattening
  import opened Sizes
  import opened FdtBuffers
  import opened PropDicts
  import opened Ufdts
  import opened Table

  // ---------------------------------------------------------------- the state of the output

  /** Name offsets of written properties count back from the end of the strings. */
  ghost predicate Offsets(structure: seq<Token>, n: nat) {
    forall i | 0 <= i < |structure| && structure[i].PropToken? :: 0 <= structure[i].nameoff + n < n
  }

  /** The dictionary knows properties by their name. */
  ghost predicate Known(structure: seq<Token>, strings: seq<byte>, dict: map<string, nat>) {
    forall n | n in dict ::
      && dict[n] < |structure| && structure[dict[n]].PropToken?
      && StringFromEnd(strings, structure[dict[n]].nameoff) == n
  }

  ghost predicate Ready(buf: FdtBuffer, dict: PropDict, fdts: seq<Fdt>)
    reads buf, dict, dict.fdtp, dict.props
  {
    && dict.fdtp == buf && dict.Valid()
    && buf.strings == Strtab(fdts) && buf.sizeStrings == |buf.strings|
    && (buf.Fits(0) ==> buf.apart)
    && Offsets(buf.structure, |buf.strings|)
    && Known(buf.structure, buf.strings, dict.Contents())
  }

  /** Property names point into the strings of these blobs. */
  ghost predicate Named(m: Memory, fdts: seq<Fdt>) {
    forall n | n in m && m[n].tag.kind == Property :: KnownName(m[n].namePtr, fdts)
  }

  ghost predicate KnownName(s: StrPtr, fdts: seq<Fdt>) {
    s.fdt in fdts && s.off < |s.fdt.strings| && forall f | f in fdts :: Terminated(f)
  }

  /**
   * `_ufdt_get_property_nameoff`: the offset denotes the name in the output; 0 for a name that was not
   * written before and is in none of the string tables.
   */
  method GetPropertyNameoff(tree: Ufdt, name: StrPtr, dict: PropDict, buf: FdtBuffer) returns (res: int)
    requires tree.Valid() && Ready(buf, dict, tree.Fdts()) && forall f | f in tree.Fdts() :: Terminated(f)
    ensures res == 0 <==> name.Text() !in dict.Contents() && !KnownName(name, tree.Fdts())
    ensures res != 0 ==> -|buf.strings| <= res < 0 && StringFromEnd(buf.strings, res) == name.Text()
  {
    hide PropDict.Valid, PropDict.Contents;
    var same := dict.Find(name.Text());
    if same.Some? {
      res := buf.structure[same.value].nameoff;
    } else {
      StringOffMissing(tree.Fdts(), name);
      if KnownName(name, tree.Fdts()) {
        StringOffDenotes(tree.Fdts(), name);
      }
      res := tree.GetStringOff(name);
      if res == 0 {
        return 0;
      }
    }
  }

  /** The code's own check: `n` more bytes of structure end inside the buffer, wherever the strings are. */
  ghost predicate Inside(buf: FdtBuffer, n: nat)
    reads buf
  {
    buf.offStruct + buf.sizeStruct + n <= buf.totalsize
  }

  /** Writes one property behind the structure block and enters it in the dictionary. */
  method WriteProperty(buf: FdtBuffer, nameoff: int, data: seq<byte>, dict: PropDict, ghost fdts: seq<Fdt>)
    returns (err: int)
    requires Ready(buf, dict, fdts) && -|buf.strings| <= nameoff < 0
    modifies buf`structure, buf`sizeStruct, buf`apart, dict, dict.props
    ensures err == if old(Inside(buf, 12 + Align4(|data|))) then 0 else -1
    ensures err == 0 ==>
              && Ready(buf, dict, fdts)
              && buf.Text() == old(buf.Text()) + [FlatProp(StringFromEnd(buf.strings, nameoff), data)]
              && buf.sizeStruct == old(buf.sizeStruct) + 12 + Align4(|data|)
    ensures dict.props == old(dict.props) || fresh(dict.props)
  {
    hide Indexed, Crowded, Pow2, Strtab, Known, NamesOf, ContentsOf, StringFromEnd, Align4;
    var size := 12 + Align4(|data|);
    if buf.offStruct + buf.sizeStruct + size > buf.totalsize {
      return -1;
    }
    ghost var structure, names := buf.structure, buf.Names();
    ghost var c := dict.Contents();
    buf.Append(PropToken(nameoff, data), size);
    Grown(structure, buf, dict, names);
    err := dict.Add(|buf.structure| - 1);
    KnownMore(structure, buf.structure, buf.strings, c, nameoff, data);
  }

  /** `_ufdt_output_property_to_fdt`. */
  method OutputProperty(tree: Ufdt, h: NodeHeap, mem: BlobMemory, buf: FdtBuffer, node: Addr, dict: PropDict,
                        ghost t: Linked)
    returns (err: int)
    requires tree.Valid() && Ready(buf, dict, tree.Fdts())
    requires t.Prop? && t.id == node && Rep(h.nodes, t, {}) && Named(h.nodes, tree.Fdts())
    modifies buf`structure, buf`sizeStruct, buf`apart, dict, dict.props
    ensures err == if old(Inside(buf, FlatSizes(OutTree(t, mem.values)))) then 0 else -1
    ensures err == 0 ==>
              && Ready(buf, dict, tree.Fdts())
              && buf.Text() == old(buf.Text()) + OutTree(t, mem.values)
              && buf.sizeStruct == old(buf.sizeStruct) + FlatSizes(OutTree(t, mem.values))
    ensures dict.props == old(dict.props) || fresh(dict.props)
  {
    var nameoff := GetPropertyNameoff(tree, h.nodes[node].namePtr, dict, buf);
    if nameoff == 0 {
      return -1;
    }
    var data := Val(mem.values, h.nodes[node].tag);
    OneSize(FlatProp(t.name, data));
    hide Ready, Named, StringFromEnd, Strtab, FlatSizes, Align4;
    err := WriteProperty(buf, nameoff, data, dict, tree.Fdts());
  }

  /** Appending a token does not disturb the dictionary. */
  lemma {:induction false} Grown(structure: seq<Token>, buf: FdtBuffer, dict: PropDict, names: seq<string>)
    requires dict.fdtp == buf && structure <= buf.structure && names == NamesOf(structure, buf.strings)
    requires Indexed(dict.props[..], names, dict.at)
    requires INIT_SIZE <= dict.memSize == dict.props.Length == Pow2(dict.k)
    requires dict.numUsed == |dict.at| < dict.memSize && !Crowded(dict.numUsed, dict.memSize)
    ensures dict.Valid()
  {
    assert names <= buf.Names();
    NamesGrow(dict.props[..], names, buf.Names(), dict.at);
  }

  lemma {:induction false} KnownMore(s: seq<Token>, s': seq<Token>, strings: seq<byte>, dict: map<string, nat>,
                                     nameoff: int, data: seq<byte>)
    requires Known(s, strings, dict) && s' == s + [PropToken(nameoff, data)]
    ensures Known(s', strings, dict[StringFromEnd(strings, nameoff) := |s|])
  {
  }

  /** What the recursion needs: a sound tree object, a sound buffer, and names that can be found. */
  ghost predicate Writing(tree: Ufdt, h: NodeHeap, buf: FdtBuffer, dict: PropDict)
    reads tree, tree.fdtps, h, buf, dict, dict.fdtp, dict.props
  {
    tree.Valid() && Ready(buf, dict, tree.Fdts()) && Named(h.nodes, tree.Fdts())
  }

  /** From one text and size to another by writing `s`. */
  ghost predicate Wrote(text: seq<Flat>, size: nat, text': seq<Flat>, size': nat, s: seq<Flat>) {
    text' == text + s && size' == size + FlatSizes(s)
  }

  lemma {:induction false} WroteBoth(text: seq<Flat>, size: nat, text': seq<Flat>, size': nat, s: seq<Flat>,
                                     text'': seq<Flat>, size'': nat, s': seq<Flat>)
    requires Wrote(text, size, text', size', s) && Wrote(text', size', text'', size'', s')
    ensures Wrote(text, size, text'', size'', s + s')
  {
    FlatSizesAppend(s, s');
  }

  /** `fdt_begin_node` between properties. */
  method OpenNode(tree: Ufdt, h: NodeHeap, buf: FdtBuffer, name: string, dict: PropDict) returns (err: int)
    requires Writing(tree, h, buf, dict)
    modifies buf`structure, buf`sizeStruct, buf`apart
    ensures err == if old(buf.Fits(FlatSize(FlatBegin(name)))) then 0 else -1
    ensures err == 0 ==>
              && Writing(tree, h, buf, dict)
              && Wrote(old(buf.Text()), old(buf.sizeStruct), buf.Text(), buf.sizeStruct, [FlatBegin(name)])
  {
    hide Indexed, Crowded, Pow2, Strtab, Known, NamesOf, ContentsOf, Align4, Named;
    ghost var structure, names := buf.structure, buf.Names();
    err := buf.BeginNode(name);
    if err == 0 {
      Grown(structure, buf, dict, names);
      KnownStill(structure, buf.structure, buf.strings, dict.Contents());
      OneSize(FlatBegin(name));
    }
  }

  /** `fdt_end_node` between properties. */
  method CloseNode(tree: Ufdt, h: NodeHeap, buf: FdtBuffer, dict: PropDict) returns (err: int)
    requires Writing(tree, h, buf, dict)
    modifies buf`structure, buf`sizeStruct, buf`apart
    ensures err == if old(buf.Fits(4)) then 0 else -1
    ensures err == 0 ==>
              && Writing(tree, h, buf, dict)
              && Wrote(old(buf.Text()), old(buf.sizeStruct), buf.Text(), buf.sizeStruct, [FlatEnd])
  {
    hide Indexed, Crowded, Pow2, Strtab, Known, NamesOf, ContentsOf, Align4, Named;
    ghost var structure, names := buf.structure, buf.Names();
    err := buf.EndNode();
    if err == 0 {
      Grown(structure, buf, dict, names);
      KnownStill(structure, buf.structure, buf.strings, dict.Contents());
      OneSize(FlatEnd);
    }
  }

  lemma {:induction false} KnownStill(s: seq<Token>, s': seq<Token>, strings: seq<byte>, dict: map<string, nat>)
    requires Known(s, strings, dict) && s <= s'
    ensures Known(s', strings, dict)
  {
  }

  /**
   * `_ufdt_output_node_to_fdt`: a node's properties, then its subnodes. For a node it succeeds exactly
   * when everything fits below the strings: a property may pass its own check and reach into the
   * strings, but then the end of the node does not fit.
   */
  method OutputNode(tree: Ufdt, h: NodeHeap, mem: BlobMemory, buf: FdtBuffer, node: Addr, dict: PropDict,
                    ghost t: Linked)
    returns (err: int)
    requires Writing(tree, h, buf, dict) && t.id == node && Rep(h.nodes, t, {})
    modifies buf`structure, buf`sizeStruct, buf`apart, dict, dict.props
    ensures err == 0 || err == -1
    ensures old(buf.Fits(FlatSizes(OutTree(t, mem.values)))) ==> err == 0
    ensures err == 0 && t.Node? ==> old(buf.Fits(FlatSizes(OutTree(t, mem.values))))
    ensures err == 0 ==>
              && Writing(tree, h, buf, dict)
              && Wrote(old(buf.Text()), old(buf.sizeStruct), buf.Text(), buf.sizeStruct, OutTree(t, mem.values))
    ensures dict.props == old(dict.props) || fresh(dict.props)
    decreases t, 1
  {
    hide Rep, Ready, Named, FlatSizes, FlatSize, Strtab, OutKids, OutTree, FdtBuffer.Text;
    RepRoot(h.nodes, t, {});
    NodeSizes(t, mem.values);
    if !h.nodes[node].IsNode() {
      err := OutputProperty(tree, h, mem, buf, node, dict, t);
      return;
    }
    hide Writing, Wrote;
    ghost var d, text, size := mem.values, buf.Text(), buf.sizeStruct;
    err := OpenNode(tree, h, buf, h.nodes[node].Name(), dict);
    if err < 0 {
      return -1;
    }
    ghost var text1, size1 := buf.Text(), buf.sizeStruct;
    RoomForNext(text, size, text1, size1, [FlatBegin(t.name)]);
    err := OutputChildren(tree, h, mem, buf, node, false, dict, t);
    if err < 0 {
      return -1;
    }
    ghost var text2, size2 := buf.Text(), buf.sizeStruct;
    RoomForNext(text1, size1, text2, size2, OutKids(t.kids, false, d));
    err := OutputChildren(tree, h, mem, buf, node, true, dict, t);
    if err < 0 {
      return -1;
    }
    ghost var text3, size3 := buf.Text(), buf.sizeStruct;
    RoomForNext(text2, size2, text3, size3, OutKids(t.kids, true, d));
    err := CloseNode(tree, h, buf, dict);
    if err < 0 {
      return -1;
    }
    NodeWritten(t, d, text, size, text1, size1, text2, size2, text3, size3, buf.Text(), buf.sizeStruct);
  }

  lemma {:induction false} NodeWritten(t: Linked, d: Values, text: seq<Flat>, size: nat, text1: seq<Flat>, size1: nat,
                                       text2: seq<Flat>, size2: nat, text3: seq<Flat>, size3: nat, text4: seq<Flat>,
                                       size4: nat)
    requires t.Node? && Wrote(text, size, text1, size1, [FlatBegin(t.name)])
    requires Wrote(text1, size1, text2, size2, OutKids(t.kids, false, d))
    requires Wrote(text2, size2, text3, size3, OutKids(t.kids, true, d))
    requires Wrote(text3, size3, text4, size4, [FlatEnd])
    ensures Wrote(text, size, text4, size4, OutTree(t, d))
  {
    var b, p, n := [FlatBegin(t.name)], OutKids(t.kids, false, d), OutKids(t.kids, true, d);
    WroteBoth(text, size, text1, size1, b, text2, size2, p);
    WroteBoth(text, size, text2, size2, b + p, text3, size3, n);
    WroteBoth(text, size, text3, size3, b + p + n, text4, size4, [FlatEnd]);
  }

  /** One loop of it, `for_each_prop` or `for_each_node`. */
  method OutputChildren(tree: Ufdt, h: NodeHeap, mem: BlobMemory, buf: FdtBuffer, node: Addr, isNode: bool,
                        dict: PropDict, ghost t: Linked)
    returns (err: int)
    requires Writing(tree, h, buf, dict) && t.Node? && t.id == node && Rep(h.nodes, t, {})
    modifies buf`structure, buf`sizeStruct, buf`apart, dict, dict.props
    ensures err == 0 || err == -1
    ensures old(buf.Fits(FlatSizes(OutKids(t.kids, isNode, mem.values)))) ==> err == 0
    ensures err == 0 ==>
              && Writing(tree, h, buf, dict)
              && Wrote(old(buf.Text()), old(buf.sizeStruct), buf.Text(), buf.sizeStruct,
                  OutKids(t.kids, isNode, mem.values))
    ensures dict.props == old(dict.props) || fresh(dict.props)
    decreases t, 0
  {
    hide Rep, Writing, Wrote, FlatSizes, OutKids, OutTree, FdtBuffer.Text;
    RepRoot(h.nodes, t, {});
    ghost var d, text, size := mem.values, buf.Text(), buf.sizeStruct;
    NoKidsYet(t.kids, isNode, d, text, size);
    var it := h.nodes[node].child;
    ghost var i := 0;
    while it != NULL
      invariant i <= |t.kids| && it == KidAt(t.kids, i)
      invariant Writing(tree, h, buf, dict)
      invariant Wrote(text, size, buf.Text(), buf.sizeStruct, OutKids(t.kids[..i], isNode, d))
      invariant dict.props == old(dict.props) || fresh(dict.props)
      decreases |t.kids| - i
    {
      NextKid(h.nodes, t, {}, i);
      OneMoreOut(t.kids, isNode, d, i);
      if h.nodes[it].IsNode() == isNode {
        ghost var text', size' := buf.Text(), buf.sizeStruct;
        RoomForNext(text, size, text', size', OutKids(t.kids[..i], isNode, d));
        err := OutputNode(tree, h, mem, buf, it, dict, t.kids[i]);
        if err < 0 {
          return -1;
        }
        WroteBoth(text, size, text', size', OutKids(t.kids[..i], isNode, d), buf.Text(), buf.sizeStruct,
            OutTree(t.kids[i], d));
      }
      it := h.nodes[it].sibling;
      i := i + 1;
    }
    EndOfKids(h.nodes, t, {}, i);
    return 0;
  }

  lemma {:induction false} RoomForNext(text: seq<Flat>, size: nat, text': seq<Flat>, size': nat, s: seq<Flat>)
    requires Wrote(text, size, text', size', s)
    ensures size' == size + FlatSizes(s)
  {
  }

  lemma {:induction false} NoKidsYet(kids: seq<Linked>, isNode: bool, d: Values, text: seq<Flat>, size: nat)
    ensures Wrote(text, size, text, size, OutKids(kids[..0], isNode, d))
  {
  }

  lemma {:induction false} OneMoreOut(kids: seq<Linked>, isNode: bool, d: Values, i: nat)
    requires i < |kids|
    ensures OutKids(kids[..i + 1], isNode, d) ==
              OutKids(kids[..i], isNode, d) + if kids[i].Node? == isNode then OutTree(kids[i], d) else []
    ensures kids[i].Node? != isNode ==> OutKids(kids[..i + 1], isNode, d) == OutKids(kids[..i], isNode, d)
    ensures kids[i].Node? == isNode ==>
              FlatSizes(OutKids(kids[..i], isNode, d))
                  + FlatSizes(OutTree(kids[i], d)) <= FlatSizes(OutKids(kids, isNode, d))
  {
    assert kids[..i + 1][..i] == kids[..i];
    var s, x := OutKids(kids[..i], isNode, d), if kids[i].Node? == isNode then OutTree(kids[i], d) else [];
    OutKidsPrefix(kids, isNode, d, i + 1);
    hide OutTree, OutKids;
    FlatSizesAppend(s, x);
  }

  lemma {:induction false} OutKidsPrefix(kids: seq<Linked>, isNode: bool, d: Values, i: nat)
    requires i <= |kids|
    ensures FlatSizes(OutKids(kids[..i], isNode, d)) <= FlatSizes(OutKids(kids, isNode, d))
    decreases |kids|
  {
    if i < |kids| {
      var rest, last := kids[..|kids| - 1], kids[|kids| - 1];
      assert rest[..i] == kids[..i];
      OutKidsPrefix(rest, isNode, d, i);
      FlatSizesAppend(OutKids(rest, isNode, d), if last.Node? == isNode then OutTree(last, d) else []);
    } else {
      assert kids[..i] == kids;
    }
  }

  lemma {:induction false} NodeSizes<N, I>(t: Tree<N, I>, d: Store<I>)
    ensures t.Node? ==>
              FlatSizes(OutTree(t, d)) ==
                FlatSize(FlatBegin(t.name)) + FlatSizes(OutKids(t.kids, false, d)) + FlatSizes(OutKids(t.kids, true, d))
                    + 4
    ensures FlatSizes([FlatBegin(t.name)]) == FlatSize(FlatBegin(t.name))
    ensures t.Prop? ==> OutTree(t, d) == [FlatProp(t.name, Val(d, t.data))]
  {
    OneSize(FlatBegin(t.name));
    if t.Node? {
      var p, n := OutKids(t.kids, false, d), OutKids(t.kids, true, d);
      FlatSizesAppend([FlatBegin(t.name)], p);
      FlatSizesAppend([FlatBegin(t.name)] + p, n);
      FlatSizesAppend([FlatBegin(t.name)] + p + n, [FlatEnd]);
      OneSize(FlatEnd);
    }
  }

  // ---------------------------------------------------------------- the whole blob

  /**
   * `_ufdt_output_strtab_to_fdt`: copies the strings of all blobs to the end of the buffer, in reverse,
   * if they fit behind the structure block.
   */
  method OutputStrtab(tree: Ufdt, buf: FdtBuffer) returns (err: int)
    requires tree.Valid() && buf.strings == [] && buf.sizeStrings == 0
    modifies buf`strings, buf`sizeStrings
    ensures err == if tree.numUsed == 0 || old(buf.Fits(|Strtab(tree.Fdts())|)) then 0 else -1
    ensures err == 0 ==> buf.strings == Strtab(tree.Fdts()) && buf.sizeStrings == |buf.strings|
  {
    var structTop := buf.offStruct + buf.sizeStruct;
    var dest: int := buf.totalsize;
    var i := 0;
    while i < tree.numUsed
      invariant i <= tree.numUsed
      invariant buf.strings == Strtab(tree.Fdts()[..i]) && dest == buf.totalsize - |buf.strings|
      invariant buf.sizeStrings == 0 && (i > 0 ==> dest >= structTop)
    {
      assert tree.Fdts()[..i + 1][..i] == tree.Fdts()[..i];
      StrtabSuffix(tree.Fdts(), i + 1);
      dest := dest - |tree.fdtps[i].strings|;
      if dest < structTop {
        return -1;
      }
      buf.strings := tree.fdtps[i].strings + buf.strings;
      i := i + 1;
    }
    assert tree.Fdts()[..i] == tree.Fdts();
    buf.sizeStrings := |buf.strings|;
    err := 0;
  }

  /** The record of token `i` once the strings have moved up behind the structure block. */
  function Finished(token: Token, blob: nat, i: nat, size: nat): FdtTag {
    match token
    case BeginToken(name) => FdtTag(blob, i, BeginNode, name, 0)
    case PropToken(nameoff, _) => FdtTag(blob, i, Property, "", if nameoff + size >= 0 then nameoff + size else 0)
    case EndToken => FdtTag(blob, i, EndNode, "", 0)
  }

  /** What finishing the buffer has to produce at address `blob`. */
  ghost predicate Written(buf: FdtBuffer, d: Values, d': Values, out: Fdt, blob: nat)
    reads buf
  {
    && out.blob == blob && out.reserve == buf.reserve[..NumMemRsv(buf.reserve)] && out.strings == buf.strings
    && |out.structure| == |buf.structure| + 1 && out.structure[|buf.structure|].kind == End
    && Placed(out) && NamesInside(out)
    && Spells(out, d', 0, buf.Text())
    && Kept(d, d', blob)
  }

  /** No value was lost or changed, and new ones belong to `blob`. */
  ghost predicate Kept(d: Values, d': Values, blob: nat) {
    && (forall tag | tag in d :: tag in d' && d'[tag] == d[tag])
    && (forall tag | tag in d' :: tag in d || tag.blob == blob)
  }

  /**
   * `fdt_finish`: ends the structure block, moves the strings behind it and makes every name offset
   * count from their start. `blob` is the address of the buffer.
   */
  method FdtFinish(buf: FdtBuffer, mem: BlobMemory, blob: nat) returns (r: Option<Fdt>)
    requires Offsets(buf.structure, |buf.strings|) && buf.sizeStrings == |buf.strings|
    requires forall tag | tag in mem.values :: tag.blob != blob
    modifies mem
    ensures r.Some? <==> buf.Fits(4)
    ensures r.None? ==> mem.values == old(mem.values)
    ensures r.Some? ==> Written(buf, old(mem.values), mem.values, r.value, blob)
    ensures r.Some? ==> r.value.totalsize == buf.offStruct + buf.sizeStruct + 4 + |buf.strings|
  {
    if buf.offStruct + buf.sizeStruct + 4 + buf.sizeStrings > buf.totalsize {
      return None;
    }
    var tags: seq<FdtTag> := [];
    var i := 0;
    while i < |buf.structure|
      invariant i <= |buf.structure| && |tags| == i
      invariant forall j | 0 <= j < i :: tags[j] == Finished(buf.structure[j], blob, j, buf.sizeStrings)
      invariant forall j | 0 <= j < i && buf.structure[j].PropToken? ::
                  tags[j] in mem.values && mem.values[tags[j]] == buf.structure[j].data
      invariant forall tag | tag in old(mem.values) :: tag in mem.values && mem.values[tag] == old(mem.values)[tag]
      invariant forall tag | tag in mem.values :: tag in old(mem.values) || (tag.blob == blob && tag.pos < i)
    {
      var token := buf.structure[i];
      var tag := Finished(token, blob, i, buf.sizeStrings);
      if token.PropToken? {
        mem.values := mem.values[tag := token.data];
      }
      tags := tags + [tag];
      i := i + 1;
    }
    tags := tags + [FdtTag(blob, i, End, "", 0)];
    var size := buf.offStruct + buf.sizeStruct + 4 + buf.sizeStrings;
    var out := Fdt(blob, size, buf.reserve[..NumMemRsv(buf.reserve)], tags, buf.strings);
    forall k | 0 <= k < |buf.Text()| ensures SpellsOne(out, mem.values, 0 + k, buf.Text()[k]) {
      Relocated(out, mem.values, buf.structure, k);
    }
    r := Some(out);
  }

  /** A moved name is still the same name. */
  lemma {:induction false} Relocated(out: Fdt, d: Values, structure: seq<Token>, k: nat)
    requires k < |structure| && k < |out.structure| && Offsets(structure, |out.strings|)
    requires out.structure[k] == Finished(structure[k], out.blob, k, |out.strings|)
    requires structure[k].PropToken? ==> out.structure[k] in d && d[out.structure[k]] == structure[k].data
    ensures SpellsOne(out, d, k, Spell(structure[k], out.strings))
  {
  }

  /** Copies the reserve entries of the first blob and ends the list; fails when there is no room for all of it. */
  method OutputReserveMap(tree: Ufdt, buf: FdtBuffer) returns (err: int)
    requires tree.Valid() && tree.numUsed > 0 && buf.reserve == [] && buf.sizeStruct == 0 && buf.sizeStrings == 0
    requires forall i | 0 <= i < |tree.Fdts()[0].reserve| :: tree.Fdts()[0].reserve[i].size > 0
    modifies buf`reserve, buf`offStruct
    ensures err == if old(buf.Fits(16 * (|tree.Fdts()[0].reserve| + 1))) then 0 else -1
    ensures err == 0 ==>
              && buf.reserve[..NumMemRsv(buf.reserve)] == tree.Fdts()[0].reserve
              && buf.offStruct == old(buf.offStruct) + 16 * (|tree.Fdts()[0].reserve| + 1)
  {
    var entries := tree.fdtps[0].reserve;
    assert entries == tree.Fdts()[0].reserve;
    var i := 0;
    ghost var k := 0;
    while i < |entries|
      invariant k <= i <= |entries| && buf.reserve == entries[..k]
      invariant buf.offStruct == old(buf.offStruct) + 16 * k
      invariant k < i ==> buf.offStruct + 16 > buf.totalsize
    {
      var added := buf.AddReserveEntry(entries[i]);
      k := if added == 0 then k + 1 else k;
      i := i + 1;
    }
    assert entries[..|entries|] == entries;
    NumMemRsvEnds(entries, Reserve(0, 0));
    err := buf.AddReserveEntry(Reserve(0, 0));
  }

  /** `fdt_open_into` the same buffer: makes use of all its space. */
  method OpenInto(fdt: Fdt, bufSize: nat) returns (r: Option<Fdt>)
    ensures r == if fdt.totalsize > bufSize then None else Some(fdt.(totalsize := bufSize))
  {
    if fdt.totalsize > bufSize {
      return None;
    }
    return Some(fdt.(totalsize := bufSize));
  }

  /** Header, reserve list, structure block and strings of the output. */
  ghost function OutSize(fdts: seq<Fdt>, v: Value): nat
    requires fdts != []
  {
    48 + 16 * (|fdts[0].reserve| + 1) + TreeSize(v) + 4 + |Strtab(fdts)|
  }

  /** `out` is the tree `t` flattened, with the reserve list of the first blob. */
  ghost predicate Flattened(out: Fdt, d: Values, d': Values, fdts: seq<Fdt>, t: Linked)
    requires t.Node? && fdts != []
  {
    && SoundBlob(out, d') && Fill(Decode(out), d') == PropsFirst(Fill(t, d))
    && out.reserve == fdts[0].reserve && out.strings == Strtab(fdts)
    && Kept(d, d', out.blob)
  }

  /** `ufdt_to_fdt`: there is a result exactly when there is enough space. */
  method UfdtToFdt(tree: Ufdt, h: NodeHeap, mem: BlobMemory, blob: nat, bufSize: nat, ghost t: Linked)
    returns (r: Option<Fdt>)
    requires tree.Valid()
    requires tree.numUsed > 0 ==>
               && t.Node? && t.id == tree.root && Rep(h.nodes, t, {}) && Named(h.nodes, tree.Fdts())
               && (forall f | f in tree.Fdts() :: Terminated(f))
               && (forall i | 0 <= i < |tree.Fdts()[0].reserve| :: tree.Fdts()[0].reserve[i].size > 0)
    requires forall tag | tag in mem.values :: tag.blob != blob
    modifies mem
    ensures tree.numUsed == 0 ==> r.None? && mem.values == old(mem.values)
    ensures tree.numUsed > 0 ==> (r.Some? <==> OutSize(tree.Fdts(), Fill(t, old(mem.values))) <= bufSize)
    ensures r.None? ==> mem.values == old(mem.values)
    ensures tree.numUsed > 0 && r.Some? ==>
              && r.value.blob == blob && r.value.totalsize == bufSize
              && Flattened(r.value, old(mem.values), mem.values, tree.Fdts(), t)
  {
    hide TreeSize, Rep, Named, Flattened, Written, OutTree, Strtab, FlatSizes, FlatSize, Fill, NumMemRsv;
    hide FdtBuffer.Text;
    if tree.numUsed == 0 {
      return None;
    }
    ghost var fdts, d := tree.Fdts(), mem.values;
    var buf, err := CreateBuffer(tree, bufSize);
    if err < 0 {
      return None;
    }
    err := OutputRoot(tree, h, mem, buf, t);
    if err < 0 {
      return None;
    }
    r := FdtFinish(buf, mem, blob);
    if r.None? {
      return None;
    }
    WrittenIsFlattened(buf, d, mem.values, r.value, blob, bufSize, fdts, t);
    r := OpenInto(r.value, bufSize);
  }

  /** The first half: header, reserve list and strings. */
  method CreateBuffer(tree: Ufdt, bufSize: nat) returns (buf: FdtBuffer, err: int)
    requires tree.Valid() && tree.numUsed > 0
    requires forall i | 0 <= i < |tree.Fdts()[0].reserve| :: tree.Fdts()[0].reserve[i].size > 0
    ensures fresh(buf) && buf.totalsize == bufSize && buf.structure == [] && buf.sizeStruct == 0 && buf.apart
    ensures err == if 48 + 16 * (|tree.Fdts()[0].reserve| + 1) + |Strtab(tree.Fdts())| <= bufSize then 0 else -1
    ensures err == 0 ==>
              && buf.strings == Strtab(tree.Fdts()) && buf.sizeStrings == |buf.strings|
              && buf.reserve[..NumMemRsv(buf.reserve)] == tree.Fdts()[0].reserve
              && buf.offStruct == 48 + 16 * (|tree.Fdts()[0].reserve| + 1)
  {
    hide Strtab, NumMemRsv;
    buf := new FdtBuffer(bufSize);
    err := OutputReserveMap(tree, buf);
    if err < 0 {
      return;
    }
    err := OutputStrtab(tree, buf);
  }

  /**
   * The second half: the structure block, with a dictionary of the names written so far. On success every
   * single write ended below the strings.
   */
  method OutputRoot(tree: Ufdt, h: NodeHeap, mem: BlobMemory, buf: FdtBuffer, ghost t: Linked) returns (err: int)
    requires tree.Valid() && t.Node? && t.id == tree.root && Rep(h.nodes, t, {}) && Named(h.nodes, tree.Fdts())
    requires buf.structure == [] && buf.sizeStruct == 0 && buf.apart
    requires buf.strings == Strtab(tree.Fdts()) && buf.sizeStrings == |buf.strings|
    modifies buf`structure, buf`sizeStruct, buf`apart
    ensures err == if buf.offStruct + TreeSize(Fill(t, mem.values)) + buf.sizeStrings <= buf.totalsize then 0 else -1
    ensures err == 0 ==>
              && buf.apart && Offsets(buf.structure, |buf.strings|)
              && buf.Text() == OutTree(t, mem.values) && buf.sizeStruct == TreeSize(Fill(t, mem.values))
  {
    hide TreeSize, Rep, Named, OutTree, Strtab, FlatSizes, Fill, Writing, FdtBuffer.Text;
    OutSizeIs(t, mem.values);
    var dict := new PropDict(buf);
    FirstWriting(tree, h, buf, dict);
    err := OutputNode(tree, h, mem, buf, tree.root, dict, t);
    if err < 0 {
      return -1;
    }
    WritingOffsets(tree, h, buf, dict);
  }

  lemma {:induction false} FirstWriting(tree: Ufdt, h: NodeHeap, buf: FdtBuffer, dict: PropDict)
    requires tree.Valid() && Named(h.nodes, tree.Fdts())
    requires dict.fdtp == buf && dict.Valid() && dict.Contents() == map[]
    requires buf.structure == [] && buf.strings == Strtab(tree.Fdts()) && buf.sizeStrings == |buf.strings| && buf.apart
    ensures Writing(tree, h, buf, dict) && buf.Text() == []
  {
    hide PropDict.Valid, PropDict.Contents, Named, Strtab;
  }

  lemma {:induction false} WritingOffsets(tree: Ufdt, h: NodeHeap, buf: FdtBuffer, dict: PropDict)
    requires Writing(tree, h, buf, dict)
    ensures Offsets(buf.structure, |buf.strings|) && (buf.Fits(0) ==> buf.apart)
  {
    hide PropDict.Valid, PropDict.Contents, Named, Strtab;
  }

  lemma {:induction false} OutSizeIs(t: Linked, d: Values)
    ensures FlatSizes(OutTree(t, d)) == TreeSize(Fill(t, d))
  {
    OutIsFlatten(t, d);
    PropsFirstSize(Fill(t, d));
    FlattenSize(PropsFirst(Fill(t, d)));
  }

  lemma {:induction false} WrittenIsFlattened(buf: FdtBuffer, d: Values, d': Values, out: Fdt, blob: nat, bufSize: nat,
                                              fdts: seq<Fdt>, t: Linked)
    requires t.Node? && fdts != [] && Written(buf, d, d', out, blob) && buf.Text() == OutTree(t, d)
    requires buf.strings == Strtab(fdts) && buf.reserve[..NumMemRsv(buf.reserve)] == fdts[0].reserve
    requires forall f | f in fdts :: Terminated(f)
    requires forall i | 0 <= i < |fdts[0].reserve| :: fdts[0].reserve[i].size > 0
    requires OutSize(fdts, Fill(t, d)) <= bufSize
    ensures Flattened(out.(totalsize := bufSize), d, d', fdts, t)
  {
    hide OutTree, FlattenTree, TreeSize, PropsFirst, Fill, Strtab, Spells, NumMemRsv, ParseKids, CString;
    var out' := out.(totalsize := bufSize);
    StrtabTerminated(fdts);
    OutSizeIs(t, d);
    var s := OutTree(t, d);
    Moved(out, out', d', s);
    DecodeWritten(out', d', t, d);
    SpelledSize(out', d', 0, s);
    StructSizeSplit(out', d', 0, |s|, |s| + 1);
  }

  /** The size in the header does not matter to what a blob spells. */
  lemma {:induction false} Moved(fdt: Fdt, fdt': Fdt, d: Values, s: seq<Flat>)
    requires Spells(fdt, d, 0, s) && fdt'.structure == fdt.structure && fdt'.strings == fdt.strings
    ensures Spells(fdt', d, 0, s)
  {
    forall k | 0 <= k < |s| ensures SpellsOne(fdt', d, 0 + k, s[k]) {
      assert SpellsOne(fdt, d, 0 + k, s[k]);
    }
  }
}
