/** From the structure block to a linked tree. */
module Parse {
  import opened Bytes
  import opened Blobs
  import opened Trees
  import opened NodePool
  import opened Nodes
  import opened Spelling

  /** A decoded structure block: properties still point at their record in the blob. */
  type Parsed = Tree<(), FdtTag>

  /** Forgets labels. */
  function Erase<N, D>(t: Tree<N, D>): (r: Tree<(), D>)
    ensures r.Node? == t.Node? && r.name == t.name
  {
    match t
    case Prop(_, name, data) => Prop((), name, data)
    case Node(_, name, kids) => Node((), name, EraseKids(kids))
  }

  function EraseKids<N, D>(kids: seq<Tree<N, D>>): (r: seq<Tree<(), D>>)
    ensures |r| == |kids|
    ensures forall i | 0 <= i < |kids| :: r[i] == Erase(kids[i])
  {
    seq(|kids|, i requires 0 <= i < |kids| => Erase(kids[i]))
  }

  datatype Children = Children(kids: seq<Parsed>, next: nat)

  /** The children of a node from token `i` to the matching end-node token. */
  function ParseKids(fdt: Fdt, i: nat): (r: Option<Children>)
    ensures r.Some? ==> i < r.value.next <= |fdt.structure|
    decreases |fdt.structure| - i
  {
    if i >= |fdt.structure| then None
    else
      var tag := fdt.structure[i];
      match tag.kind
      case EndNode => Some(Children([], i + 1))
      case Nop => ParseKids(fdt, i + 1)
      case Property =>
        var rest := ParseKids(fdt, i + 1);
        if rest.None? then None
        else Some(Children([Prop((), fdt.String(tag.nameoff), tag)] + rest.value.kids, rest.value.next))
      case BeginNode =>
        var sub := ParseKids(fdt, i + 1);
        if sub.None? then None
        else
          var rest := ParseKids(fdt, sub.value.next);
          if rest.None? then None
          else Some(Children([Node((), tag.name, sub.value.kids)] + rest.value.kids, rest.value.next))
      case End => None
  }

  /** Every token knows its place. */
  ghost predicate Placed(fdt: Fdt) {
    forall i | 0 <= i < |fdt.structure| :: fdt.structure[i].blob == fdt.blob && fdt.structure[i].pos == i
  }

  /** Property names lie in the strings block. */
  ghost predicate NamesInside(fdt: Fdt) {
    forall i | 0 <= i < |fdt.structure| && fdt.structure[i].kind == Property :: fdt.structure[i].nameoff < |fdt.strings|
  }

  /** The block starts with the root node, its nodes are closed and the end token follows. */
  ghost predicate WellFormed(fdt: Fdt) {
    && 0 < |fdt.structure| && fdt.structure[0].kind == BeginNode
    && ParseKids(fdt, 1).Some? && ParseKids(fdt, 1).value.next < |fdt.structure|
    && Placed(fdt)
  }

  /** The tree in a blob. */
  function Decode(fdt: Fdt): (r: Parsed)
    requires 0 < |fdt.structure| && ParseKids(fdt, 1).Some?
    ensures r.Node?
  {
    Node((), fdt.structure[0].name, ParseKids(fdt, 1).value.kids)
  }

  /** What parsing the token at `i` yields: one tree, or nothing. */
  function ParseAt(fdt: Fdt, i: nat): Option<Parsed>
    requires i < |fdt.structure|
    requires fdt.structure[i].kind == BeginNode ==> ParseKids(fdt, i + 1).Some?
  {
    var tag := fdt.structure[i];
    match tag.kind
    case Property => Some(Prop((), fdt.String(tag.nameoff), tag))
    case BeginNode => Some(Node((), tag.name, ParseKids(fdt, i + 1).value.kids))
    case _ => None
  }

  function NextAfter(fdt: Fdt, i: nat): (r: nat)
    requires i < |fdt.structure|
    requires fdt.structure[i].kind == BeginNode ==> ParseKids(fdt, i + 1).Some?
    ensures i < r <= |fdt.structure|
  {
    if fdt.structure[i].kind == BeginNode then ParseKids(fdt, i + 1).value.next else i + 1
  }

  // ---------------------------------------------------------------- names

  /** Every property is called what the bytes at its name offset spell. */
  ghost predicate NamesSpelled<N>(t: Tree<N, FdtTag>, fdt: Fdt) {
    match t
    case Prop(_, name, data) => SpelledAt(fdt.strings, data.nameoff, name)
    case Node(_, _, kids) => forall i | 0 <= i < |kids| :: NamesSpelled(kids[i], fdt)
  }

  lemma {:induction false} NameRead(fdt: Fdt, off: nat)
    requires off <= |fdt.strings|
    ensures SpelledAt(fdt.strings, off, fdt.String(off))
  {
    CStringReads(fdt.strings, off);
  }

  lemma {:induction false} KidNames(fdt: Fdt, i: nat)
    requires NamesInside(fdt) && ParseKids(fdt, i).Some?
    ensures forall k | 0 <= k < |ParseKids(fdt, i).value.kids| :: NamesSpelled(ParseKids(fdt, i).value.kids[k], fdt)
    decreases |fdt.structure| - i
  {
    var tag := fdt.structure[i];
    match tag.kind {
      case EndNode =>
      case Nop => KidNames(fdt, i + 1);
      case Property =>
        NameRead(fdt, tag.nameoff);
        KidNames(fdt, i + 1);
      case BeginNode =>
        KidNames(fdt, i + 1);
        KidNames(fdt, ParseKids(fdt, i + 1).value.next);
      case End =>
    }
  }

  lemma {:induction false} ParsedNames(fdt: Fdt, i: nat)
    requires NamesInside(fdt) && i < |fdt.structure|
    requires fdt.structure[i].kind == BeginNode ==> ParseKids(fdt, i + 1).Some?
    ensures ParseAt(fdt, i).Some? ==> NamesSpelled(ParseAt(fdt, i).value, fdt)
  {
    if fdt.structure[i].kind == Property {
      NameRead(fdt, fdt.structure[i].nameoff);
    } else if fdt.structure[i].kind == BeginNode {
      KidNames(fdt, i + 1);
    }
  }

  lemma {:induction false} NamesErased<N>(t: Tree<N, FdtTag>, fdt: Fdt)
    ensures NamesSpelled(Erase(t), fdt) == NamesSpelled(t, fdt)
  {
    if t.Node? {
      forall i | 0 <= i < |t.kids| ensures NamesSpelled(Erase(t).kids[i], fdt) == NamesSpelled(t.kids[i], fdt) {
        NamesErased(t.kids[i], fdt);
      }
    }
  }

  /** A new tree: all its nodes are new, nothing else changed. */
  ghost predicate Built(m: Memory, m': Memory, t: Linked) {
    && Rep(m', t, {}) && Separate(t) && Ids(t) !! m.Keys
    && m'.Keys == m.Keys + Ids(t) && SameOutside(m, m', Ids(t))
    && t.id in m' && m'[t.id].sibling == NULL
  }

  /** Names of new properties point into the strings of `fdt`. */
  ghost predicate NamesFrom(m: Memory, m': Memory, fdt: Fdt) {
    forall n | n in m' && n !in m && m'[n].tag.kind == Property :: m'[n].namePtr.fdt == fdt
        && m'[n].namePtr.off < |fdt.strings|
  }

  lemma {:induction false} NoNamesYet(m: Memory, fdt: Fdt)
    ensures NamesFrom(m, m, fdt)
  {
  }

  lemma {:induction false} NamesFromTwo(m: Memory, m': Memory, m'': Memory, m3: Memory, fdt: Fdt, t: Linked)
    requires NamesFrom(m, m', fdt) && NamesFrom(m', m'', fdt) && SameOutside(m', m'', Ids(t)) && Ids(t) !! m'.Keys
    requires SameNames(m'', m3)
    ensures NamesFrom(m, m3, fdt)
  {
    forall n | n in m3 && n !in m && m3[n].tag.kind == Property
      ensures m3[n].namePtr.fdt == fdt && m3[n].namePtr.off < |fdt.strings|
    {
      assert n in m'';
      assert n in m' ==> n !in Ids(t) && m''[n] == m'[n];
    }
  }

  /** `fdt_to_ufdt_tree`. */
  method FdtToUfdtTree(h: NodeHeap, fdt: Fdt, cur: nat) returns (res: Addr, next: nat, ghost t: Linked)
    requires h.Valid() && NamesInside(fdt) && cur < |fdt.structure|
    requires fdt.structure[cur].kind == BeginNode ==> ParseKids(fdt, cur + 1).Some?
    modifies h, h.pool, h.pool.members
    ensures h.Valid() && fresh(h.pool.members - old(h.pool.members))
    ensures next == NextAfter(fdt, cur) && NamesFrom(old(h.nodes), h.nodes, fdt)
    ensures res == NULL <==> ParseAt(fdt, cur).None?
    ensures res == NULL ==> h.nodes == old(h.nodes)
    ensures res != NULL ==> res == t.id && Built(old(h.nodes), h.nodes, t) && ParseAt(fdt, cur) == Some(Erase(t))
    ensures res != NULL ==> NamesSpelled(t, fdt)
    decreases |fdt.structure| - cur
  {
    hide NodeHeap.Valid, Built, Rep, NamesFrom, SameNames, NamesSpelled;
    ParsedNames(fdt, cur);
    NoNamesYet(h.nodes, fdt);
    next := cur + 1;
    res := NULL;
    t := Node(NULL, "", []);
    ghost var m := h.nodes;
    match fdt.structure[cur].kind {
      case Property =>
        res := h.Construct(fdt, fdt.structure[cur]);
        t := Prop(res, fdt.String(fdt.structure[cur].nameoff), fdt.structure[cur]);
        OneBuilt(m, h.nodes, t, fdt, fdt.structure[cur]);
      case BeginNode =>
        res := h.Construct(fdt, fdt.structure[cur]);
        t := Node(res, fdt.structure[cur].name, []);
        OneBuilt(m, h.nodes, t, fdt, fdt.structure[cur]);
        var tag := Nop;
        assert EraseKids(t.kids) == [];
        NoneParsed(fdt, cur + 1);
        while tag != EndNode
          invariant h.Valid() && fresh(h.pool.members - old(h.pool.members))
          invariant cur < next <= |fdt.structure|
          invariant res != NULL && t.id == res && t.Node? && t.name == fdt.structure[cur].name
          invariant Built(m, h.nodes, t) && NamesFrom(m, h.nodes, fdt)
          invariant tag != EndNode ==> ParseKids(fdt, next).Some?
          invariant ParseKids(fdt, cur + 1) == Remaining(fdt, EraseKids(t.kids), next, tag == EndNode)
          decreases tag != EndNode, |fdt.structure| - next
        {
          var at := next;
          OneMoreParsed(fdt, EraseKids(t.kids), at);
          tag := fdt.structure[at].kind;
          var child: Addr;
          ghost var c;
          ghost var m' := h.nodes;
          child, next, c := FdtToUfdtTree(h, fdt, at);
          ghost var m'' := h.nodes;
          BuiltHere(m, m', t);
          if child != NULL {
            BuiltTwo(m, m', m'', t, c);
          }
          var _ := h.AddChild(res, child, t, c);
          if child != NULL {
            BuiltNames(m, m', m'', h.nodes, fdt, c);
            BuiltMore(m, m', m'', h.nodes, t, c);
            assert EraseKids(t.kids + [c]) == EraseKids(t.kids) + [Erase(c)];
            t := t.(kids := t.kids + [c]);
          }
        }
      case _ =>
    }
    NamesErased(t, fdt);
  }

  /** The children parsed so far, followed by those still to come. */
  function Remaining(fdt: Fdt, kids: seq<Parsed>, next: nat, done: bool): Option<Children> {
    if done then Some(Children(kids, next))
    else
      var rest := ParseKids(fdt, next);
      if rest.None? then None else Some(Children(kids + rest.value.kids, rest.value.next))
  }

  lemma {:induction false} NoneParsed(fdt: Fdt, i: nat)
    ensures Remaining(fdt, [], i, false) == ParseKids(fdt, i)
  {
    var rest := ParseKids(fdt, i);
    assert rest.Some? ==> [] + rest.value.kids == rest.value.kids;
  }

  /** One more token of the child list. */
  lemma {:induction false} OneMoreParsed(fdt: Fdt, kids: seq<Parsed>, i: nat)
    requires i < |fdt.structure| && ParseKids(fdt, i).Some?
    ensures fdt.structure[i].kind == BeginNode ==> ParseKids(fdt, i + 1).Some?
    ensures
      var t, done := ParseAt(fdt, i), fdt.structure[i].kind == EndNode;
      && (!done ==> ParseKids(fdt, NextAfter(fdt, i)).Some?)
      && Remaining(fdt, kids, i, false) ==
           Remaining(fdt, if t.None? then kids else kids + [t.value], NextAfter(fdt, i), done)
  {
    var t := ParseAt(fdt, i);
    if t.Some? {
      var rest := ParseKids(fdt, NextAfter(fdt, i)).value.kids;
      assert kids + ([t.value] + rest) == kids + [t.value] + rest;
    } else if fdt.structure[i].kind == EndNode {
      assert kids + [] == kids;
    }
  }

  lemma {:induction false} OneBuilt(m: Memory, m': Memory, t: Linked, fdt: Fdt, tag: FdtTag)
    requires t.id != NULL && t.id !in m
            && m' == m[t.id := UfdtNode(tag, StrPtr(fdt, tag.nameoff), NULL, NULL, ChildOf(t.id))]
    requires t.Prop? ==> tag == t.data && tag.kind == Property && t.name == fdt.String(tag.nameoff)
    requires t.Node? ==> tag.kind == BeginNode && t.kids == [] && t.name == tag.name
    requires tag.kind == Property ==> tag.nameoff < |fdt.strings|
    ensures Built(m, m', t) && NamesFrom(m, m', fdt)
  {
  }

  lemma {:induction false} BuiltNames(m: Memory, m': Memory, m'': Memory, m3: Memory, fdt: Fdt, c: Linked)
    requires NamesFrom(m, m', fdt) && NamesFrom(m', m'', fdt) && Built(m', m'', c) && SameNames(m'', m3)
    ensures NamesFrom(m, m3, fdt)
  {
    NamesFromTwo(m, m', m'', m3, fdt, c);
  }

  lemma {:induction false} BuiltHere(m: Memory, m': Memory, t: Linked)
    requires t.Node? && Built(m, m', t)
    ensures t.id in m' && m'[t.id].IsNode()
  {
  }

  lemma {:induction false} BuiltTwo(m: Memory, m': Memory, m'': Memory, t: Linked, c: Linked)
    requires t.Node? && Built(m, m', t) && Built(m', m'', c)
    ensures Rep(m'', t, {}) && Separate(t) && Rep(m'', c, {}) && Separate(c) && Ids(t) !! Ids(c)
    ensures t.id != NULL && c.id != NULL && c.id in m'' && m''[c.id].sibling == NULL
    ensures t.id in m'' && m''[t.id].sibling == NULL && m''[t.id].IsNode() && m''[c.id].CanBeChild()
  {
    assert t.id in Ids(t);
    RepOutside(m', m'', t, {}, Ids(c));
  }

  lemma {:induction false} BuiltMore(m: Memory, m': Memory, m'': Memory, m3: Memory, t: Linked, c: Linked)
    requires t.Node? && Built(m, m', t) && Built(m', m'', c)
    requires Rep(m3, t.(kids := t.kids + [c]), {}) && SameOutside(m'', m3, Ids(t)) && m3.Keys == m''.Keys
    requires t.id in m'' && t.id in m3 && m3[t.id].sibling == m''[t.id].sibling
    ensures Built(m, m3, t.(kids := t.kids + [c]))
  {
    BuiltTwo(m, m', m'', t, c);
    SeparateMore(t, c);
    hide Rep, Ids, Separate;
  }

  lemma {:induction false} SeparateMore<N, D>(t: Tree<N, D>, c: Tree<N, D>)
    requires t.Node? && Separate(t) && Separate(c) && Ids(t) !! Ids(c)
    ensures var t' := t.(kids := t.kids + [c]); Separate(t') && Ids(t') == Ids(t) + Ids(c)
  {
    var kids' := t.kids + [c];
    KidIdsContain(kids', |t.kids|);
    forall n | n in KidIds(t.kids) ensures n in KidIds(kids') {
      var i :| 0 <= i < |t.kids| && n in Ids(t.kids[i]);
      assert n in Ids(kids'[i]);
    }
    forall i | 0 <= i < |t.kids| ensures Ids(t.kids[i]) <= KidIds(t.kids) && Separate(kids'[i]) {
      assert SeparateKids(t.kids);
      KidIdsContain(t.kids, i);
    }
    assert SeparateKids(kids');
  }
}
