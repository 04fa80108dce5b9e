/** What does not depend on labels, and what parsing guarantees about the records of a tree. */
module Erasing {
  import opened Blobs
  import opened Trees
  import opened Paths
  import opened Phandles
  import opened Parse
  import opened Flattening
  import opened Renumbering

  lemma {:induction false} FindErased<N, D>(kids: seq<Tree<N, D>>, isNode: bool, name: string)
    ensures Find(EraseKids(kids), isNode, name) == Find(kids, isNode, name)
  {
    FindIs(EraseKids(kids), isNode, name, Find(kids, isNode, name));
  }

  lemma {:induction false} PropOfErased<N, D>(t: Tree<N, D>, name: string)
    ensures PropOf(Erase(t), name) == PropOf(t, name)
  {
    if t.Node? {
      FindErased(t.kids, false, name);
    }
  }

  lemma {:induction false} PhandleErased<N, I>(t: Tree<N, I>, d: Store<I>)
    ensures Phandle(Erase(t), d) == Phandle(t, d)
  {
    PropOfErased(t, "phandle");
    PropOfErased(t, "linux,phandle");
  }

  lemma {:induction false} SignedErased<N, I>(t: Tree<N, I>, d: Store<I>)
    ensures Signed(Erase(t), d) == Signed(t, d)
  {
    PhandleErased(t, d);
    if t.Node? {
      forall i | 0 <= i < |t.kids| ensures Signed(Erase(t).kids[i], d) == Signed(t.kids[i], d) {
        SignedErased(t.kids[i], d);
      }
    }
  }

  lemma {:induction false} FillErased<N, I>(t: Tree<N, I>, d: Store<I>)
    ensures Fill(Erase(t), d) == Fill(t, d)
  {
    if t.Node? {
      forall i | 0 <= i < |t.kids| ensures FillKids(Erase(t).kids, d)[i] == FillKids(t.kids, d)[i] {
        FillErased(t.kids[i], d);
      }
      assert FillKids(Erase(t).kids, d) == FillKids(t.kids, d);
    }
  }

  lemma {:induction false} UniqueErased<N, D>(t: Tree<N, D>)
    ensures Unique(Erase(t)) == Unique(t)
  {
    if t.Node? {
      forall i | 0 <= i < |t.kids| ensures Unique(Erase(t).kids[i]) == Unique(t.kids[i]) {
        UniqueErased(t.kids[i]);
      }
      forall i, j | 0 <= i < j < |t.kids| ensures SameName(Erase(t).kids[i], Erase(t).kids[j]) ==
          SameName(t.kids[i], t.kids[j]) {
      }
    }
  }

  lemma {:induction false} RecordsErased<N, D>(t: Tree<N, D>)
    ensures Records(Erase(t)) == Records(t) && OwnRecords(Erase(t)) == OwnRecords(t)
  {
    if t.Node? {
      forall i | 0 <= i < |t.kids|
        ensures Records(Erase(t).kids[i]) == Records(t.kids[i]) && OwnRecords(Erase(t).kids[i]) == OwnRecords(t.kids[i])
      {
        RecordsErased(t.kids[i]);
      }
    }
  }

  // ---------------------------------------------------------------- records of a parsed tree

  /** The records of these children are tokens `i..j` of the block. */
  ghost predicate RecordsBetween(kids: seq<Parsed>, fdt: Fdt, i: nat, j: nat) {
    forall x | x in KidRecords(kids) :: x.blob == fdt.blob && i <= x.pos < j
  }

  lemma {:induction false} PushRecords(x: Parsed, rest: seq<Parsed>)
    requires OwnRecords(x) && OwnKidRecords(rest) && Records(x) !! KidRecords(rest)
    ensures OwnKidRecords([x] + rest) && KidRecords([x] + rest) == Records(x) + KidRecords(rest)
  {
    var kids := [x] + rest;
    assert Records(kids[0]) == Records(x);
    forall i | 0 <= i < |rest| ensures Records(rest[i]) <= KidRecords(rest) && kids[i + 1] == rest[i] {
    }
    forall n | n in KidRecords(rest) ensures n in KidRecords(kids) {
      var i :| 0 <= i < |rest| && n in Records(rest[i]);
      assert n in Records(kids[i + 1]);
    }
    forall n | n in KidRecords(kids) ensures n in Records(x) + KidRecords(rest) {
      var i :| 0 <= i < |kids| && n in Records(kids[i]);
      assert i > 0 ==> kids[i] == rest[i - 1];
    }
    forall i, j | 0 <= i < j < |kids| ensures Records(kids[i]) !! Records(kids[j]) {
      assert kids[j] == rest[j - 1] && (i > 0 ==> kids[i] == rest[i - 1]);
    }
    forall i | 0 <= i < |kids| ensures OwnRecords(kids[i]) {
      assert i > 0 ==> kids[i] == rest[i - 1];
    }
  }

  /** Every property of a parsed tree has a record of its own. */
  lemma {:induction false} ParsedRecords(fdt: Fdt, i: nat)
    requires Placed(fdt) && ParseKids(fdt, i).Some?
    ensures var c := ParseKids(fdt, i).value; OwnKidRecords(c.kids) && RecordsBetween(c.kids, fdt, i, c.next)
    decreases |fdt.structure| - i
  {
    var tag, c := fdt.structure[i], ParseKids(fdt, i).value;
    match tag.kind {
      case EndNode =>
      case Nop => ParsedRecords(fdt, i + 1);
      case Property =>
        ParsedRecords(fdt, i + 1);
        PushRecords(Prop((), fdt.String(tag.nameoff), tag), ParseKids(fdt, i + 1).value.kids);
      case BeginNode =>
        var sub := ParseKids(fdt, i + 1).value;
        ParsedRecords(fdt, i + 1);
        ParsedRecords(fdt, sub.next);
        PushRecords(Node((), tag.name, sub.kids), ParseKids(fdt, sub.next).value.kids);
      case End =>
    }
  }

  /** The same for a whole blob, and all its records are the blob's. */
  lemma {:induction false} DecodedRecords(fdt: Fdt)
    requires WellFormed(fdt)
    ensures OwnRecords(Decode(fdt)) && forall x | x in Records(Decode(fdt)) :: x.blob == fdt.blob
  {
    ParsedRecords(fdt, 1);
  }
}
