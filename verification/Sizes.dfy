/** Sizes in bytes: of trees, of structure blocks, and of whole blobs. */
module Sizes {
  import opened Blobs
  import opened Trees
  import opened Paths
  import opened Phandles
  import opened Parse
  import opened FdtBuffers
  import opened Flattening

  /** Bytes a tree takes in a structure block. */
  function TreeSize(v: Value): nat {
    match v
    case Prop(_, _, data) => 12 + Align4(|data|)
    case Node(_, name, kids) => 4 + Align4(|name| + 1) + KidSizes(kids) + 4
  }

  function KidSizes(kids: seq<Value>): nat {
    if kids == [] then 0 else KidSizes(kids[..|kids| - 1]) + TreeSize(kids[|kids| - 1])
  }

  /** The flattened form takes that many bytes. */
  lemma {:induction false} FlattenSize(v: Value)
    ensures FlatSizes(FlattenTree(v)) == TreeSize(v)
  {
    match v
    case Prop(_, name, data) => OneSize(FlatProp(name, data));
    case Node(_, name, kids) =>
      FlattenKidSizes(kids);
      FlatSizesAppend([FlatBegin(name)], FlattenKids(kids));
      FlatSizesAppend([FlatBegin(name)] + FlattenKids(kids), [FlatEnd]);
      OneSize(FlatBegin(name));
      OneSize(FlatEnd);
  }

  lemma {:induction false} FlattenKidSizes(kids: seq<Value>)
    ensures FlatSizes(FlattenKids(kids)) == KidSizes(kids)
  {
    if kids != [] {
      var rest, last := kids[..|kids| - 1], kids[|kids| - 1];
      assert kids == rest + [last];
      FlattenKidsAppend(rest, [last]);
      FlattenOne(last);
      FlattenKidSizes(rest);
      FlattenSize(last);
      FlatSizesAppend(FlattenKids(rest), FlattenTree(last));
    }
  }

  // ---------------------------------------------------------------- one child

  lemma {:induction false} KidSizesPrefix(kids: seq<Value>, i: nat)
    requires i <= |kids|
    ensures KidSizes(kids[..i]) <= KidSizes(kids)
    decreases |kids|
  {
    if i < |kids| {
      assert kids[..|kids| - 1][..i] == kids[..i];
      KidSizesPrefix(kids[..|kids| - 1], i);
    } else {
      assert kids[..i] == kids;
    }
  }

  lemma {:induction false} KidSizesAppend(s: seq<Value>, t: seq<Value>)
    ensures KidSizes(s + t) == KidSizes(s) + KidSizes(t)
    decreases t
  {
    if t == [] {
      assert s + t == s;
    } else {
      assert (s + t)[..|s + t| - 1] == s + t[..|t| - 1];
      KidSizesAppend(s, t[..|t| - 1]);
    }
  }

  /** Exchanging one child changes the size by the difference of the two. */
  lemma {:induction false} KidSizesUpdate(kids: seq<Value>, i: nat, x: Value)
    requires i < |kids|
    ensures KidSizes(kids[i := x]) + TreeSize(kids[i]) == KidSizes(kids) + TreeSize(x)
    decreases |kids|
  {
    var rest := kids[..|kids| - 1];
    if i < |rest| {
      assert kids[i := x][..|kids| - 1] == rest[i := x];
      KidSizesUpdate(rest, i, x);
    } else {
      assert kids[i := x][..|kids| - 1] == rest;
    }
  }

  /** Moving properties to the front keeps the size. */
  lemma {:induction false} PropsFirstSize(v: Value)
    ensures TreeSize(PropsFirst(v)) == TreeSize(v)
  {
    if v.Node? {
      var kids := PropsFirstKids(v.kids);
      PropsFirstKidSizes(v.kids);
      SelectSizes(kids);
      KidSizesAppend(Select(kids, false), Select(kids, true));
    }
  }

  lemma {:induction false} PropsFirstKidSizes(kids: seq<Value>)
    ensures KidSizes(PropsFirstKids(kids)) == KidSizes(kids)
  {
    if kids != [] {
      var rest := kids[..|kids| - 1];
      assert PropsFirstKids(kids)[..|kids| - 1] == PropsFirstKids(rest);
      PropsFirstKidSizes(rest);
      PropsFirstSize(kids[|kids| - 1]);
    }
  }

  lemma {:induction false} SelectSizes(kids: seq<Value>)
    ensures KidSizes(Select(kids, false)) + KidSizes(Select(kids, true)) == KidSizes(kids)
  {
    if kids != [] {
      var x, rest := kids[0], kids[1..];
      SelectSizes(rest);
      assert Select(kids, x.Node?) == [x] + Select(rest, x.Node?);
      assert Select(kids, !x.Node?) == Select(rest, !x.Node?);
      KidSizesAppend([x], rest);
      KidSizesAppend([x], Select(rest, x.Node?));
      assert [x] + rest == kids && [x][..0] == [];
    }
  }

  // ---------------------------------------------------------------- merging never needs more than both

  /** Merging a node adds at most the sizes of the source's children. */
  lemma {:induction false} MergeSize(a: Value, b: Value)
    requires a.Node? == b.Node?
    ensures a.Node? ==> TreeSize(Merge(a, b)) <= TreeSize(a) + KidSizes(b.kids)
    ensures a.Prop? ==> TreeSize(Merge(a, b)) == TreeSize(b)
    ensures TreeSize(Merge(a, b)) <= TreeSize(a) + TreeSize(b)
    decreases b, 0
  {
    if a.Node? {
      MergeKidsSize(a.kids, b.kids);
    }
  }

  lemma {:induction false} MergeKidSize(ka: seq<Value>, x: Value)
    ensures KidSizes(MergeKid(ka, x)) <= KidSizes(ka) + TreeSize(x)
    decreases x, 1
  {
    var i := Find(ka, x.Node?, x.name);
    if i < |ka| {
      MergeSize(ka[i], x);
      KidSizesUpdate(ka, i, Merge(ka[i], x));
    } else {
      assert (ka + [x])[..|ka|] == ka;
    }
  }

  lemma {:induction false} MergeKidsSize(ka: seq<Value>, kb: seq<Value>)
    ensures KidSizes(MergeKids(ka, kb)) <= KidSizes(ka) + KidSizes(kb)
    decreases kb, 0
  {
    if kb != [] {
      MergeKidsSize(ka, kb[..|kb| - 1]);
      MergeKidSize(MergeKids(ka, kb[..|kb| - 1]), kb[|kb| - 1]);
    }
  }

  // ---------------------------------------------------------------- structure blocks

  /** Bytes of one token. */
  function TagSize(tag: FdtTag, d: Values): nat {
    match tag.kind
    case BeginNode => 4 + Align4(|tag.name| + 1)
    case Property => 12 + Align4(|Val(d, tag)|)
    case _ => 4
  }

  /** Bytes of the tokens from `i` to `j`. */
  function StructSize(fdt: Fdt, d: Values, i: nat, j: nat): nat
    requires i <= j <= |fdt.structure|
    decreases j - i
  {
    if i == j then 0 else TagSize(fdt.structure[i], d) + StructSize(fdt, d, i + 1, j)
  }

  lemma {:induction false} StructSizeSplit(fdt: Fdt, d: Values, i: nat, j: nat, k: nat)
    requires i <= j <= k <= |fdt.structure|
    ensures StructSize(fdt, d, i, k) == StructSize(fdt, d, i, j) + StructSize(fdt, d, j, k)
    decreases j - i
  {
    if i < j {
      StructSizeSplit(fdt, d, i + 1, j, k);
    }
  }

  /** What was parsed takes no more than the tokens it was parsed from. */
  lemma {:induction false} ParsedSize(fdt: Fdt, d: Values, i: nat)
    requires ParseKids(fdt, i).Some?
    ensures var c := ParseKids(fdt, i).value;
            KidSizes(FillKids(c.kids, d)) + 4 <= StructSize(fdt, d, i, c.next)
    decreases |fdt.structure| - i
  {
    hide TreeSize, Fill, FillKids, KidSizes, Align4;
    var tag, c := fdt.structure[i], ParseKids(fdt, i).value;
    NoKidsSize(d);
    match tag.kind {
      case EndNode =>
      case Nop => ParsedSize(fdt, d, i + 1);
      case Property =>
        ParsedSize(fdt, d, i + 1);
        PushSize(Prop((), fdt.String(tag.nameoff), tag), ParseKids(fdt, i + 1).value.kids, d);
        TokenSizes(tag, fdt.String(tag.nameoff), [], d);
      case BeginNode =>
        var sub := ParseKids(fdt, i + 1).value;
        ParsedSize(fdt, d, i + 1);
        ParsedSize(fdt, d, sub.next);
        StructSizeSplit(fdt, d, i + 1, sub.next, c.next);
        PushSize(Node((), tag.name, sub.kids), ParseKids(fdt, sub.next).value.kids, d);
        TokenSizes(tag, "", sub.kids, d);
      case End =>
    }
  }

  lemma {:induction false} NoKidsSize(d: Values)
    ensures KidSizes(FillKids<(), FdtTag>([], d)) == 0
  {
  }

  /** What a property and a node take, from their first token on. */
  lemma {:induction false} TokenSizes(tag: FdtTag, name: string, kids: seq<Parsed>, d: Values)
    ensures tag.kind == Property ==> TreeSize(Fill(Prop((), name, tag), d)) == TagSize(tag, d)
    ensures tag.kind == BeginNode ==>
              TreeSize(Fill(Node((), tag.name, kids), d)) == TagSize(tag, d) + KidSizes(FillKids(kids, d)) + 4
  {
  }

  lemma {:induction false} PushSize(x: Parsed, rest: seq<Parsed>, d: Values)
    ensures KidSizes(FillKids([x] + rest, d)) == TreeSize(Fill(x, d)) + KidSizes(FillKids(rest, d))
  {
    assert FillKids([x] + rest, d) == [Fill(x, d)] + FillKids(rest, d);
    KidSizesAppend([Fill(x, d)], FillKids(rest, d));
    assert [Fill(x, d)][..0] == [];
  }

  /** A block that spells these tokens takes their bytes. */
  lemma {:induction false} SpelledSize(fdt: Fdt, d: Values, i: nat, s: seq<Flat>)
    requires Spells(fdt, d, i, s)
    ensures StructSize(fdt, d, i, i + |s|) == FlatSizes(s)
    decreases |s|
  {
    if s != [] {
      var rest, last := s[..|s| - 1], s[|s| - 1];
      assert s == rest + [last];
      SpellsSplit(fdt, d, i, rest, [last]);
      SpelledSize(fdt, d, i, rest);
      assert SpellsOne(fdt, d, i + |rest| + 0, [last][0]);
      StructSizeSplit(fdt, d, i, i + |rest|, i + |s|);
    }
  }

  // ---------------------------------------------------------------- blobs

  /** The header takes 40 bytes; the reserve list ends with an empty entry of 16 bytes like the others. */
  ghost predicate BlobFits(fdt: Fdt, d: Values) {
    40 + 16 * (|fdt.reserve| + 1) + StructSize(fdt, d, 0, |fdt.structure|) + |fdt.strings| <= fdt.totalsize
  }

  /** A blob that libfdt would accept: its parts are well formed and fit into its size. */
  ghost predicate SoundBlob(fdt: Fdt, d: Values) {
    && WellFormed(fdt) && NamesInside(fdt) && Terminated(fdt) && BlobFits(fdt, d)
    && forall i | 0 <= i < |fdt.reserve| :: fdt.reserve[i].size > 0
  }

  /** A tree, the end token and all other parts of its blob fit into the size of the blob. */
  lemma {:induction false} DecodedFits(fdt: Fdt, d: Values)
    requires WellFormed(fdt) && BlobFits(fdt, d)
    ensures 40 + 16 * (|fdt.reserve| + 1) + TreeSize(Fill(Decode(fdt), d)) + 4 + |fdt.strings| <= fdt.totalsize
  {
    var c := ParseKids(fdt, 1).value;
    ParsedSize(fdt, d, 1);
    StructSizeSplit(fdt, d, 0, 1, |fdt.structure|);
    StructSizeSplit(fdt, d, 1, c.next, |fdt.structure|);
  }
}
