/**
 * Device trees as values, and the merge of one tree into another.
 *
 * `N` labels the nodes and properties (on the heap: the node object) and `D` is what a property
 * holds (on the heap: its record in a blob; in a decoded tree: its bytes). Nothing below inspects
 * either, so one definition of merge serves the linked trees and the decoded ones.
 */
module Trees {

  datatype Tree<N, D> =
    | Prop(id: N, name: string, data: D)
    | Node(id: N, name: string, kids: seq<Tree<N, D>>)

  /** Properties and subnodes live in separate name spaces. */
  predicate Named<N, D>(t: Tree<N, D>, isNode: bool, name: string) {
    t.Node? == isNode && t.name == name
  }

  predicate SameName<N, D>(s: Tree<N, D>, t: Tree<N, D>) {
    Named(s, t.Node?, t.name)
  }

  /** Index of the first child of that kind and name, `|kids|` when there is none. */
  function Find<N, D>(kids: seq<Tree<N, D>>, isNode: bool, name: string): (i: nat)
    ensures i <= |kids|
    ensures i < |kids| ==> Named(kids[i], isNode, name)
    ensures forall j | 0 <= j < i :: !Named(kids[j], isNode, name)
  {
    if kids == [] || Named(kids[0], isNode, name) then 0 else 1 + Find(kids[1..], isNode, name)
  }

  /** `Find` is the only index with these properties. */
  lemma {:induction false} FindIs<N, D>(kids: seq<Tree<N, D>>, isNode: bool, name: string, i: nat)
    requires i <= |kids|
    requires i < |kids| ==> Named(kids[i], isNode, name)
    requires forall j | 0 <= j < i :: !Named(kids[j], isNode, name)
    ensures Find(kids, isNode, name) == i
  {
  }

  /** A property takes the source's value; a node takes in the source's children. */
  function Merge<N, D>(a: Tree<N, D>, b: Tree<N, D>): (r: Tree<N, D>)
    requires a.Node? == b.Node?
    ensures r.id == a.id && Named(r, a.Node?, a.name)
    decreases b, 0
  {
    match a
    case Prop(id, name, _) => Prop(id, name, b.data)
    case Node(id, name, kids) => Node(id, name, MergeKids(kids, b.kids))
  }

  /** Children of the source are taken in from first to last. */
  function MergeKids<N, D>(ka: seq<Tree<N, D>>, kb: seq<Tree<N, D>>): (r: seq<Tree<N, D>>)
    ensures |ka| <= |r|
    decreases kb
  {
    if kb == [] then ka
    else MergeKid(MergeKids(ka, kb[..|kb| - 1]), kb[|kb| - 1])
  }

  /** A child with a match is merged into it; one without is appended. */
  function MergeKid<N, D>(ka: seq<Tree<N, D>>, b: Tree<N, D>): (r: seq<Tree<N, D>>)
    ensures |ka| <= |r|
    decreases b, 1
  {
    var i := Find(ka, b.Node?, b.name);
    if i == |ka| then ka + [b] else ka[i := Merge(ka[i], b)]
  }

  // ---------------------------------------------------------------- order of the result

  /** Existing children keep their position, label, kind and name. */
  lemma {:induction false} MergeKeepsOrder<N, D>(ka: seq<Tree<N, D>>, kb: seq<Tree<N, D>>)
    ensures forall i | 0 <= i < |ka| ::
              MergeKids(ka, kb)[i].id == ka[i].id && SameName(MergeKids(ka, kb)[i], ka[i])
    decreases kb
  {
    if kb != [] {
      MergeKeepsOrder(ka, kb[..|kb| - 1]);
    }
  }

  // ---------------------------------------------------------------- unique sibling names

  /** No two children share kind and name. */
  ghost predicate DistinctNames<N, D>(kids: seq<Tree<N, D>>) {
    forall i, j | 0 <= i < j < |kids| :: !SameName(kids[i], kids[j])
  }

  ghost predicate Unique<N, D>(t: Tree<N, D>) {
    t.Node? ==> UniqueKids(t.kids)
  }

  /** Sibling names are unique per kind, at every level. */
  ghost predicate UniqueKids<N, D>(kids: seq<Tree<N, D>>) {
    DistinctNames(kids) && forall i | 0 <= i < |kids| :: Unique(kids[i])
  }

  lemma {:induction false} MergeUnique<N, D>(a: Tree<N, D>, b: Tree<N, D>)
    requires a.Node? == b.Node? && Unique(a) && Unique(b)
    ensures Unique(Merge(a, b))
    decreases b, 0
  {
    if a.Node? {
      MergeKidsUnique(a.kids, b.kids);
    }
  }

  lemma {:induction false} MergeKidUnique<N, D>(ka: seq<Tree<N, D>>, x: Tree<N, D>)
    requires UniqueKids(ka) && Unique(x)
    ensures UniqueKids(MergeKid(ka, x))
    decreases x, 1
  {
    var i := Find(ka, x.Node?, x.name);
    if i < |ka| {
      MergeUnique(ka[i], x);
    }
  }

  lemma {:induction false} MergeKidsUnique<N, D>(ka: seq<Tree<N, D>>, kb: seq<Tree<N, D>>)
    requires UniqueKids(ka) && UniqueKids(kb)
    ensures UniqueKids(MergeKids(ka, kb))
    decreases kb, 0
  {
    if kb != [] {
      MergeKidsUnique(ka, kb[..|kb| - 1]);
      MergeKidUnique(MergeKids(ka, kb[..|kb| - 1]), kb[|kb| - 1]);
    }
  }

  // ---------------------------------------------------------------- looking things up

  datatype Option<+T> = None | Some(value: T)

  /** The node reached by descending one component at a time. */
  function Descend<N, D>(t: Tree<N, D>, path: seq<string>): (r: Option<Tree<N, D>>)
    ensures r.Some? && t.Node? ==> r.value.Node?
  {
    if path == [] then Some(t)
    else if t.Prop? then None
    else
      var i := Find(t.kids, true, path[0]);
      if i == |t.kids| then None else Descend(t.kids[i], path[1..])
  }

  /** The subnode of that name. */
  function Subnode<N, D>(t: Tree<N, D>, name: string): Option<Tree<N, D>> {
    Descend(t, [name])
  }

  /** What the property `name` of a node holds. */
  function PropOf<N, D>(t: Tree<N, D>, name: string): Option<D> {
    if t.Prop? then None
    else
      var i := Find(t.kids, false, name);
      if i == |t.kids| then None else Some(t.kids[i].data)
  }

  /** What the property `name` of the node at `path` holds. */
  function PropAt<N, D>(t: Tree<N, D>, path: seq<string>, name: string): Option<D> {
    var n := Descend(t, path);
    if n.None? then None else PropOf(n.value, name)
  }

  // ---------------------------------------------------------------- labels

  /** The labels of a tree. */
  ghost function Ids<N, D>(t: Tree<N, D>): set<N> {
    match t
    case Prop(id, _, _) => {id}
    case Node(id, _, kids) => {id} + KidIds(kids)
  }

  ghost function KidIds<N, D>(kids: seq<Tree<N, D>>): set<N> {
    set i, n | 0 <= i < |kids| && n in Ids(kids[i]) :: n
  }

  /** No label occurs twice. */
  ghost predicate Separate<N, D>(t: Tree<N, D>) {
    t.Node? ==> t.id !in KidIds(t.kids) && SeparateKids(t.kids)
  }

  ghost predicate SeparateKids<N, D>(kids: seq<Tree<N, D>>) {
    && (forall i | 0 <= i < |kids| :: Separate(kids[i]))
    && (forall i, j | 0 <= i < j < |kids| :: Ids(kids[i]) !! Ids(kids[j]))
  }

  lemma {:induction false} KidIdsContain<N, D>(kids: seq<Tree<N, D>>, i: nat)
    requires i < |kids|
    ensures Ids(kids[i]) <= KidIds(kids) && kids[i].id in Ids(kids[i])
  {
  }

  /** The labels of the first children. */
  lemma {:induction false} KidIdsSplit<N, D>(kids: seq<Tree<N, D>>, i: nat)
    requires SeparateKids(kids) && i < |kids|
    ensures KidIds(kids[..i + 1]) == KidIds(kids[..i]) + Ids(kids[i])
    ensures KidIds(kids[..i]) !! Ids(kids[i])
    ensures KidIds(kids[..i + 1]) <= KidIds(kids)
  {
    var first := kids[..i];
    KidIdsContain(kids[..i + 1], i);
    forall n | n in KidIds(first) ensures n in KidIds(kids[..i + 1]) && n !in Ids(kids[i]) {
      var j :| 0 <= j < i && n in Ids(first[j]);
      assert n in Ids(kids[..i + 1][j]) && n in Ids(kids[j]);
    }
    forall n | n in KidIds(kids[..i + 1]) ensures (n in KidIds(first) || n in Ids(kids[i])) && n in KidIds(kids) {
      var j :| 0 <= j < i + 1 && n in Ids(kids[..i + 1][j]);
      assert j < i ==> n in Ids(first[j]);
      assert n in Ids(kids[j]);
    }
  }

  /** Sibling lists are made of separate trees. */
  lemma {:induction false} KidsApart<N, D>(t: Tree<N, D>, i: nat, k: nat)
    requires t.Node? && Separate(t) && i < |t.kids| && k < |t.kids| && i != k
    ensures Ids(t.kids[i]) !! Ids(t.kids[k])
    ensures t.id !in Ids(t.kids[k]) && Ids(t.kids[i]) <= Ids(t) && Separate(t.kids[i])
  {
    assert SeparateKids(t.kids);
    KidIdsContain(t.kids, i);
    KidIdsContain(t.kids, k);
  }
}
