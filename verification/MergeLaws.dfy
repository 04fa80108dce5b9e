/** Laws of the merge: associativity, idempotence, and what a merged tree reads as. */
module MergeLaws {
  import opened Trees

  // ---------------------------------------------------------------- associativity

  lemma {:induction false} FindAfterMerge<N, D>(ka: seq<Tree<N, D>>, x: Tree<N, D>, isNode: bool, name: string)
    ensures Find(MergeKid(ka, x), isNode, name) ==
              if Find(ka, isNode, name) < |ka| || !Named(x, isNode, name) then
                if Find(ka, isNode, name) < |ka| then Find(ka, isNode, name) else |MergeKid(ka, x)|
              else |ka|
  {
    var r := MergeKid(ka, x);
    var i := Find(ka, isNode, name);
    if i < |ka| {
      FindIs(r, isNode, name, i);
    } else if Named(x, isNode, name) {
      FindIs(r, isNode, name, |ka|);
    } else {
      FindIs(r, isNode, name, |r|);
    }
  }

  /** Taking in `y` and then a namesake `x` is taking in their merge. */
  lemma {:induction false} MergeKidTwice<N, D>(ka: seq<Tree<N, D>>, y: Tree<N, D>, x: Tree<N, D>)
    requires SameName(x, y) && Unique(y) && Unique(x)
    ensures MergeKid(MergeKid(ka, y), x) == MergeKid(ka, Merge(y, x))
    decreases x, 1
  {
    var i := Find(ka, y.Node?, y.name);
    FindAfterMerge(ka, y, y.Node?, y.name);
    if i < |ka| {
      MergeAssoc(ka[i], y, x);
    }
  }

  /** Children of different names can be taken in in either order once one of them has a match. */
  lemma {:induction false} MergeKidSwap<N, D>(ka: seq<Tree<N, D>>, x: Tree<N, D>, z: Tree<N, D>)
    requires !SameName(x, z)
    requires Find(ka, x.Node?, x.name) < |ka|
    ensures MergeKid(MergeKid(ka, x), z) == MergeKid(MergeKid(ka, z), x)
  {
    hide Find, Merge;
    FindAfterMerge(ka, x, z.Node?, z.name);
    FindAfterMerge(ka, z, x.Node?, x.name);
  }

  lemma {:induction false} FoundAfterMerge<N, D>(ka: seq<Tree<N, D>>, kb: seq<Tree<N, D>>, isNode: bool, name: string)
    requires Find(kb, isNode, name) < |kb|
    ensures Find(MergeKids(ka, kb), isNode, name) < |MergeKids(ka, kb)|
    decreases kb
  {
    var kb', z := kb[..|kb| - 1], kb[|kb| - 1];
    FindAfterMerge(MergeKids(ka, kb'), z, isNode, name);
    if Find(kb, isNode, name) < |kb'| {
      FindIs(kb', isNode, name, Find(kb, isNode, name));
      FoundAfterMerge(ka, kb', isNode, name);
    }
  }

  /** Taking in the children `kb` and then `x` is taking in `kb` with `x` taken in. */
  lemma {:induction false} MergeKidAssoc<N, D>(ka: seq<Tree<N, D>>, kb: seq<Tree<N, D>>, x: Tree<N, D>)
    requires UniqueKids(kb) && Unique(x)
    ensures MergeKids(ka, MergeKid(kb, x)) == MergeKid(MergeKids(ka, kb), x)
    decreases x, 2, |kb|, 0
  {
    var j := Find(kb, x.Node?, x.name);
    if j == |kb| {
      assert (kb + [x])[..|kb|] == kb;
    } else {
      assert kb[..|kb| - 1] + [kb[|kb| - 1]] == kb;
      MergeKidAssocFound(ka, kb[..|kb| - 1], kb[|kb| - 1], x);
    }
  }

  /** Taking in one more child behind others. */
  lemma {:induction false} LastTaken<N, D>(ka: seq<Tree<N, D>>, kb: seq<Tree<N, D>>, z: Tree<N, D>)
    ensures MergeKids(ka, kb + [z]) == MergeKid(MergeKids(ka, kb), z)
  {
    assert (kb + [z])[..|kb|] == kb;
  }

  /** A child with a match is merged into the last child or into an earlier one. */
  lemma {:induction false} SplitLast<N, D>(kb: seq<Tree<N, D>>, z: Tree<N, D>, x: Tree<N, D>)
    requires Find(kb + [z], x.Node?, x.name) <= |kb|
    ensures var j := Find(kb + [z], x.Node?, x.name);
            && Find(kb, x.Node?, x.name) == j
            && (j == |kb| ==> SameName(x, z) && MergeKid(kb + [z], x) == kb + [Merge(z, x)])
            && (j < |kb| ==> SameName(kb[j], x) && MergeKid(kb + [z], x) == MergeKid(kb, x) + [z])
  {
    hide Merge;
    var j, r := Find(kb + [z], x.Node?, x.name), MergeKid(kb + [z], x);
    assert forall i | 0 <= i < |kb| :: (kb + [z])[i] == kb[i];
    FindIs(kb, x.Node?, x.name, j);
    assert Named((kb + [z])[j], x.Node?, x.name);
    if j == |kb| {
      assert r == kb + [Merge(z, x)];
    } else {
      assert r == MergeKid(kb, x) + [z];
    }
  }

  lemma {:induction false} UniqueSplit<N, D>(kb: seq<Tree<N, D>>, z: Tree<N, D>)
    requires UniqueKids(kb + [z])
    ensures UniqueKids(kb) && Unique(z) && forall i | 0 <= i < |kb| :: !SameName(kb[i], z)
  {
    assert (kb + [z])[|kb|] == z;
    assert forall i | 0 <= i < |kb| :: (kb + [z])[i] == kb[i];
  }

  lemma {:induction false} MergeKidAssocFound<N, D>(ka: seq<Tree<N, D>>, kb: seq<Tree<N, D>>, z: Tree<N, D>,
                                                    x: Tree<N, D>)
    requires UniqueKids(kb + [z]) && Unique(x)
    requires Find(kb + [z], x.Node?, x.name) <= |kb|
    ensures MergeKids(ka, MergeKid(kb + [z], x)) == MergeKid(MergeKid(MergeKids(ka, kb), z), x)
    decreases x, 2, |kb|, 1
  {
    hide Merge, MergeKid, MergeKids, Find, Unique, UniqueKids;
    SplitLast(kb, z, x);
    UniqueSplit(kb, z);
    if Find(kb, x.Node?, x.name) == |kb| {
      LastTaken(ka, kb, Merge(z, x));
      MergeKidTwice(MergeKids(ka, kb), z, x);
    } else {
      LastTaken(ka, MergeKid(kb, x), z);
      MergeKidAssoc(ka, kb, x);
      FoundAfterMerge(ka, kb, x.Node?, x.name);
      MergeKidSwap(MergeKids(ka, kb), x, z);
    }
  }

  lemma {:induction false} MergeKidsAssoc<N, D>(ka: seq<Tree<N, D>>, kb: seq<Tree<N, D>>, kc: seq<Tree<N, D>>)
    requires UniqueKids(kb) && UniqueKids(kc)
    ensures MergeKids(MergeKids(ka, kb), kc) == MergeKids(ka, MergeKids(kb, kc))
    decreases kc, 0
  {
    if kc != [] {
      var kc', x := kc[..|kc| - 1], kc[|kc| - 1];
      MergeKidsAssoc(ka, kb, kc');
      MergeKidsUnique(kb, kc');
      MergeKidAssoc(ka, MergeKids(kb, kc'), x);
    }
  }

  /** Merging `b` and then `c` is merging their merge, child order included. */
  lemma {:induction false} MergeAssoc<N, D>(a: Tree<N, D>, b: Tree<N, D>, c: Tree<N, D>)
    requires a.Node? == b.Node? == c.Node?
    requires Unique(b) && Unique(c)
    ensures Merge(Merge(a, b), c) == Merge(a, Merge(b, c))
    decreases c, 0
  {
    if a.Node? {
      MergeKidsAssoc(a.kids, b.kids, c.kids);
    }
  }

  // ---------------------------------------------------------------- idempotence

  lemma {:induction false} MergeKidsSelf<N, D>(kids: seq<Tree<N, D>>, n: nat)
    requires UniqueKids(kids) && n <= |kids|
    ensures MergeKids(kids, kids[..n]) == kids
    decreases kids, n
  {
    if n != 0 {
      assert kids[..n][..n - 1] == kids[..n - 1];
      MergeKidsSelf(kids, n - 1);
      var x := kids[n - 1];
      FindIs(kids, x.Node?, x.name, n - 1);
      MergeSelf(x);
    }
  }

  lemma {:induction false} MergeSelf<N, D>(t: Tree<N, D>)
    requires Unique(t)
    ensures Merge(t, t) == t
  {
    if t.Node? {
      MergeKidsSelf(t.kids, |t.kids|);
      assert t.kids[..|t.kids|] == t.kids;
    }
  }

  /** Applying the same source twice is applying it once. */
  lemma {:induction false} MergeIdempotent<N, D>(a: Tree<N, D>, b: Tree<N, D>)
    requires a.Node? == b.Node? && Unique(b)
    ensures Merge(Merge(a, b), b) == Merge(a, b)
  {
    MergeAssoc(a, b, b);
    MergeSelf(b);
  }

  // ---------------------------------------------------------------- reading a merged tree

  /** Which child of the merged list answers a lookup, and what it is. */
  lemma {:induction false} FindMerged<N, D>(ka: seq<Tree<N, D>>, kb: seq<Tree<N, D>>, isNode: bool, name: string)
    requires DistinctNames(kb)
    ensures
      var r, i, j := MergeKids(ka, kb), Find(ka, isNode, name), Find(kb, isNode, name);
      var k := Find(r, isNode, name);
      && (i < |ka| ==> k == i && r[i] == if j < |kb| then Merge(ka[i], kb[j]) else ka[i])
      && (i == |ka| && j < |kb| ==> k < |r| && r[k] == kb[j])
      && (i == |ka| && j == |kb| ==> k == |r|)
    decreases kb
  {
    hide Merge, Find;
    if kb == [] {
      NothingIn<N, D>(isNode, name);
    } else {
      var kb', x := kb[..|kb| - 1], kb[|kb| - 1];
      FindMerged(ka, kb', isNode, name);
      FindAfterMerge(MergeKids(ka, kb'), x, isNode, name);
      FindButLast(kb, isNode, name);
    }
  }

  lemma {:induction false} NothingIn<N, D>(isNode: bool, name: string)
    ensures var none: seq<Tree<N, D>> := []; Find(none, isNode, name) == 0
  {
  }

  /** With distinct names the last child is found iff it has the name, and no other child has it then. */
  lemma {:induction false} FindButLast<N, D>(kids: seq<Tree<N, D>>, isNode: bool, name: string)
    requires DistinctNames(kids) && kids != []
    ensures var rest, j := kids[..|kids| - 1], Find(kids, isNode, name);
            && (Named(kids[|kids| - 1], isNode, name) <==> j == |rest|)
            && Find(rest, isNode, name) == if j < |rest| then j else |rest|
  {
    var rest, j := kids[..|kids| - 1], Find(kids, isNode, name);
    FindIs(rest, isNode, name, if j < |rest| then j else |rest|);
    assert j < |rest| ==> !SameName(kids[j], kids[|kids| - 1]);
  }

  /** The children of the source that have no namesake in the target, in source order. */
  function Unmatched<N, D>(ka: seq<Tree<N, D>>, kb: seq<Tree<N, D>>): seq<Tree<N, D>> {
    if kb == [] then []
    else
      var x := kb[|kb| - 1];
      Unmatched(ka, kb[..|kb| - 1]) + if Find(ka, x.Node?, x.name) == |ka| then [x] else []
  }

  /** They are what follows the existing children, as they are and in that order. */
  lemma {:induction false} MergeAppends<N, D>(ka: seq<Tree<N, D>>, kb: seq<Tree<N, D>>)
    requires DistinctNames(kb)
    ensures MergeKids(ka, kb)[|ka|..] == Unmatched(ka, kb)
    decreases |kb|
  {
    if kb != [] {
      var kb', x := kb[..|kb| - 1], kb[|kb| - 1];
      MergeAppends(ka, kb');
      FindMerged(ka, kb', x.Node?, x.name);
      assert Find(kb', x.Node?, x.name) < |kb'| ==> !SameName(kb[Find(kb', x.Node?, x.name)], kb[|kb| - 1]);
      AppendOne(ka, MergeKids(ka, kb'), x);
    }
  }

  lemma {:induction false} AppendOne<N, D>(ka: seq<Tree<N, D>>, r: seq<Tree<N, D>>, x: Tree<N, D>)
    requires |ka| <= |r|
    requires var i, k := Find(ka, x.Node?, x.name), Find(r, x.Node?, x.name); if i < |ka| then k == i else k == |r|
    ensures MergeKid(r, x)[|ka|..] == r[|ka|..] + if Find(ka, x.Node?, x.name) == |ka| then [x] else []
  {
  }

  /** A property of the merged tree reads as the source's when the source has it, else as the target's. */
  lemma {:induction false} MergeReads<N, D>(a: Tree<N, D>, b: Tree<N, D>, path: seq<string>, name: string)
    requires a.Node? && b.Node? && Unique(b)
    ensures PropAt(Merge(a, b), path, name) ==
              if PropAt(b, path, name).Some? then PropAt(b, path, name) else PropAt(a, path, name)
    decreases path
  {
    if path == [] {
      FindMerged(a.kids, b.kids, false, name);
    } else {
      FindMerged(a.kids, b.kids, true, path[0]);
      var i, j := Find(a.kids, true, path[0]), Find(b.kids, true, path[0]);
      if i < |a.kids| && j < |b.kids| {
        MergeReads(a.kids[i], b.kids[j], path[1..], name);
      }
    }
  }

  /** A path resolves in the merged tree when it resolves in either; target nodes keep their label. */
  lemma {:induction false} MergeResolves<N, D>(a: Tree<N, D>, b: Tree<N, D>, path: seq<string>)
    requires a.Node? && b.Node? && Unique(b)
    ensures
      var r, ra, rb := Descend(Merge(a, b), path), Descend(a, path), Descend(b, path);
      && (r.Some? <==> ra.Some? || rb.Some?)
      && (ra.Some? ==> r.value.id == ra.value.id)
      && (ra.Some? && rb.Some? ==> r.value == Merge(ra.value, rb.value))
      && (ra.Some? && rb.None? ==> r == ra)
      && (ra.None? && rb.Some? ==> r == rb)
    decreases path
  {
    if path != [] {
      FindMerged(a.kids, b.kids, true, path[0]);
      var i, j := Find(a.kids, true, path[0]), Find(b.kids, true, path[0]);
      if i < |a.kids| && j < |b.kids| {
        MergeResolves(a.kids[i], b.kids[j], path[1..]);
      }
    }
  }

  // ---------------------------------------------------------------- labels

  lemma {:induction false} MergeIds<N, D>(a: Tree<N, D>, b: Tree<N, D>)
    requires a.Node? == b.Node?
    requires Separate(a) && Separate(b) && Ids(a) !! Ids(b)
    ensures Separate(Merge(a, b))
    ensures Ids(a) <= Ids(Merge(a, b)) <= Ids(a) + Ids(b) - {b.id}
    decreases b, 0
  {
    if a.Node? {
      MergeKidsIds(a.kids, b.kids);
    }
  }

  lemma {:induction false} MergeKidIds<N, D>(ka: seq<Tree<N, D>>, x: Tree<N, D>)
    requires SeparateKids(ka) && Separate(x) && KidIds(ka) !! Ids(x)
    ensures SeparateKids(MergeKid(ka, x))
    ensures KidIds(ka) <= KidIds(MergeKid(ka, x)) <= KidIds(ka) + Ids(x)
    decreases x, 1
  {
    var i := Find(ka, x.Node?, x.name);
    var r := MergeKid(ka, x);
    if i < |ka| {
      assert Ids(ka[i]) <= KidIds(ka);
      MergeIds(ka[i], x);
    }
    forall n | n in KidIds(ka) ensures n in KidIds(r) {
      var j :| 0 <= j < |ka| && n in Ids(ka[j]);
      assert n in Ids(r[j]);
    }
  }

  lemma {:induction false} MergeKidsIds<N, D>(ka: seq<Tree<N, D>>, kb: seq<Tree<N, D>>)
    requires SeparateKids(ka) && SeparateKids(kb) && KidIds(ka) !! KidIds(kb)
    ensures SeparateKids(MergeKids(ka, kb))
    ensures KidIds(ka) <= KidIds(MergeKids(ka, kb)) <= KidIds(ka) + KidIds(kb)
    decreases kb, 0
  {
    if kb != [] {
      var kb', x := kb[..|kb| - 1], kb[|kb| - 1];
      assert forall j | 0 <= j < |kb'| :: kb'[j] == kb[j];
      assert KidIds(kb') <= KidIds(kb) && Ids(x) <= KidIds(kb);
      assert KidIds(kb') !! Ids(x);
      MergeKidsIds(ka, kb');
      MergeKidIds(MergeKids(ka, kb'), x);
    }
  }
}
