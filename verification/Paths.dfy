/** Node paths (section 2.2.3 of the Devicetree Specification) and aliases (section 3.3). */
module Paths {
  import opened Bytes
  import opened Trees

  /** Index of the first `c`, `|s|` when there is none. */
  function IndexOf(s: string, c: char): (i: nat)
    ensures i <= |s|
    ensures i < |s| ==> s[i] == c
    ensures forall j | 0 <= j < i :: s[j] != c
  {
    if s == "" || s[0] == c then 0 else 1 + IndexOf(s[1..], c)
  }

  /** The components of a path; empty components do not count. */
  function Components(path: string): seq<string>
    decreases |path|
  {
    if path == "" then []
    else if path[0] == '/' then Components(path[1..])
    else
      var k := IndexOf(path, '/');
      [path[..k]] + Components(path[k..])
  }

  /** The node at a path relative to `t`. */
  function Resolve<N, D>(t: Tree<N, D>, path: string): Option<Tree<N, D>> {
    Descend(t, Components(path))
  }

  /**
   * The components of a path whose length may count the NUL behind it: the NUL then ends the last
   * component, and is a component of its own, an empty name, where nothing stands in front of it.
   */
  function CountedComponents(path: string, nul: bool): seq<string> {
    Components(path) + if nul && (path == "" || path[|path| - 1] == '/') then [""] else []
  }

  /** The bytes of a property. */
  function Val<I>(d: map<I, seq<byte>>, i: I): seq<byte> {
    if i in d then d[i] else []
  }

  /** A property read as a C string. */
  function Text<I>(d: map<I, seq<byte>>, i: I): string {
    CString(Val(d, i))
  }

  /** An alias value is a path whose length counts the NUL. */
  function AliasComponents(v: seq<byte>): seq<string> {
    CountedComponents(CString(v), |CString(v)| < |v|)
  }

  /** An absolute path, or one that starts with a property of `/aliases`. */
  function TreePath<N, I>(t: Tree<N, I>, d: map<I, seq<byte>>, path: string): Option<Tree<N, I>> {
    if path != "" && path[0] == '/' then Resolve(t, path)
    else
      var k := IndexOf(path, '/');
      var alias := PropAt(t, ["aliases"], path[..k]);
      if alias.None? then None
      else
        var target := Descend(t, AliasComponents(Val(d, alias.value)));
        if target.None? then None else Resolve(target.value, path[k..])
  }

  /** A path of one component, with and without the slash in front. */
  lemma {:induction false} OneComponent(path: string, name: string)
    requires path == "/" + name && name != "" && forall i | 0 <= i < |name| :: name[i] != '/'
    ensures Components(name) == [name] && Components(path) == [name]
  {
    IndexOfIs(name, '/', |name|);
    assert name[..|name|] == name && name[|name|..] == "";
    assert ("/" + name)[1..] == name;
  }

  // ---------------------------------------------------------------- paths compose

  lemma {:induction false} DescendAppend<N, D>(t: Tree<N, D>, p: seq<string>, q: seq<string>)
    ensures Descend(t, p + q) == if Descend(t, p).None? then None else Descend(Descend(t, p).value, q)
    decreases p
  {
    if p == [] {
      assert p + q == q;
    } else {
      assert (p + q)[0] == p[0] && (p + q)[1..] == p[1..] + q;
      if t.Node? && Find(t.kids, true, p[0]) < |t.kids| {
        DescendAppend(t.kids[Find(t.kids, true, p[0])], p[1..], q);
      }
    }
  }

  lemma {:induction false} IndexOfIs(s: string, c: char, i: nat)
    requires i <= |s| && (i < |s| ==> s[i] == c) && forall j | 0 <= j < i :: s[j] != c
    ensures IndexOf(s, c) == i
  {
  }

  lemma {:induction false} ComponentsAppend(p: string, q: string)
    requires q == "" || q[0] == '/'
    ensures Components(p + q) == Components(p) + Components(q)
    decreases |p|
  {
    if p == "" {
      assert p + q == q;
    } else if p[0] == '/' {
      assert (p + q)[1..] == p[1..] + q;
      ComponentsAppend(p[1..], q);
    } else {
      var k := IndexOf(p, '/');
      assert forall j | 0 <= j < |p| :: (p + q)[j] == p[j];
      IndexOfIs(p + q, '/', k);
      assert (p + q)[..k] == p[..k] && (p + q)[k..] == p[k..] + q;
      ComponentsAppend(p[k..], q);
      assert [p[..k]] + (Components(p[k..]) + Components(q)) == [p[..k]] + Components(p[k..]) + Components(q);
    }
  }

  /** Resolving `p/q` is resolving `q` from where `p` leads. */
  lemma {:induction false} ResolveAppend<N, D>(t: Tree<N, D>, p: string, q: string)
    requires q == "" || q[0] == '/'
    ensures Resolve(t, p + q) == if Resolve(t, p).None? then None else Resolve(Resolve(t, p).value, q)
  {
    ComponentsAppend(p, q);
    DescendAppend(t, Components(p), Components(q));
  }

  /** An alias leads where its value leads, and the rest of the path goes on from there. */
  lemma {:induction false} AliasExpands<N, I>(t: Tree<N, I>, d: map<I, seq<byte>>, path: string)
    requires path == "" || path[0] != '/'
    ensures
      var k := IndexOf(path, '/');
      var alias := PropAt(t, ["aliases"], path[..k]);
      TreePath(t, d, path) ==
        if alias.None? then None else Descend(t, AliasComponents(Val(d, alias.value)) + Components(path[k..]))
  {
    var k := IndexOf(path, '/');
    var alias := PropAt(t, ["aliases"], path[..k]);
    if alias.Some? {
      DescendAppend(t, AliasComponents(Val(d, alias.value)), Components(path[k..]));
    }
  }

  /**
   * The components of an alias value are those of its text exactly when there is no NUL, or text in front
   * of it that does not end in a slash. In particular the value "/" does not stand for the root.
   */
  lemma {:induction false} AliasAsText(v: seq<byte>)
    ensures var s := CString(v);
            AliasComponents(v) == Components(s) <==> |s| == |v| || (s != "" && s[|s| - 1] != '/')
  {
    CStringShort(v);
    var s := CString(v);
    assert |Components(s) + [""]| == |Components(s)| + 1;
  }

  lemma {:induction false} CStringShort(v: seq<byte>)
    ensures |CString(v)| <= |v|
  {
    if v != [] && v[0] != 0 {
      CStringShort(v[1..]);
    }
  }
}
