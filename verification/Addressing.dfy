/** Where the strings in an overlay lead: fixup locations, symbols and target paths, by what they spell. */
module Addressing {
  import opened Bytes
  import opened Trees
  import opened Paths
  import opened Phandles
  import opened Numbers
  import opened Spelling
  import opened OverlaySpec

  // ---------------------------------------------------------------- fixup locations

  lemma {:induction false} SplitAt(s: string, x: char, t: string)
    requires NoChar(s, x)
    ensures var r := s + [x] + t; IndexOf(r, x) == |s| && r[..|s|] == s && r[|s| + 1..] == t
  {
    var r := s + [x] + t;
    assert forall i | 0 <= i < |s| :: r[i] == s[i];
    IndexOfIs(r, x, |s|);
  }

  /** `path:property:offset`. */
  function FixupText(path: string, p: string, n: nat): string {
    path + ":" + p + ":" + Decimal(n)
  }

  lemma {:induction false} FixupSplits(path: string, p: string, n: nat)
    requires NoChar(path, ':') && NoChar(p, ':')
    ensures var fixup := FixupText(path, p, n);
            var i := IndexOf(fixup, ':');
            && i < |fixup| && fixup[..i] == path
            && var rest := fixup[i + 1..];
               var j := IndexOf(rest, ':');
               j < |rest| && rest[..j] == p && rest[j + 1..] == Decimal(n)
  {
    hide IndexOf, Decimal, NoChar;
    var number := Decimal(n);
    var rest := p + [':'] + number;
    assert FixupText(path, p, n) == path + [':'] + rest;
    SplitAt(path, ':', rest);
    SplitAt(p, ':', number);
  }

  /** Byte `n` of the property of the node at the path, when there is such a cell. */
  lemma {:induction false} FixupParts<N, I>(o: Tree<N, I>, d: Store<I>, path: string, p: string, n: nat)
    requires NoChar(path, ':') && NoChar(p, ':') && n < INT_LIMIT - CELL
    ensures var node := TreePath(o, d, path);
            FixupLocation(o, d, FixupText(path, p, n)) ==
              if node.None? || PropOf(node.value, p).None? then None
              else if n + CELL > |Val(d, PropOf(node.value, p).value)| then None
              else Some(Location(PropOf(node.value, p).value, n))
  {
    hide TreePath, PropOf, IndexOf, StrToUl, ToInt32, Decimal, FixupText, FixupCheck;
    FixupSplits(path, p, n);
    DecimalRead(n);
    var node := TreePath(o, d, path);
    if node.Some? && PropOf(node.value, p).Some? && n + CELL <= |Val(d, PropOf(node.value, p).value)| {
      InsidePasses(|Val(d, PropOf(node.value, p).value)|, n);
    }
  }

  /** With the node named by its components. */
  lemma {:induction false} FixupSpelled<N, I>(o: Tree<N, I>, d: Store<I>, c: seq<string>, p: string, n: nat)
    requires Plain(c) && (forall k | 0 <= k < |c| :: NoChar(c[k], ':')) && NoChar(p, ':') && n < INT_LIMIT - CELL
    ensures var node := Descend(o, c);
            FixupLocation(o, d, FixupText(Absolute(c), p, n)) ==
              if node.None? || PropOf(node.value, p).None? then None
              else if n + CELL > |Val(d, PropOf(node.value, p).value)| then None
              else Some(Location(PropOf(node.value, p).value, n))
  {
    hide TreePath, PropOf, Descend, FixupText, FixupLocation, Absolute;
    AbsoluteLeads(o, d, c);
    NoColons(c);
    FixupParts(o, d, Absolute(c), p, n);
  }

  lemma {:induction false} NoColons(c: seq<string>)
    requires forall k | 0 <= k < |c| :: NoChar(c[k], ':')
    ensures NoChar(Absolute(c), ':') && NoChar(Slashed(c), ':')
  {
    if c != [] {
      NoColons(c[1..]);
      assert NoChar(c[0], ':');
    }
  }

  /** A string with fewer than two colons names no place. */
  lemma {:induction false} FixupMalformed<N, I>(o: Tree<N, I>, d: Store<I>, s: string, t: string)
    requires NoChar(s, ':') && NoChar(t, ':')
    ensures FixupLocation(o, d, s).None? && FixupLocation(o, d, s + ":" + t).None?
  {
    IndexOfIs(s, ':', |s|);
    IndexOfIs(t, ':', |t|);
    SplitAt(s, ':', t);
  }

  // ---------------------------------------------------------------- symbols

  /** A symbol names the node at the path in its value. */
  lemma {:induction false} SymbolSpelled<N, I>(m: Tree<N, I>, d: Store<I>, symbols: Tree<N, I>, symbol: string,
                                               c: seq<string>)
    requires Plain(c)
    requires PropOf(symbols, symbol).Some? && ValueSpells(Val(d, PropOf(symbols, symbol).value), Absolute(c))
    ensures SymbolNode(m, d, symbols, symbol) == Descend(m, c)
  {
    hide TreePath, Descend, Absolute;
    TextSpelled(d, PropOf(symbols, symbol).value, Absolute(c));
    AbsoluteLeads(m, d, c);
  }

  /** A name without a property is no symbol. */
  lemma {:induction false} NoSymbol<N, I>(m: Tree<N, I>, d: Store<I>, symbols: Tree<N, I>, symbol: string)
    requires PropOf(symbols, symbol).None?
    ensures SymbolNode(m, d, symbols, symbol).None?
  {
  }

  // ---------------------------------------------------------------- target paths

  /** The `__overlay__` of a fragment merged into the node, when there are both. */
  function MergedAt<N(==), I>(m: Tree<N, I>, node: Option<Tree<N, I>>, frag: Tree<N, I>): Tree<N, I> {
    var ov := Subnode(frag, "__overlay__");
    if node.Some? && ov.Some? && ov.value.Node? then MergeAt(m, node.value.id, ov.value) else m
  }

  /** A fragment with a target path is merged into the node at that path, or nowhere. */
  lemma {:induction false} PathTargeted<N, I>(m: Tree<N, I>, table: seq<Entry<N>>, frag: Tree<N, I>, d: Store<I>,
                                              c: seq<string>)
    requires PropOf(frag, "target").None? && Plain(c)
    requires var p := PropOf(frag, "target-path"); p.Some? && ValueSpells(Val(d, p.value), Absolute(c))
    ensures ApplyFragment(m, table, frag, d).1 == MergedAt(m, Descend(m, c), frag)
  {
    hide TreePath, Descend, Absolute, MergeAt;
    TextSpelled(d, PropOf(frag, "target-path").value, Absolute(c));
    AbsoluteLeads(m, d, c);
  }

  /** The same for a path that starts with an alias: the alias value, then the rest. */
  lemma {:induction false} AliasTargeted<N, I>(m: Tree<N, I>, table: seq<Entry<N>>, frag: Tree<N, I>, d: Store<I>,
                                               a: string, b: seq<string>, c: seq<string>)
    requires PropOf(frag, "target").None? && a != "" && NoChar(a, '/') && Plain(b) && Plain(c)
    requires var p := PropOf(frag, "target-path"); p.Some? && ValueSpells(Val(d, p.value), a + Slashed(c))
    ensures var alias := PropAt(m, ["aliases"], a);
            && (alias.None? ==> ApplyFragment(m, table, frag, d).1 == m)
            && (alias.Some? && ValueSpells(Val(d, alias.value), Absolute(b)) ==>
                  ApplyFragment(m, table, frag, d).1 ==
                    MergedAt(m, Descend(m, AliasTarget(b, Val(d, alias.value)) + c), frag))
  {
    hide TreePath, Descend, Absolute, Slashed, MergeAt, PropAt;
    TextSpelled(d, PropOf(frag, "target-path").value, a + Slashed(c));
    AliasLeads(m, d, a, b, c);
  }

  /** A fragment with neither property changes nothing. */
  lemma {:induction false} Untargeted<N, I>(m: Tree<N, I>, table: seq<Entry<N>>, frag: Tree<N, I>, d: Store<I>)
    requires PropOf(frag, "target").None? && PropOf(frag, "target-path").None?
    ensures ApplyFragment(m, table, frag, d) == (MissingTarget, m)
  {
  }

  /** Which code a fragment gets: a path that leads nowhere comes first, then a missing `__overlay__`. */
  lemma {:induction false} PathCodes<N, I>(m: Tree<N, I>, table: seq<Entry<N>>, frag: Tree<N, I>, d: Store<I>,
                                           c: seq<string>)
    requires PropOf(frag, "target").None? && Plain(c)
    requires var p := PropOf(frag, "target-path"); p.Some? && ValueSpells(Val(d, p.value), Absolute(c))
    ensures var ov := Subnode(frag, "__overlay__");
            ApplyFragment(m, table, frag, d).0 ==
              if Descend(m, c).None? then TargetPathInvalid
              else if ov.None? || ov.value.Prop? then MissingOverlay
              else Ok
  {
    hide TreePath, Descend, Absolute, MergeAt;
    TextSpelled(d, PropOf(frag, "target-path").value, Absolute(c));
    AbsoluteLeads(m, d, c);
  }
}
