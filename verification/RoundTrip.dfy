/** Flattening what was parsed: which streams come back as they were. */
module RoundTrip {
  import opened Bytes
  import opened Blobs
  import opened Trees
  import opened Phandles
  import opened Parse
  import opened FdtBuffers
  import opened Flattening

  // ---------------------------------------------------------------- trees with properties before subnodes

  /** No property follows a subnode. */
  ghost predicate KidsLead<N, D>(kids: seq<Tree<N, D>>) {
    forall i, j | 0 <= i < j < |kids| && kids[i].Node? :: kids[j].Node?
  }

  /** The same in every node of the tree. */
  ghost predicate PropsLead<N, D>(t: Tree<N, D>) {
    t.Node? ==> KidsLead(t.kids) && forall i | 0 <= i < |t.kids| :: PropsLead(t.kids[i])
  }

  /** Moving properties first achieves it. */
  lemma {:induction false} PropsFirstLeads<N, D>(t: Tree<N, D>)
    ensures PropsLead(PropsFirst(t))
  {
    if t.Node? {
      var v := PropsFirstKids(t.kids);
      forall i | 0 <= i < |v| ensures PropsLead(v[i]) {
        PropsFirstLeads(t.kids[i]);
      }
      var r := Select(v, false) + Select(v, true);
      forall i | 0 <= i < |r| ensures PropsLead(r[i]) {
        assert r[i] in v;
      }
    }
  }

  lemma {:induction false} SelectSame<N, D>(kids: seq<Tree<N, D>>, isNode: bool)
    requires forall i | 0 <= i < |kids| :: kids[i].Node? == isNode
    ensures Select(kids, isNode) == kids && Select(kids, !isNode) == []
  {
    if kids != [] {
      SelectSame(kids[1..], isNode);
    }
  }

  lemma {:induction false} SelectLed<N, D>(kids: seq<Tree<N, D>>)
    requires KidsLead(kids)
    ensures Select(kids, false) + Select(kids, true) == kids
  {
    if kids != [] {
      if kids[0].Node? {
        AllNodes(kids);
        SelectSame(kids, true);
      } else {
        LedTail(kids);
        SelectLed(kids[1..]);
        SelectLater(kids);
        hide Select, KidsLead;
        assert [kids[0]] + (Select(kids[1..], false) + Select(kids[1..], true)) == kids;
      }
    }
  }

  lemma {:induction false} AllNodes<N, D>(kids: seq<Tree<N, D>>)
    requires KidsLead(kids) && kids != [] && kids[0].Node?
    ensures forall i | 0 <= i < |kids| :: kids[i].Node?
  {
  }

  lemma {:induction false} LedTail<N, D>(kids: seq<Tree<N, D>>)
    requires KidsLead(kids) && kids != []
    ensures KidsLead(kids[1..])
  {
    var rest := kids[1..];
    assert forall i | 0 <= i < |rest| :: rest[i] == kids[i + 1];
  }

  lemma {:induction false} SelectLater<N, D>(kids: seq<Tree<N, D>>)
    requires kids != [] && kids[0].Prop?
    ensures Select(kids, false) == [kids[0]] + Select(kids[1..], false) && Select(kids, true) == Select(kids[1..], true)
  {
  }

  /** Moving properties first leaves a tree alone iff no property follows a subnode anywhere. */
  lemma {:induction false} PropsFirstFixes<N, D>(t: Tree<N, D>)
    ensures PropsFirst(t) == t <==> PropsLead(t)
  {
    PropsFirstLeads(t);
    if PropsLead(t) && t.Node? {
      forall i | 0 <= i < |t.kids| ensures PropsFirst(t.kids[i]) == t.kids[i] {
        PropsFirstFixes(t.kids[i]);
      }
      assert PropsFirstKids(t.kids) == t.kids;
      SelectLed(t.kids);
    }
  }

  // ---------------------------------------------------------------- streams

  /**
   * Section 5.4.2 of the Devicetree Specification, on the tokens of a block without its NOPs: the
   * properties of a node come before its subnodes, so no property token follows an end-node token.
   */
  ghost predicate Obeys(s: seq<Flat>) {
    forall k | 0 < k < |s| && s[k].FlatProp? :: !s[k - 1].FlatEnd?
  }

  lemma {:induction false} ObeysAppend(s: seq<Flat>, t: seq<Flat>)
    ensures Obeys(s + t) <==> Obeys(s) && Obeys(t) && !(s != [] && t != [] && s[|s| - 1].FlatEnd? && t[0].FlatProp?)
  {
    var r := s + t;
    if Obeys(r) {
      forall k | 0 < k < |s| && s[k].FlatProp? ensures !s[k - 1].FlatEnd? {
        assert r[k] == s[k] && r[k - 1] == s[k - 1];
      }
      forall k | 0 < k < |t| && t[k].FlatProp? ensures !t[k - 1].FlatEnd? {
        assert r[|s| + k] == t[k] && r[|s| + k - 1] == t[k - 1];
      }
      if s != [] && t != [] {
        assert r[|s|] == t[0] && r[|s| - 1] == s[|s| - 1];
      }
    }
  }

  /** The first and the last token of a tree. */
  lemma {:induction false} TreeEnds(v: Value)
    ensures var s := FlattenTree(v); s != [] && (s[0].FlatProp? <==> v.Prop?) && (s[|s| - 1].FlatEnd? <==> v.Node?)
  {
  }

  /** A tree has its properties first iff its flattened form obeys the specification. */
  lemma {:induction false} LeadIsObeyed(v: Value)
    ensures PropsLead(v) <==> Obeys(FlattenTree(v))
    decreases v, 0
  {
    if v.Node? {
      var s := FlattenKids(v.kids);
      KidsObeyed(v.kids);
      ObeysAppend([FlatBegin(v.name)] + s, [FlatEnd]);
      ObeysAppend([FlatBegin(v.name)], s);
    }
  }

  lemma {:induction false} KidsObeyed(kids: seq<Value>)
    ensures KidsLead(kids) && (forall i | 0 <= i < |kids| :: PropsLead(kids[i])) <==> Obeys(FlattenKids(kids))
    decreases kids, 0
  {
    if kids != [] {
      var x, rest := kids[0], kids[1..];
      LeadIsObeyed(x);
      KidsObeyed(rest);
      ObeysAppend(FlattenTree(x), FlattenKids(rest));
      TreeEnds(x);
      if rest != [] {
        TreeEnds(rest[0]);
        assert FlattenKids(rest)[0] == FlattenTree(rest[0])[0];
      }
      hide FlattenTree, FlattenKids, Obeys, PropsLead;
      LeadStep(kids);
    }
  }

  lemma {:induction false} LeadStep<N, D>(kids: seq<Tree<N, D>>)
    requires kids != []
    ensures KidsLead(kids) <==> KidsLead(kids[1..]) && (kids[0].Node? && kids[1..] != [] ==> kids[1..][0].Node?)
    ensures (forall i | 0 <= i < |kids| :: PropsLead(kids[i])) <==>
              PropsLead(kids[0]) && forall i | 0 <= i < |kids[1..]| :: PropsLead(kids[1..][i])
  {
    hide PropsLead;
    var rest := kids[1..];
    assert forall i | 0 < i < |kids| :: kids[i] == rest[i - 1];
    if KidsLead(rest) && (kids[0].Node? && rest != [] ==> rest[0].Node?) {
      forall i, j | 0 <= i < j < |kids| && kids[i].Node? ensures kids[j].Node? {
        if i == 0 {
          assert j > 1 ==> rest[0].Node? && rest[j - 1] == kids[j];
        } else {
          assert rest[i - 1] == kids[i] && rest[j - 1] == kids[j];
        }
      }
    }
    if KidsLead(kids) {
      forall i, j | 0 <= i < j < |rest| && rest[i].Node? ensures rest[j].Node? {
        assert rest[i] == kids[i + 1] && rest[j] == kids[j + 1];
      }
    }
  }

  // ---------------------------------------------------------------- the round trip

  /** The tokens of the root node of a blob, without NOPs. */
  ghost function Stream(fdt: Fdt, d: Values): seq<Flat>
    requires WellFormed(fdt)
  {
    Spelled(fdt, d, 0, ParseKids(fdt, 1).value.next)
  }

  /** The stream of a blob is the flattened form of its tree. */
  lemma {:induction false} StreamIsFlatten(fdt: Fdt, d: Values)
    requires WellFormed(fdt)
    ensures Stream(fdt, d) == FlattenTree(Fill(Decode(fdt), d))
  {
    ParseThenFlatten(fdt, d, 1);
    var name, s := fdt.structure[0].name, FlattenKids(FillKids(Decode(fdt).kids, d));
    assert [FlatBegin(name)] + (s + [FlatEnd]) == [FlatBegin(name)] + s + [FlatEnd];
  }

  /**
   * What the output functions write for the tree that was parsed from a blob is the blob's stream minus
   * NOPs exactly when that stream obeys section 5.4.2.
   */
  lemma {:induction false} StreamKept(fdt: Fdt, d: Values)
    requires WellFormed(fdt)
    ensures OutTree(Decode(fdt), d) == Stream(fdt, d) <==> Obeys(Stream(fdt, d))
  {
    var v := Fill(Decode(fdt), d);
    StreamIsFlatten(fdt, d);
    OutIsFlatten(Decode(fdt), d);
    LeadIsObeyed(v);
    PropsFirstFixes(v);
    PropsFirstLeads(v);
    LeadIsObeyed(PropsFirst(v));
  }

  /** What is written always obeys it, and from then on nothing moves any more. */
  lemma {:induction false} WrittenObeys<N, I>(t: Tree<N, I>, d: Store<I>)
    ensures Obeys(OutTree(t, d))
    ensures PropsFirst(PropsFirst(t)) == PropsFirst(t)
  {
    OutIsFlatten(t, d);
    PropsFirstLeads(Fill(t, d));
    LeadIsObeyed(PropsFirst(Fill(t, d)));
    PropsFirstLeads(t);
    PropsFirstFixes(PropsFirst(t));
  }
}
