/**
 * What the fixups of an overlay amount to: a list of cells to increase or to assign, read off before
 * anything is written. When no listed cell is part of what is read, carrying out the list is what the
 * fixups do.
 */
module FixupPlans {
  import opened Bytes
  import opened Trees
  import opened Paths
  import opened Phandles
  import opened OverlaySpec
  import opened Confinement
  import opened Renumbering
  import opened ReferenceLaws

  /** One cell to update: a local reference, or a reference to a symbol with this phandle. */
  datatype Edit<I> = Bump(at: Location<I>) | Assign(at: Location<I>, value: u32)

  /** The cells up to the first fixup that cannot be resolved, and whether there was none. */
  datatype Plan<I> = Plan(edits: seq<Edit<I>>, ok: bool)

  function Then<I>(p: Plan<I>, q: Plan<I>): Plan<I> {
    if p.ok then Plan(p.edits + q.edits, q.ok) else p
  }

  predicate Fits<I>(d: Store<I>, at: Location<I>) {
    at.offset + CELL <= |Val(d, at.prop)|
  }

  function PerformOne<I>(d: Store<I>, e: Edit<I>, delta: u32): Store<I> {
    if !Fits(d, e.at) then d
    else
      var v := Val(d, e.at.prop);
      match e
      case Bump(at) => d[at.prop := Increase(v, at.offset, delta)]
      case Assign(at, value) => d[at.prop := Put32(v, at.offset, value)]
  }

  function Perform<I>(d: Store<I>, edits: seq<Edit<I>>, delta: u32): Store<I> {
    if edits == [] then d else Perform(PerformOne(d, edits[0], delta), edits[1..], delta)
  }

  // ---------------------------------------------------------------- reading off the list

  /** Of one property under `__local_fixups__`. */
  function PlanCells<I>(d: Store<I>, target: I, fixup: I, len: nat, i: nat): Plan<I>
    decreases len - i
  {
    if i >= len then Plan([], true)
    else
      var at := Location(target, Get32(Val(d, fixup), i));
      if !Fits(d, at) then Plan([], false)
      else Then(Plan([Bump(at)], true), PlanCells(d, target, fixup, len, i + CELL))
  }

  function PlanProps<N, I>(t: Tree<N, I>, fixups: seq<Tree<N, I>>, d: Store<I>): Plan<I> {
    if fixups == [] then Plan([], true)
    else if fixups[0].Node? then PlanProps(t, fixups[1..], d)
    else
      var p := PropOf(t, fixups[0].name);
      if p.None? then Plan([], false)
      else Then(PlanCells(d, p.value, fixups[0].data, |Val(d, fixups[0].data)|, 0), PlanProps(t, fixups[1..], d))
  }

  function PlanNodes<N, I>(t: Tree<N, I>, fixups: seq<Tree<N, I>>, d: Store<I>): Plan<I>
    decreases fixups
  {
    if fixups == [] then Plan([], true)
    else if fixups[0].Prop? then PlanNodes(t, fixups[1..], d)
    else
      var sub := Resolve(t, fixups[0].name);
      if sub.None? then Plan([], false)
      else Then(PlanLocal(sub.value, fixups[0], d), PlanNodes(t, fixups[1..], d))
  }

  /** Of `__local_fixups__`. */
  function PlanLocal<N, I>(t: Tree<N, I>, fixups: Tree<N, I>, d: Store<I>): Plan<I>
    requires fixups.Node?
    decreases fixups
  {
    Then(PlanProps(t, fixups.kids, d), PlanNodes(t, fixups.kids, d))
  }

  /** Of one property under `__fixups__`. */
  function PlanList<N, I>(o: Tree<N, I>, d: Store<I>, fixups: I, len: nat, pos: nat, phandle: u32): Plan<I>
    decreases len - pos
  {
    if pos >= len then Plan([], true)
    else
      var list := Val(d, fixups);
      var fixup := if pos <= |list| then CString(list[pos..]) else "";
      var at := FixupLocation(o, d, fixup);
      if at.None? || !Fits(d, at.value) then Plan([], false)
      else Then(Plan([Assign(at.value, phandle)], true), PlanList(o, d, fixups, len, pos + |fixup| + 1, phandle))
  }

  /** Of `__fixups__`. */
  function PlanFixups<N, I>(m: Tree<N, I>, symbols: Tree<N, I>, o: Tree<N, I>, fixups: seq<Tree<N, I>>,
                            d: Store<I>): Plan<I> {
    if fixups == [] then Plan([], true)
    else if fixups[0].Node? then PlanFixups(m, symbols, o, fixups[1..], d)
    else
      var node := SymbolNode(m, d, symbols, fixups[0].name);
      if node.None? then Plan([], false)
      else
        var list := fixups[0].data;
        Then(PlanList(o, d, list, |Val(d, list)|, 0, Phandle(node.value, d)), PlanFixups(m, symbols, o, fixups[1..], d))
  }

  // ---------------------------------------------------------------- what is read

  /** No listed cell belongs to these records. */
  ghost predicate Quiet<I>(edits: seq<Edit<I>>, s: set<I>) {
    forall i | 0 <= i < |edits| :: edits[i].at.prop !in s
  }

  /** Nothing in `s` was written, and no length changed. */
  ghost predicate Agree<I(!new)>(d: Store<I>, d': Store<I>, s: set<I>) {
    SameLengths(d, d') && forall i | i in d && i in s :: d'[i] == d[i]
  }

  lemma {:induction false} AgreeVal<I(!new)>(d: Store<I>, d': Store<I>, s: set<I>)
    requires Agree(d, d', s)
    ensures forall i | i in s :: Val(d', i) == Val(d, i)
    ensures forall i :: |Val(d', i)| == |Val(d, i)|
  {
  }

  lemma {:induction false} PerformOneAgrees<I(!new)>(d: Store<I>, d': Store<I>, e: Edit<I>, delta: u32, s: set<I>)
    requires Agree(d, d', s) && e.at.prop !in s
    ensures Agree(d, PerformOne(d', e, delta), s)
  {
  }

  lemma {:induction false} PerformAgrees<I(!new)>(d: Store<I>, d': Store<I>, edits: seq<Edit<I>>, delta: u32, s: set<I>)
    requires Agree(d, d', s) && Quiet(edits, s)
    ensures Agree(d, Perform(d', edits, delta), s)
    decreases |edits|
  {
    if edits != [] {
      PerformOneAgrees(d, d', edits[0], delta, s);
      PerformAgrees(d, PerformOne(d', edits[0], delta), edits[1..], delta, s);
    }
  }

  lemma {:induction false} PerformThen<I>(d: Store<I>, p: seq<Edit<I>>, q: seq<Edit<I>>, delta: u32)
    ensures Perform(d, p + q, delta) == Perform(Perform(d, p, delta), q, delta)
    decreases |p|
  {
    if p == [] {
      assert p + q == q;
    } else {
      assert (p + q)[0] == p[0] && (p + q)[1..] == p[1..] + q;
      PerformThen(PerformOne(d, p[0], delta), p[1..], q, delta);
    }
  }

  lemma {:induction false} QuietThen<I>(p: Plan<I>, q: Plan<I>, s: set<I>)
    requires Quiet(Then(p, q).edits, s)
    ensures Quiet(p.edits, s) && (p.ok ==> Quiet(q.edits, s))
  {
    var r := Then(p, q).edits;
    forall i | 0 <= i < |p.edits| ensures p.edits[i].at.prop !in s {
      assert p.edits[i] == r[i];
    }
    if p.ok {
      forall i | 0 <= i < |q.edits| ensures q.edits[i].at.prop !in s {
        assert q.edits[i] == r[|p.edits| + i];
      }
    }
  }

  /** Carrying out a plan: all of it, or failure. */
  ghost predicate Follows<I>(r: Option<Store<I>>, d: Store<I>, plan: Plan<I>, delta: u32) {
    r == if plan.ok then Some(Perform(d, plan.edits, delta)) else None
  }

  /** One part after the other. */
  lemma {:induction false} FollowsBoth<I(!new)>(d: Store<I>, p: Plan<I>, q: Plan<I>, delta: u32, r: Option<Store<I>>,
                                                r': Option<Store<I>>)
    requires Follows(r, d, p, delta)
    requires r.Some? ==> Follows(r', r.value, q, delta)
    requires r.None? ==> r' == None
    ensures Follows(r', d, Then(p, q), delta)
  {
    PerformThen(d, p.edits, q.edits, delta);
  }

  // ---------------------------------------------------------------- local fixups follow the plan

  lemma {:induction false} CellsFollow<I(!new)>(d: Store<I>, d': Store<I>, target: I, fixup: I, len: nat, i: nat,
                                                delta: u32, s: set<I>)
    requires Agree(d, d', s) && fixup in s
    requires Quiet(PlanCells(d, target, fixup, len, i).edits, s)
    ensures Follows(LocalCells(d', target, fixup, len, i, delta), d', PlanCells(d, target, fixup, len, i), delta)
    decreases len - i
  {
    AgreeVal(d, d', s);
    if i < len {
      var at := Location(target, Get32(Val(d, fixup), i));
      if Fits(d, at) {
        var one, rest := Plan([Bump(at)], true), PlanCells(d, target, fixup, len, i + CELL);
        QuietThen(one, rest, s);
        assert one.edits[0].at.prop == target;
        var d'' := PerformOne(d', Bump(at), delta);
        PerformOneAgrees(d, d', Bump(at), delta, s);
        CellsFollow(d, d'', target, fixup, len, i + CELL, delta, s);
        assert ([Bump(at)] + rest.edits)[1..] == rest.edits;
      }
    }
  }

  lemma {:induction false} PropsFollow<N, I(!new)>(t: Tree<N, I>, fixups: seq<Tree<N, I>>, d: Store<I>, d': Store<I>,
                                                   delta: u32, s: set<I>)
    requires Agree(d, d', s) && KidRecords(fixups) <= s && Quiet(PlanProps(t, fixups, d).edits, s)
    ensures Follows(LocalProps(t, fixups, d', delta), d', PlanProps(t, fixups, d), delta)
    decreases |fixups|
  {
    if fixups != [] {
      TailRecords(fixups);
      if fixups[0].Node? {
        PropsFollow(t, fixups[1..], d, d', delta, s);
      } else if PropOf(t, fixups[0].name).Some? {
        var p, list := PropOf(t, fixups[0].name).value, fixups[0].data;
        AgreeVal(d, d', s);
        assert list in Records(fixups[0]);
        var plan, rest := PlanCells(d, p, list, |Val(d, list)|, 0), PlanProps(t, fixups[1..], d);
        QuietThen(plan, rest, s);
        CellsFollow(d, d', p, list, |Val(d, list)|, 0, delta, s);
        var r := LocalCells(d', p, list, |Val(d', list)|, 0, delta);
        if r.Some? {
          PerformAgrees(d, d', plan.edits, delta, s);
          PropsFollow(t, fixups[1..], d, r.value, delta, s);
        }
        FollowsBoth(d', plan, rest, delta, r, LocalProps(t, fixups, d', delta));
      }
    }
  }

  lemma {:induction false} TailRecords<N, D>(kids: seq<Tree<N, D>>)
    requires kids != []
    ensures Records(kids[0]) <= KidRecords(kids) && KidRecords(kids[1..]) <= KidRecords(kids)
  {
    KidRecordsContain(kids, 0);
    forall n | n in KidRecords(kids[1..]) ensures n in KidRecords(kids) {
      var i :| 0 <= i < |kids[1..]| && n in Records(kids[1..][i]);
      assert n in Records(kids[i + 1]);
    }
  }

  lemma {:induction false} NodesFollow<N, I(!new)>(t: Tree<N, I>, fixups: seq<Tree<N, I>>, d: Store<I>, d': Store<I>,
                                                   delta: u32, s: set<I>)
    requires Agree(d, d', s) && KidRecords(fixups) <= s && Quiet(PlanNodes(t, fixups, d).edits, s)
    ensures Follows(LocalNodes(t, fixups, d', delta), d', PlanNodes(t, fixups, d), delta)
    decreases fixups
  {
    if fixups != [] {
      TailRecords(fixups);
      if fixups[0].Prop? {
        NodesFollow(t, fixups[1..], d, d', delta, s);
      } else if Resolve(t, fixups[0].name).Some? {
        var sub := Resolve(t, fixups[0].name).value;
        var plan, rest := PlanLocal(sub, fixups[0], d), PlanNodes(t, fixups[1..], d);
        QuietThen(plan, rest, s);
        LocalFollows(sub, fixups[0], d, d', delta, s);
        var r := LocalFixup(sub, fixups[0], d', delta);
        if r.Some? {
          PerformAgrees(d, d', plan.edits, delta, s);
          NodesFollow(t, fixups[1..], d, r.value, delta, s);
        }
        FollowsBoth(d', plan, rest, delta, r, LocalNodes(t, fixups, d', delta));
      }
    }
  }

  lemma {:induction false} LocalFollows<N, I(!new)>(t: Tree<N, I>, fixups: Tree<N, I>, d: Store<I>, d': Store<I>,
                                                    delta: u32, s: set<I>)
    requires fixups.Node? && Agree(d, d', s) && Records(fixups) <= s && Quiet(PlanLocal(t, fixups, d).edits, s)
    ensures Follows(LocalFixup(t, fixups, d', delta), d', PlanLocal(t, fixups, d), delta)
    decreases fixups
  {
    var plan, rest := PlanProps(t, fixups.kids, d), PlanNodes(t, fixups.kids, d);
    QuietThen(plan, rest, s);
    PropsFollow(t, fixups.kids, d, d', delta, s);
    var r := LocalProps(t, fixups.kids, d', delta);
    if r.Some? {
      PerformAgrees(d, d', plan.edits, delta, s);
      NodesFollow(t, fixups.kids, d, r.value, delta, s);
    }
    FollowsBoth(d', plan, rest, delta, r, LocalFixup(t, fixups, d', delta));
  }

  // ---------------------------------------------------------------- external fixups follow the plan

  /** The values of aliases. */
  ghost function AliasRecords<N, I>(o: Tree<N, I>): set<I> {
    var n := Subnode(o, "aliases");
    if n.None? then {} else Records(n.value)
  }

  lemma {:induction false} TreePathAgrees<N, I(!new)>(o: Tree<N, I>, d: Store<I>, d': Store<I>, path: string, s: set<I>)
    requires Agree(d, d', s) && AliasRecords(o) <= s
    ensures TreePath(o, d', path) == TreePath(o, d, path)
  {
    if path == "" || path[0] != '/' {
      var k := IndexOf(path, '/');
      var alias := PropAt(o, ["aliases"], path[..k]);
      if alias.Some? {
        PropInRecords(Subnode(o, "aliases").value, path[..k]);
        AgreeVal(d, d', s);
      }
    }
  }

  lemma {:induction false} LocationAgrees<N, I(!new)>(o: Tree<N, I>, d: Store<I>, d': Store<I>, fixup: string,
                                                      s: set<I>)
    requires Agree(d, d', s) && AliasRecords(o) <= s
    ensures FixupLocation(o, d', fixup) == FixupLocation(o, d, fixup)
  {
    hide TreePath, AliasRecords;
    AgreeVal(d, d', s);
    TreePathAgrees(o, d, d', fixup[..IndexOf(fixup, ':')], s);
  }

  lemma {:induction false} ListFollows<N, I(!new)>(o: Tree<N, I>, d: Store<I>, d': Store<I>, fixups: I, len: nat,
                                                   pos: nat, phandle: u32, delta: u32, s: set<I>)
    requires Agree(d, d', s) && AliasRecords(o) <= s && fixups in s
    requires Quiet(PlanList(o, d, fixups, len, pos, phandle).edits, s)
    ensures Follows(OneFixup(o, d', fixups, len, pos, phandle), d', PlanList(o, d, fixups, len, pos, phandle), delta)
    decreases len - pos
  {
    hide FixupLocation, CString, AliasRecords, Agree, Quiet, Put32;
    AgreeVal(d, d', s);
    if pos < len {
      var list := Val(d, fixups);
      var fixup := if pos <= |list| then CString(list[pos..]) else "";
      LocationAgrees(o, d, d', fixup, s);
      var at := FixupLocation(o, d, fixup);
      if at.Some? && Fits(d, at.value) {
        var e := Assign(at.value, phandle);
        var rest := PlanList(o, d, fixups, len, pos + |fixup| + 1, phandle);
        QuietFirst(e, rest, s);
        PerformOneAgrees(d, d', e, delta, s);
        ListFollows(o, d, PerformOne(d', e, delta), fixups, len, pos + |fixup| + 1, phandle, delta, s);
        PerformFirst(d', e, rest.edits, delta);
      }
    }
  }

  lemma {:induction false} QuietFirst<I>(e: Edit<I>, rest: Plan<I>, s: set<I>)
    requires Quiet(Then(Plan([e], true), rest).edits, s)
    ensures e.at.prop !in s && Quiet(rest.edits, s)
  {
    var one := Plan([e], true);
    QuietThen(one, rest, s);
    assert one.edits[0].at.prop == e.at.prop;
  }

  lemma {:induction false} PerformFirst<I>(d: Store<I>, e: Edit<I>, rest: seq<Edit<I>>, delta: u32)
    ensures Perform(d, [e] + rest, delta) == Perform(PerformOne(d, e, delta), rest, delta)
  {
    assert ([e] + rest)[1..] == rest;
  }

  lemma {:induction false} SymbolAgrees<N, I(!new)>(m: Tree<N, I>, symbols: Tree<N, I>, d: Store<I>, d': Store<I>,
                                                    name: string, s: set<I>)
    requires Agree(d, d', s) && Records(m) <= s && Records(symbols) <= s
    ensures SymbolNode(m, d', symbols, name) == SymbolNode(m, d, symbols, name)
    ensures var n := SymbolNode(m, d, symbols, name); n.Some? ==> Phandle(n.value, d') == Phandle(n.value, d)
  {
    AgreeVal(d, d', s);
    AliasesInside(m);
    var p := PropOf(symbols, name);
    if p.Some? {
      PropInRecords(symbols, name);
      TreePathAgrees(m, d, d', Text(d, p.value), s);
      var n := TreePath(m, d, Text(d, p.value));
      if n.Some? {
        TreePathRecords(m, d, Text(d, p.value));
        PhandleAgrees(n.value, d, d', s);
      }
    }
  }

  lemma {:induction false} AliasesInside<N, I>(m: Tree<N, I>)
    ensures AliasRecords(m) <= Records(m)
  {
    if Subnode(m, "aliases").Some? {
      DescendRecords(m, ["aliases"]);
    }
  }

  lemma {:induction false} PhandleAgrees<N, I(!new)>(t: Tree<N, I>, d: Store<I>, d': Store<I>, s: set<I>)
    requires Agree(d, d', s) && Records(t) <= s
    ensures Phandle(t, d') == Phandle(t, d)
  {
    AgreeVal(d, d', s);
    if PropOf(t, "phandle").Some? { PropInRecords(t, "phandle"); }
    if PropOf(t, "linux,phandle").Some? { PropInRecords(t, "linux,phandle"); }
  }

  lemma {:induction false} FixupsFollow<N, I(!new)>(m: Tree<N, I>, symbols: Tree<N, I>, o: Tree<N, I>,
                                                    fixups: seq<Tree<N, I>>, d: Store<I>, d': Store<I>, delta: u32,
                                                    s: set<I>)
    requires Agree(d, d', s) && Records(m) <= s && Records(symbols) <= s && AliasRecords(o) <= s
            && KidRecords(fixups) <= s
    requires Quiet(PlanFixups(m, symbols, o, fixups, d).edits, s)
    ensures Follows(FixupProps(m, symbols, o, fixups, d'), d', PlanFixups(m, symbols, o, fixups, d), delta)
    decreases |fixups|
  {
    hide SymbolNode, OneFixup, PlanList, Phandle, AliasRecords;
    if fixups != [] {
      TailRecords(fixups);
      if fixups[0].Node? {
        FixupsFollow(m, symbols, o, fixups[1..], d, d', delta, s);
      } else {
        SymbolAgrees(m, symbols, d, d', fixups[0].name, s);
        var node := SymbolNode(m, d, symbols, fixups[0].name);
        if node.Some? {
          var list, phandle := fixups[0].data, Phandle(node.value, d);
          AgreeVal(d, d', s);
          assert list in Records(fixups[0]);
          var plan, rest := PlanList(o, d, list, |Val(d, list)|, 0, phandle), PlanFixups(m, symbols, o, fixups[1..], d);
          QuietThen(plan, rest, s);
          ListFollows(o, d, d', list, |Val(d, list)|, 0, phandle, delta, s);
          var r := OneFixup(o, d', list, |Val(d', list)|, 0, phandle);
          if r.Some? {
            PerformAgrees(d, d', plan.edits, delta, s);
            FixupsFollow(m, symbols, o, fixups[1..], d, r.value, delta, s);
          }
          FollowsBoth(d', plan, rest, delta, r, FixupProps(m, symbols, o, fixups, d'));
        }
      }
    }
  }

  // ---------------------------------------------------------------- what a plan does to the bytes

  /** The four bytes at one place do not overlap those at another. */
  predicate Clear<I(==)>(a: Location<I>, b: Location<I>) {
    a.prop != b.prop || a.offset + CELL <= b.offset || b.offset + CELL <= a.offset
  }

  /** No two edits overlap. */
  ghost predicate Apart<I>(edits: seq<Edit<I>>) {
    forall i, j | 0 <= i < j < |edits| :: Clear(edits[i].at, edits[j].at)
  }

  ghost predicate AllFit<I>(d: Store<I>, edits: seq<Edit<I>>) {
    forall i | 0 <= i < |edits| :: Fits(d, edits[i].at)
  }

  /** The cell at a place. */
  function CellAt<I>(d: Store<I>, at: Location<I>): u32 {
    Get32(Val(d, at.prop), at.offset)
  }

  /** What an edit makes of the cell it is for. */
  function Edited<I>(d: Store<I>, e: Edit<I>, delta: u32): u32 {
    match e
    case Bump(at) => Add32(CellAt(d, at), delta)
    case Assign(_, value) => value
  }

  lemma {:induction false} PerformOneCell<I(!new)>(d: Store<I>, e: Edit<I>, delta: u32, at: Location<I>)
    requires Fits(d, e.at)
    ensures var d' := PerformOne(d, e, delta);
            && SameLengths(d, d')
            && (at == e.at ==> CellAt(d', at) == Edited(d, e, delta))
            && (Clear(at, e.at) ==> CellAt(d', at) == CellAt(d, at))
  {
    var v, x := Val(d, e.at.prop), Edited(d, e, delta);
    PutGet(v, e.at.offset, x);
    if at.prop == e.at.prop && Clear(at, e.at) {
      PutOther(v, e.at.offset, x, at.offset);
    }
  }

  lemma {:induction false} FitsSame<I(!new)>(d: Store<I>, d': Store<I>, edits: seq<Edit<I>>)
    requires SameLengths(d, d') && AllFit(d, edits)
    ensures AllFit(d', edits)
  {
    AgreeVal(d, d', {});
    forall i | 0 <= i < |edits| ensures Fits(d', edits[i].at) {
      assert Fits(d, edits[i].at);
    }
  }

  /** A cell that no edit overlaps keeps its value. */
  lemma {:induction false} PerformElsewhere<I(!new)>(d: Store<I>, edits: seq<Edit<I>>, delta: u32, at: Location<I>)
    requires AllFit(d, edits) && forall i | 0 <= i < |edits| :: Clear(at, edits[i].at)
    ensures CellAt(Perform(d, edits, delta), at) == CellAt(d, at)
    decreases |edits|
  {
    if edits != [] {
      PerformOneCell(d, edits[0], delta, at);
      var d' := PerformOne(d, edits[0], delta);
      assert AllFit(d, edits[1..]);
      FitsSame(d, d', edits[1..]);
      PerformElsewhere(d', edits[1..], delta, at);
    }
  }

  /** Edits that do not overlap all take effect, each on the value that was there before. */
  lemma {:induction false} PerformExact<I(!new)>(d: Store<I>, edits: seq<Edit<I>>, delta: u32, k: nat)
    requires AllFit(d, edits) && Apart(edits) && k < |edits|
    ensures CellAt(Perform(d, edits, delta), edits[k].at) == Edited(d, edits[k], delta)
    decreases |edits|
  {
    hide PerformOne, CellAt, Fits, Add32;
    var rest := edits[1..];
    PerformOneCell(d, edits[0], delta, edits[k].at);
    var d' := PerformOne(d, edits[0], delta);
    assert AllFit(d, rest) && Apart(rest);
    FitsSame(d, d', rest);
    if k == 0 {
      forall i | 0 <= i < |rest| ensures Clear(edits[0].at, rest[i].at) {
        assert Clear(edits[0].at, edits[i + 1].at);
      }
      PerformElsewhere(d', rest, delta, edits[0].at);
    } else {
      assert Clear(edits[0].at, edits[k].at);
      PerformExact(d', rest, delta, k - 1);
    }
  }

  // ---------------------------------------------------------------- plans only list cells that exist

  lemma {:induction false} FitThen<I>(d: Store<I>, p: Plan<I>, q: Plan<I>)
    requires AllFit(d, p.edits) && AllFit(d, q.edits)
    ensures AllFit(d, Then(p, q).edits)
  {
  }

  lemma {:induction false} CellsFit<I>(d: Store<I>, target: I, fixup: I, len: nat, i: nat)
    ensures AllFit(d, PlanCells(d, target, fixup, len, i).edits)
    decreases len - i
  {
    if i < len {
      var at := Location(target, Get32(Val(d, fixup), i));
      if Fits(d, at) {
        CellsFit(d, target, fixup, len, i + CELL);
        FitThen(d, Plan([Bump(at)], true), PlanCells(d, target, fixup, len, i + CELL));
      }
    }
  }

  lemma {:induction false} PropsFit<N, I>(t: Tree<N, I>, fixups: seq<Tree<N, I>>, d: Store<I>)
    ensures AllFit(d, PlanProps(t, fixups, d).edits)
    decreases |fixups|
  {
    if fixups != [] {
      PropsFit(t, fixups[1..], d);
      if fixups[0].Prop? && PropOf(t, fixups[0].name).Some? {
        var p, list := PropOf(t, fixups[0].name).value, fixups[0].data;
        CellsFit(d, p, list, |Val(d, list)|, 0);
        FitThen(d, PlanCells(d, p, list, |Val(d, list)|, 0), PlanProps(t, fixups[1..], d));
      }
    }
  }

  lemma {:induction false} NodesFit<N, I>(t: Tree<N, I>, fixups: seq<Tree<N, I>>, d: Store<I>)
    ensures AllFit(d, PlanNodes(t, fixups, d).edits)
    decreases fixups
  {
    if fixups != [] {
      NodesFit(t, fixups[1..], d);
      if fixups[0].Node? && Resolve(t, fixups[0].name).Some? {
        var sub := Resolve(t, fixups[0].name).value;
        LocalFits(sub, fixups[0], d);
        FitThen(d, PlanLocal(sub, fixups[0], d), PlanNodes(t, fixups[1..], d));
      }
    }
  }

  lemma {:induction false} LocalFits<N, I>(t: Tree<N, I>, fixups: Tree<N, I>, d: Store<I>)
    requires fixups.Node?
    ensures AllFit(d, PlanLocal(t, fixups, d).edits)
    decreases fixups
  {
    PropsFit(t, fixups.kids, d);
    NodesFit(t, fixups.kids, d);
    FitThen(d, PlanProps(t, fixups.kids, d), PlanNodes(t, fixups.kids, d));
  }

  lemma {:induction false} ListFits<N, I>(o: Tree<N, I>, d: Store<I>, fixups: I, len: nat, pos: nat, phandle: u32)
    ensures AllFit(d, PlanList(o, d, fixups, len, pos, phandle).edits)
    decreases len - pos
  {
    hide FixupLocation, CString;
    if pos < len {
      var list := Val(d, fixups);
      var fixup := if pos <= |list| then CString(list[pos..]) else "";
      var at := FixupLocation(o, d, fixup);
      if at.Some? && Fits(d, at.value) {
        ListFits(o, d, fixups, len, pos + |fixup| + 1, phandle);
        FitThen(d, Plan([Assign(at.value, phandle)], true), PlanList(o, d, fixups, len, pos + |fixup| + 1, phandle));
      }
    }
  }

  lemma {:induction false} FixupsFit<N, I>(m: Tree<N, I>, symbols: Tree<N, I>, o: Tree<N, I>, fixups: seq<Tree<N, I>>,
                                           d: Store<I>)
    ensures AllFit(d, PlanFixups(m, symbols, o, fixups, d).edits)
    decreases |fixups|
  {
    hide SymbolNode, PlanList, Phandle;
    if fixups != [] {
      FixupsFit(m, symbols, o, fixups[1..], d);
      var node := SymbolNode(m, d, symbols, fixups[0].name);
      if fixups[0].Prop? && node.Some? {
        var list := fixups[0].data;
        ListFits(o, d, list, |Val(d, list)|, 0, Phandle(node.value, d));
        FitThen(d, PlanList(o, d, list, |Val(d, list)|, 0, Phandle(node.value, d)),
            PlanFixups(m, symbols, o, fixups[1..], d));
      }
    }
  }

  // ---------------------------------------------------------------- the whole overlay

  /** The cells that `__local_fixups__` is about. */
  ghost function LocalPart<N, I>(o: Tree<N, I>, d: Store<I>): Plan<I> {
    var local := Subnode(o, "__local_fixups__");
    if local.None? || local.value.Prop? then Plan([], true) else PlanLocal(o, local.value, d)
  }

  /** The cells that `__fixups__` is about. */
  ghost function ExternalPart<N, I>(m: Tree<N, I>, o: Tree<N, I>, d: Store<I>): Plan<I> {
    var fixups, symbols := Subnode(o, "__fixups__"), Subnode(m, "__symbols__");
    if fixups.None? || fixups.value.Prop? || !HasProp(fixups.value.kids) then Plan([], true)
    else if symbols.None? then Plan([], false)
    else PlanFixups(m, symbols.value, o, fixups.value.kids, d)
  }

  /** All cells that the fixups of an overlay are about. */
  ghost function OverlayPlan<N, I>(m: Tree<N, I>, o: Tree<N, I>, d: Store<I>): Plan<I> {
    Then(LocalPart(o, d), ExternalPart(m, o, d))
  }

  /** All records that are read to find those cells. */
  ghost function ReadRecords<N, I>(m: Tree<N, I>, o: Tree<N, I>): set<I> {
    var local, fixups := Subnode(o, "__local_fixups__"), Subnode(o, "__fixups__");
    Records(m) + AliasRecords(o)
    + (if local.None? then {} else Records(local.value))
    + (if fixups.None? then {} else Records(fixups.value))
  }

  lemma {:induction false} PlanFits<N, I>(m: Tree<N, I>, o: Tree<N, I>, d: Store<I>)
    ensures AllFit(d, OverlayPlan(m, o, d).edits)
  {
    var local, fixups, symbols := Subnode(o, "__local_fixups__"), Subnode(o, "__fixups__"), Subnode(m, "__symbols__");
    hide Subnode, PlanLocal, PlanFixups, HasProp, Then;
    if local.Some? && local.value.Node? {
      LocalFits(o, local.value, d);
    }
    if fixups.Some? && fixups.value.Node? && symbols.Some? {
      FixupsFit(m, symbols.value, o, fixups.value.kids, d);
    }
    FitThen(d, LocalPart(o, d), ExternalPart(m, o, d));
  }

  lemma {:induction false} LocalPartFollows<N, I(!new)>(o: Tree<N, I>, d: Store<I>, d': Store<I>, delta: u32, s: set<I>)
    requires o.Node? && Agree(d, d', s) && Quiet(LocalPart(o, d).edits, s)
    requires var local := Subnode(o, "__local_fixups__"); local.Some? ==> Records(local.value) <= s
    ensures Follows(LocalFixups(o, d', delta), d', LocalPart(o, d), delta)
  {
    var local := Subnode(o, "__local_fixups__");
    WholeTree(o);
    hide Subnode, PlanLocal, LocalFixup, Perform, Records;
    NothingToDo(d', delta);
    if local.Some? && local.value.Node? {
      LocalFollows(o, local.value, d, d', delta, s);
    }
  }

  lemma {:induction false} ExternalPartFollows<N, I(!new)>(m: Tree<N, I>, o: Tree<N, I>, d: Store<I>, d': Store<I>,
                                                           delta: u32, s: set<I>)
    requires o.Node? && m.Node? && Agree(d, d', s) && Quiet(ExternalPart(m, o, d).edits, s)
    requires Records(m) + AliasRecords(o) <= s
    requires var fixups := Subnode(o, "__fixups__"); fixups.Some? ==> Records(fixups.value) <= s
    ensures Follows(Fixups(m, o, d'), d', ExternalPart(m, o, d), delta)
  {
    hide Subnode, PlanFixups, FixupProps, Perform, Records, AliasRecords, HasProp, Quiet, Agree;
    var fixups, symbols := Subnode(o, "__fixups__"), Subnode(m, "__symbols__");
    SubnodeParts(o, "__fixups__");
    SubnodeParts(m, "__symbols__");
    NothingToDo(d', delta);
    if fixups.Some? && fixups.value.Node? && HasProp(fixups.value.kids) && symbols.Some? {
      FixupsFollow(m, symbols.value, o, fixups.value.kids, d, d', delta, s);
    }
  }

  lemma {:induction false} SubnodeParts<N, D>(t: Tree<N, D>, name: string)
    ensures var n := Subnode(t, name);
            n.Some? ==>
              Records(n.value) <= Records(t)
              && (n.value.Node? ==> Records(n.value) == KidRecords(n.value.kids))
  {
    if Subnode(t, name).Some? {
      DescendRecords(t, [name]);
    }
  }

  /**
   * When no fixup is about a value that the fixups are read from, updating references is renumbering
   * and carrying out the plan; it fails exactly when some fixup cannot be resolved.
   */
  lemma {:induction false} UpdateFollows<N(!new), I(!new)>(m: Tree<N, I>, table: seq<Entry<N>>, o: Tree<N, I>,
                                                           d: Store<I>)
    requires o.Node? && m.Node?
    requires Quiet(OverlayPlan(m, o, Renumbered(table, o, d)).edits, ReadRecords(m, o))
    ensures var d1 := Renumbered(table, o, d);
            Follows(UpdateReferences(m, table, o, d), d1, OverlayPlan(m, o, d1), MaxPhandle(table))
  {
    var delta, d1, s := MaxPhandle(table), Renumbered(table, o, d), ReadRecords(m, o);
    var p, q := LocalPart(o, d1), ExternalPart(m, o, d1);
    hide Subnode, LocalPart, ExternalPart, Then, Shift, LocalFixups, Fixups, Perform, AliasRecords, Records, Renumbered;
    QuietThen(p, q, s);
    assert Agree(d1, d1, s);
    LocalPartFollows(o, d1, d1, delta, s);
    var r := LocalFixups(o, d1, delta);
    if r.Some? {
      PerformAgrees(d1, d1, p.edits, delta, s);
      ExternalPartFollows(m, o, d1, r.value, delta, s);
    }
    UpdateIs(m, table, o, d);
    FollowsBoth(d1, p, q, delta, r, UpdateReferences(m, table, o, d));
  }

  lemma {:induction false} UpdateIs<N, I>(m: Tree<N, I>, table: seq<Entry<N>>, o: Tree<N, I>, d: Store<I>)
    ensures var r := LocalFixups(o, Renumbered(table, o, d), MaxPhandle(table));
            UpdateReferences(m, table, o, d) == if r.None? then None else Fixups(m, o, r.value)
  {
    hide Shift, LocalFixups, Fixups;
  }

  lemma {:induction false} NothingToDo<I>(d: Store<I>, delta: u32)
    ensures Perform(d, [], delta) == d
  {
  }

  lemma {:induction false} WholeTree<N, D>(o: Tree<N, D>)
    ensures Resolve(o, "/") == Some(o)
  {
    assert Components("/") == [];
  }
}
