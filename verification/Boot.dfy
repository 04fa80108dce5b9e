/** The boot loop: overlays are applied one after the other, each to the result of the one before. */
module Boot {
  import opened Bytes
  import opened Blobs
  import opened Trees
  import opened Paths
  import opened Phandles
  import opened NodePool
  import opened Nodes
  import opened Parse
  import opened FdtBuffers
  import opened Flattening
  import opened Sizes
  import opened Renumbering
  import opened ReferenceLaws
  import opened FragmentLaws
  import opened Subtrees
  import opened Erasing
  import opened PhandleLaws
  import opened Uniqueness
  import opened Preservation
  import opened Reordering
  import opened Tameness
  import opened Bounds
  import Output
  import Overlay
  import opened Confinement
  import Spec = OverlaySpec

  // ---------------------------------------------------------------- what a blob has to be for the next overlay

  /** One more than the largest phandle of a tree. */
  ghost function Top(v: Value): (r: nat)
    ensures r > 0
  {
    if v.Prop? then 1
    else if PhandleOf(v) + 1 > KidTop(v.kids) then PhandleOf(v) + 1 else KidTop(v.kids)
  }

  ghost function KidTop(kids: seq<Value>): (r: nat)
    ensures r > 0
  {
    if kids == [] then 1
    else
      var rest, last := KidTop(kids[..|kids| - 1]), Top(kids[|kids| - 1]);
      if last > rest then last else rest
  }

  /** It is the least bound. */
  lemma {:induction false} TopIsLeast(v: Value, b: nat)
    requires b > 0
    ensures Below(v, b) <==> Top(v) <= b
    decreases v, 0
  {
    if v.Node? {
      KidTopIsLeast(v.kids, b);
    }
  }

  lemma {:induction false} KidTopIsLeast(kids: seq<Value>, b: nat)
    requires b > 0
    ensures (forall i | 0 <= i < |kids| :: Below(kids[i], b)) <==> KidTop(kids) <= b
    decreases kids, 0
  {
    if kids != [] {
      var rest := kids[..|kids| - 1];
      KidTopIsLeast(rest, b);
      TopIsLeast(kids[|kids| - 1], b);
      assert forall i | 0 <= i < |rest| :: rest[i] == kids[i];
    }
  }

  /** The decoded tree of a blob, with its values. */
  ghost function Contents(fdt: Fdt, d: Values): Value
    requires WellFormed(fdt)
  {
    Fill(Decode(fdt), d)
  }

  ghost predicate Good(fdt: Fdt, d: Values) {
    SoundBlob(fdt, d) && Sane(Contents(fdt, d))
  }

  /** The values of a blob's properties are the same. */
  ghost predicate SameBlob(blob: nat, d: Values, d': Values) {
    forall tag: FdtTag | tag.blob == blob :: Val(d', tag) == Val(d, tag)
  }

  /** The fixups stay inside the overlay's values and leave its phandles as renumbering made them. */
  ghost predicate Orderly(m: Linked, table: seq<Entry<Addr>>, o: Linked, d: Values) {
    WellBounded(m, table, o, d) && KeepsPhandles(m, table, o, d)
  }

  /** That is so whatever main tree the overlay is applied to, and however its own tree is labelled. */
  ghost predicate OrderlyBlob(fdt: Fdt, d: Values) {
    && WellFormed(fdt)
    && forall m: Linked, table: seq<Entry<Addr>>, o: Linked, d': Values
         | m.Node? && Erase(o) == Decode(fdt) && Records(m) !! Records(o) && SameBlob(fdt.blob, d, d') ::
         Orderly(m, table, o, d')
  }

  /** What can be checked on the overlay alone: its fixups are tame and its offsets fit. */
  ghost predicate TameBlob(fdt: Fdt, d: Values) {
    WellFormed(fdt) && forall t: Linked | Erase(t) == Decode(fdt) :: Tame(t, d) && OffsetsFit(t, d)
  }

  /** It is enough. */
  lemma {:induction false} TameIsOrderly(fdt: Fdt, d: Values)
    requires TameBlob(fdt, d)
    ensures OrderlyBlob(fdt, d)
  {
    hide Tame, OffsetsFit, WellBounded, KeepsPhandles, ParseKids;
    DecodedRecords(fdt);
    forall m: Linked, table: seq<Entry<Addr>>, o: Linked, d': Values
      | m.Node? && Erase(o) == Decode(fdt) && Records(m) !! Records(o) && SameBlob(fdt.blob, d, d')
      ensures Orderly(m, table, o, d')
    {
      RecordsErased(o);
      TameSame(o, d, d');
      OffsetsSame(o, d, d');
      FittingIsBounded(m, table, o, d');
      TameIsHarmless(m, table, o, d');
      HarmlessKeeps(m, table, o, d');
    }
  }

  lemma {:induction false} GoodIsAcceptable(fdt: Fdt, d: Values)
    requires Good(fdt, d) && Top(Contents(fdt, d)) <= SIGN_BIT
    ensures Overlay.Acceptable(fdt, d)
  {
    TopIsLeast(Contents(fdt, d), SIGN_BIT);
    SignedIsBelow(Decode(fdt), d);
  }

  // ---------------------------------------------------------------- one step

  /** One successful application, with the labelled trees it went through. */
  datatype Step = Step(main: Fdt, overlay: Fdt, before: Values, result: Fdt, after: Values,
                       mt: Linked, ot: Linked, table: seq<Entry<Addr>>)

  ghost predicate Done(s: Step) {
    Overlay.Produced(Some(s.result), s.result.blob, s.after, s.main, s.overlay, s.before, s.mt, s.ot, s.table)
  }

  /** Every path that led to a node still does. */
  ghost predicate PathsKept(v: Value, w: Value) {
    forall path | Descend(v, path).Some? :: Descend(w, path).Some?
  }

  lemma {:induction false} DescendFilled<N, I>(t: Tree<N, I>, d: Store<I>, path: seq<string>)
    ensures Descend(Fill(t, d), path) == if Descend(t, path).None? then None else Some(Fill(Descend(t, path).value, d))
    decreases path
  {
    if path != [] && t.Node? {
      FindFilled(t.kids, d, true, path[0]);
      var i := Find(t.kids, true, path[0]);
      if i < |t.kids| {
        DescendFilled(t.kids[i], d, path[1..]);
      }
    }
  }

  /** What the labelled trees of a step satisfy. */
  lemma {:induction false} StepTrees(s: Step)
    requires Done(s) && Good(s.main, s.before) && Good(s.overlay, s.before) && s.main.blob != s.overlay.blob
    ensures s.mt.Node? && s.ot.Node? && Separate(s.mt) && Separate(s.ot) && Ids(s.mt) !! Ids(s.ot)
    ensures OwnRecords(s.ot) && Records(s.mt) !! Records(s.ot)
    ensures IsTable(s.table, s.mt, s.before) && TableIn(s.table, s.mt)
    ensures Fill(s.mt, s.before) == Contents(s.main, s.before) && Fill(s.ot, s.before) == Contents(s.overlay, s.before)
    ensures Unique(s.mt) && Unique(s.ot)
  {
    Overlay.LoadedRecords(s.main, s.overlay, s.mt, s.ot, s.table, s.before);
    FillErased(s.mt, s.before);
    FillErased(s.ot, s.before);
    UniqueFilled(s.mt, s.before);
    UniqueFilled(s.ot, s.before);
  }

  lemma {:induction false} StepOrderly(s: Step)
    requires Done(s) && Good(s.main, s.before) && Good(s.overlay, s.before) && s.main.blob != s.overlay.blob
    requires OrderlyBlob(s.overlay, s.before)
    ensures KeepsPhandles(s.mt, s.table, s.ot, s.before)
  {
    StepTrees(s);
    hide Good, KeepsPhandles, WellBounded, WellFormed, Records;
    assert Orderly(s.mt, s.table, s.ot, s.before);
  }

  /** The invariant of the boot loop: what the next overlay needs of the main blob is there again. */
  lemma {:induction false} StepKeepsGood(s: Step)
    requires Done(s) && Good(s.main, s.before) && Good(s.overlay, s.before) && s.main.blob != s.overlay.blob
    requires OrderlyBlob(s.overlay, s.before)
    requires Top(Contents(s.main, s.before)) + Top(Contents(s.overlay, s.before)) <= SIGN_BIT + 1
    ensures Good(s.result, s.after)
    ensures Top(Contents(s.result, s.after)) <= Top(Contents(s.main, s.before)) + Top(Contents(s.overlay, s.before)) - 1
  {
    hide OrderlyBlob, KeepsPhandles;
    var m, table, o, d := s.mt, s.table, s.ot, s.before;
    var b, c := Top(Contents(s.main, d)), Top(Contents(s.overlay, d));
    StepTrees(s);
    TopIsLeast(Contents(s.main, d), b);
    TopIsLeast(Contents(s.overlay, d), c);
    StepOrderly(s);
    OverlayKeepsDistinct(m, table, o, d, b, c);
    var out := Spec.OverlayApply(m, table, o, d).value;
    FragmentsUnique(m, table, o.kids, out.values);
    UniqueFilled(out.tree, out.values);
    SaneReordered(Fill(out.tree, out.values), b + c - 1);
    TopIsLeast(Contents(s.result, s.after), b + c - 1);
  }

  /** Paths survive a step. */
  lemma {:induction false} StepKeepsPaths(s: Step)
    requires Done(s) && Good(s.main, s.before) && Good(s.overlay, s.before) && s.main.blob != s.overlay.blob
    ensures PathsKept(Contents(s.main, s.before), Contents(s.result, s.after))
  {
    var m, table, o, d := s.mt, s.table, s.ot, s.before;
    StepTrees(s);
    var out := Spec.OverlayApply(m, table, o, d).value;
    forall path | Descend(Contents(s.main, d), path).Some? ensures Descend(Contents(s.result, s.after), path).Some? {
      DescendFilled(m, d, path);
      FragmentsResolve(m, table, o.kids, out.values, path);
      DescendFilled(out.tree, out.values, path);
      DescendReordered(Fill(out.tree, out.values), path);
    }
  }

  // ---------------------------------------------------------------- values of other blobs

  lemma {:induction false} StructSizeSame(fdt: Fdt, d: Values, d': Values, i: nat, j: nat)
    requires i <= j <= |fdt.structure| && Placed(fdt) && SameBlob(fdt.blob, d, d')
    ensures StructSize(fdt, d', i, j) == StructSize(fdt, d, i, j)
    decreases j - i
  {
    if i < j {
      StructSizeSame(fdt, d, d', i + 1, j);
      assert Val(d', fdt.structure[i]) == Val(d, fdt.structure[i]);
    }
  }

  lemma {:induction false} FillFrame<N>(t: Tree<N, FdtTag>, d: Values, d': Values)
    requires forall tag | tag in Records(t) :: Val(d', tag) == Val(d, tag)
    ensures Fill(t, d') == Fill(t, d)
  {
    if t.Node? {
      forall i | 0 <= i < |t.kids| ensures FillKids(t.kids, d')[i] == FillKids(t.kids, d)[i] {
        KidRecordsContain(t.kids, i);
        FillFrame(t.kids[i], d, d');
      }
      assert FillKids(t.kids, d') == FillKids(t.kids, d);
    } else {
      assert t.data in Records(t);
    }
  }

  /** A blob whose values were not touched is what it was. */
  lemma {:induction false} BlobFrame(fdt: Fdt, d: Values, d': Values)
    requires WellFormed(fdt) && SameBlob(fdt.blob, d, d')
    ensures Contents(fdt, d') == Contents(fdt, d)
    ensures Good(fdt, d) ==> Good(fdt, d')
    ensures OrderlyBlob(fdt, d) ==> OrderlyBlob(fdt, d')
  {
    hide Orderly;
    DecodedRecords(fdt);
    FillFrame(Decode(fdt), d, d');
    StructSizeSame(fdt, d, d', 0, |fdt.structure|);
    if OrderlyBlob(fdt, d) {
      OrderlyFrame(fdt, d, d');
    }
  }

  lemma {:induction false} OrderlyFrame(fdt: Fdt, d: Values, d': Values)
    requires OrderlyBlob(fdt, d) && SameBlob(fdt.blob, d, d')
    ensures OrderlyBlob(fdt, d')
  {
    hide Orderly, Decode, Records, ParseKids;
    forall d'' | SameBlob(fdt.blob, d', d'') ensures SameBlob(fdt.blob, d, d'') {
    }
  }

  /** A step writes values of the overlay and of the new blob only. */
  lemma {:induction false} StepFrame(s: Step, blob: nat)
    requires Done(s) && blob != s.overlay.blob && blob != s.result.blob
    ensures SameBlob(blob, s.before, s.after)
    ensures forall tag | tag in s.after :: tag in s.before || tag.blob == s.result.blob
  {
    hide Spec.ApplyFragments, Spec.UpdateReferences, IsTable, Separate, Ids;
    Overlay.LoadedRecords(s.main, s.overlay, s.mt, s.ot, s.table, s.before);
    RecordsErased(s.ot);
    DecodedRecords(s.overlay);
    UpdateWithin(s.mt, s.table, s.ot, s.before);
  }

  // ---------------------------------------------------------------- the run

  /** A configured overlay: whether it is for this device and mode, and the file that was loaded. */
  datatype OverlayFile = OverlayFile(selected: bool, blob: Option<Fdt>, size: nat)

  predicate Loads(f: OverlayFile) {
    f.selected && f.blob.Some?
  }

  /** The blobs that the loop applies, in order. */
  function Applied(files: seq<OverlayFile>): seq<Fdt> {
    if files == [] then []
    else Applied(files[..|files| - 1]) + if Loads(files[|files| - 1]) then [files[|files| - 1].blob.value] else []
  }

  /** These are, in order, the selected files that could be loaded, and no others. */
  ghost predicate Picked(files: seq<OverlayFile>, idx: seq<nat>, blobs: seq<Fdt>) {
    && |idx| == |blobs|
    && (forall k | 0 <= k < |idx| ::
          idx[k] < |files| && files[idx[k]].selected && files[idx[k]].blob == Some(blobs[k]))
    && (forall k, l | 0 <= k < l < |idx| :: idx[k] < idx[l])
    && (forall i | 0 <= i < |files| && files[i].selected && files[i].blob.Some? :: i in idx)
  }

  /** Those are the overlays that are applied. */
  lemma {:induction false} AppliedArePicked(files: seq<OverlayFile>) returns (idx: seq<nat>)
    ensures Picked(files, idx, Applied(files))
    decreases |files|
  {
    hide Picked;
    if files == [] {
      idx := [];
      NonePicked(files);
    } else {
      var n := |files| - 1;
      var rest := AppliedArePicked(files[..n]);
      PickedMore(files, rest, Applied(files[..n]));
      assert Applied(files[..n]) + [] == Applied(files[..n]);
      idx := if files[n].selected && files[n].blob.Some? then rest + [n] else rest;
    }
  }

  lemma {:induction false} NonePicked(files: seq<OverlayFile>)
    requires files == []
    ensures Picked(files, [], Applied(files))
  {
  }

  /** One more file. */
  lemma {:induction false} PickedMore(files: seq<OverlayFile>, idx: seq<nat>, blobs: seq<Fdt>)
    requires files != [] && Picked(files[..|files| - 1], idx, blobs)
    ensures var n, f := |files| - 1, files[|files| - 1];
            if f.selected && f.blob.Some? then Picked(files, idx + [n], blobs + [f.blob.value])
            else Picked(files, idx, blobs)
  {
    var n := |files| - 1;
    assert forall k | 0 <= k < |idx| :: files[..n][idx[k]] == files[idx[k]];
    forall i | 0 <= i < n && files[i].selected && files[i].blob.Some? ensures i in idx {
      assert files[..n][i] == files[i];
    }
  }

  /** The overlays of these steps. */
  function OverlaysOf(run: seq<Step>): seq<Fdt> {
    seq(|run|, i requires 0 <= i < |run| => run[i].overlay)
  }

  /** The steps of a run are for the files that were picked. */
  lemma {:induction false} RunIsPicked(files: seq<OverlayFile>, run: seq<Step>) returns (idx: seq<nat>)
    requires Overlays(run, Applied(files))
    ensures Picked(files, idx, OverlaysOf(run))
  {
    hide Applied;
    idx := AppliedArePicked(files);
    assert OverlaysOf(run) == Applied(files);
  }

  lemma {:induction false} NothingIsApplied(files: seq<OverlayFile>)
    requires forall i | 0 <= i < |files| :: !(files[i].selected && files[i].blob.Some?)
    ensures Applied(files) == []
  {
    if files != [] {
      NothingIsApplied(files[..|files| - 1]);
    }
  }

  /** Where nothing is selected nothing is done. */
  lemma {:induction false} NothingSelected(hdr: Fdt, d0: Values, run: seq<Step>, r: Fdt, d: Values,
                                           files: seq<OverlayFile>)
    requires Reached(hdr, d0, run, r, d, Applied(files))
    requires forall i | 0 <= i < |files| :: !(files[i].selected && files[i].blob.Some?)
    ensures r == hdr && run == [] && d == d0
  {
    hide Applied, WellFormed, Contents, PathsKept, TotalSizes;
    NothingIsApplied(files);
  }

  /** The largest phandles of the overlays to come, summed up: the room that they need. */
  ghost function Tops(files: seq<OverlayFile>, d: Values): nat {
    if files == [] then 0
    else
      var f := files[0];
      var own := if Loads(f) && WellFormed(f.blob.value) then Top(Contents(f.blob.value, d)) - 1 else 0;
      own + Tops(files[1..], d)
  }

  /** From the first blob to the current one, step by step. */
  ghost predicate Chain(hdr: Fdt, d0: Values, run: seq<Step>, r: Fdt, d: Values) {
    if run == [] then r == hdr && d == d0
    else
      var s := run[|run| - 1];
      Done(s) && s.result == r && s.after == d && Chain(hdr, d0, run[..|run| - 1], s.main, s.before)
  }

  ghost predicate Overlays(run: seq<Step>, blobs: seq<Fdt>) {
    |run| == |blobs| && forall i | 0 <= i < |run| :: run[i].overlay == blobs[i]
  }

  function TotalSizes(blobs: seq<Fdt>): nat {
    if blobs == [] then 0 else TotalSizes(blobs[..|blobs| - 1]) + blobs[|blobs| - 1].totalsize
  }

  /** The files to come are untouched: good, orderly, and at addresses of their own below `first`. */
  ghost predicate Pending(files: seq<OverlayFile>, d: Values, first: nat) {
    && (forall i | 0 <= i < |files| && Loads(files[i]) ::
          var f := files[i].blob.value;
          f.blob < first && Good(f, d) && OrderlyBlob(f, d)
          && Top(Contents(f, d)) <= SIGN_BIT)
    && (forall i, j | 0 <= i < j < |files| && Loads(files[i]) && Loads(files[j]) ::
          files[i].blob.value.blob != files[j].blob.value.blob)
  }

  /** The main blob is none of the files to come. */
  ghost predicate Aside(fdt: Fdt, files: seq<OverlayFile>) {
    forall i | 0 <= i < |files| && Loads(files[i]) :: files[i].blob.value.blob != fdt.blob
  }

  /** How the current blob was reached. */
  ghost predicate Reached(hdr: Fdt, d0: Values, run: seq<Step>, cur: Fdt, d: Values, done: seq<Fdt>) {
    && WellFormed(hdr) && WellFormed(cur)
    && Chain(hdr, d0, run, cur, d) && Overlays(run, done)
    && PathsKept(Contents(hdr, d0), Contents(cur, d))
    && cur.reserve == hdr.reserve && cur.totalsize == hdr.totalsize + TotalSizes(done)
  }

  /** What the overlays to come rely on. */
  ghost predicate Ready(cur: Fdt, d: Values, files: seq<OverlayFile>, first: nat, next: nat) {
    && Good(cur, d) && Top(Contents(cur, d)) + Tops(files, d) <= SIGN_BIT
    && Pending(files, d, first) && Aside(cur, files)
    && first <= next && cur.blob < next && forall tag | tag in d :: tag.blob < next
  }

  lemma {:induction false} TopsFrame(files: seq<OverlayFile>, d: Values, d': Values)
    requires forall i | 0 <= i < |files| && Loads(files[i]) :: SameBlob(files[i].blob.value.blob, d, d')
    ensures Tops(files, d') == Tops(files, d)
  {
    if files != [] {
      TopsFrame(files[1..], d, d');
      if Loads(files[0]) && WellFormed(files[0].blob.value) {
        BlobFrame(files[0].blob.value, d, d');
      }
    }
  }

  lemma {:induction false} PendingFrame(files: seq<OverlayFile>, d: Values, d': Values, first: nat)
    requires Pending(files, d, first)
    requires forall i | 0 <= i < |files| && Loads(files[i]) :: SameBlob(files[i].blob.value.blob, d, d')
    ensures Pending(files, d', first)
  {
    forall i | 0 <= i < |files| && Loads(files[i])
      ensures var f := files[i].blob.value;
              f.blob < first && Good(f, d') && OrderlyBlob(f, d')
              && Top(Contents(f, d')) <= SIGN_BIT
    {
      BlobFrame(files[i].blob.value, d, d');
    }
  }

  /** A file that is not applied changes nothing. */
  lemma {:induction false} SkipFile(cur: Fdt, d: Values, files: seq<OverlayFile>, first: nat, next: nat)
    requires files != [] && !Loads(files[0]) && Ready(cur, d, files, first, next)
    ensures Ready(cur, d, files[1..], first, next)
  {
    hide Good, OrderlyBlob, Contents, WellFormed, Top;
  }

  /** One more step behind the chain. */
  lemma {:induction false} OneMoreStep(hdr: Fdt, d0: Values, run: seq<Step>, done: seq<Fdt>, s: Step)
    requires Reached(hdr, d0, run, s.main, s.before, done) && Done(s)
    requires Good(s.main, s.before) && Good(s.overlay, s.before) && s.main.blob != s.overlay.blob
    ensures Reached(hdr, d0, run + [s], s.result, s.after, done + [s.overlay])
  {
    hide Done, Good, PathsKept, Contents, WellFormed, Chain, Overlays, TotalSizes;
    StepKeepsPaths(s);
    StepParts(s);
    ChainMore(hdr, d0, run, s);
    OverlaysMore(run, done, s);
    PathsCompose(Contents(hdr, d0), Contents(s.main, s.before), Contents(s.result, s.after));
  }

  lemma {:induction false} ChainMore(hdr: Fdt, d0: Values, run: seq<Step>, s: Step)
    requires Chain(hdr, d0, run, s.main, s.before) && Done(s)
    ensures Chain(hdr, d0, run + [s], s.result, s.after)
  {
    hide Done;
    assert (run + [s])[..|run|] == run;
  }

  lemma {:induction false} OverlaysMore(run: seq<Step>, done: seq<Fdt>, s: Step)
    requires Overlays(run, done)
    ensures Overlays(run + [s], done + [s.overlay])
    ensures TotalSizes(done + [s.overlay]) == TotalSizes(done) + s.overlay.totalsize
  {
    assert (done + [s.overlay])[..|done|] == done;
  }

  /** The files to come are as good as before. */
  lemma {:induction false} StillReady(files: seq<OverlayFile>, first: nat, next: nat, s: Step)
    requires files != [] && Loads(files[0]) && Ready(s.main, s.before, files, first, next)
    requires Done(s) && s.overlay == files[0].blob.value && s.result.blob == next
    ensures Ready(s.result, s.after, files[1..], first, next + 1)
    ensures Good(s.main, s.before) && Good(s.overlay, s.before) && s.main.blob != s.overlay.blob
  {
    hide Done, Good, OrderlyBlob, Contents, Top, Tops, SameBlob;
    var rest := files[1..];
    FirstOfFiles(s.main, s.before, files, first, next);
    OthersUntouched(files, first, next, s);
    StepFrame(s, next + 1);
    StepKeepsGood(s);
    PendingTail(files, s.before, first);
    TopsFrame(rest, s.before, s.after);
    PendingFrame(rest, s.before, s.after, first);
  }

  lemma {:induction false} FirstOfFiles(cur: Fdt, d: Values, files: seq<OverlayFile>, first: nat, next: nat)
    requires files != [] && Loads(files[0]) && Ready(cur, d, files, first, next)
    ensures var f := files[0].blob.value;
            && Good(f, d) && OrderlyBlob(f, d) && f.blob < first && f.blob != cur.blob && WellFormed(f)
                && WellFormed(cur)
            && Top(Contents(cur, d)) + Top(Contents(f, d)) - 1 + Tops(files[1..], d) <= SIGN_BIT
  {
    hide Contents, Top;
  }

  lemma {:induction false} OthersUntouched(files: seq<OverlayFile>, first: nat, next: nat, s: Step)
    requires files != [] && Loads(files[0]) && Pending(files, s.before, first) && first <= next
    requires Done(s) && s.overlay == files[0].blob.value && s.result.blob == next
    ensures forall i | 0 <= i < |files[1..]|
            && Loads(files[1..][i]) :: SameBlob(files[1..][i].blob.value.blob, s.before, s.after)
  {
    hide Done, Good, OrderlyBlob, Contents, Top, SameBlob;
    var rest := files[1..];
    forall i | 0 <= i < |rest| && Loads(rest[i]) ensures SameBlob(rest[i].blob.value.blob, s.before, s.after) {
      assert rest[i] == files[i + 1];
      StepFrame(s, rest[i].blob.value.blob);
    }
  }

  lemma {:induction false} PendingTail(files: seq<OverlayFile>, d: Values, first: nat)
    requires files != [] && Pending(files, d, first)
    ensures Pending(files[1..], d, first)
  {
    hide Good, OrderlyBlob, Contents, Top;
  }

  lemma {:induction false} StepParts(s: Step)
    requires Done(s)
    ensures s.result.reserve == s.main.reserve && s.result.totalsize == s.main.totalsize + s.overlay.totalsize
    ensures WellFormed(s.result)
  {
  }

  lemma {:induction false} PathsCompose(u: Value, v: Value, w: Value)
    requires PathsKept(u, v) && PathsKept(v, w)
    ensures PathsKept(u, w)
  {
  }

  /** What the loop starts from. */
  lemma {:induction false} NothingDone(hdr: Fdt, d: Values)
    requires WellFormed(hdr)
    ensures Reached(hdr, d, [], hdr, d, [])
  {
  }

  /** What one call of `ufdt_apply_overlay` needs. */
  lemma {:induction false} ReadyToApply(cur: Fdt, d: Values, files: seq<OverlayFile>, first: nat, next: nat)
    requires files != [] && Loads(files[0]) && Ready(cur, d, files, first, next)
    ensures Overlay.Acceptable(cur, d) && Overlay.Acceptable(files[0].blob.value, d) && Good(files[0].blob.value, d)
    ensures Overlay.BoundedBlobs(cur, files[0].blob.value, d)
    ensures forall tag | tag in d :: tag.blob != next
  {
    hide Contents, Top, OrderlyBlob;
    FirstOfFiles(cur, d, files, first, next);
    GoodIsAcceptable(cur, d);
    GoodIsAcceptable(files[0].blob.value, d);
    OrderlyIsBounded(cur, files[0].blob.value, d);
  }

  lemma {:induction false} OrderlyIsBounded(main: Fdt, overlay: Fdt, d: Values)
    requires WellFormed(main) && OrderlyBlob(overlay, d) && main.blob != overlay.blob
    ensures Overlay.BoundedBlobs(main, overlay, d)
  {
    hide WellFormed, WellBounded, KeepsPhandles;
    forall mt, ot, table | Overlay.Loaded(main, overlay, mt, ot, table, d) ensures WellBounded(mt, table, ot, d) {
      Overlay.LoadedRecords(main, overlay, mt, ot, table, d);
      assert Orderly(mt, table, ot, d);
    }
  }

  lemma {:induction false} NextFile(files: seq<OverlayFile>, i: nat)
    requires i < |files|
    ensures files[i..] != [] && files[i..][0] == files[i] && files[i..][1..] == files[i + 1..]
    ensures Applied(files[..i + 1]) == if Loads(files[i]) then Applied(files[..i]) + [files[i].blob.value]
            else Applied(files[..i])
  {
    assert files[..i + 1][..i] == files[..i];
  }

  /** Where a run ended early: before file `at`, with the labelled trees that were to be merged. */
  datatype Stop = Stop(at: nat, main: Fdt, before: Values, mt: Linked, ot: Linked, table: seq<Entry<Addr>>)

  /** The size of the file is the one in the header of the blob. */
  predicate SizeFits(f: OverlayFile) {
    f.selected && f.blob.Some? ==> f.size == f.blob.value.totalsize
  }

  /**
   * Why a run ended early: everything before file `at` was applied, but that file has the wrong size
   * or a fixup in it does not resolve.
   */
  ghost predicate Stopped(hdr: Fdt, d0: Values, files: seq<OverlayFile>, run: seq<Step>, s: Stop) {
    && s.at < |files| && files[s.at].selected && files[s.at].blob.Some?
    && (forall i | 0 <= i < s.at :: SizeFits(files[i]))
    && Reached(hdr, d0, run, s.main, s.before, Applied(files[..s.at])) && Good(s.main, s.before)
    && var overlay := files[s.at].blob.value;
       (SizeFits(files[s.at]) ==>
          && WellFormed(overlay) && Overlay.Loaded(s.main, overlay, s.mt, s.ot, s.table, s.before)
          && Spec.UpdateReferences(s.mt, s.table, s.ot, s.before).None?)
  }

  /** A call without a result: for sizes that disagree, or because the specified result does not exist. */
  lemma {:induction false} NoResult(hdr: Fdt, d0: Values, files: seq<OverlayFile>, run: seq<Step>, s: Stop, size: nat,
                                    blob: nat, d': Values)
    requires s.at < |files| && Loads(files[s.at]) && forall i | 0 <= i < s.at :: SizeFits(files[i])
    requires Reached(hdr, d0, run, s.main, s.before, Applied(files[..s.at])) && Good(s.main, s.before)
    requires Good(files[s.at].blob.value, s.before) && size == s.main.totalsize
    requires var overlay := files[s.at].blob.value;
             size >= 8 && files[s.at].size >= 8 && files[s.at].size == overlay.totalsize ==>
               Overlay.Produced(None, blob, d', s.main, overlay, s.before, s.mt, s.ot, s.table)
    ensures Stopped(hdr, d0, files, run, s)
  {
    hide Reached, Overlay.Loaded, Spec.UpdateReferences, Sane, WellFormed, Contents;
  }

  /**
   * The loop of `apply_overlays`; `first` is the first free address for buffers. A result is reached
   * by one specified step for every selected file that could be loaded, in order, and for no other;
   * phandles are still distinct, no path was lost, and the reserve list is that of the first blob.
   * Without such a file the first blob is the result. There is no result only when the step for some
   * file is impossible.
   */
  method ApplyOverlays(mem: BlobMemory, hdr: Option<Fdt>, dtbSize: nat, files: seq<OverlayFile>, first: nat)
    returns (r: Option<Fdt>, size: nat, ghost run: seq<Step>, ghost stop: Option<Stop>, ghost idx: seq<nat>)
    requires hdr.Some? ==> Ready(hdr.value, mem.values, files, first, first) && dtbSize == hdr.value.totalsize
    modifies mem
    ensures hdr.None? ==> r.None?
    ensures r.Some? ==>
              && size == r.value.totalsize
              && Reached(hdr.value, old(mem.values), run, r.value, mem.values, Applied(files))
              && Good(r.value, mem.values)
              && forall i | 0 <= i < |files| :: SizeFits(files[i])
    ensures r.Some? ==> Picked(files, idx, OverlaysOf(run))
    ensures hdr.Some? && (forall i | 0 <= i < |files| :: !(files[i].selected && files[i].blob.Some?)) ==>
              r == hdr && size == dtbSize && run == [] && mem.values == old(mem.values)
    ensures hdr.Some? && r.None? ==>
              && stop.Some? && Stopped(hdr.value, old(mem.values), files, run, stop.value)
              && Picked(files[..stop.value.at], idx, OverlaysOf(run))
  {
    hide Ready, Reached, Good, Overlay.Produced, Overlay.BoundedBlobs, Overlay.Acceptable, Applied, Done, Chain;
    hide Overlays, WellFormed, Stopped;
    hide Picked, OverlaysOf;
    r, size, run, stop, idx := hdr, dtbSize, [], None, [];
    if hdr.None? {
      return;
    }
    ghost var d0 := mem.values;
    ReadyIsGood(hdr.value, d0, files, first, first);
    NothingDone(hdr.value, d0);
    NothingApplied(files);
    var i, next := 0, first;
    while i < |files|
      invariant i <= |files|
      invariant r.Some? && size == r.value.totalsize
      invariant Reached(hdr.value, d0, run, r.value, mem.values, Applied(files[..i]))
      invariant Ready(r.value, mem.values, files[i..], first, next)
      invariant forall j | 0 <= j < i :: SizeFits(files[j])
    {
      NextFile(files, i);
      if files[i].selected && files[i].blob.Some? {
        var main, overlay := r.value, files[i].blob.value;
        ReadyToApply(main, mem.values, files[i..], first, next);
        ReadyIsGood(main, mem.values, files[i..], first, next);
        ghost var before := mem.values;
        ghost var mt, ot, table;
        r, mt, ot, table := Overlay.UfdtApplyOverlay(mem, r, size, overlay, files[i].size, next);
        if r.None? {
          stop := Some(Stop(i, main, before, mt, ot, table));
          idx := RunPicked(hdr.value, d0, run, main, before, files[..i]);
          NoResult(hdr.value, d0, files, run, stop.value, size, next, mem.values);
          return;
        }
        size := r.value.totalsize;
        ghost var step := Step(main, overlay, before, r.value, mem.values, mt, ot, table);
        StepDone(step, next);
        StillReady(files[i..], first, next, step);
        OneMoreStep(hdr.value, d0, run, Applied(files[..i]), step);
        run := run + [step];
        next := next + 1;
      } else {
        SkipFile(r.value, mem.values, files[i..], first, next);
      }
      i := i + 1;
    }
    assert files[..i] == files;
    ReadyIsGood(r.value, mem.values, files[i..], first, next);
    idx := RunPicked(hdr.value, d0, run, r.value, mem.values, files);
  }

  /** What the end of the loop says about the files. */
  lemma {:induction false} RunPicked(hdr: Fdt, d0: Values, run: seq<Step>, r: Fdt, d: Values, files: seq<OverlayFile>)
    returns (idx: seq<nat>)
    requires Reached(hdr, d0, run, r, d, Applied(files))
    ensures Picked(files, idx, OverlaysOf(run))
    ensures (forall i | 0 <= i < |files| :: !(files[i].selected && files[i].blob.Some?)) ==>
              r == hdr && run == [] && d == d0 && r.totalsize == hdr.totalsize
  {
    hide Applied, WellFormed, Contents, PathsKept, TotalSizes, Picked, OverlaysOf, Chain, Overlays;
    ReachedParts(hdr, d0, run, r, d, Applied(files));
    idx := RunIsPicked(files, run);
    if forall i | 0 <= i < |files| :: !(files[i].selected && files[i].blob.Some?) {
      NothingSelected(hdr, d0, run, r, d, files);
    }
  }

  lemma {:induction false} ReachedParts(hdr: Fdt, d0: Values, run: seq<Step>, r: Fdt, d: Values, done: seq<Fdt>)
    requires Reached(hdr, d0, run, r, d, done)
    ensures Overlays(run, done)
  {
  }

  lemma {:induction false} ReadyIsGood(cur: Fdt, d: Values, files: seq<OverlayFile>, first: nat, next: nat)
    requires Ready(cur, d, files, first, next)
    ensures Good(cur, d) && WellFormed(cur)
  {
  }

  lemma {:induction false} NothingApplied(files: seq<OverlayFile>)
    ensures files[0..] == files && Applied(files[..0]) == []
  {
  }

  lemma {:induction false} StepDone(s: Step, blob: nat)
    requires Overlay.Produced(Some(s.result), blob, s.after, s.main, s.overlay, s.before, s.mt, s.ot, s.table)
    ensures Done(s) && s.result.blob == blob
  {
  }
}
