/** The unflattened tree object: its blobs, its root and its phandle table; and the combined strings. */
module Ufdts {
  import opened Bytes
  import opened Blobs
  import opened Trees
  import opened Paths
  import opened Phandles
  import opened NodePool
  import opened Nodes
  import opened FdtBuffers

  class Ufdt {
    /** The blobs whose strings the tree's names point into: the first `numUsed` of `fdtps`. */
    var fdtps: array<Fdt>
    var memSize: nat
    var numUsed: nat
    var root: Addr
    var table: array<Entry<Addr>>

    ghost predicate Valid()
      reads this
    {
      numUsed <= memSize == fdtps.Length && memSize > 0
    }

    function Fdts(): seq<Fdt>
      requires Valid()
      reads this, fdtps
    {
      fdtps[..numUsed]
    }

    /** `ufdt_construct` for a blob or for none. */
    constructor (fdt: Option<Fdt>)
      ensures Valid() && Fdts() == (if fdt.None? then [] else [fdt.value])
      ensures root == NULL && fresh(fdtps) && fresh(table) && table.Length == 0
    {
      memSize, numUsed := 2, if fdt.Some? then 1 else 0;
      fdtps := new Fdt[2];
      root := NULL;
      table := new Entry<Addr>[0];
      new;
      if fdt.Some? {
        fdtps[0] := fdt.value;
      }
    }

    /** `ufdt_add_fdt`: the array of blobs doubles when it is full. */
    method AddFdt(fdt: Option<Fdt>) returns (err: int)
      requires Valid()
      modifies this, fdtps
      ensures Valid() && err == (if fdt.None? then -1 else 0)
      ensures Fdts() == old(Fdts()) + if fdt.None? then [] else [fdt.value]
      ensures root == old(root) && table == old(table)
      ensures fdtps == old(fdtps) || fresh(fdtps)
    {
      if fdt.None? {
        return -1;
      }
      var i := numUsed;
      if i >= memSize {
        var newSize := memSize * 2;
        var newFdtps := new Fdt[newSize];
        forall j | 0 <= j < memSize {
          newFdtps[j] := fdtps[j];
        }
        fdtps := newFdtps;
        memSize := newSize;
      }
      fdtps[i] := fdt.value;
      numUsed := i + 1;
      err := 0;
    }

    /** `ufdt_get_string_off`: the negative distance from the end of the combined strings, 0 when not found. */
    method GetStringOff(s: StrPtr) returns (off: int)
      requires Valid()
      ensures off == StringOff(Fdts(), s)
    {
      off := 0;
      var i := 0;
      while i < numUsed
        invariant i <= numUsed && off == -|Strtab(Fdts()[..i])|
        invariant forall j | 0 <= j < i :: !PointsInto(s, fdtps[j])
      {
        assert Fdts()[..i + 1][..i] == Fdts()[..i];
        if PointsInto(s, fdtps[i]) {
          FirstOwner(Fdts(), s, i);
          return off + s.off - |fdtps[i].strings|;
        }
        off := off - |fdtps[i].strings|;
        i := i + 1;
      }
      assert Fdts()[..i] == Fdts();
      NoOwner(Fdts(), s);
      return 0;
    }
  }

  /** `s` lies between the start and the end of the strings of `fdt`. */
  predicate PointsInto(s: StrPtr, fdt: Fdt) {
    s.fdt == fdt && s.off < |fdt.strings|
  }

  /** All strings of the blobs, the first blob's at the end. */
  function Strtab(fdts: seq<Fdt>): seq<byte> {
    if fdts == [] then [] else fdts[|fdts| - 1].strings + Strtab(fdts[..|fdts| - 1])
  }

  function Owner(fdts: seq<Fdt>, s: StrPtr): (i: nat)
    ensures i <= |fdts|
    ensures i < |fdts| ==> PointsInto(s, fdts[i])
    ensures forall j | 0 <= j < i :: !PointsInto(s, fdts[j])
    decreases |fdts|
  {
    if fdts == [] || PointsInto(s, fdts[0]) then 0 else 1 + Owner(fdts[1..], s)
  }

  function StringOff(fdts: seq<Fdt>, s: StrPtr): int {
    var i := Owner(fdts, s);
    if i == |fdts| then 0 else s.off - |fdts[i].strings| - |Strtab(fdts[..i])|
  }

  lemma {:induction false} FirstOwner(fdts: seq<Fdt>, s: StrPtr, i: nat)
    requires i < |fdts| && PointsInto(s, fdts[i]) && forall j | 0 <= j < i :: !PointsInto(s, fdts[j])
    ensures Owner(fdts, s) == i
  {
  }

  lemma {:induction false} NoOwner(fdts: seq<Fdt>, s: StrPtr)
    requires forall j | 0 <= j < |fdts| :: !PointsInto(s, fdts[j])
    ensures Owner(fdts, s) == |fdts|
  {
  }

  // ---------------------------------------------------------------- the offset denotes the string

  /** What follows the end of a terminated string does not matter to it. */
  lemma {:induction false} CStringPrefix(s: seq<byte>, t: seq<byte>)
    requires s != [] && s[|s| - 1] == 0
    ensures CString(s + t) == CString(s)
    decreases |s|
  {
    assert (s + t)[0] == s[0];
    if s[0] != 0 {
      assert (s + t)[1..] == s[1..] + t;
      CStringPrefix(s[1..], t);
    }
  }

  /** The combined strings of the first blobs sit at the end of those of all blobs. */
  lemma {:induction false} StrtabSuffix(fdts: seq<Fdt>, i: nat)
    requires i <= |fdts|
    ensures var n, k := |Strtab(fdts)|, |Strtab(fdts[..i])|;
            k <= n && Strtab(fdts)[n - k..] == Strtab(fdts[..i])
    decreases |fdts|
  {
    if i < |fdts| {
      var rest := fdts[..|fdts| - 1];
      assert rest[..i] == fdts[..i];
      StrtabSuffix(rest, i);
      var head := fdts[|fdts| - 1].strings;
      var n, k := |Strtab(fdts)|, |Strtab(fdts[..i])|;
      assert Strtab(fdts)[n - k..] == Strtab(rest)[|Strtab(rest)| - k..];
    } else {
      assert fdts[..i] == fdts;
    }
  }

  /** The computed offset is strictly negative, and the string there, in the output, is the original. */
  lemma {:induction false} StringOffDenotes(fdts: seq<Fdt>, s: StrPtr)
    requires s.fdt in fdts && s.off < |s.fdt.strings| && forall f | f in fdts :: Terminated(f)
    ensures -|Strtab(fdts)| <= StringOff(fdts, s) < 0
    ensures StringFromEnd(Strtab(fdts), StringOff(fdts, s)) == s.Text()
  {
    var i := Owner(fdts, s);
    assert i < |fdts| by {
      var j :| 0 <= j < |fdts| && fdts[j] == s.fdt;
      assert PointsInto(s, fdts[j]);
    }
    var own, before := fdts[i].strings, Strtab(fdts[..i]);
    assert fdts[..i + 1][..i] == fdts[..i];
    assert Strtab(fdts[..i + 1]) == own + before;
    StrtabSuffix(fdts, i + 1);
    var all, off := Strtab(fdts), StringOff(fdts, s);
    assert all[|all| + off..] == all[|all| - |own + before|..][s.off..];
    assert all[|all| + off..] == own[s.off..] + before;
    CStringPrefix(own[s.off..], before);
  }

  /** The combined strings are terminated like those of every blob. */
  lemma {:induction false} StrtabTerminated(fdts: seq<Fdt>)
    requires forall f | f in fdts :: Terminated(f)
    ensures Strtab(fdts) != [] ==> Strtab(fdts)[|Strtab(fdts)| - 1] == 0
    decreases |fdts|
  {
    if fdts != [] {
      var rest, last := fdts[..|fdts| - 1], fdts[|fdts| - 1];
      assert last in fdts && Terminated(last);
      StrtabTerminated(rest);
    }
  }

  /** A pointer into none of the blobs has offset 0. */
  lemma {:induction false} StringOffMissing(fdts: seq<Fdt>, s: StrPtr)
    requires forall f | f in fdts :: Terminated(f)
    ensures StringOff(fdts, s) == 0 <==> !(s.fdt in fdts && s.off < |s.fdt.strings|)
  {
    if s.fdt in fdts && s.off < |s.fdt.strings| {
      StringOffDenotes(fdts, s);
    } else {
      NoOwner(fdts, s);
    }
  }
}
