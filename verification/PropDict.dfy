/** Open-addressing index of the properties already written, keyed by name. */
module PropDicts {
  import opened Trees
  import opened FdtBuffers

  const INIT_SIZE := 4
  const HASH_BASE := 13131

  // ---------------------------------------------------------------- hashing

  /** Two's-complement truncation to `int`. */
  function ToInt32(x: int): int {
    (x + 0x8000_0000) % 0x1_0000_0000 - 0x8000_0000
  }

  function HashFrom(s: string, acc: int): int {
    if s == "" then acc else HashFrom(s[1..], ToInt32(ToInt32(acc * HASH_BASE) + s[0] as int))
  }

  /** `_ufdt_prop_dict_str_hash`. */
  method StrHash(s: string) returns (res: int)
    ensures res == HashFrom(s, 0)
  {
    res := 0;
    var i := 0;
    assert s[0..] == s;
    while i < |s|
      invariant i <= |s| && HashFrom(s[i..], res) == HashFrom(s, 0)
    {
      assert s[i..][0] == s[i] && s[i..][1..] == s[i + 1..];
      res := ToInt32(res * HASH_BASE);
      res := ToInt32(res + s[i] as int);
      i := i + 1;
    }
  }

  /** Bitwise and of a two's-complement number with a mask. */
  function BitAnd(a: int, mask: nat): nat
    decreases mask
  {
    if mask == 0 then 0 else (if a % 2 == 1 && mask % 2 == 1 then 1 else 0) + 2 * BitAnd(a / 2, mask / 2)
  }

  function Pow2(k: nat): (r: nat)
    ensures r > 0
  {
    if k == 0 then 1 else 2 * Pow2(k - 1)
  }

  /** Masking with a power of two less one is reduction modulo the power. */
  lemma {:induction false} MaskIsMod(a: int, k: nat)
    ensures BitAnd(a, Pow2(k) - 1) == a % Pow2(k)
    decreases k
  {
    if k > 0 {
      var p := Pow2(k - 1);
      assert (Pow2(k) - 1) / 2 == p - 1 && (Pow2(k) - 1) % 2 == 1;
      MaskIsMod(a / 2, k - 1);
      ModDouble(a, p);
    }
  }

  lemma {:induction false} ModDouble(a: int, p: nat)
    requires p > 0
    ensures a % (2 * p) == a % 2 + 2 * (a / 2 % p)
  {
    var h := a / 2;
    var r := a % 2 + 2 * (h % p);
    var q := h / p;
    assert h == q * p + h % p;
    assert a == 2 * h + a % 2;
    assert a == q * (2 * p) + r;
    assert 0 <= r < 2 * p;
    ModUnique(a, 2 * p, q, r);
  }

  lemma {:induction false} ModUnique(a: int, n: nat, q: int, r: int)
    requires n > 0 && a == q * n + r && 0 <= r < n
    ensures a % n == r
  {
    var d := a / n - q;
    assert a == (a / n) * n + a % n;
    assert d * n == r - a % n;
    MulAtLeast(d, n);
  }

  lemma {:induction false} MulAtLeast(d: int, n: nat)
    ensures d >= 1 ==> d * n >= n
    ensures d <= -1 ==> d * n <= -(n as int)
  {
  }

  // ---------------------------------------------------------------- probe chains

  /** A table slot: empty, or the position of a property in the structure block. */
  type Slots = seq<Option<nat>>

  /** The slot `i` probes after `home`, going around. */
  function Probe(home: nat, i: nat, size: nat): nat
    requires home < size && i <= size
  {
    if home + i < size then home + i else home + i - size
  }

  /** How many probes lead from `home` to `j`. */
  function Distance(home: nat, j: nat, size: nat): (i: nat)
    requires home < size && j < size
    ensures i < size && Probe(home, i, size) == j
  {
    if home <= j then j - home else j + size - home
  }

  function Home(name: string, size: nat): (h: nat)
    requires size > 0
    ensures h < size
  {
    HashFrom(name, 0) % size
  }

  /** No empty slot lies between the home of a name and slot `j`. */
  ghost predicate Chain(slots: Slots, name: string, j: nat)
    requires j < |slots|
  {
    forall i | 0 <= i < Distance(Home(name, |slots|), j, |slots|) :: slots[Probe(Home(name, |slots|), i, |slots|)].Some?
  }

  /** Slot `j` holds the entry of `name`, reachable from its home. */
  ghost predicate Held(slots: Slots, names: seq<string>, name: string, j: nat) {
    && j < |slots| && slots[j].Some? && slots[j].value < |names|
    && names[slots[j].value] == name && Chain(slots, name, j)
  }

  /** `at` gives the slot of every name in the table, and every used slot is accounted for. */
  ghost predicate Indexed(slots: Slots, names: seq<string>, at: map<string, nat>) {
    && (forall n | n in at :: Held(slots, names, n, at[n]))
    && (forall j | 0 <= j < |slots| && slots[j].Some? ::
          slots[j].value < |names| && names[slots[j].value] in at && at[names[slots[j].value]] == j)
  }

  /** The table as a map from names to positions. */
  ghost function ContentsOf(slots: Slots, at: map<string, nat>): map<string, nat> {
    map n | n in at && at[n] < |slots| && slots[at[n]].Some? :: slots[at[n]].value
  }

  lemma {:induction false} UsedAtMost(slots: Slots, names: seq<string>, at: map<string, nat>, n: nat, s: set<string>)
    requires Indexed(slots, names, at) && n <= |slots| && (forall j | 0 <= j < n :: slots[j].Some?)
    requires s == set j | 0 <= j < n :: names[slots[j].value]
    ensures |s| == n && s <= at.Keys
    decreases n
  {
    if n > 0 {
      var s' := set j | 0 <= j < n - 1 :: names[slots[j].value];
      UsedAtMost(slots, names, at, n - 1, s');
      var last := names[slots[n - 1].value];
      assert last !in s';
      assert s == s' + {last};
    }
  }

  lemma {:induction false} SetSize<T>(s: set<T>, t: set<T>)
    requires s <= t
    ensures |s| <= |t|
  {
    assert t == s + (t - s);
  }

  /** A table with fewer names than slots has an empty slot. */
  lemma {:induction false} HasRoom(slots: Slots, names: seq<string>, at: map<string, nat>) returns (room: nat)
    requires Indexed(slots, names, at) && |at| < |slots|
    ensures room < |slots| && slots[room].None?
  {
    if forall j | 0 <= j < |slots| :: slots[j].Some? {
      FullSize(slots, names, at);
    }
    room :| room < |slots| && slots[room].None?;
  }

  lemma {:induction false} FullSize(slots: Slots, names: seq<string>, at: map<string, nat>)
    requires Indexed(slots, names, at) && forall j | 0 <= j < |slots| :: slots[j].Some?
    ensures |at| >= |slots|
  {
    var s := set j | 0 <= j < |slots| :: names[slots[j].value];
    UsedAtMost(slots, names, at, |slots|, s);
    SetSize(s, at.Keys);
    assert |at.Keys| == |at|;
  }

  /** Where the search for a name stops. */
  ghost predicate StopsAt(slots: Slots, names: seq<string>, at: map<string, nat>, name: string, j: nat) {
    && j < |slots|
    && (name in at ==> j == at[name])
    && (name !in at ==> slots[j].None? && Chain(slots, name, j))
  }

  /** Writing an entry where the search stopped keeps the table sound. */
  lemma {:induction false} Written(slots: Slots, names: seq<string>, at: map<string, nat>, j: nat, p: nat)
    requires Indexed(slots, names, at) && p < |names| && StopsAt(slots, names, at, names[p], j)
    ensures Indexed(slots[j := Some(p)], names, at[names[p] := j])
  {
    var slots', at' := slots[j := Some(p)], at[names[p] := j];
    forall n | n in at' ensures Held(slots', names, n, at'[n]) {
      assert n in at ==> Held(slots, names, n, at[n]);
    }
  }

  /** What the new table says. */
  lemma {:induction false} WrittenContents(slots: Slots, names: seq<string>, at: map<string, nat>, j: nat, p: nat)
    requires Indexed(slots, names, at) && p < |names| && StopsAt(slots, names, at, names[p], j)
    ensures ContentsOf(slots[j := Some(p)], at[names[p] := j]) == ContentsOf(slots, at)[names[p] := p]
  {
    forall n | n in at ensures Held(slots, names, n, at[n]) && (at[n] == j ==> n == names[p]) {
    }
    hide Held, Chain, Indexed;
  }

  lemma {:induction false} WrittenSize(slots: Slots, names: seq<string>, at: map<string, nat>, j: nat, p: nat)
    requires Indexed(slots, names, at) && p < |names| && StopsAt(slots, names, at, names[p], j)
    ensures |at[names[p] := j]| == if slots[j].None? then |at| + 1 else |at|
  {
    if names[p] in at {
      assert Held(slots, names, names[p], at[names[p]]);
      assert at[names[p] := j] == at;
    } else {
      assert at[names[p] := j].Keys == at.Keys + {names[p]};
    }
  }

  /** New tokens behind the indexed ones change nothing. */
  lemma {:induction false} NamesGrow(slots: Slots, names: seq<string>, names': seq<string>, at: map<string, nat>)
    requires Indexed(slots, names, at) && names <= names'
    ensures Indexed(slots, names', at)
  {
    forall n | n in at ensures Held(slots, names', n, at[n]) {
      assert Held(slots, names, n, at[n]);
    }
  }

  /** Masking the hash gives the home slot. */
  lemma {:induction false} HomeIsMasked(name: string, k: nat)
    ensures Pow2(k) > 0
            && BitAnd(HashFrom(name, 0), Pow2(k) - 1) == Home(name, Pow2(k)) == Probe(Home(name, Pow2(k)), 0, Pow2(k))
  {
    hide BitAnd, HashFrom, Pow2;
    MaskIsMod(HashFrom(name, 0), k);
  }

  /** Masking the successor gives the next probe. */
  lemma {:induction false} NextProbe(home: nat, i: nat, k: nat)
    requires home < Pow2(k) && i < Pow2(k)
    ensures var idx, idx' := Probe(home, i, Pow2(k)), Probe(home, i + 1, Pow2(k));
            BitAnd(idx + 1, Pow2(k) - 1) == idx' < Pow2(k)
  {
    hide BitAnd, Pow2;
    var idx := Probe(home, i, Pow2(k));
    MaskIsMod(idx + 1, k);
    if idx + 1 < Pow2(k) {
      ModUnique(idx + 1, Pow2(k), 0, idx + 1);
    } else {
      ModUnique(idx + 1, Pow2(k), 1, 0);
    }
  }

  /** The first `i` probes met other names. */
  ghost predicate Missed(slots: Slots, names: seq<string>, name: string, i: nat) {
    && 0 < |slots| && i <= |slots|
    && forall j | 0 <= j < i ::
         var p := slots[Probe(Home(name, |slots|), j, |slots|)]; p.Some? && p.value < |names| && names[p.value] != name
  }

  /** `_ufdt_prop_dict_find_index_by_name`, for a table of size `2^k`; -1 only for a full table without the name. */
  method FindIndexByName(props: array<Option<nat>>, fdtp: FdtBuffer, name: string, ghost k: nat,
                         ghost names: seq<string>, ghost at: map<string, nat>) returns (idx: int)
    requires names == fdtp.Names()
    requires props.Length == Pow2(k) && Indexed(props[..], names, at)
    ensures idx >= 0 ==> StopsAt(props[..], names, at, name, idx)
    ensures idx < 0 ==> idx == -1 && name !in at && forall j | 0 <= j < props.Length :: props[j].Some?
  {
    hide FdtBuffer.Names, Chain, Held, BitAnd, Pow2, Missed, Indexed, Probe, Home;
    var hash := StrHash(name);
    var size := props.Length;
    idx := BitAnd(hash, size - 1);
    HomeIsMasked(name, k);
    ghost var slots, home := props[..], Home(name, size);
    NoneMissed(slots, names, name);
    var i := 0;
    while i < size
      invariant i <= size && 0 <= idx < size && idx == Probe(home, i, size)
      invariant Missed(slots, names, name, i)
    {
      if props[idx].None? {
        NotHeld(slots, names, at, name, i);
        return;
      }
      SlotKnown(slots, names, at, idx);
      if fdtp.NameOf(props[idx].value) == name {
        return;
      }
      OneMoreMissed(slots, names, name, i);
      NextProbe(home, i, k);
      idx := BitAnd(idx + 1, size - 1);
      i := i + 1;
    }
    AllMissed(slots, names, at, name);
    return -1;
  }

  /** A used slot belongs to the name of the property in it. */
  lemma {:induction false} SlotKnown(slots: Slots, names: seq<string>, at: map<string, nat>, j: nat)
    requires Indexed(slots, names, at) && j < |slots| && slots[j].Some?
    ensures slots[j].value < |names| && names[slots[j].value] in at && at[names[slots[j].value]] == j
  {
  }

  lemma {:induction false} NoneMissed(slots: Slots, names: seq<string>, name: string)
    requires 0 < |slots|
    ensures Missed(slots, names, name, 0)
  {
  }

  lemma {:induction false} OneMoreMissed(slots: Slots, names: seq<string>, name: string, i: nat)
    requires Missed(slots, names, name, i) && i < |slots|
    requires var p := slots[Probe(Home(name, |slots|), i, |slots|)];
             p.Some? && p.value < |names|
             && names[p.value] != name
    ensures Missed(slots, names, name, i + 1)
  {
  }

  /** When every probe missed, no slot is empty and none holds the name. */
  lemma {:induction false} AllMissed(slots: Slots, names: seq<string>, at: map<string, nat>, name: string)
    requires Missed(slots, names, name, |slots|) && Indexed(slots, names, at)
    ensures name !in at && forall j | 0 <= j < |slots| :: slots[j].Some?
  {
    forall j | 0 <= j < |slots| ensures slots[j].Some? && slots[j].value < |names| && names[slots[j].value] != name {
      assert slots[Probe(Home(name, |slots|), Distance(Home(name, |slots|), j, |slots|), |slots|)] == slots[j];
    }
    assert name in at ==> Held(slots, names, name, at[name]);
  }

  /** The first empty slot from the home of a name: the name is not in the table. */
  lemma {:induction false} NotHeld(slots: Slots, names: seq<string>, at: map<string, nat>, name: string, i: nat)
    requires Missed(slots, names, name, i) && Indexed(slots, names, at)
    requires i < |slots| && slots[Probe(Home(name, |slots|), i, |slots|)].None?
    ensures name !in at && Chain(slots, name, Probe(Home(name, |slots|), i, |slots|))
  {
    if name in at {
      assert Held(slots, names, name, at[name]);
      SlotsDiffer(slots, names, name, at[name], i);
    }
  }

  /** A slot that holds the name lies beyond the misses and before the first empty slot. */
  lemma {:induction false} SlotsDiffer(slots: Slots, names: seq<string>, name: string, j: nat, i: nat)
    requires Missed(slots, names, name, i) && Held(slots, names, name, j) && i < |slots|
    ensures slots[Probe(Home(name, |slots|), i, |slots|)].Some?
  {
    var home := Home(name, |slots|);
    var d := Distance(home, j, |slots|);
    assert slots[Probe(home, d, |slots|)] == slots[j];
    assert i <= d;
  }

  // ---------------------------------------------------------------- the dictionary

  /** More than two thirds of the slots are used. */
  predicate Crowded(numUsed: int, memSize: int) {
    numUsed * 3 > memSize * 2
  }

  lemma {:induction false} Roomier(numUsed: int, memSize: int)
    requires !Crowded(numUsed - 1, memSize) && memSize >= 2
    ensures !Crowded(numUsed, 2 * memSize)
  {
  }

  class PropDict {
    const fdtp: FdtBuffer
    var memSize: nat
    var numUsed: nat
    var props: array<Option<nat>>

    /** The table size is `2^k`; `at` is the slot of every name. */
    ghost var k: nat
    ghost var at: map<string, nat>

    ghost predicate Sound()
      reads this, fdtp, props
    {
      && INIT_SIZE <= memSize == props.Length == Pow2(k)
      && Indexed(props[..], fdtp.Names(), at)
      && numUsed == |at| < memSize
    }

    ghost predicate Valid()
      reads this, fdtp, props
    {
      Sound() && !Crowded(numUsed, memSize)
    }

    /** The dictionary as a map from names to positions in the structure block. */
    ghost function Contents(): map<string, nat>
      reads this, props
    {
      ContentsOf(props[..], at)
    }

    constructor (fdtp: FdtBuffer)
      ensures Valid() && this.fdtp == fdtp && Contents() == map[] && fresh(props)
      ensures memSize == INIT_SIZE && numUsed == 0
    {
      this.fdtp := fdtp;
      memSize, numUsed := INIT_SIZE, 0;
      props := new Option<nat>[INIT_SIZE](_ => None);
      k, at := 2, map[];
      new;
      assert Pow2(1) == 2;
    }

    /** `ufdt_prop_dict_find`. */
    method Find(name: string) returns (r: Option<nat>)
      requires Valid()
      ensures r == if name in Contents() then Some(Contents()[name]) else None
    {
      ghost var names := fdtp.Names();
      var idx := FindIndexByName(props, fdtp, name, k, names, at);
      if idx < 0 {
        return None;
      }
      assert name in at ==> Held(props[..], names, name, at[name]);
      r := props[idx];
    }

    /** Stores a property under its name, in place of an earlier one. */
    method Put(prop: nat) returns (err: int)
      requires Sound() && prop < |fdtp.structure|
      modifies `numUsed, `at, props
      ensures err == 0
      ensures numUsed == |at| <= old(numUsed) + 1
      ensures Indexed(props[..], fdtp.Names(), at)
      ensures Contents() == old(Contents())[fdtp.NameOf(prop) := prop]
    {
      hide Indexed, ContentsOf, StopsAt, FdtBuffer.Names, FdtBuffer.NameOf, Pow2;
      ghost var names := fdtp.Names();
      ghost var slots := props[..];
      ghost var room := HasRoom(slots, names, at);
      var name := fdtp.NameOf(prop);
      var idx := FindIndexByName(props, fdtp, name, k, names, at);
      assert props[room].None?;
      if idx < 0 {
        return -1;
      }
      StopsInside(slots, names, at, name, idx);
      Written(slots, names, at, idx, prop);
      WrittenContents(slots, names, at, idx, prop);
      WrittenSize(slots, names, at, idx, prop);
      if props[idx].None? {
        numUsed := numUsed + 1;
      }
      props[idx] := Some(prop);
      assert props[..] == slots[idx := Some(prop)];
      at := at[name := idx];
      return 0;
    }

    /** `ufdt_prop_dict_add`. */
    method Add(prop: nat) returns (err: int)
      requires Valid() && prop < |fdtp.structure|
      modifies this, props
      ensures err == 0 && Valid()
      ensures Contents() == old(Contents())[fdtp.NameOf(prop) := prop]
      ensures props == old(props) || fresh(props)
    {
      hide Indexed, ContentsOf, FdtBuffer.Names, FdtBuffer.NameOf, Pow2;
      err := Put(prop);
      if err < 0 {
        return -1;
      }
      err := EnlargeIfNeeded();
    }

    /** The entries, hashed into a new table of twice the size. */
    method Rehash() returns (temp: array<Option<nat>>, ghost at': map<string, nat>, err: int)
      requires Sound()
      ensures err == 0 && fresh(temp) && temp.Length == 2 * memSize
      ensures Indexed(temp[..], fdtp.Names(), at') && |at'| == |at|
      ensures ContentsOf(temp[..], at') == Contents()
    {
      hide Pow2, Indexed, ContentsOf, StopsAt, MovedUpTo, FdtBuffer.Names, FdtBuffer.NameOf;
      ghost var names, slots := fdtp.Names(), props[..];
      temp := new Option<nat>[2 * memSize](_ => None);
      Doubled(k);
      at' := map[];
      err := 0;
      var i := 0;
      NoneMoved(slots, temp[..], names, at);
      while i < memSize
        invariant i <= memSize
        invariant MovedUpTo(slots, temp[..], names, at, at', i)
        modifies temp
        decreases memSize - i
      {
        var prop := props[i];
        if prop.Some? {
          ghost var room := MovedRoom(slots, temp[..], names, at, at', i);
          var idx := FindIndexByName(temp, fdtp, fdtp.NameOf(prop.value), k + 1, names, at');
          assert temp[room].None?;
          if idx < 0 {
            err := -1;
            return;
          }
          StopsInside(temp[..], names, at', names[prop.value], idx);
          OneMoreMoved(slots, temp[..], names, at, at', i, idx);
          ghost var before := temp[..];
          temp[idx] := prop;
          assert temp[..] == before[idx := prop];
          at' := at'[fdtp.NameOf(prop.value) := idx];
        } else {
          NothingToMove(slots, temp[..], names, at, at', i);
        }
        i := i + 1;
      }
      AllMoved(slots, temp[..], names, at, at');
    }

    /** `_ufdt_prop_dict_enlarge_if_needed`. */
    method EnlargeIfNeeded() returns (err: int)
      requires Sound() && !Crowded(numUsed - 1, memSize)
      modifies this
      ensures err == 0 && Valid()
      ensures Contents() == old(Contents())
      ensures props == old(props) || fresh(props)
    {
      hide Indexed, ContentsOf, FdtBuffer.Names, FdtBuffer.NameOf, Pow2, Crowded;
      if !Crowded(numUsed, memSize) {
        return 0;
      }
      Doubled(k);
      Roomier(numUsed, memSize);
      var newSize := 2 * memSize;
      var temp;
      ghost var at';
      temp, at', err := Rehash();
      if err < 0 {
        return -1;
      }
      Install(temp, at', newSize);
    }

    /** `dict->props = temp_dict.props`. */
    method Install(temp: array<Option<nat>>, ghost at': map<string, nat>, newSize: nat)
      requires temp.Length == newSize == Pow2(k + 1) && INIT_SIZE <= newSize
      requires Indexed(temp[..], fdtp.Names(), at') && numUsed == |at'| < newSize
      modifies `memSize, `props, `k, `at
      ensures Sound() && memSize == newSize && props == temp
      ensures Contents() == ContentsOf(temp[..], at')
    {
      hide Indexed, ContentsOf, FdtBuffer.Names, Pow2;
      memSize := newSize;
      props := temp;
      k, at := k + 1, at';
    }
  }

  lemma {:induction false} Doubled(k: nat)
    ensures Pow2(k + 1) == 2 * Pow2(k)
  {
  }

  lemma {:induction false} StopsInside(slots: Slots, names: seq<string>, at: map<string, nat>, name: string, j: nat)
    requires StopsAt(slots, names, at, name, j)
    ensures j < |slots|
  {
  }

  // ---------------------------------------------------------------- rehashing

  /** The entries of the first `i` old slots are in the new table. */
  ghost predicate MovedUpTo(slots: Slots, temp: Slots, names: seq<string>, at: map<string, nat>, at': map<string, nat>,
                            i: nat) {
    && Indexed(slots, names, at) && Indexed(temp, names, at')
    && (forall n | n in at' :: n in at && at[n] < i && temp[at'[n]] == slots[at[n]])
    && (forall n | n in at && at[n] < i :: n in at')
  }

  lemma {:induction false} NoneMoved(slots: Slots, temp: Slots, names: seq<string>, at: map<string, nat>)
    requires Indexed(slots, names, at) && forall j | 0 <= j < |temp| :: temp[j].None?
    ensures MovedUpTo(slots, temp, names, at, map[], 0)
  {
  }

  lemma {:induction false} MovedRoom(slots: Slots, temp: Slots, names: seq<string>, at: map<string, nat>,
                                     at': map<string, nat>, i: nat)
    returns (room: nat)
    requires MovedUpTo(slots, temp, names, at, at', i) && i < |slots| && slots[i].Some? && |at| < |temp|
    ensures slots[i].value < |names| && room < |temp| && temp[room].None?
    ensures Indexed(temp, names, at')
  {
    SetSize(at'.Keys, at.Keys);
    room := HasRoom(temp, names, at');
  }

  lemma {:induction false} OneMoreMoved(slots: Slots, temp: Slots, names: seq<string>, at: map<string, nat>,
                                        at': map<string, nat>, i: nat, j: nat)
    requires MovedUpTo(slots, temp, names, at, at', i) && i < |slots| && slots[i].Some?
    requires slots[i].value < |names| && StopsAt(temp, names, at', names[slots[i].value], j)
    ensures MovedUpTo(slots, temp[j := slots[i]], names, at, at'[names[slots[i].value] := j], i + 1)
  {
    var p := slots[i].value;
    Written(temp, names, at', j, p);
    assert at[names[p]] == i;
    forall n | n in at && at[n] < i + 1 ensures n == names[p] || n in at' {
      assert Held(slots, names, n, at[n]);
    }
    forall n | n in at' && n != names[p] ensures at'[n] != j {
      assert Held(temp, names, n, at'[n]);
    }
  }

  lemma {:induction false} NothingToMove(slots: Slots, temp: Slots, names: seq<string>, at: map<string, nat>,
                                         at': map<string, nat>, i: nat)
    requires MovedUpTo(slots, temp, names, at, at', i) && i < |slots| && slots[i].None?
    ensures MovedUpTo(slots, temp, names, at, at', i + 1)
  {
    forall n | n in at ensures at[n] != i {
      assert Held(slots, names, n, at[n]);
    }
  }

  lemma {:induction false} AllMoved(slots: Slots, temp: Slots, names: seq<string>, at: map<string, nat>,
                                    at': map<string, nat>)
    requires MovedUpTo(slots, temp, names, at, at', |slots|)
    ensures Indexed(temp, names, at') && |at'| == |at| && ContentsOf(temp, at') == ContentsOf(slots, at)
  {
    forall n | n in at ensures n in at' {
      assert Held(slots, names, n, at[n]);
    }
    assert at'.Keys == at.Keys;
    assert |at'| == |at'.Keys| && |at| == |at.Keys|;
    forall n | n in at ensures at'[n] < |temp| && temp[at'[n]].Some? {
      assert Held(temp, names, n, at'[n]);
      assert Held(slots, names, n, at[n]);
    }
  }
}
