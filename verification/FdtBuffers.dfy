/**
 * The output buffer of the sequential-write functions of libfdt. The structure block grows from the
 * front; the strings sit at the very end, and until the buffer is finished names are addressed by
 * negative offsets from that end.
 */
module FdtBuffers {
  import opened Bytes
  import opened Blobs

  // ---------------------------------------------------------------- tokens and their sizes

  /** A token with its name spelled out. */
  datatype Flat = FlatBegin(name: string) | FlatProp(name: string, data: seq<byte>) | FlatEnd

  function Align4(n: nat): (r: nat)
    ensures n <= r < n + 4 && r % 4 == 0
  {
    (n + 3) / 4 * 4
  }

  /** Bytes of a token in the structure block. */
  function FlatSize(f: Flat): nat {
    match f
    case FlatBegin(name) => 4 + Align4(|name| + 1)
    case FlatProp(_, data) => 12 + Align4(|data|)
    case FlatEnd => 4
  }

  function FlatSizes(s: seq<Flat>): nat {
    if s == [] then 0 else FlatSizes(s[..|s| - 1]) + FlatSize(s[|s| - 1])
  }

  lemma {:induction false} FlatSizesAppend(s: seq<Flat>, t: seq<Flat>)
    ensures FlatSizes(s + t) == FlatSizes(s) + FlatSizes(t)
    decreases t
  {
    if t == [] {
      assert s + t == s;
    } else {
      assert (s + t)[..|s + t| - 1] == s + t[..|t| - 1];
      FlatSizesAppend(s, t[..|t| - 1]);
    }
  }

  lemma {:induction false} OneSize(f: Flat)
    ensures FlatSizes([f]) == FlatSize(f)
  {
    assert [f][..0] == [];
  }

  // ---------------------------------------------------------------- the bytes of a token

  /** Zeros up to the next multiple of four. */
  function Padded(bytes: seq<byte>): seq<byte>
    decreases (4 - |bytes| % 4) % 4
  {
    if |bytes| % 4 == 0 then bytes else Padded(bytes + [0])
  }

  function NameBytes(name: string): seq<byte> {
    seq(|name|, i requires 0 <= i < |name| => name[i] as int % 0x100)
  }

  /** What section 5.4.1 of the Devicetree Specification stores for a token. */
  function Encoded(f: Flat, nameoff: u32): seq<byte> {
    match f
    case FlatBegin(name) => Cell(1) + Padded(NameBytes(name) + [0])
    case FlatProp(_, data) => Cell(3) + Cell(|data| % U32_LIMIT) + Cell(nameoff) + Padded(data)
    case FlatEnd => Cell(2)
  }

  lemma {:induction false} PaddedSize(bytes: seq<byte>)
    ensures |Padded(bytes)| == Align4(|bytes|)
    decreases (4 - |bytes| % 4) % 4
  {
    if |bytes| % 4 != 0 {
      PaddedSize(bytes + [0]);
    }
  }

  /** Those are as many bytes as were counted. */
  lemma {:induction false} EncodedSize(f: Flat, nameoff: u32)
    ensures |Encoded(f, nameoff)| == FlatSize(f)
  {
    match f
    case FlatBegin(name) => PaddedSize(NameBytes(name) + [0]);
    case FlatProp(_, data) => PaddedSize(data);
    case FlatEnd =>
  }

  /** A token as it is stored. */
  datatype Token = BeginToken(name: string) | PropToken(nameoff: int, data: seq<byte>) | EndToken

  /** The C string `-off` bytes before the end. */
  function StringFromEnd(strings: seq<byte>, off: int): string {
    if -|strings| <= off < 0 then CString(strings[|strings| + off..]) else ""
  }

  function Spell(token: Token, strings: seq<byte>): Flat {
    match token
    case BeginToken(name) => FlatBegin(name)
    case PropToken(nameoff, data) => FlatProp(StringFromEnd(strings, nameoff), data)
    case EndToken => FlatEnd
  }

  function SpellAll(structure: seq<Token>, strings: seq<byte>): (r: seq<Flat>)
    ensures |r| == |structure|
    ensures forall i | 0 <= i < |structure| :: r[i] == Spell(structure[i], strings)
  {
    seq(|structure|, i requires 0 <= i < |structure| => Spell(structure[i], strings))
  }

  /** The names of all properties in a structure block, by position. */
  function NamesOf(structure: seq<Token>, strings: seq<byte>): (r: seq<string>)
    ensures |r| == |structure|
    ensures forall i | 0 <= i < |structure| ::
              r[i] == if structure[i].PropToken? then StringFromEnd(strings, structure[i].nameoff) else ""
  {
    seq(|structure|, i requires 0 <= i < |structure| =>
      if structure[i].PropToken? then StringFromEnd(strings, structure[i].nameoff) else "")
  }

  // ---------------------------------------------------------------- the buffer

  /** The header, rounded up to the size of a reserve entry. */
  const RESERVE_START := 48
  const RESERVE_SIZE := 16

  class FdtBuffer {
    const totalsize: nat
    var reserve: seq<Reserve>
    /** `off_dt_struct` and `size_dt_struct`. */
    var offStruct: nat
    var sizeStruct: nat
    var structure: seq<Token>
    /** The bytes at the end of the buffer, and `size_dt_strings`. */
    var strings: seq<byte>
    var sizeStrings: nat
    /** Every token so far was written below the strings. */
    ghost var apart: bool

    /** `fdt_create`. */
    constructor (totalsize: nat)
      ensures this.totalsize == totalsize && reserve == [] && structure == [] && strings == []
      ensures offStruct == RESERVE_START && sizeStruct == 0 && sizeStrings == 0 && apart
    {
      this.totalsize := totalsize;
      reserve, structure, strings := [], [], [];
      offStruct, sizeStruct, sizeStrings, apart := RESERVE_START, 0, 0, true;
    }

    /** `fdt_string` with the strings at the end: `nameoff` counts back from the end of the buffer. */
    function String(nameoff: int): string
      reads this
    {
      StringFromEnd(strings, nameoff)
    }

    /** The name of the property at position `p` of the structure block. */
    function NameOf(p: nat): string
      reads this
    {
      if p < |structure| && structure[p].PropToken? then String(structure[p].nameoff) else ""
    }

    /** The names of all properties in the structure block, by position. */
    ghost function Names(): (r: seq<string>)
      reads this
      ensures |r| == |structure|
      ensures forall p | 0 <= p < |structure| :: r[p] == NameOf(p)
    {
      NamesOf(structure, strings)
    }

    /** The structure block with names spelled out. */
    ghost function Text(): seq<Flat>
      reads this
    {
      SpellAll(structure, strings)
    }

    /** Room for `n` more bytes of structure below the strings. */
    ghost predicate Fits(n: nat)
      reads this
    {
      offStruct + sizeStruct + n + sizeStrings <= totalsize
    }

    /** Adds a reserve entry in front of the structure block; the caller ignores a lack of space. */
    method AddReserveEntry(r: Reserve) returns (err: int)
      modifies `reserve, `offStruct
      ensures err == if old(offStruct) + RESERVE_SIZE > totalsize then -1 else 0
      ensures err == 0 ==> reserve == old(reserve) + [r] && offStruct == old(offStruct) + RESERVE_SIZE
      ensures err != 0 ==> reserve == old(reserve) && offStruct == old(offStruct)
    {
      if offStruct + RESERVE_SIZE > totalsize {
        return -1;
      }
      reserve := reserve + [r];
      offStruct := offStruct + RESERVE_SIZE;
      err := 0;
    }

    /** Appends a token that takes `size` bytes. */
    method Append(token: Token, size: nat)
      modifies `structure, `sizeStruct, `apart
      ensures structure == old(structure) + [token] && sizeStruct == old(sizeStruct) + size
      ensures Text() == old(Text()) + [Spell(token, strings)]
      ensures apart == (old(apart) && old(Fits(size)))
    {
      apart := apart && Fits(size);
      structure := structure + [token];
      sizeStruct := sizeStruct + size;
    }

    /** `fdt_begin_node`. */
    method BeginNode(name: string) returns (err: int)
      modifies `structure, `sizeStruct, `apart
      ensures err == if old(Fits(FlatSize(FlatBegin(name)))) then 0 else -1
      ensures err == 0 ==>
                && structure == old(structure) + [BeginToken(name)]
                && sizeStruct == old(sizeStruct) + FlatSize(FlatBegin(name))
                && Text() == old(Text()) + [FlatBegin(name)] && apart == old(apart)
    {
      if offStruct + sizeStruct + 4 + Align4(|name| + 1) + sizeStrings > totalsize {
        return -1;
      }
      Append(BeginToken(name), 4 + Align4(|name| + 1));
      err := 0;
    }

    /** `fdt_end_node`. */
    method EndNode() returns (err: int)
      modifies `structure, `sizeStruct, `apart
      ensures err == if old(Fits(4)) then 0 else -1
      ensures err == 0 ==>
                && structure == old(structure) + [EndToken] && sizeStruct == old(sizeStruct) + 4
                && Text() == old(Text()) + [FlatEnd] && apart == old(apart)
    {
      if offStruct + sizeStruct + 4 + sizeStrings > totalsize {
        return -1;
      }
      Append(EndToken, 4);
      err := 0;
    }
  }
}
