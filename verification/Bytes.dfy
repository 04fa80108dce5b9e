/** Big-endian 32-bit cells and NUL-terminated strings inside byte strings. */
module Bytes {

  type byte = b: int | 0 <= b < 256

  const U32_LIMIT := 0x1_0000_0000

  type u32 = v: int | 0 <= v < U32_LIMIT

  /** Size of a cell, and alignment of every token in the structure block. */
  const CELL := 4

  /** Property values are followed by zeroed padding (section 5.4.1 of the Devicetree Specification). */
  function ByteAt(d: seq<byte>, i: nat): byte {
    if i < |d| then d[i] else 0
  }

  /** `fdt32_to_cpu` of the cell at byte `i`. */
  function Get32(d: seq<byte>, i: nat): u32 {
    ByteAt(d, i) * 0x100_0000 + ByteAt(d, i + 1) * 0x1_0000 + ByteAt(d, i + 2) * 0x100 + ByteAt(d, i + 3)
  }

  /** The most significant byte comes first. */
  lemma {:induction false} BigEndian(a: byte, b: byte, c: byte, d: byte, before: seq<byte>, after: seq<byte>)
    ensures Get32(before + [a, b, c, d] + after, |before|) == ((a * 0x100 + b) * 0x100 + c) * 0x100 + d
  {
    var v := before + [a, b, c, d] + after;
    assert v[|before|] == a && v[|before| + 1] == b && v[|before| + 2] == c && v[|before| + 3] == d;
  }

  /** The four bytes of `cpu_to_fdt32`. */
  function Cell(v: u32): seq<byte> {
    [v / 0x100_0000, v / 0x1_0000 % 0x100, v / 0x100 % 0x100, v % 0x100]
  }

  /** `memcpy` of one cell into a value at byte `i`. */
  function Put32(d: seq<byte>, i: nat, v: u32): (r: seq<byte>)
    requires i + CELL <= |d|
    ensures |r| == |d|
  {
    d[..i] + Cell(v) + d[i + CELL..]
  }

  /** `uint32_t` addition. */
  function Add32(a: u32, b: u32): u32 {
    (a + b) % U32_LIMIT
  }

  /** It wraps around at most once. */
  lemma {:induction false} Add32Is(a: u32, b: u32)
    ensures Add32(a, b) == if a + b < U32_LIMIT then a + b else a + b - U32_LIMIT
  {
  }

  lemma {:induction false} CellDigits(v: u32)
    ensures Get32(Cell(v), 0) == v
  {
    var q := v / 0x100;
    assert v / 0x1_0000 == q / 0x100;
    assert v / 0x100_0000 == q / 0x100 / 0x100;
  }

  /** A cell that was written is read back. */
  lemma {:induction false} PutGet(d: seq<byte>, i: nat, v: u32)
    requires i + CELL <= |d|
    ensures Get32(Put32(d, i, v), i) == v
  {
    CellDigits(v);
    var r := Put32(d, i, v);
    assert forall k | 0 <= k < 4 :: r[i + k] == Cell(v)[k];
    assert ByteAt(r, i) == Cell(v)[0] && ByteAt(r, i + 1) == Cell(v)[1]
        && ByteAt(r, i + 2) == Cell(v)[2] && ByteAt(r, i + 3) == Cell(v)[3];
  }

  /** Writing one cell leaves every cell that does not overlap it alone. */
  lemma {:induction false} PutOther(d: seq<byte>, i: nat, v: u32, j: nat)
    requires i + CELL <= |d|
    requires j + CELL <= i || i + CELL <= j
    ensures Get32(Put32(d, i, v), j) == Get32(d, j)
  {
    var r := Put32(d, i, v);
    forall m: nat | j <= m < j + CELL ensures ByteAt(r, m) == ByteAt(d, m) {
      if i + CELL <= j && m < |d| {
        assert r[m] == d[i + CELL..][m - i - CELL];
      }
    }
  }

  /** The C string that starts a byte string: everything before the first NUL. */
  function CString(d: seq<byte>): string {
    if d == [] || d[0] == 0 then "" else [d[0] as char] + CString(d[1..])
  }
}
