/** Numbers as the code holds them: what `strtoul` reads, its truncation to `int`, and the two bounds checks. */
module Numbers {
  import opened Bytes
  import opened Trees

  const INT_LIMIT := 0x8000_0000
  const ULONG_LIMIT := 0x1_0000_0000_0000_0000

  /** Conversion to `int`: the low 32 bits, taken as signed. */
  function ToInt32(v: int): (r: int)
    ensures -INT_LIMIT <= r < INT_LIMIT
  {
    var low := v % U32_LIMIT;
    if low < INT_LIMIT then low else low - U32_LIMIT
  }

  /** The truncation is the only `int` that differs from the number by a multiple of 2^32. */
  lemma {:induction false} ToInt32Is(v: int, r: int)
    requires -INT_LIMIT <= r < INT_LIMIT
    ensures ToInt32(v) == r <==> (v - r) % U32_LIMIT == 0
  {
  }

  // ---------------------------------------------------------------- strtoul

  function Digit(c: char): int {
    c as int - '0' as int
  }

  /** A whole string of digits in base 10; nothing when another character is met. */
  function ParseNumber(s: string, acc: nat): Option<nat> {
    if s == "" then Some(acc)
    else if '0' <= s[0] <= '9' then ParseNumber(s[1..], 10 * acc + Digit(s[0]))
    else None
  }

  /** `isspace`. */
  predicate IsSpace(c: char) {
    c == ' ' || 9 <= c as int <= 13
  }

  function SkipSpace(s: string): string {
    if s != "" && IsSpace(s[0]) then SkipSpace(s[1..]) else s
  }

  /** `strtoul` in base 10, the digits saturating at the largest 64-bit number. */
  function Saturate(n: nat, negative: bool): (r: nat)
    ensures r < ULONG_LIMIT
  {
    if n >= ULONG_LIMIT then ULONG_LIMIT - 1
    else if negative then (ULONG_LIMIT - n) % ULONG_LIMIT
    else n
  }

  /** What `strtoul` returns for a string that it reads to the end; nothing for any other string. */
  function StrToUl(s: string): Option<nat> {
    var t := SkipSpace(s);
    var signed := t != "" && (t[0] == '-' || t[0] == '+');
    var digits := if signed then t[1..] else t;
    if s == "" then Some(0)
    else if digits == "" then None
    else
      var n := ParseNumber(digits, 0);
      if n.None? then None else Some(Saturate(n.value, signed && t[0] == '-'))
  }

  // ---------------------------------------------------------------- the checks

  /** The cell at a place lies inside a value of `len` bytes. */
  predicate CellInside(len: nat, offset: int) {
    0 <= offset && offset + CELL <= len
  }

  /** The check on an external fixup, where both sides are `int`. */
  predicate FixupCheck(len: nat, offset: int) {
    !(len < ToInt32(offset + CELL))
  }

  /** The check on a local fixup: an `int` offset is added up as `size_t`. */
  predicate LocalCheck(len: nat, cell: u32) {
    !((ToInt32(cell) + CELL) % ULONG_LIMIT > len)
  }

  /** What the first check lets through, and when that is a cell of the value. */
  lemma {:induction false} FixupCheckIff(len: nat, offset: int)
    requires len < INT_LIMIT && -INT_LIMIT <= offset < INT_LIMIT
    ensures FixupCheck(len, offset) <==>
              CellInside(len, offset) || (offset < 0 && offset + CELL <= len) || offset >= INT_LIMIT - CELL
    ensures FixupCheck(len, offset) ==> (CellInside(len, offset) <==> 0 <= offset < INT_LIMIT - CELL)
  {
  }

  /** The same for the second check. */
  lemma {:induction false} LocalCheckIff(len: nat, cell: u32)
    requires len < INT_LIMIT
    ensures LocalCheck(len, cell) <==>
              CellInside(len, cell) || (cell >= U32_LIMIT - CELL && cell + CELL - U32_LIMIT <= len)
    ensures LocalCheck(len, cell) ==> (CellInside(len, cell) <==> cell < U32_LIMIT - CELL)
  {
  }

  /** Both let every cell of the value through, whatever its length. */
  lemma {:induction false} InsidePasses(len: nat, offset: int)
    requires CellInside(len, offset)
    ensures offset < INT_LIMIT ==> FixupCheck(len, offset)
    ensures offset < INT_LIMIT && len < ULONG_LIMIT ==> LocalCheck(len, offset)
  {
  }

  /** Inputs for which a check and the bounds of a value of four bytes disagree. */
  lemma {:induction false} ChecksDisagree()
    ensures FixupCheck(4, -4) && !CellInside(4, -4)
    ensures FixupCheck(4, INT_LIMIT - 4) && !CellInside(4, INT_LIMIT - 4)
    ensures LocalCheck(4, U32_LIMIT - 4) && !CellInside(4, U32_LIMIT - 4)
  {
  }

  /** Reading one string after another. */
  lemma {:induction false} DigitsJoin(s: string, t: string, acc: nat)
    ensures ParseNumber(s + t, acc) == if ParseNumber(s, acc).None? then None
            else ParseNumber(t, ParseNumber(s, acc).value)
  {
    if s == "" {
      assert s + t == t;
    } else {
      assert (s + t)[1..] == s[1..] + t;
      if '0' <= s[0] <= '9' {
        DigitsJoin(s[1..], t, 10 * acc + Digit(s[0]));
      }
    }
  }
  lemma {:induction false} OneDigit(c: char, rest: string, acc: nat)
    requires '0' <= c <= '9'
    ensures ParseNumber([c] + rest, acc) == ParseNumber(rest, 10 * acc + Digit(c))
  {
    assert ([c] + rest)[1..] == rest;
  }

  lemma {:induction false} FiveDigits(a: char, b: char, c: char, d: char, e: char, acc: nat)
    requires '0' <= a <= '9' && '0' <= b <= '9' && '0' <= c <= '9' && '0' <= d <= '9' && '0' <= e <= '9'
    ensures ParseNumber([a, b, c, d, e], acc) ==
              Some(100000 * acc + 10000 * Digit(a) + 1000 * Digit(b) + 100 * Digit(c) + 10 * Digit(d) + Digit(e))
  {
    var x := 10 * acc + Digit(a);
    var y := 10 * x + Digit(b);
    var z := 10 * y + Digit(c);
    OneDigit(a, [b, c, d, e], acc);
    OneDigit(b, [c, d, e], x);
    OneDigit(c, [d, e], y);
    OneDigit(d, [e], z);
    OneDigit(e, [], 10 * z + Digit(d));
    assert [a] + [b, c, d, e] == [a, b, c, d, e] && [b] + [c, d, e] == [b, c, d, e];
    assert [c] + [d, e] == [c, d, e] && [d] + [e] == [d, e] && [e] + [] == [e];
  }

  /** A number that does not fit into an `int` is cut off: 2^32 is taken as 0, and 2^32 - 4 as -4. */
  lemma {:induction false} NumbersTruncated()
    ensures StrToUl("4294967296").Some? && ToInt32(StrToUl("4294967296").value) == 0
    ensures StrToUl("4294967292").Some? && ToInt32(StrToUl("4294967292").value) == -4
  {
    FiveDigits('4', '2', '9', '4', '9', 0);
    FiveDigits('6', '7', '2', '9', '6', 42949);
    FiveDigits('6', '7', '2', '9', '2', 42949);
    DigitsJoin("42949", "67296", 0);
    DigitsJoin("42949", "67292", 0);
    assert "4294967296" == "42949" + "67296" && "4294967292" == "42949" + "67292";
  }

  /** White space and a sign in front are skipped; anything else makes the string no number. */
  lemma {:induction false} SignsAndSpace(n: string)
    requires n != "" && forall i | 0 <= i < |n| :: '0' <= n[i] <= '9'
    ensures var v := ParseNumber(n, 0);
            && v.Some? && StrToUl(n) == StrToUl(" " + n) == StrToUl("+" + n) == Some(Saturate(v.value, false))
            && StrToUl("-" + n) == Some(Saturate(v.value, true)) && StrToUl(n + " ") == None
  {
    OnlyDigits(n, 0);
    DigitsJoin(n, " ", 0);
    assert (" " + n)[1..] == n && ("+" + n)[1..] == n && ("-" + n)[1..] == n;
    assert (n + " ")[0] == n[0];
  }

  lemma {:induction false} OnlyDigits(n: string, acc: nat)
    requires forall i | 0 <= i < |n| :: '0' <= n[i] <= '9'
    ensures ParseNumber(n, acc).Some?
  {
    if n != "" {
      OnlyDigits(n[1..], 10 * acc + Digit(n[0]));
    }
  }
}
