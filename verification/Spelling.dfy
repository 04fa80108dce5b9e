/** What bytes, paths and numbers spell, stated without the functions that read them. */
module Spelling {
  import opened Bytes
  import opened Trees
  import opened Paths
  import opened Numbers

  // ---------------------------------------------------------------- strings

  /** The bytes from `i` on are the characters of the string, and a NUL or nothing follows. */
  ghost predicate SpelledAt(d: seq<byte>, i: nat, s: string) {
    && i + |s| <= |d|
    && (forall k | i <= k < i + |s| :: d[k] != 0 && s[k - i] == d[k] as char)
    && (i + |s| < |d| ==> d[i + |s|] == 0)
  }

  lemma {:induction false} SpelledTail(d: seq<byte>, i: nat, s: string)
    requires s != "" && i < |d|
    ensures SpelledAt(d, i, s) <==> d[i] != 0 && s[0] == d[i] as char && SpelledAt(d, i + 1, s[1..])
  {
    if d[i] != 0 && s[0] == d[i] as char && SpelledAt(d, i + 1, s[1..]) {
      forall k | i <= k < i + |s| ensures d[k] != 0 && s[k - i] == d[k] as char {
        assert k > i ==> s[k - i] == s[1..][k - (i + 1)];
      }
    }
  }

  /** A C string is what stands before the first NUL, character by character. */
  lemma {:induction false} CStringReads(d: seq<byte>, i: nat)
    requires i <= |d|
    ensures SpelledAt(d, i, CString(d[i..]))
    decreases |d| - i
  {
    if i < |d| && d[i] != 0 {
      assert d[i..][1..] == d[i + 1..] && d[i..][0] == d[i];
      CStringReads(d, i + 1);
      var s := [d[i] as char] + CString(d[i + 1..]);
      assert s[1..] == CString(d[i + 1..]);
      SpelledTail(d, i, s);
    }
  }

  /** The bytes spell nothing else. */
  lemma {:induction false} SpelledOnce(d: seq<byte>, i: nat, s: string, t: string)
    requires SpelledAt(d, i, s) && SpelledAt(d, i, t)
    ensures s == t
  {
    forall k | 0 <= k < |s| && k < |t| ensures s[k] == t[k] {
      assert s[i + k - i] == d[i + k] as char && t[i + k - i] == d[i + k] as char;
    }
  }

  lemma {:induction false} CStringIs(d: seq<byte>, i: nat, s: string)
    requires SpelledAt(d, i, s)
    ensures CString(d[i..]) == s
  {
    CStringReads(d, i);
    SpelledOnce(d, i, s, CString(d[i..]));
  }

  /** The whole value is the string. */
  ghost predicate ValueSpells(d: seq<byte>, s: string) {
    SpelledAt(d, 0, s)
  }

  lemma {:induction false} TextSpelled<I>(d: map<I, seq<byte>>, i: I, s: string)
    requires ValueSpells(Val(d, i), s)
    ensures Text(d, i) == s
  {
    CStringIs(Val(d, i), 0, s);
    assert Val(d, i)[0..] == Val(d, i);
  }

  // ---------------------------------------------------------------- paths

  /** Node names: not empty and without a slash. */
  ghost predicate Plain(c: seq<string>) {
    forall k | 0 <= k < |c| :: c[k] != "" && NoChar(c[k], '/')
  }

  predicate NoChar(s: string, x: char) {
    forall i | 0 <= i < |s| :: s[i] != x
  }

  /** Each name with a slash in front. */
  function Slashed(c: seq<string>): string {
    if c == [] then "" else "/" + c[0] + Slashed(c[1..])
  }

  /** The absolute path with these components. */
  function Absolute(c: seq<string>): string {
    if c == [] then "/" else Slashed(c)
  }

  lemma {:induction false} OneSlashed(name: string)
    ensures Absolute([name]) == "/" + name
  {
    var none: seq<string> := [];
    assert [name][1..] == none && Slashed(none) == "" && Slashed([name]) == "/" + name + Slashed(none);
  }

  lemma {:induction false} SlashedComponents(c: seq<string>)
    requires Plain(c)
    ensures Components(Slashed(c)) == c
  {
    if c != [] {
      var first, rest := "/" + c[0], Slashed(c[1..]);
      assert Plain(c[1..]);
      SlashedComponents(c[1..]);
      ComponentsAppend(first, rest);
      OneComponent(first, c[0]);
      assert Slashed(c) == first + rest && [c[0]] + c[1..] == c;
    }
  }

  lemma {:induction false} AbsoluteComponents(c: seq<string>)
    requires Plain(c)
    ensures Components(Absolute(c)) == c && Absolute(c)[0] == '/'
  {
    if c == [] {
      assert Components("/") == [];
    } else {
      SlashedComponents(c);
    }
  }

  /** A path leads where descending by its components leads. */
  lemma {:induction false} AbsoluteLeads<N, I>(t: Tree<N, I>, d: map<I, seq<byte>>, c: seq<string>)
    requires Plain(c)
    ensures TreePath(t, d, Absolute(c)) == Descend(t, c)
  {
    AbsoluteComponents(c);
  }

  /**
   * An alias in front stands for the path in its value; without such an alias the path leads nowhere. An
   * alias for the root only leads to a subnode without a name: its NUL is taken for a component.
   */
  lemma {:induction false} AliasLeads<N, I>(t: Tree<N, I>, d: map<I, seq<byte>>, a: string, b: seq<string>,
                                            c: seq<string>)
    requires a != "" && NoChar(a, '/') && Plain(b) && Plain(c)
    ensures var alias := PropAt(t, ["aliases"], a);
            && (alias.None? ==> TreePath(t, d, a + Slashed(c)).None?)
            && (alias.Some? && ValueSpells(Val(d, alias.value), Absolute(b)) ==>
                  TreePath(t, d, a + Slashed(c)) == Descend(t, AliasTarget(b, Val(d, alias.value)) + c))
  {
    hide Slashed, Descend, TreePath, Components, Absolute;
    var path, alias := a + Slashed(c), PropAt(t, ["aliases"], a);
    AliasSplits(a, c);
    AliasExpands(t, d, path);
    SlashedComponents(c);
    if alias.Some? && ValueSpells(Val(d, alias.value), Absolute(b)) {
      AliasValue(Val(d, alias.value), b);
    }
  }

  /** The components that an alias value for `/b0/b1/..` has. */
  function AliasTarget(b: seq<string>, v: seq<byte>): seq<string> {
    if b == [] && |v| > 1 then [""] else b
  }

  lemma {:induction false} AliasValue(v: seq<byte>, b: seq<string>)
    requires Plain(b) && ValueSpells(v, Absolute(b))
    ensures AliasComponents(v) == AliasTarget(b, v)
  {
    hide Components, Slashed, CString;
    CStringIs(v, 0, Absolute(b));
    assert v[0..] == v;
    AbsoluteComponents(b);
    if b != [] {
      SlashedEnd(b);
    }
  }

  lemma {:induction false} SlashedEnd(c: seq<string>)
    requires Plain(c) && c != []
    ensures Slashed(c) != "" && Slashed(c)[|Slashed(c)| - 1] != '/'
  {
    var rest := Slashed(c[1..]);
    assert Slashed(c) == "/" + c[0] + rest;
    if |c| > 1 {
      SlashedEnd(c[1..]);
      assert Slashed(c)[|Slashed(c)| - 1] == rest[|rest| - 1];
    } else {
      assert rest == "";
      assert Slashed(c)[|Slashed(c)| - 1] == c[0][|c[0]| - 1];
    }
  }

  lemma {:induction false} AliasSplits(a: string, c: seq<string>)
    requires a != "" && NoChar(a, '/')
    ensures var path := a + Slashed(c);
            path[0] != '/' && IndexOf(path, '/') == |a| && path[..|a|] == a && path[|a|..] == Slashed(c)
    ensures Slashed(c) == "" || Slashed(c)[0] == '/'
  {
    var path := a + Slashed(c);
    assert forall i | 0 <= i < |a| :: path[i] == a[i];
    IndexOfIs(path, '/', |a|);
  }

  // ---------------------------------------------------------------- numbers

  const DIGITS := "0123456789"

  /** The number in base 10. */
  function Decimal(n: nat): (r: string)
    ensures r != ""
  {
    if n < 10 then [DIGITS[n]] else Decimal(n / 10) + [DIGITS[n % 10]]
  }

  lemma {:induction false} DigitOf(k: nat)
    requires k < 10
    ensures '0' <= DIGITS[k] <= '9' && Digit(DIGITS[k]) == k
  {
    assert DIGITS[0] == '0' && DIGITS[1] == '1' && DIGITS[2] == '2' && DIGITS[3] == '3' && DIGITS[4] == '4';
    assert DIGITS[5] == '5' && DIGITS[6] == '6' && DIGITS[7] == '7' && DIGITS[8] == '8' && DIGITS[9] == '9';
  }

  lemma {:induction false} DecimalParsed(n: nat)
    ensures ParseNumber(Decimal(n), 0) == Some(n)
    ensures forall i | 0 <= i < |Decimal(n)| :: '0' <= Decimal(n)[i] <= '9'
  {
    hide ParseNumber;
    DigitOf(n % 10);
    var last := [DIGITS[n % 10]];
    assert last + "" == last;
    OneDigit(DIGITS[n % 10], "", 10 * 0);
    NothingLeft(n % 10);
    if n >= 10 {
      DecimalParsed(n / 10);
      DigitsJoin(Decimal(n / 10), last, 0);
      OneDigit(DIGITS[n % 10], "", n / 10);
      NothingLeft(n);
    }
  }

  lemma {:induction false} NothingLeft(n: nat)
    ensures ParseNumber("", n) == Some(n)
  {
  }

  /** `strtoul` reads back every number that fits into it. */
  lemma {:induction false} DecimalRead(n: nat)
    requires n < ULONG_LIMIT
    ensures StrToUl(Decimal(n)) == Some(n) && NoChar(Decimal(n), ':')
    ensures n < INT_LIMIT ==> ToInt32(n) == n
  {
    hide Decimal, StrToUl, ParseNumber;
    DecimalParsed(n);
    SignsAndSpace(Decimal(n));
  }
}
