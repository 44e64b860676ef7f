/** Decimal rendering of integers, as String.format's %d writes them, and its inverse. */
module Text {

  function DigitChar(d: nat): (c: char)
    requires d < 10
    ensures '0' <= c <= '9'
    ensures DigitValue(c) == d
  {
    "0123456789"[d]
  }

  /** The value of a decimal digit character. */
  function DigitValue(c: char): (d: nat)
    requires '0' <= c <= '9'
    ensures d < 10
  {
    c as int - '0' as int
  }

  /** A non-empty run of decimal digits. */
  predicate IsNumeral(s: string)
  {
    |s| >= 1 && forall i :: 0 <= i < |s| ==> '0' <= s[i] <= '9'
  }

  /** A numeral, optionally preceded by one '-'. */
  predicate IsIntText(s: string)
  {
    IsNumeral(s) || (|s| >= 2 && s[0] == '-' && IsNumeral(s[1..]))
  }

  /** The value of a numeral, read most significant digit first. */
  function ParseNat(s: string): nat
    requires IsNumeral(s)
    decreases |s|
  {
    if |s| == 1 then DigitValue(s[0])
    else 10 * ParseNat(s[..|s| - 1]) + DigitValue(s[|s| - 1])
  }

  /** The value of an optionally signed numeral. */
  function ParseInt(s: string): int
    requires IsIntText(s)
  {
    if IsNumeral(s) then ParseNat(s) else -(ParseNat(s[1..]) as int)
  }

  /** The decimal digits of n, most significant first, with no leading zero; reading them back gives n. */
  function NatToString(n: nat): (s: string)
    ensures IsNumeral(s)
    ensures n >= 10 ==> s[0] != '0'
    ensures ParseNat(s) == n
    decreases n
  {
    if n < 10 then [DigitChar(n)]
    else
      var s := NatToString(n / 10) + [DigitChar(n % 10)];
      assert s[..|s| - 1] == NatToString(n / 10);
      s
  }

  /** %d of a Java int: a leading '-' for negative values; reading it back gives i. */
  function IntToString(i: int): (s: string)
    ensures IsIntText(s)
    ensures i < 0 <==> s[0] == '-'
    ensures ParseInt(s) == i
  {
    if i < 0 then
      var s := "-" + NatToString(-i);
      assert s[1..] == NatToString(-i);
      s
    else NatToString(i)
  }

  /** The five parts of a concatenation can be cut back out of it. */
  lemma ConcatSlices(a: string, b: string, c: string, d: string, e: string)
    ensures var r := a + b + c + d + e;
      |r| == |a| + |b| + |c| + |d| + |e|
      && r[..|a|] == a && r[|a|..|a| + |b|] == b && r[|a| + |b|..|a| + |b| + |c|] == c
      && r[|a| + |b| + |c|..|r| - |e|] == d && r[|r| - |e|..] == e
  {
    var r := a + b + c + d + e;
    assert r == a + (b + (c + (d + e)));
  }
}
