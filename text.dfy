/**
 * Character and string helpers that the bot's messages are built from:
 * decimal digits (Python's str(int) and "%02d"-style padding), ", ".join and
 * Python's notion of white space (what the regular expression \s matches).
 */
module Text {

  predicate IsDigit(c: char) { '0' <= c <= '9' }

  function DigitValue(c: char): (d: nat)
    requires IsDigit(c)
    ensures d < 10
  {
    (c as int - '0' as int) as nat
  }

  function DigitChar(d: nat): (c: char)
    requires d < 10
    ensures IsDigit(c) && DigitValue(c) == d
  {
    ('0' as int + d) as char
  }

  predicate AllDigits(s: string) { forall i :: 0 <= i < |s| ==> IsDigit(s[i]) }

  /** The value of a string of decimal digits, most significant first. */
  function DigitsValue(s: string): nat
    requires AllDigits(s)
  {
    if s == [] then 0 else 10 * DigitsValue(s[..|s| - 1]) + DigitValue(s[|s| - 1])
  }

  /** str(n) for a natural number: the shortest decimal numeral of n. */
  function NatToString(n: nat): (s: string)
    ensures |s| >= 1 && AllDigits(s)
    ensures |s| > 1 ==> s[0] != '0'
  {
    if n < 10 then [DigitChar(n)] else NatToString(n / 10) + [DigitChar(n % 10)]
  }

  /** Reading back what NatToString writes gives the number again. */
  lemma {:induction false} NatToStringValue(n: nat)
    ensures DigitsValue(NatToString(n)) == n
  {
    var s := NatToString(n);
    if n >= 10 {
      NatToStringValue(n / 10);
      assert s[..|s| - 1] == NatToString(n / 10);
    }
  }

  /** str(i) for any integer: a minus sign before the numeral of |i|. */
  function IntToString(i: int): (s: string)
    ensures |s| >= 1
    ensures i < 0 <==> s[0] == '-'
    ensures i >= 0 ==> AllDigits(s) && DigitsValue(s) == i
    ensures i < 0 ==> AllDigits(s[1..]) && DigitsValue(s[1..]) == -i
  {
    NatToStringValue(if i < 0 then -i else i);
    if i < 0 then "-" + NatToString(-i) else NatToString(i)
  }

  /** m is the decimal numeral of n, after a minus sign when n is negative. */
  predicate ReadsAsInt(m: string, n: int)
  {
    if n >= 0 then AllDigits(m) && DigitsValue(m) == n
    else |m| >= 2 && m[0] == '-' && AllDigits(m[1..]) && DigitsValue(m[1..]) == -n
  }

  lemma IntToStringReadsBack(n: int)
    ensures ReadsAsInt(IntToString(n), n)
  {
  }

  /** A slice of the right operand of a concatenation, read through the whole. */
  lemma SliceAfter(a: string, b: string, i: nat, j: nat)
    requires i <= j <= |b|
    ensures (a + b)[|a| + i..|a| + j] == b[i..j]
  {
  }

  /** A number below 100 written with exactly two digits, as "%02d" does. */
  function Pad2(n: nat): (s: string)
    requires n < 100
    ensures |s| == 2 && AllDigits(s)
    ensures 10 * DigitValue(s[0]) + DigitValue(s[1]) == n
  {
    [DigitChar(n / 10), DigitChar(n % 10)]
  }
  /** Two digits are the padding of the number they spell. */
  lemma Pad2OfDigits(s: string)
    requires |s| == 2 && AllDigits(s)
    ensures Pad2(10 * DigitValue(s[0]) + DigitValue(s[1])) == s
  {
    assert IsDigit(s[0]) && IsDigit(s[1]);
  }


  /** sep.join(parts) */
  function Join(parts: seq<string>, sep: string): (s: string)
    ensures parts == [] ==> s == ""
    ensures |parts| == 1 ==> s == parts[0]
  {
    if parts == [] then ""
    else if |parts| == 1 then parts[0]
    else parts[0] + sep + Join(parts[1..], sep)
  }

  /** With a non-empty separator, the joined string is empty only for [] and [""]. */
  lemma JoinEmpty(parts: seq<string>, sep: string)
    requires sep != ""
    ensures Join(parts, sep) == "" <==> parts == [] || parts == [""]
  {
    if |parts| > 1 {
      assert |Join(parts, sep)| >= |sep|;
    }
  }

  /**
   * The characters Python's str.isspace() accepts, which is also what \s
   * matches in a str pattern: ASCII blanks, the four information separators,
   * NEL, NO-BREAK SPACE and the Unicode space and line/paragraph separators.
   */
  predicate IsSpace(c: char)
  {
    var u := c as int;
    (0x09 <= u <= 0x0d) || (0x1c <= u <= 0x20) || u == 0x85 || u == 0xa0 || u == 0x1680
    || (0x2000 <= u <= 0x200a) || u == 0x2028 || u == 0x2029 || u == 0x202f || u == 0x205f
    || u == 0x3000
  }

  /** What is left of s after a greedy \s* at its start. */
  function StripLeadingSpace(s: string): (r: string)
    ensures |r| <= |s| && r == s[|s| - |r|..]
    ensures forall i :: 0 <= i < |s| - |r| ==> IsSpace(s[i])
    ensures r == [] || !IsSpace(r[0])
  {
    if s != [] && IsSpace(s[0]) then StripLeadingSpace(s[1..]) else s
  }
}
