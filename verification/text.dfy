/**
  Text primitives the code converter formats with: Java's `%d` rendering of an integer,
  runs of tab characters, and ASCII case-insensitive comparison.
 */
module Text {

  predicate IsDigit(c: char) {
    '0' <= c <= '9'
  }

  function DigitChar(d: nat): (c: char)
    requires d < 10
    ensures IsDigit(c)
  {
    (48 + d) as char
  }

  function DigitValue(c: char): (d: nat)
    requires IsDigit(c)
    ensures d < 10
  {
    c as int - 48
  }

  /** The decimal digits of `n`, most significant first, with no leading zero. */
  function NatToString(n: nat): (s: string)
    ensures |s| >= 1
    ensures forall i :: 0 <= i < |s| ==> IsDigit(s[i])
    ensures |s| > 1 ==> s[0] != '0'
  {
    if n < 10 then [DigitChar(n)] else NatToString(n / 10) + [DigitChar(n % 10)]
  }

  /** The number a string of decimal digits denotes. */
  function DigitsValue(s: string): nat
    requires forall i :: 0 <= i < |s| ==> IsDigit(s[i])
  {
    if |s| == 0 then 0 else DigitsValue(s[..|s| - 1]) * 10 + DigitValue(s[|s| - 1])
  }

  lemma {:induction false} NatToStringRoundTrip(n: nat)
    ensures DigitsValue(NatToString(n)) == n
  {
    if n >= 10 {
      var s := NatToString(n);
      assert s[..|s| - 1] == NatToString(n / 10);
      NatToStringRoundTrip(n / 10);
    }
  }

  /** Java's `String.format("%d", n)`: a minus sign for negatives, then the digits. */
  function IntToString(n: int): (s: string)
    ensures |s| >= 1
    ensures n >= 0 <==> IsDigit(s[0])
    ensures n < 0 <==> s[0] == '-'
  {
    if n >= 0 then NatToString(n) else "-" + NatToString(-n)
  }

  /** An optional minus sign followed by decimal digits. */
  predicate IsNumeral(s: string) {
    && |s| >= 1
    && (s[0] == '-' || IsDigit(s[0]))
    && forall i :: 1 <= i < |s| ==> IsDigit(s[i])
  }

  /** The inverse of `IntToString` on its image. */
  function ParseInt(s: string): int
    requires IsNumeral(s)
  {
    var magnitude: int := if s[0] == '-' then DigitsValue(s[1..]) else DigitsValue(s);
    if s[0] == '-' then 0 - magnitude else magnitude
  }

  lemma IntToStringRoundTrip(n: int)
    ensures IsNumeral(IntToString(n))
    ensures ParseInt(IntToString(n)) == n
  {
    if n >= 0 {
      NatToStringRoundTrip(n);
    } else {
      NatToStringRoundTrip(-n);
      assert IntToString(n)[1..] == NatToString(-n);
    }
  }

  /** Different integers print differently. */
  lemma IntToStringInjective(m: int, n: int)
    ensures IntToString(m) == IntToString(n) ==> m == n
  {
    IntToStringRoundTrip(m);
    IntToStringRoundTrip(n);
  }

  /** `n` tab characters. */
  function Tabs(n: nat): (s: string)
    ensures |s| == n
    ensures forall i :: 0 <= i < n ==> s[i] == '\t'
  {
    seq(n, _ => '\t')
  }

  function ToLowerAscii(c: char): char {
    if 'A' <= c <= 'Z' then (c as int + 32) as char else c
  }

  /** `String.equalsIgnoreCase` restricted to ASCII letters: same length, and equal
      characters position by position once upper-case letters are lowered. */
  predicate EqualsIgnoreCase(a: string, b: string) {
    |a| == |b| && forall i :: 0 <= i < |a| ==> ToLowerAscii(a[i]) == ToLowerAscii(b[i])
  }

  /** The comparison as the library performs it: a length check, then one character
      at a time from the front. */
  function SameIgnoringCase(a: string, b: string): (r: bool)
    ensures r <==> EqualsIgnoreCase(a, b)
  {
    if |a| != |b| then false
    else if |a| == 0 then true
    else ToLowerAscii(a[0]) == ToLowerAscii(b[0]) && SameIgnoringCase(a[1..], b[1..])
  }
}
