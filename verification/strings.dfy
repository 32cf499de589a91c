/**
 String helpers shared by the organizer model: ASCII lower-casing (the model's
 stand-in for Java's `String.toLowerCase`), the last index of a character
 (`String.lastIndexOf`), and the decimal rendering of a counter (Java's
 `"" + int` for a positive counter).
 */
module Strings {

  predicate IsUpper(c: char) {
    'A' <= c <= 'Z'
  }

  /** ASCII lower-casing of one character; everything but 'A'..'Z' is kept. */
  function LowerChar(c: char): char {
    if IsUpper(c) then (c as int + 32) as char else c
  }

  /** ASCII lower-casing of a string, character by character. */
  function Lower(s: string): (r: string)
    ensures |r| == |s|
    ensures forall i :: 0 <= i < |s| ==> r[i] == LowerChar(s[i])
  {
    if |s| == 0 then [] else Lower(s[..|s| - 1]) + [LowerChar(s[|s| - 1])]
  }

  /** A string is lower-case when lower-casing leaves it unchanged. */
  predicate IsLower(s: string) {
    forall i :: 0 <= i < |s| ==> !IsUpper(s[i])
  }

  /** Lower-casing leaves no upper-case letter and changes no character that is not one. */
  lemma LowerIsLower(s: string)
    ensures IsLower(Lower(s))
    ensures IsLower(s) ==> Lower(s) == s
  {
  }

  /** Lower-casing only ever maps '.' to '.', and nothing else to '.'. */
  lemma LowerCharDot(c: char)
    ensures LowerChar(c) == '.' <==> c == '.'
  {
  }

  /**
   Index of the last occurrence of `c` in `s`, or -1 when `c` does not occur
   (Java's `String.lastIndexOf(char)`).
   */
  function LastIndexOf(s: string, c: char): (r: int)
    ensures -1 <= r < |s|
    ensures r >= 0 ==> s[r] == c
    ensures forall k :: r < k < |s| ==> s[k] != c
  {
    if |s| == 0 then -1
    else if s[|s| - 1] == c then |s| - 1
    else LastIndexOf(s[..|s| - 1], c)
  }

  /** The last index is -1 exactly when the character does not occur. */
  lemma LastIndexOfAbsent(s: string, c: char)
    ensures LastIndexOf(s, c) == -1 <==> c !in s
  {
    if LastIndexOf(s, c) == -1 {
      forall k | 0 <= k < |s| ensures s[k] != c { }
    }
  }

  /** Lower-casing moves no dot, so the last dot is found at the same place. */
  lemma LastIndexOfDotLower(s: string)
    ensures LastIndexOf(Lower(s), '.') == LastIndexOf(s, '.')
  {
    var l := Lower(s);
    forall k | 0 <= k < |s| ensures l[k] == '.' <==> s[k] == '.' {
      LowerCharDot(s[k]);
    }
  }

  predicate IsDigit(c: char) {
    '0' <= c <= '9'
  }

  predicate AllDigits(s: string) {
    forall i :: 0 <= i < |s| ==> IsDigit(s[i])
  }

  function DigitChar(d: nat): (c: char)
    requires d < 10
    ensures IsDigit(c)
  {
    ('0' as int + d) as char
  }

  function DigitValue(c: char): (d: nat)
    requires IsDigit(c)
    ensures d < 10
  {
    c as int - '0' as int
  }

  /** Decimal rendering of a natural number: non-empty, digits only, no leading zero. */
  function NatToDecimal(n: nat): (s: string)
    ensures |s| >= 1
    ensures AllDigits(s)
    ensures s[0] == '0' <==> n == 0
    ensures |s| == 1 || s[0] != '0'
  {
    if n < 10 then [DigitChar(n)]
    else NatToDecimal(n / 10) + [DigitChar(n % 10)]
  }

  /** The number a string of decimal digits denotes. */
  function DecimalValue(s: string): nat
    requires AllDigits(s)
  {
    if |s| == 0 then 0
    else DecimalValue(s[..|s| - 1]) * 10 + DigitValue(s[|s| - 1])
  }

  /** Reading back a rendered counter gives the counter. */
  lemma {:induction false} DecimalRoundTrip(n: nat)
    ensures DecimalValue(NatToDecimal(n)) == n
  {
    var s := NatToDecimal(n);
    if n >= 10 {
      DecimalRoundTrip(n / 10);
      assert s[..|s| - 1] == NatToDecimal(n / 10);
    }
  }

  /** Distinct counters are rendered as distinct strings. */
  lemma NatToDecimalInjective(m: nat, n: nat)
    requires NatToDecimal(m) == NatToDecimal(n)
    ensures m == n
  {
    DecimalRoundTrip(m);
    DecimalRoundTrip(n);
  }
}
