/**
 * The text conventions the decoder relies on: the decimal rendering of `%d`
 * for non-negative values, and reading a NUL-terminated C string out of a
 * character buffer.
 */
module CText {

  predicate IsDigit(c: char) {
    '0' <= c <= '9'
  }

  /** `%d` of a non-negative value: its decimal digits, most significant first. */
  function DecimalText(n: nat): (s: string)
    ensures |s| >= 1
    ensures forall i :: 0 <= i < |s| ==> IsDigit(s[i])
    ensures n < 10 <==> |s| == 1
    ensures n >= 1 ==> s[0] != '0'
  {
    if n < 10 then [Digit(n)] else DecimalText(n / 10) + [Digit(n % 10)]
  }

  function Digit(d: nat): (c: char)
    requires d < 10
    ensures IsDigit(c)
  {
    ('0' as int + d) as char
  }

  function DigitValue(c: char): (d: nat)
    requires IsDigit(c)
    ensures d < 10
  {
    c as int - '0' as int
  }

  /** The number a string of decimal digits denotes. */
  function DigitsValue(s: string): nat
    requires forall i :: 0 <= i < |s| ==> IsDigit(s[i])
  {
    if s == [] then 0 else 10 * DigitsValue(s[..|s| - 1]) + DigitValue(s[|s| - 1])
  }

  /** Decimal rendering loses nothing: reading the digits back gives the value. */
  lemma {:induction false} DecimalRoundTrip(n: nat)
    ensures DigitsValue(DecimalText(n)) == n
  {
    var s := DecimalText(n);
    if n >= 10 {
      DecimalRoundTrip(n / 10);
      assert s[..|s| - 1] == DecimalText(n / 10);
    }
  }

  /** The C string a buffer holds: everything before its first NUL. */
  function CString(buf: seq<char>): (s: string)
    ensures |s| <= |buf| && s == buf[..|s|]
    ensures '\0' !in s
    ensures |s| < |buf| ==> buf[|s|] == '\0'
  {
    if buf == [] || buf[0] == '\0' then [] else [buf[0]] + CString(buf[1..])
  }

  /** A buffer holding `s` followed by a NUL holds the C string `s`, whatever follows. */
  lemma {:induction false} CStringOfTerminated(buf: seq<char>, s: string)
    requires '\0' !in s
    requires |s| < |buf| && buf[..|s|] == s && buf[|s|] == '\0'
    ensures CString(buf) == s
  {
    if s != [] {
      assert buf[0] == s[0];
      assert buf[1..][..|s| - 1] == s[1..];
      CStringOfTerminated(buf[1..], s[1..]);
    }
  }
}
