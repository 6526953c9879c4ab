/** The `%d` verb of Go's fmt.Sprintf for the non-negative lengths the server
    formats, and the decimal reading a client applies to a Content-Length
    value. */
module Fmt {

  predicate IsDigit(c: char) {
    '0' <= c <= '9'
  }

  function DigitChar(d: nat): (c: char)
    requires d < 10
    ensures IsDigit(c) && DigitValue(c) == d
  {
    ('0' as int + d) as char
  }

  function DigitValue(c: char): (d: nat)
    requires IsDigit(c)
    ensures d < 10
  {
    c as int - '0' as int
  }

  /** The value of a string of decimal digits (0 for the empty string). */
  function ParseDecimal(s: string): nat
    requires forall k :: 0 <= k < |s| ==> IsDigit(s[k])
  {
    if |s| == 0 then 0
    else 10 * ParseDecimal(s[..|s| - 1]) + DigitValue(s[|s| - 1])
  }

  /** `%d` of a non-negative integer: its shortest decimal rendering, which
      reads back as the same number. */
  function FormatDecimal(n: nat): (r: string)
    ensures |r| >= 1
    ensures forall k :: 0 <= k < |r| ==> IsDigit(r[k])
    ensures r[0] == '0' ==> r == "0"
    ensures ParseDecimal(r) == n
  {
    if n < 10 then [DigitChar(n)]
    else
      var r := FormatDecimal(n / 10) + [DigitChar(n % 10)];
      assert r[..|r| - 1] == FormatDecimal(n / 10);
      r
  }

  /** Different numbers are rendered differently. */
  lemma FormatDecimalInjective(a: nat, b: nat)
    ensures FormatDecimal(a) == FormatDecimal(b) <==> a == b
  {
  }

  /** The renderings that the server's own exchanges use. */
  lemma FormatDecimalExamples()
    ensures FormatDecimal(0) == "0"
    ensures FormatDecimal(11) == "11"
    ensures FormatDecimal(15) == "15"
    ensures FormatDecimal(17) == "17"
  {
    assert FormatDecimal(1) == "1";
    assert FormatDecimal(11) == FormatDecimal(1) + "1";
    assert FormatDecimal(15) == FormatDecimal(1) + "5";
    assert FormatDecimal(17) == FormatDecimal(1) + "7";
  }
}
