/** Decimal digits of a natural number, as `str(n)` and `String(n)` write them. */
module Digits {

  predicate IsDigit(c: char) {
    '0' <= c <= '9'
  }

  function Digit(d: nat): (c: char)
    requires d < 10
    ensures IsDigit(c)
  {
    '0' + d as char
  }

  function ToString(n: nat): (s: string)
    ensures s != "" && forall k :: 0 <= k < |s| ==> IsDigit(s[k])
  {
    if n < 10 then [Digit(n)] else ToString(n / 10) + [Digit(n % 10)]
  }

  function DigitValue(c: char): (d: nat)
    requires IsDigit(c)
    ensures d < 10
  {
    (c - '0') as nat
  }

  /** Reading digits back, most significant first. */
  function Value(s: string): nat
    requires forall k :: 0 <= k < |s| ==> IsDigit(s[k])
  {
    if s == "" then 0 else Value(s[..|s| - 1]) * 10 + DigitValue(s[|s| - 1])
  }

  /** Writing and reading back gives the number, and no leading zero is written. */
  lemma {:induction false} ValueOfToString(n: nat)
    ensures Value(ToString(n)) == n
    ensures (ToString(n)[0] == '0' ==> n == 0) && (n < 10 ==> |ToString(n)| == 1)
  {
    if n < 10 {
      assert ToString(n)[..0] == "";
    } else {
      ValueOfToString(n / 10);
      assert ToString(n)[..|ToString(n)| - 1] == ToString(n / 10);
      assert ToString(n)[0] == ToString(n / 10)[0];
    }
  }
}
