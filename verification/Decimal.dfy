/** `decimalNanos` and `groupedDecimal`: an amount of nanos as a decimal with two
    places and grouped thousands. */
module Decimal {
  import opened Digits

  type Int64 = x: int | -0x8000_0000_0000_0000 <= x < 0x8000_0000_0000_0000
  type UInt64 = x: int | 0 <= x < 0x1_0000_0000_0000_0000

  function Magnitude(x: Int64): UInt64 {
    var n: int := x;
    if n < 0 then -n else n
  }

  function Reverse(s: string): (r: string)
    ensures |r| == |s| && forall k :: 0 <= k < |s| ==> r[k] == s[|s| - 1 - k]
  {
    seq(|s|, k requires 0 <= k < |s| => s[|s| - 1 - k])
  }

  /** A comma in front of every character whose place from the right is a positive
      multiple of three. */
  function Grouped(s: string): string {
    if s == "" then "" else Lead(s) + Grouped(s[1..])
  }

  /** The first digit, with the comma that may follow it. */
  function Lead(s: string): string
    requires s != ""
  {
    [s[0]] + if |s| > 1 && (|s| - 1) % 3 == 0 then "," else ""
  }

  method GroupedDecimal(value: UInt64) returns (text: string)
    ensures text == Grouped(ToString(value))
  {
    var digits := ToString(value);
    var reversed := Reverse(digits);
    var output := "";
    for index := 0 to |reversed|
      invariant Reverse(output) == Grouped(digits[|digits| - index..])
    {
      ghost var n := |digits| - index;
      ghost var rest, tail := digits[n..], digits[n - 1..];
      assert tail[0] == reversed[index] && tail[1..] == rest;
      ghost var before := output;
      if index > 0 && index % 3 == 0 {
        output := output + [','];
      }
      output := output + [reversed[index]];
      GroupedMore(before, output[|before|..], tail);
    }
    text := Reverse(output);
  }

  lemma GroupedMore(before: string, more: string, tail: string)
    requires tail != "" && Reverse(before) == Grouped(tail[1..]) && Reverse(more) == Lead(tail)
    ensures Reverse(before + more) == Grouped(tail)
  {
    ReverseAppend(before, more);
  }

  lemma ReverseAppend(a: string, b: string)
    ensures Reverse(a + b) == Reverse(b) + Reverse(a)
  {
  }

  // ---- What grouping means -------------------------------------------------

  lemma {:induction false} GroupedLength(s: string)
    requires s != ""
    ensures |Grouped(s)| == |s| + (|s| - 1) / 3
  {
    if |s| <= 1 {
    } else {
      GroupedLength(s[1..]);
    }
  }

  /** Read from the right, every fourth place holds a comma, and no other. */
  ghost predicate CommasAtFours(g: string) {
    forall k :: 0 <= k < |g| ==> (g[|g| - 1 - k] == ',' <==> k % 4 == 3)
  }

  /** Commas stand exactly behind every third digit from the right. */
  lemma {:induction false} CommasEveryThreeDigits(s: string)
    requires s != "" && forall i :: 0 <= i < |s| ==> IsDigit(s[i])
    ensures CommasAtFours(Grouped(s))
  {
    if |s| == 1 {
      GroupedOne(s);
    } else {
      GroupedLength(s[1..]);
      CommasEveryThreeDigits(s[1..]);
      FoursGrow(s, Lead(s), Grouped(s[1..]));
    }
  }

  lemma GroupedOne(s: string)
    requires |s| == 1
    ensures Grouped(s) == s
  {
    assert s[1..] == "" && s == [s[0]];
  }

  lemma FoursGrow(s: string, lead: string, rest: string)
    requires |s| > 1 && IsDigit(s[0]) && lead == Lead(s) && |rest| == |s| - 1 + (|s| - 2) / 3
    requires CommasAtFours(rest)
    ensures CommasAtFours(lead + rest)
  {
    LeadPlaces(|s|);
    forall k | 0 <= k < |lead + rest| ensures (lead + rest)[|lead + rest| - 1 - k] == ',' <==> k % 4 == 3 {
      FromTheRight(lead, rest, k);
    }
  }

  lemma FromTheRight(lead: string, rest: string, k: nat)
    requires k < |lead| + |rest|
    ensures var g := lead + rest;
            g[|g| - 1 - k] == if k < |rest| then rest[|rest| - 1 - k] else lead[|lead| - 1 - (k - |rest|)]
  {
  }

  /** Places from the right of what stands in front of the last `n - 1` of `n` digits. */
  lemma LeadPlaces(n: nat)
    requires n > 1
    ensures var k := n - 1 + (n - 2) / 3; if (n - 1) % 3 == 0 then k % 4 == 3 && (k + 1) % 4 != 3 else k % 4 != 3
  {
    var m, r := (n - 1) / 3, (n - 1) % 3;
    assert n - 1 == 3 * m + r;
    assert (n - 2) / 3 == if r == 0 then m - 1 else m;
  }

  function OnlyDigits(s: string): (d: string)
    ensures forall k :: 0 <= k < |d| ==> IsDigit(d[k])
  {
    if s == "" then "" else (if IsDigit(s[0]) then [s[0]] else "") + OnlyDigits(s[1..])
  }

  lemma {:induction false} OnlyDigitsAppend(a: string, b: string)
    ensures OnlyDigits(a + b) == OnlyDigits(a) + OnlyDigits(b)
  {
    if a == "" {
      assert a + b == b;
    } else {
      OnlyDigitsAppend(a[1..], b);
      assert (a + b)[1..] == a[1..] + b;
    }
  }

  lemma {:induction false} DigitsOfGrouped(s: string)
    requires forall i :: 0 <= i < |s| ==> IsDigit(s[i])
    ensures OnlyDigits(Grouped(s)) == s
  {
    if s == "" {
    } else {
      var comma := if |s| > 1 && (|s| - 1) % 3 == 0 then "," else "";
      DigitsOfGrouped(s[1..]);
      OnlyDigitsAppend([s[0]] + comma, Grouped(s[1..]));
      OnlyDigitsAppend([s[0]], comma);
      OnlyDigitsOfOne(s[0]);
      OnlyDigitsOfOne(',');
      assert s == [s[0]] + s[1..];
    }
  }

  // ---- Printing an amount --------------------------------------------------

  const NANOS_PER_CENT := 10_000_000

  /** Hundredths, rounded half up. */
  function HalfUp(magnitude: nat): nat {
    (magnitude + NANOS_PER_CENT / 2) / NANOS_PER_CENT
  }

  function TwoDigits(n: nat): string
    requires n < 100
  {
    [Digit(n / 10), Digit(n % 10)]
  }

  function Sign(value: Int64): string {
    if value < 0 then "-" else ""
  }

  function Printed(value: Int64): string {
    var cents := HalfUp(Magnitude(value));
    Sign(value) + Grouped(ToString(cents / 100)) + "." + TwoDigits(cents % 100)
  }

  /** The tool rounds the fraction on its own and carries into the whole; no step
      leaves 64 bits. */
  method DecimalNanos(value: Int64) returns (text: string)
    ensures text == Printed(value)
  {
    var magnitude := Magnitude(value);
    var whole: UInt64 := magnitude / 1_000_000_000;
    var fraction: UInt64 := magnitude % 1_000_000_000 + 5_000_000;
    var hundredths := fraction / 10_000_000;
    CarryIsRounding(magnitude);
    CentsParts(whole, hundredths);
    if hundredths == 100 {
      whole := whole + 1;
      hundredths := 0;
    }
    var sign := if value < 0 then "-" else "";
    var grouped := GroupedDecimal(whole);
    text := sign + grouped + "." + TwoDigits(hundredths);
  }

  lemma CarryIsRounding(magnitude: nat)
    ensures var whole, h := magnitude / 1_000_000_000, (magnitude % 1_000_000_000 + 5_000_000) / 10_000_000;
            h <= 100 && HalfUp(magnitude) == whole * 100 + h
  {
    assert magnitude == magnitude / 1_000_000_000 * 1_000_000_000 + magnitude % 1_000_000_000;
  }

  lemma CentsParts(whole: nat, h: nat)
    requires h <= 100
    ensures (whole * 100 + h) / 100 == (if h == 100 then whole + 1 else whole)
    ensures (whole * 100 + h) % 100 == (if h == 100 then 0 else h)
  {
  }

  lemma ValueOfTwoDigits(s: string, n: nat)
    requires (forall k :: 0 <= k < |s| ==> IsDigit(s[k])) && n < 100
    ensures Value(s + TwoDigits(n)) == Value(s) * 100 + n
  {
    var t := s + TwoDigits(n);
    var u := s + [Digit(n / 10)];
    assert t[..|t| - 1] == u && u[..|u| - 1] == s;
  }

  lemma DigitsOfPrinted(value: Int64)
    ensures var cents := HalfUp(Magnitude(value));
            OnlyDigits(Printed(value)) == ToString(cents / 100) + TwoDigits(cents % 100)
  {
    var cents := HalfUp(Magnitude(value));
    var digits := ToString(cents / 100);
    var grouped, two := Grouped(digits), TwoDigits(cents % 100);
    DigitsOfGrouped(digits);
    OnlyDigitsAppend(Sign(value) + grouped + ".", two);
    OnlyDigitsAppend(Sign(value) + grouped, ".");
    OnlyDigitsAppend(Sign(value), grouped);
    OnlyDigitsOfOne('-');
    OnlyDigitsOfOne('.');
    OnlyDigitsOfTwo(two);
    NothingBetween(digits, two);
  }

  lemma NothingBetween(a: string, b: string)
    ensures "" + a + "" + b == a + b
  {
  }

  lemma OnlyDigitsOfOne(c: char)
    ensures OnlyDigits([c]) == if IsDigit(c) then [c] else ""
  {
    assert [c][1..] == "";
  }

  lemma OnlyDigitsOfTwo(s: string)
    requires |s| == 2 && IsDigit(s[0]) && IsDigit(s[1])
    ensures OnlyDigits(s) == s
  {
    OnlyDigitsAppend([s[0]], [s[1]]);
    OnlyDigitsOfOne(s[0]);
    OnlyDigitsOfOne(s[1]);
    assert s == [s[0]] + [s[1]];
  }

  /** For every 64-bit amount, the smallest included: the printed digits read back as
      the magnitude in hundredths, rounded half up, and so at most half a hundredth
      away. */
  lemma PrintedReadsBack(value: Int64)
    ensures var cents := Value(OnlyDigits(Printed(value)));
            cents == HalfUp(Magnitude(value))
            && -5_000_000 < cents * NANOS_PER_CENT - Magnitude(value) <= 5_000_000
            && -5_000_000 < cents * 10_000_000 - (if value < 0 then -(value as int) else value as int) <= 5_000_000
  {
    var cents := HalfUp(Magnitude(value));
    DigitsOfPrinted(value);
    ValueOfToString(cents / 100);
    ValueOfTwoDigits(ToString(cents / 100), cents % 100);
  }

  /** Reading the printed amount from the right: two places and the point, then digits
      with a comma at every fourth place, never in front or behind the sign. */
  lemma PrintedCommas(value: Int64, k: nat)
    requires k < |Printed(value)|
    ensures var t := Printed(value);
            t[|t| - 1 - k] == ',' <==> 3 <= k < |t| - (if value < 0 then 1 else 0) && k % 4 == 2
    ensures var t := Printed(value); value < 0 ==> t[0] == '-'
    ensures var t := Printed(value); t[if value < 0 then 1 else 0] != ','
  {
    var cents := HalfUp(Magnitude(value));
    var digits := ToString(cents / 100);
    var g := Grouped(digits);
    GroupedLength(digits);
    assert g[0] == digits[0];
    CommasEveryThreeDigits(digits);
    CommaPlaces(Sign(value), g, cents % 100, k);
  }

  lemma CommaPlaces(sign: string, g: string, n: nat, k: nat)
    requires n < 100 && k < |sign| + |g| + 3 && (sign == "" || sign == "-") && g != "" && IsDigit(g[0])
    requires CommasAtFours(g)
    ensures var t := sign + g + "." + TwoDigits(n);
            && |t| == |sign| + |g| + 3 && (t[|t| - 1 - k] == ',' <==> 3 <= k < |t| - |sign| && k % 4 == 2)
            && t[|sign|] != ',' && (sign == "-" ==> t[0] == '-')
  {
    PrintedPlaces(sign, g, n, k);
    if 3 <= k < 3 + |g| {
      var j := k - 3;
      assert g[|g| - 1 - j] == ',' <==> j % 4 == 3;
    }
  }

  lemma PrintedPlaces(sign: string, g: string, n: nat, k: nat)
    requires n < 100 && k < |sign| + |g| + 3
    ensures var t := sign + g + "." + TwoDigits(n);
            |t| == |sign| + |g| + 3 && t[|sign|] == (if g == "" then '.' else g[0])
            && t[|t| - 1 - k] == if k < 2 then TwoDigits(n)[1 - k] else if k == 2 then '.'
                                 else if k < 3 + |g| then g[|g| - 1 - (k - 3)] else sign[|t| - 1 - k]
  {
  }

  /** The last two digits stand behind the point, and a sign is printed for exactly
      the negative amounts. */
  lemma PrintedShape(value: Int64)
    ensures var t := Printed(value);
            |t| >= 4 && t[|t| - 3] == '.' && IsDigit(t[|t| - 2]) && IsDigit(t[|t| - 1])
            && (t[0] == '-' <==> value < 0)
  {
    var digits := ToString(HalfUp(Magnitude(value)) / 100);
    GroupedLength(digits);
    assert Grouped(digits)[0] == digits[0];
  }
}
