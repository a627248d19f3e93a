/** `apply_output_budget`: clip a text to a number of UTF-8 bytes.

    The bytes are cut anywhere and decoded again with errors ignored, so the proof is
    about a decoder for arbitrary bytes: the well-formed sequences of section 4 of RFC
    3629, and the longest possible ill-formed piece dropped otherwise. */
module OutputBudget {
  import opened Numbers

  // ---- Encoding ------------------------------------------------------------

  function Encode(c: char): (b: seq<Byte>)
    ensures 1 <= |b| <= 4
  {
    var k := c as int;
    if k < 0x80 then [k]
    else if k < 0x800 then [0xC0 + k / 0x40, 0x80 + k % 0x40]
    else if k < 0x1_0000 then [0xE0 + k / 0x1000, 0x80 + k / 0x40 % 0x40, 0x80 + k % 0x40]
    else [0xF0 + k / 0x4_0000, 0x80 + k / 0x1000 % 0x40, 0x80 + k / 0x40 % 0x40, 0x80 + k % 0x40]
  }

  /** `text.encode("utf-8")` */
  function EncodeAll(text: string): seq<Byte> {
    if text == "" then [] else Encode(text[0]) + EncodeAll(text[1..])
  }

  // ---- Decoding with errors ignored ----------------------------------------

  predicate Continues(b: Byte) {
    0x80 <= b < 0xC0
  }

  /** The second bytes a lead byte allows: no overlong form, no surrogate, nothing
      beyond the last scalar value. */
  predicate Second(lead: Byte, b: Byte) {
    Continues(b)
    && (lead == 0xE0 ==> b >= 0xA0) && (lead == 0xED ==> b < 0xA0)
    && (lead == 0xF0 ==> b >= 0x90) && (lead == 0xF4 ==> b < 0x90)
  }

  /** What a byte carries besides its marker. */
  function Bits(b: Byte, marker: int): int {
    var n: int := b;
    n - marker
  }

  datatype Unit = Char(c: char, width: nat) | Skip(width: nat)

  /** The unit at the front of some bytes. */
  function DecodeOne(b: seq<Byte>): (u: Unit)
    requires b != []
    ensures 1 <= u.width <= |b|
  {
    var b0 := b[0];
    if b0 < 0x80 then Char(b0 as char, 1)
    else if 0xC2 <= b0 < 0xE0 then
      if |b| < 2 || !Continues(b[1]) then Skip(1)
      else Char((Bits(b0, 0xC0) * 0x40 + Bits(b[1], 0x80)) as char, 2)
    else if 0xE0 <= b0 < 0xF0 then
      if |b| < 2 || !Second(b0, b[1]) then Skip(1)
      else if |b| < 3 || !Continues(b[2]) then Skip(2)
      else Char((Bits(b0, 0xE0) * 0x1000 + Bits(b[1], 0x80) * 0x40 + Bits(b[2], 0x80)) as char, 3)
    else if 0xF0 <= b0 < 0xF5 then
      if |b| < 2 || !Second(b0, b[1]) then Skip(1)
      else if |b| < 3 || !Continues(b[2]) then Skip(2)
      else if |b| < 4 || !Continues(b[3]) then Skip(3)
      else Char((Bits(b0, 0xF0) * 0x4_0000 + Bits(b[1], 0x80) * 0x1000 + Bits(b[2], 0x80) * 0x40
                 + Bits(b[3], 0x80)) as char, 4)
    else Skip(1)
  }

  /** `b.decode("utf-8", errors="ignore")` */
  function DecodeIgnoring(b: seq<Byte>): string
    decreases |b|
  {
    if b == [] then ""
    else
      match DecodeOne(b)
      case Char(c, width) => [c] + DecodeIgnoring(b[width..])
      case Skip(width) => DecodeIgnoring(b[width..])
  }

  // ---- The budget ----------------------------------------------------------

  datatype Output = Output(text: string, truncated: bool, bytes: nat)

  function Clip(b: seq<Byte>, limit: int): seq<Byte> {
    if |b| <= Max0(limit) then b else b[..Max0(limit)]
  }

  function ApplyOutputBudget(content: string, inlineLimit: int, enabled: bool): Output {
    var encoded := EncodeAll(content);
    if !enabled || |encoded| <= inlineLimit then Output(content, false, |encoded|)
    else Output(DecodeIgnoring(Clip(encoded, inlineLimit)), true, |encoded|)
  }

  // ---- Laws ----------------------------------------------------------------

  /** A whole encoded character is read back, whatever follows. */
  lemma EncodedIsDecoded(c: char, rest: seq<Byte>)
    ensures DecodeOne(Encode(c) + rest) == Char(c, |Encode(c)|)
  {
    var k := c as int;
    var b := Encode(c) + rest;
    if k < 0x80 {
    } else if k < 0x800 {
      assert b[0] == 0xC0 + k / 0x40 && b[1] == 0x80 + k % 0x40;
      assert k / 0x40 * 0x40 + k % 0x40 == k;
    } else if k < 0x1_0000 {
      ThreeBytes(c, b);
    } else {
      FourBytes(c, b);
    }
  }

  lemma ThreeBytes(c: char, b: seq<Byte>)
    requires 0x800 <= c as int < 0x1_0000 && Encode(c) <= b
    ensures DecodeOne(b) == Char(c, 3)
  {
    var k := c as int;
    ThreeParts(k);
    assert b[0] == 0xE0 + k / 0x1000 && b[1] == 0x80 + k / 0x40 % 0x40 && b[2] == 0x80 + k % 0x40;
    assert !(0xD800 <= k < 0xE000);
  }

  lemma FourBytes(c: char, b: seq<Byte>)
    requires 0x1_0000 <= c as int && Encode(c) <= b
    ensures DecodeOne(b) == Char(c, 4)
  {
    var k := c as int;
    FourParts(k);
    assert b[0] == 0xF0 + k / 0x4_0000 && b[1] == 0x80 + k / 0x1000 % 0x40;
    assert b[2] == 0x80 + k / 0x40 % 0x40 && b[3] == 0x80 + k % 0x40;
  }

  lemma ThreeParts(k: nat)
    ensures k == k / 0x1000 * 0x1000 + k / 0x40 % 0x40 * 0x40 + k % 0x40
  {
    var a, b := k / 0x40, k / 0x1000;
    assert k == a * 0x40 + k % 0x40;
    assert a == b * 0x40 + a % 0x40;
  }

  lemma FourParts(k: nat)
    ensures k == k / 0x4_0000 * 0x4_0000 + k / 0x1000 % 0x40 * 0x1000 + k / 0x40 % 0x40 * 0x40 + k % 0x40
  {
    ThreeParts(k);
    var b := k / 0x1000;
    assert b == b / 0x40 * 0x40 + b % 0x40;
    assert b / 0x40 == k / 0x4_0000;
  }

  /** A character cut short leaves nothing behind. */
  lemma CutIsDropped(c: char, n: nat)
    requires n < |Encode(c)|
    ensures DecodeIgnoring(Encode(c)[..n]) == ""
  {
    var k := c as int;
    var b := Encode(c)[..n];
    if n > 0 {
      if k >= 0x1_0000 { FourParts(k); } else if k >= 0x800 { ThreeParts(k); }
      assert DecodeOne(b) == Skip(n);
      assert b[n..] == [];
    }
  }

  /** Encoding and decoding a whole text gives the text. */
  lemma {:induction false} RoundTrip(text: string)
    ensures DecodeIgnoring(EncodeAll(text)) == text
  {
    if text == "" {
    } else {
      EncodedIsDecoded(text[0], EncodeAll(text[1..]));
      RoundTrip(text[1..]);
      assert (Encode(text[0]) + EncodeAll(text[1..]))[|Encode(text[0])|..] == EncodeAll(text[1..]);
    }
  }

  /** `r` is the longest prefix of `text` whose encoding fits in `limit` bytes. */
  ghost predicate LongestFitting(r: string, text: string, limit: nat) {
    && r <= text && |EncodeAll(r)| <= limit
    && forall p :: p <= text && |EncodeAll(p)| <= limit ==> |p| <= |r|
  }

  lemma {:induction false} CutAndDecode(text: string, limit: nat)
    requires limit <= |EncodeAll(text)|
    ensures LongestFitting(DecodeIgnoring(EncodeAll(text)[..limit]), text, limit)
  {
    if text == "" {
      assert EncodeAll(text)[..limit] == [];
    } else {
      var c, rest := text[0], text[1..];
      var w := |Encode(c)|;
      var b := EncodeAll(text)[..limit];
      if limit < w {
        assert b == Encode(c)[..limit];
        CutIsDropped(c, limit);
        assert "" <= text;
        forall p | p <= text && p != "" ensures |EncodeAll(p)| >= w {
          assert p[0] == c;
        }
      } else {
        CutAndDecode(rest, limit - w);
        var tail := EncodeAll(rest)[..limit - w];
        assert b == Encode(c) + tail;
        EncodedIsDecoded(c, tail);
        assert b[w..] == tail;
        LongestCons(c, DecodeIgnoring(tail), rest, limit);
      }
    }
  }

  lemma LongestCons(c: char, r: string, rest: string, limit: nat)
    requires |Encode(c)| <= limit && LongestFitting(r, rest, limit - |Encode(c)|)
    ensures LongestFitting([c] + r, [c] + rest, limit)
  {
    assert ([c] + r)[1..] == r && ([c] + rest)[1..] == rest;
    forall p | p <= [c] + rest && |EncodeAll(p)| <= limit ensures |p| <= |[c] + r| {
      if p != "" {
        assert p == ([c] + rest)[..|p|];
        assert p[0] == c && p[1..] == rest[..|p| - 1];
        assert |EncodeAll(p[1..])| <= limit - |Encode(c)|;
      }
    }
  }

  /** The text returned is the longest prefix of whole characters that fits the
      budget; it is the whole text exactly when nothing is marked as truncated, and the
      byte count is always that of the whole text. */
  lemma BudgetKeepsLongestPrefix(content: string, inlineLimit: int, enabled: bool)
    ensures var out := ApplyOutputBudget(content, inlineLimit, enabled);
            && out.bytes == |EncodeAll(content)|
            && (out.truncated <==> enabled && |EncodeAll(content)| > inlineLimit)
            && (!out.truncated ==> out.text == content)
            && (out.truncated ==> LongestFitting(out.text, content, Max0(inlineLimit)))
            && (out.truncated && content != "" ==> out.text < content)
  {
    if enabled && |EncodeAll(content)| > inlineLimit {
      if |EncodeAll(content)| > Max0(inlineLimit) {
        CutAndDecode(content, Max0(inlineLimit));
        var r := DecodeIgnoring(EncodeAll(content)[..Max0(inlineLimit)]);
        assert r != content;
      } else {
        RoundTrip(content);
      }
    }
  }
}
