/** `_png_dimensions`: the publication gate's reader for PNG files, and
    `_ihdr_dimensions`: the documentation validator's own, shorter one.  The layout
    is that of sections 3.1, 3.2 and 4.1 of RFC 2083.  The checksum and the
    decompressor are parameters. */
module Png {
  import opened Text
  import opened Numbers

  type Word = x: int | 0 <= x < 0x1_0000_0000

  const SIGNATURE: seq<Byte> := [0x89, 0x50, 0x4E, 0x47, 0x0D, 0x0A, 0x1A, 0x0A]
  const IHDR: seq<Byte> := [0x49, 0x48, 0x44, 0x52]
  const IDAT: seq<Byte> := [0x49, 0x44, 0x41, 0x54]
  const IEND: seq<Byte> := [0x49, 0x45, 0x4E, 0x44]
  /** tEXt, zTXt, iTXt, eXIf, tIME and iCCP. */
  const FORBIDDEN: set<seq<Byte>> := {
    [0x74, 0x45, 0x58, 0x74], [0x7A, 0x54, 0x58, 0x74], [0x69, 0x54, 0x58, 0x74],
    [0x65, 0x58, 0x49, 0x66], [0x74, 0x49, 0x4D, 0x45], [0x69, 0x43, 0x43, 0x50]}
  const MAX_IMAGE_PIXELS := 20_000_000

  // ---- Big-endian words ----------------------------------------------------

  function Unpack(b: seq<Byte>): Word
    requires |b| == 4
  {
    var b0: int, b1: int, b2: int, b3: int := b[0], b[1], b[2], b[3];
    b0 * 0x100_0000 + b1 * 0x1_0000 + b2 * 0x100 + b3
  }

  function Pack(w: Word): (b: seq<Byte>)
    ensures |b| == 4
  {
    [w / 0x100_0000, w / 0x1_0000 % 0x100, w / 0x100 % 0x100, w % 0x100]
  }

  lemma UnpackPack(w: Word)
    ensures Unpack(Pack(w)) == w
  {
    var low, mid, high := w / 0x100, w / 0x1_0000, w / 0x100_0000;
    assert w == low * 0x100 + w % 0x100;
    assert low == mid * 0x100 + low % 0x100;
    assert mid == high * 0x100 + mid % 0x100;
  }

  lemma PackUnpack(b: seq<Byte>)
    requires |b| == 4
    ensures Pack(Unpack(b)) == b
  {
    WordDigits(b[0], b[1], b[2], b[3]);
  }

  lemma WordDigits(b0: int, b1: int, b2: int, b3: int)
    requires 0 <= b0 < 0x100 && 0 <= b1 < 0x100 && 0 <= b2 < 0x100 && 0 <= b3 < 0x100
    ensures var w := b0 * 0x100_0000 + b1 * 0x1_0000 + b2 * 0x100 + b3;
            w / 0x100_0000 == b0 && w / 0x1_0000 % 0x100 == b1 && w / 0x100 % 0x100 == b2 && w % 0x100 == b3
  {
    var high, mid := b0 * 0x100 + b1, b0 * 0x1_0000 + b1 * 0x100 + b2;
    LastDigit(mid, b3);
    LastDigit(high, b2);
    LastDigit(b0, b1);
    var w := mid * 0x100 + b3;
    assert w / 0x100 == mid && w / 0x1_0000 == high && w / 0x100_0000 == b0;
  }

  lemma LastDigit(n: int, d: int)
    requires 0 <= d < 0x100
    ensures (n * 0x100 + d) / 0x100 == n && (n * 0x100 + d) % 0x100 == d
  {
  }

  // ---- Chunks --------------------------------------------------------------

  datatype Chunk = Chunk(kind: seq<Byte>, payload: seq<Byte>)

  predicate Shaped(c: Chunk) {
    |c.kind| == 4 && |c.payload| < 0x1_0000_0000
  }

  predicate AllShaped(cs: seq<Chunk>) {
    forall c :: c in cs ==> Shaped(c)
  }

  /** A chunk as it stands in the file: length, kind, payload, checksum. */
  function Frame(c: Chunk, crc: seq<Byte> -> Word): (f: seq<Byte>)
    requires Shaped(c)
    ensures |f| == 12 + |c.payload|
  {
    Pack(|c.payload|) + c.kind + c.payload + Pack(crc(c.kind + c.payload))
  }

  function Frames(cs: seq<Chunk>, crc: seq<Byte> -> Word): seq<Byte>
    requires AllShaped(cs)
  {
    if cs == [] then [] else Frame(cs[0], crc) + Frames(cs[1..], crc)
  }

  // ---- Verdicts ------------------------------------------------------------

  datatype Reason =
    | InvalidSignature
    | TrailingBytes
    | TruncatedChunk
    | TruncatedPayload
    | CrcMismatch
    | ForbiddenMetadata(kind: seq<Byte>)
    | InvalidIhdr
    | InvalidParameters
    | IdatPrecedesIhdr
    | InvalidIend
    | MissingEnd
    | InvalidImageData

  datatype Dimensions = Dimensions(width: Word, height: Word)

  datatype Verdict = Accepted(size: Dimensions) | Rejected(reason: Reason)

  predicate DepthFits(color: Byte, depth: Byte) {
    match color
    case 0 => depth in {1, 2, 4, 8, 16}
    case 2 => depth in {8, 16}
    case 3 => depth in {1, 2, 4, 8}
    case 4 => depth in {8, 16}
    case 6 => depth in {8, 16}
    case _ => false
  }

  /** The header fields the gate insists on. */
  predicate ValidHeader(h: seq<Byte>) {
    && |h| == 13
    && var width, height := Unpack(h[0..4]), Unpack(h[4..8]);
       && width > 0 && height > 0 && width * height <= MAX_IMAGE_PIXELS
       && DepthFits(h[9], h[8]) && h[10] == 0 && h[11] == 0 && h[12] in {0, 1}
  }

  function SizeOf(h: seq<Byte>): Dimensions
    requires |h| == 13
  {
    Dimensions(Unpack(h[0..4]), Unpack(h[4..8]))
  }

  /** What the reader remembers between chunks. */
  datatype State = State(count: nat, size: Option<Dimensions>, sawIdat: bool, sawIend: bool, image: seq<Byte>)

  const START := State(0, None, false, false, [])

  datatype Step = Go(state: State) | Stop(reason: Reason)

  /** One chunk with a correct checksum. */
  function Admit(st: State, c: Chunk): Step {
    var n := st.(count := st.count + 1);
    if c.kind in FORBIDDEN then Stop(ForbiddenMetadata(c.kind))
    else if c.kind == IHDR then
      if st.size.Some? || n.count != 1 || |c.payload| != 13 then Stop(InvalidIhdr)
      else if !ValidHeader(c.payload) then Stop(InvalidParameters)
      else Go(n.(size := Some(SizeOf(c.payload))))
    else if c.kind == IDAT then
      if st.size.None? then Stop(IdatPrecedesIhdr)
      else Go(n.(sawIdat := true, image := st.image + c.payload))
    else if c.kind == IEND then
      if c.payload != [] || !st.sawIdat then Stop(InvalidIend)
      else Go(n.(sawIend := true))
    else Go(n)
  }

  function Finish(st: State, inflates: seq<Byte> -> bool): Verdict {
    if !st.sawIend || st.size.None? then Rejected(MissingEnd)
    else if !inflates(st.image) then Rejected(InvalidImageData)
    else Accepted(st.size.value)
  }

  datatype Piece = Whole(chunk: Chunk) | Broken(reason: Reason)

  /** The chunk at the front of a nonempty byte string. */
  function Parse(rest: seq<Byte>, crc: seq<Byte> -> Word): (p: Piece)
    ensures p.Whole? ==> Shaped(p.chunk) && 12 + |p.chunk.payload| <= |rest|
  {
    if |rest| < 12 then Broken(TruncatedChunk)
    else
      var length := Unpack(rest[0..4]);
      if 12 + length > |rest| then Broken(TruncatedPayload)
      else
        var c := Chunk(rest[4..8], rest[8..8 + length]);
        if crc(c.kind + c.payload) != Unpack(rest[8 + length..12 + length]) then Broken(CrcMismatch) else Whole(c)
  }

  /** Reading on from a chunk boundary. */
  function Judge(rest: seq<Byte>, st: State, crc: seq<Byte> -> Word, inflates: seq<Byte> -> bool): Verdict
    decreases |rest|
  {
    if rest == [] then Finish(st, inflates)
    else if st.sawIend then Rejected(TrailingBytes)
    else
      match Parse(rest, crc)
      case Broken(reason) => Rejected(reason)
      case Whole(c) =>
        match Admit(st, c)
        case Stop(reason) => Rejected(reason)
        case Go(st') => Judge(rest[12 + |c.payload|..], st', crc, inflates)
  }

  function Read(data: seq<Byte>, crc: seq<Byte> -> Word, inflates: seq<Byte> -> bool): Verdict {
    if |data| < 8 || data[..8] != SIGNATURE then Rejected(InvalidSignature)
    else Judge(data[8..], START, crc, inflates)
  }

  /** The part of the loop body that cuts the next chunk out of the file. */
  method ParseAt(data: seq<Byte>, offset: nat, crc: seq<Byte> -> Word) returns (p: Piece, end: nat)
    requires offset < |data|
    ensures p == Parse(data[offset..], crc)
    ensures p.Whole? ==> end == offset + 12 + |p.chunk.payload| <= |data|
  {
    ghost var rest := data[offset..];
    end := offset;
    if |data| - offset < 12 {
      return Broken(TruncatedChunk), end;
    }
    assert rest[0..4] == data[offset..offset + 4];
    var length := Unpack(data[offset..offset + 4]);
    var kind := data[offset + 4..offset + 8];
    end := offset + 12 + length;
    if end > |data| {
      return Broken(TruncatedPayload), end;
    }
    var payload := data[offset + 8..offset + 8 + length];
    assert rest[4..8] == kind && rest[8..8 + length] == payload;
    assert rest[8 + length..12 + length] == data[offset + 8 + length..end];
    if crc(kind + payload) != Unpack(data[offset + 8 + length..end]) {
      return Broken(CrcMismatch), end;
    }
    p := Whole(Chunk(kind, payload));
  }

  /** The part of the loop body that looks at the kind of the chunk. */
  method Inspect(st: State, kind: seq<Byte>, payload: seq<Byte>) returns (step: Step)
    ensures step == Admit(st, Chunk(kind, payload))
  {
    var next := st.(count := st.count + 1);
    if kind in FORBIDDEN {
      return Stop(ForbiddenMetadata(kind));
    }
    if kind == IHDR {
      if next.size.Some? || next.count != 1 || |payload| != 13 {
        return Stop(InvalidIhdr);
      }
      if !ValidHeader(payload) {
        return Stop(InvalidParameters);
      }
      next := next.(size := Some(SizeOf(payload)));
    } else if kind == IDAT {
      if next.size.None? {
        return Stop(IdatPrecedesIhdr);
      }
      next := next.(sawIdat := true, image := next.image + payload);
    } else if kind == IEND {
      if |payload| != 0 || !next.sawIdat {
        return Stop(InvalidIend);
      }
      next := next.(sawIend := true);
    }
    return Go(next);
  }

  /** The loop of the gate over an offset and the running state. */
  method PngDimensions(data: seq<Byte>, crc: seq<Byte> -> Word, inflates: seq<Byte> -> bool) returns (v: Verdict)
    ensures v == Read(data, crc, inflates)
  {
    if |data| < 8 || data[..8] != SIGNATURE {
      return Rejected(InvalidSignature);
    }
    var offset, st := 8, START;
    ghost var goal := Read(data, crc, inflates);
    while offset < |data|
      invariant 8 <= offset <= |data|
      invariant goal == Judge(data[offset..], st, crc, inflates)
    {
      if st.sawIend {
        return Rejected(TrailingBytes);
      }
      var piece, end := ParseAt(data, offset, crc);
      if piece.Broken? {
        return Rejected(piece.reason);
      }
      assert data[offset..][end - offset..] == data[end..];
      var step := Inspect(st, piece.chunk.kind, piece.chunk.payload);
      if step.Stop? {
        return Rejected(step.reason);
      }
      offset, st := end, step.state;
    }
    if !st.sawIend || st.size.None? {
      return Rejected(MissingEnd);
    }
    if !inflates(st.image) {
      return Rejected(InvalidImageData);
    }
    return Accepted(st.size.value);
  }

  // ---- What a PNG file is --------------------------------------------------

  function Image(cs: seq<Chunk>): seq<Byte> {
    if cs == [] then [] else
    var last := cs[|cs| - 1];
    Image(cs[..|cs| - 1]) + (if last.kind == IDAT then last.payload else [])
  }

  ghost predicate HasIdat(cs: seq<Chunk>) {
    exists k :: 0 <= k < |cs| && cs[k].kind == IDAT
  }

  /** The rules every chunk obeys in its place. */
  ghost predicate Ordered(cs: seq<Chunk>) {
    forall k :: 0 <= k < |cs| ==>
      && cs[k].kind !in FORBIDDEN
      && (cs[k].kind == IHDR ==> k == 0 && ValidHeader(cs[k].payload))
      && (cs[k].kind == IDAT ==> cs[0].kind == IHDR)
      && (cs[k].kind == IEND ==> k == |cs| - 1 && cs[k].payload == [] && HasIdat(cs[..k]))
  }

  /** A complete image: a valid header first and only once, no forbidden metadata,
      image data, one empty end chunk in the last place, image data that inflates. */
  ghost predicate Complete(cs: seq<Chunk>, inflates: seq<Byte> -> bool) {
    && Ordered(cs) && cs != []
    && cs[0].kind == IHDR && cs[|cs| - 1].kind == IEND
    && inflates(Image(cs))
  }

  /** `data` is the signature and the frames of `cs`. */
  ghost predicate Serialises(data: seq<Byte>, cs: seq<Chunk>, crc: seq<Byte> -> Word) {
    AllShaped(cs) && data == SIGNATURE + Frames(cs, crc)
  }

  /** The chunks alone, without their bytes. */
  function Fold(st: State, cs: seq<Chunk>): Step
    decreases |cs|
  {
    if cs == [] then Go(st)
    else if st.sawIend then Stop(TrailingBytes)
    else
      match Admit(st, cs[0])
      case Stop(reason) => Stop(reason)
      case Go(st') => Fold(st', cs[1..])
  }

  function Conclude(s: Step, inflates: seq<Byte> -> bool): Verdict {
    match s
    case Stop(reason) => Rejected(reason)
    case Go(st) => Finish(st, inflates)
  }

  /** The checksum in a frame is over all that stands between it and the length: section 3.2
      of RFC 2083. */
  lemma FrameLayout(c: Chunk, crc: seq<Byte> -> Word)
    requires Shaped(c)
    ensures var f, n := Frame(c, crc), |c.payload|;
            && Unpack(f[0..4]) == n && f[4..8] == c.kind && f[8..8 + n] == c.payload
            && Unpack(f[8 + n..12 + n]) == crc(f[4..8 + n])
  {
    var f, n := Frame(c, crc), |c.payload|;
    UnpackPack(n);
    UnpackPack(crc(c.kind + c.payload));
    assert f[0..4] == Pack(n) && f[4..8] == c.kind && f[8..8 + n] == c.payload;
    assert f[8 + n..12 + n] == Pack(crc(c.kind + c.payload)) && f[4..8 + n] == c.kind + c.payload;
  }

  /** The first frame of a stream is read back as its chunk. */
  lemma FirstFrame(c: Chunk, rest: seq<Byte>, crc: seq<Byte> -> Word)
    requires Shaped(c)
    ensures var s := Frame(c, crc) + rest;
            s[0..4] == Pack(|c.payload|) && s[4..8] == c.kind && s[8..8 + |c.payload|] == c.payload
            && Parse(s, crc) == Whole(c) && s[12 + |c.payload|..] == rest
  {
    var s, n := Frame(c, crc) + rest, |c.payload|;
    var sum := Pack(crc(c.kind + c.payload));
    UnpackPack(n);
    UnpackPack(crc(c.kind + c.payload));
    assert s[0..4] == Pack(n);
    assert s[4..8] == c.kind;
    assert s[8..8 + n] == c.payload;
    assert s[8 + n..12 + n] == sum;
  }

  /** On serialised chunks, reading bytes is folding chunks. */
  lemma {:induction false} JudgeFrames(cs: seq<Chunk>, st: State, crc: seq<Byte> -> Word, inflates: seq<Byte> -> bool)
    requires AllShaped(cs)
    ensures Judge(Frames(cs, crc), st, crc, inflates) == Conclude(Fold(st, cs), inflates)
    decreases |cs|
  {
    if cs != [] && !st.sawIend {
      FirstFrame(cs[0], Frames(cs[1..], crc), crc);
      if Admit(st, cs[0]).Go? { JudgeFrames(cs[1..], Admit(st, cs[0]).state, crc, inflates); }
    }
  }

  lemma ParsedIsFrame(rest: seq<Byte>, crc: seq<Byte> -> Word)
    requires Parse(rest, crc).Whole?
    ensures var c := Parse(rest, crc).chunk; Frame(c, crc) + rest[12 + |c.payload|..] == rest
  {
    var n := Unpack(rest[0..4]);
    PackUnpack(rest[0..4]);
    PackUnpack(rest[8 + n..12 + n]);
    assert rest == rest[0..4] + rest[4..8] + rest[8..8 + n] + rest[8 + n..12 + n] + rest[12 + n..];
  }

  /** Whatever is accepted is serialised chunks. */
  lemma {:induction false} JudgedIsFrames(rest: seq<Byte>, st: State, crc: seq<Byte> -> Word,
                                          inflates: seq<Byte> -> bool)
    returns (cs: seq<Chunk>)
    requires Judge(rest, st, crc, inflates).Accepted?
    ensures AllShaped(cs) && rest == Frames(cs, crc)
    decreases |rest|
  {
    cs := [];
    if rest == [] {
    } else {
      var c := Parse(rest, crc).chunk;
      ParsedIsFrame(rest, crc);
      var tail := JudgedIsFrames(rest[12 + |c.payload|..], Admit(st, c).state, crc, inflates);
      cs := [c] + tail;
    }
  }

  lemma {:induction false} FoldSnoc(st: State, cs: seq<Chunk>, c: Chunk)
    ensures Fold(st, cs + [c])
         == match Fold(st, cs)
            case Stop(reason) => Stop(reason)
            case Go(mid) => if mid.sawIend then Stop(TrailingBytes) else Admit(mid, c)
    decreases |cs|
  {
    var all := cs + [c];
    if cs == [] {
      assert all[1..] == [];
    } else {
      assert all[1..] == cs[1..] + [c];
      if !st.sawIend && Admit(st, cs[0]).Go? { FoldSnoc(Admit(st, cs[0]).state, cs[1..], c); }
    }
  }

  /** The chunks that get through are those in order, and the state describes them. */
  lemma {:induction false} FoldMeans(cs: seq<Chunk>)
    ensures Fold(START, cs).Go? <==> Ordered(cs)
    ensures Ordered(cs) ==>
              var st := Fold(START, cs).state;
              && st.count == |cs| && st.image == Image(cs)
              && st.size == (if cs != [] && cs[0].kind == IHDR then Some(SizeOf(cs[0].payload)) else None)
              && (st.sawIdat <==> HasIdat(cs))
              && (st.sawIend <==> cs != [] && cs[|cs| - 1].kind == IEND)
  {
    if cs == [] {
    } else {
      var front, last := cs[..|cs| - 1], cs[|cs| - 1];
      assert cs == front + [last];
      FoldMeans(front);
      FoldSnoc(START, front, last);
      OrderedSnoc(front, last);
      HasIdatSnoc(front, last);
    }
  }

  lemma HasIdatSnoc(front: seq<Chunk>, last: Chunk)
    ensures HasIdat(front + [last]) <==> HasIdat(front) || last.kind == IDAT
  {
    var cs := front + [last];
    if HasIdat(front) {
      var k :| 0 <= k < |front| && front[k].kind == IDAT;
      assert cs[k].kind == IDAT;
    }
    if last.kind == IDAT { assert cs[|front|].kind == IDAT; }
  }

  lemma OrderedSnoc(front: seq<Chunk>, last: Chunk)
    ensures Ordered(front + [last]) <==>
              && Ordered(front)
              && (front != [] ==> front[|front| - 1].kind != IEND)
              && last.kind !in FORBIDDEN
              && (last.kind == IHDR ==> front == [] && ValidHeader(last.payload))
              && (last.kind == IDAT ==> front != [] && front[0].kind == IHDR)
              && (last.kind == IEND ==> last.payload == [] && HasIdat(front))
  {
    var cs := front + [last];
    assert cs[..|front|] == front;
    assert forall k :: 0 <= k < |front| ==> cs[k] == front[k] && cs[..k] == front[..k];
    assert cs[|front|] == last;
  }

  /** The gate accepts a byte string exactly when it is the signature followed by a
      serialised complete chunk list, and reports the size in its header. */
  lemma AcceptsExactlyImages(data: seq<Byte>, crc: seq<Byte> -> Word, inflates: seq<Byte> -> bool)
    ensures Read(data, crc, inflates).Accepted?
       <==> exists cs: seq<Chunk> :: Serialises(data, cs, crc) && Complete(cs, inflates)
    ensures forall cs: seq<Chunk> :: Serialises(data, cs, crc) && Complete(cs, inflates) ==>
              Read(data, crc, inflates) == Accepted(SizeOf(cs[0].payload))
  {
    forall cs: seq<Chunk> | Serialises(data, cs, crc) && Complete(cs, inflates)
      ensures Read(data, crc, inflates) == Accepted(SizeOf(cs[0].payload))
    {
      assert data[8..] == Frames(cs, crc);
      JudgeFrames(cs, START, crc, inflates);
      FoldMeans(cs);
    }
    if Read(data, crc, inflates).Accepted? {
      var cs := JudgedIsFrames(data[8..], START, crc, inflates);
      assert data == data[..8] + data[8..];
      JudgeFrames(cs, START, crc, inflates);
      FoldMeans(cs);
      assert Serialises(data, cs, crc) && Complete(cs, inflates);
    }
  }

  /** No byte string is the serialisation of two different chunk lists. */
  lemma {:induction false} SerialisationIsUnique(cs: seq<Chunk>, ds: seq<Chunk>, crc: seq<Byte> -> Word)
    requires AllShaped(cs) && AllShaped(ds) && Frames(cs, crc) == Frames(ds, crc)
    ensures cs == ds
  {
    if cs != [] && ds != [] {
      FirstFrame(cs[0], Frames(cs[1..], crc), crc);
      FirstFrame(ds[0], Frames(ds[1..], crc), crc);
      SerialisationIsUnique(cs[1..], ds[1..], crc);
      assert cs == [cs[0]] + cs[1..] && ds == [ds[0]] + ds[1..];
    }
  }

  // ---- The second reader ---------------------------------------------------

  // ---- What is turned down, and why ----------------------------------------

  /** Why chunk `c` may not follow `front`, told by the chunks alone. */
  function Objection(front: seq<Chunk>, c: Chunk): Reason {
    if front != [] && front[|front| - 1].kind == IEND then TrailingBytes
    else if c.kind in FORBIDDEN then ForbiddenMetadata(c.kind)
    else if c.kind == IHDR then if front != [] || |c.payload| != 13 then InvalidIhdr else InvalidParameters
    else if c.kind == IDAT then IdatPrecedesIhdr
    else InvalidIend
  }

  /** The first chunk that breaks a rule decides the reason, whatever comes behind it. */
  lemma FirstFaultIsReported(data: seq<Byte>, front: seq<Chunk>, c: Chunk, more: seq<Chunk>,
                             crc: seq<Byte> -> Word, inflates: seq<Byte> -> bool)
    requires Ordered(front) && !Ordered(front + [c]) && Serialises(data, (front + [c]) + more, crc)
    ensures Read(data, crc, inflates) == Rejected(Objection(front, c))
  {
    assert data[8..] == Frames((front + [c]) + more, crc);
    JudgeFrames((front + [c]) + more, START, crc, inflates);
    FaultStops(front, c);
    StoppedStays(START, front + [c], more);
  }

  lemma FaultStops(front: seq<Chunk>, c: Chunk)
    requires Ordered(front) && !Ordered(front + [c])
    ensures Fold(START, front + [c]) == Stop(Objection(front, c))
  {
    FoldMeans(front);
    FoldSnoc(START, front, c);
    OrderedSnoc(front, c);
  }

  lemma {:induction false} StoppedStays(st: State, cs: seq<Chunk>, more: seq<Chunk>)
    requires Fold(st, cs).Stop?
    ensures Fold(st, cs + more) == Fold(st, cs)
    decreases |cs|
  {
    assert (cs + more)[1..] == cs[1..] + more;
    if !st.sawIend && Admit(st, cs[0]).Go? { StoppedStays(Admit(st, cs[0]).state, cs[1..], more); }
  }

  /** Where every chunk keeps the rules, what is missing is the header or the end, or else
      the image data does not inflate. */
  lemma IncompleteIsReported(data: seq<Byte>, cs: seq<Chunk>, crc: seq<Byte> -> Word, inflates: seq<Byte> -> bool)
    requires Ordered(cs) && Serialises(data, cs, crc) && !Complete(cs, inflates)
    ensures Read(data, crc, inflates)
         == Rejected(if cs != [] && cs[0].kind == IHDR && cs[|cs| - 1].kind == IEND then InvalidImageData
                     else MissingEnd)
  {
    assert data[8..] == Frames(cs, crc);
    JudgeFrames(cs, START, crc, inflates);
    FoldMeans(cs);
  }

  // ---- The constants in words ----------------------------------------------

  function Ascii(b: seq<Byte>): string
    requires forall k :: 0 <= k < |b| ==> b[k] < 0x80
  {
    seq(|b|, k requires 0 <= k < |b| => b[k] as char)
  }

  /** The chunks that carry metadata, by their names. */
  lemma ForbiddenAre(kind: seq<Byte>)
    requires |kind| == 4 && forall k :: 0 <= k < 4 ==> kind[k] < 0x80
    ensures kind in FORBIDDEN <==> Ascii(kind) in ["tEXt", "zTXt", "iTXt", "eXIf", "tIME", "iCCP"]
    ensures kind == IHDR <==> Ascii(kind) == "IHDR"
    ensures kind == IDAT <==> Ascii(kind) == "IDAT"
    ensures kind == IEND <==> Ascii(kind) == "IEND"
  {
    var a := Ascii(kind);
    assert a == [a[0], a[1], a[2], a[3]] && kind == [kind[0], kind[1], kind[2], kind[3]];
  }

  /** A header states two big-endian numbers, at most 20,000,000 pixels, one of fifteen
      combinations of colour and depth, and no option but interlacing. */
  lemma HeaderIff(h: seq<Byte>)
    requires |h| == 13
    ensures var width := ((h[0] as int * 256 + h[1]) * 256 + h[2]) * 256 + h[3];
            var height := ((h[4] as int * 256 + h[5]) * 256 + h[6]) * 256 + h[7];
            (ValidHeader(h) <==>
               1 <= width && 1 <= height && width * height <= 20_000_000
               && ((h[9] as int, h[8] as int) in [(0, 1), (0, 2), (0, 4), (0, 8), (0, 16), (2, 8), (2, 16), (3, 1),
                                                  (3, 2), (3, 4), (3, 8), (4, 8), (4, 16), (6, 8), (6, 16)])
               && h[10] == 0 && h[11] == 0 && h[12] <= 1)
            && SizeOf(h) == Dimensions(width, height)
  {
    BigEndian(h[0..4]);
    BigEndian(h[4..8]);
  }

  lemma BigEndian(b: seq<Byte>)
    requires |b| == 4
    ensures Unpack(b) == ((b[0] as int * 256 + b[1]) * 256 + b[2]) * 256 + b[3]
  {
  }

  /** The image data is that of all IDAT chunks, in order. */
  lemma {:induction false} ImageOfParts(a: seq<Chunk>, b: seq<Chunk>)
    ensures Image(a + b) == Image(a) + Image(b)
  {
    if b == [] {
      assert a + b == a;
    } else {
      var n := |b| - 1;
      ImageOfParts(a, b[..n]);
      ImageSnoc(a, b, n);
    }
  }

  lemma ImageSnoc(a: seq<Chunk>, b: seq<Chunk>, n: nat)
    requires n + 1 == |b| && Image(a + b[..n]) == Image(a) + Image(b[..n])
    ensures Image(a + b) == Image(a) + Image(b)
  {
    assert (a + b)[..|a + b| - 1] == a + b[..n];
    Regroup(Image(a), Image(b[..n]), if b[n].kind == IDAT then b[n].payload else []);
  }

  lemma ImageOfOne(c: Chunk)
    ensures Image([c]) == if c.kind == IDAT then c.payload else []
  {
    assert [c][..0] == [];
  }

  /** `_ihdr_dimensions` */
  function IhdrDimensions(data: seq<Byte>): Option<Dimensions> {
    if |data| < 33 || data[..8] != SIGNATURE || data[8..12] != Pack(13) || data[12..16] != IHDR then None
    else
      var width, height := Unpack(data[16..20]), Unpack(data[20..24]);
      if width != 0 && height != 0 then Some(Dimensions(width, height)) else None
  }

  /** The second reader looks at the signature, at a first chunk that calls itself a header of
      thirteen bytes, and at the two numbers in it, which must not be zero. */
  lemma IhdrIff(data: seq<Byte>, width: Word, height: Word)
    ensures IhdrDimensions(data) == Some(Dimensions(width, height))
       <==> width > 0 && height > 0 && |data| >= 33
            && SIGNATURE + [0, 0, 0, 13] + IHDR + Pack(width) + Pack(height) <= data
  {
    var front := SIGNATURE + [0, 0, 0, 13] + IHDR + Pack(width) + Pack(height);
    UnpackPack(width);
    UnpackPack(height);
    assert Pack(13) == [0, 0, 0, 13];
    if |data| >= 33 {
      PackUnpack(data[16..20]);
      PackUnpack(data[20..24]);
      HeaderFront(data, Pack(width), Pack(height));
    }
  }

  lemma HeaderFront(data: seq<Byte>, w: seq<Byte>, h: seq<Byte>)
    requires |data| >= 33 && |w| == 4 && |h| == 4
    ensures SIGNATURE + [0, 0, 0, 13] + IHDR + w + h <= data
       <==> data[..8] == SIGNATURE && data[8..12] == [0, 0, 0, 13] && data[12..16] == IHDR
            && data[16..20] == w && data[20..24] == h
  {
    var front := SIGNATURE + [0, 0, 0, 13] + IHDR + w + h;
    var cut := data[..8] + data[8..12] + data[12..16] + data[16..20] + data[20..24];
    assert cut == data[..24];
    if front <= data {
      assert data[..24] == front;
      assert front[..8] == SIGNATURE && front[8..12] == [0, 0, 0, 13] && front[12..16] == IHDR;
      assert front[16..20] == w && front[20..24] == h;
    }
  }

  lemma HeaderIsMeasured(c: Chunk, rest: seq<Byte>, crc: seq<Byte> -> Word)
    requires Shaped(c) && c.kind == IHDR && ValidHeader(c.payload)
    ensures IhdrDimensions(SIGNATURE + (Frame(c, crc) + rest)) == Some(SizeOf(c.payload))
  {
    var s, h := Frame(c, crc) + rest, c.payload;
    var data := SIGNATURE + s;
    FirstFrame(c, rest, crc);
    assert data[..8] == SIGNATURE && data[8..12] == s[0..4] && data[12..16] == s[4..8];
    assert data[16..20] == s[8..12] && data[20..24] == s[12..16];
    var p := s[8..21];
    assert p == h;
    assert s[8..12] == p[0..4] && s[12..16] == p[4..8];
  }

  /** Two independent readers agree: what the gate accepts, the documentation
      validator measures with the same result. */
  lemma ReadersAgree(data: seq<Byte>, crc: seq<Byte> -> Word, inflates: seq<Byte> -> bool)
    requires Read(data, crc, inflates).Accepted?
    ensures IhdrDimensions(data) == Some(Read(data, crc, inflates).size)
  {
    AcceptsExactlyImages(data, crc, inflates);
    var cs: seq<Chunk> :| Serialises(data, cs, crc) && Complete(cs, inflates);
    HeaderIsMeasured(cs[0], Frames(cs[1..], crc), crc);
  }
}
