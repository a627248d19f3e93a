/** `strip_hash_prose`: the comment stripper for SQL (`--`) and shell (`#`).

    Each line is scanned on its own, and quoted markers do not count. */
module HashProse {
  import opened Text

  /** No quote is open, or the character that will close the open one. */
  type Quote = Option<char>

  predicate MarkedAt(line: string, marker: string, i: nat) {
    i + |marker| <= |line| && line[i..i + |marker|] == marker
  }

  /** Where the first marker outside quotes stands, if there is one. */
  function CutAt(line: string, marker: string, i: nat, quote: Quote): (cut: Option<nat>)
    requires i <= |line|
    ensures cut.Some? ==> i <= cut.value <= |line| && MarkedAt(line, marker, cut.value)
    decreases |line| - i
  {
    if i == |line| then None
    else
      match quote
      case Some(q) =>
        if line[i] == '\\' && i + 1 < |line| then CutAt(line, marker, i + 2, quote)
        else CutAt(line, marker, i + 1, if line[i] == q then None else quote)
      case None =>
        if line[i] == '\'' || line[i] == '"' then CutAt(line, marker, i + 1, Some(line[i]))
        else if MarkedAt(line, marker, i) then Some(i)
        else CutAt(line, marker, i + 1, None)
  }

  datatype Kept = Kept(lines: seq<string>, removed: nat)

  /** The lines that survive, and the number of comments cut. */
  function KeepLines(lines: seq<string>, marker: string): Kept {
    if lines == [] then Kept([], 0) else
    var last := |lines| - 1;
    KeepOne(KeepLines(lines[..last], marker), lines[last], marker)
  }

  function KeepOne(kept: Kept, line: string, marker: string): Kept {
    match CutAt(line, marker, 0, None)
    case None => kept.(lines := kept.lines + [RStrip(line)])
    case Some(cut) =>
      var code := RStrip(line[..cut]);
      Kept(if code == "" then kept.lines else kept.lines + [code], kept.removed + 1)
  }

  function Strip(source: string, marker: string): (string, nat) {
    var kept := KeepLines(SplitLines(source), marker);
    (Reassemble(kept.lines, EndsWithNewline(source)), kept.removed)
  }

  /** The inner loop: copy the line up to its comment. */
  method ScanLine(line: string, marker: string) returns (out: string, cut: bool)
    ensures |out| <= |line| && out == line[..|out|]
    ensures CutAt(line, marker, 0, None) == if cut then Some(|out|) else None
    ensures !cut ==> out == line
  {
    out := "";
    var quote: Quote := None;
    var i, n := 0, |line|;
    cut := false;
    while i < n
      invariant 0 <= i <= n
      invariant out == line[..i]
      invariant CutAt(line, marker, 0, None) == CutAt(line, marker, i, quote)
    {
      var ch := line[i];
      if quote.Some? {
        out := out + [ch];
        if ch == '\\' && i + 1 < n {
          out := out + [line[i + 1]];
          i := i + 2;
          continue;
        }
        if ch == quote.value {
          quote := None;
        }
        i := i + 1;
        continue;
      }
      if ch == '\'' || ch == '"' {
        quote := Some(ch);
        out := out + [ch];
        i := i + 1;
        continue;
      }
      if MarkedAt(line, marker, i) {
        cut := true;
        break;
      }
      out := out + [ch];
      i := i + 1;
    }
  }

  /** The body of the outer loop: what becomes of one line. */
  method KeepLine(line: string, marker: string, kept: seq<string>, removed: nat)
    returns (kept': seq<string>, removed': nat)
    ensures Kept(kept', removed') == KeepOne(Kept(kept, removed), line, marker)
  {
    var out, cut := ScanLine(line, marker);
    kept', removed' := kept, if cut then removed + 1 else removed;
    var text := RStrip(out);
    if cut && text == "" {
      return;
    }
    kept' := kept + [if cut then text else RStrip(line)];
  }

  lemma KeepNext(lines: seq<string>, k: nat, marker: string)
    requires k < |lines|
    ensures KeepLines(lines[..k + 1], marker) == KeepOne(KeepLines(lines[..k], marker), lines[k], marker)
  {
    assert lines[..k + 1][..k] == lines[..k];
  }

  method StripHashProse(source: string, marker: string) returns (text: string, removed: nat)
    ensures (text, removed) == Strip(source, marker)
  {
    var lines := SplitLines(source);
    var kept := [];
    removed := 0;
    for k := 0 to |lines|
      invariant KeepLines(lines[..k], marker) == Kept(kept, removed)
    {
      KeepNext(lines, k, marker);
      kept, removed := KeepLine(lines[k], marker, kept, removed);
    }
    assert lines[..|lines|] == lines;
    text := Reassemble(kept, EndsWithNewline(source));
  }

  // ---- What a cut means ----------------------------------------------------

  /** Reading a line from the left, ignoring markers: outside quotes, inside the
      literal that `q` closes, or behind a backslash in it. */
  datatype Reading = Outside | Inside(q: char) | Escaped(q: char)

  function Read(c: char, r: Reading): Reading {
    match r
    case Outside => if c == '\'' || c == '"' then Inside(c) else Outside
    case Inside(q) => if c == '\\' then Escaped(q) else if c == q then Outside else r
    case Escaped(q) => Inside(q)
  }

  function ReadTo(line: string, i: nat): Reading
    requires i <= |line|
  {
    if i == 0 then Outside else Read(line[i - 1], ReadTo(line, i - 1))
  }

  predicate CommentAt(line: string, marker: string, i: nat) {
    MarkedAt(line, marker, i) && i < |line| && ReadTo(line, i) == Outside
  }

  /** `cut` is the first comment at or behind `i`. */
  ghost predicate FirstComment(line: string, marker: string, i: nat, cut: Option<nat>) {
    match cut
    case None => forall j: nat :: i <= j ==> !CommentAt(line, marker, j)
    case Some(n) => CommentAt(line, marker, n) && forall j: nat :: i <= j < n ==> !CommentAt(line, marker, j)
  }

  /** The scan cuts exactly at the first marker that no quote encloses, and not at
      all when every marker is enclosed. */
  lemma CutIsFirstComment(line: string, marker: string)
    requires marker != "" && marker[0] != '\'' && marker[0] != '"'
    ensures FirstComment(line, marker, 0, CutAt(line, marker, 0, None))
  {
    CutFrom(line, marker, 0, None);
  }

  function ReadingOf(quote: Quote): Reading {
    if quote.Some? then Inside(quote.value) else Outside
  }

  lemma {:induction false} CutFrom(line: string, marker: string, i: nat, quote: Quote)
    requires marker != "" && marker[0] != '\'' && marker[0] != '"'
    requires i <= |line| && ReadTo(line, i) == ReadingOf(quote)
    ensures FirstComment(line, marker, i, CutAt(line, marker, i, quote))
    decreases |line| - i, 1
  {
    if i >= |line| {
    } else {
      MarkerHere(line, marker, i);
      if quote.Some? {
        CutFromQuoted(line, marker, i, quote.value);
      } else if line[i] == '\'' || line[i] == '"' {
        CutFrom(line, marker, i + 1, Some(line[i]));
      } else if !MarkedAt(line, marker, i) {
        CutFrom(line, marker, i + 1, None);
      }
    }
  }

  lemma {:induction false} CutFromQuoted(line: string, marker: string, i: nat, q: char)
    requires marker != "" && marker[0] != '\'' && marker[0] != '"'
    requires i < |line| && ReadTo(line, i) == Inside(q)
    ensures FirstComment(line, marker, i, CutAt(line, marker, i, Some(q)))
    decreases |line| - i, 0
  {
    NoCommentInside(line, marker, i, q);
    if line[i] != '\\' {
      CutFrom(line, marker, i + 1, if line[i] == q then None else Some(q));
    } else if i + 1 < |line| {
      CutFrom(line, marker, i + 2, Some(q));
    }
  }

  lemma MarkerHere(line: string, marker: string, i: nat)
    requires marker != "" && i < |line|
    ensures MarkedAt(line, marker, i) ==> line[i] == marker[0]
    ensures ReadTo(line, i + 1) == Read(line[i], ReadTo(line, i))
  {
    if MarkedAt(line, marker, i) { assert line[i] == line[i..i + |marker|][0]; }
  }

  lemma NoCommentInside(line: string, marker: string, i: nat, q: char)
    requires i < |line| && ReadTo(line, i) == Inside(q)
    ensures !CommentAt(line, marker, i)
    ensures ReadTo(line, i + 1) == if line[i] == '\\' then Escaped(q) else if line[i] == q then Outside else Inside(q)
    ensures line[i] == '\\' ==> !CommentAt(line, marker, i + 1)
    ensures line[i] == '\\' && i + 1 < |line| ==> ReadTo(line, i + 2) == Inside(q)
  {
  }

  // ---- Writing comments and stripping them ---------------------------------

  /** A line as its author writes it: code alone, or code, a gap and a comment. */
  datatype Written = Plain(code: string) | Noted(code: string, gap: string, note: string)

  function WriteLine(w: Written, marker: string): string {
    match w
    case Plain(code) => code
    case Noted(code, gap, note) => code + (gap + (marker + note))
  }

  /** The code holds no comment of its own, and a comment stands outside quotes.  Where
      it stands right behind the code, the code does not end in a character of the
      marker, with which the marker could begin too early. */
  ghost predicate Proper(w: Written, marker: string) {
    && CutAt(w.code, marker, 0, None) == None
    && (w.Noted? ==>
          Blanks(w.gap) && (w.code != "" && w.gap == "" ==> w.code[|w.code| - 1] !in marker)
          && ReadTo(w.code, |w.code|) == Outside)
  }

  predicate IsMarker(marker: string) {
    marker != "" && marker[0] != '\'' && marker[0] != '"' && forall k :: 0 <= k < |marker| ==> !IsSpace(marker[k])
  }

  function WriteAll(ws: seq<Written>, marker: string): (lines: seq<string>)
    ensures |lines| == |ws| && forall k :: 0 <= k < |ws| ==> lines[k] == WriteLine(ws[k], marker)
  {
    if ws == [] then [] else WriteAll(ws[..|ws| - 1], marker) + [WriteLine(ws[|ws| - 1], marker)]
  }

  /** The code that should remain: a line that was only a comment goes altogether. */
  function Codes(ws: seq<Written>): seq<string> {
    if ws == [] then [] else
    var last := ws[|ws| - 1];
    var code := RStrip(last.code);
    Codes(ws[..|ws| - 1]) + if last.Noted? && code == "" then [] else [code]
  }

  function Notes(ws: seq<Written>): nat {
    if ws == [] then 0 else Notes(ws[..|ws| - 1]) + if ws[|ws| - 1].Noted? then 1 else 0
  }

  lemma {:induction false} ReadPrefix(a: string, line: string, i: nat)
    requires a <= line && i <= |a|
    ensures ReadTo(line, i) == ReadTo(a, i)
  {
    if i == 0 {
    } else {
      ReadPrefix(a, line, i - 1);
    }
  }

  lemma {:induction false} ReadBlanks(line: string, from: nat, i: nat)
    requires from <= i <= |line| && ReadTo(line, from) == Outside && forall k :: from <= k < i ==> IsSpace(line[k])
    ensures ReadTo(line, i) == Outside
  {
    if from >= i {
    } else {
      ReadBlanks(line, from, i - 1);
    }
  }

  lemma {:induction false} RStripGap(code: string, gap: string)
    requires Blanks(gap)
    ensures RStrip(code + gap) == RStrip(code)
  {
    if gap == "" {
      assert code + gap == code;
    } else {
      var shorter := gap[..|gap| - 1];
      RStripGap(code, shorter);
      assert (code + gap)[..|code + gap| - 1] == code + shorter;
    }
  }

  /** The scan cuts a written comment off where it was put. */
  lemma NoteIsCut(w: Written, marker: string)
    requires w.Noted? && Proper(w, marker) && IsMarker(marker)
    ensures CutAt(WriteLine(w, marker), marker, 0, None) == Some(|w.code| + |w.gap|)
  {
    CutIsFirstComment(WriteLine(w, marker), marker);
    NoteIsComment(w, marker);
    forall i: nat | i < |w.code| + |w.gap| ensures !CommentAt(WriteLine(w, marker), marker, i) {
      NoneEarlier(w, marker, i);
    }
  }

  lemma NoteIsComment(w: Written, marker: string)
    requires w.Noted? && Proper(w, marker) && IsMarker(marker)
    ensures CommentAt(WriteLine(w, marker), marker, |w.code| + |w.gap|)
  {
    var line, n, at := WriteLine(w, marker), |w.code|, |w.code| + |w.gap|;
    assert w.code <= line && line[n..at] == w.gap;
    assert line[at..at + |marker|] == marker;
    ReadPrefix(w.code, line, n);
    forall k | n <= k < at ensures IsSpace(line[k]) { assert line[k] == w.gap[k - n]; }
    ReadBlanks(line, n, at);
  }

  lemma NoneEarlier(w: Written, marker: string, i: nat)
    requires w.Noted? && Proper(w, marker) && IsMarker(marker) && i < |w.code| + |w.gap|
    ensures !CommentAt(WriteLine(w, marker), marker, i)
  {
    var line, n := WriteLine(w, marker), |w.code|;
    CutIsFirstComment(w.code, marker);
    var k := if i >= n then i else if w.gap == "" then n - 1 else n;
    assert line[k] == if k < n then w.code[k] else w.gap[k - n];
    MarkedChars(line, marker, i);
    if CommentAt(line, marker, i) && i + |marker| <= n { StillComment(w.code, line, marker, i); }
  }

  lemma StillComment(code: string, line: string, marker: string, i: nat)
    requires code <= line && marker != "" && i + |marker| <= |code| && CommentAt(line, marker, i)
    ensures CommentAt(code, marker, i)
  {
    assert code[i..i + |marker|] == line[i..i + |marker|];
    ReadPrefix(code, line, i);
  }

  lemma MarkedChars(line: string, marker: string, i: nat)
    ensures MarkedAt(line, marker, i) ==> forall k :: i <= k < i + |marker| ==> line[k] == marker[k - i]
  {
    if MarkedAt(line, marker, i) {
      var part := line[i..i + |marker|];
      assert forall k :: i <= k < i + |marker| ==> line[k] == part[k - i];
    }
  }

  /** Stripping undoes commenting: what is left of commented lines is their code, and
      every comment is counted. */
  lemma {:induction false} CommentsVanish(ws: seq<Written>, marker: string)
    requires IsMarker(marker) && forall k :: 0 <= k < |ws| ==> Proper(ws[k], marker)
    ensures KeepLines(WriteAll(ws, marker), marker) == Kept(Codes(ws), Notes(ws))
  {
    if ws == [] {
    } else {
      var front, w := ws[..|ws| - 1], ws[|ws| - 1];
      CommentsVanish(front, marker);
      KeepSnoc(WriteAll(front, marker), WriteLine(w, marker), marker);
      CodeIsKept(w, marker, KeepLines(WriteAll(front, marker), marker));
    }
  }

  lemma KeepSnoc(lines: seq<string>, line: string, marker: string)
    ensures KeepLines(lines + [line], marker) == KeepOne(KeepLines(lines, marker), line, marker)
  {
    var all := lines + [line];
    assert all[..|all| - 1] == lines;
  }

  /** What one written line adds. */
  function AddCode(kept: Kept, w: Written): Kept {
    var code := RStrip(w.code);
    match w
    case Plain(_) => kept.(lines := kept.lines + [code])
    case Noted(_, _, _) => Kept(if code == "" then kept.lines else kept.lines + [code], kept.removed + 1)
  }

  lemma KeepCut(kept: Kept, line: string, uncut: string, code: string, marker: string)
    requires uncut <= line && CutAt(line, marker, 0, None) == Some(|uncut|) && RStrip(uncut) == RStrip(code)
    ensures KeepOne(kept, line, marker) == AddCode(kept, Noted(code, "", ""))
  {
    assert line[..|uncut|] == uncut;
  }

  lemma KeepUncut(kept: Kept, line: string, marker: string)
    requires CutAt(line, marker, 0, None) == None
    ensures KeepOne(kept, line, marker) == AddCode(kept, Plain(line))
  {
  }

  lemma CodeIsKept(w: Written, marker: string, kept: Kept)
    requires Proper(w, marker) && IsMarker(marker)
    ensures KeepOne(kept, WriteLine(w, marker), marker) == AddCode(kept, w)
  {
    if w.Plain? {
      KeepUncut(kept, w.code, marker);
    } else {
      var uncut := w.code + w.gap;
      assert WriteLine(w, marker) == uncut + (marker + w.note);
      NoteIsCut(w, marker);
      RStripGap(w.code, w.gap);
      KeepCut(kept, WriteLine(w, marker), uncut, w.code, marker);
    }
  }

  // ---- Stripping twice -----------------------------------------------------

  /** No comment in a line, hence none in any shorter piece of it. */
  lemma {:induction false} PrefixHasNoCut(line: string, marker: string, p: nat, i: nat, quote: Quote)
    requires i <= p <= |line|
    requires var cut := CutAt(line, marker, i, quote); cut.None? || p <= cut.value
    ensures CutAt(line[..p], marker, i, quote) == None
    decreases |line| - i, 1
  {
    if i >= p {
    } else if quote.Some? {
      PrefixHasNoCutQuoted(line, marker, p, i, quote.value);
    } else {
      MarkInPrefix(line, marker, p, i);
      if line[i] == '\'' || line[i] == '"' {
        PrefixHasNoCut(line, marker, p, i + 1, Some(line[i]));
      } else {
        PrefixHasNoCut(line, marker, p, i + 1, None);
      }
    }
  }

  lemma {:induction false} PrefixHasNoCutQuoted(line: string, marker: string, p: nat, i: nat, q: char)
    requires i < p <= |line|
    requires var cut := CutAt(line, marker, i, Some(q)); cut.None? || p <= cut.value
    ensures CutAt(line[..p], marker, i, Some(q)) == None
    decreases |line| - i, 0
  {
    var after := if line[i] == q then None else Some(q);
    if line[i] != '\\' || i + 1 == |line| {
      PrefixHasNoCut(line, marker, p, i + 1, after);
    } else if i + 1 < p {
      PrefixHasNoCut(line, marker, p, i + 2, Some(q));
    }
  }

  lemma MarkInPrefix(line: string, marker: string, p: nat, i: nat)
    requires i <= p <= |line|
    ensures MarkedAt(line[..p], marker, i) ==> MarkedAt(line, marker, i)
  {
    if MarkedAt(line[..p], marker, i) { assert line[i..i + |marker|] == line[..p][i..i + |marker|]; }
  }

  /** Every line that survives holds no comment, no trailing white space and no
      line boundary, so a second pass keeps it as it is. */
  ghost predicate CleanLine(line: string, marker: string) {
    Unbroken(line) && RStrip(line) == line && CutAt(line, marker, 0, None) == None
  }

  ghost predicate Clean(lines: seq<string>, marker: string) {
    forall k :: 0 <= k < |lines| ==> CleanLine(lines[k], marker)
  }

  lemma KeptPieceIsClean(line: string, marker: string, p: nat)
    requires Unbroken(line) && p <= |line|
    requires var cut := CutAt(line, marker, 0, None); cut.None? || p <= cut.value
    ensures CleanLine(RStrip(line[..p]), marker)
  {
    var t := RStrip(line[..p]);
    RStripTrimmed(line[..p]);
    assert t == line[..|t|];
    PrefixHasNoCut(line, marker, |t|, 0, None);
  }

  lemma {:induction false} KeptLinesAreClean(lines: seq<string>, marker: string)
    requires forall k :: 0 <= k < |lines| ==> Unbroken(lines[k])
    ensures Clean(KeepLines(lines, marker).lines, marker)
  {
    if lines == [] {
    } else {
      var last := |lines| - 1;
      var line := lines[last];
      KeptLinesAreClean(lines[..last], marker);
      KeptLineIsClean(KeepLines(lines[..last], marker), line, marker);
    }
  }

  lemma KeptLineIsClean(kept: Kept, line: string, marker: string)
    requires Clean(kept.lines, marker) && Unbroken(line)
    ensures Clean(KeepOne(kept, line, marker).lines, marker)
  {
    var cut := CutAt(line, marker, 0, None);
    KeptPieceIsClean(line, marker, if cut.Some? then cut.value else |line|);
    assert line[..|line|] == line;
  }

  lemma {:induction false} CleanLinesAreKept(lines: seq<string>, marker: string)
    requires Clean(lines, marker)
    ensures KeepLines(lines, marker) == Kept(lines, 0)
  {
    if lines == [] {
    } else {
      var front, last := lines[..|lines| - 1], lines[|lines| - 1];
      assert lines == front + [last];
      CleanLinesAreKept(front, marker);
      CleanSnoc(front, last, marker);
    }
  }

  lemma CleanSnoc(front: seq<string>, last: string, marker: string)
    requires KeepLines(front, marker) == Kept(front, 0) && CleanLine(last, marker)
    ensures KeepLines(front + [last], marker) == Kept(front + [last], 0)
  {
    KeepSnoc(front, last, marker);
    CleanLineIsKept(Kept(front, 0), last, marker);
  }

  lemma CleanLineIsKept(kept: Kept, line: string, marker: string)
    requires CleanLine(line, marker)
    ensures KeepOne(kept, line, marker) == kept.(lines := kept.lines + [line])
  {
  }

  /** The text and the count returned for written lines: their code, line by line, and
      the number of comments. */
  lemma WrittenLinesAreStripped(source: string, ws: seq<Written>, marker: string)
    requires IsMarker(marker) && forall k :: 0 <= k < |ws| ==> Proper(ws[k], marker)
    requires SplitLines(source) == WriteAll(ws, marker)
    ensures Strip(source, marker).1 == Notes(ws)
    ensures Spells(Strip(source, marker).0, Codes(ws), EndsWithNewline(source))
  {
    CommentsVanish(ws, marker);
    KeptLinesAreClean(SplitLines(source), marker);
    ReassembleSpells(Codes(ws), EndsWithNewline(source));
  }

  /** What any line adds: the part in front of its first comment, without the white space
      at its end, unless nothing but a comment is on it. */
  lemma LineIsStripped(kept: Kept, line: string, marker: string, cut: Option<nat>, code: string)
    requires marker != "" && marker[0] != '\'' && marker[0] != '"'
    requires FirstComment(line, marker, 0, cut) && Trims(code, if cut.Some? then line[..cut.value] else line)
    ensures KeepOne(kept, line, marker)
         == Kept(if cut.Some? && code == "" then kept.lines else kept.lines + [code],
                 kept.removed + if cut.Some? then 1 else 0)
  {
    CutIsFirstComment(line, marker);
    assert cut == CutAt(line, marker, 0, None);
    var front := if cut.Some? then line[..cut.value] else line;
    TrimsIsUnique(code, RStrip(front), front);
  }

  /** Stripping is idempotent, and the second pass removes no comment. */
  lemma StripIsIdempotent(source: string, marker: string)
    ensures Strip(Strip(source, marker).0, marker) == (Strip(source, marker).0, 0)
  {
    var kept := KeepLines(SplitLines(source), marker).lines;
    var ended := EndsWithNewline(source);
    var text := Reassemble(kept, ended);
    KeptLinesAreClean(SplitLines(source), marker);
    ReassembleIsStable(kept, ended);
    SplitReassembled(kept, ended);
    assert CutAt("", marker, 0, None) == None;
    CleanLinesAreKept(SplitLines(text), marker);
  }
}
