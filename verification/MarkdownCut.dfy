/**
 The `>>>` / `<<<` cut splitter of Markdown topics and the anchors of the links
 and blocks rendered from it.
 */
module MarkdownCut {
  import opened Options
  import opened Text

  datatype Piece = Text(text: string) | Cut(content: string)

  // ---------------------------------------------------------------- lines

  /** Where the first line of `s` ends, its newline included. */
  function LineEnd(s: string, i: nat): (end: nat)
    requires i < |s|
    ensures i < end <= |s| && (end < |s| ==> s[end - 1] == '\n')
    ensures forall k :: i <= k < end - 1 ==> s[k] != '\n'
    decreases |s| - i
  {
    if s[i] == '\n' || i + 1 == |s| then i + 1 else LineEnd(s, i + 1)
  }

  /** `split_inclusive('\n')`. */
  function Lines(s: string): seq<string> {
    if s == "" then [] else [s[..LineEnd(s, 0)]] + Lines(s[LineEnd(s, 0)..])
  }

  function Concat(lines: seq<string>): string {
    if lines == [] then "" else lines[0] + Concat(lines[1..])
  }

  /** Empty or ending in a newline: what follows starts a new line. */
  predicate Complete(s: string) {
    s == "" || s[|s| - 1] == '\n'
  }

  predicate IsLine(line: string) {
    line != "" && forall k :: 0 <= k < |line| - 1 ==> line[k] != '\n'
  }

  /** Lines in a row; only the last may lack its newline. */
  predicate AreLines(lines: seq<string>) {
    && (forall i :: 0 <= i < |lines| ==> IsLine(lines[i]))
    && (forall i :: 0 <= i < |lines| - 1 ==> Complete(lines[i]))
  }

  /** The line without its trailing carriage returns and newlines. */
  function Stripped(line: string): string {
    if line != "" && (line[|line| - 1] == '\r' || line[|line| - 1] == '\n') then Stripped(line[..|line| - 1]) else line
  }

  predicate IsOpen(line: string) { Stripped(line) == ">>>" }

  predicate IsClose(line: string) { Stripped(line) == "<<<" }

  predicate IsMarkerLine(line: string, marker: string) {
    |marker| <= |line| && line[..|marker|] == marker
    && forall k :: |marker| <= k < |line| ==> line[k] == '\r' || line[k] == '\n'
  }

  lemma {:induction false} StrippedIs(line: string, marker: string)
    requires marker == "" || (marker[|marker| - 1] != '\r' && marker[|marker| - 1] != '\n')
    ensures Stripped(line) == marker <==> IsMarkerLine(line, marker)
    decreases |line|
  {
    if line != "" && (line[|line| - 1] == '\r' || line[|line| - 1] == '\n') {
      var shorter := line[..|line| - 1];
      StrippedIs(shorter, marker);
      if |marker| < |line| {
        assert shorter[..|marker|] == line[..|marker|];
        assert forall k :: 0 <= k < |shorter| ==> shorter[k] == line[k];
      }
    } else if |marker| == |line| {
      assert line[..|line|] == line;
    }
  }

  /** Markers are lines of three angle brackets and nothing but carriage returns and newlines behind them. */
  lemma MarkerLineIff(line: string)
    ensures IsOpen(line) <==> IsMarkerLine(line, ">>>")
    ensures IsClose(line) <==> IsMarkerLine(line, "<<<")
  {
    StrippedIs(line, ">>>");
    StrippedIs(line, "<<<");
  }

  lemma {:induction false} LinesAreLines(s: string)
    ensures AreLines(Lines(s)) && Concat(Lines(s)) == s
    decreases |s|
  {
    if s != "" {
      LinesAreLines(s[LineEnd(s, 0)..]);
      var rest := Lines(s[LineEnd(s, 0)..]);
      assert rest == [] ==> s[LineEnd(s, 0)..] == "";
      assert s == s[..LineEnd(s, 0)] + s[LineEnd(s, 0)..];
      assert Lines(s)[1..] == rest;
    }
  }

  lemma {:induction false} LineEndOfLine(line: string, i: nat)
    requires IsLine(line) && i < |line|
    ensures LineEnd(line, i) == |line|
    decreases |line| - i
  {
    if i + 1 < |line| {
      LineEndOfLine(line, i + 1);
    }
  }

  lemma OneLine(line: string)
    requires IsLine(line)
    ensures Lines(line) == [line]
  {
    LineEndOfLine(line, 0);
    assert line[..|line|] == line && line[|line|..] == "";
  }

  lemma {:induction false} LineEndPrefix(a: string, b: string, i: nat)
    requires i < |a| && Complete(a)
    ensures LineEnd(a + b, i) == LineEnd(a, i)
    decreases |a| - i
  {
    if !(a[i] == '\n' || i + 1 == |a|) {
      LineEndPrefix(a, b, i + 1);
    }
  }

  lemma {:induction false} LinesAppend(a: string, b: string)
    requires Complete(a)
    ensures Lines(a + b) == Lines(a) + Lines(b)
    decreases |a|
  {
    if a == "" {
      assert a + b == b;
    } else {
      var end := LineEnd(a, 0);
      LineEndPrefix(a, b, 0);
      assert (a + b)[..end] == a[..end] && (a + b)[end..] == a[end..] + b;
      LinesAppend(a[end..], b);
    }
  }

  // ---------------------------------------------------------------- the splitter

  /** The pieces of the remaining lines, given the text and cut collected so far. */
  function PiecesFrom(lines: seq<string>, text: string, cut: Option<string>): seq<Piece> {
    if lines == [] then
      (if cut.Some? then [Cut(cut.value)] else []) + (if text != "" then [Text(text)] else [])
    else if cut.None? && IsOpen(lines[0]) then
      (if text != "" then [Text(text)] else []) + PiecesFrom(lines[1..], "", Some(""))
    else if IsClose(lines[0]) then
      if cut.Some? then [Cut(cut.value)] + PiecesFrom(lines[1..], text, None)
      else PiecesFrom(lines[1..], text + lines[0], None)
    else if cut.Some? then PiecesFrom(lines[1..], text, Some(cut.value + lines[0]))
    else PiecesFrom(lines[1..], text + lines[0], None)
  }

  function Pieces(source: string): seq<Piece> {
    PiecesFrom(Lines(source), "", None)
  }

  method MarkdownCutPieces(source: string) returns (pieces: seq<Piece>)
    ensures pieces == Pieces(source)
  {
    pieces := [];
    var text := "";
    var cut: Option<string> := None;
    var lines := Lines(source);
    assert lines[0..] == lines;
    for i := 0 to |lines|
      invariant Pieces(source) == pieces + PiecesFrom(lines[i..], text, cut)
    {
      var line := lines[i];
      assert lines[i..][0] == line && lines[i..][1..] == lines[i + 1..];
      if cut.None? && IsOpen(line) {
        if text != "" {
          pieces := pieces + [Text(text)];
          text := "";
        }
        cut := Some("");
      } else if IsClose(line) {
        if cut.Some? {
          pieces := pieces + [Cut(cut.value)];
          cut := None;
        } else {
          text := text + line;
        }
      } else if cut.Some? {
        cut := Some(cut.value + line);
      } else {
        text := text + line;
      }
    }
    if cut.Some? {
      pieces := pieces + [Cut(cut.value)];
    }
    if text != "" {
      pieces := pieces + [Text(text)];
    }
  }

  // ---------------------------------------------------------------- nothing lost, nothing reordered

  /** A piece together with the marker lines that delimit it. */
  datatype Segment = TextLines(lines: seq<string>) | CutLines(open: string, lines: seq<string>, close: Option<string>)

  function SegmentLines(s: Segment): seq<string> {
    match s
    case TextLines(lines) => lines
    case CutLines(open, lines, close) => [open] + lines + (if close.Some? then [close.value] else [])
  }

  function AllLines(segments: seq<Segment>): seq<string> {
    if segments == [] then [] else SegmentLines(segments[0]) + AllLines(segments[1..])
  }

  function WithoutMarkers(s: Segment): Piece {
    match s
    case TextLines(lines) => Text(Concat(lines))
    case CutLines(_, lines, _) => Cut(Concat(lines))
  }

  function AllWithoutMarkers(segments: seq<Segment>): seq<Piece> {
    if segments == [] then [] else [WithoutMarkers(segments[0])] + AllWithoutMarkers(segments[1..])
  }

  /** The markers are marker lines; only the last cut may be left open. */
  ghost predicate MarkersValid(segments: seq<Segment>) {
    forall i :: 0 <= i < |segments| && segments[i].CutLines? ==>
      && IsOpen(segments[i].open)
      && (match segments[i].close
          case Some(close) => IsClose(close)
          case None => i == |segments| - 1)
  }

  lemma {:induction false} ConcatAppend(lines: seq<string>, line: string)
    ensures Concat(lines + [line]) == Concat(lines) + line
    decreases |lines|
  {
    if lines == [] {
      assert lines + [line] == [line] && Concat([line]) == line;
    } else {
      assert (lines + [line])[1..] == lines[1..] + [line];
      ConcatAppend(lines[1..], line);
    }
  }

  lemma SegmentFirst(s: Segment, rest: seq<Segment>)
    requires MarkersValid(rest)
    requires s.CutLines? ==> IsOpen(s.open) && s.close.Some? && IsClose(s.close.value)
    ensures AllLines([s] + rest) == SegmentLines(s) + AllLines(rest)
    ensures AllWithoutMarkers([s] + rest) == [WithoutMarkers(s)] + AllWithoutMarkers(rest)
    ensures MarkersValid([s] + rest)
  {
    assert ([s] + rest)[1..] == rest;
    forall i | 0 <= i < |[s] + rest| && ([s] + rest)[i].CutLines?
      ensures IsOpen(([s] + rest)[i].open)
      ensures match ([s] + rest)[i].close
              case Some(close) => IsClose(close)
              case None => i == |[s] + rest| - 1
    {
      if i > 0 {
        assert ([s] + rest)[i] == rest[i - 1];
      }
    }
  }

  lemma SegmentAlone(s: Segment)
    requires s.CutLines? ==> IsOpen(s.open) && s.close.None?
    ensures AllLines([s]) == SegmentLines(s) && AllWithoutMarkers([s]) == [WithoutMarkers(s)] && MarkersValid([s])
  {
    assert [s][1..] == [];
  }

  lemma ConcatNonEmpty(lines: seq<string>)
    requires forall i :: 0 <= i < |lines| ==> IsLine(lines[i])
    ensures lines != [] ==> Concat(lines) != ""
  {
  }

  function ReadSoFar(open: Option<string>, read: seq<string>): seq<string> {
    (if open.Some? then [open.value] else []) + read
  }

  lemma ReadOneMore(open: Option<string>, read: seq<string>, lines: seq<string>)
    requires lines != []
    ensures ReadSoFar(open, read + [lines[0]]) + lines[1..] == ReadSoFar(open, read) + lines
    ensures ReadSoFar(open, read) + ([lines[0]] + lines[1..]) == ReadSoFar(open, read) + lines
    ensures ReadSoFar(open, read) + [lines[0]] + lines[1..] == ReadSoFar(open, read) + lines
    ensures ReadSoFar(None, []) == [] && ReadSoFar(Some(lines[0]), []) == [lines[0]] && ReadSoFar(None, read) == read
  {
    assert [lines[0]] + lines[1..] == lines;
    assert read + [lines[0]] + lines[1..] == read + lines;
  }

  /** `segments` account for the lines read of the current piece, with its opening marker, and the lines to come. */
  ghost predicate Describes(segments: seq<Segment>, lines: seq<string>, read: seq<string>, open: Option<string>) {
    && AllLines(segments) == ReadSoFar(open, read) + lines
    && AllWithoutMarkers(segments)
       == (if open.Some? then PiecesFrom(lines, "", Some(Concat(read))) else PiecesFrom(lines, Concat(read), None))
    && MarkersValid(segments)
  }

  lemma {:induction false} SegmentsExist(lines: seq<string>, read: seq<string>, open: Option<string>)
    returns (segments: seq<Segment>)
    requires (forall i :: 0 <= i < |lines| ==> IsLine(lines[i])) && (forall i :: 0 <= i < |read| ==> IsLine(read[i]))
    requires open.Some? ==> IsOpen(open.value)
    ensures Describes(segments, lines, read, open)
    decreases |lines|
  {
    if lines == [] {
      segments := LastSegment(read, open);
    } else {
      ReadOneMore(open, read, lines);
      if open.None? && IsOpen(lines[0]) {
        var rest := SegmentsExist(lines[1..], [], Some(lines[0]));
        segments := TextEnds(lines, read, rest);
      } else if IsClose(lines[0]) && open.Some? {
        var rest := SegmentsExist(lines[1..], [], None);
        segments := CutEnds(lines, read, open.value, rest);
      } else {
        ConcatAppend(read, lines[0]);
        segments := SegmentsExist(lines[1..], read + [lines[0]], open);
      }
    }
  }

  lemma TextEnds(lines: seq<string>, read: seq<string>, rest: seq<Segment>) returns (segments: seq<Segment>)
    requires forall i :: 0 <= i < |read| ==> IsLine(read[i])
    requires lines != [] && IsOpen(lines[0]) && Describes(rest, lines[1..], [], Some(lines[0]))
    ensures Describes(segments, lines, read, None)
  {
    ReadOneMore(None, read, lines);
    ConcatNonEmpty(read);
    if read != [] {
      SegmentFirst(TextLines(read), rest);
      segments := [TextLines(read)] + rest;
    } else {
      segments := rest;
    }
  }

  lemma CutEnds(lines: seq<string>, read: seq<string>, open: string, rest: seq<Segment>) returns (segments: seq<Segment>)
    requires lines != [] && IsOpen(open) && IsClose(lines[0]) && Describes(rest, lines[1..], [], None)
    ensures Describes(segments, lines, read, Some(open))
  {
    ReadOneMore(Some(open), read, lines);
    var cut := CutLines(open, read, Some(lines[0]));
    SegmentFirst(cut, rest);
    segments := [cut] + rest;
    assert AllLines(segments) == ReadSoFar(Some(open), read) + lines by {
      assert SegmentLines(cut) == ReadSoFar(Some(open), read) + [lines[0]];
      assert ReadSoFar(None, []) + lines[1..] == lines[1..];
    }
    CutClosed(lines, Concat(read));
  }

  lemma CutClosed(lines: seq<string>, content: string)
    requires lines != [] && IsClose(lines[0])
    ensures PiecesFrom(lines, "", Some(content)) == [Cut(content)] + PiecesFrom(lines[1..], "", None)
  {
  }

  lemma LastSegment(read: seq<string>, open: Option<string>) returns (segments: seq<Segment>)
    requires (forall i :: 0 <= i < |read| ==> IsLine(read[i])) && (open.Some? ==> IsOpen(open.value))
    ensures Describes(segments, [], read, open)
  {
    ConcatNonEmpty(read);
    if open.Some? || read != [] {
      var last := if open.Some? then CutLines(open.value, read, None) else TextLines(read);
      SegmentAlone(last);
      segments := [last];
    } else {
      segments := [];
    }
  }

  /** The segments of the source's lines that its pieces come from. */
  ghost predicate Splits(source: string, segments: seq<Segment>) {
    AllLines(segments) == Lines(source) && AllWithoutMarkers(segments) == Pieces(source) && MarkersValid(segments)
  }

  /** The pieces with their marker lines put back are exactly the source's lines, in order. */
  lemma NothingLost(source: string)
    ensures exists segments: seq<Segment> :: Splits(source, segments)
  {
    LinesAreLines(source);
    var segments := SegmentsExist(Lines(source), [], None);
    assert ReadSoFar(None, []) + Lines(source) == Lines(source);
    assert Splits(source, segments);
  }

  // ---------------------------------------------------------------- normal forms

  predicate NoOpen(text: string) { forall i :: 0 <= i < |Lines(text)| ==> !IsOpen(Lines(text)[i]) }

  predicate NoClose(text: string) { forall i :: 0 <= i < |Lines(text)| ==> !IsClose(Lines(text)[i]) }

  function Body(p: Piece): string {
    if p.Text? then p.text else p.content
  }

  /**
   The piece lists a source can have: text is never empty, never holds an opening
   line and never follows text; a cut holds no closing line; only the last piece
   may end without a newline.
   */
  predicate Normal(ps: seq<Piece>) {
    ps == [] || (
      && (ps[0].Text? ==> ps[0].text != "" && NoOpen(ps[0].text) && (|ps| == 1 || ps[1].Cut?))
      && (ps[0].Cut? ==> NoClose(ps[0].content))
      && (|ps| == 1 || Complete(Body(ps[0])))
      && Normal(ps[1..]))
  }

  /** Writes pieces out again; an unfinished last cut stays open. */
  function Print(ps: seq<Piece>): string {
    if ps == [] then ""
    else
      (match ps[0]
       case Text(text) => text
       case Cut(content) => ">>>\n" + content + (if Complete(content) then "<<<\n" else ""))
      + Print(ps[1..])
  }

  lemma MarkerLines()
    ensures Lines(">>>\n") == [">>>\n"] && IsOpen(">>>\n") && !IsClose(">>>\n")
    ensures Lines("<<<\n") == ["<<<\n"] && IsClose("<<<\n") && !IsOpen("<<<\n")
  {
    OneLine(">>>\n");
    OneLine("<<<\n");
    assert ">>>\n"[..3] == ">>>" && "<<<\n"[..3] == "<<<";
    assert Stripped(">>>") == ">>>" && Stripped("<<<") == "<<<";
  }

  lemma {:induction false} TextLinesAccumulate(lines: seq<string>, rest: seq<string>, text: string)
    requires forall i :: 0 <= i < |lines| ==> !IsOpen(lines[i])
    ensures PiecesFrom(lines + rest, text, None) == PiecesFrom(rest, text + Concat(lines), None)
    decreases |lines|
  {
    if lines == [] {
      assert lines + rest == rest && text + "" == text;
    } else {
      assert (lines + rest)[1..] == lines[1..] + rest && (lines + rest)[0] == lines[0];
      TextLinesAccumulate(lines[1..], rest, text + lines[0]);
      assert text + lines[0] + Concat(lines[1..]) == text + Concat(lines);
    }
  }

  lemma {:induction false} CutLinesAccumulate(lines: seq<string>, rest: seq<string>, content: string)
    requires forall i :: 0 <= i < |lines| ==> !IsClose(lines[i])
    ensures PiecesFrom(lines + rest, "", Some(content)) == PiecesFrom(rest, "", Some(content + Concat(lines)))
    decreases |lines|
  {
    if lines == [] {
      assert lines + rest == rest && content + "" == content;
    } else {
      assert (lines + rest)[1..] == lines[1..] + rest && (lines + rest)[0] == lines[0];
      CutLinesAccumulate(lines[1..], rest, content + lines[0]);
      assert content + lines[0] + Concat(lines[1..]) == content + Concat(lines);
    }
  }

  /** A cut printed in front of `tail` is read back as that cut. */
  lemma PrintedCut(content: string, tail: string)
    requires NoClose(content) && (Complete(content) || tail == "")
    ensures PiecesFrom(Lines(">>>\n" + content + (if Complete(content) then "<<<\n" else "") + tail), "", None)
         == [Cut(content)] + PiecesFrom(Lines(tail), "", None)
  {
    var closing := if Complete(content) then "<<<\n" else "";
    assert ">>>\n" + content + closing + tail == ">>>\n" + (content + (closing + tail));
    OpeningLine(content + (closing + tail));
    LinesAreLines(content);
    if Complete(content) {
      ClosingLine(content, tail);
    } else {
      assert content + (closing + tail) == content;
      CutLinesAccumulate(Lines(content), [], "");
      assert Lines(content) + [] == Lines(content) && "" + content == content;
    }
  }

  lemma OpeningLine(rest: string)
    ensures PiecesFrom(Lines(">>>\n" + rest), "", None) == PiecesFrom(Lines(rest), "", Some(""))
  {
    MarkerLines();
    LinesAppend(">>>\n", rest);
    assert ([">>>\n"] + Lines(rest))[1..] == Lines(rest);
  }

  lemma ClosingLine(content: string, tail: string)
    requires NoClose(content) && Complete(content)
    ensures PiecesFrom(Lines(content + ("<<<\n" + tail)), "", Some("")) == [Cut(content)] + PiecesFrom(Lines(tail), "", None)
  {
    MarkerLines();
    LinesAreLines(content);
    LinesAppend(content, "<<<\n" + tail);
    LinesAppend("<<<\n", tail);
    CutLinesAccumulate(Lines(content), Lines("<<<\n" + tail), "");
    assert Lines("<<<\n" + tail)[0] == "<<<\n" && Lines("<<<\n" + tail)[1..] == Lines(tail);
    assert "" + content == content;
  }

  /** Printing a normal piece list and splitting it again gives the list back. */
  lemma {:induction false} PrintThenSplit(ps: seq<Piece>)
    requires Normal(ps)
    ensures Pieces(Print(ps)) == ps
    decreases |ps|
  {
    if ps != [] {
      PrintThenSplit(ps[1..]);
      var tail := Print(ps[1..]);
      assert ps == [ps[0]] + ps[1..];
      match ps[0]
      case Cut(content) =>
        assert |ps| == 1 ==> tail == "";
        PrintedCut(content, tail);
      case Text(text) =>
        LinesAreLines(text);
        if |ps| == 1 {
          assert text + tail == text;
          TextLinesAccumulate(Lines(text), [], "");
          assert Lines(text) + [] == Lines(text) && "" + text == text;
        } else {
          LinesAppend(text, tail);
          TextLinesAccumulate(Lines(text), Lines(tail), "");
          assert "" + text == text;
          TextBeforeCut(ps[1..], text);
        }
    }
  }

  /** Collected text in front of a printed cut becomes its own piece. */
  lemma TextBeforeCut(ps: seq<Piece>, text: string)
    requires Normal(ps) && ps != [] && ps[0].Cut? && text != ""
    ensures PiecesFrom(Lines(Print(ps)), text, None) == [Text(text)] + PiecesFrom(Lines(Print(ps)), "", None)
  {
    var content := ps[0].content;
    var rest := content + (if Complete(content) then "<<<\n" else "") + Print(ps[1..]);
    assert Print(ps) == ">>>\n" + rest;
    TextBeforeOpening(rest, text);
  }

  lemma TextBeforeOpening(rest: string, text: string)
    requires text != ""
    ensures
      var lines := Lines(">>>\n" + rest);
      PiecesFrom(lines, text, None) == [Text(text)] + PiecesFrom(lines, "", None)
  {
    MarkerLines();
    LinesAppend(">>>\n", rest);
    var lines := Lines(">>>\n" + rest);
    assert lines[0] == ">>>\n";
    assert PiecesFrom(lines, "", None) == PiecesFrom(lines[1..], "", Some(""));
  }

  /** Every source splits into a normal list. */
  lemma SplitIsNormal(source: string)
    ensures Normal(Pieces(source))
  {
    LinesAreLines(source);
    NormalFrom(Lines(source), "", None);
  }

  lemma {:induction false} NormalFrom(lines: seq<string>, text: string, cut: Option<string>)
    requires AreLines(lines)
    requires lines != [] ==> Complete(text) && (cut.Some? ==> Complete(cut.value))
    requires NoOpen(text) && (cut.Some? ==> text == "" && NoClose(cut.value))
    ensures Normal(PiecesFrom(lines, text, cut))
    ensures cut.Some? ==> PiecesFrom(lines, text, cut) != [] && PiecesFrom(lines, text, cut)[0].Cut?
    decreases |lines|
  {
    if lines == [] {
    } else if cut.None? && IsOpen(lines[0]) {
      NormalFrom(lines[1..], "", Some(""));
      var tail := PiecesFrom(lines[1..], "", Some(""));
      if text != "" {
        assert ([Text(text)] + tail)[1..] == tail;
      } else {
        assert [] + tail == tail;
      }
    } else if IsClose(lines[0]) && cut.Some? {
      NormalFrom(lines[1..], text, None);
      var tail := PiecesFrom(lines[1..], text, None);
      assert ([Cut(cut.value)] + tail)[1..] == tail;
    } else if cut.Some? {
      LineAppended(cut.value, lines[0]);
      NormalFrom(lines[1..], text, Some(cut.value + lines[0]));
    } else {
      LineAppended(text, lines[0]);
      NormalFrom(lines[1..], text + lines[0], None);
    }
  }

  lemma LineAppended(text: string, line: string)
    requires Complete(text) && IsLine(line)
    ensures Lines(text + line) == Lines(text) + [line]
    ensures Complete(line) ==> Complete(text + line)
  {
    LinesAppend(text, line);
    OneLine(line);
  }

  /** The normal lists are exactly the lists some source splits into. */
  lemma NormalIffSplit(ps: seq<Piece>)
    ensures Normal(ps) <==> exists source: string :: Pieces(source) == ps
  {
    if Normal(ps) {
      PrintThenSplit(ps);
      assert Pieces(Print(ps)) == ps;
    }
    if source: string :| Pieces(source) == ps {
      SplitIsNormal(source);
    }
  }

  // ---------------------------------------------------------------- anchors

  /** Rendered output: authored text, a link to a cut, or an expanded cut. */
  datatype Fragment =
    | Rendered(source: string, nofollow: bool)
    | Link(url: string, anchor: string)
    | Block(anchor: string, content: string, nofollow: bool)

  function Anchor(k: nat): string {
    if k == 0 then "cut" else "cut-" + Dec(k)
  }

  function RenderPiece(p: Piece, k: nat, url: string, minimized: bool, nofollow: bool): Fragment {
    match p
    case Text(text) => Rendered(text, nofollow)
    case Cut(content) => if minimized then Link(url, Anchor(k)) else Block(Anchor(k), content, nofollow)
  }

  function CountCuts(ps: seq<Piece>): nat {
    if ps == [] then 0 else CountCuts(ps[..|ps| - 1]) + (if ps[|ps| - 1].Cut? then 1 else 0)
  }

  method HasCut(ps: seq<Piece>) returns (any: bool)
    ensures any <==> CountCuts(ps) > 0
  {
    any := false;
    for i := 0 to |ps|
      invariant any <==> CountCuts(ps[..i]) > 0
    {
      assert ps[..i + 1][..i] == ps[..i];
      any := any || ps[i].Cut?;
    }
    assert ps[..|ps|] == ps;
  }

  /** Each piece rendered with the number of cuts before it. */
  function Fragments(ps: seq<Piece>, url: string, minimized: bool, nofollow: bool): seq<Fragment> {
    if ps == [] then []
    else
      var prior := ps[..|ps| - 1];
      Fragments(prior, url, minimized, nofollow)
      + [RenderPiece(ps[|ps| - 1], CountCuts(prior), url, minimized, nofollow)]
  }

  /** A topic without cuts is rendered whole; the minimized rendering drops the nofollow flag. */
  function RenderedTopic(source: string, url: string, minimized: bool, nofollow: bool): seq<Fragment> {
    var ps := Pieces(source);
    var effective := nofollow && !minimized;
    if CountCuts(ps) == 0 then [Rendered(source, effective)] else Fragments(ps, url, minimized, effective)
  }

  method RenderTopicCut(source: string, url: string, minimized: bool, nofollow: bool) returns (html: seq<Fragment>)
    ensures html == RenderedTopic(source, url, minimized, nofollow)
    ensures ShowsTopic(html, source, url, minimized, nofollow)
  {
    var ps := MarkdownCutPieces(source);
    var effective := nofollow && !minimized;
    var any := HasCut(ps);
    if any {
      html := RenderPieces(ps, url, minimized, effective);
    } else {
      html := [Rendered(source, effective)];
    }
    TopicIsRendered(source, url, minimized, nofollow);
  }

  method RenderPieces(ps: seq<Piece>, url: string, minimized: bool, nofollow: bool) returns (html: seq<Fragment>)
    ensures html == Fragments(ps, url, minimized, nofollow)
  {
    html := [];
    var k := 0;
    for i := 0 to |ps|
      invariant k == CountCuts(ps[..i])
      invariant html == Fragments(ps[..i], url, minimized, nofollow)
    {
      assert ps[..i + 1][..i] == ps[..i];
      html := html + [RenderPiece(ps[i], k, url, minimized, nofollow)];
      if ps[i].Cut? {
        k := k + 1;
      }
    }
    assert ps[..|ps|] == ps;
  }

  // ---------------------------------------------------------------- what is shown

  function CutNumber(segments: seq<Segment>, i: nat): nat
    requires i <= |segments|
  {
    if i == 0 then 0 else CutNumber(segments, i - 1) + (if segments[i - 1].CutLines? then 1 else 0)
  }

  /** The text a fragment shows. */
  function Shows(f: Fragment): string {
    match f
    case Rendered(source, _) => source
    case Block(_, content, _) => content
    case Link(_, _) => ""
  }

  function Shown(html: seq<Fragment>): string {
    if html == [] then "" else Shows(html[0]) + Shown(html[1..])
  }

  /** The lines of the segments without the markers, those of cuts only when expanded. */
  function Authored(segments: seq<Segment>, expanded: bool): string {
    if segments == [] then ""
    else
      (if segments[0].TextLines? || expanded then Concat(segments[0].lines) else "") + Authored(segments[1..], expanded)
  }

  /** Text is rendered as itself, a cut as a link to the topic or as a block, under the anchor with its number. */
  ghost predicate RendersSegment(
      f: Fragment, segments: seq<Segment>, i: nat, url: string, minimized: bool, effective: bool)
    requires i < |segments|
  {
    match segments[i]
    case TextLines(lines) => f == Rendered(Concat(lines), effective)
    case CutLines(_, lines, _) =>
      var anchor := if CutNumber(segments, i) == 0 then "cut" else "cut-" + Dec(CutNumber(segments, i));
      if minimized then f == Link(url, anchor) else f == Block(anchor, Concat(lines), effective)
  }

  /**
   Exactly the authored lines are shown, in order; with cuts there is one
   fragment for each segment, without them a single one.
   */
  ghost predicate Renders(
      html: seq<Fragment>, source: string, segments: seq<Segment>, url: string, minimized: bool, nofollow: bool)
  {
    && Shown(html) == Authored(segments, !minimized)
    && (CutNumber(segments, |segments|) == 0 ==> html == [Rendered(source, nofollow && !minimized)])
    && (CutNumber(segments, |segments|) > 0 ==>
          && |html| == |segments|
          && (forall i :: 0 <= i < |segments| ==>
                RendersSegment(html[i], segments, i, url, minimized, nofollow && !minimized)))
  }

  lemma {:induction false} PieceOfSegment(segments: seq<Segment>, i: nat)
    requires i < |segments|
    ensures |AllWithoutMarkers(segments)| == |segments| && AllWithoutMarkers(segments)[i] == WithoutMarkers(segments[i])
    decreases |segments|
  {
    if |segments| > 1 {
      PieceOfSegment(segments[1..], if i == 0 then 0 else i - 1);
    }
  }

  lemma {:induction false} CutsNumbered(segments: seq<Segment>, i: nat)
    requires i <= |segments|
    ensures |AllWithoutMarkers(segments)| == |segments|
    ensures CountCuts(AllWithoutMarkers(segments)[..i]) == CutNumber(segments, i)
  {
    if segments != [] {
      PieceOfSegment(segments, 0);
    }
    if i > 0 {
      CutsNumbered(segments, i - 1);
      PieceOfSegment(segments, i - 1);
      var ps := AllWithoutMarkers(segments);
      assert ps[..i][..i - 1] == ps[..i - 1];
    }
  }

  lemma FragmentOfSegment(segments: seq<Segment>, url: string, minimized: bool, nofollow: bool, i: nat)
    requires i < |segments|
    ensures
      var html := Fragments(AllWithoutMarkers(segments), url, minimized, nofollow);
      |html| == |segments| && RendersSegment(html[i], segments, i, url, minimized, nofollow)
  {
    PieceOfSegment(segments, i);
    CutsNumbered(segments, i);
    FragmentAt(AllWithoutMarkers(segments), url, minimized, nofollow, i);
  }

  lemma {:induction false} ShownIsAuthored(html: seq<Fragment>, segments: seq<Segment>, expanded: bool)
    requires |html| == |segments|
    requires forall i :: 0 <= i < |segments| ==>
               Shows(html[i]) == if segments[i].TextLines? || expanded then Concat(segments[i].lines) else ""
    ensures Shown(html) == Authored(segments, expanded)
    decreases |html|
  {
    if html != [] {
      ShownIsAuthored(html[1..], segments[1..], expanded);
    }
  }

  lemma {:induction false} ConcatLists(a: seq<string>, b: seq<string>)
    ensures Concat(a + b) == Concat(a) + Concat(b)
    decreases |a|
  {
    if a == [] {
      assert a + b == b;
    } else {
      assert (a + b)[1..] == a[1..] + b;
      ConcatLists(a[1..], b);
    }
  }

  /** Without cuts all lines are authored text. */
  lemma {:induction false} AllAuthored(segments: seq<Segment>, expanded: bool)
    requires forall i :: 0 <= i < |segments| ==> segments[i].TextLines?
    ensures Authored(segments, expanded) == Concat(AllLines(segments))
    decreases |segments|
  {
    if segments != [] {
      AllAuthored(segments[1..], expanded);
      ConcatLists(segments[0].lines, AllLines(segments[1..]));
    }
  }

  lemma {:induction false} NoCutNumbered(segments: seq<Segment>, i: nat)
    requires i <= |segments| && CutNumber(segments, i) == 0
    ensures forall j :: 0 <= j < i ==> segments[j].TextLines?
  {
    if i > 0 {
      NoCutNumbered(segments, i - 1);
    }
  }

  lemma {:induction false} RenderedWithoutCuts(source: string, segments: seq<Segment>, url: string, minimized: bool, nofollow: bool)
    requires Splits(source, segments) && CutNumber(segments, |segments|) == 0
    ensures Renders([Rendered(source, nofollow && !minimized)], source, segments, url, minimized, nofollow)
  {
    NoCutNumbered(segments, |segments|);
    AllAuthored(segments, !minimized);
    LinesAreLines(source);
    var html := [Rendered(source, nofollow && !minimized)];
    assert html[1..] == [];
    assert Shows(html[0]) + "" == source;
    assert Shown(html) == source;
    assert Authored(segments, !minimized) == source;
  }

  lemma ShowsSegment(f: Fragment, segments: seq<Segment>, i: nat, url: string, minimized: bool, effective: bool)
    requires i < |segments| && RendersSegment(f, segments, i, url, minimized, effective)
    ensures Shows(f) == if segments[i].TextLines? || !minimized then Concat(segments[i].lines) else ""
  {
  }

  lemma {:induction false} RenderedWithCuts(segments: seq<Segment>, url: string, minimized: bool, effective: bool)
    requires CutNumber(segments, |segments|) > 0
    ensures
      var html := Fragments(AllWithoutMarkers(segments), url, minimized, effective);
      && |html| == |segments| && Shown(html) == Authored(segments, !minimized)
      && forall i :: 0 <= i < |segments| ==> RendersSegment(html[i], segments, i, url, minimized, effective)
  {
    var html := Fragments(AllWithoutMarkers(segments), url, minimized, effective);
    FragmentOfSegment(segments, url, minimized, effective, 0);
    forall i | 0 <= i < |segments|
      ensures RendersSegment(html[i], segments, i, url, minimized, effective)
      ensures Shows(html[i]) == if segments[i].TextLines? || !minimized then Concat(segments[i].lines) else ""
    {
      FragmentOfSegment(segments, url, minimized, effective, i);
      ShowsSegment(html[i], segments, i, url, minimized, effective);
    }
    ShownIsAuthored(html, segments, !minimized);
  }

  /** Any topic, in both renderings, for any segments its pieces come from. */
  lemma {:induction false} SegmentsAreRendered(source: string, segments: seq<Segment>, url: string, minimized: bool, nofollow: bool)
    requires Splits(source, segments)
    ensures Renders(RenderedTopic(source, url, minimized, nofollow), source, segments, url, minimized, nofollow)
  {
    CutsNumbered(segments, |segments|);
    assert Pieces(source)[..|segments|] == Pieces(source);
    if CutNumber(segments, |segments|) == 0 {
      RenderedWithoutCuts(source, segments, url, minimized, nofollow);
    } else {
      RenderedWithCuts(segments, url, minimized, nofollow && !minimized);
    }
  }

  ghost predicate ShowsTopic(html: seq<Fragment>, source: string, url: string, minimized: bool, nofollow: bool) {
    exists segments: seq<Segment> ::
      Splits(source, segments) && Renders(html, source, segments, url, minimized, nofollow)
  }

  /** Both renderings show exactly the authored lines, each in its place. */
  lemma {:induction false} TopicIsRendered(source: string, url: string, minimized: bool, nofollow: bool)
    ensures ShowsTopic(RenderedTopic(source, url, minimized, nofollow), source, url, minimized, nofollow)
  {
    NothingLost(source);
    var segments: seq<Segment> :| Splits(source, segments);
    SegmentsAreRendered(source, segments, url, minimized, nofollow);
  }

  // ---------------------------------------------------------------- anchors agree

  lemma {:induction false} FragmentAt(ps: seq<Piece>, url: string, minimized: bool, nofollow: bool, i: nat)
    requires i < |ps|
    ensures |Fragments(ps, url, minimized, nofollow)| == |ps|
    ensures Fragments(ps, url, minimized, nofollow)[i] == RenderPiece(ps[i], CountCuts(ps[..i]), url, minimized, nofollow)
    decreases |ps|
  {
    var prior := ps[..|ps| - 1];
    if i < |prior| {
      FragmentAt(prior, url, minimized, nofollow, i);
      assert prior[..i] == ps[..i];
    } else {
      FragmentCount(prior, url, minimized, nofollow);
    }
  }

  lemma {:induction false} FragmentCount(ps: seq<Piece>, url: string, minimized: bool, nofollow: bool)
    ensures |Fragments(ps, url, minimized, nofollow)| == |ps|
    decreases |ps|
  {
    if ps != [] {
      FragmentCount(ps[..|ps| - 1], url, minimized, nofollow);
    }
  }

  lemma AnchorInjective(a: nat, b: nat)
    requires Anchor(a) == Anchor(b)
    ensures a == b
  {
    assert |"cut"| == 3;
    if a != 0 && b != 0 {
      assert Anchor(a)[4..] == Dec(a) && Anchor(b)[4..] == Dec(b);
      DecInjective(a, b);
    }
  }

  lemma {:induction false} CutsBefore(ps: seq<Piece>, i: nat, j: nat)
    requires i < j <= |ps| && ps[i].Cut?
    ensures CountCuts(ps[..i]) < CountCuts(ps[..j])
    decreases j
  {
    assert ps[..j][..j - 1] == ps[..j - 1];
    if i < j - 1 {
      CutsBefore(ps, i, j - 1);
    }
  }

  /**
   The link for a cut in the minimized rendering and the block for the same cut
   in the expanded one carry the same anchor, and no two cuts share an anchor.
   */
  lemma AnchorsAgree(source: string, url: string, nofollow: bool, i: nat, j: nat)
    requires i < |Pieces(source)| && j < |Pieces(source)| && Pieces(source)[i].Cut? && Pieces(source)[j].Cut?
    ensures
      var links := Fragments(Pieces(source), url, true, false);
      var blocks := Fragments(Pieces(source), url, false, nofollow);
      && |links| == |blocks| == |Pieces(source)|
      && links[i].Link? && blocks[j].Block?
      && (links[i].anchor == blocks[j].anchor <==> i == j)
  {
    var ps := Pieces(source);
    FragmentAt(ps, url, true, false, i);
    FragmentAt(ps, url, false, nofollow, j);
    if Anchor(CountCuts(ps[..i])) == Anchor(CountCuts(ps[..j])) {
      AnchorInjective(CountCuts(ps[..i]), CountCuts(ps[..j]));
      if i < j {
        CutsBefore(ps, i, j);
      } else if j < i {
        CutsBefore(ps, j, i);
      }
    }
  }
}
