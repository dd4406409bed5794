/**
 Where the attributes of test items are written.

 As long as no character literal misleads the masking pass, the attributes it
 finds are exactly written in code: all their visible characters are code, and
 an attribute written in code at a line start is found. Without that condition
 an attribute inside a string can be found, which a witness shows.
 */
module TestAttributes {
  import opened Options
  import opened Text
  import opened RouteMask
  import opened TestItems
  import opened RustPieces

  // ---------------------------------------------------------------- what the lexer leaves visible

  lemma {:induction false} BlankedAt(s: string, k: nat)
    requires k < |s|
    ensures Blanked(s)[k] == Blank(s[k])
    decreases k
  {
    if k > 0 {
      BlankedAt(s[1..], k - 1);
    }
  }

  lemma {:induction false} LiteralOnOneLine(text: string, j: nat, escaped: bool, k: nat)
    requires j <= k && j <= |text| && CharEnd(text, j, escaped).Some? && k < CharEnd(text, j, escaped).value
    ensures !IsLineBreak(text[k])
    decreases |text| - j
  {
    if j < k {
      LiteralOnOneLine(text, j + 1, !escaped && text[j] == '\\', k);
    }
  }

  /** A character literal of the masked text that shows position `h`. */
  ghost predicate ShowsLiteral(text: string, shown: string, i: nat, a: nat, h: nat)
    requires |shown| + i == |text|
  {
    && i <= a <= h < |text| && text[a] == '\'' && shown[a - i] == '\''
    && CharEnd(text, a + 1, false).Some? && h < CharEnd(text, a + 1, false).value
  }

  /** `m`, which starts at position `i`, leaves position `h` visible. */
  predicate VisibleIn(text: string, m: string, i: nat, h: nat) {
    i <= h < |text| && |m| == |text| - i && m[h - i] != ' ' && !IsLineBreak(m[h - i])
  }

  /** Masking from `i` on, with character literals, leaves position `h` visible. */
  ghost predicate Visible(text: string, i: nat, h: nat)
    requires i <= |text|
  {
    VisibleIn(text, Masked(text, i, true), i, h)
  }

  lemma VisibleRest(text: string, piece: string, rest: string, i: nat, h: nat)
    requires VisibleIn(text, piece + rest, i, h) && i + |piece| <= h
    ensures VisibleIn(text, rest, i + |piece|, h)
  {
  }

  lemma VisibleAfterCode(text: string, i: nat, h: nat)
    requires i < h < |text| && Visible(text, i, h) && LexicalEnd(text, i, true).None?
    ensures Visible(text, i + 1, h)
  {
    MaskedKeep(text, i, true);
    VisibleRest(text, [text[i]], Masked(text, i + 1, true), i, h);
  }

  lemma VisibleAfterPiece(text: string, i: nat, end: nat, h: nat)
    requires i < end <= h < |text| && Visible(text, i, h) && LexicalEnd(text, i, true) == Some(end)
    ensures Visible(text, end, h)
  {
    MaskedPiece(text, i, end, true);
    VisibleRest(text, ShownPiece(text, i, end), Masked(text, end, true), i, h);
  }

  /** Whatever the item scanner's lexer would leave visible is code or part of a character literal. */
  lemma {:induction false} ShownIsCode(text: string, i: nat, h: nat) returns (a: nat)
    requires i <= h < |text| && Visible(text, i, h)
    ensures |Masked(text, i, true)| == |text| - i
    ensures h in Codes(text, Rust(text), i) || ShowsLiteral(text, Masked(text, i, true), i, a, h)
    decreases |text| - i
  {
    a := i;
    match LexicalEnd(text, i, true)
    case None =>
      if i < h {
        VisibleAfterCode(text, i, h);
        a := ShownIsCode(text, i + 1, h);
        CodeKept(text, i, a, h);
      }
    case Some(end) =>
      if end <= h {
        VisibleAfterPiece(text, i, end, h);
        a := ShownIsCode(text, end, h);
        CodeSkipped(text, i, end, a, h);
      } else {
        PieceShowsLiteral(text, i, end, h);
      }
  }

  lemma CodeSkipped(text: string, i: nat, end: nat, a: nat, h: nat)
    requires i < end <= h < |text| && LexicalEnd(text, i, true) == Some(end) && |Masked(text, end, true)| == |text| - end
    requires h in Codes(text, Rust(text), end) || ShowsLiteral(text, Masked(text, end, true), end, a, h)
    ensures |Masked(text, i, true)| == |text| - i
    ensures h in Codes(text, Rust(text), i) || ShowsLiteral(text, Masked(text, i, true), i, a, h)
  {
    MaskedPiece(text, i, end, true);
    assert Codes(text, Rust(text), i) == Codes(text, Rust(text), end);
    ShowsLater(text, ShownPiece(text, i, end), Masked(text, end, true), i, end, a, h);
  }

  lemma CodeKept(text: string, i: nat, a: nat, h: nat)
    requires i < h < |text| && LexicalEnd(text, i, true).None? && |Masked(text, i + 1, true)| == |text| - i - 1
    requires h in Codes(text, Rust(text), i + 1) || ShowsLiteral(text, Masked(text, i + 1, true), i + 1, a, h)
    ensures |Masked(text, i, true)| == |text| - i
    ensures h in Codes(text, Rust(text), i) || ShowsLiteral(text, Masked(text, i, true), i, a, h)
  {
    MaskedKeep(text, i, true);
    assert Codes(text, Rust(text), i) == [i] + Codes(text, Rust(text), i + 1);
    if h !in Codes(text, Rust(text), i + 1) {
      ShowsLater(text, [text[i]], Masked(text, i + 1, true), i, i + 1, a, h);
    }
  }

  lemma ShowsLater(text: string, piece: string, rest: string, i: nat, end: nat, a: nat, h: nat)
    requires i + |piece| == end && |rest| + end == |text|
    ensures ShowsLiteral(text, rest, end, a, h) ==> ShowsLiteral(text, piece + rest, i, a, h)
  {
    assert end <= a < |text| ==> (piece + rest)[a - i] == rest[a - end];
  }

  lemma PieceShowsLiteral(text: string, i: nat, end: nat, h: nat)
    requires i <= h < end && i < |text| && LexicalEnd(text, i, true) == Some(end)
    requires Visible(text, i, h)
    ensures ShowsLiteral(text, Masked(text, i, true), i, i, h)
  {
    MaskedPiece(text, i, end, true);
    if text[i] == '\'' {
      LiteralIsPlain(text, i);
    } else {
      BlankedAt(text[i..end], h - i);
      assert false;
    }
  }

  lemma {:induction false} RunIsBlank(t: string, p: nat, k: nat)
    requires p <= k && p <= |t| && k < BlanksEnd(t, p)
    ensures IsBlank(t[k])
    decreases k - p
  {
    if p < k {
      RunIsBlank(t, p + 1, k);
    }
  }

  lemma MaskedIsText(text: string)
    ensures SameOrBlank(Masked(text, 0, false), text)
  {
    MaskedKeepsOffsets(text, 0, false);
    assert text[0..] == text;
  }

  // ---------------------------------------------------------------- the parts of an attribute

  /** Parts of visible characters, none an apostrophe. */
  predicate PlainParts(parts: seq<string>) {
    forall k, j :: 0 <= k < |parts| && 0 <= j < |parts[k]| ==> !IsPythonSpace(parts[k][j]) && parts[k][j] != '\''
  }

  predicate GoodParts(parts: seq<string>) {
    parts != [] && PlainParts(parts) && forall k :: 0 <= k < |parts| ==> parts[k] != ""
  }

  lemma AttributeIsPlain()
    ensures GoodParts(PARTS)
  {
    forall k, j | 0 <= k < |PARTS| && 0 <= j < |PARTS[k]|
      ensures !IsPythonSpace(PARTS[k][j]) && PARTS[k][j] != '\'' {
      assert k == 0 || k == 1 || k == 2 || k == 3 || k == 4 || k == 5 || k == 6;
    }
  }

  lemma PartAt(t: string, i: nat, parts: seq<string>, k: nat, j: nat)
    requires PlainParts(parts) && k < |parts| && At(t, parts[k], i) && i <= j < i + |parts[k]|
    ensures t[j] == parts[k][j - i] && !IsPythonSpace(t[j]) && t[j] != '\''
  {
    assert t[i..i + |parts[k]|][j - i] == t[j];
  }

  /** One part, and the space behind it, of a matched attribute. */
  lemma PartsStep(t: string, i: nat, parts: seq<string>, k: nat) returns (next: nat, q: nat)
    requires i <= |t| && k < |parts| && PartsEnd(t, i, parts, k).Some?
    ensures At(t, parts[k], i) && next == i + |parts[k]| <= |t| && q == SpacesEnd(t, next)
    ensures if k == |parts| - 1 then PartsEnd(t, i, parts, k) == Some(next)
            else PartsEnd(t, i, parts, k) == PartsEnd(t, q, parts, k + 1) && At(t, parts[k + 1], q)
  {
    next := i + |parts[k]|;
    q := SpacesEnd(t, next);
  }

  lemma {:induction false} SpacesAre(t: string, i: nat, j: nat)
    requires i <= |t| && i <= j < SpacesEnd(t, i)
    ensures IsPythonSpace(t[j])
    decreases j - i
  {
    if i < j {
      SpacesAre(t, i + 1, j);
    }
  }

  // ---------------------------------------------------------------- the attribute, written out

  predicate AllPythonSpace(s: string) { forall j :: 0 <= j < |s| ==> IsPythonSpace(s[j]) }

  predicate AllBlank(s: string) { forall j :: 0 <= j < |s| ==> s[j] == ' ' || s[j] == '\t' }

  /** The parts from the k-th on, with these spaces between them. */
  function Spread(parts: seq<string>, k: nat, spaces: seq<string>): string
    requires k < |parts| == k + |spaces| + 1
    decreases |parts| - k
  {
    if spaces == [] then parts[k] else parts[k] + spaces[0] + Spread(parts, k + 1, spaces[1..])
  }

  lemma {:induction false} SpacesEndIs(t: string, i: nat, n: nat)
    requires i + n <= |t| && AllPythonSpace(t[i..i + n]) && (i + n < |t| ==> !IsPythonSpace(t[i + n]))
    ensures SpacesEnd(t, i) == i + n
    decreases n
  {
    if n > 0 {
      assert t[i] == t[i..i + n][0];
      assert t[i + 1..i + n] == t[i..i + n][1..];
      SpacesEndIs(t, i + 1, n - 1);
    }
  }

  lemma {:induction false} BlanksEndIs(t: string, i: nat, n: nat)
    requires i + n <= |t| && AllBlank(t[i..i + n]) && (i + n < |t| ==> t[i + n] != ' ' && t[i + n] != '\t')
    ensures BlanksEnd(t, i) == i + n
    decreases n
  {
    if n > 0 {
      assert t[i] == t[i..i + n][0];
      assert t[i + 1..i + n] == t[i..i + n][1..];
      BlanksEndIs(t, i + 1, n - 1);
    }
  }

  lemma {:induction false} BlanksThere(t: string, i: nat)
    requires i <= |t|
    ensures AllBlank(t[i..BlanksEnd(t, i)])
    ensures BlanksEnd(t, i) < |t| ==> t[BlanksEnd(t, i)] != ' ' && t[BlanksEnd(t, i)] != '\t'
    decreases |t| - i
  {
    if BlanksEnd(t, i) > i {
      BlanksThere(t, i + 1);
      assert t[i..BlanksEnd(t, i)] == [t[i]] + t[i + 1..BlanksEnd(t, i)];
    }
  }

  lemma SpacesThere(t: string, i: nat)
    requires i <= |t|
    ensures AllPythonSpace(t[i..SpacesEnd(t, i)])
  {
    forall j | i <= j < SpacesEnd(t, i) ensures IsPythonSpace(t[j]) {
      SpacesAre(t, i, j);
    }
  }

  lemma ThreeSlices(t: string, i: nat, a: nat, b: nat, e: nat)
    requires i <= a <= b <= e <= |t|
    ensures t[i..e] == t[i..a] + t[a..b] + t[b..e]
  {
  }

  lemma {:induction false} PartsThere(t: string, i: nat, parts: seq<string>, k: nat) returns (spaces: seq<string>)
    requires i <= |t| && k < |parts| && PartsEnd(t, i, parts, k).Some?
    ensures k + |spaces| + 1 == |parts| && t[i..PartsEnd(t, i, parts, k).value] == Spread(parts, k, spaces)
    ensures forall j :: 0 <= j < |spaces| ==> AllPythonSpace(spaces[j])
    decreases |parts| - k
  {
    var next, q := PartsStep(t, i, parts, k);
    if k == |parts| - 1 {
      spaces := [];
    } else {
      SpacesThere(t, next);
      var later := PartsThere(t, q, parts, k + 1);
      spaces := [t[next..q]] + later;
      ThreeSlices(t, i, next, q, PartsEnd(t, i, parts, k).value);
      assert spaces[1..] == later;
    }
  }

  lemma SpreadStarts(parts: seq<string>, k: nat, spaces: seq<string>)
    requires GoodParts(parts) && k < |parts| == k + |spaces| + 1
    ensures Spread(parts, k, spaces) != "" && !IsPythonSpace(Spread(parts, k, spaces)[0])
  {
  }

  lemma ThreeParts(t: string, i: nat, e: nat, a: string, b: string, c: string)
    requires i <= e <= |t| && t[i..e] == a + b + c && c != ""
    ensures i + |a| + |b| < e && At(t, a, i) && t[i + |a|..i + |a| + |b|] == b && t[i + |a| + |b|..e] == c
    ensures t[i + |a| + |b|] == c[0]
  {
    Split3(t, i, i + |a| + |b|, e, a + b, c);
    Split3(t, i, i + |a|, i + |a| + |b|, a, b);
    assert t[i + |a| + |b|] == t[i + |a| + |b|..e][0];
  }

  lemma {:induction false} PartsFound(t: string, i: nat, e: nat, parts: seq<string>, k: nat, spaces: seq<string>)
    requires GoodParts(parts) && k < |parts| == k + |spaces| + 1 && i <= e <= |t| && t[i..e] == Spread(parts, k, spaces)
    requires forall j :: 0 <= j < |spaces| ==> AllPythonSpace(spaces[j])
    ensures PartsEnd(t, i, parts, k) == Some(e)
    decreases |parts| - k
  {
    if spaces != [] {
      var rest := Spread(parts, k + 1, spaces[1..]);
      SpreadStarts(parts, k + 1, spaces[1..]);
      ThreeParts(t, i, e, parts[k], spaces[0], rest);
      SpacesEndIs(t, i + |parts[k]|, |spaces[0]|);
      PartsFound(t, i + |parts[k]| + |spaces[0]|, e, parts, k + 1, spaces[1..]);
    }
  }

  /** The text of a line from `p` to `e`: blanks, the attribute's own text, blanks. */
  ghost predicate IsLineOf(t: string, p: nat, e: nat, indent: string, body: string, behind: string) {
    && p <= e <= |t| && (p == 0 || t[p - 1] == '\n') && AllBlank(indent) && AllBlank(behind)
    && t[p..e] == indent + body + behind && (e < |t| ==> t[e] != ' ' && t[e] != '\t')
  }

  /**
   At a line start, behind blanks, the attribute with white space anywhere
   between its seven parts, and all blanks behind it.
   */
  ghost predicate IsAttribute(t: string, p: nat, e: nat, indent: string, s: seq<string>, behind: string) {
    && |s| == 6 && (forall j :: 0 <= j < |s| ==> AllPythonSpace(s[j]))
    && IsLineOf(t, p, e, indent, Attribute(s), behind)
  }

  function Attribute(s: seq<string>): string
    requires |s| == 6
  {
    "#" + s[0] + ("[" + s[1] + ("cfg" + s[2] + ("(" + s[3] + ("test" + s[4] + (")" + s[5] + "]")))))
  }

  lemma AttributeSpread(s: seq<string>)
    requires |s| == 6
    ensures Spread(PARTS, 0, s) == Attribute(s)
  {
    SpreadStep(6, s[6..]);
    SpreadStep(5, s[5..]);
    SpreadStep(4, s[4..]);
    SpreadStep(3, s[3..]);
    SpreadStep(2, s[2..]);
    SpreadStep(1, s[1..]);
    SpreadStep(0, s);
    assert s[5..][1..] == s[6..] && s[4..][1..] == s[5..] && s[3..][1..] == s[4..];
    assert s[2..][1..] == s[3..] && s[1..][1..] == s[2..];
  }

  lemma SpreadStep(k: nat, spaces: seq<string>)
    requires k < 7 && k + |spaces| + 1 == 7
    ensures |PARTS| == 7
    ensures Spread(PARTS, k, spaces) == if spaces == [] then PARTS[k] else PARTS[k] + spaces[0] + Spread(PARTS, k + 1, spaces[1..])
  {
  }

  /** Where the expression matches, and up to where. */
  lemma AttributeIff(t: string, p: nat, e: nat)
    requires p <= |t|
    ensures AttributeEnd(t, p) == Some(e)
            <==> exists indent: string, s: seq<string>, behind: string :: IsAttribute(t, p, e, indent, s, behind)
  {
    if AttributeEnd(t, p) == Some(e) {
      AttributeSpelled(t, p, e);
    }
    if indent: string, s: seq<string>, behind: string :| IsAttribute(t, p, e, indent, s, behind) {
      AttributeFound(t, p, e, indent, s, behind);
    }
  }

  lemma LineSpelled(t: string, p: nat, e: nat, parts: seq<string>) returns (indent: string, s: seq<string>, behind: string)
    requires p <= |t| && parts != [] && LineAttributeEnd(t, p, parts) == Some(e)
    ensures |s| + 1 == |parts| && (forall j :: 0 <= j < |s| ==> AllPythonSpace(s[j]))
    ensures IsLineOf(t, p, e, indent, Spread(parts, 0, s), behind)
  {
    var h := BlanksEnd(t, p);
    var m := PartsEnd(t, h, parts, 0).value;
    BlanksThere(t, p);
    BlanksThere(t, m);
    s := PartsThere(t, h, parts, 0);
    indent, behind := t[p..h], t[m..e];
    ThreeSlices(t, p, h, m, e);
  }

  lemma LineFound(t: string, p: nat, e: nat, parts: seq<string>, indent: string, body: string, s: seq<string>, behind: string)
    requires GoodParts(parts) && |s| + 1 == |parts| && forall j :: 0 <= j < |s| ==> AllPythonSpace(s[j])
    requires body == Spread(parts, 0, s) && IsLineOf(t, p, e, indent, body, behind)
    ensures LineAttributeEnd(t, p, parts) == Some(e)
  {
    var h := p + |indent|;
    var m := h + |body|;
    SpreadStarts(parts, 0, s);
    Split3(t, p, m, e, indent + body, behind);
    Split3(t, p, h, m, indent, body);
    assert t[h] == t[h..m][0];
    BlanksEndIs(t, p, |indent|);
    BlanksEndIs(t, m, |behind|);
    PartsFound(t, h, m, parts, 0, s);
  }

  lemma AttributeSpelled(t: string, p: nat, e: nat)
    requires p <= |t| && AttributeEnd(t, p) == Some(e)
    ensures exists indent: string, s: seq<string>, behind: string :: IsAttribute(t, p, e, indent, s, behind)
  {
    var indent, s, behind := LineSpelled(t, p, e, PARTS);
    AttributeSpread(s);
    assert IsAttribute(t, p, e, indent, s, behind);
  }

  lemma AttributeFound(t: string, p: nat, e: nat, indent: string, s: seq<string>, behind: string)
    requires IsAttribute(t, p, e, indent, s, behind)
    ensures AttributeEnd(t, p) == Some(e)
  {
    AttributeSpread(s);
    AttributeIsPlain();
    LineFound(t, p, e, PARTS, indent, Spread(PARTS, 0, s), s, behind);
  }

  lemma {:induction false} PartsHaveNoApostrophe(t: string, i: nat, parts: seq<string>, k: nat, j: nat)
    requires PlainParts(parts) && i <= |t| && k < |parts|
    requires PartsEnd(t, i, parts, k).Some? && i <= j < PartsEnd(t, i, parts, k).value
    ensures t[j] != '\''
    decreases |parts| - k
  {
    var next, q := PartsStep(t, i, parts, k);
    if j < next {
      PartAt(t, i, parts, k, j);
    } else if j < q {
      SpacesAre(t, next, j);
    } else {
      PartsHaveNoApostrophe(t, q, parts, k + 1, j);
    }
  }

  lemma AttributeHasNoApostrophe(t: string, p: nat, j: nat)
    requires p <= |t| && AttributeEnd(t, p).Some? && p <= j < AttributeEnd(t, p).value
    ensures t[j] != '\''
  {
    var h := BlanksEnd(t, p);
    var end := PartsEnd(t, h, PARTS, 0).value;
    AttributeIsPlain();
    if j < h {
      RunIsBlank(t, p, j);
    } else if j < end {
      PartsHaveNoApostrophe(t, h, PARTS, 0, j);
    } else {
      RunIsBlank(t, end, j);
    }
  }

  // ---------------------------------------------------------------- what is found is written in code

  /** A literal cannot show a position of a line's part without apostrophes. */
  lemma NoLiteralThere(text: string, masked: string, p: nat, a: nat, k: nat)
    requires SameOrBlank(masked, text) && p <= k < |text| && (p > 0 ==> masked[p - 1] == '\n')
    requires forall j :: p <= j <= k ==> masked[j] != '\''
    ensures !ShowsLiteral(text, masked, 0, a, k)
  {
    if ShowsLiteral(text, masked, 0, a, k) && a < p {
      assert a != p - 1;
      LiteralOnOneLine(text, a + 1, false, p - 1);
    }
  }

  /**
   When no character literal misleads the masking pass, every attribute it
   finds is written in code: each of its visible characters is a code character
   of the text.
   */
  lemma AttributeIsCode(text: string, p: nat, k: nat)
    requires |Masked(text, 0, false)| == |text| && LiteralsClean(text, 0)
    requires p <= |text| && AttributeEnd(Masked(text, 0, false), p).Some?
    requires p <= k < AttributeEnd(Masked(text, 0, false), p).value
    requires Masked(text, 0, false)[k] != ' ' && !IsLineBreak(Masked(text, 0, false)[k])
    ensures k in Codes(text, Rust(text), 0) && text[k] == Masked(text, 0, false)[k]
  {
    var masked := Masked(text, 0, false);
    LexersAgreeIff(text);
    MaskedIsText(text);
    forall j | p <= j <= k ensures masked[j] != '\'' {
      AttributeHasNoApostrophe(masked, p, j);
    }
    VisibleIsCode(text, masked, p, k);
  }

  lemma VisibleIsCode(text: string, masked: string, p: nat, k: nat)
    requires SameOrBlank(masked, text) && masked == Masked(text, 0, true) && p <= k < |text|
    requires (p > 0 ==> masked[p - 1] == '\n') && forall j :: p <= j <= k ==> masked[j] != '\''
    requires masked[k] != ' ' && !IsLineBreak(masked[k])
    ensures k in Codes(text, Rust(text), 0) && text[k] == masked[k]
  {
    var a := ShownIsCode(text, 0, k);
    NoLiteralThere(text, masked, p, a, k);
  }

  // ---------------------------------------------------------------- what is written in code is found

  predicate ShownRight(source: string, shown: string, j: int) {
    |shown| == |source| && 0 <= j < |source| && shown[j] == source[j]
  }

  lemma {:induction false} CharsAreShown(ps: Pieces, i: nat, k: nat)
    requires k in CharPositions(ps, i)
    ensures ShownRight(Source(ps), Shown(ps), k - i)
    decreases ps
  {
    match ps
    case Then(p, rest) =>
      if p.Char? && k == i {
        ShownLength(rest);
        ShownHead(p, Source(rest), Shown(rest));
      } else {
        BehindFirst(p, rest, i, k);
        CharsAreShown(rest, i + |PieceText(p)|, k);
        ShownBehind(p, Source(rest), Shown(rest), k - i);
      }
  }

  lemma BehindFirst(p: Piece, rest: Pieces, i: nat, k: nat)
    requires k in CharPositions(Then(p, rest), i) && !(p.Char? && k == i)
    ensures k in CharPositions(rest, i + |PieceText(p)|)
  {
    assert CharPositions(Then(p, rest), i) == (if p.Char? then [i] else []) + CharPositions(rest, i + |PieceText(p)|);
  }

  lemma ShownHead(p: Piece, source: string, shown: string)
    requires p.Char? && |shown| == |source|
    ensures ShownRight(PieceText(p) + source, Show(p) + shown, 0)
  {
  }

  lemma ShownBehind(p: Piece, source: string, shown: string, j: int)
    requires ShownRight(source, shown, j - |PieceText(p)|)
    ensures ShownRight(PieceText(p) + source, Show(p) + shown, j)
  {
  }

  lemma {:induction false} ShownLength(ps: Pieces)
    ensures |Shown(ps)| == |Source(ps)|
    decreases ps
  {
    if ps.Then? {
      ShownLength(ps.rest);
    }
  }

  /** Masking that knows character literals shows every code character as it is. */
  lemma CodeIsShown(text: string, k: nat)
    requires k in Codes(text, Rust(text), 0)
    ensures k < |text| && |Masked(text, 0, true)| == |text| && Masked(text, 0, true)[k] == text[k]
  {
    var ps := EveryTextIsLexed(text, true);
    CodesAreCharacters(ps);
    MaskShowsPieces(ps, true);
    CharsAreShown(ps, 0, k);
  }

  /** On `a..b`, `m` shows every character of `t`, except that space may have become blank. */
  ghost predicate Alike(t: string, m: string, a: nat, b: nat) {
    |m| == |t| && forall k :: a <= k < b && k < |t| ==> m[k] == t[k] || (m[k] == ' ' && IsPythonSpace(t[k]))
  }

  lemma {:induction false} SpacesAlike(t: string, m: string, i: nat, q: nat)
    requires i <= q < |t| && q == SpacesEnd(t, i) && Alike(t, m, i, q + 1)
    ensures SpacesEnd(m, i) == q
    decreases q - i
  {
    if i < q {
      SpacesAlike(t, m, i + 1, q);
    }
  }

  lemma {:induction false} BlanksAlike(t: string, m: string, i: nat, q: nat)
    requires i <= q < |t| && q == BlanksEnd(t, i) && Alike(t, m, i, q + 1) && !IsPythonSpace(t[q])
    ensures BlanksEnd(m, i) == q
    decreases q - i
  {
    if i < q {
      BlanksAlike(t, m, i + 1, q);
    }
  }

  lemma PartAlike(t: string, m: string, i: nat, parts: seq<string>, k: nat)
    requires PlainParts(parts) && k < |parts| && At(t, parts[k], i) && Alike(t, m, i, i + |parts[k]|)
    ensures At(m, parts[k], i)
  {
    var part := parts[k];
    forall j | 0 <= j < |part| ensures m[i..i + |part|][j] == part[j] {
      PartAt(t, i, parts, k, i + j);
    }
    assert m[i..i + |part|] == part;
  }

  lemma {:induction false} PartsAlike(t: string, m: string, i: nat, parts: seq<string>, k: nat)
    requires GoodParts(parts) && i <= |t| && k < |parts| && PartsEnd(t, i, parts, k).Some? && Alike(t, m, i, PartsEnd(t, i, parts, k).value)
    ensures PartsEnd(m, i, parts, k) == PartsEnd(t, i, parts, k)
    decreases |parts| - k
  {
    var next, q := PartsStep(t, i, parts, k);
    PartAlike(t, m, i, parts, k);
    if k < |parts| - 1 {
      PartAt(t, q, parts, k + 1, q);
      SpacesAlike(t, m, next, q);
      PartsAlike(t, m, q, parts, k + 1);
    }
  }

  /**
   Under the same condition, an attribute written at a line start with all its
   characters but the space between them in code is found, so no such test item
   is overlooked.
   */
  lemma WrittenIsFound(text: string, p: nat)
    requires |Masked(text, 0, false)| == |text| && LiteralsClean(text, 0)
    requires p <= |text| && AttributeEnd(text, p).Some?
    requires forall k :: p <= k < AttributeEnd(text, p).value && !IsPythonSpace(text[k]) ==> k in Codes(text, Rust(text), 0)
    ensures AttributeEnd(Masked(text, 0, false), p).Some?
    ensures InSome(Ranges(text, Rust(text), Masked(text, 0, false), 0), p)
  {
    var masked := Masked(text, 0, false);
    LexersAgreeIff(text);
    MaskedIsText(text);
    CodeIsAlike(text, masked, p, AttributeEnd(text, p).value);
    AttributeIsPlain();
    AttributeAlike(text, masked, p, PARTS);
    EveryAttributeCovered(text, Rust(text), masked, 0, p);
  }

  lemma CodeIsAlike(text: string, masked: string, p: nat, m: nat)
    requires SameOrBlank(masked, text) && masked == Masked(text, 0, true)
    requires forall k :: p <= k < m && k < |text| && !IsPythonSpace(text[k]) ==> k in Codes(text, Rust(text), 0)
    ensures Alike(text, masked, p, m)
  {
    forall k | p <= k < m && k < |text| ensures masked[k] == text[k] || (masked[k] == ' ' && IsPythonSpace(text[k])) {
      if !IsPythonSpace(text[k]) {
        CodeIsShown(text, k);
      }
    }
  }

  lemma AttributeAlike(t: string, m: string, p: nat, parts: seq<string>)
    requires GoodParts(parts) && SameOrBlank(m, t) && p <= |t| && LineAttributeEnd(t, p, parts).Some?
    requires Alike(t, m, p, LineAttributeEnd(t, p, parts).value)
    ensures LineAttributeEnd(m, p, parts).Some?
  {
    OpeningAlike(t, m, p, parts);
  }

  lemma OpeningAlike(t: string, m: string, p: nat, parts: seq<string>)
    requires GoodParts(parts) && |m| == |t| && p <= |t| && PartsEnd(t, BlanksEnd(t, p), parts, 0).Some?
    requires Alike(t, m, p, PartsEnd(t, BlanksEnd(t, p), parts, 0).value)
    ensures PartsEnd(m, BlanksEnd(m, p), parts, 0) == PartsEnd(t, BlanksEnd(t, p), parts, 0)
  {
    var h := BlanksEnd(t, p);
    var next, q := PartsStep(t, h, parts, 0);
    PartAt(t, h, parts, 0, h);
    BlanksAlike(t, m, p, h);
    PartsAlike(t, m, h, parts, 0);
  }

  // ---------------------------------------------------------------- an attribute found in a string

  /** A double quote as a character literal, then `inside` as a string. */
  function Misleading(inside: string): string { "'\"'\"" + inside + "\"" }

  /** Nothing that could start a comment, a string or an escape. */
  predicate Harmless(s: string) { '"' !in s && '/' !in s && '\\' !in s && 'r' !in s }

  /** The characters of `s`, then `last`. */
  function Chars(s: string, last: Pieces): Pieces {
    if s == "" then last else Then(Char(s[0]), Chars(s[1..], last))
  }

  lemma RawStart(s: string, p: string, n: nat)
    requires IsRawPrefix(p) && Starts(s, RawOpener(p, n))
    ensures 'r' in s && s[0] == p[0]
  {
    var o := RawOpener(p, n);
    var k := |p| - 1;
    assert o[k] == 'r' && o[0] == p[0];
    assert s[k] == s[..|o|][k] && s[0] == s[..|o|][0];
  }

  lemma NoRawThere(s: string)
    requires 'r' !in s || (s != "" && s[0] == '\'')
    ensures !OpensRaw(s)
  {
    if p: string, n: nat :| IsRawPrefix(p) && Starts(s, RawOpener(p, n)) {
      RawStart(s, p, n);
    }
  }

  /** Harmless text in front of a string is lexed character by character. */
  lemma {:induction false} HarmlessIsLexed(s: string, last: Pieces)
    requires Harmless(s) && WellLexed(last, false) && Source(last) == "\""
    ensures Source(Chars(s, last)) == s + "\"" && Shown(Chars(s, last)) == s + Shown(last)
    ensures WellLexed(Chars(s, last), false)
    decreases |s|
  {
    if s == "" {
      assert "" + Shown(last) == Shown(last);
    } else {
      HarmlessIsLexed(s[1..], last);
      HarmlessChar(s);
      CharInFront(s[0], Chars(s[1..], last), s[1..], Shown(last));
    }
  }

  lemma CharInFront(c: char, more: Pieces, tail: string, shown: string)
    requires Source(more) == tail + "\"" && Shown(more) == tail + shown
    ensures Source(Then(Char(c), more)) == ([c] + tail) + "\"" && Shown(Then(Char(c), more)) == ([c] + tail) + shown
  {
    assert [c] + (tail + "\"") == ([c] + tail) + "\"" && [c] + (tail + shown) == ([c] + tail) + shown;
  }

  lemma HarmlessChar(s: string)
    requires Harmless(s) && s != ""
    ensures IsPiece(Char(s[0]), s[1..] + "\"", false) && s == [s[0]] + s[1..]
  {
    NoRawThere([s[0]] + (s[1..] + "\""));
  }

  /** The masking pass takes the character literal's quote for a string's, and the string's text for code. */
  lemma MisleadingMask(inside: string)
    requires Harmless(inside)
    ensures Masked(Misleading(inside), 0, false) == "'   " + inside + " "
  {
    var last := Then(StringLiteral(""), Done);
    LastQuote();
    HarmlessIsLexed(inside, last);
    var middle := Chars(inside, last);
    MisleadingPieces(inside, middle);
    MaskShowsPieces(Then(Char('\''), Then(StringLiteral("'\""), middle)), false);
  }

  lemma MisleadingPieces(inside: string, middle: Pieces)
    requires WellLexed(middle, false) && Source(middle) == inside + "\"" && Shown(middle) == inside + " "
    ensures
      var all := Then(Char('\''), Then(StringLiteral("'\""), middle));
      WellLexed(all, false) && Source(all) == Misleading(inside) && Shown(all) == "'   " + inside + " "
  {
    QuotedQuote(Source(middle));
    var p := StringLiteral("'\"");
    QuoteInFront(p, middle, inside);
    ApostropheInFront(Then(p, middle));
    MisleadingText(inside);
  }

  lemma QuoteInFront(p: Piece, middle: Pieces, inside: string)
    requires WellLexed(middle, false) && Source(middle) == inside + "\"" && Shown(middle) == inside + " "
    requires IsPiece(p, Source(middle), false) && PieceText(p) == "\"'\"" && Show(p) == "   "
    ensures WellLexed(Then(p, middle), false)
    ensures Source(Then(p, middle)) == "\"'\"" + (inside + "\"") && Shown(Then(p, middle)) == "   " + (inside + " ")
  {
  }

  lemma ApostropheInFront(quoted: Pieces)
    requires WellLexed(quoted, false)
    ensures
      var all := Then(Char('\''), quoted);
      WellLexed(all, false) && Source(all) == ['\''] + Source(quoted) && Shown(all) == ['\''] + Shown(quoted)
  {
    NoRawThere(['\''] + Source(quoted));
  }

  lemma MisleadingText(inside: string)
    ensures ['\''] + ("\"'\"" + (inside + "\"")) == Misleading(inside)
    ensures ['\''] + ("   " + (inside + " ")) == "'   " + inside + " "
  {
  }

  lemma LastQuote()
    ensures Source(Then(StringLiteral(""), Done)) == "\"" && Shown(Then(StringLiteral(""), Done)) == " "
    ensures WellLexed(Then(StringLiteral(""), Done), false)
  {
    assert "\"" + "" == "\"" && "\""[1..] == "" && Blanked("\"") == " ";
  }

  lemma QuotedQuote(rest: string)
    ensures IsPiece(StringLiteral("'\""), rest, false) && PieceText(StringLiteral("'\"")) == "\"'\""
    ensures Show(StringLiteral("'\"")) == "   "
  {
    assert "'\""[1..] == "\"" && StringBody("\"", rest);
    assert "\"'\""[1..] == "'\"" && Blanked("\"") == " " && Blanked("'\"") == "  ";
  }

  lemma {:induction false} StringBodyPlain(t: string)
    requires '"' !in t && '\\' !in t
    ensures StringBody(t + "\"", "")
    decreases |t|
  {
    if t == "" {
      assert t + "\"" == "\"";
    } else {
      StringBodyPlain(t[1..]);
      assert (t + "\"")[1..] == t[1..] + "\"";
    }
  }

  /** The item scanner's lexer sees a character literal and a string, and no code at all. */
  lemma MisleadingHasNoCode(inside: string)
    requires Harmless(inside)
    ensures Codes(Misleading(inside), Rust(Misleading(inside)), 0) == []
  {
    StringBodyPlain(inside);
    assert "\"'"[1..] == "'" && CharBody("'") && CharBody("\"'");
    var quoted := Then(StringLiteral(inside + "\""), Done);
    var all := Then(CharLiteral("\"'"), quoted);
    assert Source(quoted) == "\"" + (inside + "\"") + "" == "\"" + (inside + "\"");
    assert Source(all) == ("'" + "\"'") + Source(quoted) == Misleading(inside);
    CodesAreCharacters(all);
    assert CharPositions(quoted, 3) == [] + CharPositions(Done, 3 + |PieceText(quoted.first)|) == [];
    assert CharPositions(all, 0) == [] + CharPositions(quoted, 3);
  }

  lemma OnePart(t: string, i: nat, parts: seq<string>, k: nat, end: nat)
    requires k + 1 < |parts| && At(t, parts[k], i) && i + |parts[k]| < |t| && !IsPythonSpace(t[i + |parts[k]|])
    requires PartsEnd(t, i + |parts[k]|, parts, k + 1) == Some(end)
    ensures PartsEnd(t, i, parts, k) == Some(end)
  {
  }

  lemma AttributeThere(t: string)
    requires t == "'   \n#[cfg(test)] "
    ensures AttributeEnd(t, 5).Some?
  {
    assert t[16..17] == "]";
    assert PartsEnd(t, 16, PARTS, 6) == Some(17);
    assert t[15..16] == ")";
    OnePart(t, 15, PARTS, 5, 17);
    assert t[11..15] == "test";
    OnePart(t, 11, PARTS, 4, 17);
    assert t[10..11] == "(";
    OnePart(t, 10, PARTS, 3, 17);
    assert t[7..10] == "cfg";
    OnePart(t, 7, PARTS, 2, 17);
    assert t[6..7] == "[";
    OnePart(t, 6, PARTS, 1, 17);
    assert t[5..6] == "#";
    OnePart(t, 5, PARTS, 0, 17);
    assert BlanksEnd(t, 5) == 5;
  }

  /** Whatever attribute harmless text in such a string holds is found, though the text has no code at all. */
  lemma FoundWithoutCode(inside: string, p: nat)
    requires Harmless(inside) && p <= |inside| + 5 && AttributeEnd("'   " + inside + " ", p).Some?
    ensures |Masked(Misleading(inside), 0, false)| == |Misleading(inside)|
    ensures AttributeEnd(Masked(Misleading(inside), 0, false), p).Some?
    ensures Codes(Misleading(inside), Rust(Misleading(inside)), 0) == []
  {
    MisleadingMask(inside);
    MisleadingHasNoCode(inside);
    MaskedIsText(Misleading(inside));
  }

  lemma AttributeIsHarmless(inside: string)
    requires inside == "\n#[cfg(test)]"
    ensures Harmless(inside) && "'   " + inside + " " == "'   \n#[cfg(test)] "
  {
  }

  /**
   The statement that attributes are found only in code fails on this text: it
   has no code character at all, yet an attribute is found in it.
   */
  lemma AttributeFoundInString(inside: string)
    requires inside == "\n#[cfg(test)]"
    ensures |Masked(Misleading(inside), 0, false)| == |Misleading(inside)|
    ensures AttributeEnd(Masked(Misleading(inside), 0, false), 5).Some?
    ensures Codes(Misleading(inside), Rust(Misleading(inside)), 0) == []
  {
    AttributeIsHarmless(inside);
    AttributeThere("'   " + inside + " ");
    FoundWithoutCode(inside, 5);
  }
}
