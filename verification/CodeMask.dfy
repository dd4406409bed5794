/** Blanking comments and string contents of Java or Scala text without moving anything. */
module CodeMask {
  import opened Options
  import opened Text

  predicate IsQuote(c: char) { c == '"' || c == '\'' }

  predicate ClosesBlock(s: string) { |s| >= 2 && s[0] == '*' && s[1] == '/' }

  /** A newline stays, everything else becomes a space. */
  function Blank(c: char): char { if c == '\n' then c else ' ' }

  function Blanked(s: string): string
    decreases |s|
  {
    if s == "" then "" else [Blank(s[0])] + Blanked(s[1..])
  }

  // ---------------------------------------------------------------- the machine

  datatype Mode = Code | Line | Block | Quote(quote: char) | Escaped(quote: char)

  /** What the machine writes for `s` when it reaches it in `mode`. */
  function Mask(s: string, mode: Mode): string
    decreases |s|
  {
    if s == "" then ""
    else
      match mode
      case Line => [Blank(s[0])] + Mask(s[1..], if s[0] == '\n' then Code else Line)
      case Block =>
        if ClosesBlock(s) then "  " + Mask(s[2..], Code) else [Blank(s[0])] + Mask(s[1..], Block)
      case Escaped(q) => [Blank(s[0])] + Mask(s[1..], Quote(q))
      case Quote(q) =>
        if s[0] == '\\' then " " + Mask(s[1..], Escaped(q))
        else if s[0] == q then " " + Mask(s[1..], Code)
        else [Blank(s[0])] + Mask(s[1..], Quote(q))
      case Code =>
        if OpensComment(s) then "  " + Mask(s[2..], if s[1] == '/' then Line else Block)
        else if IsQuote(s[0]) then " " + Mask(s[1..], Quote(s[0]))
        else [s[0]] + Mask(s[1..], Code)
  }

  function ModeOf(quote: Option<char>, escaped: bool, lineComment: bool, blockComment: bool): Mode {
    if lineComment then Line
    else if blockComment then Block
    else if quote.Some? then if escaped then Escaped(quote.value) else Quote(quote.value)
    else Code
  }

  /** One character of a literal: what is written, whether the literal goes on, and whether an escape begins. */
  method InLiteral(c: char, quote: char, escaped: bool) returns (shown: char, open: bool, escapes: bool)
    ensures shown == CharShown([c], if escaped then Escaped(quote) else Quote(quote))
    ensures AfterOne([c], if escaped then Escaped(quote) else Quote(quote))
            == if !open then Code else if escapes then Escaped(quote) else Quote(quote)
    ensures escapes ==> open
  {
    shown, open, escapes := Blank(c), true, false;
    if !escaped {
      if c == '\\' {
        shown, escapes := ' ', true;
      } else if c == quote {
        shown, open := ' ', false;
      }
    }
  }

  /** At most one of the machine's flags is up, and only a literal has an escape. */
  predicate SaneFlags(quote: Option<char>, escaped: bool, lineComment: bool, blockComment: bool) {
    && (lineComment ==> !blockComment && quote.None?) && (blockComment ==> quote.None?) && (escaped ==> quote.Some?)
  }

  /**
   What happens at the character `c` in front of `next`, which `s` starts with:
   the flags behind it, what is written there, and whether two characters are blanked.
   */
  method Decide(
      c: char, next: Option<char>, quote: Option<char>, escaped: bool, lineComment: bool, blockComment: bool, ghost s: string)
    returns (two: bool, shown: char, quote': Option<char>, escaped': bool, lineComment': bool, blockComment': bool)
    requires SaneFlags(quote, escaped, lineComment, blockComment)
    requires s != "" && s[0] == c && next == if |s| >= 2 then Some(s[1]) else None
    ensures SaneFlags(quote', escaped', lineComment', blockComment')
    ensures two <==> StepsTwo(s, ModeOf(quote, escaped, lineComment, blockComment))
    ensures two ==> ModeOf(quote', escaped', lineComment', blockComment')
                    == AfterTwo(s, ModeOf(quote, escaped, lineComment, blockComment))
    ensures !two ==> ModeOf(quote', escaped', lineComment', blockComment')
                     == AfterOne(s, ModeOf(quote, escaped, lineComment, blockComment))
                     && shown == CharShown(s, ModeOf(quote, escaped, lineComment, blockComment))
  {
    two, shown := false, c;
    quote', escaped', lineComment', blockComment' := quote, escaped, lineComment, blockComment;
    if lineComment {
      if c == '\n' {
        lineComment' := false;
      } else {
        shown := ' ';
      }
    } else if blockComment {
      if c == '*' && next == Some('/') {
        two, blockComment' := true, false;
      } else if c != '\n' {
        shown := ' ';
      }
    } else if quote.Some? {
      var open;
      shown, open, escaped' := InLiteral(c, quote.value, escaped);
      if !open {
        quote' := None;
      }
    } else if c == '/' && next == Some('/') {
      two, lineComment' := true, true;
    } else if c == '/' && next == Some('*') {
      two, blockComment' := true, true;
    } else if IsQuote(c) {
      shown, quote' := ' ', Some(c);
    }
  }

  /** Masking in place, one or two characters a step. */
  method MaskCode(chars: array<char>)
    modifies chars
    ensures chars[..] == Mask(old(chars[..]), Code)
  {
    var quote: Option<char> := None;
    var escaped, lineComment, blockComment := false, false, false;
    var i := 0;
    ghost var text := chars[..];
    assert chars[..0] == "" && text[0..] == text;
    while i < chars.Length
      invariant i <= chars.Length && SaneFlags(quote, escaped, lineComment, blockComment)
      invariant Rest(chars[..], text, i, ModeOf(quote, escaped, lineComment, blockComment))
    {
      ghost var before, mode := chars[..], ModeOf(quote, escaped, lineComment, blockComment);
      Peek(before, text, i, mode);
      var c := chars[i];
      var next := if i + 1 < chars.Length then Some(chars[i + 1]) else None;
      var two, shown;
      two, shown, quote, escaped, lineComment, blockComment :=
        Decide(c, next, quote, escaped, lineComment, blockComment, text[i..]);
      if two {
        TwoStep(before, text, i, mode);
        chars[i], chars[i + 1] := ' ', ' ';
        i := i + 2;
        assert chars[..] == before[i - 2 := ' '][i - 1 := ' '];
      } else {
        OneStep(before, text, i, mode);
        chars[i] := shown;
        i := i + 1;
        assert chars[..] == before[i - 1 := shown];
      }
    }
    assert chars[..] == chars[..][..i] + Mask(text[i..], ModeOf(quote, escaped, lineComment, blockComment));
  }

  /** The first `i` characters are written, the rest is still the text. */
  ghost predicate Rest(current: string, text: string, i: nat, mode: Mode) {
    && i <= |current| == |text|
    && current[i..] == text[i..]
    && current[..i] + Mask(text[i..], mode) == Mask(text, Code)
  }

  /** The text still to come starts with what the array still holds. */
  lemma Peek(before: string, text: string, i: nat, mode: Mode)
    requires i < |before| && Rest(before, text, i, mode)
    ensures text[i..] != "" && text[i..][0] == before[i]
    ensures if i + 1 < |before| then |text[i..]| >= 2 && text[i..][1] == before[i + 1] else |text[i..]| == 1
  {
    assert before[i..] == text[i..];
  }

  /** The character written by a step over one character. */
  function CharShown(s: string, mode: Mode): char
    requires s != ""
  {
    match mode
    case Line => Blank(s[0])
    case Block => Blank(s[0])
    case Escaped(_) => Blank(s[0])
    case Quote(q) => if s[0] == '\\' || s[0] == q then ' ' else Blank(s[0])
    case Code => if IsQuote(s[0]) then ' ' else s[0]
  }

  lemma MaskOne(s: string, mode: Mode)
    requires s != "" && !StepsTwo(s, mode)
    ensures Mask(s, mode) == [CharShown(s, mode)] + Mask(s[1..], AfterOne(s, mode))
  {
  }

  lemma MaskTwo(s: string, mode: Mode)
    requires StepsTwo(s, mode)
    ensures Mask(s, mode) == "  " + Mask(s[2..], AfterTwo(s, mode))
  {
  }

  lemma OneStep(before: string, text: string, i: nat, mode: Mode)
    requires i < |before| && Rest(before, text, i, mode) && text[i..] != "" && !StepsTwo(text[i..], mode)
    ensures Rest(before[i := CharShown(text[i..], mode)], text, i + 1, AfterOne(text[i..], mode))
  {
    var c, next := CharShown(text[i..], mode), AfterOne(text[i..], mode);
    MaskOne(text[i..], mode);
    Extend(before, text, i, 1, [c], mode, next);
    assert before[i := c] == before[..i] + [c] + before[i + 1..];
  }

  lemma TwoStep(before: string, text: string, i: nat, mode: Mode)
    requires i + 1 < |before| && Rest(before, text, i, mode) && StepsTwo(text[i..], mode)
    ensures Rest(before[i := ' '][i + 1 := ' '], text, i + 2, AfterTwo(text[i..], mode))
  {
    MaskTwo(text[i..], mode);
    Extend(before, text, i, 2, "  ", mode, AfterTwo(text[i..], mode));
    assert before[i := ' '][i + 1 := ' '] == before[..i] + "  " + before[i + 2..];
  }

  lemma Extend(before: string, text: string, i: nat, n: nat, shown: string, mode: Mode, next: Mode)
    requires i + n <= |before| && |shown| == n && Rest(before, text, i, mode)
    requires Mask(text[i..], mode) == shown + Mask(text[i..][n..], next)
    ensures Rest(before[..i] + shown + before[i + n..], text, i + n, next)
  {
    var after := before[..i] + shown + before[i + n..];
    assert text[i..][n..] == text[i + n..] && before[i..][n..] == before[i + n..];
    assert after[..i + n] == before[..i] + shown && after[i + n..] == before[i + n..];
    Together(before[..i], shown, Mask(text[i + n..], next));
  }

  // ---------------------------------------------------------------- offsets

  /** Same length, and each position unchanged or blanked; newlines exactly where they were. */
  ghost predicate SameOrBlank(m: string, s: string) {
    |m| == |s| && forall i :: 0 <= i < |s| ==> m[i] == s[i] || (m[i] == ' ' && s[i] != '\n')
  }

  lemma SameOrBlankCons(x: char, m: string, c: char, s: string)
    requires SameOrBlank(m, s) && (x == c || (x == ' ' && c != '\n'))
    ensures SameOrBlank([x] + m, [c] + s)
  {
  }

  /** Inside a literal, the mode remembers one of the two quotes. */
  predicate SaneMode(mode: Mode) {
    (mode.Quote? || mode.Escaped?) ==> IsQuote(mode.quote)
  }

  /** Offsets and lines survive. */
  lemma {:induction false} MaskKeepsOffsets(s: string, mode: Mode)
    requires SaneMode(mode)
    ensures SameOrBlank(Mask(s, mode), s)
    decreases |s|
  {
    if s != "" {
      if StepsTwo(s, mode) {
        MaskKeepsOffsets(s[2..], AfterTwo(s, mode));
        TwoKept(s, mode);
      } else {
        MaskKeepsOffsets(s[1..], AfterOne(s, mode));
        OneKept(s, mode);
      }
    }
  }

  lemma TwoBlanks(rest: string, s: string)
    requires |s| >= 2 && s[0] != '\n' && s[1] != '\n' && SameOrBlank(rest, s[2..])
    ensures SameOrBlank("  " + rest, s)
  {
    SameOrBlankCons(' ', rest, s[1], s[2..]);
    SameOrBlankCons(' ', " " + rest, s[0], [s[1]] + s[2..]);
    assert "  " + rest == " " + (" " + rest) && s == [s[0]] + ([s[1]] + s[2..]);
  }

  lemma TwoKept(s: string, mode: Mode)
    requires StepsTwo(s, mode) && SameOrBlank(Mask(s[2..], AfterTwo(s, mode)), s[2..])
    ensures SameOrBlank(Mask(s, mode), s)
  {
    MaskTwo(s, mode);
    TwoBlanks(Mask(s[2..], AfterTwo(s, mode)), s);
  }

  lemma OneKept(s: string, mode: Mode)
    requires s != "" && SaneMode(mode) && !StepsTwo(s, mode) && SameOrBlank(Mask(s[1..], AfterOne(s, mode)), s[1..])
    ensures SameOrBlank(Mask(s, mode), s)
  {
    MaskOne(s, mode);
    SameOrBlankCons(CharShown(s, mode), Mask(s[1..], AfterOne(s, mode)), s[0], s[1..]);
    assert s == [s[0]] + s[1..];
  }

  /** Does the machine take two characters at once? */
  predicate StepsTwo(s: string, mode: Mode) {
    (mode.Block? && ClosesBlock(s)) || (mode.Code? && OpensComment(s))
  }

  function AfterTwo(s: string, mode: Mode): Mode
    requires StepsTwo(s, mode)
  {
    if mode.Block? then Code else if s[1] == '/' then Line else Block
  }

  /** The mode after a step over one character. */
  function AfterOne(s: string, mode: Mode): Mode
    requires s != ""
  {
    match mode
    case Line => if s[0] == '\n' then Code else Line
    case Block => Block
    case Escaped(q) => Quote(q)
    case Quote(q) => if s[0] == '\\' then Escaped(q) else if s[0] == q then Code else mode
    case Code => if IsQuote(s[0]) then Quote(s[0]) else Code
  }

  // ---------------------------------------------------------------- idempotence

  /** No quote and no comment opener anywhere. */
  predicate Clean(s: string)
    decreases |s|
  {
    s == "" || (!IsQuote(s[0]) && !OpensComment(s) && Clean(s[1..]))
  }

  lemma CleanCons(c: char, s: string)
    requires Clean(s) && !IsQuote(c) && !OpensComment([c] + s)
    ensures Clean([c] + s)
  {
    assert ([c] + s)[1..] == s;
  }

  lemma {:induction false} MaskIsClean(s: string, mode: Mode)
    requires SaneMode(mode)
    ensures Clean(Mask(s, mode))
    decreases |s|
  {
    if s != "" {
      var m := Mask(s, mode);
      if StepsTwo(s, mode) {
        var next := AfterTwo(s, mode);
        var rest := Mask(s[2..], next);
        MaskIsClean(s[2..], next);
        CleanCons(' ', rest);
        CleanCons(' ', " " + rest);
        assert m == " " + (" " + rest);
      } else {
        var next := AfterOne(s, mode);
        var rest := Mask(s[1..], next);
        MaskIsClean(s[1..], next);
        MaskKeepsOffsets(s[1..], next);
        assert m == [m[0]] + rest;
        assert rest != "" ==> rest[0] == s[1] || rest[0] == ' ';
        CleanCons(m[0], rest);
      }
    }
  }

  /** The texts masking leaves alone are exactly those with neither quotes nor comment openers. */
  lemma {:induction false} FixedIffClean(s: string)
    ensures Mask(s, Code) == s <==> Clean(s)
    decreases |s|
  {
    if s != "" {
      var m := Mask(s, Code);
      if OpensComment(s) || IsQuote(s[0]) {
        assert m[0] == ' ';
      } else {
        FixedIffClean(s[1..]);
        assert m == [s[0]] + Mask(s[1..], Code);
        assert s == [s[0]] + s[1..] && m[1..] == Mask(s[1..], Code);
      }
    }
  }

  /** Nothing that could open a string or a comment is left, so masking again changes nothing. */
  lemma MaskIdempotent(s: string)
    ensures Mask(Mask(s, Code), Code) == Mask(s, Code)
  {
    MaskIsClean(s, Code);
    FixedIffClean(Mask(s, Code));
  }

  // ---------------------------------------------------------------- what is code

  /** A source text as its lexical pieces; a comment or literal that is not closed runs to the end. */
  datatype Piece =
    | Char(c: char)
    | LineComment(body: string)
    | BlockComment(body: string, closed: bool)
    | Literal(quote: char, body: string, closed: bool)

  function PieceText(p: Piece): string {
    match p
    case Char(c) => [c]
    case LineComment(body) => "//" + body
    case BlockComment(body, _) => "/*" + body
    case Literal(q, body, _) => [q] + body
  }

  function Source(pieces: seq<Piece>): string {
    if pieces == [] then "" else PieceText(pieces[0]) + Source(pieces[1..])
  }

  /** Code characters as they are, all else blanked. */
  function Shown(pieces: seq<Piece>): string {
    if pieces == [] then ""
    else (if pieces[0].Char? then [pieces[0].c] else Blanked(PieceText(pieces[0]))) + Shown(pieces[1..])
  }

  /** What follows the opener of a block comment: up to and including the first closer, or never closed. */
  predicate BlockBody(t: string, closed: bool)
    decreases |t|
  {
    if t == "" then !closed
    else if |t| >= 2 && t[0] == '*' && t[1] == '/' then closed && |t| == 2
    else BlockBody(t[1..], closed)
  }

  /** What follows an opening quote: a backslash takes the next character with it, the first other quote is last. */
  predicate LiteralBody(t: string, q: char, closed: bool)
    decreases |t|
  {
    if t == "" then !closed
    else if t[0] == '\\' then if |t| == 1 then !closed else LiteralBody(t[2..], q, closed)
    else if t[0] == q then closed && |t| == 1
    else LiteralBody(t[1..], q, closed)
  }

  /** `p` is one lexical piece when `rest` follows. */
  predicate IsPiece(p: Piece, rest: string) {
    match p
    case Char(c) => c != '"' && c != '\'' && !(c == '/' && rest != "" && (rest[0] == '/' || rest[0] == '*'))
    case LineComment(body) => '\n' !in body && (rest == "" || rest[0] == '\n')
    case BlockComment(body, closed) => BlockBody(body, closed) && (!closed ==> rest == "")
    case Literal(q, body, closed) => (q == '"' || q == '\'') && LiteralBody(body, q, closed) && (!closed ==> rest == "")
  }

  predicate WellLexed(pieces: seq<Piece>) {
    pieces == [] || (IsPiece(pieces[0], Source(pieces[1..])) && WellLexed(pieces[1..]))
  }

  lemma {:induction false} MaskLine(body: string, rest: string)
    requires '\n' !in body && (rest == "" || rest[0] == '\n')
    ensures Mask(body + rest, Line) == Blanked(body) + Mask(rest, Code)
    decreases |body|
  {
    if body == "" {
      assert body + rest == rest;
    } else {
      MaskLine(body[1..], rest);
      LineStep(body, rest);
    }
  }

  lemma LineStep(body: string, rest: string)
    requires body != "" && body[0] != '\n'
    ensures Mask(body + rest, Line) == " " + Mask(body[1..] + rest, Line)
  {
    assert (body + rest)[1..] == body[1..] + rest && (body + rest)[0] == body[0];
  }

  lemma {:induction false} MaskBlock(t: string, closed: bool, rest: string)
    requires BlockBody(t, closed) && (!closed ==> rest == "")
    ensures Mask(t + rest, Block) == Blanked(t) + Mask(rest, Code)
    decreases |t|
  {
    if t == "" {
      assert t + rest == rest;
    } else if ClosesBlock(t) {
      BlockCloses(t, rest);
    } else {
      MaskBlock(t[1..], closed, rest);
      if |t| == 1 {
        assert !BlockBody("", true);
        assert !closed;
      }
      BlockGoesOn(t, rest, Mask(rest, Code));
    }
  }

  lemma BlockEnds(s: string)
    requires ClosesBlock(s)
    ensures Mask(s, Block) == "  " + Mask(s[2..], Code)
  {
  }

  lemma BlockCloses(t: string, rest: string)
    requires |t| == 2 && ClosesBlock(t)
    ensures Mask(t + rest, Block) == Blanked(t) + Mask(rest, Code)
  {
    BlockEnds(t + rest);
    BlankedTwo(t, "");
    assert (t + rest)[2..] == rest && t + "" == t;
  }

  lemma BlockGoesOn(t: string, rest: string, tail: string)
    requires t != "" && !ClosesBlock(t + rest) && Mask(t[1..] + rest, Block) == Blanked(t[1..]) + tail
    ensures Mask(t + rest, Block) == Blanked(t) + tail
  {
    BlockStep(t + rest);
    assert (t + rest)[1..] == t[1..] + rest && (t + rest)[0] == t[0];
    Together([Blank(t[0])], Blanked(t[1..]), tail);
  }

  lemma BlockStep(s: string)
    requires s != "" && !ClosesBlock(s)
    ensures Mask(s, Block) == [Blank(s[0])] + Mask(s[1..], Block)
  {
  }

  lemma {:induction false} MaskLiteral(q: char, t: string, closed: bool, rest: string)
    requires IsQuote(q) && LiteralBody(t, q, closed) && (!closed ==> rest == "")
    ensures Mask(t + rest, Quote(q)) == Blanked(t) + Mask(rest, Code)
    decreases |t|
  {
    if t == "" {
      assert t + rest == rest;
    } else if t[0] == '\\' {
      if |t| == 1 {
        assert t + rest == t && t[1..] == "";
      } else {
        MaskLiteral(q, t[2..], closed, rest);
        MaskEscape(q, t, rest, Mask(rest, Code));
      }
    } else if t[0] == q {
      assert t[1..] == "" && "" + rest == rest && Blanked("") + Mask(rest, Code) == Mask(rest, Code);
      LiteralStep(q, t, rest, Mask(rest, Code));
    } else {
      MaskLiteral(q, t[1..], closed, rest);
      LiteralStep(q, t, rest, Mask(rest, Code));
    }
  }

  lemma LiteralStep(q: char, t: string, rest: string, shown: string)
    requires t != "" && t[0] != '\\' && IsQuote(q)
    requires Mask(t[1..] + rest, if t[0] == q then Code else Quote(q)) == Blanked(t[1..]) + shown
    ensures Mask(t + rest, Quote(q)) == Blanked(t) + shown
  {
    assert (t + rest)[1..] == t[1..] + rest;
  }

  lemma Together(a: string, b: string, c: string)
    ensures a + (b + c) == (a + b) + c
  {
  }

  lemma Regroup(a: string, b: string, c: string, d: string)
    ensures a + (b + (c + d)) == (a + (b + c)) + d
  {
  }

  lemma MaskEscape(q: char, t: string, rest: string, shown: string)
    requires |t| >= 2 && t[0] == '\\' && Mask(t[2..] + rest, Quote(q)) == Blanked(t[2..]) + shown
    ensures Mask(t + rest, Quote(q)) == Blanked(t) + shown
  {
    var s := t + rest;
    assert s[1..][1..] == t[2..] + rest && s[1..][0] == t[1];
    assert t[1..][1..] == t[2..];
    assert Mask(s[1..], Escaped(q)) == [Blank(t[1])] + Mask(s[1..][1..], Quote(q));
    Regroup(" ", [Blank(t[1])], Blanked(t[2..]), shown);
  }

  lemma MaskPiece(p: Piece, rest: string)
    requires IsPiece(p, rest)
    ensures Mask(PieceText(p) + rest, Code)
            == (if p.Char? then [p.c] else Blanked(PieceText(p))) + Mask(rest, Code)
  {
    var s := PieceText(p) + rest;
    match p
    case Char(c) =>
      assert s[1..] == rest;
    case LineComment(body) =>
      MaskLine(body, rest);
      AfterOpener("//", body, rest, Line);
    case BlockComment(body, closed) =>
      MaskBlock(body, closed, rest);
      AfterOpener("/*", body, rest, Block);
    case Literal(q, body, closed) =>
      MaskLiteral(q, body, closed, rest);
      AfterQuote(q, body, rest);
  }

  lemma OpenerStep(s: string, mode: Mode)
    requires OpensComment(s) && mode == if s[1] == '/' then Line else Block
    ensures Mask(s, Code) == "  " + Mask(s[2..], mode)
  {
  }

  lemma AfterOpener(opener: string, body: string, rest: string, mode: Mode)
    requires opener == if mode == Line then "//" else "/*"
    requires mode == Line || mode == Block
    requires Mask(body + rest, mode) == Blanked(body) + Mask(rest, Code)
    ensures Mask(opener + body + rest, Code) == Blanked(opener + body) + Mask(rest, Code)
  {
    var s := opener + body + rest;
    assert s[2..] == body + rest;
    assert OpensComment(s) && s[1] == opener[1];
    OpenerStep(s, mode);
    BlankedTwo(opener, body);
    Together("  ", Blanked(body), Mask(rest, Code));
  }

  lemma AfterQuote(q: char, body: string, rest: string)
    requires IsQuote(q)
    requires Mask(body + rest, Quote(q)) == Blanked(body) + Mask(rest, Code)
    ensures Mask([q] + body + rest, Code) == Blanked([q] + body) + Mask(rest, Code)
  {
    var s := [q] + body + rest;
    assert s[1..] == body + rest && s[0] == q && ([q] + body)[1..] == body;
    QuoteOpens(s);
    Together(" ", Blanked(body), Mask(rest, Code));
  }

  lemma QuoteOpens(s: string)
    requires s != "" && IsQuote(s[0])
    ensures Mask(s, Code) == " " + Mask(s[1..], Quote(s[0]))
  {
  }

  lemma BlankedTwo(opener: string, body: string)
    requires |opener| == 2 && opener[0] != '\n' && opener[1] != '\n'
    ensures Blanked(opener + body) == "  " + Blanked(body)
  {
    var s := opener + body;
    assert s[1..][1..] == body && s[1..][0] == opener[1];
  }

  /** However a text is cut into lexical pieces, exactly its code characters are kept, each at its offset. */
  lemma {:induction false} MaskShowsCode(pieces: seq<Piece>)
    requires WellLexed(pieces)
    ensures Mask(Source(pieces), Code) == Shown(pieces)
    decreases |pieces|
  {
    if pieces != [] {
      MaskShowsCode(pieces[1..]);
      MaskPiece(pieces[0], Source(pieces[1..]));
    }
  }

  // ---------------------------------------------------------------- every text has pieces

  lemma {:induction false} SplitLine(s: string) returns (body: string, rest: string)
    ensures s == body + rest && '\n' !in body && (rest == "" || rest[0] == '\n')
    decreases |s|
  {
    if s == "" || s[0] == '\n' {
      return "", s;
    }
    body, rest := SplitLine(s[1..]);
    body := [s[0]] + body;
  }

  lemma {:induction false} SplitBlock(s: string) returns (body: string, closed: bool, rest: string)
    ensures s == body + rest && BlockBody(body, closed) && (!closed ==> rest == "")
    decreases |s|
  {
    if s == "" {
      return "", false, "";
    }
    if ClosesBlock(s) {
      return s[..2], true, s[2..];
    }
    body, closed, rest := SplitBlock(s[1..]);
    var all := [s[0]] + body;
    assert all[1..] == body && (|all| >= 2 ==> all[1] == s[1]);
    body := all;
  }

  lemma {:induction false} SplitLiteral(s: string, q: char) returns (body: string, closed: bool, rest: string)
    requires IsQuote(q)
    ensures s == body + rest && LiteralBody(body, q, closed) && (!closed ==> rest == "")
    decreases |s|
  {
    if s == "" || s == "\\" {
      return s, false, "";
    }
    if s[0] == q {
      return s[..1], true, s[1..];
    }
    var step := if s[0] == '\\' then 2 else 1;
    body, closed, rest := SplitLiteral(s[step..], q);
    var all := s[..step] + body;
    assert all[step..] == body && all[0] == s[0];
    body := all;
  }

  /** The first piece of a text. */
  lemma FirstPiece(s: string) returns (p: Piece, rest: string)
    requires s != ""
    ensures s == PieceText(p) + rest && IsPiece(p, rest)
  {
    if OpensComment(s) {
      p, rest := FirstComment(s);
    } else if IsQuote(s[0]) {
      var body, closed;
      body, closed, rest := SplitLiteral(s[1..], s[0]);
      p := Literal(s[0], body, closed);
      assert s == [s[0]] + s[1..];
    } else {
      p, rest := Char(s[0]), s[1..];
      assert s == [s[0]] + s[1..];
    }
  }

  lemma FirstComment(s: string) returns (p: Piece, rest: string)
    requires OpensComment(s)
    ensures s == PieceText(p) + rest && IsPiece(p, rest)
  {
    var body, closed;
    if s[1] == '/' {
      body, rest := SplitLine(s[2..]);
      p := LineComment(body);
    } else {
      body, closed, rest := SplitBlock(s[2..]);
      p := BlockComment(body, closed);
    }
    assert s == s[..2] + s[2..] && s[..2] == [s[0], s[1]];
  }

  /** Every text can be cut into lexical pieces, so the law above covers all inputs. */
  lemma {:induction false} EveryTextIsLexed(s: string) returns (pieces: seq<Piece>)
    ensures WellLexed(pieces) && Source(pieces) == s
    decreases |s|
  {
    if s == "" {
      return [];
    }
    var p, rest := FirstPiece(s);
    assert PieceText(p) != "";
    var more := EveryTextIsLexed(rest);
    pieces := [p] + more;
    assert pieces[1..] == more;
  }
}
