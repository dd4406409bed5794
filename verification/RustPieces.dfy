/**
 What the Rust lexer finds, by a grammar of its own.

 A text is cut into characters, line comments, nested block comments, raw
 strings, strings and character literals. Every text can be cut that way, the
 lexer ends each piece where the grammar does, the mask shows exactly the
 character pieces and literals, and the item scanner's code positions are
 exactly those of the character pieces.
 */
module RustPieces {
  import opened Options
  import opened Text
  import opened RouteMask
  import opened TestItems

  // ---------------------------------------------------------------- the grammar

  /**
   What follows the opener of a block comment: up to its own closer, with inner
   comments complete in themselves, or cut off by the end of the text.
   */
  datatype Comment =
    | Close
    | Cut
    | Plain(c: char, after: Comment)
    | Nested(inner: Comment, after: Comment)

  function CommentText(c: Comment): string {
    match c
    case Close => "*/"
    case Cut => ""
    case Plain(ch, after) => [ch] + CommentText(after)
    case Nested(inner, after) => "/*" + CommentText(inner) + CommentText(after)
  }

  predicate OpensInner(s: string) { |s| >= 2 && s[0] == '/' && s[1] == '*' }

  predicate ClosesInner(s: string) { |s| >= 2 && s[0] == '*' && s[1] == '/' }

  /** Openers and closers balance, plain characters start neither, and only the end of the text cuts off. */
  predicate Balanced(c: Comment, rest: string) {
    match c
    case Close => true
    case Cut => rest == ""
    case Plain(ch, after) =>
      var s := [ch] + CommentText(after) + rest;
      !OpensInner(s) && !ClosesInner(s) && Balanced(after, rest)
    case Nested(inner, after) => Balanced(inner, CommentText(after) + rest) && Balanced(after, rest)
  }

  /** What follows an opening quote: escapes take a character along, the first other quote is last. */
  predicate StringBody(t: string, rest: string)
    decreases |t|
  {
    if t == "" then rest == ""
    else if t[0] == '\\' then if |t| == 1 then rest == "" else StringBody(t[2..], rest)
    else if t[0] == '"' then |t| == 1
    else StringBody(t[1..], rest)
  }

  /** What follows the apostrophe of a character literal: on one line, up to the first unescaped apostrophe. */
  predicate CharBody(t: string)
    decreases |t|
  {
    && t != "" && t[0] != '\n' && t[0] != '\r'
    && (if t[0] == '\'' then |t| == 1
        else if t[0] == '\\' then |t| >= 2 && t[1] != '\n' && t[1] != '\r' && CharBody(t[2..])
        else CharBody(t[1..]))
  }

  predicate IsRawPrefix(p: string) { p == "r" || p == "br" || p == "cr" }

  function Hashes(n: nat): string { if n == 0 then "" else "#" + Hashes(n - 1) }

  function RawOpener(prefix: string, n: nat): string { prefix + Hashes(n) + "\"" }

  function RawCloser(n: nat): string { "\"" + Hashes(n) }

  datatype Piece =
    | Char(c: char)
    | LineComment(body: string)
    | BlockComment(comment: Comment)
    | RawString(prefix: string, hashes: nat, body: string)
    | StringLiteral(body: string)
    | CharLiteral(body: string)

  function PieceText(p: Piece): string {
    match p
    case Char(c) => [c]
    case LineComment(body) => "//" + body
    case BlockComment(c) => "/*" + CommentText(c)
    case RawString(prefix, n, body) => RawOpener(prefix, n) + body
    case StringLiteral(body) => "\"" + body
    case CharLiteral(body) => "'" + body
  }

  /** `s` starts with a raw string opener. */
  ghost predicate OpensRaw(s: string) {
    exists p: string, n: nat :: IsRawPrefix(p) && Starts(s, RawOpener(p, n))
  }

  /** With `chars`, `s` starts with a character literal. */
  ghost predicate OpensChar(s: string) {
    s != "" && s[0] == '\'' && exists k :: 1 <= k <= |s| && CharBody(s[1..k])
  }

  /** `p` is one piece in front of `rest`; character literals are pieces only with `chars`. */
  ghost predicate IsPiece(p: Piece, rest: string, chars: bool) {
    match p
    case Char(c) =>
      c != '"' && !OpensComment([c] + rest) && !OpensRaw([c] + rest) && (chars ==> !OpensChar([c] + rest))
    case LineComment(body) => '\n' !in body && (rest == "" || rest[0] == '\n')
    case BlockComment(c) => Balanced(c, rest)
    case RawString(prefix, n, body) => IsRawPrefix(prefix) && ClosedBy(body, RawCloser(n), rest)
    case StringLiteral(body) => StringBody(body, rest)
    case CharLiteral(body) => chars && CharBody(body)
  }

  // ---------------------------------------------------------------- line comments

  lemma LineIff(text: string, i: nat, e: nat)
    requires i <= e <= |text|
    ensures LineEnd(text, i) == e <==> '\n' !in text[i..e] && (e == |text| || text[e] == '\n')
  {
    FindFromFirst(text, "\n", i);
    forall k | 0 <= k <= |text| ensures At(text, "\n", k) <==> k < |text| && text[k] == '\n' {
      AtChar(text, '\n', k);
    }
    if '\n' !in text[i..e] {
      forall k | i <= k < e ensures text[k] != '\n' {
        assert text[i..e][k - i] == text[k];
      }
    }
  }

  // ---------------------------------------------------------------- block comments

  /** A balanced comment takes the scan one level up, right behind it. */
  lemma {:induction false} BalancedEnds(text: string, i: nat, e: nat, depth: nat, c: Comment)
    requires depth > 0 && i <= e <= |text| && text[i..e] == CommentText(c) && Balanced(c, text[e..])
    ensures NestedEnd(text, i, depth) == NestedEnd(text, e, depth - 1)
    decreases c, 1
  {
    match c
    case Close => CloseEnds(text, i, e, depth);
    case Cut =>
    case Plain(ch, after) =>
      PlainText(text, i, e, ch, after);
      BalancedEnds(text, i + 1, e, depth, after);
      PlainEnds(text, i, e, depth);
    case Nested(_, _) => NestedBalances(text, i, e, depth, c);
  }

  lemma {:induction false} NestedBalances(text: string, i: nat, e: nat, depth: nat, c: Comment)
    requires depth > 0 && i <= e <= |text| && text[i..e] == CommentText(c) && Balanced(c, text[e..]) && c.Nested?
    ensures NestedEnd(text, i, depth) == NestedEnd(text, e, depth - 1)
    decreases c, 0
  {
    var j := NestedText(text, i, e, c.inner, c.after);
    BalancedEnds(text, i + 2, j, depth + 1, c.inner);
    BalancedEnds(text, j, e, depth, c.after);
    NestedEnds(text, i, e, depth, j);
  }

  lemma CloseEnds(text: string, i: nat, e: nat, depth: nat)
    requires depth > 0 && i <= e <= |text| && text[i..e] == "*/"
    ensures NestedEnd(text, i, depth) == NestedEnd(text, e, depth - 1)
  {
    assert text[i..][0] == text[i..e][0] && text[i..][1] == text[i..e][1];
    NestedStep(text, i, depth);
  }

  lemma PlainEnds(text: string, i: nat, e: nat, depth: nat)
    requires depth > 0 && i < e <= |text| && !OpensInner(text[i..]) && !ClosesInner(text[i..])
    requires NestedEnd(text, i + 1, depth) == NestedEnd(text, e, depth - 1)
    ensures NestedEnd(text, i, depth) == NestedEnd(text, e, depth - 1)
  {
    NestedStep(text, i, depth);
  }

  lemma NestedEnds(text: string, i: nat, e: nat, depth: nat, j: nat)
    requires depth > 0 && i + 2 <= j <= e <= |text| && OpensInner(text[i..])
    requires NestedEnd(text, i + 2, depth + 1) == NestedEnd(text, j, depth) == NestedEnd(text, e, depth - 1)
    ensures NestedEnd(text, i, depth) == NestedEnd(text, e, depth - 1)
  {
    NestedStep(text, i, depth);
  }

  lemma PlainText(text: string, i: nat, e: nat, ch: char, after: Comment)
    requires i <= e <= |text| && text[i..e] == CommentText(Plain(ch, after)) && Balanced(Plain(ch, after), text[e..])
    ensures i < e && text[i + 1..e] == CommentText(after)
    ensures !OpensInner(text[i..]) && !ClosesInner(text[i..])
  {
    assert text[i..] == text[i..e] + text[e..] == [ch] + CommentText(after) + text[e..];
    assert text[i + 1..e] == text[i..e][1..];
  }

  lemma NestedText(text: string, i: nat, e: nat, inner: Comment, after: Comment) returns (j: nat)
    requires i <= e <= |text| && text[i..e] == CommentText(Nested(inner, after)) && Balanced(Nested(inner, after), text[e..])
    ensures i + 2 <= j <= e && OpensInner(text[i..])
    ensures text[i + 2..j] == CommentText(inner) && Balanced(inner, text[j..])
    ensures text[j..e] == CommentText(after) && Balanced(after, text[e..])
  {
    var s, k := text[i..e], 2 + |CommentText(inner)|;
    j := i + k;
    assert s == "/*" + CommentText(inner) + CommentText(after);
    assert text[i..][0] == s[0] && text[i..][1] == s[1];
    SliceOfSlice(text, i, e, 2, k);
    SliceOfSlice(text, i, e, k, |s|);
    assert s[2..k] == CommentText(inner) && s[k..|s|] == CommentText(after);
    TailSplits(text, j, e);
  }

  lemma TailSplits(text: string, j: nat, e: nat)
    requires j <= e <= |text|
    ensures text[j..] == text[j..e] + text[e..]
  {
  }

  lemma NestedStep(text: string, i: nat, depth: nat)
    requires i < |text| && depth > 0
    ensures NestedEnd(text, i, depth)
            == if OpensInner(text[i..]) then NestedEnd(text, i + 2, depth + 1)
               else if ClosesInner(text[i..]) then NestedEnd(text, i + 2, depth - 1)
               else NestedEnd(text, i + 1, depth)
  {
    AtTwo(text, i);
  }

  /** The two-character tests of the scan, on what follows. */
  lemma AtTwo(text: string, i: nat)
    requires i <= |text|
    ensures At(text, "/*", i) <==> OpensInner(text[i..])
    ensures At(text, "*/", i) <==> ClosesInner(text[i..])
    ensures At(text, "//", i) || At(text, "/*", i) <==> OpensComment(text[i..])
    ensures At(text, "//", i) ==> text[i..][1] == '/'
  {
    assert |text[i..]| >= 2 ==> text[i..i + 2] == [text[i..][0], text[i..][1]];
  }

  /** Behind every opener stands a balanced comment. */
  lemma {:induction false} CommentThere(text: string, i: nat) returns (c: Comment, e: nat)
    requires i <= |text|
    ensures i <= e <= |text| && text[i..] == CommentText(c) + text[e..] && Balanced(c, text[e..])
    decreases |text| - i
  {
    var s := text[i..];
    if s == "" {
      return Cut, i;
    }
    if OpensInner(s) {
      var inner, e1 := CommentThere(text, i + 2);
      var after;
      after, e := CommentThere(text, e1);
      c := Nested(inner, after);
      assert s == "/*" + text[i + 2..];
    } else if ClosesInner(s) {
      c, e := Close, i + 2;
    } else {
      var after;
      after, e := CommentThere(text, i + 1);
      c := Plain(s[0], after);
      assert s == [s[0]] + text[i + 1..];
    }
  }

  // ---------------------------------------------------------------- strings and character literals

  lemma {:induction false} StringIff(text: string, i: nat, e: nat)
    requires i <= e <= |text|
    ensures StringEnd(text, i) == e <==> StringBody(text[i..e], text[e..])
    decreases |text| - i
  {
    var t := text[i..e];
    if i < e {
      assert t[0] == text[i];
      if text[i] == '\\' {
        if |t| >= 2 {
          assert t[2..] == text[i + 2..e];
          StringIff(text, i + 2, e);
        }
      } else if text[i] != '"' {
        assert t[1..] == text[i + 1..e];
        StringIff(text, i + 1, e);
      }
    }
  }

  lemma {:induction false} CharIff(text: string, j: nat, e: nat)
    requires j <= e <= |text|
    ensures CharEnd(text, j, false) == Some(e) <==> CharBody(text[j..e])
    decreases |text| - j
  {
    var t := text[j..e];
    if j < e {
      assert t[0] == text[j];
      if text[j] == '\\' && !IsLineBreak(text[j]) {
        assert CharEnd(text, j, false) == CharEnd(text, j + 1, true);
        if |t| >= 2 {
          assert t[1] == text[j + 1] && t[2..] == text[j + 2..e];
          CharIff(text, j + 2, e);
        }
      } else if text[j] != '\'' {
        assert t[1..] == text[j + 1..e];
        CharIff(text, j + 1, e);
      }
    }
  }

  lemma NoCharIff(text: string, i: nat)
    requires i < |text| && text[i] == '\''
    ensures CharEnd(text, i + 1, false).None? <==> !OpensChar(text[i..])
  {
    var s := text[i..];
    forall k | 1 <= k <= |s| ensures CharBody(s[1..k]) <==> CharEnd(text, i + 1, false) == Some(i + k) {
      CharIff(text, i + 1, i + k);
      assert s[1..k] == text[i + 1..i + k];
    }
    if CharEnd(text, i + 1, false).Some? {
      var k := CharEnd(text, i + 1, false).value - i;
      assert CharBody(s[1..k]);
    }
  }

  // ---------------------------------------------------------------- raw strings

  lemma {:induction false} HashesRun(text: string, j: nat, n: nat)
    requires j + n < |text| && text[j..j + n] == Hashes(n) && text[j + n] != '#'
    ensures HashesEnd(text, j) == j + n
    decreases n
  {
    if n > 0 {
      assert text[j] == text[j..j + n][0] == '#';
      assert text[j + 1..j + n] == text[j..j + n][1..] == Hashes(n - 1);
      HashesRun(text, j + 1, n - 1);
    }
  }

  lemma {:induction false} HashesSlice(text: string, j: nat)
    requires j <= |text|
    ensures text[j..HashesEnd(text, j)] == Hashes(HashesEnd(text, j) - j)
    decreases |text| - j
  {
    if j < |text| && text[j] == '#' {
      HashesSlice(text, j + 1);
      assert text[j..HashesEnd(text, j)] == "#" + text[j + 1..HashesEnd(text, j)];
    }
  }

  lemma HashesLength(n: nat)
    ensures |Hashes(n)| == n
  {
  }

  /** Which prefix stands at `i`. */
  function PrefixLength(text: string, i: nat): nat {
    if At(text, "br", i) || At(text, "cr", i) then 2 else if At(text, "r", i) then 1 else 0
  }

  lemma PrefixThere(text: string, i: nat, p: string)
    requires i + |p| < |text| && IsRawPrefix(p) && text[i..i + |p|] == p
    ensures PrefixLength(text, i) == |p|
  {
    assert p == "r" ==> text[i] == text[i..i + 1][0] == 'r';
    if p == "r" {
      NotAt(text, "br", i, 0);
      NotAt(text, "cr", i, 0);
    }
  }

  /** A raw opener is recognised whatever follows. */
  lemma RawOpened(text: string, i: nat, p: string, n: nat)
    requires i <= |text| && IsRawPrefix(p) && Starts(text[i..], RawOpener(p, n))
    ensures |RawOpener(p, n)| == |p| + n + 1 && i + |p| + n + 1 <= |text|
    ensures RawStringEnd(text, i) == Some(AfterTerminator(text, RawCloser(n), i + |p| + n + 1))
  {
    OpenerParts(text, i, p, n);
    RawOpenedAt(text, i, p, n);
  }

  lemma OpenerParts(text: string, i: nat, p: string, n: nat)
    requires i <= |text| && Starts(text[i..], RawOpener(p, n))
    ensures |RawOpener(p, n)| == |p| + n + 1 && i + |p| + n + 1 <= |text|
    ensures text[i..i + |p|] == p && text[i + |p|..i + |p| + n] == Hashes(n) && text[i + |p| + n] == '"'
  {
    HashesLength(n);
    var o := RawOpener(p, n);
    StartsSlice(text, i, o, 0, |p|);
    StartsSlice(text, i, o, |p|, |p| + n);
    StartsSlice(text, i, o, |p| + n, |o|);
    assert o[0..|p|] == p && o[|p|..|p| + n] == Hashes(n) && o[|p| + n..|o|] == "\"";
    assert text[i + |p| + n] == text[i + |p| + n..i + |p| + n + 1][0];
  }

  lemma RawOpenedAt(text: string, i: nat, p: string, n: nat)
    requires i + |p| + n < |text| && IsRawPrefix(p)
    requires text[i..i + |p|] == p && text[i + |p|..i + |p| + n] == Hashes(n) && text[i + |p| + n] == '"'
    ensures RawStringEnd(text, i) == Some(AfterTerminator(text, RawCloser(n), i + |p| + n + 1))
  {
    PrefixThere(text, i, p);
    HashesRun(text, i + |p|, n);
    RawUnfolds(text, i, |p|, i + |p| + n);
  }

  lemma StartsSlice(text: string, i: nat, o: string, a: nat, b: nat)
    requires i <= |text| && Starts(text[i..], o) && a <= b <= |o|
    ensures i + b <= |text| && text[i + a..i + b] == o[a..b]
  {
    assert text[i..][..|o|] == text[i..i + |o|] == o;
    SliceOfSlice(text, i, i + |o|, a, b);
  }

  lemma RawUnfolds(text: string, i: nat, k: nat, q: nat)
    requires k > 0 && k == PrefixLength(text, i) && i + k <= q < |text| && q == HashesEnd(text, i + k) && text[q] == '"'
    ensures RawStringEnd(text, i) == Some(AfterTerminator(text, "\"" + text[i + k..q], q + 1))
  {
  }

  lemma RawThere(text: string, i: nat) returns (p: string, n: nat)
    requires i <= |text| && RawStringEnd(text, i).Some?
    ensures IsRawPrefix(p) && Starts(text[i..], RawOpener(p, n))
  {
    var k := PrefixLength(text, i);
    p := text[i..i + k];
    var q := HashesEnd(text, i + k);
    n := q - (i + k);
    HashesSlice(text, i + k);
    HashesLength(n);
    RawQuote(text, i, k, q);
    RawOpenerText(text, i, k, q, n);
  }

  lemma RawQuote(text: string, i: nat, k: nat, q: nat)
    requires i <= |text| && RawStringEnd(text, i).Some? && k == PrefixLength(text, i)
    requires i + k <= |text| && q == HashesEnd(text, i + k)
    ensures IsRawPrefix(text[i..i + k]) && q < |text| && text[q] == '"'
  {
  }

  lemma RawOpenerText(text: string, i: nat, k: nat, q: nat, n: nat)
    requires i + k <= q < |text| && n == q - (i + k) && text[i + k..q] == Hashes(n) && text[q] == '"' && |Hashes(n)| == n
    ensures Starts(text[i..], RawOpener(text[i..i + k], n))
  {
    assert text[i..][..k + n + 1] == text[i..q + 1] == text[i..i + k] + text[i + k..q] + text[q..q + 1];
  }

  lemma OpensRawIff(text: string, i: nat)
    requires i <= |text|
    ensures RawStringEnd(text, i).Some? <==> OpensRaw(text[i..])
  {
    if RawStringEnd(text, i).Some? {
      var p, n := RawThere(text, i);
    }
    if OpensRaw(text[i..]) {
      var p: string, n: nat :| IsRawPrefix(p) && Starts(text[i..], RawOpener(p, n));
      RawOpened(text, i, p, n);
    }
  }

  // ---------------------------------------------------------------- the lexer's pieces

  /** `p` stands at `i..e` of the text. */
  ghost predicate StandsAt(text: string, i: nat, e: nat, p: Piece, chars: bool) {
    i < e <= |text| && text[i..e] == PieceText(p) && IsPiece(p, text[e..], chars)
  }

  lemma CharEnds(text: string, i: nat, e: nat, p: Piece, chars: bool)
    requires p.Char? && StandsAt(text, i, e, p, chars)
    ensures e == i + 1 && LexicalEnd(text, i, chars).None?
  {
    assert text[i..] == text[i..e] + text[e..];
    assert text[i] == text[i..e][0];
    AtTwo(text, i);
    OpensRawIff(text, i);
    if text[i] == '\'' {
      NoCharIff(text, i);
    }
  }

  lemma LineEnds(text: string, i: nat, e: nat, p: Piece, chars: bool)
    requires p.LineComment? && StandsAt(text, i, e, p, chars)
    ensures LexicalEnd(text, i, chars) == Some(e)
  {
    Split3(text, i, i + 2, e, "//", p.body);
    LineIff(text, i + 2, e);
    assert text[e..] != "" ==> text[e..][0] == text[e];
  }

  lemma BlockEnds(text: string, i: nat, e: nat, p: Piece, chars: bool)
    requires p.BlockComment? && StandsAt(text, i, e, p, chars)
    ensures LexicalEnd(text, i, chars) == Some(e)
  {
    Split3(text, i, i + 2, e, "/*", CommentText(p.comment));
    BalancedEnds(text, i + 2, e, 1, p.comment);
    assert text[i..i + 2][1] == '*';
    NotAt(text, "//", i, 1);
    assert NestedEnd(text, e, 0) == e;
  }

  /** A raw string's own end. */
  lemma RawEndIs(text: string, i: nat, m: nat, e: nat, prefix: string, n: nat)
    requires i <= m <= e <= |text| && IsRawPrefix(prefix) && text[i..m] == RawOpener(prefix, n)
    requires ClosedBy(text[m..e], RawCloser(n), text[e..])
    ensures RawStringEnd(text, i) == Some(e) && text[i] == prefix[0]
  {
    assert text[i..][..m - i] == text[i..m];
    assert text[i] == text[i..m][0];
    ClosedEnds(text, RawCloser(n), m, e);
    RawOpened(text, i, prefix, n);
  }

  lemma RawIsLexed(text: string, i: nat, chars: bool)
    requires i < |text| && RawStringEnd(text, i).Some? && text[i] != '/'
    ensures LexicalEnd(text, i, chars) == RawStringEnd(text, i)
  {
    NotAt(text, "//", i, 0);
    NotAt(text, "/*", i, 0);
  }

  lemma RawEnds(text: string, i: nat, e: nat, p: Piece, chars: bool)
    requires p.RawString? && StandsAt(text, i, e, p, chars)
    ensures LexicalEnd(text, i, chars) == Some(e)
  {
    var o := RawOpener(p.prefix, p.hashes);
    Split3(text, i, i + |o|, e, o, p.body);
    RawEndIs(text, i, i + |o|, e, p.prefix, p.hashes);
    RawIsLexed(text, i, chars);
  }

  lemma StringEnds(text: string, i: nat, e: nat, p: Piece, chars: bool)
    requires p.StringLiteral? && StandsAt(text, i, e, p, chars)
    ensures LexicalEnd(text, i, chars) == Some(e)
  {
    Split3(text, i, i + 1, e, "\"", p.body);
    StringIff(text, i + 1, e);
    assert text[i] == text[i..i + 1][0];
    QuoteIsNoRaw(text, i);
  }

  lemma QuoteIsNoRaw(text: string, i: nat)
    requires i < |text| && text[i] == '"'
    ensures LexicalEnd(text, i, true) == LexicalEnd(text, i, false) == Some(StringEnd(text, i + 1))
  {
    NotAt(text, "//", i, 0);
    NotAt(text, "/*", i, 0);
    NotAt(text, "br", i, 0);
    NotAt(text, "cr", i, 0);
    NotAt(text, "r", i, 0);
  }

  lemma LiteralEndsThere(text: string, i: nat, e: nat, p: Piece, chars: bool)
    requires p.CharLiteral? && StandsAt(text, i, e, p, chars)
    ensures LexicalEnd(text, i, chars) == Some(e)
  {
    Split3(text, i, i + 1, e, "'", p.body);
    CharIff(text, i + 1, e);
    assert text[i] == text[i..i + 1][0];
    LiteralIsPlain(text, i);
  }

  /** The lexer ends every piece where the grammar does, and takes characters one at a time. */
  lemma PieceEnds(text: string, i: nat, e: nat, p: Piece, chars: bool)
    requires StandsAt(text, i, e, p, chars)
    ensures LexicalEnd(text, i, chars) == if p.Char? then None else Some(e)
    ensures p.Char? ==> e == i + 1
  {
    match p
    case Char(_) => CharEnds(text, i, e, p, chars);
    case LineComment(_) => LineEnds(text, i, e, p, chars);
    case BlockComment(_) => BlockEnds(text, i, e, p, chars);
    case RawString(_, _, _) => RawEnds(text, i, e, p, chars);
    case StringLiteral(_) => StringEnds(text, i, e, p, chars);
    case CharLiteral(_) => LiteralEndsThere(text, i, e, p, chars);
  }

  function PieceEnd(text: string, i: nat, chars: bool): (e: nat)
    requires i < |text|
    ensures i < e <= |text|
  {
    match LexicalEnd(text, i, chars)
    case Some(end) => end
    case None => i + 1
  }

  lemma CharThere(text: string, i: nat, chars: bool)
    requires i < |text| && LexicalEnd(text, i, chars).None?
    ensures StandsAt(text, i, i + 1, Char(text[i]), chars)
  {
    assert text[i..i + 1] == [text[i]];
    assert [text[i]] + text[i + 1..] == text[i..];
    AtTwo(text, i);
    OpensRawIff(text, i);
    if text[i] == '\'' {
      NoCharIff(text, i);
    }
  }

  lemma LineThere(text: string, i: nat, chars: bool)
    requires i < |text| && At(text, "//", i)
    ensures StandsAt(text, i, PieceEnd(text, i, chars), LineComment(text[i + 2..PieceEnd(text, i, chars)]), chars)
  {
    var e := PieceEnd(text, i, chars);
    LineIff(text, i + 2, e);
    assert text[i..e] == text[i..i + 2] + text[i + 2..e];
  }

  lemma BlockThere(text: string, i: nat, chars: bool) returns (p: Piece)
    requires i < |text| && At(text, "/*", i)
    ensures StandsAt(text, i, PieceEnd(text, i, chars), p, chars)
  {
    var c, e := CommentThere(text, i + 2);
    assert text[i + 2..e] == CommentText(c) by {
      assert text[i + 2..] == text[i + 2..e] + text[e..];
    }
    p := BlockComment(c);
    assert text[i..e] == text[i..i + 2] + text[i + 2..e];
    BlockEnds(text, i, e, p, chars);
  }

  lemma RawPieceThere(text: string, i: nat, chars: bool) returns (p: Piece)
    requires i < |text| && RawStringEnd(text, i).Some?
    ensures StandsAt(text, i, PieceEnd(text, i, chars), p, chars)
  {
    var prefix, n := RawThere(text, i);
    var e := RawStringEnd(text, i).value;
    p := RawStands(text, i, e, prefix, n, chars);
    OpenerHead(text, i, prefix, n);
    RawIsLexed(text, i, chars);
  }

  lemma OpenerHead(text: string, i: nat, prefix: string, n: nat)
    requires i <= |text| && IsRawPrefix(prefix) && Starts(text[i..], RawOpener(prefix, n))
    ensures i < |text| && text[i] != '/'
  {
    StartsSlice(text, i, RawOpener(prefix, n), 0, 1);
    assert text[i] == text[i..i + 1][0] == RawOpener(prefix, n)[0..1][0] == prefix[0];
  }

  lemma RawStands(text: string, i: nat, e: nat, prefix: string, n: nat, chars: bool) returns (p: Piece)
    requires i < |text| && RawStringEnd(text, i) == Some(e) && IsRawPrefix(prefix) && Starts(text[i..], RawOpener(prefix, n))
    ensures StandsAt(text, i, e, p, chars)
  {
    var m := i + |RawOpener(prefix, n)|;
    RawOpened(text, i, prefix, n);
    p := RawString(prefix, n, text[m..e]);
    RawPieceText(text, i, e, RawOpener(prefix, n));
    RawBodyCloses(text, m, e, n);
  }

  lemma RawBodyCloses(text: string, m: nat, e: nat, n: nat)
    requires m <= e <= |text| && e == AfterTerminator(text, RawCloser(n), m)
    ensures ClosedBy(text[m..e], RawCloser(n), text[e..])
  {
    ClosedAt(text, RawCloser(n), m);
  }

  lemma RawPieceText(text: string, i: nat, e: nat, o: string)
    requires o != "" && i + |o| <= e <= |text| && Starts(text[i..], o)
    ensures text[i] == o[0] && text[i..e] == o + text[i + |o|..e]
  {
    assert text[i..i + |o|] == text[i..][..|o|];
    assert text[i] == text[i..i + |o|][0];
    assert text[i..e] == text[i..i + |o|] + text[i + |o|..e];
  }

  lemma QuotedThere(text: string, i: nat, chars: bool) returns (p: Piece)
    requires i < |text| && (text[i] == '"' || (chars && text[i] == '\'' && CharEnd(text, i + 1, false).Some?))
    ensures StandsAt(text, i, PieceEnd(text, i, chars), p, chars)
  {
    var e;
    if text[i] == '"' {
      e := StringEnd(text, i + 1);
      StringIff(text, i + 1, e);
      p := StringLiteral(text[i + 1..e]);
    } else {
      e := CharEnd(text, i + 1, false).value;
      CharIff(text, i + 1, e);
      p := CharLiteral(text[i + 1..e]);
    }
    assert text[i..e] == [text[i]] + text[i + 1..e];
    PieceEnds(text, i, e, p, chars);
  }

  lemma PieceThere(text: string, i: nat, chars: bool) returns (p: Piece)
    requires i < |text|
    ensures StandsAt(text, i, PieceEnd(text, i, chars), p, chars)
  {
    if At(text, "//", i) {
      LineThere(text, i, chars);
      p := LineComment(text[i + 2..PieceEnd(text, i, chars)]);
    } else if At(text, "/*", i) {
      p := BlockThere(text, i, chars);
    } else if RawStringEnd(text, i).Some? {
      p := RawPieceThere(text, i, chars);
    } else if LexicalEnd(text, i, chars).None? {
      CharThere(text, i, chars);
      p := Char(text[i]);
    } else {
      p := QuotedThere(text, i, chars);
    }
  }

  // ---------------------------------------------------------------- whole texts

  /** A text as its pieces, in order. */
  datatype Pieces = Done | Then(first: Piece, rest: Pieces)

  function Source(ps: Pieces): string {
    match ps
    case Done => ""
    case Then(p, rest) => PieceText(p) + Source(rest)
  }

  ghost predicate WellLexed(ps: Pieces, chars: bool) {
    match ps
    case Done => true
    case Then(p, rest) => IsPiece(p, Source(rest), chars) && WellLexed(rest, chars)
  }

  /** Characters and character literals as they are, all else blanked. */
  function Show(p: Piece): (s: string)
    ensures |s| == |PieceText(p)|
  {
    if p.Char? || p.CharLiteral? then PieceText(p) else Blanked(PieceText(p))
  }

  function Shown(ps: Pieces): string {
    match ps
    case Done => ""
    case Then(p, rest) => Show(p) + Shown(rest)
  }

  /** The positions of the character pieces, the first piece standing at `i`. */
  function CharPositions(ps: Pieces, i: nat): seq<nat> {
    match ps
    case Done => []
    case Then(p, rest) => (if p.Char? then [i] else []) + CharPositions(rest, i + |PieceText(p)|)
  }

  lemma PieceNotEmpty(p: Piece)
    ensures PieceText(p) != ""
  {
  }

  lemma FirstStands(text: string, i: nat, p: Piece, rest: string, chars: bool) returns (e: nat)
    requires i <= |text| && IsPiece(p, rest, chars) && text[i..] == PieceText(p) + rest
    ensures e == i + |PieceText(p)| && StandsAt(text, i, e, p, chars) && text[e..] == rest
  {
    e := i + |PieceText(p)|;
    PieceNotEmpty(p);
    assert text[i..e] == text[i..][..|PieceText(p)|];
    assert text[e..] == text[i..][|PieceText(p)|..];
  }

  lemma PieceShown(text: string, i: nat, e: nat, p: Piece, chars: bool)
    requires StandsAt(text, i, e, p, chars)
    ensures Masked(text, i, chars) == Show(p) + Masked(text, e, chars)
  {
    PieceEnds(text, i, e, p, chars);
    assert text[i] == text[i..e][0];
    if p.Char? {
      MaskedKeep(text, i, chars);
    } else {
      MaskedPiece(text, i, e, chars);
      NotCharIsNoApostrophe(p, text[e..], chars);
    }
  }

  lemma NotCharIsNoApostrophe(p: Piece, rest: string, chars: bool)
    requires IsPiece(p, rest, chars) && !p.Char?
    ensures PieceText(p)[0] == '\'' <==> p.CharLiteral?
  {
  }

  lemma {:induction false} MaskShowsFrom(text: string, i: nat, ps: Pieces, chars: bool)
    requires i <= |text| && WellLexed(ps, chars) && text[i..] == Source(ps)
    ensures Masked(text, i, chars) == Shown(ps)
    decreases ps
  {
    match ps
    case Done =>
    case Then(p, rest) =>
      var e := FirstStands(text, i, p, Source(rest), chars);
      MaskShowsFrom(text, e, rest, chars);
      PieceShown(text, i, e, p, chars);
  }

  /**
   However a text is cut into pieces, masking shows exactly its characters, and
   its character literals where it knows them; all other pieces are blanked.
   */
  lemma MaskShowsPieces(ps: Pieces, chars: bool)
    requires WellLexed(ps, chars)
    ensures Masked(Source(ps), 0, chars) == Shown(ps)
  {
    assert Source(ps)[0..] == Source(ps);
    MaskShowsFrom(Source(ps), 0, ps, chars);
  }

  lemma {:induction false} CodesFrom(text: string, i: nat, ps: Pieces)
    requires i <= |text| && WellLexed(ps, true) && text[i..] == Source(ps)
    ensures Codes(text, Rust(text), i) == CharPositions(ps, i)
    decreases ps
  {
    match ps
    case Done =>
    case Then(p, rest) =>
      var e := FirstStands(text, i, p, Source(rest), true);
      CodesFrom(text, e, rest);
      CodesThen(text, i, e, p, rest);
  }

  lemma CodesThen(text: string, i: nat, e: nat, p: Piece, rest: Pieces)
    requires StandsAt(text, i, e, p, true) && e == i + |PieceText(p)| && Codes(text, Rust(text), e) == CharPositions(rest, e)
    ensures Codes(text, Rust(text), i) == CharPositions(Then(p, rest), i)
  {
    CodesStep(text, i, e, p);
  }

  lemma CodesStep(text: string, i: nat, e: nat, p: Piece)
    requires StandsAt(text, i, e, p, true)
    ensures Codes(text, Rust(text), i) == (if p.Char? then [i] else []) + Codes(text, Rust(text), e)
  {
    PieceEnds(text, i, e, p, true);
    if p.Char? {
      CodesKeep(text, Rust(text), i);
    } else {
      CodesSkip(text, Rust(text), i, e);
    }
  }

  /** The positions the item scanner takes for code are exactly those of the character pieces. */
  lemma CodesAreCharacters(ps: Pieces)
    requires WellLexed(ps, true)
    ensures Codes(Source(ps), Rust(Source(ps)), 0) == CharPositions(ps, 0)
  {
    assert Source(ps)[0..] == Source(ps);
    CodesFrom(Source(ps), 0, ps);
  }

  lemma {:induction false} PiecesFrom(text: string, i: nat, chars: bool) returns (ps: Pieces)
    requires i <= |text|
    ensures WellLexed(ps, chars) && Source(ps) == text[i..]
    decreases |text| - i
  {
    if i == |text| {
      return Done;
    }
    var e := PieceEnd(text, i, chars);
    var p := PieceThere(text, i, chars);
    var rest := PiecesFrom(text, e, chars);
    ps := Then(p, rest);
    assert text[i..] == text[i..e] + text[e..];
  }

  /** Every text can be cut into pieces, so the laws above cover all inputs. */
  lemma EveryTextIsLexed(text: string, chars: bool) returns (ps: Pieces)
    ensures WellLexed(ps, chars) && Source(ps) == text
  {
    ps := PiecesFrom(text, 0, chars);
    assert text[0..] == text;
  }
}
