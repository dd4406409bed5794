/**
 The Rust lexer of the route extractor.

 Raw strings, nested comments, strings and character literals, and the pass
 that blanks comments and strings without moving anything. That pass knows no
 character literals, the item scanner does; the last section says when it matters.
 */
module RouteMask {
  import opened Options
  import opened Text

  predicate IsLineBreak(c: char) { c == '\n' || c == '\r' }

  function Blank(c: char): char { if IsLineBreak(c) then c else ' ' }

  function Blanked(s: string): (b: string)
    ensures |b| == |s|
    decreases |s|
  {
    if s == "" then "" else [Blank(s[0])] + Blanked(s[1..])
  }

  // ---------------------------------------------------------------- lexical skips

  function HashesEnd(text: string, i: nat): (j: nat)
    requires i <= |text|
    ensures i <= j <= |text|
    decreases |text| - i
  {
    if i < |text| && text[i] == '#' then HashesEnd(text, i + 1) else i
  }

  /** The end of a raw string literal starting at `i`. */
  function RawStringEnd(text: string, i: nat): (end: Option<nat>)
    requires i <= |text|
    ensures end.Some? ==> i + 2 <= end.value <= |text|
  {
    var p := if At(text, "br", i) || At(text, "cr", i) then 2 else if At(text, "r", i) then 1 else 0;
    if p == 0 then None
    else
      var q := HashesEnd(text, i + p);
      if q == |text| || text[q] != '"' then None
      else Some(AfterTerminator(text, "\"" + text[i + p..q], q + 1))
  }

  lemma AllMarks(text: string, first: nat, i: nat, marks: string)
    requires first <= i <= |text| && |marks| == i - first
    requires forall k :: first <= k < i ==> text[k] == '#'
    requires forall k :: 0 <= k < |marks| ==> marks[k] == '#'
    ensures marks == text[first..i]
  {
  }

  method RawString(text: string, start: nat) returns (end: Option<nat>)
    requires start <= |text|
    ensures end == RawStringEnd(text, start)
  {
    var i := start;
    if At(text, "br", i) || At(text, "cr", i) {
      i := i + 2;
    } else if At(text, "r", i) {
      i := i + 1;
    } else {
      return None;
    }
    var first, hashes := i, 0;
    while i < |text| && text[i] == '#'
      invariant first <= i <= |text| && hashes == i - first
      invariant HashesEnd(text, first) == HashesEnd(text, i)
      invariant forall k :: first <= k < i ==> text[k] == '#'
    {
      hashes, i := hashes + 1, i + 1;
    }
    if i >= |text| || text[i] != '"' {
      return None;
    }
    var marks := seq(hashes, k => '#');
    AllMarks(text, first, i, marks);
    end := Some(AfterTerminator(text, "\"" + marks, i + 1));
  }

  /** The end of a block comment; comments nest. */
  function NestedEnd(text: string, i: nat, depth: nat): (end: nat)
    requires i <= |text|
    ensures i <= end <= |text|
    decreases |text| - i
  {
    if depth == 0 || i == |text| then i
    else if At(text, "/*", i) then NestedEnd(text, i + 2, depth + 1)
    else if At(text, "*/", i) then NestedEnd(text, i + 2, depth - 1)
    else NestedEnd(text, i + 1, depth)
  }

  /** After the closing quote of a string; a backslash takes the next character with it. */
  function StringEnd(text: string, i: nat): (end: nat)
    ensures end <= |text| && (i <= |text| ==> i <= end)
    decreases |text| - i
  {
    if i >= |text| then |text|
    else if text[i] == '\\' then StringEnd(text, i + 2)
    else if text[i] == '"' then i + 1
    else StringEnd(text, i + 1)
  }

  /** The loop may stand one past the end after a trailing backslash. */
  method ScanString(text: string, start: nat) returns (next: nat)
    requires start <= |text|
    ensures start <= next && (if next < |text| then next else |text|) == StringEnd(text, start)
  {
    var i := start;
    while i < |text|
      invariant start <= i
      invariant StringEnd(text, i) == StringEnd(text, start)
      decreases |text| - i
    {
      if text[i] == '\\' {
        i := i + 2;
      } else if text[i] == '"' {
        return i + 1;
      } else {
        i := i + 1;
      }
    }
    next := i;
  }

  /** After the closing quote of a character literal, if one comes on the same line. */
  function CharEnd(text: string, j: nat, escaped: bool): (end: Option<nat>)
    requires j <= |text|
    ensures end.Some? ==> j < end.value <= |text|
    decreases |text| - j
  {
    if j == |text| || IsLineBreak(text[j]) then None
    else if !escaped && text[j] == '\'' then Some(j + 1)
    else CharEnd(text, j + 1, !escaped && text[j] == '\\')
  }

  method ScanChar(text: string, i: nat) returns (end: Option<nat>)
    requires i < |text|
    ensures end == CharEnd(text, i + 1, false)
  {
    var j := i + 1;
    var escaped := false;
    while j < |text| && !IsLineBreak(text[j])
      invariant i < j <= |text|
      invariant CharEnd(text, j, escaped) == CharEnd(text, i + 1, false)
    {
      if !escaped && text[j] == '\'' {
        return Some(j + 1);
      }
      escaped := !escaped && text[j] == '\\';
      j := j + 1;
    }
    end := None;
  }

  function LineEnd(text: string, i: nat): (end: nat)
    requires i <= |text|
    ensures i <= end <= |text|
  {
    match FindFrom(text, "\n", i)
    case Some(k) => k
    case None => |text|
  }

  /** The end of the comment, string or (with `chars`) character literal at `i`; none at a code character. */
  function LexicalEnd(text: string, i: nat, chars: bool): (end: Option<nat>)
    requires i < |text|
    ensures end.Some? ==> i < end.value <= |text|
  {
    if At(text, "//", i) then Some(LineEnd(text, i + 2))
    else if At(text, "/*", i) then Some(NestedEnd(text, i + 2, 1))
    else if RawStringEnd(text, i).Some? then RawStringEnd(text, i)
    else if text[i] == '"' then Some(StringEnd(text, i + 1))
    else if chars && text[i] == '\'' then CharEnd(text, i + 1, false)
    else None
  }

  // ---------------------------------------------------------------- masking comments and strings

  /** The text from `i` with comments and strings blanked; with `chars`, character literals are recognised and kept. */
  function Masked(text: string, i: nat, chars: bool): string
    requires i <= |text|
    decreases |text| - i
  {
    if i == |text| then ""
    else
      match LexicalEnd(text, i, chars)
      case None => [text[i]] + Masked(text, i + 1, chars)
      case Some(end) =>
        ShownPiece(text, i, end) + Masked(text, end, chars)
  }

  /** Everything before `i` is masked, everything from `i` untouched. */
  ghost predicate Progress(chars: string, text: string, i: nat) {
    && i <= |text| == |chars|
    && chars[i..] == text[i..]
    && chars[..i] + Masked(text, i, false) == Masked(text, 0, false)
  }

  method MaskRange(chars: array<char>, start: nat, end: nat)
    requires start <= end <= chars.Length
    modifies chars
    ensures chars[..] == old(chars[..start]) + Blanked(old(chars[start..end])) + old(chars[end..])
  {
    ghost var before := chars[..];
    for pos := start to end
      invariant chars[..] == before[..start] + Blanked(before[start..pos]) + before[pos..]
    {
      BlankedPush(before[start..pos], before[pos]);
      assert before[start..pos + 1] == before[start..pos] + [before[pos]];
      assert chars[pos] == before[pos];
      if !IsLineBreak(chars[pos]) {
        chars[pos] := ' ';
      }
    }
    assert before[..start] == old(chars[..start]) && before[start..end] == old(chars[start..end])
        && before[end..] == old(chars[end..]);
  }

  lemma {:induction false} BlankedPush(s: string, c: char)
    ensures Blanked(s + [c]) == Blanked(s) + [Blank(c)]
    decreases |s|
  {
    if s != "" {
      BlankedPush(s[1..], c);
      assert (s + [c])[1..] == s[1..] + [c];
    }
  }

  lemma Extend(before: string, after: string, text: string, i: nat, end: nat, shown: string, rest: string, full: string)
    requires i <= end <= |text| == |before| && |shown| == end - i
    requires before[i..] == text[i..] && before[..i] + (shown + rest) == full
    requires after == before[..i] + shown + before[end..]
    ensures |after| == |text| && after[..end] + rest == full && after[end..] == text[end..]
  {
    assert before[end..] == before[i..][end - i..] && text[end..] == text[i..][end - i..];
    assert after[..end] == before[..i] + shown && after[end..] == before[end..];
    assert before[..i] + (shown + rest) == (before[..i] + shown) + rest;
  }

  lemma ThreeParts(chars: string, text: string, i: nat)
    requires i < |text| == |chars| && chars[i..] == text[i..]
    ensures chars == chars[..i] + [text[i]] + chars[i + 1..]
  {
    assert chars[i] == chars[i..][0] == text[i..][0] == text[i];
  }

  lemma KeepOne(chars: string, text: string, i: nat)
    requires Progress(chars, text, i) && i < |text| && LexicalEnd(text, i, false).None?
    ensures Progress(chars, text, i + 1)
  {
    var rest := Masked(text, i + 1, false);
    MaskedKeep(text, i, false);
    ThreeParts(chars, text, i);
    Extend(chars, chars, text, i, i + 1, [text[i]], rest, Masked(text, 0, false));
  }

  lemma MaskedKeep(text: string, i: nat, chars: bool)
    requires i < |text| && LexicalEnd(text, i, chars).None?
    ensures Masked(text, i, chars) == [text[i]] + Masked(text, i + 1, chars)
  {
  }

  lemma MaskedSkip(text: string, i: nat, end: nat)
    requires i < |text| && LexicalEnd(text, i, false) == Some(end)
    ensures Masked(text, i, false) == Blanked(text[i..end]) + Masked(text, end, false)
  {
    if text[i] == '\'' {
      LiteralIsPlain(text, i);
      assert false;
    }
  }

  /** Without character literals, an apostrophe starts nothing. */
  lemma LiteralIsPlain(text: string, i: nat)
    requires i < |text| && text[i] == '\''
    ensures LexicalEnd(text, i, false).None?
    ensures LexicalEnd(text, i, true) == CharEnd(text, i + 1, false)
  {
    NotAt(text, "//", i, 0);
    NotAt(text, "/*", i, 0);
    NotAt(text, "br", i, 0);
    NotAt(text, "cr", i, 0);
    NotAt(text, "r", i, 0);
  }

  lemma BlankSome(before: string, after: string, text: string, i: nat, end: nat)
    requires Progress(before, text, i) && i < |text| && LexicalEnd(text, i, false) == Some(end)
    requires after == before[..i] + Blanked(before[i..end]) + before[end..]
    ensures Progress(after, text, end)
  {
    MaskedSkip(text, i, end);
    assert before[i..end] == before[i..][..end - i] == text[i..][..end - i] == text[i..end];
    Extend(before, after, text, i, end, Blanked(text[i..end]), Masked(text, end, false), Masked(text, 0, false));
  }

  /** Where masking resumes: the opener while inside a block comment. */
  function Base(depth: nat, blockStart: nat, i: nat): nat { if depth > 0 then blockStart else i }

  ghost predicate InComment(text: string, depth: nat, blockStart: nat, i: nat) {
    i <= |text| && (depth > 0 ==>
      && blockStart + 2 <= i && At(text, "/*", blockStart)
      && NestedEnd(text, blockStart + 2, 1) == NestedEnd(text, i, depth))
  }

  lemma CommentOpens(text: string, depth: nat, b: nat, i: nat)
    requires depth > 0 && InComment(text, depth, b, i) && At(text, "/*", i)
    ensures InComment(text, depth + 1, b, i + 2)
  {
  }

  lemma CommentCloses(text: string, depth: nat, b: nat, i: nat)
    requires depth > 0 && InComment(text, depth, b, i) && At(text, "*/", i) && !At(text, "/*", i)
    ensures InComment(text, depth - 1, b, i + 2)
  {
  }

  lemma LastCommentCloses(text: string, b: nat, i: nat)
    requires InComment(text, 1, b, i) && At(text, "*/", i) && !At(text, "/*", i)
    ensures b < |text| && LexicalEnd(text, b, false) == Some(i + 2)
  {
    CommentEnds(text, b);
    assert NestedEnd(text, i + 2, 0) == i + 2;
  }

  lemma CommentGoesOn(text: string, depth: nat, b: nat, i: nat)
    requires depth > 0 && InComment(text, depth, b, i) && i < |text| && !At(text, "/*", i) && !At(text, "*/", i)
    ensures InComment(text, depth, b, i + 1)
  {
  }

  lemma CommentStarts(text: string, i: nat)
    requires i < |text| && At(text, "/*", i)
    ensures InComment(text, 1, i, i + 2)
  {
  }

  method WithoutNonCode(text: string) returns (masked: string)
    ensures masked == Masked(text, 0, false)
  {
    var chars := new char[|text|](k requires 0 <= k < |text| => text[k]);
    assert chars[..] == text;
    var i: nat, depth: nat, blockStart: nat := 0, 0, 0;
    while i < |text|
      invariant i <= |text| && InComment(text, depth, blockStart, i)
      invariant Progress(chars[..], text, Base(depth, blockStart, i))
      decreases |text| - i
    {
      if depth > 0 {
        depth, i := MaskComment(chars, text, depth, blockStart, i);
      } else if At(text, "/*", i) {
        CommentStarts(text, i);
        blockStart, depth, i := i, 1, i + 2;
      } else {
        i := MaskNext(chars, text, i);
      }
    }
    if depth > 0 {
      CommentEnds(text, blockStart);
      i := MaskTo(chars, text, blockStart, |text|);
    }
    Finished(chars[..], text);
    masked := chars[..];
  }

  method CloseLast(chars: array<char>, text: string, blockStart: nat, i: nat) returns (next: nat)
    requires InComment(text, 1, blockStart, i) && Progress(chars[..], text, blockStart)
    requires At(text, "*/", i) && !At(text, "/*", i)
    modifies chars
    ensures next == i + 2 <= |text| && Progress(chars[..], text, next)
  {
    LastCommentCloses(text, blockStart, i);
    next := MaskTo(chars, text, blockStart, i + 2);
  }

  /** Inside a block comment: an opener, an inner closer or one character; the last closer is left to the caller. */
  method CommentStep(text: string, depth: nat, blockStart: nat, i: nat) returns (newDepth: nat, next: nat, last: bool)
    requires depth > 0 && i < |text| && InComment(text, depth, blockStart, i)
    ensures last ==> depth == 1 && At(text, "*/", i) && !At(text, "/*", i)
    ensures !last ==> newDepth > 0 && i < next <= |text| && InComment(text, newDepth, blockStart, next)
  {
    newDepth, next, last := depth, i + 1, false;
    if At(text, "/*", i) {
      CommentOpens(text, depth, blockStart, i);
      newDepth, next := depth + 1, i + 2;
    } else if At(text, "*/", i) {
      CommentCloses(text, depth, blockStart, i);
      newDepth, next, last := depth - 1, i + 2, depth == 1;
    } else {
      CommentGoesOn(text, depth, blockStart, i);
    }
  }

  /** Inside a block comment; its last closer blanks it. */
  method MaskComment(chars: array<char>, text: string, depth: nat, blockStart: nat, i: nat)
    returns (newDepth: nat, next: nat)
    requires depth > 0 && i < |text| && InComment(text, depth, blockStart, i) && Progress(chars[..], text, blockStart)
    modifies chars
    ensures i < next <= |text| && InComment(text, newDepth, blockStart, next)
    ensures Progress(chars[..], text, Base(newDepth, blockStart, next))
  {
    var last;
    newDepth, next, last := CommentStep(text, depth, blockStart, i);
    if last {
      newDepth := 0;
      next := CloseLast(chars, text, blockStart, i);
    }
  }

  /** Outside block comments: a line comment, a raw string, a string or one character. */
  method MaskNext(chars: array<char>, text: string, i: nat) returns (next: nat)
    requires i < |text| && !At(text, "/*", i) && Progress(chars[..], text, i)
    modifies chars
    ensures i < next <= |text| && Progress(chars[..], text, next)
  {
    if At(text, "//", i) {
      next := MaskTo(chars, text, i, LineEnd(text, i + 2));
      return;
    }
    var raw := RawString(text, i);
    if raw.Some? {
      next := MaskTo(chars, text, i, raw.value);
    } else if text[i] == '"' {
      var end := ScanString(text, i + 1);
      next := MaskTo(chars, text, i, if end < |text| then end else |text|);
    } else {
      KeepOne(chars[..], text, i);
      next := i + 1;
    }
  }

  method MaskTo(chars: array<char>, text: string, i: nat, end: nat) returns (next: nat)
    requires i < |text| && LexicalEnd(text, i, false) == Some(end)
    requires Progress(chars[..], text, i)
    modifies chars
    ensures next == end && Progress(chars[..], text, end)
  {
    ghost var before := chars[..];
    MaskRange(chars, i, end);
    assert before[..i] == old(chars[..i]) && before[i..end] == old(chars[i..end]) && before[end..] == old(chars[end..]);
    BlankSome(before, chars[..], text, i, end);
    next := end;
  }

  lemma Finished(chars: string, text: string)
    requires Progress(chars, text, |text|)
    ensures chars == Masked(text, 0, false)
  {
    assert chars[..|text|] == chars && chars + "" == chars;
  }

  lemma CommentEnds(text: string, i: nat)
    requires At(text, "/*", i)
    ensures LexicalEnd(text, i, false) == Some(NestedEnd(text, i + 2, 1))
  {
    assert text[i..i + 2][1] == '*';
    NotAt(text, "//", i, 1);
  }

  // ---------------------------------------------------------------- what masking keeps

  /** Same length; each position unchanged or a blanked character that is no line break. */
  ghost predicate SameOrBlank(m: string, s: string) {
    |m| == |s| && forall i :: 0 <= i < |s| ==> m[i] == s[i] || (m[i] == ' ' && s[i] != '\n' && s[i] != '\r')
  }

  lemma SameOrBlankAppend(a: string, s: string, b: string, t: string)
    requires SameOrBlank(a, s) && SameOrBlank(b, t)
    ensures SameOrBlank(a + b, s + t)
  {
  }

  lemma {:induction false} BlankedShape(s: string)
    ensures SameOrBlank(Blanked(s), s)
    decreases |s|
  {
    if s != "" {
      BlankedShape(s[1..]);
      SameOrBlankAppend([Blank(s[0])], [s[0]], Blanked(s[1..]), s[1..]);
      assert s == [s[0]] + s[1..];
    }
  }

  /** Offsets and lines survive masking, and what is not blanked is the text itself. */
  lemma {:induction false} MaskedKeepsOffsets(text: string, i: nat, chars: bool)
    requires i <= |text|
    ensures SameOrBlank(Masked(text, i, chars), text[i..])
    decreases |text| - i
  {
    if i < |text| {
      match LexicalEnd(text, i, chars)
      case None =>
        MaskedKeepsOffsets(text, i + 1, chars);
        MaskedKeep(text, i, chars);
        CharShape(text, i, Masked(text, i + 1, chars));
      case Some(end) =>
        MaskedKeepsOffsets(text, end, chars);
        MaskedPiece(text, i, end, chars);
        PieceShape(text, i, end, Masked(text, end, chars));
    }
  }

  /** What masking shows of a comment or literal: nothing, unless it is a character literal. */
  function ShownPiece(text: string, i: nat, end: nat): string
    requires i < end <= |text|
  {
    if text[i] == '\'' then text[i..end] else Blanked(text[i..end])
  }

  lemma MaskedPiece(text: string, i: nat, end: nat, chars: bool)
    requires i < |text| && LexicalEnd(text, i, chars) == Some(end)
    ensures Masked(text, i, chars) == ShownPiece(text, i, end) + Masked(text, end, chars)
  {
  }

  lemma CharShape(text: string, i: nat, rest: string)
    requires i < |text| && SameOrBlank(rest, text[i + 1..])
    ensures SameOrBlank([text[i]] + rest, text[i..])
  {
    SameOrBlankAppend([text[i]], [text[i]], rest, text[i + 1..]);
    assert text[i..] == [text[i]] + text[i + 1..];
  }

  lemma PieceShape(text: string, i: nat, end: nat, rest: string)
    requires i < end <= |text| && SameOrBlank(rest, text[end..])
    ensures SameOrBlank(ShownPiece(text, i, end) + rest, text[i..])
  {
    BlankedShape(text[i..end]);
    SameOrBlankAppend(ShownPiece(text, i, end), text[i..end], rest, text[end..]);
    assert text[i..] == text[i..end] + text[end..];
  }

  /** No string quote and no comment opener anywhere. */
  predicate Clean(s: string)
    decreases |s|
  {
    s == "" || (s[0] != '"' && !OpensComment(s) && Clean(s[1..]))
  }

  lemma CleanCons(c: char, s: string)
    requires Clean(s) && c != '"' && !OpensComment([c] + s)
    ensures Clean([c] + s)
  {
    assert ([c] + s)[1..] == s;
  }

  lemma {:induction false} BlankedClean(s: string, rest: string)
    requires Clean(rest)
    ensures Clean(Blanked(s) + rest)
    decreases |s|
  {
    if s == "" {
      assert Blanked(s) + rest == rest;
    } else {
      BlankedClean(s[1..], rest);
      CleanCons(Blank(s[0]), Blanked(s[1..]) + rest);
      assert Blanked(s) + rest == [Blank(s[0])] + (Blanked(s[1..]) + rest);
    }
  }

  /** Without character literals, nothing is left that opens a string or a comment. */
  lemma {:induction false} MaskedIsClean(text: string, i: nat)
    requires i <= |text|
    ensures Clean(Masked(text, i, false))
    decreases |text| - i
  {
    if i < |text| {
      match LexicalEnd(text, i, false)
      case None =>
        MaskedIsClean(text, i + 1);
        KeptIsClean(text, i);
      case Some(end) =>
        MaskedIsClean(text, end);
        MaskedSkip(text, i, end);
        BlankedClean(text[i..end], Masked(text, end, false));
    }
  }

  lemma KeptIsClean(text: string, i: nat)
    requires i < |text| && LexicalEnd(text, i, false).None? && Clean(Masked(text, i + 1, false))
    ensures Clean(Masked(text, i, false))
  {
    MaskedKeep(text, i, false);
    MaskedKeepsOffsets(text, i + 1, false);
    NoOpener(text, i, Masked(text, i + 1, false));
    CleanCons(text[i], Masked(text, i + 1, false));
  }

  lemma NoOpener(text: string, i: nat, rest: string)
    requires i < |text| && LexicalEnd(text, i, false).None? && SameOrBlank(rest, text[i + 1..])
    ensures text[i] != '"' && !OpensComment([text[i]] + rest)
  {
    assert rest != "" ==> rest[0] == text[i + 1..][0] == text[i + 1] || rest[0] == ' ';
    assert |text| >= i + 2 ==> text[i..i + 2] == [text[i], text[i + 1]];
  }

  lemma PlainInClean(text: string, i: nat)
    requires i < |text| && Clean(text[i..])
    ensures LexicalEnd(text, i, false).None?
  {
    assert |text| >= i + 2 ==> text[i..i + 2] == [text[i], text[i + 1]] == [text[i..][0], text[i..][1]];
    NoRawInClean(text, i);
  }

  lemma NoRawInClean(text: string, i: nat)
    requires i < |text| && Clean(text[i..])
    ensures RawStringEnd(text, i).None?
  {
    if RawStringEnd(text, i).Some? {
      var p := if At(text, "br", i) || At(text, "cr", i) then 2 else 1;
      var q := HashesEnd(text, i + p);
      CleanAt(text[i..], q - i);
    }
  }

  lemma {:induction false} CleanAt(s: string, k: nat)
    requires Clean(s) && k < |s|
    ensures s[k] != '"' && Clean(s[k..])
    decreases k
  {
    if k > 0 {
      CleanAt(s[1..], k - 1);
      assert s[1..][k - 1..] == s[k..];
    } else {
      assert s[0..] == s;
    }
  }

  lemma {:induction false} CleanIsKept(text: string, i: nat)
    requires i <= |text| && Clean(text[i..])
    ensures Masked(text, i, false) == text[i..]
    decreases |text| - i
  {
    if i < |text| {
      PlainInClean(text, i);
      MaskedKeep(text, i, false);
      assert text[i..][1..] == text[i + 1..];
      CleanIsKept(text, i + 1);
    }
  }

  /** The texts masking leaves alone are exactly those with neither string quotes nor comment openers. */
  lemma FixedIffClean(text: string)
    ensures Masked(text, 0, false) == text <==> Clean(text)
  {
    assert text[0..] == text;
    MaskedIsClean(text, 0);
    if Clean(text) {
      CleanIsKept(text, 0);
    }
  }

  lemma MaskIdempotent(text: string)
    ensures Masked(Masked(text, 0, false), 0, false) == Masked(text, 0, false)
  {
    MaskedIsClean(text, 0);
    FixedIffClean(Masked(text, 0, false));
  }

  // ---------------------------------------------------------------- character literals

  /** No character literal, as the item scanner sees them, holds a string quote or a comment opener. */
  predicate LiteralsClean(text: string, i: nat)
    requires i <= |text|
    decreases |text| - i
  {
    i < |text| ==>
      match LexicalEnd(text, i, true)
      case None => LiteralsClean(text, i + 1)
      case Some(end) => (text[i] == '\'' ==> Clean(text[i..end])) && LiteralsClean(text, end)
  }

  lemma {:induction false} CleanParts(a: string, b: string)
    requires Clean(a + b)
    ensures Clean(a) && Clean(b)
    decreases |a|
  {
    if a == "" {
      assert a + b == b;
    } else {
      assert (a + b)[1..] == a[1..] + b;
      CleanParts(a[1..], b);
    }
  }

  lemma {:induction false} CleanMaskMeansCleanLiterals(text: string, i: nat)
    requires i <= |text| && Clean(Masked(text, i, true))
    ensures LiteralsClean(text, i)
    decreases |text| - i
  {
    if i < |text| {
      match LexicalEnd(text, i, true)
      case None =>
        CleanParts([text[i]], Masked(text, i + 1, true));
        CleanMaskMeansCleanLiterals(text, i + 1);
      case Some(end) =>
        CleanParts(ShownPiece(text, i, end), Masked(text, end, true));
        CleanMaskMeansCleanLiterals(text, end);
    }
  }

  lemma {:induction false} CharEndIsQuote(text: string, j: nat, escaped: bool)
    requires j <= |text| && CharEnd(text, j, escaped).Some?
    ensures text[CharEnd(text, j, escaped).value - 1] == '\''
    decreases |text| - j
  {
    if escaped || text[j] != '\'' {
      CharEndIsQuote(text, j + 1, !escaped && text[j] == '\\');
    }
  }

  /** Inside a clean stretch that ends with an apostrophe, the masking scanner sees only plain characters. */
  lemma PlainInLiteral(text: string, k: nat, end: nat)
    requires k < end <= |text| && text[end - 1] == '\'' && Clean(text[k..end])
    ensures LexicalEnd(text, k, false).None?
  {
    var s := text[k..end];
    if k + 1 < end {
      assert text[k..k + 2] == [s[0], s[1]];
    } else {
      NotAt(text, "//", k, 0);
      NotAt(text, "/*", k, 0);
    }
    NoRawInLiteral(text, k, end);
    assert s[0] == text[k];
  }

  lemma NoRawInLiteral(text: string, k: nat, end: nat)
    requires k < end <= |text| && text[end - 1] == '\'' && Clean(text[k..end])
    ensures RawStringEnd(text, k).None?
  {
    if RawStringEnd(text, k).Some? {
      var p := if At(text, "br", k) || At(text, "cr", k) then 2 else 1;
      var q := HashesEnd(text, k + p);
      RawPrefix(text, k, end - 1);
      RunIsRun(text, k + p, end - 1);
      QuoteInClean(text, k, q, end);
    }
  }

  lemma QuoteInClean(text: string, k: nat, q: nat, end: nat)
    requires k <= q < end <= |text| && Clean(text[k..end])
    ensures text[q] != '"'
  {
    CleanAt(text[k..end], q - k);
    assert text[k..end][q - k] == text[q];
  }

  lemma RawPrefix(text: string, k: nat, m: nat)
    requires k <= m < |text| && text[m] == '\''
    ensures (At(text, "br", k) || At(text, "cr", k)) ==> m >= k + 2
    ensures At(text, "r", k) ==> m >= k + 1
  {
    if m < k + 2 {
      NotAt(text, "br", k, m - k);
      NotAt(text, "cr", k, m - k);
    }
    if m == k {
      NotAt(text, "r", k, 0);
    }
  }

  lemma {:induction false} RunIsRun(text: string, i: nat, m: nat)
    requires i <= m < |text| && text[m] != '#'
    ensures HashesEnd(text, i) <= m
    decreases m - i
  {
    if i < m {
      RunIsRun(text, i + 1, m);
    }
  }

  lemma {:induction false} LiteralIsKept(text: string, k: nat, end: nat)
    requires k <= end <= |text| && (k < end ==> text[end - 1] == '\'') && Clean(text[k..end])
    ensures Masked(text, k, false) == text[k..end] + Masked(text, end, false)
    decreases end - k
  {
    if k < end {
      PlainInLiteral(text, k, end);
      MaskedKeep(text, k, false);
      assert text[k..end][1..] == text[k + 1..end];
      LiteralIsKept(text, k + 1, end);
      assert text[k..end] == [text[k]] + text[k + 1..end];
    }
  }

  lemma SameLiteral(text: string, i: nat, end: nat)
    requires i < |text| && LexicalEnd(text, i, true) == Some(end) && text[i] == '\'' && Clean(text[i..end])
    requires Masked(text, end, false) == Masked(text, end, true)
    ensures Masked(text, i, false) == Masked(text, i, true)
  {
    LiteralEnds(text, i, end);
    LiteralIsKept(text, i, end);
    MaskedPiece(text, i, end, true);
  }

  lemma LiteralEnds(text: string, i: nat, end: nat)
    requires i < |text| && LexicalEnd(text, i, true) == Some(end) && text[i] == '\''
    ensures text[end - 1] == '\''
  {
    LiteralIsPlain(text, i);
    CharEndIsQuote(text, i + 1, false);
  }

  lemma SamePiece(text: string, i: nat, end: nat)
    requires i < |text| && LexicalEnd(text, i, true) == Some(end) && text[i] != '\''
    requires Masked(text, end, false) == Masked(text, end, true)
    ensures Masked(text, i, false) == Masked(text, i, true)
  {
    SameLexical(text, i);
    MaskedPiece(text, i, end, true);
    MaskedSkip(text, i, end);
  }

  lemma SameCode(text: string, i: nat)
    requires i < |text| && LexicalEnd(text, i, true).None? && Masked(text, i + 1, false) == Masked(text, i + 1, true)
    ensures Masked(text, i, false) == Masked(text, i, true)
  {
    SameLexical(text, i);
    MaskedKeep(text, i, false);
    MaskedKeep(text, i, true);
  }

  lemma {:induction false} CleanLiteralsMeanSameMask(text: string, i: nat)
    requires i <= |text| && LiteralsClean(text, i)
    ensures Masked(text, i, false) == Masked(text, i, true)
    decreases |text| - i
  {
    if i < |text| {
      match LexicalEnd(text, i, true)
      case None =>
        CleanLiteralsMeanSameMask(text, i + 1);
        SameCode(text, i);
      case Some(end) =>
        CleanLiteralsMeanSameMask(text, end);
        if text[i] == '\'' {
          SameLiteral(text, i, end);
        } else {
          SamePiece(text, i, end);
        }
    }
  }

  lemma SameLexical(text: string, i: nat)
    requires i < |text| && (text[i] != '\'' || LexicalEnd(text, i, true).None?)
    ensures LexicalEnd(text, i, false) == LexicalEnd(text, i, true)
  {
  }

  /**
   The masking pass, which knows no character literals, blanks the same text as
   the item scanner's lexer would exactly when no character literal holds a
   string quote or a comment opener.
   */
  lemma LexersAgreeIff(text: string)
    ensures Masked(text, 0, false) == Masked(text, 0, true) <==> LiteralsClean(text, 0)
  {
    MaskedIsClean(text, 0);
    if Masked(text, 0, false) == Masked(text, 0, true) {
      CleanMaskMeansCleanLiterals(text, 0);
    }
    if LiteralsClean(text, 0) {
      CleanLiteralsMeanSameMask(text, 0);
    }
  }

  /** The two lexers part on a double quote written as a character literal. */
  lemma QuoteLiteralMisleads()
    ensures !LiteralsClean("'\"'", 0) && Masked("'\"'", 0, false) != Masked("'\"'", 0, true)
  {
    var t := "'\"'";
    LiteralIsPlain(t, 0);
    assert CharEnd(t, 1, false) == CharEnd(t, 2, false) == Some(3);
    assert t[0..3] == t && t[1..][0] == '"' && !Clean(t[1..]);
    LexersAgreeIff(t);
  }
}
