/**
 The `#[cfg(test)]` items of Rust source text.

 Attributes are looked for in the text with comments and strings masked; the
 end of the item behind each is found by scanning the text itself for its block
 or semicolon; all these ranges are then blanked, so that the extractor sees
 production routes only, on unchanged lines.
 */
module TestItems {
  import opened Options
  import opened Text
  import opened RouteMask

  // ---------------------------------------------------------------- blocks and items

  /** For each position the end of the comment or literal that starts there, if one does. */
  type Lexer = nat -> Option<nat>

  /** A lexer's answer, which counts only if it moves on. */
  function After(lex: Lexer, i: nat): (end: Option<nat>)
    ensures end.Some? ==> i < end.value
  {
    if lex(i).Some? && i < lex(i).value then lex(i) else None
  }

  /** The lexer of Rust text, character literals included. */
  function Rust(text: string): Lexer {
    (i: nat) => if i < |text| then LexicalEnd(text, i, true) else None
  }

  /** The closing brace that brings the depth to zero, scanning code from `i`. */
  function BlockClose(text: string, lex: Lexer, i: nat, depth: int): (j: Option<nat>)
    ensures j.Some? ==> i <= j.value < |text|
    decreases |text| - i
  {
    if i >= |text| then None
    else
      match After(lex, i)
      case Some(end) => BlockClose(text, lex, end, depth)
      case None =>
        if text[i] == '}' && depth == 1 then Some(i) else BlockClose(text, lex, i + 1, depth + Weight(text[i]))
  }

  function Weight(c: char): int { if c == '{' then 1 else if c == '}' then -1 else 0 }

  /** The end of the block at `i`: after its closing brace, or the end of the text. */
  function BlockEnd(text: string, lex: Lexer, i: nat): (end: nat)
    ensures end <= |text| && (i <= |text| ==> i <= end)
  {
    match BlockClose(text, lex, i, 0)
    case Some(j) => j + 1
    case None => |text|
  }

  /** The end of the item that follows an attribute: its block or its semicolon, whichever comes first. */
  function ItemEnd(text: string, lex: Lexer, i: nat): (end: nat)
    ensures end <= |text| && (i <= |text| ==> i <= end)
    decreases |text| - i
  {
    if i >= |text| then |text|
    else
      match After(lex, i)
      case Some(end) => ItemEnd(text, lex, end)
      case None => if text[i] == '{' then BlockEnd(text, lex, i) else if text[i] == ';' then i + 1 else ItemEnd(text, lex, i + 1)
  }

  /** Where scanning goes on: after the block comment, if inside one. */
  function Resume(text: string, i: nat, comment: nat): nat {
    if comment > 0 && i <= |text| then NestedEnd(text, i, comment) else i
  }

  /** Over a line comment, a string or a character literal; `next` may be one past the newline or the end. */
  method SkipStep(text: string, i: nat) returns (next: Option<nat>)
    requires i < |text| && !At(text, "/*", i)
    ensures next.None? <==> LexicalEnd(text, i, true).None?
    ensures next.Some? ==> i < next.value && Past(text, LexicalEnd(text, i, true).value, next.value)
  {
    if At(text, "//", i) {
      var newline := LineEnd(text, i + 2);
      NewlineThere(text, i + 2);
      return Some(newline + 1);
    }
    var raw := RawString(text, i);
    if raw.Some? {
      next := raw;
    } else if text[i] == '"' {
      var end := ScanString(text, i + 1);
      next := Some(end);
    } else if text[i] == '\'' {
      next := ScanChar(text, i);
    } else {
      next := None;
    }
  }

  /** `next` is `end`, or past it with nothing but a newline or the end of the text between. */
  predicate Past(text: string, end: nat, next: nat) {
    || next == end
    || (end < |text| && text[end] == '\n' && next == end + 1)
    || (end == |text| && next >= |text|)
  }

  lemma NewlineThere(text: string, i: nat)
    requires i <= |text|
    ensures LineEnd(text, i) < |text| ==> text[LineEnd(text, i)] == '\n'
  {
    FindFromFirst(text, "\n", i);
    var k := FindFrom(text, "\n", i);
    assert k.Some? ==> text[k.value..k.value + 1][0] == text[k.value];
  }

  /** A newline is a plain code character. */
  lemma NewlineIsCode(text: string, i: nat)
    requires i < |text| && text[i] == '\n'
    ensures LexicalEnd(text, i, true).None?
  {
    NotAt(text, "//", i, 0);
    NotAt(text, "/*", i, 0);
    NotAt(text, "br", i, 0);
    NotAt(text, "cr", i, 0);
    NotAt(text, "r", i, 0);
  }

  /** Both scans give the same result from either place. */
  ghost predicate SameScan(text: string, lex: Lexer, i: nat, j: nat, depth: int) {
    ItemEnd(text, lex, i) == ItemEnd(text, lex, j) && BlockClose(text, lex, i, depth) == BlockClose(text, lex, j, depth)
  }

  ghost predicate IsCode(text: string, lex: Lexer, i: nat)
    requires i < |text|
  {
    After(lex, i).None?
  }

  lemma CodeInBlock(text: string, lex: Lexer, i: nat, depth: int)
    requires i < |text| && IsCode(text, lex, i)
    ensures BlockClose(text, lex, i, depth)
            == if text[i] == '}' && depth == 1 then Some(i) else BlockClose(text, lex, i + 1, depth + Weight(text[i]))
  {
  }

  lemma CodeInItem(text: string, lex: Lexer, i: nat)
    requires i < |text| && IsCode(text, lex, i)
    ensures ItemEnd(text, lex, i)
            == if text[i] == '{' then BlockEnd(text, lex, i) else if text[i] == ';' then i + 1 else ItemEnd(text, lex, i + 1)
  {
  }

  /** Comments and literals are passed over as if they were not there. */
  lemma Skipping(text: string, lex: Lexer, i: nat, end: nat, depth: int)
    requires i < |text| && After(lex, i) == Some(end)
    ensures SameScan(text, lex, i, end, depth)
  {
  }

  ghost predicate NewlinesAreCode(text: string, lex: Lexer) {
    forall i: nat :: i < |text| && text[i] == '\n' ==> IsCode(text, lex, i)
  }

  lemma RustNewlines(text: string)
    ensures NewlinesAreCode(text, Rust(text))
  {
    forall i: nat | i < |text| && text[i] == '\n' ensures IsCode(text, Rust(text), i) {
      NewlineIsCode(text, i);
    }
  }

  lemma SkippingPast(text: string, lex: Lexer, end: nat, next: nat, depth: int)
    requires Past(text, end, next) && NewlinesAreCode(text, lex)
    ensures SameScan(text, lex, end, next, depth)
  {
    if next == end + 1 && end < |text| {
      CodeInBlock(text, lex, end, depth);
      CodeInItem(text, lex, end);
    }
  }

  /** From `i` over the comment or literal there, if any, to `j`. */
  predicate Moves(text: string, lex: Lexer, i: nat, j: nat) {
    || i == j
    || (i < |text| && After(lex, i).Some? && Past(text, After(lex, i).value, j))
  }

  lemma MovingIsSkipping(text: string, lex: Lexer, i: nat, j: nat, depth: int)
    requires Moves(text, lex, i, j) && NewlinesAreCode(text, lex)
    ensures SameScan(text, lex, i, j, depth)
  {
    if i != j {
      Skipping(text, lex, i, After(lex, i).value, depth);
      SkippingPast(text, lex, After(lex, i).value, j, depth);
    }
  }

  lemma CommentIsSkipped(text: string, i: nat)
    requires i < |text| && At(text, "/*", i)
    ensures Moves(text, Rust(text), i, Resume(text, i + 2, 1))
  {
    assert text[i..i + 2][1] == '*';
    NotAt(text, "//", i, 1);
  }

  lemma ResumeOutside(text: string, i: nat)
    ensures Resume(text, i, 0) == i
  {
  }

  lemma ResumeStep(text: string, i: nat, comment: nat)
    requires i < |text| && comment > 0
    ensures At(text, "/*", i) ==> Resume(text, i, comment) == Resume(text, i + 2, comment + 1)
    ensures !At(text, "/*", i) && At(text, "*/", i) ==> Resume(text, i, comment) == Resume(text, i + 2, comment - 1)
    ensures !At(text, "/*", i) && !At(text, "*/", i) ==> Resume(text, i, comment) == Resume(text, i + 1, comment)
  {
  }

  /** The lexical part of one loop iteration: move on inside or over comments and literals, or stop at code. */
  method LexStep(text: string, i: nat, comment: nat)
    returns (code: bool, next: nat, inside: nat)
    requires i < |text|
    ensures code ==> comment == 0 && IsCode(text, Rust(text), i)
    ensures !code ==> i < next && (inside > 0 ==> next <= |text|)
    ensures !code ==> Moves(text, Rust(text), Resume(text, i, comment), Resume(text, next, inside))
  {
    code, next, inside := false, i + 1, comment;
    if comment > 0 {
      ResumeStep(text, i, comment);
      if At(text, "/*", i) {
        next, inside := i + 2, comment + 1;
      } else if At(text, "*/", i) {
        next, inside := i + 2, comment - 1;
      }
    } else if At(text, "/*", i) {
      CommentIsSkipped(text, i);
      next, inside := i + 2, 1;
    } else {
      var skipped := SkipStep(text, i);
      if skipped.Some? {
        next := skipped.value;
      } else {
        code := true;
      }
    }
  }

  lemma ClosesLater(text: string, lex: Lexer, i: nat)
    requires BlockClose(text, lex, i, 0).Some?
    ensures BlockClose(text, lex, i, 0).value > i
  {
  }

  /** One iteration of the block scan: found at `i`, or on to `next`. */
  method BlockStep(text: string, i: nat, comment: nat, depth: int)
    returns (found: bool, next: nat, inside: nat, newDepth: int)
    requires i < |text|
    ensures !found ==> i < next && (inside > 0 ==> next <= |text|)
    ensures BlockClose(text, Rust(text), Resume(text, i, comment), depth)
            == if found then Some(i) else BlockClose(text, Rust(text), Resume(text, next, inside), newDepth)
  {
    var code;
    code, next, inside := LexStep(text, i, comment);
    found, newDepth := false, depth;
    if !code {
      BlockMoves(text, Resume(text, i, comment), Resume(text, next, inside), depth);
    } else {
      found, next, inside, newDepth := text[i] == '}' && depth - 1 == 0, i + 1, 0, depth + Weight(text[i]);
      BlockGoesOn(text, Rust(text), i, Resume(text, i, comment), Resume(text, next, inside), depth);
    }
  }

  /** At a code character outside comments the scan ends or goes on behind it. */
  lemma BlockGoesOn(text: string, lex: Lexer, i: nat, here: nat, there: nat, depth: int)
    requires i < |text| && IsCode(text, lex, i) && here == Resume(text, i, 0) && there == Resume(text, i + 1, 0)
    ensures BlockClose(text, lex, here, depth)
            == if text[i] == '}' && depth - 1 == 0 then Some(i) else BlockClose(text, lex, there, depth + Weight(text[i]))
  {
    BlockAtCode(text, lex, i, depth);
  }

  lemma BlockMoves(text: string, i: nat, j: nat, depth: int)
    requires Moves(text, Rust(text), i, j)
    ensures BlockClose(text, Rust(text), i, depth) == BlockClose(text, Rust(text), j, depth)
  {
    RustNewlines(text);
    MovingIsSkipping(text, Rust(text), i, j, depth);
  }

  lemma BlockAtCode(text: string, lex: Lexer, i: nat, depth: int)
    requires i < |text| && IsCode(text, lex, i)
    ensures BlockClose(text, lex, Resume(text, i, 0), depth)
            == if text[i] == '}' && depth == 1 then Some(i)
               else BlockClose(text, lex, Resume(text, i + 1, 0), depth + Weight(text[i]))
  {
    CodeInBlock(text, lex, i, depth);
    ResumeOutside(text, i);
    ResumeOutside(text, i + 1);
  }

  method FindBlockClose(text: string, open: nat) returns (close: Option<nat>)
    requires open < |text|
    ensures close == BlockClose(text, Rust(text), open, 0)
  {
    var depth: int := 0;
    var i, comment: nat := open, 0;
    while i < |text|
      invariant open <= i && (comment > 0 ==> i <= |text|)
      invariant BlockClose(text, Rust(text), Resume(text, i, comment), depth) == BlockClose(text, Rust(text), open, 0)
      decreases |text| - i
    {
      var found, next, inside, newDepth := BlockStep(text, i, comment, depth);
      if found {
        return Some(i);
      }
      i, comment, depth := next, inside, newDepth;
    }
    close := None;
  }

  /** The text between the braces, and the end of the block. */
  method CaptureBlock(text: string, open: nat) returns (body: string, end: nat)
    requires open < |text|
    ensures end == BlockEnd(text, Rust(text), open)
    ensures
      match BlockClose(text, Rust(text), open, 0)
      case Some(j) => j > open && body == text[open + 1..j]
      case None => body == text[open + 1..]
  {
    var close := FindBlockClose(text, open);
    match close
    case Some(j) =>
      ClosesLater(text, Rust(text), open);
      body, end := text[open + 1..j], j + 1;
    case None =>
      body, end := text[open + 1..], |text|;
  }

  method FindItemEnd(text: string, start: nat) returns (end: nat)
    requires start <= |text|
    ensures end == ItemEnd(text, Rust(text), start)
  {
    var i, comment: nat := start, 0;
    while i < |text|
      invariant start <= i && (comment > 0 ==> i <= |text|)
      invariant ItemEnd(text, Rust(text), Resume(text, i, comment)) == ItemEnd(text, Rust(text), start)
      decreases |text| - i
    {
      var code, next, inside := LexStep(text, i, comment);
      if !code {
        RustNewlines(text);
        MovingIsSkipping(text, Rust(text), Resume(text, i, comment), Resume(text, next, inside), 0);
        i, comment := next, inside;
        continue;
      }
      CodeInItem(text, Rust(text), i);
      if text[i] == '{' {
        var body;
        body, end := CaptureBlock(text, i);
        return;
      }
      if text[i] == ';' {
        return i + 1;
      }
      i := i + 1;
    }
    return |text|;
  }

  // ---------------------------------------------------------------- what they find

  /** The positions of code characters from `i` on. */
  function Codes(text: string, lex: Lexer, i: nat): (ps: seq<nat>)
    ensures forall k :: 0 <= k < |ps| ==> ps[k] < |text|
    decreases |text| - i
  {
    if i >= |text| then []
    else
      match After(lex, i)
      case Some(end) => Codes(text, lex, end)
      case None => [i] + Codes(text, lex, i + 1)
  }

  predicate Inside(text: string, ps: seq<nat>) { forall k :: 0 <= k < |ps| ==> ps[k] < |text| }

  /** Opening minus closing braces at these positions. */
  function Net(text: string, ps: seq<nat>): int
    requires Inside(text, ps)
  {
    if ps == [] then 0 else Weight(text[ps[0]]) + Net(text, ps[1..])
  }

  /** The k-th position is a closing brace that brings the depth, `depth` at first, to zero. */
  predicate Closes(text: string, ps: seq<nat>, k: nat, depth: int)
    requires Inside(text, ps) && k < |ps|
  {
    text[ps[k]] == '}' && depth + Net(text, ps[..k]) == 1
  }

  /** The k-th position is the first that does. */
  ghost predicate ClosesFirst(text: string, ps: seq<nat>, k: nat, depth: int)
    requires Inside(text, ps)
  {
    k < |ps| && Closes(text, ps, k, depth) && forall m :: 0 <= m < k ==> !Closes(text, ps, m, depth)
  }

  lemma ClosesTail(text: string, ps: seq<nat>, k: nat, depth: int)
    requires Inside(text, ps) && 0 < k < |ps|
    ensures Closes(text, ps, k, depth) <==> Closes(text, ps[1..], k - 1, depth + Weight(text[ps[0]]))
  {
    assert ps[..k][1..] == ps[1..][..k - 1];
  }

  /** The first of these positions to close the block. */
  function FirstClose(text: string, ps: seq<nat>, depth: int): Option<nat>
    requires Inside(text, ps)
  {
    if ps == [] then None
    else if text[ps[0]] == '}' && depth == 1 then Some(ps[0])
    else FirstClose(text, ps[1..], depth + Weight(text[ps[0]]))
  }

  lemma {:induction false} BlockCloseIsFirst(text: string, lex: Lexer, i: nat, depth: int)
    ensures BlockClose(text, lex, i, depth) == FirstClose(text, Codes(text, lex, i), depth)
    decreases |text| - i
  {
    if i < |text| {
      match After(lex, i)
      case Some(end) =>
        BlockCloseIsFirst(text, lex, end, depth);
        Skipping(text, lex, i, end, depth);
        CodesSkip(text, lex, i, end);
      case None =>
        BlockCloseIsFirst(text, lex, i + 1, depth + Weight(text[i]));
        CloseAtCode(text, lex, i, depth);
    }
  }

  lemma CodesSkip(text: string, lex: Lexer, i: nat, end: nat)
    requires i < |text| && After(lex, i) == Some(end)
    ensures Codes(text, lex, i) == Codes(text, lex, end)
  {
  }

  lemma CodesKeep(text: string, lex: Lexer, i: nat)
    requires i < |text| && After(lex, i).None?
    ensures Codes(text, lex, i) == [i] + Codes(text, lex, i + 1)
  {
  }

  lemma CloseAtCode(text: string, lex: Lexer, i: nat, depth: int)
    requires i < |text| && After(lex, i).None?
    requires BlockClose(text, lex, i + 1, depth + Weight(text[i])) == FirstClose(text, Codes(text, lex, i + 1), depth + Weight(text[i]))
    ensures BlockClose(text, lex, i, depth) == FirstClose(text, Codes(text, lex, i), depth)
  {
    CodeInBlock(text, lex, i, depth);
    CodesKeep(text, lex, i);
    FirstCloseCons(text, i, Codes(text, lex, i + 1), depth);
  }

  lemma FirstCloseCons(text: string, i: nat, rest: seq<nat>, depth: int)
    requires i < |text| && Inside(text, rest)
    ensures Inside(text, [i] + rest)
    ensures FirstClose(text, [i] + rest, depth)
            == if text[i] == '}' && depth == 1 then Some(i) else FirstClose(text, rest, depth + Weight(text[i]))
  {
    assert ([i] + rest)[1..] == rest;
  }

  /** `found` is the k-th position, the first to close the block; or no position does. */
  ghost predicate FindsClose(text: string, ps: seq<nat>, k: nat, depth: int, found: Option<nat>)
    requires Inside(text, ps)
  {
    if found.Some? then ClosesFirst(text, ps, k, depth) && ps[k] == found.value
    else forall m :: 0 <= m < |ps| ==> !Closes(text, ps, m, depth)
  }

  lemma {:induction false} FirstCloseExact(text: string, ps: seq<nat>, depth: int) returns (k: nat)
    requires Inside(text, ps)
    ensures FindsClose(text, ps, k, depth, FirstClose(text, ps, depth))
    decreases |ps|
  {
    k := 0;
    if ps != [] {
      assert Net(text, ps[..0]) == 0;
      if !(text[ps[0]] == '}' && depth == 1) {
        k := FirstCloseExact(text, ps[1..], depth + Weight(text[ps[0]]));
        ClosesShift(text, ps, ps[1..], k, depth);
        k := k + 1;
      }
    }
  }

  /** The scan finds the first code brace that closes the block, counting code braces only. */
  lemma BlockCloseExact(text: string, lex: Lexer, i: nat, depth: int) returns (k: nat)
    ensures FindsClose(text, Codes(text, lex, i), k, depth, BlockClose(text, lex, i, depth))
  {
    BlockCloseIsFirst(text, lex, i, depth);
    k := FirstCloseExact(text, Codes(text, lex, i), depth);
  }

  lemma ClosesShift(text: string, ps: seq<nat>, rest: seq<nat>, k: nat, depth: int)
    requires Inside(text, ps) && ps != [] && ps[1..] == rest && !(text[ps[0]] == '}' && depth == 1)
    ensures
      var after := depth + Weight(text[ps[0]]);
      && (ClosesFirst(text, rest, k, after) ==> ClosesFirst(text, ps, k + 1, depth))
      && ((forall m :: 0 <= m < |rest| ==> !Closes(text, rest, m, after))
          ==> forall m :: 0 <= m < |ps| ==> !Closes(text, ps, m, depth))
  {
    assert Net(text, ps[..0]) == 0;
    forall m | 0 < m < |ps|
      ensures Closes(text, ps, m, depth) <==> Closes(text, rest, m - 1, depth + Weight(text[ps[0]])) {
      ClosesTail(text, ps, m, depth);
    }
  }

  lemma {:induction false} NetPush(text: string, ps: seq<nat>, k: nat)
    requires Inside(text, ps) && k < |ps|
    ensures Net(text, ps[..k + 1]) == Net(text, ps[..k]) + Weight(text[ps[k]])
    decreases k
  {
    if k == 0 {
      assert ps[..1] == [ps[0]] && ps[..1][1..] == [];
    } else {
      NetPush(text, ps[1..], k - 1);
      assert ps[..k + 1][1..] == ps[1..][..k] && ps[..k][1..] == ps[1..][..k - 1];
    }
  }

  /** A block that starts with a brace ends where its code braces balance, and nowhere before. */
  lemma BlockIsBalanced(text: string, lex: Lexer, i: nat) returns (k: nat)
    requires i < |text| && After(lex, i).None? && text[i] == '{' && BlockClose(text, lex, i, 0).Some?
    ensures k < |Codes(text, lex, i)| && Codes(text, lex, i)[k] + 1 == BlockEnd(text, lex, i)
    ensures Net(text, Codes(text, lex, i)[..k + 1]) == 0
    ensures forall m :: 0 < m <= k ==> Net(text, Codes(text, lex, i)[..m]) > 0
  {
    var ps := Codes(text, lex, i);
    k := BlockCloseExact(text, lex, i, 0);
    NetPush(text, ps, k);
    forall m | 0 < m <= k ensures Net(text, ps[..m]) > 0 {
      StaysOpen(text, ps, k, m);
    }
  }

  lemma {:induction false} StaysOpen(text: string, ps: seq<nat>, k: nat, m: nat)
    requires Inside(text, ps) && ClosesFirst(text, ps, k, 0) && 0 < m <= k && text[ps[0]] == '{'
    ensures Net(text, ps[..m]) > 0
    decreases m
  {
    NetPush(text, ps, m - 1);
    assert Net(text, ps[..0]) == 0;
    if m > 1 {
      StaysOpen(text, ps, k, m - 1);
      assert !Closes(text, ps, m - 1, 0);
    }
  }

  predicate EndsItem(c: char) { c == '{' || c == ';' }

  /** The end of the item whose code characters stand at these positions. */
  function FirstEnd(text: string, lex: Lexer, ps: seq<nat>): nat
    requires Inside(text, ps)
  {
    if ps == [] then |text|
    else if text[ps[0]] == '{' then BlockEnd(text, lex, ps[0])
    else if text[ps[0]] == ';' then ps[0] + 1
    else FirstEnd(text, lex, ps[1..])
  }

  lemma {:induction false} ItemEndIsFirst(text: string, lex: Lexer, i: nat)
    ensures ItemEnd(text, lex, i) == FirstEnd(text, lex, Codes(text, lex, i))
    decreases |text| - i
  {
    if i < |text| {
      match After(lex, i)
      case Some(end) =>
        ItemEndIsFirst(text, lex, end);
      case None =>
        ItemEndIsFirst(text, lex, i + 1);
        CodeInItem(text, lex, i);
        FirstEndCons(text, lex, i, Codes(text, lex, i + 1));
    }
  }

  lemma FirstEndCons(text: string, lex: Lexer, i: nat, rest: seq<nat>)
    requires i < |text| && Inside(text, rest)
    ensures Inside(text, [i] + rest)
    ensures FirstEnd(text, lex, [i] + rest)
            == if text[i] == '{' then BlockEnd(text, lex, i) else if text[i] == ';' then i + 1 else FirstEnd(text, lex, rest)
  {
    assert ([i] + rest)[1..] == rest;
  }

  /** The k-th position is the first with an opening brace or a semicolon, and there the item ends; or none has one. */
  ghost predicate EndsAt(text: string, lex: Lexer, ps: seq<nat>, k: nat, end: nat)
    requires Inside(text, ps)
  {
    && k <= |ps|
    && (forall m :: 0 <= m < k ==> !EndsItem(text[ps[m]]))
    && (if k == |ps| then end == |text|
        else EndsItem(text[ps[k]]) && end == if text[ps[k]] == '{' then BlockEnd(text, lex, ps[k]) else ps[k] + 1)
  }

  lemma {:induction false} FirstEndExact(text: string, lex: Lexer, ps: seq<nat>) returns (k: nat)
    requires Inside(text, ps)
    ensures EndsAt(text, lex, ps, k, FirstEnd(text, lex, ps))
    decreases |ps|
  {
    k := 0;
    if ps != [] && !EndsItem(text[ps[0]]) {
      k := FirstEndExact(text, lex, ps[1..]);
      k := k + 1;
    }
  }

  /** The item ends with the block or the semicolon of its first code brace or semicolon. */
  lemma ItemEndExact(text: string, lex: Lexer, i: nat) returns (k: nat)
    ensures EndsAt(text, lex, Codes(text, lex, i), k, ItemEnd(text, lex, i))
  {
    ItemEndIsFirst(text, lex, i);
    k := FirstEndExact(text, lex, Codes(text, lex, i));
  }

  // ---------------------------------------------------------------- attributes

  const PARTS: seq<string> := ["#", "[", "cfg", "(", "test", ")", "]"]

  predicate IsBlank(c: char) { c == ' ' || c == '\t' }

  function BlanksEnd(t: string, i: nat): (j: nat)
    requires i <= |t|
    ensures i <= j <= |t|
    decreases |t| - i
  {
    if i < |t| && IsBlank(t[i]) then BlanksEnd(t, i + 1) else i
  }

  function SpacesEnd(t: string, i: nat): (j: nat)
    requires i <= |t|
    ensures i <= j <= |t|
    decreases |t| - i
  {
    if i < |t| && IsPythonSpace(t[i]) then SpacesEnd(t, i + 1) else i
  }

  /** The parts from the k-th on, with optional space between them. */
  function PartsEnd(t: string, i: nat, parts: seq<string>, k: nat): (end: Option<nat>)
    requires i <= |t| && k < |parts|
    ensures end.Some? ==> i + |parts[k]| <= end.value <= |t|
    decreases |parts| - k
  {
    if !At(t, parts[k], i) then None
    else
      var next := i + |parts[k]|;
      if k == |parts| - 1 then Some(next) else PartsEnd(t, SpacesEnd(t, next), parts, k + 1)
  }

  /** Where an attribute of these parts that starts, with its indentation, at the line start `p` ends. */
  function LineAttributeEnd(t: string, p: nat, parts: seq<string>): (end: Option<nat>)
    requires p <= |t| && parts != []
    ensures end.Some? ==> p + |parts[0]| <= end.value <= |t|
  {
    if p > 0 && t[p - 1] != '\n' then None
    else
      match PartsEnd(t, BlanksEnd(t, p), parts, 0)
      case Some(end) => Some(BlanksEnd(t, end))
      case None => None
  }

  function AttributeEnd(t: string, p: nat): (end: Option<nat>)
    requires p <= |t|
    ensures end.Some? ==> p < end.value <= |t|
  {
    LineAttributeEnd(t, p, PARTS)
  }

  /** The first line start at or after `from` with an attribute. */
  function FindAttribute(t: string, from: nat): (p: Option<nat>)
    requires from <= |t|
    ensures p.Some? ==> from <= p.value <= |t| && AttributeEnd(t, p.value).Some?
    decreases |t| - from
  {
    if AttributeEnd(t, from).Some? then Some(from) else if from == |t| then None else FindAttribute(t, from + 1)
  }

  // ---------------------------------------------------------------- ranges

  datatype Range = Range(start: nat, end: nat)

  /** Every test item from `cursor` on: its attribute, found in the masked text, to the end of the item. */
  function Ranges(text: string, lex: Lexer, masked: string, cursor: nat): seq<Range>
    requires cursor <= |text| == |masked|
    decreases |text| - cursor
  {
    match FindAttribute(masked, cursor)
    case None => []
    case Some(p) =>
      var end := ItemEnd(text, lex, AttributeEnd(masked, p).value);
      [Range(p, end)] + Ranges(text, lex, masked, end)
  }

  predicate InSome(ranges: seq<Range>, i: nat)
    decreases |ranges|
  {
    ranges != [] && (ranges[0].start <= i < ranges[0].end || InSome(ranges[1..], i))
  }

  method WithoutCfgTestItems(text: string) returns (result: string)
    ensures |Masked(text, 0, false)| == |text| == |result|
    ensures forall i :: 0 <= i < |text| ==>
              result[i] == if InSome(Ranges(text, Rust(text), Masked(text, 0, false), 0), i) then Blank(text[i]) else text[i]
  {
    MaskedKeepsOffsets(text, 0, false);
    assert text[0..] == text;
    var masked := WithoutNonCode(text);
    var ranges := CollectRanges(text, masked);
    if ranges == [] {
      return text;
    }
    RangesOrdered(text, Rust(text), masked, 0);
    result := BlankRanges(text, ranges);
  }

  method CollectRanges(text: string, masked: string) returns (ranges: seq<Range>)
    requires |masked| == |text|
    ensures ranges == Ranges(text, Rust(text), masked, 0)
  {
    ranges := [];
    var cursor := 0;
    var found := FindAttribute(masked, cursor);
    while found.Some?
      invariant cursor <= |text| && found == FindAttribute(masked, cursor)
      invariant Ranges(text, Rust(text), masked, 0) == ranges + Ranges(text, Rust(text), masked, cursor)
      decreases |text| - cursor, if found.Some? then 1 else 0
    {
      var after := AttributeEnd(masked, found.value).value;
      var end := FindItemEnd(text, after);
      RangesStep(text, Rust(text), masked, cursor, found.value, end, ranges);
      ranges := ranges + [Range(found.value, end)];
      cursor := if end > after then end else after;
      assert cursor == end;
      found := FindAttribute(masked, cursor);
    }
    RangesStop(text, Rust(text), masked, cursor, ranges);
  }

  lemma RangesStep(text: string, lex: Lexer, masked: string, cursor: nat, p: nat, end: nat, before: seq<Range>)
    requires cursor <= |text| == |masked| && FindAttribute(masked, cursor) == Some(p)
    requires end == ItemEnd(text, lex, AttributeEnd(masked, p).value)
    ensures before + Ranges(text, lex, masked, cursor) == (before + [Range(p, end)]) + Ranges(text, lex, masked, end)
  {
  }

  lemma RangesStop(text: string, lex: Lexer, masked: string, cursor: nat, before: seq<Range>)
    requires cursor <= |text| == |masked| && FindAttribute(masked, cursor).None?
    ensures before + Ranges(text, lex, masked, cursor) == before
  {
  }

  method BlankRanges(text: string, ranges: seq<Range>) returns (result: string)
    requires Ordered(ranges, 0, |text|)
    ensures |result| == |text|
    ensures forall i :: 0 <= i < |text| ==> result[i] == if InSome(ranges, i) then Blank(text[i]) else text[i]
  {
    var chars := new char[|text|](k requires 0 <= k < |text| => text[k]);
    for n := 0 to |ranges|
      invariant forall i :: 0 <= i < |text| ==> chars[i] == if InSome(ranges[..n], i) then Blank(text[i]) else text[i]
    {
      OrderedBounds(ranges, n, 0, |text|);
      forall i: nat ensures InSome(ranges[..n + 1], i) <==> InSome(ranges[..n], i) || ranges[n].start <= i < ranges[n].end {
        InSomePush(ranges[..n], ranges[n], i);
        assert ranges[..n + 1] == ranges[..n] + [ranges[n]];
      }
      for i := ranges[n].start to ranges[n].end
        invariant forall k :: 0 <= k < |text| ==>
                    chars[k] == if InSome(ranges[..n], k) || ranges[n].start <= k < i then Blank(text[k]) else text[k]
      {
        if !IsLineBreak(chars[i]) {
          chars[i] := ' ';
        }
      }
    }
    assert ranges[..|ranges|] == ranges;
    result := chars[..];
  }

  lemma {:induction false} InSomePush(ranges: seq<Range>, r: Range, i: nat)
    ensures InSome(ranges + [r], i) <==> InSome(ranges, i) || r.start <= i < r.end
    decreases |ranges|
  {
    if ranges != [] {
      InSomePush(ranges[1..], r, i);
      assert (ranges + [r])[1..] == ranges[1..] + [r];
    }
  }

  /** Non-empty, disjoint and in order, within `from..limit`. */
  predicate Ordered(ranges: seq<Range>, from: nat, limit: nat)
    decreases |ranges|
  {
    ranges == [] ||
    (from <= ranges[0].start < ranges[0].end <= limit && Ordered(ranges[1..], ranges[0].end, limit))
  }

  lemma {:induction false} OrderedBounds(ranges: seq<Range>, n: nat, from: nat, limit: nat)
    requires Ordered(ranges, from, limit) && n < |ranges|
    ensures from <= ranges[n].start < ranges[n].end <= limit
    decreases n
  {
    if n > 0 {
      OrderedBounds(ranges[1..], n - 1, ranges[0].end, limit);
    }
  }

  /** The blanked ranges are non-empty, disjoint, in order and inside the text. */
  lemma {:induction false} RangesOrdered(text: string, lex: Lexer, masked: string, cursor: nat)
    requires cursor <= |text| == |masked|
    ensures Ordered(Ranges(text, lex, masked, cursor), cursor, |text|)
    decreases |text| - cursor
  {
    match FindAttribute(masked, cursor)
    case None =>
    case Some(p) =>
      RangesOrdered(text, lex, masked, ItemEnd(text, lex, AttributeEnd(masked, p).value));
  }

  lemma {:induction false} FindAttributeFirst(t: string, from: nat, p: nat)
    requires from <= p <= |t| && AttributeEnd(t, p).Some?
    ensures FindAttribute(t, from).Some? && FindAttribute(t, from).value <= p
    decreases p - from
  {
    if from < p && AttributeEnd(t, from).None? {
      FindAttributeFirst(t, from + 1, p);
    }
  }

  /** No attribute is overlooked: every one found in the masked text starts inside a blanked range. */
  lemma {:induction false} EveryAttributeCovered(text: string, lex: Lexer, masked: string, cursor: nat, p: nat)
    requires cursor <= p <= |text| == |masked| && AttributeEnd(masked, p).Some?
    ensures InSome(Ranges(text, lex, masked, cursor), p)
    decreases |text| - cursor
  {
    FindAttributeFirst(masked, cursor, p);
    var first := FindAttribute(masked, cursor).value;
    var end := ItemEnd(text, lex, AttributeEnd(masked, first).value);
    var rest := Ranges(text, lex, masked, end);
    assert ([Range(first, end)] + rest)[1..] == rest;
    if p >= end {
      EveryAttributeCovered(text, lex, masked, end, p);
    }
  }

  /** Nothing else is blanked: every blanked position belongs to the item of an attribute found in the masked text. */
  lemma {:induction false} BlankedIsAnItem(text: string, lex: Lexer, masked: string, cursor: nat, i: nat) returns (p: nat)
    requires cursor <= |text| == |masked| && InSome(Ranges(text, lex, masked, cursor), i)
    ensures cursor <= p <= i && p <= |masked| && AttributeEnd(masked, p).Some?
    ensures i < ItemEnd(text, lex, AttributeEnd(masked, p).value)
    decreases |text| - cursor
  {
    p := FindAttribute(masked, cursor).value;
    var end := ItemEnd(text, lex, AttributeEnd(masked, p).value);
    var rest := Ranges(text, lex, masked, end);
    assert ([Range(p, end)] + rest)[1..] == rest;
    if !(p <= i < end) {
      p := BlankedIsAnItem(text, lex, masked, end, i);
    }
  }
}
