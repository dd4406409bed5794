/**
 The SQL tokenizer of the schema audit, bracket matching by recorded depth, and
 the split of an argument list at its top-level commas.
 */
module SqlTokens {
  import opened Options
  import opened Text

  datatype Kind = String | Ident | Placeholder | Parameter | Punct | Operator

  datatype Token = Token(kind: Kind, value: string, depth: nat, offset: nat)

  // ---------------------------------------------------------------- lexemes

  predicate IsWordStart(c: char) { 'a' <= c <= 'z' || 'A' <= c <= 'Z' || c == '_' }

  predicate IsWord(c: char) { IsWordStart(c) || IsDigit(c) }

  /** The length of a dollar-quote marker `$…$` at `i`. */
  function DollarMarker(s: string, i: nat): (r: Option<nat>)
    requires i < |s|
    ensures r.Some? ==> 2 <= r.value <= |s| - i
  {
    if s[i] != '$' || i + 1 == |s| then None
    else if s[i + 1] == '$' then Some(2)
    else if !IsWordStart(s[i + 1]) then None
    else
      var end := RunEnd(s, i + 1, c => IsWord(c));
      if end < |s| && s[end] == '$' then Some(end + 1 - i) else None
  }

  /** Inside a literal quoted by `q`: the position after the closing quote, doubled quotes skipped. */
  function QuotedEnd(s: string, i: nat, q: char): (end: nat)
    requires i <= |s|
    ensures i <= end <= |s|
    decreases |s| - i
  {
    if i == |s| then i
    else if s[i] == q then if i + 1 < |s| && s[i + 1] == q then QuotedEnd(s, i + 2, q) else i + 1
    else QuotedEnd(s, i + 1, q)
  }

  /** The text of the literal, doubled quotes undone. */
  function QuotedValue(s: string, i: nat, q: char): string
    requires i <= |s|
    decreases |s| - i
  {
    if i == |s| then ""
    else if s[i] == q then if i + 1 < |s| && s[i + 1] == q then [q] + QuotedValue(s, i + 2, q) else ""
    else [s[i]] + QuotedValue(s, i + 1, q)
  }

  method ScanQuoted(s: string, start: nat, q: char) returns (value: string, next: nat)
    requires start <= |s|
    ensures value == QuotedValue(s, start, q) && next == QuotedEnd(s, start, q)
  {
    var i := start;
    value := "";
    while i < |s|
      invariant start <= i <= |s|
      invariant QuotedValue(s, start, q) == value + QuotedValue(s, i, q)
      invariant QuotedEnd(s, start, q) == QuotedEnd(s, i, q)
      decreases |s| - i
    {
      if s[i] == q && i + 1 < |s| && s[i + 1] == q {
        QuotedUnit(s, i, q, 2, value);
        value := value + [q];
        i := i + 2;
      } else if s[i] == q {
        return value, i + 1;
      } else {
        QuotedUnit(s, i, q, 1, value);
        value := value + [s[i]];
        i := i + 1;
      }
    }
    next := i;
  }

  /** A doubled quote or another character yields one character of the literal. */
  lemma QuotedUnit(s: string, i: nat, q: char, n: nat, before: string)
    requires if n == 2 then i + 2 <= |s| && s[i] == q && s[i + 1] == q else n == 1 && i < |s| && s[i] != q
    ensures QuotedEnd(s, i, q) == QuotedEnd(s, i + n, q)
    ensures before + QuotedValue(s, i, q) == (before + [s[i]]) + QuotedValue(s, i + n, q)
  {
    assert QuotedValue(s, i, q) == [s[i]] + QuotedValue(s, i + n, q);
  }

  /** A literal's text with each quote doubled. */
  function Doubled(v: string, q: char): string {
    if v == "" then "" else (if v[0] == q then [q, q] else [v[0]]) + Doubled(v[1..], q)
  }

  /** Behind an opening quote, `v` with its quotes doubled and a closing quote scan back to `v`, up to whatever follows. */
  lemma {:induction false} QuotedRoundTrip(head: string, v: string, q: char, tail: string)
    requires tail == "" || tail[0] != q
    ensures
      var s := head + Doubled(v, q) + [q] + tail;
      QuotedValue(s, |head|, q) == v && QuotedEnd(s, |head|, q) == |head| + |Doubled(v, q)| + 1
    decreases |v|
  {
    var s := head + Doubled(v, q) + [q] + tail;
    var i := |head|;
    if v == "" {
      assert s[i] == q && (i + 1 < |s| ==> s[i + 1] == tail[0]);
    } else {
      var unit := if v[0] == q then [q, q] else [v[0]];
      QuotedRoundTrip(head + unit, v[1..], q, tail);
      DoubledHead(head, v, q, tail, unit);
      QuotedUnit(s, i, q, |unit|, "");
      assert v == [v[0]] + v[1..] && "" + [v[0]] == [v[0]];
    }
  }

  lemma DoubledHead(head: string, v: string, q: char, tail: string, unit: string)
    requires v != "" && unit == if v[0] == q then [q, q] else [v[0]]
    ensures
      var s := head + Doubled(v, q) + [q] + tail;
      && s == (head + unit) + Doubled(v[1..], q) + [q] + tail
      && |s| >= |head| + |unit| && s[|head|] == v[0] && (v[0] == q ==> s[|head| + 1] == q)
      && |Doubled(v, q)| == |unit| + |Doubled(v[1..], q)|
  {
    var rest := Doubled(v[1..], q);
    assert Doubled(v, q) == unit + rest && head + (unit + rest) == (head + unit) + rest;
    var s := head + Doubled(v, q) + [q] + tail;
    assert s[|head|] == unit[0];
  }

  const OPERATORS: seq<string> := ["::", "->>", "->", ">=", "<=", "<>", "!=", "||", "&&", "@>", "<@"]

  /** The first listed operator at `i`, from the k-th on. */
  function OperatorAt(s: string, i: nat, k: nat): (r: Option<string>)
    requires k <= |OPERATORS|
    ensures r.Some? ==> 2 <= |r.value| <= |s| - i
    decreases |OPERATORS| - k
  {
    if k == |OPERATORS| then None
    else if At(s, OPERATORS[k], i) then
      assert forall j :: 0 <= j < |OPERATORS| ==> |OPERATORS[j]| >= 2;
      Some(OPERATORS[k])
    else OperatorAt(s, i, k + 1)
  }

  /** What stands at a position: something to skip, or a token, and where the next one starts. */
  datatype Lexeme = Skip(next: nat) | Lex(kind: Kind, value: string, next: nat)

  function OrEnd(r: Option<nat>, s: string, extra: nat): nat {
    if r.Some? then r.value + extra else |s|
  }

  /** A dollar quote whose marker has length `m`, up to the next such marker. */
  function DollarQuoteAt(s: string, i: nat, m: nat): (r: Lexeme)
    requires m > 0 && i + m <= |s|
    ensures i < r.next <= |s|
  {
    var start := i + m;
    match FindFrom(s, s[i..start], start)
    case Some(end) => Lex(String, s[start..end], end + m)
    case None => Lex(String, if start + m <= |s| then s[start..|s| - m] else "", |s|)
  }

  /** The lexeme at `i`; `digit` is the regular expression class `\d`. */
  function LexemeAt(s: string, i: nat, digit: char -> bool): (r: Lexeme)
    requires i < |s|
    ensures i < r.next <= |s|
  {
    var c := s[i];
    if IsPythonSpace(c) then Skip(i + 1)
    else if At(s, "--", i) then Skip(OrEnd(FindFrom(s, "\n", i + 2), s, 1))
    else if At(s, "/*", i) then Skip(OrEnd(FindFrom(s, "*/", i + 2), s, 2))
    else if DollarMarker(s, i).Some? then DollarQuoteAt(s, i, DollarMarker(s, i).value)
    else if c == '\'' then Lex(String, QuotedValue(s, i + 1, c), QuotedEnd(s, i + 1, c))
    else if c == '"' then Lex(Ident, QuotedValue(s, i + 1, c), QuotedEnd(s, i + 1, c))
    else if c == '{' && !At(s, "{{", i) && FindFrom(s, "}", i + 1).Some? then
      var end := FindFrom(s, "}", i + 1).value;
      Lex(Placeholder, s[i + 1..end], end + 1)
    else if c == '$' && RunEnd(s, i + 1, digit) > i + 1 then
      Lex(Parameter, s[i..RunEnd(s, i + 1, digit)], RunEnd(s, i + 1, digit))
    else if IsWordStart(c) then
      var end := RunEnd(s, i + 1, x => IsWord(x) || x == '$');
      Lex(Ident, s[i..end], end)
    else if c == '(' || c == ')' then Lex(Punct, [c], i + 1)
    else
      match OperatorAt(s, i, 0)
      case Some(op) => Lex(Operator, op, i + |op|)
      case None => Lex(if c in ",.;[]" then Punct else Operator, [c], i + 1)
  }

  /**
   Every value can be written as a literal: in whatever surroundings, the quoted
   text with its quotes doubled is lexed as one string or identifier of that value.
   */
  lemma LiteralIsLexed(head: string, v: string, q: char, tail: string, digit: char -> bool)
    requires q == '\'' || q == '"'
    requires tail == "" || tail[0] != q
    ensures
      var s := head + [q] + Doubled(v, q) + [q] + tail;
      LexemeAt(s, |head|, digit) == Lex(if q == '\'' then String else Ident, v, |head| + |Doubled(v, q)| + 2)
  {
    var s := head + [q] + Doubled(v, q) + [q] + tail;
    assert s == (head + [q]) + Doubled(v, q) + [q] + tail;
    QuotedRoundTrip(head + [q], v, q, tail);
    QuoteLexeme(s, |head|, q, digit);
  }

  lemma QuoteLexeme(s: string, i: nat, q: char, digit: char -> bool)
    requires i < |s| && s[i] == q && (q == '\'' || q == '"')
    ensures LexemeAt(s, i, digit) == Lex(if q == '\'' then String else Ident, QuotedValue(s, i + 1, q), QuotedEnd(s, i + 1, q))
  {
    NotAt(s, "--", i, 0);
    NotAt(s, "/*", i, 0);
  }

  // ---------------------------------------------------------------- depth

  predicate IsOpen(t: Token) { t.kind == Punct && t.value == "(" }

  predicate IsClose(t: Token) { t.kind == Punct && t.value == ")" }

  /** A closing parenthesis never takes the depth below zero. */
  function Less(depth: nat): nat { if depth == 0 then 0 else depth - 1 }

  function MakeToken(l: Lexeme, depth: nat, i: nat): Token
    requires l.Lex?
  {
    Token(l.kind, l.value, if l.kind == Punct && l.value == ")" then Less(depth) else depth, i)
  }

  function DepthAfter(depth: nat, t: Token): nat {
    if IsOpen(t) then depth + 1 else if IsClose(t) then Less(depth) else depth
  }

  function TokensFrom(s: string, i: nat, depth: nat, digit: char -> bool): seq<Token>
    requires i <= |s|
    decreases |s| - i
  {
    if i == |s| then []
    else
      match LexemeAt(s, i, digit)
      case Skip(next) => TokensFrom(s, next, depth, digit)
      case Lex(kind, value, next) =>
        var t := MakeToken(LexemeAt(s, i, digit), depth, i);
        [t] + TokensFrom(s, next, DepthAfter(depth, t), digit)
  }

  method TokenizeSql(sql: string, digit: char -> bool) returns (tokens: seq<Token>)
    ensures tokens == TokensFrom(sql, 0, 0, digit)
    ensures WellDepthed(tokens) && OffsetsIncrease(tokens, |sql|)
  {
    tokens := [];
    var i := 0;
    var depth: nat := 0;
    while i < |sql|
      invariant i <= |sql|
      invariant tokens + TokensFrom(sql, i, depth, digit) == TokensFrom(sql, 0, 0, digit)
      invariant WellDepthed(tokens) && depth == DepthBefore(tokens, |tokens|)
      invariant OffsetsIncrease(tokens, i)
      decreases |sql| - i
    {
      var l := LexemeAt(sql, i, digit);
      if l.Lex? {
        ghost var before, outer := tokens, depth;
        if l.kind == Punct && l.value == "(" {
          tokens := tokens + [Token(l.kind, l.value, depth, i)];
          depth := depth + 1;
        } else if l.kind == Punct && l.value == ")" {
          depth := Less(depth);
          tokens := tokens + [Token(l.kind, l.value, depth, i)];
        } else {
          tokens := tokens + [Token(l.kind, l.value, depth, i)];
        }
        ghost var t := MakeToken(l, outer, i);
        assert tokens == before + [t] && depth == DepthAfter(outer, t);
        WellDepthedExtends(before, t);
        TokensStep(before, t, sql, i, outer, digit);
      }
      i := l.next;
    }
  }

  lemma TokensStep(before: seq<Token>, t: Token, s: string, i: nat, depth: nat, digit: char -> bool)
    requires i < |s| && LexemeAt(s, i, digit).Lex? && t == MakeToken(LexemeAt(s, i, digit), depth, i)
    ensures before + TokensFrom(s, i, depth, digit)
            == (before + [t]) + TokensFrom(s, LexemeAt(s, i, digit).next, DepthAfter(depth, t), digit)
  {
    var rest := TokensFrom(s, LexemeAt(s, i, digit).next, DepthAfter(depth, t), digit);
    assert TokensFrom(s, i, depth, digit) == [t] + rest;
    assert before + ([t] + rest) == (before + [t]) + rest;
  }

  /** The depth in front of the k-th token. */
  function DepthBefore(tokens: seq<Token>, k: nat): nat
    requires k <= |tokens|
  {
    if k == 0 then 0 else DepthAfter(DepthBefore(tokens, k - 1), tokens[k - 1])
  }

  /** Each of the first `n` tokens records the depth around it; both parentheses of a pair record the outer one. */
  ghost predicate DepthsTo(tokens: seq<Token>, n: nat)
    requires n <= |tokens|
  {
    n > 0 ==> DepthsTo(tokens, n - 1) && tokens[n - 1].depth == Recorded(tokens[n - 1], DepthBefore(tokens, n - 1))
  }

  ghost predicate WellDepthed(tokens: seq<Token>) { DepthsTo(tokens, |tokens|) }

  lemma {:induction false} DepthsAt(tokens: seq<Token>, k: nat, n: nat)
    requires k < n <= |tokens| && DepthsTo(tokens, n)
    ensures tokens[k].depth == Recorded(tokens[k], DepthBefore(tokens, k))
    decreases n
  {
    if k < n - 1 {
      DepthsAt(tokens, k, n - 1);
    }
  }

  function Recorded(t: Token, depth: nat): nat {
    if IsClose(t) then Less(depth) else depth
  }

  ghost predicate OffsetsIncrease(tokens: seq<Token>, limit: nat) {
    && (forall k :: 0 <= k < |tokens| ==> tokens[k].offset < limit)
    && (forall j, k :: 0 <= j < k < |tokens| ==> tokens[j].offset < tokens[k].offset)
  }

  lemma {:induction false} DepthBeforePrefix(tokens: seq<Token>, t: Token, k: nat)
    requires k <= |tokens|
    ensures DepthBefore(tokens + [t], k) == DepthBefore(tokens, k)
  {
    if k > 0 {
      DepthBeforePrefix(tokens, t, k - 1);
    }
  }

  lemma WellDepthedExtends(tokens: seq<Token>, t: Token)
    requires WellDepthed(tokens)
    requires t.depth == Recorded(t, DepthBefore(tokens, |tokens|))
    ensures WellDepthed(tokens + [t])
    ensures DepthBefore(tokens + [t], |tokens| + 1) == DepthAfter(DepthBefore(tokens, |tokens|), t)
  {
    DepthsPrefix(tokens, t, |tokens|);
    DepthBeforePrefix(tokens, t, |tokens|);
  }

  lemma {:induction false} DepthsPrefix(tokens: seq<Token>, t: Token, k: nat)
    requires k <= |tokens| && DepthsTo(tokens, k)
    ensures DepthsTo(tokens + [t], k)
  {
    if k > 0 {
      DepthsPrefix(tokens, t, k - 1);
      DepthBeforePrefix(tokens, t, k - 1);
    }
  }

  // ---------------------------------------------------------------- bracket matching

  /** Opening minus closing parentheses among tokens `a..b`. */
  function Nesting(tokens: seq<Token>, a: nat, b: nat): int
    requires a <= b <= |tokens|
  {
    if a == b then 0
    else Nesting(tokens, a, b - 1) + (if IsOpen(tokens[b - 1]) then 1 else if IsClose(tokens[b - 1]) then -1 else 0)
  }

  /** Up to `b`, never more closed than opened since `a`. */
  ghost predicate NeverBelow(tokens: seq<Token>, a: nat, b: nat)
    requires a <= b <= |tokens|
  {
    Nesting(tokens, a, b) >= 0 && (b > a ==> NeverBelow(tokens, a, b - 1))
  }

  lemma {:induction false} NeverBelowAt(tokens: seq<Token>, a: nat, m: nat, b: nat)
    requires a <= m <= b <= |tokens| && NeverBelow(tokens, a, b)
    ensures Nesting(tokens, a, m) >= 0 && NeverBelow(tokens, a, m)
    decreases b
  {
    if m < b {
      NeverBelowAt(tokens, a, m, b - 1);
    }
  }

  /** `j` closes `i`: between them the parentheses balance and never close more than they opened. */
  ghost predicate StackMatch(tokens: seq<Token>, i: nat, j: nat) {
    && i < j < |tokens| && IsOpen(tokens[i]) && IsClose(tokens[j])
    && Nesting(tokens, i + 1, j) == 0
    && NeverBelow(tokens, i + 1, j)
  }

  /** The first ")" of the recorded depth; the last token if there is none. */
  method MatchingParen(tokens: seq<Token>, start: nat) returns (index: int)
    ensures start >= |tokens| || tokens[start].value != "(" ==> index == start
    ensures start < |tokens| && tokens[start].value == "(" ==>
              && start <= index < |tokens|
              && (forall k :: start < k < index ==> !(tokens[k].value == ")" && tokens[k].depth == tokens[start].depth))
              && ((index > start && tokens[index].value == ")" && tokens[index].depth == tokens[start].depth)
                  || (index == |tokens| - 1
                      && (index > start ==> !(tokens[index].value == ")" && tokens[index].depth == tokens[start].depth))))
  {
    if start >= |tokens| || tokens[start].value != "(" {
      return start;
    }
    var depth := tokens[start].depth;
    for i := start + 1 to |tokens|
      invariant forall k :: start < k < i ==> !(tokens[k].value == ")" && tokens[k].depth == depth)
    {
      if tokens[i].value == ")" && tokens[i].depth == depth {
        return i;
      }
    }
    return |tokens| - 1;
  }

  /** While nothing has closed below an opening parenthesis, depth is its depth plus one plus the nesting. */
  lemma {:induction false} DepthInside(tokens: seq<Token>, i: nat, k: nat)
    requires WellDepthed(tokens) && i < k <= |tokens| && IsOpen(tokens[i])
    requires NeverBelow(tokens, i + 1, k)
    ensures DepthBefore(tokens, k) == tokens[i].depth + 1 + Nesting(tokens, i + 1, k)
    decreases k
  {
    if k > i + 1 {
      DepthInside(tokens, i, k - 1);
    } else {
      DepthsAt(tokens, i, |tokens|);
    }
  }

  /** Everything strictly inside an opening parenthesis is deeper than it. */
  lemma InsideIsDeeper(tokens: seq<Token>, i: nat, k: nat)
    requires WellDepthed(tokens) && i < k < |tokens| && IsOpen(tokens[i])
    requires NeverBelow(tokens, i + 1, k + 1)
    ensures tokens[k].depth > tokens[i].depth
  {
    DepthInside(tokens, i, k);
    DepthsAt(tokens, k, |tokens|);
  }

  /** What `MatchingParen` computes. */
  ghost predicate IsFirstClose(tokens: seq<Token>, start: nat, index: int) {
    && start < index < |tokens| && tokens[index].value == ")" && tokens[index].depth == tokens[start].depth
    && forall k :: start < k < index ==> !(tokens[k].value == ")" && tokens[k].depth == tokens[start].depth)
  }

  /**
   For an opening parenthesis with a matching one, the depth search finds exactly
   that one and everything in between is deeper, whatever string tokens spell.
   */
  lemma MatchedParenIsFound(tokens: seq<Token>, i: nat, j: nat)
    requires WellDepthed(tokens) && StackMatch(tokens, i, j)
    ensures IsFirstClose(tokens, i, j)
    ensures forall k :: i < k < j ==> tokens[k].depth > tokens[i].depth
  {
    DepthInside(tokens, i, j);
    DepthsAt(tokens, j, |tokens|);
    forall k | i < k < j ensures tokens[k].depth > tokens[i].depth {
      NeverBelowAt(tokens, i + 1, k + 1, j);
      InsideIsDeeper(tokens, i, k);
    }
  }

  /** Without a matching one, every later token is deeper, so the search falls back to the last token. */
  lemma UnmatchedParenFindsNothing(tokens: seq<Token>, i: nat)
    requires WellDepthed(tokens) && i < |tokens| && IsOpen(tokens[i])
    requires forall j: nat :: !StackMatch(tokens, i, j)
    ensures forall k :: i < k < |tokens| ==> tokens[k].depth > tokens[i].depth
  {
    NeverCloses(tokens, i, |tokens|);
    forall k | i < k < |tokens| ensures tokens[k].depth > tokens[i].depth {
      NeverBelowAt(tokens, i + 1, k + 1, |tokens|);
      InsideIsDeeper(tokens, i, k);
    }
  }

  lemma {:induction false} NeverCloses(tokens: seq<Token>, i: nat, k: nat)
    requires i < k <= |tokens| && IsOpen(tokens[i])
    requires forall j: nat :: !StackMatch(tokens, i, j)
    ensures NeverBelow(tokens, i + 1, k)
    decreases k
  {
    if k > i + 1 {
      NeverCloses(tokens, i, k - 1);
      assert !StackMatch(tokens, i, k - 1);
    }
  }

  // ---------------------------------------------------------------- top-level segments

  /** The audit's separator test: by text and depth, not by kind. */
  predicate Separates(t: Token, base: nat) { t.value == "," && t.depth == base }

  /** A comma that is punctuation. */
  predicate IsComma(t: Token, base: nat) { Separates(t, base) && t.kind == Punct }

  /** Token positions `k..end` split at the separators; with `strict`, only at real commas. */
  function Split(tokens: seq<Token>, k: nat, end: nat, base: nat, strict: bool): (r: seq<seq<nat>>)
    requires k <= end <= |tokens|
    ensures r != []
    decreases end - k
  {
    if k == end then [[]]
    else
      var rest := Split(tokens, k + 1, end, base, strict);
      if Separates(tokens[k], base) && (strict ==> IsComma(tokens[k], base)) then [[]] + rest
      else [[k] + rest[0]] + rest[1..]
  }

  function NonEmpty(segments: seq<seq<nat>>): seq<seq<nat>> {
    if segments == [] then []
    else (if segments[0] == [] then [] else [segments[0]]) + NonEmpty(segments[1..])
  }

  method TopLevelSegments(tokens: seq<Token>, start: nat, end: nat) returns (segments: seq<seq<nat>>)
    requires end <= |tokens|
    ensures segments == if start >= end then [] else NonEmpty(Split(tokens, start, end, tokens[start].depth, false))
  {
    if start >= end {
      return [];
    }
    var all := SplitSegments(tokens, start, end, tokens[start].depth);
    segments := WithoutEmpty(all);
  }

  method SplitSegments(tokens: seq<Token>, start: nat, end: nat, base: nat) returns (all: seq<seq<nat>>)
    requires start <= end <= |tokens|
    ensures all == Split(tokens, start, end, base, false)
  {
    all := [[]];
    GlueFirst(Split(tokens, start, end, base, false));
    for k := start to end
      invariant all != []
      invariant Glue(all, Split(tokens, k, end, base, false)) == Split(tokens, start, end, base, false)
    {
      ghost var rest := Split(tokens, k + 1, end, base, false);
      if Separates(tokens[k], base) {
        GlueSeparator(all, rest);
        all := all + [[]];
      } else {
        GlueToken(all, k, rest);
        all := all[|all| - 1 := all[|all| - 1] + [k]];
      }
    }
    GlueLast(all);
  }

  method WithoutEmpty(all: seq<seq<nat>>) returns (segments: seq<seq<nat>>)
    ensures segments == NonEmpty(all)
  {
    segments := [];
    for k := 0 to |all|
      invariant NonEmpty(all) == segments + NonEmpty(all[k..])
    {
      assert all[k..][0] == all[k] && all[k..][1..] == all[k + 1..];
      if all[k] != [] {
        segments := segments + [all[k]];
      }
    }
  }

  /** The last segment of `a` continues in the first of `b`. */
  function Glue(a: seq<seq<nat>>, b: seq<seq<nat>>): seq<seq<nat>>
    requires a != [] && b != []
  {
    a[..|a| - 1] + [a[|a| - 1] + b[0]] + b[1..]
  }

  lemma GlueFirst(b: seq<seq<nat>>)
    requires b != []
    ensures Glue([[]], b) == b
  {
    assert [] + b[0] == b[0];
    assert b == [b[0]] + b[1..];
  }

  lemma GlueLast(a: seq<seq<nat>>)
    requires a != []
    ensures Glue(a, [[]]) == a
  {
    var none: seq<seq<nat>> := [[]];
    assert none[1..] == [] && a[|a| - 1] + none[0] == a[|a| - 1];
    assert a == a[..|a| - 1] + [a[|a| - 1]];
  }

  lemma GlueSeparator(all: seq<seq<nat>>, rest: seq<seq<nat>>)
    requires all != [] && rest != []
    ensures Glue(all + [[]], rest) == Glue(all, [[]] + rest)
  {
    var x := all + [[]];
    assert x[..|x| - 1] == all && x[|x| - 1] == [] && [] + rest[0] == rest[0];
    assert ([[]] + rest)[1..] == rest && all[|all| - 1] + [] == all[|all| - 1];
    assert all == all[..|all| - 1] + [all[|all| - 1]];
    assert [rest[0]] + rest[1..] == rest;
  }

  lemma GlueToken(all: seq<seq<nat>>, k: nat, rest: seq<seq<nat>>)
    requires all != [] && rest != []
    ensures Glue(all[|all| - 1 := all[|all| - 1] + [k]], rest) == Glue(all, [[k] + rest[0]] + rest[1..])
  {
    var last := all[|all| - 1];
    assert (last + [k]) + rest[0] == last + ([k] + rest[0]);
    assert all[|all| - 1 := last + [k]][..|all| - 1] == all[..|all| - 1];
    assert ([[k] + rest[0]] + rest[1..])[1..] == rest[1..];
  }

  function Flatten(segments: seq<seq<nat>>): seq<nat> {
    if segments == [] then [] else segments[0] + Flatten(segments[1..])
  }

  /** Positions `k..end` without the separators. */
  function Kept(tokens: seq<Token>, k: nat, end: nat, base: nat, strict: bool): seq<nat>
    requires k <= end <= |tokens|
    decreases end - k
  {
    if k == end then []
    else if Separates(tokens[k], base) && (strict ==> IsComma(tokens[k], base)) then Kept(tokens, k + 1, end, base, strict)
    else [k] + Kept(tokens, k + 1, end, base, strict)
  }

  lemma {:induction false} FlattenNonEmpty(segments: seq<seq<nat>>)
    ensures Flatten(NonEmpty(segments)) == Flatten(segments)
    decreases |segments|
  {
    if segments != [] {
      FlattenNonEmpty(segments[1..]);
      var rest := NonEmpty(segments[1..]);
      if segments[0] == [] {
        assert NonEmpty(segments) == rest && Flatten(segments) == Flatten(segments[1..]);
      } else {
        assert NonEmpty(segments) == [segments[0]] + rest;
        assert ([segments[0]] + rest)[1..] == rest;
      }
    }
  }

  /** The segments put together are the slice without its separators: nothing lost, nothing reordered. */
  lemma {:induction false} SegmentsFlatten(tokens: seq<Token>, k: nat, end: nat, base: nat, strict: bool)
    requires k <= end <= |tokens|
    ensures Flatten(Split(tokens, k, end, base, strict)) == Kept(tokens, k, end, base, strict)
    decreases end - k
  {
    if k < end {
      SegmentsFlatten(tokens, k + 1, end, base, strict);
      var rest := Split(tokens, k + 1, end, base, strict);
      assert ([[]] + rest)[1..] == rest;
      assert ([[k] + rest[0]] + rest[1..])[1..] == rest[1..];
    } else {
      var none: seq<seq<nat>> := [[]];
      assert none[1..] == [];
    }
  }

  /** The audit's segments are the split at real commas exactly when no other base-depth token spells ",". */
  lemma SegmentsAreCommaSplitIff(tokens: seq<Token>, start: nat, end: nat)
    requires start < end <= |tokens|
    ensures
      var base := tokens[start].depth;
      NonEmpty(Split(tokens, start, end, base, false)) == NonEmpty(Split(tokens, start, end, base, true))
      <==> forall k :: start <= k < end && Separates(tokens[k], base) ==> tokens[k].kind == Punct
  {
    var base := tokens[start].depth;
    if forall k :: start <= k < end && Separates(tokens[k], base) ==> tokens[k].kind == Punct {
      SameSplit(tokens, start, end, base);
    } else {
      FlattenNonEmpty(Split(tokens, start, end, base, false));
      FlattenNonEmpty(Split(tokens, start, end, base, true));
      SegmentsFlatten(tokens, start, end, base, false);
      SegmentsFlatten(tokens, start, end, base, true);
      var k :| start <= k < end && Separates(tokens[k], base) && tokens[k].kind != Punct;
      KeptHas(tokens, start, end, base, false, k);
      KeptHas(tokens, start, end, base, true, k);
    }
  }

  lemma {:induction false} SameSplit(tokens: seq<Token>, k: nat, end: nat, base: nat)
    requires k <= end <= |tokens|
    requires forall m :: k <= m < end && Separates(tokens[m], base) ==> tokens[m].kind == Punct
    ensures Split(tokens, k, end, base, false) == Split(tokens, k, end, base, true)
    decreases end - k
  {
    if k < end {
      SameSplit(tokens, k + 1, end, base);
    }
  }

  lemma {:induction false} KeptHas(tokens: seq<Token>, k: nat, end: nat, base: nat, strict: bool, m: nat)
    requires k <= end <= |tokens| && m < end
    ensures m in Kept(tokens, k, end, base, strict)
            <==> k <= m && !(Separates(tokens[m], base) && (strict ==> IsComma(tokens[m], base)))
    decreases end - k
  {
    if k < end {
      KeptHas(tokens, k + 1, end, base, strict, m);
    }
  }

  /** Balanced, and never closing more than was opened. */
  ghost predicate WellNested(tokens: seq<Token>, a: nat, b: nat) {
    && a <= b <= |tokens|
    && Nesting(tokens, a, b) == 0
    && NeverBelow(tokens, a, b)
  }

  lemma {:induction false} NestingSplits(tokens: seq<Token>, a: nat, m: nat, b: nat)
    requires a <= m <= b <= |tokens|
    ensures Nesting(tokens, a, b) == Nesting(tokens, a, m) + Nesting(tokens, m, b)
    decreases b
  {
    if m < b {
      NestingSplits(tokens, a, m, b - 1);
    }
  }

  /** In a well-nested slice depth is base plus nesting. */
  lemma {:induction false} DepthInSlice(tokens: seq<Token>, a: nat, k: nat)
    requires WellDepthed(tokens) && a <= k <= |tokens|
    requires NeverBelow(tokens, a, k)
    ensures DepthBefore(tokens, k) == DepthBefore(tokens, a) + Nesting(tokens, a, k)
    decreases k
  {
    if k > a {
      DepthInSlice(tokens, a, k - 1);
    }
  }

  /** A separator of a well-nested slice stands where nothing is open. */
  lemma SeparatorIsTopLevel(tokens: seq<Token>, start: nat, end: nat, k: nat)
    requires WellDepthed(tokens) && WellNested(tokens, start, end) && start <= k < end
    requires Separates(tokens[k], tokens[start].depth)
    ensures Nesting(tokens, start, k) == 0 && Nesting(tokens, start, k + 1) == 0
  {
    NeverBelowAt(tokens, start, start + 1, end);
    assert Nesting(tokens, start, start) == 0;
    assert !IsClose(tokens[start]);
    NeverBelowAt(tokens, start, k, end);
    DepthsAt(tokens, start, |tokens|);
    DepthsAt(tokens, k, |tokens|);
    DepthInSlice(tokens, start, k);
  }

  /** `segment` lists the consecutive positions `a..b`. */
  predicate IsRange(segment: seq<nat>, a: nat, b: nat) {
    a <= b && |segment| == b - a && forall i :: 0 <= i < |segment| ==> segment[i] == a + i
  }

  /** Every segment of a well-nested slice is a well-nested run of consecutive tokens. */
  lemma {:induction false} SegmentsWellNested(tokens: seq<Token>, start: nat, end: nat, k: nat, i: nat)
    returns (a: nat, b: nat)
    requires WellDepthed(tokens) && WellNested(tokens, start, end) && start <= k <= end && start < end
    requires i < |Split(tokens, k, end, tokens[start].depth, false)|
    ensures start <= a <= b <= end && IsRange(Split(tokens, k, end, tokens[start].depth, false)[i], a, b)
    ensures Nesting(tokens, start, b) == 0 && (i > 0 ==> Nesting(tokens, start, a) == 0) && (i == 0 ==> a == k)
    ensures k <= a
    decreases end - k
  {
    var base := tokens[start].depth;
    if k == end {
      return k, k;
    }
    var rest := Split(tokens, k + 1, end, base, false);
    if Separates(tokens[k], base) {
      SeparatorIsTopLevel(tokens, start, end, k);
      if i == 0 {
        return k, k;
      }
      a, b := SegmentsWellNested(tokens, start, end, k + 1, i - 1);
    } else {
      a, b := SegmentsWellNested(tokens, start, end, k + 1, i);
      if i == 0 {
        a := k;
      }
    }
  }

  lemma SegmentIsWellNested(tokens: seq<Token>, start: nat, end: nat, i: nat) returns (a: nat, b: nat)
    requires WellDepthed(tokens) && start < end && WellNested(tokens, start, end)
    requires i < |Split(tokens, start, end, tokens[start].depth, false)|
    ensures IsRange(Split(tokens, start, end, tokens[start].depth, false)[i], a, b) && WellNested(tokens, a, b)
  {
    a, b := SegmentsWellNested(tokens, start, end, start, i);
    NestingSplits(tokens, start, a, b);
    NeverBelowAt(tokens, start, b, end);
    NeverBelowFrom(tokens, start, a, b);
  }

  /** Where nothing is open, counting may as well restart. */
  lemma {:induction false} NeverBelowFrom(tokens: seq<Token>, start: nat, a: nat, b: nat)
    requires start <= a <= b <= |tokens| && NeverBelow(tokens, start, b) && Nesting(tokens, start, a) == 0
    ensures NeverBelow(tokens, a, b)
    decreases b
  {
    NestingSplits(tokens, start, a, b);
    if a < b {
      NeverBelowFrom(tokens, start, a, b - 1);
    }
  }

  lemma WordLexeme(s: string, i: nat, digit: char -> bool)
    requires i < |s| && 'a' <= s[i] <= 'z' && (i + 1 == |s| || s[i + 1] == '\'')
    ensures LexemeAt(s, i, digit) == Lex(Ident, [s[i]], i + 1)
  {
    NotAt(s, "--", i, 0);
    NotAt(s, "/*", i, 0);
    assert s[i..i + 1] == [s[i]];
  }

  /** The string literal ',' between two names, as the tokenizer reads it. */
  lemma CommaLiteralTokens(digit: char -> bool)
    ensures TokensFrom("a','b", 0, 0, digit)
         == [Token(Ident, "a", 0, 0), Token(String, ",", 0, 1), Token(Ident, "b", 0, 4)]
  {
    var s := "a','b";
    WordLexeme(s, 0, digit);
    assert Doubled(",", '\'') == "," by {
      assert ","[1..] == "";
    }
    assert s == "a" + ['\''] + Doubled(",", '\'') + ['\''] + "b";
    LiteralIsLexed("a", ",", '\'', "b", digit);
    WordLexeme(s, 4, digit);
    assert TokensFrom(s, 5, 0, digit) == [];
    assert TokensFrom(s, 4, 0, digit) == [Token(Ident, "b", 0, 4)] + [];
    assert TokensFrom(s, 1, 0, digit) == [Token(String, ",", 0, 1)] + TokensFrom(s, 4, 0, digit);
  }

  /** On that text the segments are not those between commas: there is no comma, yet there are two segments. */
  lemma StringCommaSplits(digit: char -> bool)
    ensures
      var tokens := TokensFrom("a','b", 0, 0, digit);
      && |tokens| == 3
      && NonEmpty(Split(tokens, 0, 3, tokens[0].depth, false)) == [[0], [2]]
      && NonEmpty(Split(tokens, 0, 3, tokens[0].depth, true)) == [[0, 1, 2]]
  {
    CommaLiteralTokens(digit);
    CommaLiteralSplits([Token(Ident, "a", 0, 0), Token(String, ",", 0, 1), Token(Ident, "b", 0, 4)]);
  }

  lemma CommaLiteralSplits(tokens: seq<Token>)
    requires tokens == [Token(Ident, "a", 0, 0), Token(String, ",", 0, 1), Token(Ident, "b", 0, 4)]
    ensures NonEmpty(Split(tokens, 0, 3, 0, false)) == [[0], [2]] && NonEmpty(Split(tokens, 0, 3, 0, true)) == [[0, 1, 2]]
  {
    assert !Separates(tokens[0], 0) && Separates(tokens[1], 0) && !Separates(tokens[2], 0);
    var none: seq<nat> := [];
    var one, two: seq<seq<nat>> := [none], [[2]];
    assert one[1..] == [] && Split(tokens, 3, 3, 0, false) == one == Split(tokens, 3, 3, 0, true);
    assert [2] + one[0] == [2];
    assert Split(tokens, 2, 3, 0, false) == two == Split(tokens, 2, 3, 0, true);
    assert Split(tokens, 1, 3, 0, false) == [none, [2]];
    assert [none, [2]][1..] == two && [0] + none == [0];
    assert Split(tokens, 0, 3, 0, false) == [[0], [2]];
    assert two[1..] == [] && [1] + [2] == [1, 2];
    assert Split(tokens, 1, 3, 0, true) == [[1, 2]];
    assert [[1, 2]][1..] == [] && [0] + [1, 2] == [0, 1, 2];
    assert Split(tokens, 0, 3, 0, true) == [[0, 1, 2]];
    assert [[0], [2]][1..] == [[2]] && two[1..] == [] && NonEmpty([[2]]) == [[2]];
    assert [[0, 1, 2]][1..] == [];
  }
}
