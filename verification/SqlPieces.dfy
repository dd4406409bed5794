/**
 What the SQL tokenizer finds, by a grammar of its own.

 A text is cut into white space, comments, quotes, placeholders, parameters,
 words, operators and single characters. Every text can be cut that way, and
 for every such cut the tokens are those of the pieces that are not skipped.
 */
module SqlPieces {
  import opened Options
  import opened Text
  import opened SqlTokens

  // ---------------------------------------------------------------- the grammar

  datatype Piece =
    | Space(c: char)
    | LineComment(body: string)
    | BlockComment(body: string)
    | DollarQuote(tag: string, body: string)
    | Quoted(quote: char, value: string, closed: bool)
    | Placeholder(name: string)
    | Parameter(digits: string)
    | Word(word: string)
    | Op(op: string)
    | Single(c: char)

  function PieceText(p: Piece): string {
    match p
    case Space(c) => [c]
    case LineComment(body) => "--" + body
    case BlockComment(body) => "/*" + body
    case DollarQuote(tag, body) => Marker(tag) + body
    case Quoted(q, value, closed) => [q] + Doubled(value, q) + if closed then [q] else ""
    case Placeholder(name) => "{" + name + "}"
    case Parameter(digits) => "$" + digits
    case Word(word) => word
    case Op(op) => op
    case Single(c) => [c]
  }

  function Marker(tag: string): string { "$" + tag + "$" }

  predicate Letter(c: char) { 'a' <= c <= 'z' || 'A' <= c <= 'Z' || c == '_' }

  predicate LetterOrDigit(c: char) { Letter(c) || '0' <= c <= '9' }

  /** Nothing, or an identifier. */
  predicate IsTag(tag: string) {
    tag == "" || (Letter(tag[0]) && forall k :: 0 <= k < |tag| ==> LetterOrDigit(tag[k]))
  }

  ghost predicate OpensDollar(s: string) { exists tag: string :: IsTag(tag) && Starts(s, Marker(tag)) }

  predicate OpensPlaceholder(s: string) { |s| >= 2 && s[0] == '{' && s[1] != '{' && '}' in s[1..] }

  predicate IsOperator(op: string) {
    || op == "::" || op == "->>" || op == "->" || op == ">=" || op == "<=" || op == "<>"
    || op == "!=" || op == "||" || op == "&&" || op == "@>" || op == "<@"
  }

  predicate OpensOperator(s: string) { |s| >= 2 && IsOperator(s[..2]) }

  /** `rest` does not go on with a character of the run. */
  predicate Stops(rest: string, run: char -> bool) { rest == "" || !run(rest[0]) }

  /** `p` is one piece in front of `rest`. */
  ghost predicate IsPiece(p: Piece, rest: string, digit: char -> bool) {
    match p
    case Space(c) => IsPythonSpace(c)
    case LineComment(body) => ClosedBy(body, "\n", rest)
    case BlockComment(body) => ClosedBy(body, "*/", rest)
    case DollarQuote(tag, body) => IsTag(tag) && ClosedBy(body, Marker(tag), rest)
    case Quoted(q, _, closed) =>
      (q == '\'' || q == '"') && (if closed then Stops(rest, c => c == q) else rest == "")
    case Placeholder(name) => '}' !in name && (name == "" || name[0] != '{')
    case Parameter(digits) =>
      && digits != "" && (forall k :: 0 <= k < |digits| ==> digit(digits[k])) && Stops(rest, digit)
      && !OpensDollar("$" + digits + rest)
    case Word(word) =>
      && word != "" && Letter(word[0]) && (forall k :: 0 <= k < |word| ==> LetterOrDigit(word[k]) || word[k] == '$')
      && Stops(rest, c => LetterOrDigit(c) || c == '$')
    case Op(op) => IsOperator(op) && (op == "->" ==> Stops(rest, c => c == '>'))
    case Single(c) =>
      var s := [c] + rest;
      && !IsPythonSpace(c) && !Letter(c) && c != '\'' && c != '"'
      && !Starts(s, "--") && !Starts(s, "/*") && !OpensPlaceholder(s) && !OpensDollar(s) && !OpensOperator(s)
      && (c == '$' ==> Stops(rest, digit))
  }

  /** What stands between the dollar markers; unclosed, the length of a marker is missing at the end. */
  function Inner(body: string, marker: string): string {
    if |body| < |marker| then "" else body[..|body| - |marker|]
  }

  /** The token of a piece: its kind and value, if it is not skipped. */
  function TokenOf(p: Piece): Option<(Kind, string)> {
    match p
    case Space(_) => None
    case LineComment(_) => None
    case BlockComment(_) => None
    case DollarQuote(tag, body) => Some((String, Inner(body, Marker(tag))))
    case Quoted(q, value, _) => Some((if q == '"' then Ident else String, value))
    case Placeholder(name) => Some((Kind.Placeholder, name))
    case Parameter(digits) => Some((Kind.Parameter, "$" + digits))
    case Word(word) => Some((Ident, word))
    case Op(op) => Some((Operator, op))
    case Single(c) =>
      Some((if c == '(' || c == ')' || c == ',' || c == '.' || c == ';' || c == '[' || c == ']' then Punct else Operator, [c]))
  }

  /** A text as its pieces, in order. */
  datatype Pieces = Done | Then(first: Piece, rest: Pieces)

  function Source(ps: Pieces): string {
    match ps
    case Done => ""
    case Then(p, rest) => PieceText(p) + Source(rest)
  }

  /** The grammar as a value: which piece fits in front of which rest. */
  ghost function Grammar(digit: char -> bool): (Piece, string) -> bool {
    (p: Piece, rest: string) => IsPiece(p, rest, digit)
  }

  ghost predicate WellCut(ps: Pieces, fits: (Piece, string) -> bool) {
    match ps
    case Done => true
    case Then(p, rest) => fits(p, Source(rest)) && WellCut(rest, fits)
  }

  /** How many parentheses are open behind a piece; a closing one too many changes nothing. */
  function DepthBehind(p: Piece, depth: nat): nat {
    if p == Single('(') then depth + 1 else if p == Single(')') && depth > 0 then depth - 1 else depth
  }

  /** The piece's token, if it has one; both parentheses of a pair record the depth outside. */
  function TokensOfPiece(p: Piece, i: nat, depth: nat): seq<Token> {
    match TokenOf(p)
    case None => []
    case Some((kind, value)) => [Token(kind, value, if p == Single(')') then DepthBehind(p, depth) else depth, i)]
  }

  /** The tokens of the pieces, the first standing at offset `i` inside `depth` parentheses. */
  function TokensOf(ps: Pieces, i: nat, depth: nat): seq<Token> {
    match ps
    case Done => []
    case Then(p, rest) => TokensOfPiece(p, i, depth) + TokensOf(rest, i + |PieceText(p)|, DepthBehind(p, depth))
  }

  // ---------------------------------------------------------------- one piece

  /** `p` stands at `i..e` of the text. */
  ghost predicate StandsAt(text: string, i: nat, e: nat, p: Piece, digit: char -> bool) {
    i < e <= |text| && text[i..e] == PieceText(p) && Grammar(digit)(p, text[e..])
  }

  lemma Stands(text: string, i: nat, e: nat, p: Piece, digit: char -> bool)
    requires i < e <= |text| && text[i..e] == PieceText(p) && IsPiece(p, text[e..], digit)
    ensures StandsAt(text, i, e, p, digit)
  {
  }

  /** The tokenizer's lexeme for a piece that ends at `e`. */
  function LexemeOf(p: Piece, e: nat): Lexeme {
    match TokenOf(p)
    case None => Skip(e)
    case Some((kind, value)) => Lex(kind, value, e)
  }

  lemma StartsIff(text: string, t: string, i: nat)
    requires i <= |text|
    ensures Starts(text[i..], t) <==> At(text, t, i)
  {
    assert i + |t| <= |text| ==> text[i..][..|t|] == text[i..i + |t|];
  }

  lemma AtHead(text: string, t: string, i: nat)
    requires At(text, t, i) && t != ""
    ensures i < |text| && text[i] == t[0] && (|t| >= 2 ==> text[i + 1] == t[1])
  {
    assert text[i] == text[i..i + |t|][0];
    assert |t| >= 2 ==> text[i + 1] == text[i..i + |t|][1];
  }

  lemma NoComment(text: string, i: nat)
    requires i < |text| && text[i] != '-' && text[i] != '/'
    ensures !At(text, "--", i) && !At(text, "/*", i)
  {
    NotAt(text, "--", i, 0);
    NotAt(text, "/*", i, 0);
  }

  // ---------------------------------------------------------------- runs

  lemma {:induction false} RunIff(s: string, i: nat, run: char -> bool, e: nat)
    requires i <= e <= |s|
    ensures RunEnd(s, i, run) == e <==> (forall k :: i <= k < e ==> run(s[k])) && Stops(s[e..], run)
    decreases |s| - i
  {
    if i < |s| && run(s[i]) && i < e {
      RunIff(s, i + 1, run, e);
    }
    assert e < |s| ==> s[e..][0] == s[e];
  }

  lemma SameRun(s: string, i: nat, p: char -> bool, q: char -> bool)
    requires i <= |s| && forall c :: p(c) == q(c)
    ensures RunEnd(s, i, p) == RunEnd(s, i, q)
    decreases |s| - i
  {
    if i < |s| && p(s[i]) {
      SameRun(s, i + 1, p, q);
    }
  }

  // ---------------------------------------------------------------- dollar quotes

  lemma DollarRun(text: string, i: nat, tag: string)
    requires i <= |text| && IsTag(tag) && Starts(text[i..], Marker(tag))
    ensures i + |tag| + 2 <= |text| && text[i] == '$' && text[i + 1..i + 1 + |tag|] == tag && text[i + 1 + |tag|] == '$'
  {
    var m := Marker(tag);
    var s := text[i..];
    assert s[..|m|][0] == '$' && s[..|m|][|tag| + 1] == '$' && s[..|m|][1..|tag| + 1] == tag;
    assert text[i + 1..i + 1 + |tag|] == s[..|m|][1..|tag| + 1];
  }

  /** The tag is the run of identifier characters behind the dollar sign, so there is only one. */
  lemma DollarIs(text: string, i: nat, tag: string)
    requires i <= |text| && IsTag(tag) && Starts(text[i..], Marker(tag))
    ensures i + |tag| + 2 <= |text| && DollarMarker(text, i) == Some(|tag| + 2) && text[i..i + |tag| + 2] == Marker(tag)
  {
    DollarRun(text, i, tag);
    var end := i + 1 + |tag|;
    forall k | i + 1 <= k < end ensures text[k] == tag[k - i - 1] {
      assert text[i + 1..end][k - i - 1] == text[k];
    }
    RunIff(text, i + 1, c => IsWord(c), end);
    assert text[end..][0] == '$';
    assert text[i..i + |tag| + 2] == Marker(tag);
  }

  lemma DollarThere(text: string, i: nat) returns (tag: string)
    requires i < |text| && DollarMarker(text, i).Some?
    ensures |tag| + 2 == DollarMarker(text, i).value && IsTag(tag) && Starts(text[i..], Marker(tag))
  {
    var m := DollarMarker(text, i).value;
    tag := text[i + 1..i + m - 1];
    var end := RunEnd(text, i + 1, c => IsWord(c));
    RunIff(text, i + 1, c => IsWord(c), end);
    assert text[i..][..m] == Marker(tag);
  }

  lemma OpensDollarIff(text: string, i: nat)
    requires i < |text|
    ensures DollarMarker(text, i).Some? <==> OpensDollar(text[i..])
  {
    if DollarMarker(text, i).Some? {
      var tag := DollarThere(text, i);
    }
    if OpensDollar(text[i..]) {
      var tag: string :| IsTag(tag) && Starts(text[i..], Marker(tag));
      DollarIs(text, i, tag);
    }
  }

  // ---------------------------------------------------------------- operators

  /** What the operator search finds: the listed operator that stands there, the longer one of "->>" and "->". */
  function OperatorThere(x: string): Option<string> {
    if !OpensOperator(x) then None else if Starts(x, "->>") then Some("->>") else Some(x[..2])
  }

  lemma {:induction false} OperatorsAt(s: string, i: nat, k: nat)
    requires i <= |s| && k <= |OPERATORS|
    ensures OperatorAt(s, i, k) == FirstStart(s[i..], k)
    decreases |OPERATORS| - k
  {
    if k < |OPERATORS| {
      StartsIff(s, OPERATORS[k], i);
      OperatorsAt(s, i, k + 1);
    }
  }

  /** The first listed operator the text starts with, from the k-th on. */
  function FirstStart(x: string, k: nat): Option<string>
    requires k <= |OPERATORS|
    decreases |OPERATORS| - k
  {
    if k == |OPERATORS| then None
    else if Starts(x, OPERATORS[k]) then Some(OPERATORS[k])
    else FirstStart(x, k + 1)
  }

  lemma StartsTwo(x: string, op: string)
    requires |op| == 2
    ensures Starts(x, op) <==> |x| >= 2 && x[..2] == op
  {
  }

  lemma OperatorIs(s: string, i: nat)
    requires i <= |s|
    ensures OperatorAt(s, i, 0) == OperatorThere(s[i..])
  {
    var x := s[i..];
    OperatorsAt(s, i, 0);
    LongArrow(x);
    LaterOperators(x);
  }

  /** Behind the two arrows no operator is the start of another. */
  lemma LaterOperators(x: string)
    ensures FirstStart(x, 0) == OperatorThere(x)
  {
    LongArrow(x);
  }

  // ---------------------------------------------------------------- quotes

  /** An unclosed quote runs to the end of the text. */
  lemma {:induction false} UnclosedQuote(head: string, v: string, q: char)
    ensures
      var s := head + Doubled(v, q);
      QuotedValue(s, |head|, q) == v && QuotedEnd(s, |head|, q) == |s|
    decreases |v|
  {
    var s := head + Doubled(v, q);
    if v != "" {
      var unit := if v[0] == q then [q, q] else [v[0]];
      UnclosedQuote(head + unit, v[1..], q);
      assert s == (head + unit) + Doubled(v[1..], q);
      assert s[|head|] == unit[0];
      QuotedUnit(s, |head|, q, |unit|, "");
      assert v == [v[0]] + v[1..] && "" + [v[0]] == [v[0]];
    }
  }

  /** What a quote's scan passes over is its value with the quotes doubled, and a closing quote or the end. */
  lemma {:induction false} QuoteThere(s: string, i: nat, q: char) returns (closed: bool)
    requires i <= |s|
    ensures
      var e := QuotedEnd(s, i, q);
      && s[i..e] == Doubled(QuotedValue(s, i, q), q) + (if closed then [q] else "")
      && (if closed then e == |s| || s[e] != q else e == |s|)
    decreases |s| - i
  {
    var e := QuotedEnd(s, i, q);
    if i == |s| {
      closed := false;
    } else if s[i] == q && !(i + 1 < |s| && s[i + 1] == q) {
      closed := true;
      assert s[i..e] == [q];
    } else {
      var n := if s[i] == q then 2 else 1;
      closed := QuoteThere(s, i + n, q);
      QuotedUnit(s, i, q, n, "");
      DoubledUnit(s, i, q, n, e, closed);
    }
  }

  lemma DoubledUnit(s: string, i: nat, q: char, n: nat, e: nat, closed: bool)
    requires if n == 2 then i + 2 <= |s| && s[i] == q && s[i + 1] == q else n == 1 && i < |s| && s[i] != q
    requires i + n <= e <= |s| && s[i + n..e] == Doubled(QuotedValue(s, i + n, q), q) + (if closed then [q] else "")
    ensures s[i..e] == Doubled(QuotedValue(s, i, q), q) + (if closed then [q] else "")
  {
    var v := QuotedValue(s, i + n, q);
    assert QuotedValue(s, i, q) == [s[i]] + v;
    assert ([s[i]] + v)[1..] == v;
    assert s[i..e] == s[i..i + n] + s[i + n..e];
    assert s[i..i + n] == if s[i] == q then [q, q] else [s[i]];
  }

  // ---------------------------------------------------------------- each piece is lexed

  lemma SpaceLexed(text: string, i: nat, e: nat, p: Piece, digit: char -> bool)
    requires p.Space? && StandsAt(text, i, e, p, digit)
    ensures LexemeAt(text, i, digit) == LexemeOf(p, e)
  {
    assert text[i..e] == [p.c];
    assert text[i] == text[i..e][0];
  }

  lemma CommentLexed(text: string, i: nat, e: nat, p: Piece, digit: char -> bool)
    requires (p.LineComment? || p.BlockComment?) && StandsAt(text, i, e, p, digit)
    ensures LexemeAt(text, i, digit) == LexemeOf(p, e)
  {
    var opener := if p.LineComment? then "--" else "/*";
    Split3(text, i, i + 2, e, opener, p.body);
    assert At(text, opener, i);
    AtHead(text, opener, i);
    ClosedEnds(text, if p.LineComment? then "\n" else "*/", i + 2, e);
    if p.BlockComment? {
      NotAt(text, "--", i, 0);
    }
  }

  lemma InnerOf(text: string, start: nat, marker: string)
    requires start <= |text| && marker != ""
    ensures
      var e := AfterTerminator(text, marker, start);
      Inner(text[start..e], marker)
      == match FindFrom(text, marker, start)
         case Some(end) => text[start..end]
         case None => if start + |marker| <= |text| then text[start..|text| - |marker|] else ""
  {
    var e := AfterTerminator(text, marker, start);
    if start + |marker| <= e {
      assert text[start..e][..e - start - |marker|] == text[start..e - |marker|];
    }
  }

  lemma DollarLexeme(text: string, i: nat, m: nat)
    requires i + m <= |text| && m > 0
    ensures
      var start := i + m;
      var marker := text[i..start];
      var e := AfterTerminator(text, marker, start);
      DollarQuoteAt(text, i, m) == Lex(String, Inner(text[start..e], marker), e)
  {
    InnerOf(text, i + m, text[i..i + m]);
  }

  lemma DollarLexed(text: string, i: nat, e: nat, p: Piece, digit: char -> bool)
    requires p.DollarQuote? && StandsAt(text, i, e, p, digit)
    ensures LexemeAt(text, i, digit) == LexemeOf(p, e)
  {
    var m := Marker(p.tag);
    Split3(text, i, i + |m|, e, m, p.body);
    StartsIff(text, m, i);
    DollarIs(text, i, p.tag);
    MarkedLexed(text, i, e, m, digit);
  }

  lemma MarkedLexed(text: string, i: nat, e: nat, m: string, digit: char -> bool)
    requires m != "" && i + |m| <= e <= |text| && text[i..i + |m|] == m && DollarMarker(text, i) == Some(|m|)
    requires ClosedBy(text[i + |m|..e], m, text[e..])
    ensures LexemeAt(text, i, digit) == Lex(String, Inner(text[i + |m|..e], m), e)
  {
    ClosedEnds(text, m, i + |m|, e);
    NoComment(text, i);
    DollarLexeme(text, i, |m|);
  }

  /** Behind an opening quote, whether or not it is closed. */
  lemma QuoteScanned(head: string, v: string, q: char, closed: bool, tail: string)
    requires if closed then Stops(tail, c => c == q) else tail == ""
    ensures
      var text := head + (Doubled(v, q) + if closed then [q] else "") + tail;
      && QuotedValue(text, |head|, q) == v
      && QuotedEnd(text, |head|, q) == |text| - |tail|
  {
    if closed {
      assert head + (Doubled(v, q) + [q]) + tail == head + Doubled(v, q) + [q] + tail;
      QuotedRoundTrip(head, v, q, tail);
    } else {
      assert head + (Doubled(v, q) + "") + tail == head + Doubled(v, q);
      UnclosedQuote(head, v, q);
    }
  }

  lemma AroundSlice(text: string, i: nat, e: nat, q: char, body: string)
    requires i < e <= |text| && text[i..e] == [q] + body
    ensures text[i] == q && text == text[..i + 1] + body + text[e..]
  {
    assert text == text[..i] + text[i..e] + text[e..];
    assert text[i] == text[i..e][0];
    assert text[..i + 1] == text[..i] + [q];
  }

  lemma QuotedLexed(text: string, i: nat, e: nat, p: Piece, digit: char -> bool)
    requires p.Quoted? && StandsAt(text, i, e, p, digit)
    ensures LexemeAt(text, i, digit) == LexemeOf(p, e)
  {
    var q, v, closed := p.quote, p.value, p.closed;
    var body := Doubled(v, q) + if closed then [q] else "";
    assert PieceText(p) == [q] + body;
    AroundSlice(text, i, e, q, body);
    QuoteScanned(text[..i + 1], v, q, closed, text[e..]);
    QuoteLexeme(text, i, q, digit);
  }

  lemma PlaceholderLexed(text: string, i: nat, e: nat, p: Piece, digit: char -> bool)
    requires p.Placeholder? && StandsAt(text, i, e, p, digit)
    ensures LexemeAt(text, i, digit) == LexemeOf(p, e)
  {
    var s := "{" + p.name + "}";
    assert text[i..e] == s && s[0] == '{' && s[|s| - 1] == '}' && s[1..|s| - 1] == p.name;
    assert text[i] == s[0] && text[e - 1] == s[|s| - 1];
    SliceOfSlice(text, i, e, 1, |s| - 1);
    PlaceholderLexeme(text, i, e, digit);
  }

  lemma PlaceholderLexeme(text: string, i: nat, e: nat, digit: char -> bool)
    requires i + 1 < e <= |text| && text[i] == '{' && text[e - 1] == '}'
    requires '}' !in text[i + 1..e - 1] && (text[i + 1..e - 1] == "" || text[i + 1..e - 1][0] != '{')
    ensures LexemeAt(text, i, digit) == Lex(Kind.Placeholder, text[i + 1..e - 1], e)
  {
    NoComment(text, i);
    NotAt(text, "{{", i, 1);
    FindFromFirst(text, "}", i + 1);
    forall k | i + 1 <= k <= |text| ensures At(text, "}", k) <==> k < |text| && text[k] == '}' {
      AtChar(text, '}', k);
    }
    forall k | i + 1 <= k < e - 1 ensures text[k] != '}' {
      assert text[i + 1..e - 1][k - i - 1] == text[k];
    }
    assert FindFrom(text, "}", i + 1) == Some(e - 1);
  }

  lemma ParameterLexed(text: string, i: nat, e: nat, p: Piece, digit: char -> bool)
    requires p.Parameter? && StandsAt(text, i, e, p, digit)
    ensures LexemeAt(text, i, digit) == LexemeOf(p, e)
  {
    assert text[i..e] == "$" + p.digits;
    assert text[i] == text[i..e][0];
    assert text[i..] == text[i..e] + text[e..];
    forall k | i + 1 <= k < e ensures digit(text[k]) {
      assert text[k] == text[i..e][k - i] == p.digits[k - i - 1];
    }
    RunIff(text, i + 1, digit, e);
    OpensDollarIff(text, i);
    NoComment(text, i);
  }

  lemma WordLexed(text: string, i: nat, e: nat, p: Piece, digit: char -> bool)
    requires p.Word? && StandsAt(text, i, e, p, digit)
    ensures LexemeAt(text, i, digit) == LexemeOf(p, e)
  {
    assert text[i] == text[i..e][0];
    forall k | i + 1 <= k < e ensures LetterOrDigit(text[k]) || text[k] == '$' {
      assert text[k] == text[i..e][k - i];
    }
    var run := (c: char) => IsWord(c) || c == '$';
    RunIff(text, i + 1, run, e);
    WordLexeme(text, i, digit);
  }

  lemma WordLexeme(text: string, i: nat, digit: char -> bool)
    requires i < |text| && Letter(text[i])
    ensures
      var e := RunEnd(text, i + 1, (c: char) => IsWord(c) || c == '$');
      LexemeAt(text, i, digit) == Lex(Ident, text[i..e], e)
  {
    NoComment(text, i);
    SameRun(text, i + 1, (c: char) => IsWord(c) || c == '$', x => IsWord(x) || x == '$');
  }

  /** Nothing but an operator or a single character can start here. */
  ghost predicate Bare(text: string, i: nat, digit: char -> bool)
    requires i < |text|
  {
    var s := text[i..];
    && !IsPythonSpace(text[i]) && !Letter(text[i]) && text[i] != '\'' && text[i] != '"'
    && !Starts(s, "--") && !Starts(s, "/*") && !OpensPlaceholder(s) && !OpensDollar(s)
    && (text[i] == '$' ==> Stops(text[i + 1..], digit))
  }

  lemma OpensPlaceholderIff(text: string, i: nat)
    requires i < |text|
    ensures OpensPlaceholder(text[i..])
            <==> text[i] == '{' && !At(text, "{{", i) && FindFrom(text, "}", i + 1).Some?
  {
    var s := text[i..];
    StartsIff(text, "{{", i);
    assert |s| >= 2 ==> s[..2] == [s[0], s[1]];
    FindFromFirst(text, "}", i + 1);
    forall k | i + 1 <= k <= |text| ensures At(text, "}", k) <==> k < |text| && text[k] == '}' {
      AtChar(text, '}', k);
    }
    assert s[1..] == text[i + 1..];
    if '}' in s[1..] {
      var k :| 0 <= k < |s[1..]| && s[1..][k] == '}';
      assert At(text, "}", i + 1 + k);
    }
    if k: nat :| i + 1 <= k < |text| && text[k] == '}' {
      assert s[1..][k - i - 1] == '}';
    }
  }

  lemma BareLexed(text: string, i: nat, digit: char -> bool)
    requires i < |text| && Bare(text, i, digit)
    ensures LexemeAt(text, i, digit)
         == match OperatorThere(text[i..])
            case Some(op) => Lex(Operator, op, i + |op|)
            case None => Lex(TokenOf(Single(text[i])).value.0, [text[i]], i + 1)
  {
    StartsIff(text, "--", i);
    StartsIff(text, "/*", i);
    OpensPlaceholderIff(text, i);
    OpensDollarIff(text, i);
    OperatorIs(text, i);
    RunIff(text, i + 1, digit, i + 1);
    if text[i] == '(' || text[i] == ')' {
      ParenIsNoOperator(text[i..]);
    }
  }

  lemma ParenIsNoOperator(s: string)
    requires s != "" && (s[0] == '(' || s[0] == ')')
    ensures !OpensOperator(s)
  {
    if |s| >= 2 {
      assert s[..2][0] == s[0];
    }
  }

  lemma OperatorHead(op: string)
    requires IsOperator(op)
    ensures |op| == 2 || op == "->>"
    ensures |op| >= 2 && op[1] != '-' && !IsPythonSpace(op[0]) && !Letter(op[0])
    ensures op[0] != '\'' && op[0] != '"' && op[0] != '/' && op[0] != '{' && op[0] != '$'
  {
  }

  lemma LongArrow(x: string)
    ensures Starts(x, "->>") <==> |x| >= 3 && x[..2] == "->" && x[2] == '>'
  {
    if |x| >= 3 {
      assert x[..3] == x[..2] + [x[2]];
      assert x[..3][..2] == x[..2] && x[..3][2] == x[2];
    }
  }

  lemma OperatorFound(op: string, rest: string)
    requires IsOperator(op) && (op == "->" ==> Stops(rest, c => c == '>'))
    ensures OperatorThere(op + rest) == Some(op)
  {
    OperatorHead(op);
    var x := op + rest;
    if op == "->>" {
      assert x[..3] == op && x[..2] == op[..2] == "->";
    } else {
      assert x[..2] == op;
      LongArrow(x);
    }
  }

  lemma OpLexed(text: string, i: nat, e: nat, p: Piece, digit: char -> bool)
    requires p.Op? && StandsAt(text, i, e, p, digit)
    ensures LexemeAt(text, i, digit) == LexemeOf(p, e)
  {
    var x := text[i..];
    OperatorHead(p.op);
    assert x == text[i..e] + text[e..] == p.op + text[e..];
    assert text[i] == x[0] == p.op[0] && x[1] == p.op[1];
    OperatorFound(p.op, text[e..]);
    assert !Starts(x, "--") && !Starts(x, "/*") by {
      assert x[..2][0] == x[0] && x[..2][1] == x[1];
    }
    if OpensDollar(x) {
      OpensDollarHead(x);
    }
    BareLexed(text, i, digit);
  }

  lemma OpensDollarHead(s: string)
    requires OpensDollar(s)
    ensures s != "" && s[0] == '$'
  {
    var tag: string :| IsTag(tag) && Starts(s, Marker(tag));
    assert s[..|tag| + 2][0] == '$';
  }

  lemma SingleLexed(text: string, i: nat, e: nat, p: Piece, digit: char -> bool)
    requires p.Single? && StandsAt(text, i, e, p, digit)
    ensures LexemeAt(text, i, digit) == LexemeOf(p, e)
  {
    assert text[i..] == text[i..e] + text[e..] == [p.c] + text[e..];
    assert e == i + 1 && text[i] == text[i..e][0];
    BareLexed(text, i, digit);
  }

  /** The tokenizer ends every piece where the grammar does, and gives it its kind and value. */
  lemma PieceLexed(text: string, i: nat, e: nat, p: Piece, digit: char -> bool)
    requires StandsAt(text, i, e, p, digit)
    ensures LexemeAt(text, i, digit) == LexemeOf(p, e)
  {
    match p
    case Space(_) => SpaceLexed(text, i, e, p, digit);
    case LineComment(_) => CommentLexed(text, i, e, p, digit);
    case BlockComment(_) => CommentLexed(text, i, e, p, digit);
    case DollarQuote(_, _) => DollarLexed(text, i, e, p, digit);
    case Quoted(_, _, _) => QuotedLexed(text, i, e, p, digit);
    case Placeholder(_) => PlaceholderLexed(text, i, e, p, digit);
    case Parameter(_) => ParameterLexed(text, i, e, p, digit);
    case Word(_) => WordLexed(text, i, e, p, digit);
    case Op(_) => OpLexed(text, i, e, p, digit);
    case Single(_) => SingleLexed(text, i, e, p, digit);
  }

  // ---------------------------------------------------------------- a piece stands everywhere

  lemma CommentThere(text: string, i: nat, digit: char -> bool) returns (p: Piece, e: nat)
    requires i < |text| && (At(text, "--", i) || At(text, "/*", i))
    ensures StandsAt(text, i, e, p, digit)
  {
    var closer := if At(text, "--", i) then "\n" else "*/";
    e := AfterTerminator(text, closer, i + 2);
    var body := text[i + 2..e];
    p := if At(text, "--", i) then LineComment(body) else BlockComment(body);
    assert text[i..e] == text[i..i + 2] + body;
    ClosedAt(text, closer, i + 2);
    Stands(text, i, e, p, digit);
  }

  lemma DollarTag(text: string, i: nat) returns (tag: string)
    requires i < |text| && OpensDollar(text[i..])
    ensures IsTag(tag) && i + |Marker(tag)| <= |text| && text[i..i + |Marker(tag)|] == Marker(tag)
  {
    OpensDollarIff(text, i);
    tag := DollarThere(text, i);
    DollarIs(text, i, tag);
  }

  lemma DollarQuoteThere(text: string, i: nat, digit: char -> bool) returns (p: Piece, e: nat)
    requires i < |text| && OpensDollar(text[i..])
    ensures StandsAt(text, i, e, p, digit)
  {
    var tag := DollarTag(text, i);
    e := AfterTerminator(text, Marker(tag), i + |Marker(tag)|);
    p := DollarQuote(tag, text[i + |Marker(tag)|..e]);
    DollarStands(text, i, e, tag, Marker(tag), digit);
  }

  lemma DollarStands(text: string, i: nat, e: nat, tag: string, m: string, digit: char -> bool)
    requires IsTag(tag) && m == Marker(tag) && i + |m| <= |text| && text[i..i + |m|] == m
    requires e == AfterTerminator(text, m, i + |m|)
    ensures StandsAt(text, i, e, DollarQuote(tag, text[i + |m|..e]), digit)
  {
    MarkedThere(text, i, m, e);
    ClosedAt(text, m, i + |m|);
    Stands(text, i, e, DollarQuote(tag, text[i + |m|..e]), digit);
  }

  lemma SliceSplits(text: string, i: nat, m: nat, e: nat)
    requires i <= m <= e <= |text|
    ensures text[i..e] == text[i..m] + text[m..e]
  {
  }

  lemma MarkedThere(text: string, i: nat, m: string, e: nat)
    requires m != "" && i + |m| <= |text| && text[i..i + |m|] == m && e == AfterTerminator(text, m, i + |m|)
    ensures text[i..e] == m + text[i + |m|..e]
  {
    SliceSplits(text, i, i + |m|, e);
  }

  lemma QuotedThere(text: string, i: nat, digit: char -> bool) returns (p: Piece, e: nat)
    requires i < |text| && (text[i] == '\'' || text[i] == '"')
    ensures StandsAt(text, i, e, p, digit)
  {
    var q := text[i];
    var closed := QuoteThere(text, i + 1, q);
    e := QuotedEnd(text, i + 1, q);
    p := Quoted(q, QuotedValue(text, i + 1, q), closed);
    assert text[i..e] == [q] + text[i + 1..e];
    Stands(text, i, e, p, digit);
  }

  lemma PlaceholderThere(text: string, i: nat, digit: char -> bool) returns (p: Piece, e: nat)
    requires i < |text| && OpensPlaceholder(text[i..])
    ensures StandsAt(text, i, e, p, digit)
  {
    OpensPlaceholderIff(text, i);
    FindFromFirst(text, "}", i + 1);
    var end := FindFrom(text, "}", i + 1).value;
    e := end + 1;
    var name := text[i + 1..end];
    p := Piece.Placeholder(name);
    AtChar(text, '}', end);
    forall k | i + 1 <= k < end ensures text[k] != '}' {
      AtChar(text, '}', k);
    }
    assert text[i..][0] == text[i] && text[i..][1] == text[i + 1];
    assert text[i..e] == "{" + name + "}";
    Stands(text, i, e, p, digit);
  }

  lemma RunThere(text: string, i: nat, digit: char -> bool) returns (p: Piece, e: nat)
    requires i < |text|
    requires Letter(text[i]) || (text[i] == '$' && !OpensDollar(text[i..]) && !Stops(text[i + 1..], digit))
    ensures StandsAt(text, i, e, p, digit)
  {
    if Letter(text[i]) {
      var run := (c: char) => LetterOrDigit(c) || c == '$';
      e := RunEnd(text, i + 1, run);
      RunIff(text, i + 1, run, e);
      p := Word(text[i..e]);
      Stands(text, i, e, p, digit);
    } else {
      e := RunEnd(text, i + 1, digit);
      RunIff(text, i + 1, digit, e);
      p := Piece.Parameter(text[i + 1..e]);
      assert text[i..e] == "$" + text[i + 1..e];
      assert text[i..] == "$" + text[i + 1..e] + text[e..];
      assert e > i + 1 by {
        assert text[i + 1..][0] == text[i + 1];
      }
      Stands(text, i, e, p, digit);
    }
  }

  lemma BareThere(text: string, i: nat, digit: char -> bool) returns (p: Piece, e: nat)
    requires i < |text| && Bare(text, i, digit)
    ensures StandsAt(text, i, e, p, digit)
  {
    var x := text[i..];
    match OperatorThere(x) {
      case None =>
        p, e := Single(text[i]), i + 1;
        assert x == [text[i]] + text[i + 1..];
        assert text[i..e] == [text[i]];
        Stands(text, i, e, p, digit);
      case Some(op) =>
        p, e := Op(op), i + |op|;
        assert text[i..e] == x[..|op|];
        assert text[e..] != "" ==> text[e..][0] == x[|op|];
        LongArrow(x);
        Stands(text, i, e, p, digit);
    }
  }

  lemma PieceThere(text: string, i: nat, digit: char -> bool) returns (p: Piece, e: nat)
    requires i < |text|
    ensures StandsAt(text, i, e, p, digit)
  {
    var x := text[i..];
    StartsIff(text, "--", i);
    StartsIff(text, "/*", i);
    if IsPythonSpace(text[i]) {
      p, e := Space(text[i]), i + 1;
      assert text[i..e] == [text[i]];
      Stands(text, i, e, p, digit);
    } else if At(text, "--", i) || At(text, "/*", i) {
      p, e := CommentThere(text, i, digit);
    } else if OpensDollar(x) {
      p, e := DollarQuoteThere(text, i, digit);
    } else if text[i] == '\'' || text[i] == '"' {
      p, e := QuotedThere(text, i, digit);
    } else if OpensPlaceholder(x) {
      p, e := PlaceholderThere(text, i, digit);
    } else if Letter(text[i]) || (text[i] == '$' && !Stops(text[i + 1..], digit)) {
      p, e := RunThere(text, i, digit);
    } else {
      p, e := BareThere(text, i, digit);
    }
  }

  // ---------------------------------------------------------------- whole texts

  lemma {:induction false} PiecesFrom(text: string, i: nat, digit: char -> bool) returns (ps: Pieces)
    requires i <= |text|
    ensures WellCut(ps, Grammar(digit)) && Source(ps) == text[i..]
    decreases |text| - i
  {
    if i == |text| {
      return Done;
    }
    var p, e := PieceThere(text, i, digit);
    var rest := PiecesFrom(text, e, digit);
    ps := Then(p, rest);
    assert text[i..] == text[i..e] + text[e..];
  }

  /** Every text can be cut into pieces, so the law below covers all inputs. */
  lemma EveryTextIsCut(text: string, digit: char -> bool) returns (ps: Pieces)
    ensures WellCut(ps, Grammar(digit)) && Source(ps) == text
  {
    ps := PiecesFrom(text, 0, digit);
    assert text[0..] == text;
  }

  /** The tokenizer's loop over any lexemes. */
  function TokensBy(lex: nat -> Lexeme, n: nat, i: nat, depth: nat): seq<Token>
    decreases n - i
  {
    if i >= n || lex(i).next <= i then []
    else
      match lex(i)
      case Skip(next) => TokensBy(lex, n, next, depth)
      case Lex(kind, value, next) =>
        var t := MakeToken(lex(i), depth, i);
        [t] + TokensBy(lex, n, next, DepthAfter(depth, t))
  }

  lemma {:induction false} TokensFromIsBy(text: string, i: nat, depth: nat, digit: char -> bool, lex: nat -> Lexeme)
    requires i <= |text| && forall k: nat :: k < |text| ==> lex(k) == LexemeAt(text, k, digit)
    ensures TokensFrom(text, i, depth, digit) == TokensBy(lex, |text|, i, depth)
    decreases |text| - i
  {
    if i < |text| {
      match lex(i) {
        case Skip(next) => TokensFromIsBy(text, next, depth, digit, lex);
        case Lex(_, _, next) => TokensFromIsBy(text, next, DepthAfter(depth, MakeToken(lex(i), depth, i)), digit, lex);
      }
    }
  }

  /** Pieces that fit are not empty and give the lexemes, wherever they stand. */
  ghost predicate LexesPieces(lex: nat -> Lexeme, text: string, fits: (Piece, string) -> bool) {
    forall i: nat, e: nat, p: Piece | i <= e <= |text| :: fits(p, text[e..]) && text[i..e] == PieceText(p) ==>
      i < e && lex(i) == LexemeOf(p, e)
  }

  lemma {:induction false} TokensByPieces(
      text: string, i: nat, depth: nat, ps: Pieces, lex: nat -> Lexeme, fits: (Piece, string) -> bool)
    requires i <= |text| && WellCut(ps, fits) && text[i..] == Source(ps) && LexesPieces(lex, text, fits)
    ensures TokensBy(lex, |text|, i, depth) == TokensOf(ps, i, depth)
    decreases ps
  {
    match ps
    case Done =>
    case Then(p, rest) =>
      var e := i + |PieceText(p)|;
      CutOff(text, i, PieceText(p), Source(rest));
      assert i < e && lex(i) == LexemeOf(p, e);
      PieceTokens(lex, |text|, i, e, depth, p);
      TokensByPieces(text, e, DepthBehind(p, depth), rest, lex, fits);
  }

  lemma CutOff(text: string, i: nat, t: string, rest: string)
    requires i <= |text| && text[i..] == t + rest
    ensures i + |t| <= |text| && text[i..i + |t|] == t && text[i + |t|..] == rest
  {
    assert text[i..i + |t|] == text[i..][..|t|];
    assert text[i + |t|..] == text[i..][|t|..];
  }

  lemma PieceTokens(lex: nat -> Lexeme, n: nat, i: nat, e: nat, depth: nat, p: Piece)
    requires i < e <= n && lex(i) == LexemeOf(p, e)
    ensures TokensBy(lex, n, i, depth) == TokensOfPiece(p, i, depth) + TokensBy(lex, n, e, DepthBehind(p, depth))
  {
    if TokenOf(p).Some? {
      PunctIsSingle(p);
    }
  }

  lemma PunctIsSingle(p: Piece)
    requires TokenOf(p).Some?
    ensures TokenOf(p) == Some((Punct, "(")) <==> p == Single('(')
    ensures TokenOf(p) == Some((Punct, ")")) <==> p == Single(')')
  {
  }

  lemma FittingIsNotEmpty(p: Piece, rest: string, digit: char -> bool)
    requires Grammar(digit)(p, rest)
    ensures PieceText(p) != ""
  {
  }

  lemma LexesGrammar(text: string, digit: char -> bool, lex: nat -> Lexeme)
    requires forall k: nat :: k < |text| ==> lex(k) == LexemeAt(text, k, digit)
    ensures LexesPieces(lex, text, Grammar(digit))
  {
    forall i: nat, e: nat, p: Piece
      | i <= e <= |text| && Grammar(digit)(p, text[e..]) && text[i..e] == PieceText(p)
      ensures i < e && lex(i) == LexemeOf(p, e)
    {
      FittingIsNotEmpty(p, text[e..], digit);
      PieceLexed(text, i, e, p, digit);
    }
  }

  /**
   However a text is cut into pieces, its tokens are those of the pieces that are
   neither white space nor comments, each with its kind, value and offset and the
   number of parentheses open around it.
   */
  lemma TokensArePieces(ps: Pieces, digit: char -> bool)
    requires WellCut(ps, Grammar(digit))
    ensures TokensFrom(Source(ps), 0, 0, digit) == TokensOf(ps, 0, 0)
  {
    var text := Source(ps);
    var lex: nat -> Lexeme := (k: nat) => if k < |text| then LexemeAt(text, k, digit) else Skip(0);
    LexesGrammar(text, digit, lex);
    TokensFromIsBy(text, 0, 0, digit, lex);
    assert text[0..] == text;
    TokensByPieces(text, 0, 0, ps, lex, Grammar(digit));
  }
}
