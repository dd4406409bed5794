/**
 What the title classifier finds, by a grammar of its own: single characters
 and entity tokens, decimal, hexadecimal or named.
 */
module TitlePieces {
  import opened Options
  import opened Text
  import opened TitleAudit

  // ---------------------------------------------------------------- the grammar

  /** Numbers are spelled with leading zeros; hexadecimal digits in either case. */
  datatype Piece =
    | Char(c: char)
    | Number(zeros: nat, n: nat)
    | HexNumber(x: char, digits: string, zeros: nat, n: nat)
    | Named(name: string)

  function Zeros(k: nat): string { if k == 0 then "" else Zeros(k - 1) + "0" }

  const HEX_DIGITS: string := "0123456789abcdef"

  /** The hexadecimal numeral of `n`, without leading zeros. */
  function HexDec(n: nat): string {
    if n < 16 then [HEX_DIGITS[n]] else HexDec(n / 16) + [HEX_DIGITS[n % 16]]
  }

  function PieceText(p: Piece): string {
    match p
    case Char(c) => [c]
    case _ => "&" + TailText(p)
  }

  /** An entity token behind its ampersand. */
  function TailText(p: Piece): string {
    match p
    case Char(c) => ""
    case Number(zeros, n) => "#" + (Zeros(zeros) + Dec(n)) + ";"
    case HexNumber(x, digits, _, _) => "#" + [x] + digits + ";"
    case Named(name) => name + ";"
  }

  predicate IsNameChar(c: char) { '0' <= c <= '9' || 'a' <= c <= 'z' || 'A' <= c <= 'Z' || c == '_' }

  predicate IsEntity(p: Piece) {
    match p
    case Char(_) => false
    case Number(_, _) => true
    case HexNumber(x, digits, zeros, n) => (x == 'x' || x == 'X') && SameIgnoringCase(digits, Zeros(zeros) + HexDec(n))
    case Named(name) => name != "" && forall k :: 0 <= k < |name| ==> IsNameChar(name[k])
  }

  ghost predicate OpensEntity(s: string) { exists p: Piece :: IsEntity(p) && Starts(s, PieceText(p)) }

  /** `p` is one piece in front of `rest`. */
  ghost predicate IsPiece(p: Piece, rest: string) {
    if p.Char? then !OpensEntity([p.c] + rest) else IsEntity(p)
  }

  datatype Pieces = Done | Then(first: Piece, rest: Pieces)

  function Source(ps: Pieces): string {
    match ps
    case Done => ""
    case Then(p, rest) => PieceText(p) + Source(rest)
  }

  ghost predicate WellCut(ps: Pieces) {
    match ps
    case Done => true
    case Then(p, rest) => IsPiece(p, Source(rest)) && WellCut(rest)
  }

  /** How often `c` stands as a character of its own. */
  function CharCount(ps: Pieces, c: char): nat {
    match ps
    case Done => 0
    case Then(p, rest) => (if p == Char(c) then 1 else 0) + CharCount(rest, c)
  }

  /** How often the entity token `t` stands there. */
  function TokenCount(ps: Pieces, t: string): nat {
    match ps
    case Done => 0
    case Then(p, rest) => (if !p.Char? && PieceText(p) == t then 1 else 0) + TokenCount(rest, t)
  }

  /** A Unicode scalar value as its character. */
  function CharOr(n: nat, token: string): string {
    if n < 0xD800 || 0xE000 <= n < 0x110000 then [n as char] else token
  }

  /** What a piece decodes to: a scalar value, a known name, or itself. */
  function DecodedPiece(names: map<string, char>, p: Piece): string {
    match p
    case Char(c) => [c]
    case Named(name) => if name in names then [names[name]] else PieceText(p)
    case _ => CharOr(p.n, PieceText(p))
  }

  function Decoded(names: map<string, char>, ps: Pieces): string {
    match ps
    case Done => ""
    case Then(p, rest) => DecodedPiece(names, p) + Decoded(names, rest)
  }

  // ---------------------------------------------------------------- numerals

  lemma {:induction false} ZerosOnly(k: nat)
    ensures |Zeros(k)| == k && forall i :: 0 <= i < k ==> Zeros(k)[i] == '0'
  {
    if k > 0 {
      ZerosOnly(k - 1);
    }
  }

  lemma ValueSnoc(w: string, d: char, base: nat)
    ensures Value(w + [d], base) == Value(w, base) * base + HexValue(d)
  {
    assert (w + [d])[..|w|] == w;
  }

  lemma {:induction false} ValueOfZeros(k: nat, base: nat)
    ensures Value(Zeros(k), base) == 0
  {
    if k > 0 {
      ValueOfZeros(k - 1, base);
      ValueSnoc(Zeros(k - 1), '0', base);
    }
  }

  lemma {:induction false} ZerosDoNotCount(k: nat, w: string, base: nat)
    ensures Value(Zeros(k) + w, base) == Value(w, base)
    decreases |w|
  {
    if w == "" {
      ValueOfZeros(k, base);
      assert Zeros(k) + w == Zeros(k);
    } else {
      var v, d := w[..|w| - 1], w[|w| - 1];
      ZerosDoNotCount(k, v, base);
      ValueSnoc(Zeros(k) + v, d, base);
      assert Zeros(k) + w == Zeros(k) + v + [d];
    }
  }

  lemma {:induction false} ValueOfDec(n: nat)
    ensures Value(Dec(n), 10) == n
    decreases n
  {
    if n < 10 {
      ValueSnoc("", Digit(n), 10);
      assert "" + [Digit(n)] == [Digit(n)];
    } else {
      ValueOfDec(n / 10);
      ValueSnoc(Dec(n / 10), Digit(n % 10), 10);
    }
  }

  lemma HexDigitValue(d: nat)
    requires d < 16
    ensures HexValue(HEX_DIGITS[d]) == d && In(HEX_DIGITS[d], Hex) && LowerChar(HEX_DIGITS[d]) == HEX_DIGITS[d]
  {
  }

  lemma {:induction false} ValueOfHexDec(n: nat)
    ensures Value(HexDec(n), 16) == n
    decreases n
  {
    HexDigitValue(n % 16);
    if n < 16 {
      ValueSnoc("", HEX_DIGITS[n], 16);
      assert "" + [HEX_DIGITS[n]] == [HEX_DIGITS[n]];
    } else {
      ValueOfHexDec(n / 16);
      ValueSnoc(HexDec(n / 16), HEX_DIGITS[n % 16], 16);
    }
  }

  lemma {:induction false} HexDecDigits(n: nat)
    ensures |HexDec(n)| > 0 && forall i :: 0 <= i < |HexDec(n)| ==> In(HexDec(n)[i], Hex) && LowerChar(HexDec(n)[i]) == HexDec(n)[i]
  {
    HexDigitValue(n % 16);
    if n >= 16 {
      HexDecDigits(n / 16);
    }
  }

  lemma CaseValue(c: char, d: char)
    requires LowerChar(c) == LowerChar(d)
    ensures HexValue(c) == HexValue(d) && (In(c, Hex) <==> In(d, Hex))
  {
  }

  lemma {:induction false} ValueIgnoresCase(a: string, b: string)
    requires SameIgnoringCase(a, b)
    ensures Value(a, 16) == Value(b, 16)
    decreases |a|
  {
    if a != "" {
      ValueIgnoresCase(a[..|a| - 1], b[..|b| - 1]);
      CaseValue(a[|a| - 1], b[|b| - 1]);
    }
  }

  /** Every run of decimal digits is a numeral with leading zeros. */
  lemma {:induction false} DecimalSpelled(ds: string) returns (k: nat, n: nat)
    requires ds != "" && forall i :: 0 <= i < |ds| ==> In(ds[i], Decimal)
    ensures ds == Zeros(k) + Dec(n)
    decreases |ds|
  {
    var w, d := ds[..|ds| - 1], DigitValue(ds[|ds| - 1]);
    assert ds == w + [Digit(d)];
    if w == "" {
      return 0, d;
    }
    var j, m := DecimalSpelled(w);
    if m == 0 {
      k, n := j + 1, d;
      assert Zeros(j + 1) == w;
    } else {
      k, n := j, 10 * m + d;
      assert Dec(n) == Dec(m) + [Digit(d)];
    }
  }

  lemma HexDigitOf(c: char)
    requires In(c, Hex)
    ensures HexValue(c) < 16 && LowerChar(HEX_DIGITS[HexValue(c)]) == LowerChar(c)
  {
  }

  /** One more digit behind a numeral with leading zeros. */
  lemma HexStep(j: nat, m: nat, d: nat) returns (k: nat, n: nat)
    requires d < 16
    ensures Zeros(k) + HexDec(n) == Zeros(j) + HexDec(m) + [HEX_DIGITS[d]]
  {
    if m == 0 {
      k, n := j + 1, d;
      assert Zeros(j + 1) == Zeros(j) + HexDec(0);
    } else {
      k, n := j, 16 * m + d;
      assert n / 16 == m && n % 16 == d;
    }
  }

  lemma {:induction false} HexSpelled(ds: string) returns (k: nat, n: nat)
    requires ds != "" && forall i :: 0 <= i < |ds| ==> In(ds[i], Hex)
    ensures SameIgnoringCase(ds, Zeros(k) + HexDec(n))
    decreases |ds|
  {
    var w, c := ds[..|ds| - 1], ds[|ds| - 1];
    HexDigitOf(c);
    assert ds == w + [c];
    if w == "" {
      k, n := 0, HexValue(c);
    } else {
      var j, m := HexSpelled(w);
      k, n := HexStep(j, m, HexValue(c));
      SnocIgnoringCase(w, Zeros(j) + HexDec(m), c, HEX_DIGITS[HexValue(c)]);
    }
  }

  lemma SnocIgnoringCase(a: string, b: string, c: char, d: char)
    requires SameIgnoringCase(a, b) && LowerChar(c) == LowerChar(d)
    ensures SameIgnoringCase(a + [c], b + [d])
  {
  }

  // ---------------------------------------------------------------- entity tokens

  /** A run of the kind behind `i` characters, with its semicolon. */
  lemma RunIs(head: string, run: string, rest: string, kind: Kind)
    requires run != "" && forall k :: 0 <= k < |run| ==> In(run[k], kind)
    ensures RunLength(head + run + ";" + rest, |head|, kind) == Some(|head| + |run| + 1)
  {
    var s := head + run + ";" + rest;
    assert forall k :: |head| <= k < |head| + |run| ==> s[k] == run[k - |head|];
    assert s[|head| + |run|] == ';';
    SpanIs(s, |head|, |head| + |run|, kind);
  }

  lemma {:induction false} SpanRuns(s: string, i: nat, kind: Kind)
    requires i <= |s|
    ensures forall k :: i <= k < Span(s, i, kind) ==> In(s[k], kind)
    decreases |s| - i
  {
    if i < |s| && In(s[i], kind) {
      SpanRuns(s, i + 1, kind);
    }
  }

  /** The run and its semicolon, where the search finds them. */
  lemma RunThere(s: string, i: nat, kind: Kind) returns (run: string)
    requires i <= |s| && RunLength(s, i, kind).Some?
    ensures
      var n := RunLength(s, i, kind).value;
      run != "" && s[i..n] == run + ";" && forall k :: 0 <= k < |run| ==> In(run[k], kind)
  {
    var j := Span(s, i, kind);
    SpanRuns(s, i, kind);
    run := s[i..j];
    assert s[i..j + 1] == run + [s[j]];
  }

  lemma {:induction false} DecDigits(n: nat)
    ensures Dec(n) != "" && forall i :: 0 <= i < |Dec(n)| ==> In(Dec(n)[i], Decimal)
  {
    if n >= 10 {
      DecDigits(n / 10);
    }
  }

  lemma NumberTail(zeros: nat, n: nat, rest: string)
    ensures
      var digits := Zeros(zeros) + Dec(n);
      TailLength("#" + digits + ";" + rest) == Some(|digits| + 2)
  {
    ZerosOnly(zeros);
    DecDigits(n);
    var digits := Zeros(zeros) + Dec(n);
    RunIs("#", digits, rest, Decimal);
    assert ("#" + digits + ";" + rest)[1] == digits[0];
  }

  lemma HexTail(x: char, digits: string, zeros: nat, n: nat, rest: string)
    requires (x == 'x' || x == 'X') && SameIgnoringCase(digits, Zeros(zeros) + HexDec(n))
    ensures digits != "" && TailLength("#" + [x] + digits + ";" + rest) == Some(|digits| + 3)
  {
    ZerosOnly(zeros);
    HexDecDigits(n);
    var plain := Zeros(zeros) + HexDec(n);
    forall k | 0 <= k < |digits| ensures In(digits[k], Hex) {
      CaseValue(digits[k], plain[k]);
    }
    RunIs("#" + [x], digits, rest, Hex);
  }

  lemma NamedTail(name: string, rest: string)
    requires name != "" && forall k :: 0 <= k < |name| ==> IsNameChar(name[k])
    ensures TailLength(name + ";" + rest) == Some(|name| + 1)
  {
    RunIs("", name, rest, Word);
    assert "" + name + ";" + rest == name + ";" + rest;
    assert (name + ";" + rest)[0] == name[0];
  }

  /** The classifier's expression finds a token's tail whole. */
  lemma TailIs(p: Piece, rest: string)
    requires IsEntity(p)
    ensures TailLength(TailText(p) + rest) == Some(|TailText(p)|)
  {
    match p
    case Number(zeros, n) => NumberTail(zeros, n, rest);
    case HexNumber(x, digits, zeros, n) => HexTail(x, digits, zeros, n, rest);
    case Named(name) => NamedTail(name, rest);
  }

  lemma TailThere(s: string) returns (p: Piece)
    requires TailLength(s).Some?
    ensures IsEntity(p) && TailText(p) == s[..TailLength(s).value]
  {
    var n := TailLength(s).value;
    if s[0] == '#' {
      if |s| > 1 && (s[1] == 'x' || s[1] == 'X') {
        var digits := RunThere(s, 2, Hex);
        var zeros, v := HexSpelled(digits);
        p := HexNumber(s[1], digits, zeros, v);
        assert s[..n] == "#" + [s[1]] + s[2..n];
      } else {
        var digits := RunThere(s, 1, Decimal);
        var zeros, v := DecimalSpelled(digits);
        p := Number(zeros, v);
        assert s[..n] == "#" + s[1..n];
      }
    } else {
      var name := RunThere(s, 0, Word);
      p := Named(name);
      assert s[..n] == s[0..n];
    }
  }

  lemma AmpersandAhead(t: string, rest: string)
    requires TailLength(t + rest) == Some(|t|)
    ensures EntityLength("&" + t + rest) == Some(|t| + 1)
  {
    assert ("&" + t + rest)[1..] == t + rest;
  }

  lemma EntityIs(p: Piece, rest: string)
    requires IsEntity(p)
    ensures EntityLength(PieceText(p) + rest) == Some(|PieceText(p)|)
  {
    TailIs(p, rest);
    AmpersandAhead(TailText(p), rest);
  }

  lemma EntityThere(s: string) returns (p: Piece)
    requires EntityLength(s).Some?
    ensures IsEntity(p) && PieceText(p) == s[..EntityLength(s).value]
  {
    p := TailThere(s[1..]);
    var n := EntityLength(s).value;
    assert s[..n] == [s[0]] + s[1..][..n - 1];
  }

  lemma EntityOpens(s: string, p: Piece)
    requires IsEntity(p) && Starts(s, PieceText(p))
    ensures EntityLength(s).Some?
  {
    EntityIs(p, s[|PieceText(p)|..]);
    SplitAfter(s, PieceText(p));
  }

  lemma SplitAfter(s: string, t: string)
    requires Starts(s, t)
    ensures s == t + s[|t|..]
  {
  }

  lemma OpensEntityIff(s: string)
    ensures EntityLength(s).Some? <==> OpensEntity(s)
  {
    if EntityLength(s).Some? {
      var p := EntityThere(s);
    }
    if OpensEntity(s) {
      var p: Piece :| IsEntity(p) && Starts(s, PieceText(p));
      EntityOpens(s, p);
    }
  }

  // ---------------------------------------------------------------- signals and decoding

  /** Whether an entity token is found, and how long it is. */
  lemma PieceFound(p: Piece, rest: string)
    requires IsPiece(p, rest)
    ensures EntityLength(PieceText(p) + rest) == if p.Char? then None else Some(|PieceText(p)|)
  {
    if p.Char? {
      OpensEntityIff([p.c] + rest);
    } else {
      EntityIs(p, rest);
    }
  }

  lemma HeadAndRest(t: string, rest: string)
    ensures (t + rest)[..|t|] == t && (t + rest)[|t|..] == rest
  {
  }

  lemma PieceSignals(p: Piece, rest: string)
    requires IsPiece(p, rest)
    ensures SignalsOf(PieceText(p) + rest)
         == if p.Char? then AddRaw(SignalsOf(rest), p.c) else AddToken(SignalsOf(rest), PieceText(p))
  {
    PieceFound(p, rest);
    HeadAndRest(PieceText(p), rest);
    assert p.Char? ==> PieceText(p) == [p.c];
  }

  predicate FiveChar(c: char) { c == '&' || c == '"' || c == '\'' || c == '<' || c == '>' }

  predicate CanonicalToken(t: string) { t in {"&amp;", "&quot;", "&#39;", "&lt;", "&gt;"} }

  /**
   However a title is cut, its signals count the special characters that stand by
   themselves, the canonical tokens, and all other tokens.
   */
  lemma {:induction false} SignalsOfPieces(ps: Pieces, c: char, t: string)
    requires WellCut(ps)
    ensures SignalsOf(Source(ps)).raw[c] == if FiveChar(c) then CharCount(ps, c) else 0
    ensures SignalsOf(Source(ps)).canonical[t] == if CanonicalToken(t) then TokenCount(ps, t) else 0
    ensures SignalsOf(Source(ps)).other[t] == if CanonicalToken(t) then 0 else TokenCount(ps, t)
    decreases ps
  {
    match ps
    case Done =>
    case Then(p, rest) =>
      SignalsOfPieces(rest, c, t);
      PieceSignals(p, Source(rest));
      SignalsGrow(SignalsOf(Source(rest)), p, c, t);
  }

  lemma SignalsGrow(g: Signals, p: Piece, c: char, t: string)
    ensures
      var next := if p.Char? then AddRaw(g, p.c) else AddToken(g, PieceText(p));
      && next.raw[c] == g.raw[c] + (if p == Char(c) && FiveChar(c) then 1 else 0)
      && next.canonical[t] == g.canonical[t] + (if !p.Char? && PieceText(p) == t && CanonicalToken(t) then 1 else 0)
      && next.other[t] == g.other[t] + (if !p.Char? && PieceText(p) == t && !CanonicalToken(t) then 1 else 0)
  {
  }

  lemma TokenDecodes(names: map<string, char>, p: Piece)
    requires IsEntity(p)
    ensures |PieceText(p)| > 2 && DecodeToken(names, PieceText(p)) == DecodedPiece(names, p)
  {
    var token := PieceText(p);
    EntityIs(p, "");
    assert token + "" == token;
    match p
    case Number(zeros, n) => NumberDecodes(names, zeros, n);
    case HexNumber(x, digits, zeros, n) => HexDecodes(names, x, digits, zeros, n);
    case Named(name) =>
      assert token == "&" + (name + ";");
      assert token[1] == name[0] && token[1..|token| - 1] == name;
  }

  lemma DecimalToken(names: map<string, char>, digits: string, n: nat)
    requires digits != "" && digits[0] != 'x' && digits[0] != 'X' && Value(digits, 10) == n
    ensures
      var token := "&" + ("#" + digits + ";");
      |token| > 2 && DecodeToken(names, token) == CharOr(n, token)
  {
    var token := "&" + ("#" + digits + ";");
    assert token[1] == '#' && token[2] == digits[0] && token[2..|token| - 1] == digits;
  }

  lemma HexToken(names: map<string, char>, x: char, digits: string, n: nat)
    requires digits != "" && (x == 'x' || x == 'X') && Value(digits, 16) == n
    ensures
      var token := "&" + ("#" + [x] + digits + ";");
      |token| > 2 && DecodeToken(names, token) == CharOr(n, token)
  {
    var token := "&" + ("#" + [x] + digits + ";");
    assert token[1] == '#' && token[2] == x && |token| > 3 && token[3..|token| - 1] == digits;
  }

  lemma NumberDecodes(names: map<string, char>, zeros: nat, n: nat)
    ensures
      var p := Number(zeros, n);
      |PieceText(p)| > 2 && DecodeToken(names, PieceText(p)) == DecodedPiece(names, p)
  {
    ZerosOnly(zeros);
    DecDigits(n);
    ValueOfDec(n);
    ZerosDoNotCount(zeros, Dec(n), 10);
    var digits := Zeros(zeros) + Dec(n);
    assert In(digits[0], Decimal);
    DecimalToken(names, digits, n);
  }

  lemma HexDecodes(names: map<string, char>, x: char, digits: string, zeros: nat, n: nat)
    requires IsEntity(HexNumber(x, digits, zeros, n))
    ensures
      var p := HexNumber(x, digits, zeros, n);
      |PieceText(p)| > 2 && DecodeToken(names, PieceText(p)) == DecodedPiece(names, p)
  {
    HexTail(x, digits, zeros, n, "");
    ValueOfHexDec(n);
    ZerosDoNotCount(zeros, HexDec(n), 16);
    ValueIgnoresCase(digits, Zeros(zeros) + HexDec(n));
    HexToken(names, x, digits, n);
  }

  /** However a title is cut, one layer of decoding replaces exactly the entity tokens. */
  lemma {:induction false} DecodeOfPieces(names: map<string, char>, ps: Pieces)
    requires WellCut(ps)
    ensures Decode(names, Source(ps)) == Decoded(names, ps)
    decreases ps
  {
    match ps
    case Done =>
    case Then(p, rest) =>
      DecodeOfPieces(names, rest);
      PieceDecodes(names, p, Source(rest));
  }

  lemma PieceDecodes(names: map<string, char>, p: Piece, rest: string)
    requires IsPiece(p, rest)
    ensures Decode(names, PieceText(p) + rest) == DecodedPiece(names, p) + Decode(names, rest)
  {
    PieceFound(p, rest);
    HeadAndRest(PieceText(p), rest);
    if !p.Char? {
      TokenDecodes(names, p);
    }
  }

  /** Every title can be cut into pieces. */
  lemma {:induction false} EveryTitleIsCut(s: string) returns (ps: Pieces)
    ensures WellCut(ps) && Source(ps) == s
    decreases |s|
  {
    if s == "" {
      return Done;
    }
    OpensEntityIff(s);
    var p := Char(s[0]);
    if EntityLength(s).Some? {
      p := EntityThere(s);
    }
    assert s == PieceText(p) + s[|PieceText(p)|..];
    var rest := EveryTitleIsCut(s[|PieceText(p)|..]);
    ps := Then(p, rest);
  }

  // ---------------------------------------------------------------- double encoding

  /** An ampersand encoded by name or number. */
  ghost predicate EncodesAmpersand(a: string) {
    || a == "&amp;" || a == "&AMP;"
    || exists z: nat, x: char :: AmpersandNumber(a, z, x)
  }

  predicate AmpersandNumber(a: string, z: nat, x: char) {
    a == "&#" + Zeros(z) + "38;" || ((x == 'x' || x == 'X') && a == "&#" + [x] + Zeros(z) + "26;")
  }

  /** An encoded ampersand and, behind it, what makes it an entity token once decoded. */
  ghost predicate DoublyEncodedAt(s: string, i: nat) {
    i <= |s| && exists a: string, p: Piece :: EncodesAmpersand(a) && IsEntity(p) && Starts(s[i..], a + TailText(p))
  }

  lemma {:induction false} SkipZerosIs(s: string, i: nat, z: nat)
    requires i + z <= |s| && s[i..i + z] == Zeros(z) && (i + z < |s| ==> s[i + z] != '0')
    ensures SkipZeros(s, i) == i + z
    decreases z
  {
    ZerosOnly(z);
    if z > 0 {
      assert s[i] == s[i..i + z][0];
      ZerosOnly(z - 1);
      assert s[i + 1..i + z] == s[i..i + z][1..];
      SkipZerosIs(s, i + 1, z - 1);
    }
  }

  lemma {:induction false} SkipsZeros(s: string, i: nat)
    requires i <= |s|
    ensures s[i..SkipZeros(s, i)] == Zeros(SkipZeros(s, i) - i)
    decreases |s| - i
  {
    if i < |s| && s[i] == '0' {
      SkipsZeros(s, i + 1);
      var j := SkipZeros(s, i);
      ZerosOnly(j - i);
      ZerosOnly(j - i - 1);
      assert s[i..j] == [s[i]] + s[i + 1..j];
    }
  }

  lemma TailOpens(t: string)
    ensures TailLength(t).Some? <==> exists p: Piece :: IsEntity(p) && Starts(t, TailText(p))
  {
    if TailLength(t).Some? {
      var p := TailThere(t);
    }
    if p: Piece :| IsEntity(p) && Starts(t, TailText(p)) {
      assert t == TailText(p) + t[|TailText(p)|..];
      TailIs(p, t[|TailText(p)|..]);
    }
  }

  lemma MiddleOf(a: string, b: string, c: string, d: string)
    ensures
      var s := a + b + c + d;
      && |a| + |b| + |c| <= |s|
      && s[|a|..|a| + |b|] == b && s[|a| + |b|..|a| + |b| + |c|] == c
      && (c != "" ==> s[|a| + |b|] == c[0])
  {
  }

  lemma AmpersandByNumber(s: string, hex: bool)
    requires |s| >= 3 && s[0] == '&' && s[1] == '#' && (hex <==> s[2] == 'x' || s[2] == 'X')
    ensures hex && At(s, "26;", SkipZeros(s, 3)) ==> AmpersandLength(s) == Some(SkipZeros(s, 3) + 3)
    ensures !hex && At(s, "38;", SkipZeros(s, 2)) ==> AmpersandLength(s) == Some(SkipZeros(s, 2) + 3)
  {
    NotAt(s, "&amp;", 0, 1);
    NotAt(s, "&AMP;", 0, 1);
    assert s[0..2] == "&#";
  }

  lemma NumberAmpersand(head: string, z: nat, code: string, rest: string)
    requires (head == "&#" && code == "38;") || (head == "&#x" && code == "26;") || (head == "&#X" && code == "26;")
    ensures AmpersandLength(head + Zeros(z) + code + rest) == Some(|head| + z + 3)
  {
    var s := head + Zeros(z) + code + rest;
    ZerosOnly(z);
    MiddleOf(head, Zeros(z), code, rest);
    SkipZerosIs(s, |head|, z);
    assert s[2] == if |head| == 3 then head[2] else if z > 0 then Zeros(z)[0] else code[0];
    AmpersandByNumber(s, |head| == 3);
  }

  lemma AmpersandIs(a: string, rest: string)
    requires EncodesAmpersand(a)
    ensures AmpersandLength(a + rest) == Some(|a|)
  {
    var s := a + rest;
    if a == "&amp;" || a == "&AMP;" {
      assert s[0..5] == a;
    } else {
      var z: nat, x: char :| AmpersandNumber(a, z, x);
      ZerosOnly(z);
      if a == "&#" + Zeros(z) + "38;" {
        NumberAmpersand("&#", z, "38;", rest);
      } else {
        assert "&#" + [x] == if x == 'x' then "&#x" else "&#X";
        NumberAmpersand("&#" + [x], z, "26;", rest);
      }
    }
  }

  lemma AmpersandThere(s: string)
    requires AmpersandLength(s).Some?
    ensures EncodesAmpersand(s[..AmpersandLength(s).value])
  {
    var a := s[..AmpersandLength(s).value];
    if At(s, "&amp;", 0) || At(s, "&AMP;", 0) {
      assert a == s[0..5];
    } else {
      var hex := |s| > 2 && (s[2] == 'x' || s[2] == 'X');
      var i := if hex then 3 else 2;
      var j := SkipZeros(s, i);
      SkipsZeros(s, i);
      assert s[0..2] == "&#";
      assert a == s[0..2] + s[2..i] + s[i..j] + s[j..j + 3];
      assert hex ==> s[2..i] == [s[2]];
      assert AmpersandNumber(a, j - i, if hex then s[2] else 'x');
    }
  }

  lemma DoubleAtStartMeans(s: string)
    requires DoubleAtStart(s)
    ensures DoublyEncodedAt(s, 0)
  {
    var n := AmpersandLength(s).value;
    AmpersandThere(s);
    TailOpens(s[n..]);
    var p: Piece :| IsEntity(p) && Starts(s[n..], TailText(p));
    assert s[0..] == s;
    StartsBoth(s, n, TailText(p));
  }

  lemma StartsBoth(s: string, n: nat, t: string)
    requires n <= |s| && Starts(s[n..], t)
    ensures Starts(s, s[..n] + t)
  {
    assert s[..n + |t|] == s[..n] + s[n..][..|t|];
  }

  lemma DoubleAtStartFound(s: string, a: string, p: Piece)
    requires EncodesAmpersand(a) && IsEntity(p) && Starts(s, a + TailText(p))
    ensures DoubleAtStart(s)
  {
    var rest := s[|a + TailText(p)|..];
    SplitAfter(s, a + TailText(p));
    assert s == a + (TailText(p) + rest);
    AmpersandIs(a, TailText(p) + rest);
    TailIs(p, rest);
    HeadAndRest(a, TailText(p) + rest);
  }

  lemma DoubleAtStartIff(s: string)
    ensures DoubleAtStart(s) <==> DoublyEncodedAt(s, 0)
  {
    if DoubleAtStart(s) {
      DoubleAtStartMeans(s);
    }
    if DoublyEncodedAt(s, 0) {
      var a: string, p: Piece :| EncodesAmpersand(a) && IsEntity(p) && Starts(s[0..], a + TailText(p));
      assert s[0..] == s;
      DoubleAtStartFound(s, a, p);
    }
  }

  lemma DoublyEncodedShifts(s: string, i: nat)
    requires s != ""
    ensures DoublyEncodedAt(s[1..], i) <==> DoublyEncodedAt(s, i + 1)
  {
    if i + 1 <= |s| {
      assert s[1..][i..] == s[i + 1..];
    }
  }

  /** A title looks double-encoded exactly where an encoded ampersand stands in front of the rest of an entity token. */
  lemma {:induction false} DoubleIff(s: string)
    ensures Double(s) <==> exists i: nat :: DoublyEncodedAt(s, i)
    decreases |s|
  {
    DoubleAtStartIff(s);
    if s != "" {
      DoubleIff(s[1..]);
      if i: nat :| DoublyEncodedAt(s, i) && i > 0 {
        DoublyEncodedShifts(s, i - 1);
      }
      if i: nat :| DoublyEncodedAt(s[1..], i) {
        DoublyEncodedShifts(s, i);
      }
    }
  }

  // ---------------------------------------------------------------- the verdict

  /**
   The verdict on any title, by what it is cut into: a special character standing
   by itself decides first, then a double encoding, then a token other than the
   five canonical ones, then a canonical token.
   */
  lemma VerdictIff(names: map<string, char>, ps: Pieces)
    requires WellCut(ps)
    ensures
      var category := Classify(names, Source(ps)).category;
      var raw := exists c: char :: FiveChar(c) && CharCount(ps, c) > 0;
      var double := exists i: nat :: DoublyEncodedAt(Source(ps), i);
      var other := exists t: string :: !CanonicalToken(t) && TokenCount(ps, t) > 0;
      var canonical := exists t: string :: CanonicalToken(t) && TokenCount(ps, t) > 0;
      && (category == RawFive <==> raw)
      && (category == Ambiguous <==> !raw && double)
      && (category == OtherEntities <==> !raw && !double && other)
      && (category == Canonical <==> !raw && !double && !other && canonical)
      && Classify(names, Source(ps)).double == double
      && (Classify(names, Source(ps)).mixed <==> (raw && (canonical || other)) || (canonical && other))
      && Classify(names, Source(ps)).decodedOnce == Decoded(names, ps)
  {
    DoubleIff(Source(ps));
    DecodeOfPieces(names, ps);
    RawIff(ps);
    TokensIff(ps);
  }

  lemma RawIff(ps: Pieces)
    requires WellCut(ps)
    ensures SignalsOf(Source(ps)).raw != multiset{} <==> exists c: char :: FiveChar(c) && CharCount(ps, c) > 0
  {
    var raw := SignalsOf(Source(ps)).raw;
    forall c: char ensures raw[c] == if FiveChar(c) then CharCount(ps, c) else 0 {
      SignalsOfPieces(ps, c, "");
    }
    if raw != multiset{} {
      var c :| c in raw;
      assert FiveChar(c) && CharCount(ps, c) > 0;
    }
    if c: char :| FiveChar(c) && CharCount(ps, c) > 0 {
      assert raw[c] > 0;
    }
  }

  lemma TokensIff(ps: Pieces)
    requires WellCut(ps)
    ensures SignalsOf(Source(ps)).canonical != multiset{}
            <==> exists t: string :: CanonicalToken(t) && TokenCount(ps, t) > 0
    ensures SignalsOf(Source(ps)).other != multiset{}
            <==> exists t: string :: !CanonicalToken(t) && TokenCount(ps, t) > 0
  {
    var g := SignalsOf(Source(ps));
    forall t: string
      ensures g.canonical[t] == if CanonicalToken(t) then TokenCount(ps, t) else 0
      ensures g.other[t] == if CanonicalToken(t) then 0 else TokenCount(ps, t)
    {
      SignalsOfPieces(ps, '&', t);
    }
    if g.canonical != multiset{} {
      var t :| t in g.canonical;
      assert CanonicalToken(t) && TokenCount(ps, t) > 0;
    }
    if g.other != multiset{} {
      var t :| t in g.other;
      assert !CanonicalToken(t) && TokenCount(ps, t) > 0;
    }
    if t: string :| CanonicalToken(t) && TokenCount(ps, t) > 0 {
      assert g.canonical[t] > 0;
    }
    if t: string :| !CanonicalToken(t) && TokenCount(ps, t) > 0 {
      assert g.other[t] > 0;
    }
  }
}
