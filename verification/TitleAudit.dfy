/**
 Stored titles: the storage escape, one layer of HTML 4 entity decoding, and the
 classifier that tells how a stored title is represented.
 */
module TitleAudit {
  import opened Options
  import opened Text

  predicate IsFive(c: char) { c == '&' || c == '"' || c == '\'' || c == '<' || c == '>' }

  function EscapeChar(c: char): string {
    if c == '&' then "&amp;"
    else if c == '"' then "&quot;"
    else if c == '\'' then "&#39;"
    else if c == '<' then "&lt;"
    else if c == '>' then "&gt;"
    else [c]
  }

  function Escape(s: string): string {
    if s == "" then "" else EscapeChar(s[0]) + Escape(s[1..])
  }

  lemma {:induction false} EscapeAppend(s: string, c: char)
    ensures Escape(s + [c]) == Escape(s) + EscapeChar(c)
    decreases |s|
  {
    if s == "" {
      assert s + [c] == [c] && [c][1..] == "";
    } else {
      assert (s + [c])[1..] == s[1..] + [c];
      EscapeAppend(s[1..], c);
    }
  }

  method CanonicalStorageEscape(value: string) returns (out: string)
    ensures out == Escape(value)
  {
    out := "";
    for i := 0 to |value|
      invariant out == Escape(value[..i])
    {
      EscapeAppend(value[..i], value[i]);
      assert value[..i + 1] == value[..i] + [value[i]];
      out := out + EscapeChar(value[i]);
    }
    assert value[..|value|] == value;
  }

  // ---------------------------------------------------------------- entity tokens

  datatype Kind = Decimal | Hex | Word

  predicate In(c: char, kind: Kind) {
    match kind
    case Decimal => '0' <= c <= '9'
    case Hex => '0' <= c <= '9' || 'a' <= c <= 'f' || 'A' <= c <= 'F'
    case Word => '0' <= c <= '9' || 'a' <= c <= 'z' || 'A' <= c <= 'Z' || c == '_'
  }

  /** The end of the longest run of the kind from `i`. */
  function Span(s: string, i: nat, kind: Kind): (j: nat)
    requires i <= |s|
    ensures i <= j <= |s|
    decreases |s| - i
  {
    if i < |s| && In(s[i], kind) then Span(s, i + 1, kind) else i
  }

  /** The length of a non-empty run of the kind from `i` and its semicolon. */
  function RunLength(s: string, i: nat, kind: Kind): (r: Option<nat>)
    requires i <= |s|
    ensures r.Some? ==> i + 1 < r.value <= |s|
  {
    var j := Span(s, i, kind);
    if i < j < |s| && s[j] == ';' then Some(j + 1) else None
  }

  /** The length of `#x…;`, `#…;` or `name;` at the start of `s`. */
  function TailLength(s: string): (r: Option<nat>)
    ensures r.Some? ==> 1 < r.value <= |s|
  {
    if s != "" && s[0] == '#' then
      if |s| > 1 && (s[1] == 'x' || s[1] == 'X') then RunLength(s, 2, Hex) else RunLength(s, 1, Decimal)
    else RunLength(s, 0, Word)
  }

  /** The length of the entity token at the start of `s`. */
  function EntityLength(s: string): (r: Option<nat>)
    ensures r.Some? ==> 2 < r.value <= |s|
  {
    if s != "" && s[0] == '&' && TailLength(s[1..]).Some? then Some(1 + TailLength(s[1..]).value) else None
  }

  function SkipZeros(s: string, i: nat): (j: nat)
    requires i <= |s|
    ensures i <= j <= |s|
    decreases |s| - i
  {
    if i < |s| && s[i] == '0' then SkipZeros(s, i + 1) else i
  }

  /** The length of an encoded ampersand at the start of `s`: named, decimal or hexadecimal. */
  function AmpersandLength(s: string): (r: Option<nat>)
    ensures r.Some? ==> r.value <= |s|
  {
    if At(s, "&amp;", 0) || At(s, "&AMP;", 0) then Some(5)
    else if At(s, "&#", 0) then
      if |s| > 2 && (s[2] == 'x' || s[2] == 'X') then
        if At(s, "26;", SkipZeros(s, 3)) then Some(SkipZeros(s, 3) + 3) else None
      else if At(s, "38;", SkipZeros(s, 2)) then Some(SkipZeros(s, 2) + 3) else None
    else None
  }

  /** An encoded ampersand directly followed by the rest of an entity token. */
  predicate DoubleAtStart(s: string) {
    AmpersandLength(s).Some? && TailLength(s[AmpersandLength(s).value..]).Some?
  }

  predicate Double(s: string) { s != "" && (DoubleAtStart(s) || Double(s[1..])) }

  /** `s` contains an entity-shaped token. */
  predicate HasEntity(s: string) { s != "" && (EntityLength(s).Some? || HasEntity(s[1..])) }

  // ---------------------------------------------------------------- decoding

  /** A table of named entities; the four names below have their HTML 4 meaning. */
  ghost predicate Html4(names: map<string, char>) {
    && "amp" in names && names["amp"] == '&' && "quot" in names && names["quot"] == '"'
    && "lt" in names && names["lt"] == '<' && "gt" in names && names["gt"] == '>'
  }

  function HexValue(c: char): nat {
    if '0' <= c <= '9' then c as int - '0' as int
    else if 'a' <= c <= 'f' then c as int - 'a' as int + 10
    else if 'A' <= c <= 'F' then c as int - 'A' as int + 10
    else 0
  }

  function Value(digits: string, base: nat): nat {
    if digits == "" then 0 else Value(digits[..|digits| - 1], base) * base + HexValue(digits[|digits| - 1])
  }

  /** A numeric token outside Unicode scalar values and an unknown name stand for themselves. */
  function DecodeToken(names: map<string, char>, token: string): string
    requires |token| > 2
  {
    if token[1] == '#' then
      var hex := token[2] == 'x' || token[2] == 'X';
      var digits := if hex then (if |token| > 3 then token[3..|token| - 1] else "") else token[2..|token| - 1];
      var codepoint := Value(digits, if hex then 16 else 10);
      if codepoint <= 0x10FFFF && !(0xD800 <= codepoint <= 0xDFFF) then [codepoint as char] else token
    else
      var name := token[1..|token| - 1];
      if name in names then [names[name]] else token
  }

  function Decode(names: map<string, char>, s: string): string
    decreases |s|
  {
    if s == "" then ""
    else
      match EntityLength(s)
      case Some(n) => DecodeToken(names, s[..n]) + Decode(names, s[n..])
      case None => [s[0]] + Decode(names, s[1..])
  }

  // ---------------------------------------------------------------- the classifier

  predicate IsCanonical(token: string) {
    token == "&amp;" || token == "&quot;" || token == "&#39;" || token == "&lt;" || token == "&gt;"
  }

  datatype Signals = Signals(raw: multiset<char>, canonical: multiset<string>, other: multiset<string>)

  function AddRaw(g: Signals, c: char): Signals {
    if IsFive(c) then g.(raw := g.raw + multiset{c}) else g
  }

  function AddToken(g: Signals, token: string): Signals {
    if IsCanonical(token) then g.(canonical := g.canonical + multiset{token})
    else g.(other := g.other + multiset{token})
  }

  const NO_SIGNALS := Signals(multiset{}, multiset{}, multiset{})

  /** The five characters outside entity tokens, and the tokens, of `s`. */
  function SignalsOf(s: string): Signals
    decreases |s|
  {
    if s == "" then NO_SIGNALS
    else
      match EntityLength(s)
      case Some(n) => AddToken(SignalsOf(s[n..]), s[..n])
      case None => AddRaw(SignalsOf(s[1..]), s[0])
  }

  datatype Category = Plain | RawFive | Canonical | OtherEntities | Ambiguous

  datatype Classification = Classification(
    category: Category, signals: Signals, double: bool, mixed: bool, decodedOnce: string)

  function CategoryOf(g: Signals, double: bool): Category {
    if g.raw != multiset{} then RawFive
    else if double then Ambiguous
    else if g.other != multiset{} then OtherEntities
    else if g.canonical != multiset{} then Canonical
    else Plain
  }

  function Kinds(g: Signals): nat {
    (if g.raw != multiset{} then 1 else 0) + (if g.canonical != multiset{} then 1 else 0)
    + (if g.other != multiset{} then 1 else 0)
  }

  function Classify(names: map<string, char>, s: string): Classification {
    var g := SignalsOf(s);
    Classification(CategoryOf(g, Double(s)), g, Double(s), Kinds(g) > 1, Decode(names, s))
  }

  /** Signals gathered so far plus those still to come. */
  function Plus(a: Signals, b: Signals): Signals {
    Signals(a.raw + b.raw, a.canonical + b.canonical, a.other + b.other)
  }

  lemma PlusStep(g: Signals, s: string)
    requires s != ""
    ensures
      match EntityLength(s)
      case Some(n) => Plus(g, SignalsOf(s)) == Plus(AddToken(g, s[..n]), SignalsOf(s[n..]))
      case None => Plus(g, SignalsOf(s)) == Plus(AddRaw(g, s[0]), SignalsOf(s[1..]))
  {
    match EntityLength(s)
    case Some(n) => PlusToken(g, s[..n], SignalsOf(s[n..]));
    case None => PlusRaw(g, s[0], SignalsOf(s[1..]));
  }

  lemma PlusToken(g: Signals, token: string, later: Signals)
    ensures Plus(g, AddToken(later, token)) == Plus(AddToken(g, token), later)
  {
    assert g.canonical + (later.canonical + multiset{token}) == (g.canonical + multiset{token}) + later.canonical;
    assert g.other + (later.other + multiset{token}) == (g.other + multiset{token}) + later.other;
  }

  lemma PlusRaw(g: Signals, c: char, later: Signals)
    ensures Plus(g, AddRaw(later, c)) == Plus(AddRaw(g, c), later)
  {
    assert g.raw + (later.raw + multiset{c}) == (g.raw + multiset{c}) + later.raw;
  }

  method ClassifyTitle(names: map<string, char>, value: string) returns (c: Classification)
    ensures c == Classify(names, value)
  {
    var g := CollectSignals(value);
    var double := Double(value);
    return Classification(CategoryOf(g, double), g, double, Kinds(g) > 1, Decode(names, value));
  }

  /** The next token, or the next character, added to `g`. */
  method AddNext(g: Signals, rest: string) returns (next: Signals, step: nat)
    requires rest != ""
    ensures 0 < step <= |rest| && Plus(next, SignalsOf(rest[step..])) == Plus(g, SignalsOf(rest))
  {
    PlusStep(g, rest);
    var entity := EntityLength(rest);
    if entity.Some? {
      next, step := AddToken(g, rest[..entity.value]), entity.value;
    } else {
      next, step := AddRaw(g, rest[0]), 1;
    }
  }

  /** Signals of the whole value, gathered token by token and character by character. */
  method CollectSignals(value: string) returns (g: Signals)
    ensures g == SignalsOf(value)
  {
    g := NO_SIGNALS;
    var position := 0;
    assert value[0..] == value;
    while position < |value|
      invariant position <= |value|
      invariant Plus(g, SignalsOf(value[position..])) == SignalsOf(value)
      decreases |value| - position
    {
      var step;
      g, step := AddNext(g, value[position..]);
      assert value[position..][step..] == value[position + step..];
      position := position + step;
    }
    assert value[position..] == "";
    assert Plus(g, NO_SIGNALS) == g;
  }

  // ---------------------------------------------------------------- escaped titles

  lemma {:induction false} SpanIs(s: string, i: nat, j: nat, kind: Kind)
    requires i <= j <= |s| && (j < |s| ==> !In(s[j], kind))
    requires forall k :: i <= k < j ==> In(s[k], kind)
    ensures Span(s, i, kind) == j
    decreases j - i
  {
    if i < j {
      SpanIs(s, i + 1, j, kind);
    }
  }

  /** An escaped special character is one canonical token, and decodes to itself. */
  lemma EscapedIsOneToken(c: char, tail: string, names: map<string, char>)
    requires IsFive(c) && Html4(names)
    ensures EntityLength(EscapeChar(c) + tail) == Some(|EscapeChar(c)|)
    ensures IsCanonical(EscapeChar(c)) && DecodeToken(names, EscapeChar(c)) == [c]
  {
    var e := EscapeChar(c);
    var s := (e + tail)[1..];
    assert forall k :: 0 <= k < |e| - 1 ==> s[k] == e[k + 1];
    if c == '\'' {
      SpanIs(s, 1, 3, Decimal);
      assert e[2..|e| - 1] == "39";
      assert "39"[..1] == "3" && "3"[..0] == "";
      assert Value("3", 10) == 3 && Value("39", 10) == 39;
    } else {
      SpanIs(s, 0, |e| - 2, Word);
      assert e[1..|e| - 1] == if c == '&' then "amp" else if c == '"' then "quot" else if c == '<' then "lt" else "gt";
    }
  }

  /** One-layer decoding undoes the storage escape. */
  lemma {:induction false} DecodeEscape(names: map<string, char>, s: string)
    requires Html4(names)
    ensures Decode(names, Escape(s)) == s
    decreases |s|
  {
    if s != "" {
      var e := EscapeChar(s[0]);
      DecodeEscape(names, s[1..]);
      assert s == [s[0]] + s[1..];
      if IsFive(s[0]) {
        EscapedIsOneToken(s[0], Escape(s[1..]), names);
      }
      assert Escape(s)[..|e|] == e && Escape(s)[|e|..] == Escape(s[1..]);
    }
  }

  lemma SignalsOfEscapedHead(names: map<string, char>, s: string)
    requires Html4(names) && s != ""
    ensures
      var later := SignalsOf(Escape(s[1..]));
      SignalsOf(Escape(s)) == if IsFive(s[0]) then later.(canonical := later.canonical + multiset{EscapeChar(s[0])}) else later
  {
    var e := EscapeChar(s[0]);
    assert Escape(s)[..|e|] == e && Escape(s)[|e|..] == Escape(s[1..]);
    if IsFive(s[0]) {
      EscapedIsOneToken(s[0], Escape(s[1..]), names);
    }
  }

  lemma EscapeCharInjective(c: char, d: char)
    requires EscapeChar(c) == EscapeChar(d)
    ensures c == d
  {
    assert IsFive(c) ==> |EscapeChar(c)| > 1;
    assert IsFive(d) ==> |EscapeChar(d)| > 1;
  }

  /** The classifier sees in an escape only canonical tokens, as many of each as there were characters. */
  lemma {:induction false} SignalsOfEscape(names: map<string, char>, s: string, c: char)
    requires Html4(names) && IsFive(c)
    ensures SignalsOf(Escape(s)).raw == multiset{} && SignalsOf(Escape(s)).other == multiset{}
    ensures SignalsOf(Escape(s)).canonical[EscapeChar(c)] == multiset(s)[c]
    decreases |s|
  {
    if s != "" {
      SignalsOfEscape(names, s[1..], c);
      var later := SignalsOf(Escape(s[1..]));
      SignalsOfEscapedHead(names, s);
      CountHead(s, c);
      CountToken(later.canonical, s[0], c);
    }
  }

  lemma CountHead(s: string, c: char)
    requires s != ""
    ensures multiset(s)[c] == multiset(s[1..])[c] + (if s[0] == c then 1 else 0)
  {
    assert s == [s[0]] + s[1..];
  }

  lemma CountToken(tokens: multiset<string>, head: char, c: char)
    ensures (tokens + multiset{EscapeChar(head)})[EscapeChar(c)]
         == tokens[EscapeChar(c)] + (if head == c then 1 else 0)
  {
    if EscapeChar(c) == EscapeChar(head) {
      EscapeCharInjective(c, head);
    }
  }

  lemma {:induction false} CanonicalOfEscape(names: map<string, char>, s: string)
    requires Html4(names)
    ensures SignalsOf(Escape(s)).canonical == multiset{} <==> forall i :: 0 <= i < |s| ==> !IsFive(s[i])
    decreases |s|
  {
    if s != "" {
      CanonicalOfEscape(names, s[1..]);
      SignalsOfEscapedHead(names, s);
      if IsFive(s[0]) {
        assert EscapeChar(s[0]) in SignalsOf(Escape(s)).canonical;
      } else {
        assert forall i :: 0 < i < |s| ==> s[i] == s[1..][i - 1];
        assert forall i :: 0 <= i < |s| - 1 ==> s[1..][i] == s[i + 1];
      }
    }
  }

  /** The length of the longest prefix without the five characters. */
  function FreePrefix(s: string): (k: nat)
    ensures k <= |s| && (k < |s| ==> IsFive(s[k]))
    ensures forall i :: 0 <= i < k ==> !IsFive(s[i])
  {
    if s == "" || IsFive(s[0]) then 0 else 1 + FreePrefix(s[1..])
  }

  lemma {:induction false} EscapeKeepsFreePrefix(s: string)
    ensures
      var k := FreePrefix(s);
      |Escape(s)| >= k && Escape(s)[..k] == s[..k] && (k < |Escape(s)| ==> Escape(s)[k] == '&')
    decreases |s|
  {
    if s != "" && !IsFive(s[0]) {
      EscapeKeepsFreePrefix(s[1..]);
      assert Escape(s) == [s[0]] + Escape(s[1..]);
    }
  }

  lemma {:induction false} SpanSame(a: string, b: string, k: nat, i: nat, kind: Kind)
    requires k <= |a| && k <= |b| && a[..k] == b[..k] && i <= k
    requires (k < |a| ==> IsFive(a[k])) && (k < |b| ==> IsFive(b[k]))
    ensures Span(a, i, kind) == Span(b, i, kind) <= k
    decreases k - i
  {
    if i < k {
      assert a[i] == a[..k][i] && b[i] == b[..k][i];
      SpanSame(a, b, k, i + 1, kind);
    }
  }

  lemma RunSame(a: string, b: string, k: nat, i: nat, kind: Kind)
    requires k <= |a| && k <= |b| && a[..k] == b[..k] && i <= k
    requires (k < |a| ==> IsFive(a[k])) && (k < |b| ==> IsFive(b[k]))
    ensures RunLength(a, i, kind).Some? <==> RunLength(b, i, kind).Some?
  {
    SpanSame(a, b, k, i, kind);
    var j := Span(a, i, kind);
    assert j < k ==> a[j] == a[..k][j] && b[j] == b[..k][j];
  }

  /** Texts that agree up to the first of the five characters have entity tails alike. */
  lemma TailSame(a: string, b: string, k: nat)
    requires k <= |a| && k <= |b| && a[..k] == b[..k]
    requires (k < |a| ==> IsFive(a[k])) && (k < |b| ==> IsFive(b[k]))
    ensures TailLength(a).Some? <==> TailLength(b).Some?
  {
    assert k > 0 ==> a[0] == a[..k][0] && b[0] == b[..k][0];
    assert k > 1 ==> a[1] == a[..k][1] && b[1] == b[..k][1];
    RunSame(a, b, k, 0, Word);
    if k >= 1 {
      RunSame(a, b, k, 1, Decimal);
    }
    if k >= 2 {
      RunSame(a, b, k, 2, Hex);
    }
  }

  /** Escaping does not change whether the rest of an entity token follows. */
  lemma TailOfEscape(s: string)
    ensures TailLength(Escape(s)).Some? <==> TailLength(s).Some?
  {
    EscapeKeepsFreePrefix(s);
    TailSame(Escape(s), s, FreePrefix(s));
  }

  lemma {:induction false} DoubleBehind(e: string, tail: string)
    requires forall i :: 0 <= i < |e| ==> e[i] != '&'
    ensures Double(e + tail) <==> Double(tail)
    decreases |e|
  {
    if e == "" {
      assert e + tail == tail;
    } else {
      assert (e + tail)[1..] == e[1..] + tail;
      DoubleBehind(e[1..], tail);
      NotAt(e + tail, "&amp;", 0, 0);
      NotAt(e + tail, "&AMP;", 0, 0);
      NotAt(e + tail, "&#", 0, 0);
    }
  }

  /** Only an escaped ampersand can start a double encoding, and only in front of an entity tail. */
  lemma DoubleAtEscapedChar(c: char, tail: string)
    requires IsFive(c)
    ensures DoubleAtStart(EscapeChar(c) + tail) <==> c == '&' && TailLength(tail).Some?
  {
    var e := EscapeChar(c);
    var s := e + tail;
    assert s[0] == '&' && forall k :: 0 <= k < |e| ==> s[k] == e[k];
    if c == '&' {
      assert s[0..5] == "&amp;" && s[5..] == tail;
    } else {
      NotAt(s, "&amp;", 0, 1);
      NotAt(s, "&AMP;", 0, 1);
      if c == '\'' {
        NotAt(s, "38;", 2, 1);
      } else {
        NotAt(s, "&#", 0, 1);
      }
    }
  }

  lemma DoubleOfChar(c: char, tail: string)
    ensures Double(EscapeChar(c) + tail) <==> (c == '&' && TailLength(tail).Some?) || Double(tail)
  {
    var e := EscapeChar(c);
    if IsFive(c) {
      DoubleAtEscapedChar(c, tail);
      assert (e + tail)[1..] == e[1..] + tail;
      DoubleBehind(e[1..], tail);
    } else {
      DoubleBehind(e, tail);
    }
  }

  /** The escape looks double-encoded exactly when the original contains an entity-shaped token. */
  lemma {:induction false} DoubleOfEscape(s: string)
    ensures Double(Escape(s)) <==> HasEntity(s)
    decreases |s|
  {
    if s != "" {
      DoubleOfEscape(s[1..]);
      TailOfEscape(s[1..]);
      DoubleOfChar(s[0], Escape(s[1..]));
    }
  }

  /**
   What the audit reports about a correctly stored title: never raw and never
   "other", ambiguous exactly when the title itself contains something shaped
   like an entity, otherwise canonical exactly when it contains one of the five
   characters, otherwise plain; and decoding once gives the title.
   */
  lemma StoredTitleVerdict(names: map<string, char>, s: string)
    requires Html4(names)
    ensures
      var c := Classify(names, Escape(s));
      && c.category == (if HasEntity(s) then Ambiguous
                        else if exists i :: 0 <= i < |s| && IsFive(s[i]) then Canonical else Plain)
      && !c.mixed && c.decodedOnce == s
  {
    SignalsOfEscape(names, s, '&');
    CanonicalOfEscape(names, s);
    DoubleOfEscape(s);
    DecodeEscape(names, s);
  }

  lemma CleanToken(names: map<string, char>, v: string, n: nat)
    requires Html4(names) && EntityLength(v) == Some(n) && SignalsOf(v).other == multiset{}
    ensures SignalsOf(v[n..]).other == multiset{} && SignalsOf(v[n..]).raw == SignalsOf(v).raw
    ensures Escape(Decode(names, v[n..])) == v[n..] ==> Escape(Decode(names, v)) == v
  {
    var token := v[..n];
    assert token in (multiset{token} + SignalsOf(v[n..]).other);
    assert IsCanonical(token);
    var c := CharOf(token);
    EscapedIsOneToken(c, "", names);
    assert ([c] + Decode(names, v[n..]))[1..] == Decode(names, v[n..]);
    assert v == token + v[n..];
  }

  /** The character a canonical token stands for. */
  function CharOf(token: string): (c: char)
    requires IsCanonical(token)
    ensures IsFive(c) && EscapeChar(c) == token
  {
    if token == "&amp;" then '&' else if token == "&quot;" then '"' else if token == "&#39;" then '\''
    else if token == "&lt;" then '<' else '>'
  }

  lemma CleanChar(names: map<string, char>, v: string)
    requires v != "" && EntityLength(v).None? && SignalsOf(v).raw == multiset{}
    ensures SignalsOf(v[1..]).raw == multiset{} && SignalsOf(v[1..]).other == SignalsOf(v).other
    ensures Escape(Decode(names, v[1..])) == v[1..] ==> Escape(Decode(names, v)) == v
  {
    assert v[0] in (multiset{v[0]} + SignalsOf(v[1..]).raw);
    assert !IsFive(v[0]);
    assert ([v[0]] + Decode(names, v[1..]))[1..] == Decode(names, v[1..]);
    assert v == [v[0]] + v[1..];
  }

  /**
   A value without raw and "other" signals is the escape of what it decodes to,
   so those two signals are empty exactly for correctly stored titles.
   */
  lemma {:induction false} CleanIsStored(names: map<string, char>, v: string)
    requires Html4(names) && SignalsOf(v).raw == multiset{} && SignalsOf(v).other == multiset{}
    ensures Escape(Decode(names, v)) == v
    decreases |v|
  {
    if v != "" {
      match EntityLength(v)
      case Some(n) =>
        CleanToken(names, v, n);
        CleanIsStored(names, v[n..]);
      case None =>
        CleanChar(names, v);
        CleanIsStored(names, v[1..]);
    }
  }

  lemma CleanIffStored(names: map<string, char>, v: string)
    requires Html4(names)
    ensures SignalsOf(v).raw == multiset{} && SignalsOf(v).other == multiset{} <==> exists s: string :: Escape(s) == v
  {
    if SignalsOf(v).raw == multiset{} && SignalsOf(v).other == multiset{} {
      CleanIsStored(names, v);
    }
    if s: string :| Escape(s) == v {
      SignalsOfEscape(names, s, '&');
    }
  }
}
