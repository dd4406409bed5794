/** Servlet request parameters, and the adapter that folds a POST form into the query. */
module FormMerge {
  // Pairs are parsed and printed in the form encoding (section 5 of the URL Standard).

  import opened Options
  import opened Text
  import opened Lists
  import opened Bytes

  const AMP: byte := 0x26
  const EQ: byte := 0x3D

  // ---------------------------------------------------------------- lossy decoding

  const REPLACEMENT: seq<byte> := [0xEF, 0xBF, 0xBD]

  /** The length of the ill-formed stretch at the start of `s` that one replacement character stands for. */
  function BadLength(s: seq<byte>): (n: nat)
    requires s != []
    ensures 1 <= n <= |s|
  {
    if Between(s[0], 0xE0, 0xF4) && |s| >= 2 && Continuation(s[1])
       && (s[0] == 0xE0 ==> s[1] >= 0xA0) && (s[0] == 0xED ==> s[1] <= 0x9F)
       && (s[0] == 0xF0 ==> s[1] >= 0x90) && (s[0] == 0xF4 ==> s[1] <= 0x8F)
    then if s[0] >= 0xF0 && |s| >= 3 && Continuation(s[2]) then 3 else 2
    else 1
  }

  /** Text with every ill-formed stretch replaced. */
  function Lossy(s: seq<byte>): seq<byte>
    decreases |s|
  {
    var n := SequenceLength(s);
    if s == [] then []
    else if n > 0 then s[..n] + Lossy(s[n..])
    else REPLACEMENT + Lossy(s[BadLength(s)..])
  }

  lemma SequenceLengthPrefix(s: seq<byte>, rest: seq<byte>)
    requires SequenceLength(s) > 0
    ensures SequenceLength(s[..SequenceLength(s)] + rest) == SequenceLength(s)
  {
  }

  lemma Utf8Prepend(s: seq<byte>, rest: seq<byte>)
    requires SequenceLength(s) > 0 && IsUtf8(rest)
    ensures IsUtf8(s[..SequenceLength(s)] + rest)
  {
    var n := SequenceLength(s);
    SequenceLengthPrefix(s, rest);
    assert (s[..n] + rest)[n..] == rest;
  }

  lemma {:induction false} LossyIsUtf8(s: seq<byte>)
    ensures IsUtf8(Lossy(s))
    decreases |s|
  {
    if s != [] {
      var n := SequenceLength(s);
      if n > 0 {
        LossyIsUtf8(s[n..]);
        Utf8Prepend(s, Lossy(s[n..]));
      } else {
        LossyIsUtf8(s[BadLength(s)..]);
        assert SequenceLength(REPLACEMENT) == 3 && REPLACEMENT[..3] == REPLACEMENT;
        Utf8Prepend(REPLACEMENT, Lossy(s[BadLength(s)..]));
      }
    }
  }

  lemma {:induction false} LossyKeepsText(s: seq<byte>)
    requires IsUtf8(s)
    ensures Lossy(s) == s
    decreases |s|
  {
    if s != [] {
      var n := SequenceLength(s);
      LossyKeepsText(s[n..]);
      assert s == s[..n] + s[n..];
    }
  }

  /** Lossy decoding always gives text, and leaves exactly the texts as they are. */
  lemma LossyIsText(s: seq<byte>)
    ensures IsUtf8(Lossy(s))
    ensures Lossy(s) == s <==> IsUtf8(s)
  {
    LossyIsUtf8(s);
    if IsUtf8(s) {
      LossyKeepsText(s);
    }
  }

  /** `s` is cut off inside a well-formed sequence: more bytes could complete it. */
  ghost predicate Unfinished(s: seq<byte>) {
    s != [] && exists t: seq<byte> :: SequenceLength(s + t) > |s|
  }

  /** One replacement character stands for the longest unfinished start, or for a single byte. */
  lemma BadLengthMeans(s: seq<byte>, n: nat)
    requires s != [] && SequenceLength(s) == 0 && 1 <= n <= |s|
    ensures n <= BadLength(s) <==> n == 1 || Unfinished(s[..n])
  {
    if 1 < n <= BadLength(s) {
      BadIsUnfinished(s, n);
    }
    if n > 1 && Unfinished(s[..n]) {
      var t: seq<byte> :| SequenceLength(s[..n] + t) > n;
      UnfinishedIsBad(s, n, s[..n] + t);
    }
  }

  lemma BadIsUnfinished(s: seq<byte>, n: nat)
    requires s != [] && SequenceLength(s) == 0 && 1 < n <= BadLength(s)
    ensures Unfinished(s[..n])
  {
    var t: seq<byte> := if s[0] < 0xF0 || n == 3 then [0x80] else [0x80, 0x80];
    var whole := s[..n] + t;
    assert whole[0] == s[0] && whole[1] == s[1] && (n == 3 ==> whole[2] == s[2]);
    assert SequenceLength(whole) > n;
  }

  lemma UnfinishedIsBad(s: seq<byte>, n: nat, whole: seq<byte>)
    requires s != [] && SequenceLength(s) == 0 && 1 < n <= |s| && n < |whole|
    requires forall i :: 0 <= i < n ==> whole[i] == s[i]
    requires SequenceLength(whole) > n
    ensures n <= BadLength(s)
  {
  }

  // ---------------------------------------------------------------- parsing

  datatype Pair = Pair(name: seq<byte>, value: seq<byte>)

  function Decode(s: seq<byte>): seq<byte> { Lossy(PercentDecode(PlusToSpace(s))) }

  /** The position of the first '=', or the length. */
  function FirstEq(s: seq<byte>): (k: nat)
    ensures k <= |s|
  {
    if s == [] || s[0] == EQ then 0 else 1 + FirstEq(s[1..])
  }

  function ParsePair(piece: seq<byte>): Pair {
    var k := FirstEq(piece);
    Pair(Decode(piece[..k]), if k < |piece| then Decode(piece[k + 1..]) else [])
  }

  /** The pairs of the non-empty pieces. */
  function ParsePieces(pieces: seq<seq<byte>>): seq<Pair> {
    if pieces == [] then []
    else (if pieces[0] == [] then [] else [ParsePair(pieces[0])]) + ParsePieces(pieces[1..])
  }

  function ParsePairs(s: seq<byte>): seq<Pair> { ParsePieces(Split(s, AMP)) }

  // ---------------------------------------------------------------- printing

  /** The bytes the form encoding leaves alone: letters, digits and "*-._". */
  predicate Plain(b: byte) {
    || Between(b, 0x30, 0x39) || Between(b, 0x41, 0x5A) || Between(b, 0x61, 0x7A)
    || b == 0x2A || b == 0x2D || b == 0x2E || b == 0x5F
  }

  function EncodeByte(b: byte): seq<byte> {
    if Plain(b) then [b] else if b == SPACE then [PLUS] else Triple(b)
  }

  /** A letter, a digit or one of "*-._" stands for itself, a space is '+', any other byte an upper-case triple. */
  lemma EncodedByte(b: byte)
    ensures
      var c := b as int;
      var stays := '0' as int <= c <= '9' as int || 'A' as int <= c <= 'Z' as int || 'a' as int <= c <= 'z' as int
                   || c == '*' as int || c == '-' as int || c == '.' as int || c == '_' as int;
      && (stays ==> EncodeByte(b) == [b])
      && (c == ' ' as int ==> EncodeByte(b) == ['+' as int as byte])
      && (!stays && c != ' ' as int ==> EncodeByte(b) == UnitText(Escape(b, false, false)))
  {
  }

  function Encode(s: seq<byte>): seq<byte> {
    if s == [] then [] else EncodeByte(s[0]) + Encode(s[1..])
  }

  function PrintPair(p: Pair): seq<byte> { Encode(p.name) + [EQ] + Encode(p.value) }

  function PrintAll(pairs: seq<Pair>): seq<seq<byte>> {
    if pairs == [] then [] else [PrintPair(pairs[0])] + PrintAll(pairs[1..])
  }

  function Print(pairs: seq<Pair>): seq<byte> { Join(PrintAll(pairs), AMP) }

  // ---------------------------------------------------------------- round trip

  lemma DecodeByte(b: byte, rest: seq<byte>)
    ensures PercentDecode(PlusToSpace(EncodeByte(b) + rest)) == [b] + PercentDecode(PlusToSpace(rest))
  {
    PlusToSpaceAppend(EncodeByte(b), rest);
    if Plain(b) {
      PlusToSpaceNoPlus([b]);
      DecodeLiteral(b, PlusToSpace(rest));
    } else if b == SPACE {
      assert PlusToSpace([PLUS]) == [SPACE] + PlusToSpace([PLUS][1..]);
      DecodeLiteral(SPACE, PlusToSpace(rest));
    } else {
      HexInverse(b);
      PlusToSpaceNoPlus(Triple(b));
      DecodeTriple(b, PlusToSpace(rest));
    }
  }

  lemma {:induction false} DecodeEncoded(s: seq<byte>)
    ensures PercentDecode(PlusToSpace(Encode(s))) == s
    decreases |s|
  {
    if s != [] {
      DecodeEncoded(s[1..]);
      DecodeByte(s[0], Encode(s[1..]));
    }
  }

  lemma HexIsPlain(b: byte)
    ensures Plain(HexDigit(High(b), 0x37)) && Plain(HexDigit(Low(b), 0x37))
  {
    NibbleBounds(b);
  }

  /** Neither separator appears in encoded text. */
  lemma {:induction false} EncodedHasNoSeparators(s: seq<byte>)
    ensures AMP !in Encode(s) && EQ !in Encode(s)
    decreases |s|
  {
    if s != [] {
      EncodedHasNoSeparators(s[1..]);
      HexIsPlain(s[0]);
    }
  }

  lemma {:induction false} FirstEqAt(head: seq<byte>, tail: seq<byte>)
    requires EQ !in head
    ensures FirstEq(head + [EQ] + tail) == |head|
    decreases |head|
  {
    var s := head + [EQ] + tail;
    if head != [] {
      FirstEqAt(head[1..], tail);
      assert s[1..] == head[1..] + [EQ] + tail && s[0] == head[0];
    }
  }

  predicate IsTextPair(p: Pair) { IsUtf8(p.name) && IsUtf8(p.value) }

  lemma ParsePrintedPair(p: Pair)
    requires IsTextPair(p)
    ensures ParsePair(PrintPair(p)) == p && AMP !in PrintPair(p) && PrintPair(p) != []
  {
    var name, value := Encode(p.name), Encode(p.value);
    EncodedHasNoSeparators(p.name);
    EncodedHasNoSeparators(p.value);
    FirstEqAt(name, value);
    DecodeEncoded(p.name);
    DecodeEncoded(p.value);
    LossyIsText(p.name);
    LossyIsText(p.value);
    var s := PrintPair(p);
    assert s[..|name|] == name && s[|name| + 1..] == value;
  }

  predicate AllText(pairs: seq<Pair>) {
    pairs == [] || (IsTextPair(pairs[0]) && AllText(pairs[1..]))
  }

  lemma {:induction false} ParsePrintedPieces(pairs: seq<Pair>)
    requires AllText(pairs)
    ensures ParsePieces(PrintAll(pairs)) == pairs
    ensures forall i :: 0 <= i < |PrintAll(pairs)| ==> AMP !in PrintAll(pairs)[i]
    ensures |PrintAll(pairs)| == |pairs|
    decreases |pairs|
  {
    if pairs != [] {
      ParsePrintedPieces(pairs[1..]);
      ParsePrintedPair(pairs[0]);
      var rest := PrintAll(pairs[1..]);
      assert ([PrintPair(pairs[0])] + rest)[1..] == rest;
    }
  }

  /** Printed pairs parse back, whatever text they hold. */
  lemma PrintThenParse(pairs: seq<Pair>)
    requires AllText(pairs)
    ensures ParsePairs(Print(pairs)) == pairs
  {
    ParsePrintedPieces(pairs);
    if pairs == [] {
      var none: seq<byte> := [];
      var pieces: seq<seq<byte>> := [none];
      assert Split(none, AMP) == pieces && pieces[1..] == [];
    } else {
      SplitJoin(PrintAll(pairs), AMP);
    }
  }

  lemma {:induction false} ParsedIsText(pieces: seq<seq<byte>>)
    ensures AllText(ParsePieces(pieces))
    decreases |pieces|
  {
    if pieces != [] {
      ParsedIsText(pieces[1..]);
      if pieces[0] != [] {
        var p := ParsePair(pieces[0]);
        var k := FirstEq(pieces[0]);
        LossyIsText(PercentDecode(PlusToSpace(pieces[0][..k])));
        if k < |pieces[0]| {
          LossyIsText(PercentDecode(PlusToSpace(pieces[0][k + 1..])));
        }
        assert IsTextPair(p);
        assert ([p] + ParsePieces(pieces[1..]))[1..] == ParsePieces(pieces[1..]);
      } else {
        assert ParsePieces(pieces) == ParsePieces(pieces[1..]);
      }
    }
  }

  // ---------------------------------------------------------------- any query, by a grammar of its own

  /** The bytes units stand for in a form, where a plain '+' is a space. */
  function Spaced(us: Units): seq<byte> {
    match us
    case NoUnits => []
    case Units(u, rest) => [if u == Unit.Plain(PLUS) then SPACE else UnitValue(u)] + Spaced(rest)
  }

  function WithSpaces(us: Units): Units {
    match us
    case NoUnits => NoUnits
    case Units(u, rest) => Units(if u == Unit.Plain(PLUS) then Unit.Plain(SPACE) else u, WithSpaces(rest))
  }

  lemma {:induction false} PlusToSpaceAt(s: seq<byte>)
    ensures |PlusToSpace(s)| == |s|
    ensures forall i :: 0 <= i < |s| ==> PlusToSpace(s)[i] == if s[i] == PLUS then SPACE else s[i]
    decreases |s|
  {
    if s != [] {
      PlusToSpaceAt(s[1..]);
    }
  }

  lemma EscapeHasNoPlus(u: Unit)
    requires u.Escape?
    ensures PlusToSpace(UnitText(u)) == UnitText(u)
  {
    NibbleBounds(u.value);
    HexDigitIsHex(High(u.value), u.smallHigh);
    HexDigitIsHex(Low(u.value), u.smallLow);
    PlusToSpaceNoPlus(UnitText(u));
  }

  lemma {:induction false} SpacesSpelled(us: Units)
    requires WellSpelled(us)
    ensures UnitsText(WithSpaces(us)) == PlusToSpace(UnitsText(us)) && WellSpelled(WithSpaces(us))
    ensures UnitsValue(WithSpaces(us)) == Spaced(us)
    decreases us
  {
    if us.Units? {
      SpacesSpelled(us.rest);
      PlusToSpaceAppend(UnitText(us.first), UnitsText(us.rest));
      PlusToSpaceAt(UnitsText(us.rest));
      if us.first.Escape? {
        EscapeHasNoPlus(us.first);
      } else {
        PlusToSpaceAt([us.first.b]);
      }
    }
  }

  /** However a text is spelled, form decoding gives its bytes, with well-formed UTF-8 enforced. */
  lemma DecodeUnits(us: Units)
    requires WellSpelled(us)
    ensures Decode(UnitsText(us)) == Lossy(Spaced(us))
  {
    SpacesSpelled(us);
    UnitsDecode(WithSpaces(us));
  }

  /** What stands between two '&': nothing, a name, or a name, '=' and a value. */
  datatype Field = Field(name: Units, value: Option<Units>)

  function FieldText(f: Field): seq<byte> {
    UnitsText(f.name) + if f.value.Some? then [EQ] + UnitsText(f.value.value) else []
  }

  predicate IsField(f: Field) {
    && WellSpelled(f.name) && EQ !in UnitsText(f.name)
    && (f.value.Some? ==> WellSpelled(f.value.value)) && AMP !in FieldText(f)
  }

  predicate AllFields(fs: seq<Field>) {
    fs == [] || (IsField(fs[0]) && AllFields(fs[1..]))
  }

  function FieldTexts(fs: seq<Field>): seq<seq<byte>> {
    if fs == [] then [] else [FieldText(fs[0])] + FieldTexts(fs[1..])
  }

  /** The pairs of the fields that are not empty; a missing value is an empty one. */
  function FieldPairs(fs: seq<Field>): seq<Pair> {
    if fs == [] then []
    else
      (if fs[0] == Field(NoUnits, None) then []
       else [Pair(Lossy(Spaced(fs[0].name)), if fs[0].value.Some? then Lossy(Spaced(fs[0].value.value)) else [])])
      + FieldPairs(fs[1..])
  }

  lemma {:induction false} NoEq(s: seq<byte>)
    requires EQ !in s
    ensures FirstEq(s) == |s|
    decreases |s|
  {
    if s != [] {
      NoEq(s[1..]);
    }
  }

  lemma ParseField(f: Field)
    requires IsField(f)
    ensures ParsePair(FieldText(f))
            == Pair(Lossy(Spaced(f.name)), if f.value.Some? then Lossy(Spaced(f.value.value)) else [])
    ensures FieldText(f) == [] <==> f == Field(NoUnits, None)
  {
    var name := UnitsText(f.name);
    DecodeUnits(f.name);
    if f.value.Some? {
      var value := UnitsText(f.value.value);
      DecodeUnits(f.value.value);
      assert FieldText(f) == name + [EQ] + value;
      FirstEqAt(name, value);
      assert FieldText(f)[..|name|] == name && FieldText(f)[|name| + 1..] == value;
    } else {
      assert FieldText(f) == name && name[..|name|] == name;
      NoEq(name);
      assert f.name.Units? ==> UnitText(f.name.first) != [];
    }
  }

  lemma {:induction false} ParseFieldTexts(fs: seq<Field>)
    requires AllFields(fs)
    ensures ParsePieces(FieldTexts(fs)) == FieldPairs(fs) && |FieldTexts(fs)| == |fs|
    ensures forall i :: 0 <= i < |fs| ==> AMP !in FieldTexts(fs)[i]
    decreases |fs|
  {
    if fs != [] {
      ParseField(fs[0]);
      ParseFieldTexts(fs[1..]);
      assert FieldTexts(fs)[1..] == FieldTexts(fs[1..]);
    }
  }

  /** However a query is cut into fields, its pairs are those of the fields, in order. */
  lemma ParseFields(fs: seq<Field>)
    requires fs != [] && AllFields(fs)
    ensures ParsePairs(Join(FieldTexts(fs), AMP)) == FieldPairs(fs)
  {
    ParseFieldTexts(fs);
    SplitJoin(FieldTexts(fs), AMP);
  }

  lemma {:induction false} FirstEqThere(s: seq<byte>)
    ensures EQ !in s[..FirstEq(s)] && (FirstEq(s) < |s| ==> s[FirstEq(s)] == EQ)
    decreases |s|
  {
    if s != [] && s[0] != EQ {
      FirstEqThere(s[1..]);
      assert s[..FirstEq(s)] == [s[0]] + s[1..][..FirstEq(s) - 1];
    }
  }

  lemma NameThere(s: seq<byte>) returns (f: Field)
    requires AMP !in s && EQ !in s
    ensures IsField(f) && FieldText(f) == s
  {
    var name := EveryTextIsSpelled(s);
    f := Field(name, None);
    assert UnitsText(name) + [] == s;
  }

  lemma NameAndValueThere(head: seq<byte>, tail: seq<byte>) returns (f: Field)
    requires AMP !in head && EQ !in head && AMP !in tail
    ensures IsField(f) && FieldText(f) == head + ([EQ] + tail)
  {
    var name := EveryTextIsSpelled(head);
    var value := EveryTextIsSpelled(tail);
    f := Field(name, Some(value));
  }

  lemma FieldThere(s: seq<byte>) returns (f: Field)
    requires AMP !in s
    ensures IsField(f) && FieldText(f) == s
  {
    var k := FirstEq(s);
    FirstEqThere(s);
    if k < |s| {
      Around(s, k, AMP);
      f := NameAndValueThere(s[..k], s[k + 1..]);
    } else {
      assert s[..k] == s;
      f := NameThere(s);
    }
  }

  lemma {:induction false} FieldsThere(pieces: seq<seq<byte>>) returns (fs: seq<Field>)
    requires forall i :: 0 <= i < |pieces| ==> AMP !in pieces[i]
    ensures FieldTexts(fs) == pieces && |fs| == |pieces| && AllFields(fs)
    decreases |pieces|
  {
    if pieces == [] {
      return [];
    }
    var f := FieldThere(pieces[0]);
    var rest := FieldsThere(pieces[1..]);
    fs := OneMoreField(f, rest);
  }

  lemma OneMoreField(f: Field, rest: seq<Field>) returns (fs: seq<Field>)
    requires IsField(f) && AllFields(rest)
    ensures fs == [f] + rest && AllFields(fs) && FieldTexts(fs) == [FieldText(f)] + FieldTexts(rest)
  {
    fs := [f] + rest;
    assert fs[1..] == rest;
  }

  /** Every query can be cut so. */
  lemma EveryQueryIsFields(s: seq<byte>) returns (fs: seq<Field>)
    ensures fs != [] && Join(FieldTexts(fs), AMP) == s && AllFields(fs)
  {
    JoinSplit(s, AMP);
    fs := FieldsThere(Split(s, AMP));
  }

  // ---------------------------------------------------------------- first values

  /** The first value given to `name`. */
  function Get(pairs: seq<Pair>, name: seq<byte>): Option<seq<byte>> {
    if pairs == [] then None
    else if pairs[0].name == name then Some(pairs[0].value)
    else Get(pairs[1..], name)
  }

  predicate Named(pairs: seq<Pair>, name: seq<byte>) { Get(pairs, name).Some? }

  /** Each pair whose name no earlier pair has. */
  function FirstOfEach(pairs: seq<Pair>): seq<Pair> {
    if pairs == [] then []
    else
      var before := FirstOfEach(pairs[..|pairs| - 1]);
      var last := pairs[|pairs| - 1];
      if Named(before, last.name) then before else before + [last]
  }

  lemma {:induction false} GetPush(pairs: seq<Pair>, p: Pair, name: seq<byte>)
    ensures Get(pairs + [p], name)
            == if Named(pairs, name) then Get(pairs, name) else if p.name == name then Some(p.value) else None
    decreases |pairs|
  {
    if pairs == [] {
      assert pairs + [p] == [p];
    } else {
      GetPush(pairs[1..], p, name);
      assert (pairs + [p])[1..] == pairs[1..] + [p];
    }
  }

  lemma {:induction false} GetAppend(a: seq<Pair>, b: seq<Pair>, name: seq<byte>)
    ensures Get(a + b, name) == if Named(a, name) then Get(a, name) else Get(b, name)
    decreases |a|
  {
    if a == [] {
      assert a + b == b;
    } else {
      GetAppend(a[1..], b, name);
      assert (a + b)[1..] == a[1..] + b;
    }
  }

  /** No name twice. */
  ghost predicate Distinct(pairs: seq<Pair>)
    decreases |pairs|
  {
    pairs == [] || (!Named(pairs[..|pairs| - 1], pairs[|pairs| - 1].name) && Distinct(pairs[..|pairs| - 1]))
  }

  lemma {:induction false} DistinctMeans(pairs: seq<Pair>, i: nat, j: nat)
    requires Distinct(pairs) && i < j < |pairs|
    ensures pairs[i].name != pairs[j].name
    decreases |pairs|
  {
    var before := pairs[..|pairs| - 1];
    if j < |before| {
      DistinctMeans(before, i, j);
    } else {
      NamedAt(before, i);
    }
  }

  lemma {:induction false} NamedAt(pairs: seq<Pair>, i: nat)
    requires i < |pairs|
    ensures Named(pairs, pairs[i].name)
    decreases |pairs|
  {
    if i > 0 {
      NamedAt(pairs[1..], i - 1);
    }
  }

  /** The merged list has each name once and every name's first value. */
  lemma {:induction false} FirstOfEachAgrees(pairs: seq<Pair>, name: seq<byte>)
    ensures Distinct(FirstOfEach(pairs))
    ensures Get(FirstOfEach(pairs), name) == Get(pairs, name)
    decreases |pairs|
  {
    if pairs != [] {
      var before, last := pairs[..|pairs| - 1], pairs[|pairs| - 1];
      var kept := FirstOfEach(before);
      FirstOfEachAgrees(before, name);
      FirstOfEachAgrees(before, last.name);
      GetPush(before, last, name);
      assert pairs == before + [last];
      if !Named(kept, last.name) {
        GetPush(kept, last, name);
        assert (kept + [last])[..|kept|] == kept;
      }
    }
  }

  /** Where a name first appears; past the end if it does not. */
  function FirstIndex(pairs: seq<Pair>, name: seq<byte>): nat {
    if pairs == [] || pairs[0].name == name then 0 else 1 + FirstIndex(pairs[1..], name)
  }

  lemma {:induction false} FirstIndexPush(pairs: seq<Pair>, p: Pair, name: seq<byte>)
    ensures FirstIndex(pairs, name) <= |pairs| && (FirstIndex(pairs, name) < |pairs| <==> Named(pairs, name))
    ensures Named(pairs, name) ==> FirstIndex(pairs + [p], name) == FirstIndex(pairs, name)
    ensures !Named(pairs, name) && p.name == name ==> FirstIndex(pairs + [p], name) == |pairs|
    decreases |pairs|
  {
    if pairs != [] {
      FirstIndexPush(pairs[1..], p, name);
      assert (pairs + [p])[1..] == pairs[1..] + [p];
    }
  }

  /** The merged list keeps the order in which the names first appeared. */
  lemma {:induction false} FirstOfEachInOrder(pairs: seq<Pair>, i: nat, j: nat)
    requires i < j < |FirstOfEach(pairs)|
    ensures FirstIndex(pairs, FirstOfEach(pairs)[i].name) < FirstIndex(pairs, FirstOfEach(pairs)[j].name)
    decreases |pairs|
  {
    var before, last := pairs[..|pairs| - 1], pairs[|pairs| - 1];
    var kept := FirstOfEach(before);
    assert pairs == before + [last];
    KeptIsNamed(before, i);
    FirstIndexPush(before, last, FirstOfEach(pairs)[i].name);
    FirstIndexPush(before, last, FirstOfEach(pairs)[j].name);
    if j < |kept| {
      FirstOfEachInOrder(before, i, j);
      KeptIsNamed(before, j);
    } else {
      FirstOfEachAgrees(before, last.name);
    }
  }

  lemma KeptIsNamed(pairs: seq<Pair>, i: nat)
    requires i < |FirstOfEach(pairs)|
    ensures Named(pairs, FirstOfEach(pairs)[i].name)
  {
    NamedAt(FirstOfEach(pairs), i);
    FirstOfEachAgrees(pairs, FirstOfEach(pairs)[i].name);
  }

  lemma {:induction false} AllTextAppend(a: seq<Pair>, b: seq<Pair>)
    requires AllText(a) && AllText(b)
    ensures AllText(a + b)
    decreases |a|
  {
    if a == [] {
      assert a + b == b;
    } else {
      AllTextAppend(a[1..], b);
      assert (a + b)[1..] == a[1..] + b;
    }
  }

  lemma {:induction false} AllTextInit(pairs: seq<Pair>)
    requires pairs != [] && AllText(pairs)
    ensures AllText(pairs[..|pairs| - 1]) && IsTextPair(pairs[|pairs| - 1])
    decreases |pairs|
  {
    if |pairs| > 1 {
      AllTextInit(pairs[1..]);
      assert pairs[..|pairs| - 1][1..] == pairs[1..][..|pairs| - 2];
    }
  }

  lemma {:induction false} FirstOfEachIsText(pairs: seq<Pair>)
    requires AllText(pairs)
    ensures AllText(FirstOfEach(pairs))
    decreases |pairs|
  {
    if pairs != [] {
      AllTextInit(pairs);
      var last := pairs[|pairs| - 1];
      FirstOfEachIsText(pairs[..|pairs| - 1]);
      assert AllText([last]);
      AllTextAppend(FirstOfEach(pairs[..|pairs| - 1]), [last]);
    }
  }

  lemma {:induction false} DistinctIsKept(pairs: seq<Pair>)
    requires Distinct(pairs)
    ensures FirstOfEach(pairs) == pairs
    decreases |pairs|
  {
    if pairs != [] {
      DistinctIsKept(pairs[..|pairs| - 1]);
      assert pairs == pairs[..|pairs| - 1] + [pairs[|pairs| - 1]];
    }
  }

  /** Pairs with names already there add nothing. */
  lemma {:induction false} NothingNew(a: seq<Pair>, b: seq<Pair>)
    requires Distinct(a) && forall i :: 0 <= i < |b| ==> Named(a, b[i].name)
    ensures FirstOfEach(a + b) == a
    decreases |b|
  {
    if b == [] {
      assert a + b == a;
      DistinctIsKept(a);
    } else {
      NothingNew(a, b[..|b| - 1]);
      assert (a + b)[..|a + b| - 1] == a + b[..|b| - 1];
    }
  }

  // ---------------------------------------------------------------- requests

  const BODY_LIMIT: nat := 1_048_576

  /** `contentType` is the header, if present and readable as text; `post` tells the method. */
  datatype Request = Request(post: bool, contentType: Option<string>, path: seq<byte>, query: Option<seq<byte>>, body: seq<byte>)

  datatype Error = BadRequest

  function MediaType(contentType: string): string { Trim(Split(contentType, ';')[0]) }

  predicate IsFormPost(r: Request) {
    r.post && r.contentType.Some? && SameIgnoringCase(MediaType(r.contentType.value), "application/x-www-form-urlencoded")
  }

  const FORM_TYPE: string := "application/x-www-form-urlencoded"

  /** A form's content type: white space, the type in any case, white space, and parameters behind a semicolon. */
  ghost predicate IsFormType(h: string, before: string, name: string, after: string, parameters: string) {
    && h == before + name + after + parameters && OnlySpace(before) && OnlySpace(after)
    && SameIgnoringCase(name, FORM_TYPE) && (parameters == "" || parameters[0] == ';')
  }

  lemma FormTypeIsBare(name: string)
    requires SameIgnoringCase(name, FORM_TYPE)
    ensures name != "" && !IsRustSpace(name[0]) && !IsRustSpace(name[|name| - 1]) && ';' !in name
  {
    assert LowerChar(name[0]) == 'a' && LowerChar(name[|name| - 1]) == 'd';
    forall i | 0 <= i < |name| ensures name[i] != ';' {
      assert LowerChar(name[i]) == LowerChar(FORM_TYPE[i]) && FORM_TYPE[i] != ';';
    }
  }

  lemma BeforeSemicolon(h: string) returns (parameters: string)
    ensures h == Split(h, ';')[0] + parameters && (parameters == "" || parameters[0] == ';')
  {
    JoinSplit(h, ';');
    var parts := Split(h, ';');
    parameters := if |parts| == 1 then "" else [';'] + Join(parts[1..], ';');
  }

  lemma MediaTypeFound(h: string, before: string, name: string, after: string, parameters: string)
    requires IsFormType(h, before, name, after, parameters)
    ensures MediaType(h) == name
  {
    FormTypeIsBare(name);
    var part := before + name + after;
    assert ';' !in part;
    if parameters == "" {
      assert h == part;
      SplitHead(part, [], ';');
    } else {
      assert h == part + [';'] + parameters[1..];
      SplitHead(part, parameters[1..], ';');
    }
    TrimIs(before, name, after);
  }

  /** Which requests carry a servlet form, by the shape of their content type. */
  lemma IsFormPostIff(r: Request)
    ensures IsFormPost(r)
            <==> && r.post && r.contentType.Some?
                 && exists before: string, name: string, after: string, parameters: string ::
                      IsFormType(r.contentType.value, before, name, after, parameters)
  {
    if r.contentType.Some? {
      var h := r.contentType.value;
      if SameIgnoringCase(MediaType(h), FORM_TYPE) {
        var parameters := BeforeSemicolon(h);
        var a, b := TrimExact(Split(h, ';')[0]);
        assert IsFormType(h, a, MediaType(h), b, parameters);
      }
      if before: string, name: string, after: string, parameters: string :|
         IsFormType(h, before, name, after, parameters) {
        MediaTypeFound(h, before, name, after, parameters);
      }
    }
  }

  function QueryPairs(r: Request): seq<Pair> {
    if r.query.Some? then ParsePairs(r.query.value) else []
  }

  /** The servlet view: query first, then the body of a form POST. */
  function Parameters(r: Request): seq<Pair> {
    QueryPairs(r) + if IsFormPost(r) then ParsePairs(r.body) else []
  }

  /** The parameter list, or a refusal of an oversized form. */
  method ServletRequestParameters(r: Request) returns (result: Result<seq<Pair>, Error>)
    ensures result == if IsFormPost(r) && |r.body| > BODY_LIMIT then Err(BadRequest) else Ok(Parameters(r))
  {
    var parameters := match r.query case Some(query) => ParsePairs(query) case None => [];
    if IsFormPost(r) {
      if |r.body| > BODY_LIMIT {
        return Err(BadRequest);
      }
      if r.body != [] {
        parameters := parameters + ParsePairs(r.body);
      } else {
        EmptyBody();
        assert parameters + [] == parameters;
      }
    } else {
      assert parameters + [] == parameters;
    }
    result := Ok(parameters);
  }

  lemma EmptyBody()
    ensures ParsePairs([]) == []
  {
    PrintThenParse([]);
  }

  function MergedQuery(r: Request): Option<seq<byte>> {
    var merged := FirstOfEach(Parameters(r));
    if merged == [] then None else Some(Print(merged))
  }

  /** `kept` and, behind it, each pair whose name is new. */
  function Added(kept: seq<Pair>, pairs: seq<Pair>): seq<Pair>
    decreases |pairs|
  {
    if pairs == [] then kept
    else
      var before := Added(kept, pairs[..|pairs| - 1]);
      var last := pairs[|pairs| - 1];
      if Named(before, last.name) then before else before + [last]
  }

  lemma {:induction false} AddedIsFirstOfEach(a: seq<Pair>, b: seq<Pair>)
    ensures Added(FirstOfEach(a), b) == FirstOfEach(a + b)
    decreases |b|
  {
    if b == [] {
      assert a + b == a;
    } else {
      AddedIsFirstOfEach(a, b[..|b| - 1]);
      assert (a + b)[..|a + b| - 1] == a + b[..|b| - 1];
    }
  }

  /** The loop over one list of pairs. */
  method AddNew(kept: seq<Pair>, known: set<seq<byte>>, pairs: seq<Pair>) returns (merged: seq<Pair>, names: set<seq<byte>>)
    requires NamesOf(kept, known)
    ensures merged == Added(kept, pairs) && NamesOf(merged, names)
  {
    merged, names := kept, known;
    for i := 0 to |pairs|
      invariant merged == Added(kept, pairs[..i]) && NamesOf(merged, names)
    {
      assert pairs[..i + 1][..i] == pairs[..i];
      if pairs[i].name !in names {
        NamesPush(merged, names, pairs[i]);
        names := names + {pairs[i].name};
        merged := merged + [pairs[i]];
      }
    }
    assert pairs[..|pairs|] == pairs;
  }

  ghost predicate NamesOf(pairs: seq<Pair>, names: set<seq<byte>>) {
    forall name :: name in names <==> Named(pairs, name)
  }

  lemma NamesPush(pairs: seq<Pair>, names: set<seq<byte>>, p: Pair)
    requires NamesOf(pairs, names) && p.name !in names
    ensures NamesOf(pairs + [p], names + {p.name})
  {
    forall name ensures name in names + {p.name} <==> Named(pairs + [p], name) {
      GetPush(pairs, p, name);
    }
  }

  /**
   The read-only adapter. `acceptable` is the URI parser's verdict on the new
   path and query, which the model does not look into.
   */
  method MergeServletPostFormIntoQuery(r: Request, acceptable: seq<byte> -> bool) returns (result: Result<Request, Error>)
    ensures !IsFormPost(r) ==> result == Ok(r)
    ensures IsFormPost(r) && |r.body| > BODY_LIMIT ==> result == Err(BadRequest)
    ensures IsFormPost(r) && |r.body| <= BODY_LIMIT ==>
              result == if acceptable(PathAndQuery(r.path, MergedQuery(r))) then Ok(r.(query := MergedQuery(r))) else Err(BadRequest)
  {
    if !IsFormPost(r) {
      return Ok(r);
    }
    if |r.body| > BODY_LIMIT {
      return Err(BadRequest);
    }
    var merged: seq<Pair>, names: set<seq<byte>> := [], {};
    var query := match r.query case Some(q) => ParsePairs(q) case None => [];
    merged, names := AddNew(merged, names, query);
    AddedIsFirstOfEach([], query);
    assert [] + query == query;
    if r.body != [] {
      var form := ParsePairs(r.body);
      merged, names := AddNew(merged, names, form);
      AddedIsFirstOfEach(query, form);
    } else {
      EmptyBody();
      assert query + [] == query;
    }
    assert merged == FirstOfEach(Parameters(r));
    var text := Print(merged);
    PrintEmptyIff(merged);
    var newQuery := if text == [] then None else Some(text);
    if !acceptable(PathAndQuery(r.path, newQuery)) {
      return Err(BadRequest);
    }
    result := Ok(r.(query := newQuery));
  }

  function PathAndQuery(path: seq<byte>, query: Option<seq<byte>>): seq<byte> {
    match query
    case None => path
    case Some(q) => path + [0x3F] + q
  }

  lemma PrintEmptyIff(pairs: seq<Pair>)
    ensures Print(pairs) == [] <==> pairs == []
  {
    if pairs != [] {
      assert PrintPair(pairs[0])[|Encode(pairs[0].name)|] == EQ;
    }
  }

  lemma ParametersAreText(r: Request)
    ensures AllText(Parameters(r))
  {
    if r.query.Some? {
      ParsedIsText(Split(r.query.value, AMP));
    }
    if IsFormPost(r) {
      ParsedIsText(Split(r.body, AMP));
    }
    AllTextAppend(QueryPairs(r), if IsFormPost(r) then ParsePairs(r.body) else []);
  }

  /**
   A reader of the query alone now sees what a servlet would: parsed again, the
   merged query has each name once, with the first value of the query-then-body list.
   */
  lemma MergedQueryAgrees(r: Request, name: seq<byte>)
    ensures
      var seen := QueryPairs(r.(query := MergedQuery(r)));
      Distinct(seen) && Get(seen, name) == Get(Parameters(r), name)
  {
    ParametersAreText(r);
    FirstOfEachIsText(Parameters(r));
    FirstOfEachAgrees(Parameters(r), name);
    PrintThenParse(FirstOfEach(Parameters(r)));
  }

  /** Merging a second time changes nothing, and readers of the full parameter list keep every first value. */
  lemma MergeTwice(r: Request)
    requires IsFormPost(r)
    ensures
      var once := r.(query := MergedQuery(r));
      MergedQuery(once) == once.query && forall name :: Get(Parameters(once), name) == Get(Parameters(r), name)
  {
    var once := r.(query := MergedQuery(r));
    var seen, form := QueryPairs(once), ParsePairs(r.body);
    ParametersAreText(r);
    FirstOfEachIsText(Parameters(r));
    PrintThenParse(FirstOfEach(Parameters(r)));
    assert seen == FirstOfEach(Parameters(r));
    FirstOfEachAgrees(Parameters(r), []);
    forall i | 0 <= i < |form| ensures Named(seen, form[i].name) {
      FormNamed(r, i);
    }
    NothingNew(seen, form);
    forall name ensures Get(Parameters(once), name) == Get(Parameters(r), name) {
      FirstOfEachAgrees(Parameters(r), name);
      GetAppend(seen, form, name);
      GetAppend(QueryPairs(r), form, name);
    }
  }

  lemma FormNamed(r: Request, i: nat)
    requires IsFormPost(r) && i < |ParsePairs(r.body)|
    ensures Named(FirstOfEach(Parameters(r)), ParsePairs(r.body)[i].name)
  {
    var form := ParsePairs(r.body);
    NamedAt(form, i);
    GetAppend(QueryPairs(r), form, form[i].name);
    FirstOfEachAgrees(Parameters(r), form[i].name);
  }
}
