/**
 Byte strings, shared by the codecs and the firewall.

 UTF-8 validity, numerals as bytes, and percent-encoding (section 2.1 of
 RFC 3986), whose decoder reads a triple back and leaves everything else as it
 is.
 */
module Bytes {
  import opened Options
  import opened Text

  type byte = bv8

  const PERCENT: byte := 0x25
  const PLUS: byte := 0x2B
  const COLON: byte := 0x3A
  const SPACE: byte := 0x20

  // ---------------------------------------------------------------- UTF-8

  predicate Between(b: byte, lo: byte, hi: byte) { lo <= b && b <= hi }

  predicate Continuation(b: byte) { Between(b, 0x80, 0xBF) }

  /** The length of the well-formed sequence at the start of `s`, or 0. */
  function SequenceLength(s: seq<byte>): (n: nat)
    ensures n <= |s|
  {
    if s == [] then 0
    else if s[0] < 0x80 then 1
    else if Between(s[0], 0xC2, 0xDF) then
      if |s| >= 2 && Continuation(s[1]) then 2 else 0
    else if Between(s[0], 0xE0, 0xEF) then
      if |s| >= 3 && Continuation(s[1]) && Continuation(s[2])
         && (s[0] == 0xE0 ==> s[1] >= 0xA0) && (s[0] == 0xED ==> s[1] <= 0x9F) then 3 else 0
    else if Between(s[0], 0xF0, 0xF4) then
      if |s| >= 4 && Continuation(s[1]) && Continuation(s[2]) && Continuation(s[3])
         && (s[0] == 0xF0 ==> s[1] >= 0x90) && (s[0] == 0xF4 ==> s[1] <= 0x8F) then 4 else 0
    else 0
  }

  predicate IsUtf8(s: seq<byte>)
    decreases |s|
  {
    s == [] || (SequenceLength(s) > 0 && IsUtf8(s[SequenceLength(s)..]))
  }

  predicate IsAscii(s: seq<byte>) { forall i :: 0 <= i < |s| ==> s[i] < 0x80 }

  lemma {:induction false} AsciiIsUtf8(s: seq<byte>)
    requires IsAscii(s)
    ensures IsUtf8(s)
    decreases |s|
  {
    if s != [] {
      AsciiIsUtf8(s[1..]);
    }
  }

  // ---------------------------------------------------------------- numerals

  function NumeralByte(c: char): byte {
    if c == '0' then 0x30 else if c == '1' then 0x31 else if c == '2' then 0x32 else if c == '3' then 0x33
    else if c == '4' then 0x34 else if c == '5' then 0x35 else if c == '6' then 0x36 else if c == '7' then 0x37
    else if c == '8' then 0x38 else if c == '9' then 0x39 else if c == '+' then 0x2B else 0x2D
  }

  function NumeralChar(b: byte): char {
    if b == 0x30 then '0' else if b == 0x31 then '1' else if b == 0x32 then '2' else if b == 0x33 then '3'
    else if b == 0x34 then '4' else if b == 0x35 then '5' else if b == 0x36 then '6' else if b == 0x37 then '7'
    else if b == 0x38 then '8' else if b == 0x39 then '9' else if b == 0x2B then '+' else if b == 0x2D then '-' else '?'
  }

  function ToBytes(s: string): seq<byte> { seq(|s|, i requires 0 <= i < |s| => NumeralByte(s[i])) }

  function ToChars(s: seq<byte>): string { seq(|s|, i requires 0 <= i < |s| => NumeralChar(s[i])) }

  /** An integer as Rust prints it. */
  function SignedBytes(n: int): seq<byte> { ToBytes(Signed(n)) }

  function ParseSignedBytes(s: seq<byte>, min: int, max: int): Option<int> { ParseSigned(ToChars(s), min, max) }

  predicate IsNumeral(s: string) { forall i :: 0 <= i < |s| ==> IsDigit(s[i]) || s[i] == '-' }

  lemma SignedBytesParse(n: int, min: int, max: int)
    requires min <= n <= max
    ensures ParseSignedBytes(SignedBytes(n), min, max) == Some(n)
    ensures IsAscii(SignedBytes(n))
  {
    ParseSignedSigned(n, min, max);
    var s := Signed(n);
    assert IsNumeral(s);
    forall i | 0 <= i < |s| ensures NumeralChar(NumeralByte(s[i])) == s[i] {
      NumeralInverse(s[i]);
    }
    assert ToChars(ToBytes(s)) == s;
  }

  lemma NumeralInverse(c: char)
    requires IsDigit(c) || c == '-'
    ensures NumeralChar(NumeralByte(c)) == c
  {
    assert IsDigit(c) ==> c == '0' || c == '1' || c == '2' || c == '3' || c == '4'
                          || c == '5' || c == '6' || c == '7' || c == '8' || c == '9';
  }

  // ---------------------------------------------------------------- percent-encoding

  function HexDigit(v: byte, letters: byte): byte {
    if v < 10 then v + 0x30 else v + letters
  }

  function HexValue(b: byte): Option<byte> {
    if Between(b, 0x30, 0x39) then Some(b - 0x30)
    else if Between(b, 0x41, 0x46) then Some(b - 0x37)
    else if Between(b, 0x61, 0x66) then Some(b - 0x57)
    else None
  }

  function High(b: byte): byte { b >> 4 }

  function Low(b: byte): byte { b & 15 }

  function FromNibbles(high: byte, low: byte): byte { (high << 4) | low }

  /** Two uppercase hexadecimal digits give the byte back. */
  lemma HexInverse(b: byte)
    ensures HexValue(HexDigit(High(b), 0x37)) == Some(High(b)) && HexValue(HexDigit(Low(b), 0x37)) == Some(Low(b))
    ensures FromNibbles(High(b), Low(b)) == b
    ensures HexDigit(High(b), 0x37) < 0x80 && HexDigit(Low(b), 0x37) < 0x80
    ensures HexDigit(High(b), 0x37) >= 0x30 && HexDigit(Low(b), 0x37) >= 0x30
    ensures HexDigit(High(b), 0x37) != COLON && HexDigit(Low(b), 0x37) != COLON
  {
    NibbleBounds(b);
  }

  lemma NibbleBounds(b: byte)
    ensures High(b) < 16 && Low(b) < 16 && FromNibbles(High(b), Low(b)) == b
  {
  }

  function Triple(b: byte): seq<byte> { [PERCENT, HexDigit(High(b), 0x37), HexDigit(Low(b), 0x37)] }

  /** A well-formed percent triple starts `s`. */
  predicate TripleAt(s: seq<byte>) {
    |s| >= 3 && s[0] == PERCENT && HexValue(s[1]).Some? && HexValue(s[2]).Some?
  }

  function TripleValue(s: seq<byte>): byte
    requires TripleAt(s)
  {
    FromNibbles(HexValue(s[1]).value, HexValue(s[2]).value)
  }

  /** Percent-decoding, once; a '%' that starts no triple stays. */
  function PercentDecode(s: seq<byte>): seq<byte>
    decreases |s|
  {
    if s == [] then []
    else if TripleAt(s) then [TripleValue(s)] + PercentDecode(s[3..])
    else [s[0]] + PercentDecode(s[1..])
  }

  lemma DecodeTriple(b: byte, rest: seq<byte>)
    ensures PercentDecode(Triple(b) + rest) == [b] + PercentDecode(rest)
  {
    HexInverse(b);
    var s := Triple(b) + rest;
    assert s[3..] == rest;
    assert TripleAt(s) && TripleValue(s) == b;
  }

  lemma DecodeLiteral(b: byte, rest: seq<byte>)
    requires b != PERCENT
    ensures PercentDecode([b] + rest) == [b] + PercentDecode(rest)
  {
    assert ([b] + rest)[1..] == rest;
  }

  // ---------------------------------------------------------------- what decoding finds, by a grammar of its own

  /** One byte as it is, or a byte spelled as a triple in either case of each digit. */
  datatype Unit = Plain(b: byte) | Escape(value: byte, smallHigh: bool, smallLow: bool)

  function UnitText(u: Unit): seq<byte> {
    match u
    case Plain(b) => [b]
    case Escape(v, smallHigh, smallLow) =>
      [PERCENT, HexDigit(High(v), if smallHigh then 0x57 else 0x37), HexDigit(Low(v), if smallLow then 0x57 else 0x37)]
  }

  function UnitValue(u: Unit): byte {
    if u.Plain? then u.b else u.value
  }

  predicate IsHex(b: byte) { Between(b, 0x30, 0x39) || Between(b, 0x41, 0x46) || Between(b, 0x61, 0x66) }

  /** A '%' is plain only where no two digits follow. */
  predicate IsUnit(u: Unit, rest: seq<byte>) {
    u.Plain? && u.b == PERCENT ==> !(|rest| >= 2 && IsHex(rest[0]) && IsHex(rest[1]))
  }

  datatype Units = NoUnits | Units(first: Unit, rest: Units)

  function UnitsText(us: Units): seq<byte> {
    match us
    case NoUnits => []
    case Units(u, rest) => UnitText(u) + UnitsText(rest)
  }

  function UnitsValue(us: Units): seq<byte> {
    match us
    case NoUnits => []
    case Units(u, rest) => [UnitValue(u)] + UnitsValue(rest)
  }

  predicate WellSpelled(us: Units) {
    match us
    case NoUnits => true
    case Units(u, rest) => IsUnit(u, UnitsText(rest)) && WellSpelled(rest)
  }

  lemma HexDigitIsHex(v: byte, small: bool)
    requires v < 16
    ensures
      var d := HexDigit(v, if small then 0x57 else 0x37);
      HexValue(d) == Some(v) && IsHex(d)
  {
  }

  lemma HexValueOf(b: byte)
    ensures HexValue(b).Some? <==> IsHex(b)
    ensures HexValue(b).Some? ==>
              && HexValue(b).value < 16
              && b == HexDigit(HexValue(b).value, if b >= 0x61 then 0x57 else 0x37)
  {
  }

  lemma NibblesBack(high: byte, low: byte)
    requires high < 16 && low < 16
    ensures High(FromNibbles(high, low)) == high && Low(FromNibbles(high, low)) == low
  {
  }

  lemma UnitDecodes(u: Unit, rest: seq<byte>)
    requires IsUnit(u, rest)
    ensures PercentDecode(UnitText(u) + rest) == [UnitValue(u)] + PercentDecode(rest)
    ensures TripleAt(UnitText(u) + rest) <==> u.Escape?
  {
    var s := UnitText(u) + rest;
    if u.Escape? {
      NibbleBounds(u.value);
      HexDigitIsHex(High(u.value), u.smallHigh);
      HexDigitIsHex(Low(u.value), u.smallLow);
      assert s[3..] == rest;
    } else {
      assert s[1..] == rest;
      if |rest| >= 2 {
        HexValueOf(rest[0]);
        HexValueOf(rest[1]);
      }
    }
  }

  /** However a text is spelled in such units, decoding gives their bytes. */
  lemma {:induction false} UnitsDecode(us: Units)
    requires WellSpelled(us)
    ensures PercentDecode(UnitsText(us)) == UnitsValue(us)
    decreases us
  {
    if us.Units? {
      UnitDecodes(us.first, UnitsText(us.rest));
      UnitsDecode(us.rest);
    }
  }

  lemma UnitThere(s: seq<byte>) returns (u: Unit, rest: seq<byte>)
    requires s != []
    ensures s == UnitText(u) + rest && IsUnit(u, rest) && |rest| < |s|
  {
    if TripleAt(s) {
      var high, low := HexValue(s[1]).value, HexValue(s[2]).value;
      HexValueOf(s[1]);
      HexValueOf(s[2]);
      NibblesBack(high, low);
      u, rest := Escape(FromNibbles(high, low), s[1] >= 0x61, s[2] >= 0x61), s[3..];
      assert s == [s[0], s[1], s[2]] + s[3..];
      DigitSpelled(s[1], high, s[1] >= 0x61);
      DigitSpelled(s[2], low, s[2] >= 0x61);
    } else {
      u, rest := Plain(s[0]), s[1..];
      assert s == [s[0]] + s[1..];
      if |rest| >= 2 {
        HexValueOf(rest[0]);
        HexValueOf(rest[1]);
      }
    }
  }

  lemma DigitSpelled(d: byte, v: byte, small: bool)
    requires HexValue(d) == Some(v) && (small <==> d >= 0x61)
    ensures d == HexDigit(v, if small then 0x57 else 0x37)
  {
  }

  /** Every text can be spelled so. */
  lemma {:induction false} EveryTextIsSpelled(s: seq<byte>) returns (us: Units)
    ensures WellSpelled(us) && UnitsText(us) == s
    decreases |s|
  {
    if s == [] {
      return NoUnits;
    }
    var u, rest := UnitThere(s);
    var more := EveryTextIsSpelled(rest);
    us := Units(u, more);
  }

  function PlusToSpace(s: seq<byte>): seq<byte> {
    if s == [] then [] else [if s[0] == PLUS then SPACE else s[0]] + PlusToSpace(s[1..])
  }

  lemma {:induction false} PlusToSpaceAppend(a: seq<byte>, b: seq<byte>)
    ensures PlusToSpace(a + b) == PlusToSpace(a) + PlusToSpace(b)
    decreases |a|
  {
    if a == [] {
      assert a + b == b;
    } else {
      assert (a + b)[1..] == a[1..] + b;
      PlusToSpaceAppend(a[1..], b);
    }
  }

  lemma PlusToSpaceNoPlus(s: seq<byte>)
    requires PLUS !in s
    ensures PlusToSpace(s) == s
    decreases |s|
  {
    if s != [] {
      PlusToSpaceNoPlus(s[1..]);
    }
  }
}
