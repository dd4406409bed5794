/**
 Base64 (section 4 of RFC 4648).

 The standard alphabet with and without padding, strict about trailing bits:
 each decoder accepts exactly the encodings, so no two texts decode to the same
 bytes.
 */
module Base64 {
  import opened Options
  import opened Bytes

  const PAD: byte := 0x3D

  function Symbol(v: byte): byte {
    if v < 26 then v + 65
    else if v < 52 then v + 71
    else if v < 62 then v - 4
    else if v == 62 then 0x2B
    else 0x2F
  }

  function Sextet(c: byte): Option<byte> {
    if Between(c, 0x41, 0x5A) then Some(c - 65)
    else if Between(c, 0x61, 0x7A) then Some(c - 71)
    else if Between(c, 0x30, 0x39) then Some(c + 4)
    else if c == 0x2B then Some(62)
    else if c == 0x2F then Some(63)
    else None
  }

  lemma SymbolSextet(v: byte)
    requires v < 64
    ensures Sextet(Symbol(v)) == Some(v) && Symbol(v) != PAD && Symbol(v) < 0x80
  {
  }

  lemma SextetSymbol(c: byte)
    requires Sextet(c).Some?
    ensures Sextet(c).value < 64 && Symbol(Sextet(c).value) == c
  {
  }

  // The four sextets of three bytes, and the three bytes of four sextets.
  function S0(a: byte): byte { a >> 2 }
  function S1(a: byte, b: byte): byte { ((a & 3) << 4) | (b >> 4) }
  function S2(b: byte, c: byte): byte { ((b & 15) << 2) | (c >> 6) }
  function S3(c: byte): byte { c & 63 }

  function B0(v0: byte, v1: byte): byte { (v0 << 2) | (v1 >> 4) }
  function B1(v1: byte, v2: byte): byte { ((v1 & 15) << 4) | (v2 >> 2) }
  function B2(v2: byte, v3: byte): byte { ((v2 & 3) << 6) | v3 }

  lemma BytesRegroup(a: byte, b: byte, c: byte)
    ensures S0(a) < 64 && S1(a, b) < 64 && S2(b, c) < 64 && S3(c) < 64
    ensures B0(S0(a), S1(a, b)) == a && B1(S1(a, b), S2(b, c)) == b && B2(S2(b, c), S3(c)) == c
    ensures S1(a, 0) & 15 == 0 && S2(b, 0) & 3 == 0
  {
  }

  lemma SextetsRegroup(v0: byte, v1: byte, v2: byte, v3: byte)
    requires v0 < 64 && v1 < 64 && v2 < 64 && v3 < 64
    ensures S0(B0(v0, v1)) == v0 && S1(B0(v0, v1), B1(v1, v2)) == v1
    ensures S2(B1(v1, v2), B2(v2, v3)) == v2 && S3(B2(v2, v3)) == v3
    ensures v1 & 15 == 0 ==> S1(B0(v0, v1), 0) == v1
    ensures v2 & 3 == 0 ==> S2(B1(v1, v2), 0) == v2
  {
  }

  /** Encoding without padding. */
  function Encode(s: seq<byte>): seq<byte>
    decreases |s|
  {
    if s == [] then []
    else if |s| == 1 then [Symbol(S0(s[0])), Symbol(S1(s[0], 0))]
    else if |s| == 2 then [Symbol(S0(s[0])), Symbol(S1(s[0], s[1])), Symbol(S2(s[1], 0))]
    else
      [Symbol(S0(s[0])), Symbol(S1(s[0], s[1])), Symbol(S2(s[1], s[2])), Symbol(S3(s[2]))] + Encode(s[3..])
  }

  function Sextets(s: seq<byte>): Option<seq<byte>> {
    if s == [] then Some([])
    else if Sextet(s[0]).None? || Sextets(s[1..]).None? then None
    else Some([Sextet(s[0]).value] + Sextets(s[1..]).value)
  }

  /** The bytes of a row of sextets: no lone last sextet, no set bits left over. */
  function FromSextets(v: seq<byte>): Option<seq<byte>>
    decreases |v|
  {
    if v == [] then Some([])
    else if |v| == 1 then None
    else if |v| == 2 then if v[1] & 15 == 0 then Some([B0(v[0], v[1])]) else None
    else if |v| == 3 then if v[2] & 3 == 0 then Some([B0(v[0], v[1]), B1(v[1], v[2])]) else None
    else
      match FromSextets(v[4..])
      case Some(rest) => Some([B0(v[0], v[1]), B1(v[1], v[2]), B2(v[2], v[3])] + rest)
      case None => None
  }

  /** Decoding without padding. */
  function Decode(s: seq<byte>): Option<seq<byte>> {
    match Sextets(s)
    case Some(v) => FromSextets(v)
    case None => None
  }

  function ToSextets(s: seq<byte>): seq<byte>
    decreases |s|
  {
    if s == [] then []
    else if |s| == 1 then [S0(s[0]), S1(s[0], 0)]
    else if |s| == 2 then [S0(s[0]), S1(s[0], s[1]), S2(s[1], 0)]
    else [S0(s[0]), S1(s[0], s[1]), S2(s[1], s[2]), S3(s[2])] + ToSextets(s[3..])
  }

  function Symbols(v: seq<byte>): seq<byte> {
    if v == [] then [] else [Symbol(v[0])] + Symbols(v[1..])
  }

  predicate AreSextets(v: seq<byte>) { forall i :: 0 <= i < |v| ==> v[i] < 64 }

  lemma {:induction false} SymbolsAppend(a: seq<byte>, b: seq<byte>)
    ensures Symbols(a + b) == Symbols(a) + Symbols(b)
    decreases |a|
  {
    if a == [] {
      assert a + b == b;
    } else {
      assert (a + b)[1..] == a[1..] + b;
      SymbolsAppend(a[1..], b);
    }
  }

  lemma {:induction false} EncodeIsSymbols(s: seq<byte>)
    ensures Encode(s) == Symbols(ToSextets(s)) && AreSextets(ToSextets(s))
    decreases |s|
  {
    if s == [] {
    } else if |s| <= 2 {
      BytesRegroup(s[0], if |s| == 2 then s[1] else 0, 0);
      if |s| == 1 {
        Symbols2(S0(s[0]), S1(s[0], 0));
      } else {
        Symbols3(S0(s[0]), S1(s[0], s[1]), S2(s[1], 0));
      }
    } else {
      BytesRegroup(s[0], s[1], s[2]);
      var head := [S0(s[0]), S1(s[0], s[1]), S2(s[1], s[2]), S3(s[2])];
      EncodeIsSymbols(s[3..]);
      SymbolsAppend(head, ToSextets(s[3..]));
      Symbols4(head[0], head[1], head[2], head[3]);
    }
  }

  lemma Symbols2(a: byte, b: byte)
    ensures Symbols([a, b]) == [Symbol(a), Symbol(b)]
  {
    assert [b][1..] == [] && Symbols([b]) == [Symbol(b)];
    assert [a, b][1..] == [b];
  }

  lemma Symbols3(a: byte, b: byte, c: byte)
    ensures Symbols([a, b, c]) == [Symbol(a), Symbol(b), Symbol(c)]
  {
    assert [a, b, c][1..] == [b, c];
    Symbols2(b, c);
  }

  lemma Symbols4(a: byte, b: byte, c: byte, d: byte)
    ensures Symbols([a, b, c, d]) == [Symbol(a), Symbol(b), Symbol(c), Symbol(d)]
  {
    assert [a, b, c, d][1..] == [b, c, d];
    Symbols3(b, c, d);
  }

  lemma {:induction false} SextetsOfSymbols(v: seq<byte>)
    requires AreSextets(v)
    ensures Sextets(Symbols(v)) == Some(v)
    decreases |v|
  {
    if v != [] {
      SextetsOfSymbols(v[1..]);
      SymbolSextet(v[0]);
      assert Symbols(v)[1..] == Symbols(v[1..]);
      assert [v[0]] + v[1..] == v;
    }
  }

  lemma {:induction false} SymbolsOfSextets(s: seq<byte>)
    requires Sextets(s).Some?
    ensures Symbols(Sextets(s).value) == s && AreSextets(Sextets(s).value)
    decreases |s|
  {
    if s != [] {
      SymbolsOfSextets(s[1..]);
      SextetSymbol(s[0]);
      var rest := Sextets(s[1..]).value;
      assert ([Sextet(s[0]).value] + rest)[1..] == rest;
    }
  }

  lemma {:induction false} FromToSextets(s: seq<byte>)
    ensures FromSextets(ToSextets(s)) == Some(s)
    decreases |s|
  {
    if s != [] {
      BytesRegroup(s[0], if |s| > 1 then s[1] else 0, if |s| > 2 then s[2] else 0);
      if |s| >= 3 {
        FromToSextets(s[3..]);
        var v := ToSextets(s);
        assert v[4..] == ToSextets(s[3..]) && |v| >= 4;
        assert v[0] == S0(s[0]) && v[1] == S1(s[0], s[1]) && v[2] == S2(s[1], s[2]) && v[3] == S3(s[2]);
        assert [s[0], s[1], s[2]] + s[3..] == s;
      } else if |s| == 2 {
        assert [s[0], s[1]] == s;
      } else {
        assert [s[0]] == s;
      }
    }
  }

  lemma {:induction false} ToFromSextets(v: seq<byte>)
    requires AreSextets(v) && FromSextets(v).Some?
    ensures ToSextets(FromSextets(v).value) == v
    decreases |v|
  {
    if v != [] {
      SextetsRegroup(v[0], v[1], if |v| > 2 then v[2] else 0, if |v| > 3 then v[3] else 0);
      if |v| >= 4 {
        ToFromSextets(v[4..]);
        var rest := FromSextets(v[4..]).value;
        var s := FromSextets(v).value;
        assert s[3..] == rest;
        assert [v[0], v[1], v[2], v[3]] + v[4..] == v;
      }
    }
  }

  /** Decoding accepts exactly the encodings: it undoes encoding, and no second text decodes to the same bytes. */
  lemma DecodeIffEncode(text: seq<byte>, s: seq<byte>)
    ensures Decode(text) == Some(s) <==> text == Encode(s)
  {
    EncodeIsSymbols(s);
    SextetsOfSymbols(ToSextets(s));
    FromToSextets(s);
    if Decode(text) == Some(s) {
      SymbolsOfSextets(text);
      ToFromSextets(Sextets(text).value);
    }
  }

  // ---------------------------------------------------------------- padding

  function EncodePadded(s: seq<byte>): seq<byte> {
    Encode(s) + (if |s| % 3 == 1 then [PAD, PAD] else if |s| % 3 == 2 then [PAD] else [])
  }

  /** Decoding with required, canonical padding. */
  function DecodePadded(s: seq<byte>): Option<seq<byte>> {
    if |s| % 4 != 0 then None
    else if |s| >= 4 && s[|s| - 2] == PAD && s[|s| - 1] == PAD then Decode(s[..|s| - 2])
    else if |s| >= 4 && s[|s| - 1] == PAD then Decode(s[..|s| - 1])
    else Decode(s)
  }

  lemma {:induction false} EncodeLength(s: seq<byte>)
    ensures |Encode(s)| == |s| / 3 * 4 + (if |s| % 3 == 0 then 0 else |s| % 3 + 1)
    decreases |s|
  {
    if |s| >= 3 {
      EncodeLength(s[3..]);
    }
  }

  lemma {:induction false} SymbolsHaveNoPad(v: seq<byte>)
    requires AreSextets(v)
    ensures PAD !in Symbols(v) && IsAscii(Symbols(v))
    decreases |v|
  {
    if v != [] {
      SymbolSextet(v[0]);
      SymbolsHaveNoPad(v[1..]);
    }
  }

  lemma EncodeHasNoPad(s: seq<byte>)
    ensures PAD !in Encode(s) && IsAscii(Encode(s))
  {
    EncodeIsSymbols(s);
    SymbolsHaveNoPad(ToSextets(s));
  }

  lemma DecodePaddedOfEncode(s: seq<byte>)
    ensures DecodePadded(EncodePadded(s)) == Some(s)
  {
    EncodeHasNoPad(s);
    EncodeLength(s);
    var e := Encode(s);
    var p := EncodePadded(s);
    assert p[..|e|] == e;
    assert |e| > 0 ==> e[|e| - 1] in e;
    DecodeIffEncode(e, s);
    if |s| % 3 == 1 {
      assert p[|p| - 2] == PAD && p[|p| - 1] == PAD && |p| - 2 == |e|;
    } else if |s| % 3 == 2 {
      assert p[|p| - 1] == PAD && p[|p| - 2] == e[|e| - 1] && |p| - 1 == |e|;
    } else {
      assert p == e;
      assert |p| > 0 ==> p[|p| - 1] != PAD;
    }
  }

  lemma PaddedDecodesOnlyEncodings(text: seq<byte>, s: seq<byte>)
    requires DecodePadded(text) == Some(s)
    ensures text == EncodePadded(s)
  {
    var cut := if |text| >= 4 && text[|text| - 2] == PAD && text[|text| - 1] == PAD then 2
               else if |text| >= 4 && text[|text| - 1] == PAD then 1 else 0;
    var e := text[..|text| - cut];
    assert e + text[|text| - cut..] == text;
    assert cut == 0 ==> e == text;
    DecodeIffEncode(e, s);
    EncodeLength(s);
    if cut == 2 {
      assert text[|text| - cut..] == [PAD, PAD];
    } else if cut == 1 {
      assert text[|text| - cut..] == [PAD];
    } else {
      assert text + [] == text;
    }
  }

  /** A padded encoding is read by the padded decoder, and only that. */
  lemma DecodePaddedIffEncode(text: seq<byte>, s: seq<byte>)
    ensures DecodePadded(text) == Some(s) <==> text == EncodePadded(s)
  {
    DecodePaddedOfEncode(s);
    if DecodePadded(text) == Some(s) {
      PaddedDecodesOnlyEncodings(text, s);
    }
  }
}
