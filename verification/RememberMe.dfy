/**
 The remember-me cookie: percent-encoded fields joined by colons under unpadded
 Base64, with a keyed digest compared in constant time.
 */
module RememberMe {
  import opened Options
  import opened Text
  import opened Bytes
  import opened Lists
  import Base64

  const I64_MIN: int := -0x8000_0000_0000_0000
  const I64_MAX: int := 0x7FFF_FFFF_FFFF_FFFF

  datatype Algorithm = Md5 | Sha256

  const MD5_NAME: seq<byte> := [0x4D, 0x44, 0x35]
  const SHA256_NAME: seq<byte> := [0x53, 0x48, 0x41, 0x32, 0x35, 0x36]

  function JavaName(a: Algorithm): seq<byte> {
    match a
    case Md5 => MD5_NAME
    case Sha256 => SHA256_NAME
  }

  function FromJavaName(name: seq<byte>): Option<Algorithm> {
    if name == MD5_NAME then Some(Md5) else if name == SHA256_NAME then Some(Sha256) else None
  }

  datatype Token = Token(username: seq<byte>, expiryMillis: int, algorithm: Algorithm, signature: seq<byte>)

  // ---------------------------------------------------------------- field encoding

  predicate Unreserved(b: byte) {
    || Between(b, 0x30, 0x39) || Between(b, 0x41, 0x5A) || Between(b, 0x61, 0x7A)
    || b == 0x2D || b == 0x2E || b == 0x5F || b == 0x7E
  }

  function EncodeByte(b: byte): seq<byte> {
    if Unreserved(b) then [b] else Triple(b)
  }

  function UrlEncode(s: seq<byte>): seq<byte> {
    if s == [] then [] else EncodeByte(s[0]) + UrlEncode(s[1..])
  }

  /** Every "%20" becomes '+'. */
  function ReplaceSpaces(s: seq<byte>): seq<byte>
    decreases |s|
  {
    if s == [] then []
    else if |s| >= 3 && s[0] == PERCENT && s[1] == 0x32 && s[2] == 0x30 then [PLUS] + ReplaceSpaces(s[3..])
    else [s[0]] + ReplaceSpaces(s[1..])
  }

  function JavaUrlEncode(s: seq<byte>): seq<byte> { ReplaceSpaces(UrlEncode(s)) }

  function JavaUrlDecode(s: seq<byte>): Option<seq<byte>> {
    var d := PercentDecode(PlusToSpace(s));
    if IsUtf8(d) then Some(d) else None
  }

  /** What one byte of a field becomes. */
  function JavaByte(b: byte): seq<byte> {
    if b == SPACE then [PLUS] else EncodeByte(b)
  }

  function JavaBytes(s: seq<byte>): seq<byte> {
    if s == [] then [] else JavaByte(s[0]) + JavaBytes(s[1..])
  }

  lemma ReplaceSpacesHead(b: byte, rest: seq<byte>)
    ensures ReplaceSpaces(EncodeByte(b) + rest) == JavaByte(b) + ReplaceSpaces(rest)
  {
    var s := EncodeByte(b) + rest;
    if Unreserved(b) {
      assert s[1..] == rest;
    } else {
      HexInverse(b);
      TripleIsSpaceOnlyForSpace(b);
      assert s == [s[0], s[1], s[2]] + rest && s[3..] == rest;
      if b != SPACE {
        var t := s[1..];
        assert s[1] != PERCENT && s[2] != PERCENT;
        assert t[0] == s[1] && t[1] == s[2] && t[1..][0] == s[2] && t[1..][1..] == rest;
        assert ReplaceSpaces(t[1..]) == [s[2]] + ReplaceSpaces(rest);
        assert ReplaceSpaces(t) == [s[1]] + ReplaceSpaces(t[1..]);
        assert ReplaceSpaces(s) == [s[0]] + ReplaceSpaces(t);
      }
    }
  }

  lemma TripleIsSpaceOnlyForSpace(b: byte)
    ensures Triple(b)[1] == 0x32 && Triple(b)[2] == 0x30 <==> b == SPACE
    ensures Triple(b)[1] != PERCENT && Triple(b)[2] != PERCENT
  {
  }

  lemma {:induction false} JavaUrlEncodeIs(s: seq<byte>)
    ensures JavaUrlEncode(s) == JavaBytes(s)
    decreases |s|
  {
    if s != [] {
      JavaUrlEncodeIs(s[1..]);
      ReplaceSpacesHead(s[0], UrlEncode(s[1..]));
    }
  }

  lemma DecodeJavaByte(b: byte, rest: seq<byte>)
    ensures PercentDecode(PlusToSpace(JavaByte(b) + rest)) == [b] + PercentDecode(PlusToSpace(rest))
  {
    PlusToSpaceAppend(JavaByte(b), rest);
    if b == SPACE {
      assert PlusToSpace([PLUS]) == [SPACE] + PlusToSpace([PLUS][1..]);
      DecodeLiteral(SPACE, PlusToSpace(rest));
    } else if Unreserved(b) {
      PlusToSpaceNoPlus([b]);
      DecodeLiteral(b, PlusToSpace(rest));
    } else {
      HexInverse(b);
      PlusToSpaceNoPlus(Triple(b));
      DecodeTriple(b, PlusToSpace(rest));
    }
  }

  lemma {:induction false} DecodeJavaBytes(s: seq<byte>)
    ensures PercentDecode(PlusToSpace(JavaBytes(s))) == s
    decreases |s|
  {
    if s != [] {
      DecodeJavaBytes(s[1..]);
      DecodeJavaByte(s[0], JavaBytes(s[1..]));
    }
  }

  lemma {:induction false} JavaBytesPlain(s: seq<byte>)
    ensures COLON !in JavaBytes(s) && IsAscii(JavaBytes(s))
    decreases |s|
  {
    if s != [] {
      JavaBytesPlain(s[1..]);
      HexInverse(s[0]);
    }
  }

  /** Decoding an encoded field gives it back; encoded fields are ASCII without colons. */
  lemma FieldRoundTrip(s: seq<byte>)
    requires IsUtf8(s)
    ensures JavaUrlDecode(JavaUrlEncode(s)) == Some(s)
    ensures COLON !in JavaUrlEncode(s) && IsAscii(JavaUrlEncode(s))
  {
    JavaUrlEncodeIs(s);
    DecodeJavaBytes(s);
    JavaBytesPlain(s);
  }

  // ---------------------------------------------------------------- java.net.URLEncoder

  const STAR: byte := 0x2A
  const TILDE: byte := 0x7E

  /** One byte as java.net.URLEncoder writes it: letters, digits and "-._*" plain, a space as '+'. */
  function UrlEncoderByte(b: byte): seq<byte> {
    if Between(b, 0x30, 0x39) || Between(b, 0x41, 0x5A) || Between(b, 0x61, 0x7A)
       || b == 0x2D || b == 0x2E || b == 0x5F || b == STAR then [b]
    else if b == SPACE then [PLUS]
    else Triple(b)
  }

  /** The Java class the source promises to match byte for byte. */
  function UrlEncoder(s: seq<byte>): seq<byte> {
    if s == [] then [] else UrlEncoderByte(s[0]) + UrlEncoder(s[1..])
  }

  /** The two inputs on which the promise fails: '~' stays plain here, '*' is escaped. */
  lemma TildeAndStarDiffer()
    ensures JavaUrlEncode([TILDE]) == [TILDE] && UrlEncoder([TILDE]) == Triple(TILDE)
    ensures JavaUrlEncode([STAR]) == Triple(STAR) && UrlEncoder([STAR]) == [STAR]
  {
    JavaUrlEncodeIs([TILDE]);
    JavaUrlEncodeIs([STAR]);
    assert JavaBytes([TILDE]) == JavaByte(TILDE) + JavaBytes([TILDE][1..]);
    assert JavaBytes([STAR]) == JavaByte(STAR) + JavaBytes([STAR][1..]);
    assert UrlEncoder([TILDE]) == UrlEncoderByte(TILDE) + UrlEncoder([TILDE][1..]);
    assert UrlEncoder([STAR]) == UrlEncoderByte(STAR) + UrlEncoder([STAR][1..]);
  }

  lemma JavaByteIff(b: byte)
    ensures |JavaByte(b)| > 0 && |UrlEncoderByte(b)| > 0
    ensures JavaByte(b) == UrlEncoderByte(b) <==> b != STAR && b != TILDE
    ensures b == STAR || b == TILDE ==> JavaByte(b)[0] != UrlEncoderByte(b)[0]
  {
  }

  lemma {:induction false} JavaBytesIff(s: seq<byte>)
    ensures JavaBytes(s) == UrlEncoder(s) <==> STAR !in s && TILDE !in s
    decreases |s|
  {
    if s != [] {
      JavaByteIff(s[0]);
      JavaBytesIff(s[1..]);
      assert s == [s[0]] + s[1..];
      var a, b := JavaBytes(s), UrlEncoder(s);
      var head := |JavaByte(s[0])|;
      if s[0] == STAR || s[0] == TILDE {
        assert a[0] != b[0];
      } else {
        assert a[head..] == JavaBytes(s[1..]) && b[head..] == UrlEncoder(s[1..]);
      }
    }
  }

  /** The encoder matches java.net.URLEncoder exactly on the values without '*' and '~'. */
  lemma UrlEncoderIff(s: seq<byte>)
    ensures JavaUrlEncode(s) == UrlEncoder(s) <==> STAR !in s && TILDE !in s
  {
    JavaUrlEncodeIs(s);
    JavaBytesIff(s);
  }

  // ---------------------------------------------------------------- signatures

  /** The digest functions, which the model does not look into. */
  datatype Digests = Digests(md5: seq<byte> -> seq<byte>, sha256: seq<byte> -> seq<byte>)

  function LowerHex(s: seq<byte>): seq<byte> {
    if s == [] then [] else [HexDigit(High(s[0]), 0x57), HexDigit(Low(s[0]), 0x57)] + LowerHex(s[1..])
  }

  /** What is signed: user, expiry, password hash and secret, and the generation once it is positive. */
  function SignedText(
      expiryMillis: int, username: seq<byte>, passwordHash: seq<byte>, secret: seq<byte>, generation: int): seq<byte>
  {
    username + [COLON] + SignedBytes(expiryMillis) + [COLON] + passwordHash + [COLON] + secret
    + if generation > 0 then [COLON] + SignedBytes(generation) else []
  }

  function Signature(
      d: Digests, expiryMillis: int, username: seq<byte>, passwordHash: seq<byte>, secret: seq<byte>,
      generation: int, algorithm: Algorithm): seq<byte>
  {
    var text := SignedText(expiryMillis, username, passwordHash, secret, generation);
    LowerHex(if algorithm.Md5? then d.md5(text) else d.sha256(text))
  }

  method MakeSignature(
      d: Digests, expiryMillis: int, username: seq<byte>, passwordHash: seq<byte>, secret: seq<byte>,
      generation: int, algorithm: Algorithm) returns (hex: seq<byte>)
    ensures hex == Signature(d, expiryMillis, username, passwordHash, secret, generation, algorithm)
    ensures
      var text := SignedText(expiryMillis, username, passwordHash, secret, generation);
      HexDecode(hex) == Some(if algorithm.Md5? then d.md5(text) else d.sha256(text))
  {
    var text := username + [COLON] + SignedBytes(expiryMillis) + [COLON] + passwordHash + [COLON] + secret;
    if generation > 0 {
      text := text + ([COLON] + SignedBytes(generation));
    }
    assert text == SignedText(expiryMillis, username, passwordHash, secret, generation);
    var digest := if algorithm.Md5? then d.md5(text) else d.sha256(text);
    hex := LowerHex(digest);
    HexDecodeIff(hex, digest);
  }

  function LowerHexValue(b: byte): Option<byte> {
    if Between(b, 0x30, 0x39) then Some(b - 0x30) else if Between(b, 0x61, 0x66) then Some(b - 0x57) else None
  }

  /** The bytes written as pairs of the digits 0-9 and a-f. */
  function HexDecode(text: seq<byte>): Option<seq<byte>>
    decreases |text|
  {
    if text == [] then Some([])
    else if |text| == 1 then None
    else
      match (LowerHexValue(text[0]), LowerHexValue(text[1]), HexDecode(text[2..]))
      case (Some(high), Some(low), Some(rest)) => Some([FromNibbles(high, low)] + rest)
      case _ => None
  }

  lemma HexDigitIff(b: byte, v: byte)
    ensures LowerHexValue(b) == Some(v) <==> v < 16 && b == HexDigit(v, 0x57)
  {
  }

  lemma NibblesIff(high: byte, low: byte, b: byte)
    requires high < 16 && low < 16
    ensures FromNibbles(high, low) == b <==> high == High(b) && low == Low(b)
  {
  }

  /** A text decodes to some bytes exactly when it is their lower-case hexadecimal form. */
  lemma {:induction false} HexDecodeIff(text: seq<byte>, s: seq<byte>)
    ensures HexDecode(text) == Some(s) <==> text == LowerHex(s)
    decreases |text|
  {
    if |text| >= 2 && s != [] {
      HexDecodeIff(text[2..], s[1..]);
      HexHead(text[0], text[1], s[0]);
      assert text == [text[0], text[1]] + text[2..] && s == [s[0]] + s[1..];
      assert LowerHex(s)[2..] == LowerHex(s[1..]);
    }
  }

  lemma HexHead(a: byte, b: byte, v: byte)
    ensures a == HexDigit(High(v), 0x57) && b == HexDigit(Low(v), 0x57)
            <==> LowerHexValue(a).Some? && LowerHexValue(b).Some?
                 && FromNibbles(LowerHexValue(a).value, LowerHexValue(b).value) == v
  {
    NibbleBounds(v);
    HexDigitIff(a, High(v));
    HexDigitIff(b, Low(v));
    if LowerHexValue(a).Some? && LowerHexValue(b).Some? {
      HexDigitIff(a, LowerHexValue(a).value);
      HexDigitIff(b, LowerHexValue(b).value);
      NibblesIff(LowerHexValue(a).value, LowerHexValue(b).value, v);
    }
  }

  /** With all else equal, two generations sign the same text exactly if they are equal or neither is positive. */
  lemma GenerationSignedIff(
      expiryMillis: int, username: seq<byte>, passwordHash: seq<byte>, secret: seq<byte>, g: int, h: int)
    ensures SignedText(expiryMillis, username, passwordHash, secret, g)
            == SignedText(expiryMillis, username, passwordHash, secret, h)
            <==> g == h || (g <= 0 && h <= 0)
  {
    var head := username + [COLON] + SignedBytes(expiryMillis) + [COLON] + passwordHash + [COLON] + secret;
    var a, b := SignedText(expiryMillis, username, passwordHash, secret, g), SignedText(expiryMillis, username, passwordHash, secret, h);
    if a == b && (g > 0 || h > 0) {
      assert g > 0 ==> a == head + ([COLON] + SignedBytes(g));
      assert h > 0 ==> b == head + ([COLON] + SignedBytes(h));
      assert g <= 0 ==> |a| == |head|;
      assert h <= 0 ==> |b| == |head|;
      assert [COLON] + SignedBytes(g) == a[|head|..] == b[|head|..] == [COLON] + SignedBytes(h);
      assert SignedBytes(g) == ([COLON] + SignedBytes(g))[1..] == ([COLON] + SignedBytes(h))[1..] == SignedBytes(h);
      SignedBytesInjective(g, h);
    }
  }

  /** The bytes of ASCII text. */
  function Spelled(s: string): seq<byte>
    requires forall i :: 0 <= i < |s| ==> s[i] < '\U{0080}'
  {
    seq(|s|, i requires 0 <= i < |s| => (s[i] as int) as byte)
  }

  lemma NumeralSpelled(c: char)
    requires IsDigit(c) || c == '-'
    ensures NumeralByte(c) == (c as int) as byte
  {
    assert IsDigit(c) ==> c == '0' || c == '1' || c == '2' || c == '3' || c == '4'
                          || c == '5' || c == '6' || c == '7' || c == '8' || c == '9';
  }

  lemma SignedBytesSpelled(n: int)
    ensures COLON !in SignedBytes(n)
    ensures forall i :: 0 <= i < |Signed(n)| ==> Signed(n)[i] < '\U{0080}'
    ensures SignedBytes(n) == Spelled(Signed(n))
  {
    var s := Signed(n);
    forall i | 0 <= i < |s| ensures s[i] < '\U{0080}' && NumeralByte(s[i]) == (s[i] as int) as byte && NumeralByte(s[i]) != COLON {
      NumeralSpelled(s[i]);
    }
  }

  lemma SplitFour(a: seq<byte>, b: seq<byte>, c: seq<byte>, d: seq<byte>)
    requires COLON !in a && COLON !in b && COLON !in c && COLON !in d
    ensures Split(a + [COLON] + b + [COLON] + c + [COLON] + d, COLON) == [a, b, c, d]
  {
    var cd := c + [COLON] + d;
    var bcd := b + [COLON] + cd;
    assert a + [COLON] + b + [COLON] + c + [COLON] + d == a + [COLON] + bcd;
    SplitHead(a, bcd, COLON);
    SplitHead(b, cd, COLON);
    SplitHead(c, d, COLON);
    SplitHead(d, [], COLON);
  }

  lemma SplitFive(a: seq<byte>, b: seq<byte>, c: seq<byte>, d: seq<byte>, e: seq<byte>)
    requires COLON !in a && COLON !in b && COLON !in c && COLON !in d && COLON !in e
    ensures Split(a + [COLON] + b + [COLON] + c + [COLON] + d + ([COLON] + e), COLON) == [a, b, c, d, e]
  {
    var bcde := b + [COLON] + c + [COLON] + d + [COLON] + e;
    assert a + [COLON] + b + [COLON] + c + [COLON] + d + ([COLON] + e) == a + [COLON] + bcde;
    SplitHead(a, bcde, COLON);
    SplitFour(b, c, d, e);
  }

  /** What is signed reads, between its colons: user, expiry, password hash, secret, and a positive generation. */
  lemma SignedTextFields(
      expiryMillis: int, username: seq<byte>, passwordHash: seq<byte>, secret: seq<byte>, generation: int)
    requires COLON !in username && COLON !in passwordHash && COLON !in secret
    ensures Split(SignedText(expiryMillis, username, passwordHash, secret, generation), COLON)
            == [username, SignedBytes(expiryMillis), passwordHash, secret]
               + if generation > 0 then [SignedBytes(generation)] else []
  {
    SignedBytesSpelled(expiryMillis);
    SignedBytesSpelled(generation);
    if generation > 0 {
      SplitFive(username, SignedBytes(expiryMillis), passwordHash, secret, SignedBytes(generation));
    } else {
      SplitFour(username, SignedBytes(expiryMillis), passwordHash, secret);
      var text := username + [COLON] + SignedBytes(expiryMillis) + [COLON] + passwordHash + [COLON] + secret;
      assert text + [] == text;
    }
  }

  lemma CancelAround(head: seq<byte>, x: seq<byte>, y: seq<byte>, tail: seq<byte>)
    requires head + x + tail == head + y + tail
    ensures x == y
  {
    var a, b := head + x + tail, head + y + tail;
    assert |x| == |a| - |head| - |tail| == |y|;
    assert x == a[|head|..|head| + |x|] && y == b[|head|..|head| + |y|];
  }

  /** Two pairs around a colon are equal, if one half is shared or the colon is the first in both. */
  lemma PairsEqual(p: seq<byte>, s: seq<byte>, q: seq<byte>, t: seq<byte>)
    requires p == q || s == t || (COLON !in p && COLON !in q)
    requires p + [COLON] + s == q + [COLON] + t
    ensures p == q && s == t
  {
    if s == t {
      assert p + [COLON] + s == [] + p + ([COLON] + s) && q + [COLON] + t == [] + q + ([COLON] + s);
      CancelAround([], p, q, [COLON] + s);
    } else if COLON !in p && COLON !in q {
      SplitHead(p, s, COLON);
      SplitHead(q, t, COLON);
      assert ([p] + Split(s, COLON))[0] == ([q] + Split(t, COLON))[0];
    }
    var head := p + [COLON];
    assert head + s == head + t;
    assert head + s + [] == head + t + [];
    CancelAround(head, s, t, []);
  }

  /** With all else equal, two password hashes and secrets sign the same text only if they are equal. */
  lemma CredentialsSigned(
      expiryMillis: int, username: seq<byte>, p: seq<byte>, s: seq<byte>, q: seq<byte>, t: seq<byte>, generation: int)
    requires p == q || s == t || (COLON !in p && COLON !in q)
    requires SignedText(expiryMillis, username, p, s, generation) == SignedText(expiryMillis, username, q, t, generation)
    ensures p == q && s == t
  {
    var head := username + [COLON] + SignedBytes(expiryMillis) + [COLON];
    var tail := if generation > 0 then [COLON] + SignedBytes(generation) else [];
    assert SignedText(expiryMillis, username, p, s, generation) == head + (p + [COLON] + s) + tail;
    assert SignedText(expiryMillis, username, q, t, generation) == head + (q + [COLON] + t) + tail;
    CancelAround(head, p + [COLON] + s, q + [COLON] + t, tail);
    PairsEqual(p, s, q, t);
  }

  lemma SignedBytesInjective(m: int, n: int)
    requires SignedBytes(m) == SignedBytes(n)
    ensures m == n
  {
    var low, high := if m < n then m else n, if m < n then n else m;
    SignedBytesParse(m, low, high);
    SignedBytesParse(n, low, high);
  }

  lemma {:induction false} LowerHexAscii(s: seq<byte>)
    ensures IsAscii(LowerHex(s)) && |LowerHex(s)| == 2 * |s|
    decreases |s|
  {
    if s != [] {
      LowerHexAscii(s[1..]);
      NibbleBounds(s[0]);
    }
  }

  /** The exclusive-or of all positions, or-ed together. */
  function Differences(a: seq<byte>, b: seq<byte>, acc: byte): byte
    requires |a| == |b|
    decreases |a|
  {
    if a == [] then acc else Differences(a[1..], b[1..], acc | (a[0] ^ b[0]))
  }

  predicate ConstantTimeEq(expected: seq<byte>, supplied: seq<byte>) {
    |expected| == |supplied| && Differences(expected, supplied, 0) == 0
  }

  lemma {:induction false} DifferencesZeroIff(a: seq<byte>, b: seq<byte>, acc: byte)
    requires |a| == |b|
    ensures Differences(a, b, acc) == 0 <==> acc == 0 && a == b
    decreases |a|
  {
    if a != [] {
      DifferencesZeroIff(a[1..], b[1..], acc | (a[0] ^ b[0]));
      OrXorZero(acc, a[0], b[0]);
      assert a == [a[0]] + a[1..] && b == [b[0]] + b[1..];
    }
  }

  lemma OrXorZero(acc: byte, x: byte, y: byte)
    ensures acc | (x ^ y) == 0 <==> acc == 0 && x == y
  {
  }

  /** The comparison that looks at every byte decides equality. */
  lemma ConstantTimeEqIsEquality(a: seq<byte>, b: seq<byte>)
    ensures ConstantTimeEq(a, b) <==> a == b
  {
    if |a| == |b| {
      DifferencesZeroIff(a, b, 0);
    }
  }

  // ---------------------------------------------------------------- the cookie

  function PlainText(username: seq<byte>, expiryMillis: int, algorithm: Algorithm, signature: seq<byte>): seq<byte> {
    Join([JavaUrlEncode(username), JavaUrlEncode(SignedBytes(expiryMillis)),
          JavaUrlEncode(JavaName(algorithm)), JavaUrlEncode(signature)], COLON)
  }

  function EncodeCookie(
      d: Digests, username: seq<byte>, expiryMillis: int, passwordHash: seq<byte>, secret: seq<byte>, generation: int)
    : seq<byte>
  {
    var signature := Signature(d, expiryMillis, username, passwordHash, secret, generation, Sha256);
    Base64.Encode(PlainText(username, expiryMillis, Sha256, signature))
  }

  function DecodeFields(parts: seq<seq<byte>>): Option<seq<seq<byte>>> {
    if parts == [] then Some([])
    else if JavaUrlDecode(parts[0]).None? || DecodeFields(parts[1..]).None? then None
    else Some([JavaUrlDecode(parts[0]).value] + DecodeFields(parts[1..]).value)
  }

  /** Unpadded Base64 first, then padded. */
  function Base64Either(cookie: seq<byte>): Option<seq<byte>> {
    if Base64.Decode(cookie).Some? then Base64.Decode(cookie) else Base64.DecodePadded(cookie)
  }

  /** Three fields are a legacy MD5 token, four name their algorithm. */
  function TokenOf(fields: seq<seq<byte>>): Option<Token> {
    if |fields| == 3 then
      match ParseSignedBytes(fields[1], I64_MIN, I64_MAX)
      case Some(expiry) => Some(Token(fields[0], expiry, Md5, fields[2]))
      case None => None
    else if |fields| == 4 then
      match FromJavaName(fields[2])
      case None => None
      case Some(algorithm) =>
        match ParseSignedBytes(fields[1], I64_MIN, I64_MAX)
        case Some(expiry) => Some(Token(fields[0], expiry, algorithm, fields[3]))
        case None => None
    else None
  }

  function DecodeCookie(cookie: seq<byte>): Option<Token> {
    match Base64Either(cookie)
    case None => None
    case Some(raw) =>
      if !IsUtf8(raw) then None
      else
        match DecodeFields(Split(raw, COLON))
        case None => None
        case Some(fields) => TokenOf(fields)
  }

  predicate Verify(
      d: Digests, token: Token, passwordHash: seq<byte>, secret: seq<byte>, generation: int, nowMillis: int)
  {
    && token.expiryMillis >= nowMillis
    && ConstantTimeEq(
         Signature(d, token.expiryMillis, token.username, passwordHash, secret, generation, token.algorithm),
         token.signature)
  }

  lemma AsciiAppend(a: seq<byte>, b: seq<byte>)
    requires IsAscii(a) && IsAscii(b)
    ensures IsAscii(a + b) && IsAscii(a + [COLON] + b)
  {
  }

  lemma {:induction false} JoinAscii(parts: seq<seq<byte>>)
    requires forall i :: 0 <= i < |parts| ==> IsAscii(parts[i])
    ensures IsAscii(Join(parts, COLON))
    decreases |parts|
  {
    if |parts| > 1 {
      JoinAscii(parts[1..]);
      AsciiAppend(parts[0], Join(parts[1..], COLON));
    }
  }

  lemma {:induction false} DecodeEncodedFields(fields: seq<seq<byte>>, encoded: seq<seq<byte>>)
    requires |fields| == |encoded|
    requires forall i :: 0 <= i < |fields| ==> IsUtf8(fields[i]) && encoded[i] == JavaUrlEncode(fields[i])
    ensures DecodeFields(encoded) == Some(fields)
    decreases |fields|
  {
    if fields != [] {
      FieldRoundTrip(fields[0]);
      DecodeEncodedFields(fields[1..], encoded[1..]);
      assert fields == [fields[0]] + fields[1..];
    }
  }

  /** The plain text splits and decodes back into its four fields. */
  lemma PlainTextRoundTrip(fields: seq<seq<byte>>, encoded: seq<seq<byte>>)
    requires |fields| == |encoded| && fields != []
    requires forall i :: 0 <= i < |fields| ==> IsUtf8(fields[i]) && encoded[i] == JavaUrlEncode(fields[i])
    ensures IsUtf8(Join(encoded, COLON)) && DecodeFields(Split(Join(encoded, COLON), COLON)) == Some(fields)
  {
    forall i | 0 <= i < |encoded| ensures COLON !in encoded[i] && IsAscii(encoded[i]) {
      FieldRoundTrip(fields[i]);
    }
    JoinAscii(encoded);
    AsciiIsUtf8(Join(encoded, COLON));
    SplitJoin(encoded, COLON);
    DecodeEncodedFields(fields, encoded);
  }

  lemma TokenOfFields(username: seq<byte>, expiryMillis: int, signature: seq<byte>)
    requires I64_MIN <= expiryMillis <= I64_MAX
    ensures TokenOf([username, SignedBytes(expiryMillis), SHA256_NAME, signature])
         == Some(Token(username, expiryMillis, Sha256, signature))
  {
    SignedBytesParse(expiryMillis, I64_MIN, I64_MAX);
    assert SHA256_NAME != MD5_NAME;
  }

  lemma DecodeCookieUnfolds(cookie: seq<byte>, raw: seq<byte>, fields: seq<seq<byte>>)
    requires Base64.Decode(cookie) == Some(raw) && IsUtf8(raw) && DecodeFields(Split(raw, COLON)) == Some(fields)
    ensures DecodeCookie(cookie) == TokenOf(fields)
  {
  }

  lemma FieldsAreUtf8(d: Digests, text: seq<byte>, expiryMillis: int)
    requires I64_MIN <= expiryMillis <= I64_MAX
    ensures IsUtf8(SignedBytes(expiryMillis)) && IsUtf8(SHA256_NAME) && IsUtf8(LowerHex(d.sha256(text)))
  {
    SignedBytesParse(expiryMillis, I64_MIN, I64_MAX);
    AsciiIsUtf8(SignedBytes(expiryMillis));
    AsciiIsUtf8(SHA256_NAME);
    LowerHexAscii(d.sha256(text));
    AsciiIsUtf8(LowerHex(d.sha256(text)));
  }

  /** Four valid fields, encoded, joined and wrapped in Base64, are read back as those fields. */
  lemma FourFieldsDecode(f0: seq<byte>, f1: seq<byte>, f2: seq<byte>, f3: seq<byte>)
    requires IsUtf8(f0) && IsUtf8(f1) && IsUtf8(f2) && IsUtf8(f3)
    ensures
      var raw := Join([JavaUrlEncode(f0), JavaUrlEncode(f1), JavaUrlEncode(f2), JavaUrlEncode(f3)], COLON);
      DecodeCookie(Base64.Encode(raw)) == TokenOf([f0, f1, f2, f3])
  {
    var e0, e1, e2, e3 := JavaUrlEncode(f0), JavaUrlEncode(f1), JavaUrlEncode(f2), JavaUrlEncode(f3);
    var fields, encoded := [f0, f1, f2, f3], [e0, e1, e2, e3];
    forall i | 0 <= i < 4 ensures IsUtf8(fields[i]) && encoded[i] == JavaUrlEncode(fields[i]) {
      assert i == 0 || i == 1 || i == 2 || i == 3;
    }
    FieldsDecode(fields, encoded);
  }

  lemma AlgorithmNamed(name: seq<byte>, a: Algorithm)
    ensures FromJavaName(name) == Some(a) <==> name == Spelled(if a.Md5? then "MD5" else "SHA256")
    ensures JavaName(a) == Spelled(if a.Md5? then "MD5" else "SHA256")
  {
    assert MD5_NAME == Spelled("MD5") && SHA256_NAME == Spelled("SHA256");
    assert |MD5_NAME| == 3 && |SHA256_NAME| == 6;
  }

  lemma TokenOfIff(fields: seq<seq<byte>>, t: Token)
    ensures TokenOf(fields) == Some(t)
            <==> && (|fields| == 3 || |fields| == 4)
                 && fields[0] == t.username && fields[|fields| - 1] == t.signature
                 && ParseSignedBytes(fields[1], -0x8000_0000_0000_0000, 0x7FFF_FFFF_FFFF_FFFF) == Some(t.expiryMillis)
                 && (|fields| == 3 ==> t.algorithm == Md5)
                 && (|fields| == 4 ==> fields[2] == Spelled(if t.algorithm.Md5? then "MD5" else "SHA256"))
  {
    if |fields| == 4 {
      AlgorithmNamed(fields[2], t.algorithm);
    }
  }

  /**
   Which tokens a cookie of these fields decodes to: three fields are a legacy
   token with MD5, four name MD5 or SHA256, and any other number is refused; the
   expiry must be a 64-bit numeral.
   */
  lemma FieldsDecodeIff(fields: seq<seq<byte>>, encoded: seq<seq<byte>>, t: Token)
    requires |fields| == |encoded| && fields != []
    requires forall i :: 0 <= i < |fields| ==> IsUtf8(fields[i]) && encoded[i] == JavaUrlEncode(fields[i])
    ensures DecodeCookie(Base64.Encode(Join(encoded, COLON))) == Some(t)
            <==> && (|fields| == 3 || |fields| == 4)
                 && fields[0] == t.username && fields[|fields| - 1] == t.signature
                 && ParseSignedBytes(fields[1], -0x8000_0000_0000_0000, 0x7FFF_FFFF_FFFF_FFFF) == Some(t.expiryMillis)
                 && (|fields| == 3 ==> t.algorithm == Md5)
                 && (|fields| == 4 ==> fields[2] == Spelled(if t.algorithm.Md5? then "MD5" else "SHA256"))
  {
    FieldsDecode(fields, encoded);
    TokenOfIff(fields, t);
  }

  lemma FieldsDecode(fields: seq<seq<byte>>, encoded: seq<seq<byte>>)
    requires |fields| == |encoded| && fields != []
    requires forall i :: 0 <= i < |fields| ==> IsUtf8(fields[i]) && encoded[i] == JavaUrlEncode(fields[i])
    ensures DecodeCookie(Base64.Encode(Join(encoded, COLON))) == TokenOf(fields)
  {
    PlainTextRoundTrip(fields, encoded);
    var raw := Join(encoded, COLON);
    Base64.DecodeIffEncode(Base64.Encode(raw), raw);
    DecodeCookieUnfolds(Base64.Encode(raw), raw, fields);
  }

  /**
   Decoding an encoded cookie returns the same user and expiry, the SHA-256
   algorithm and the computed signature; it then verifies under the same inputs
   at exactly the times up to and including the expiry.
   */
  lemma CookieRoundTrip(
      d: Digests, username: seq<byte>, expiryMillis: int, passwordHash: seq<byte>, secret: seq<byte>,
      generation: int, nowMillis: int)
    requires IsUtf8(username) && I64_MIN <= expiryMillis <= I64_MAX
    ensures
      var signature := Signature(d, expiryMillis, username, passwordHash, secret, generation, Sha256);
      var token := Token(username, expiryMillis, Sha256, signature);
      && DecodeCookie(EncodeCookie(d, username, expiryMillis, passwordHash, secret, generation)) == Some(token)
      && (Verify(d, token, passwordHash, secret, generation, nowMillis) <==> nowMillis <= expiryMillis)
  {
    var signature := Signature(d, expiryMillis, username, passwordHash, secret, generation, Sha256);
    FieldsAreUtf8(d, SignedText(expiryMillis, username, passwordHash, secret, generation), expiryMillis);
    FourFieldsDecode(username, SignedBytes(expiryMillis), SHA256_NAME, signature);
    TokenOfFields(username, expiryMillis, signature);
    ConstantTimeEqIsEquality(signature, signature);
  }

  /** Verification accepts a token exactly if it has not expired and carries the expected signature. */
  lemma VerifyIff(d: Digests, token: Token, passwordHash: seq<byte>, secret: seq<byte>, generation: int, nowMillis: int)
    ensures Verify(d, token, passwordHash, secret, generation, nowMillis)
            <==> && nowMillis <= token.expiryMillis
                 && token.signature == Signature(d, token.expiryMillis, token.username, passwordHash, secret,
                                                 generation, token.algorithm)
  {
    ConstantTimeEqIsEquality(
      Signature(d, token.expiryMillis, token.username, passwordHash, secret, generation, token.algorithm),
      token.signature);
  }

  /** A cookie that decodes is the unpadded or the padded encoding of its plain text, and of no other. */
  lemma AcceptedCookiesAreCanonical(cookie: seq<byte>, raw: seq<byte>)
    ensures Base64Either(cookie) == Some(raw) <==> cookie == Base64.Encode(raw) || cookie == Base64.EncodePadded(raw)
  {
    Base64.DecodeIffEncode(cookie, raw);
    Base64.DecodePaddedIffEncode(cookie, raw);
    if cookie == Base64.EncodePadded(raw) && Base64.Decode(cookie).Some? {
      var other := Base64.Decode(cookie).value;
      Base64.DecodeIffEncode(cookie, other);
      Base64.EncodeHasNoPad(other);
      if |raw| % 3 != 0 {
        assert cookie[|cookie| - 1] in cookie;
      }
      assert cookie == Base64.Encode(raw);
    }
  }

  /** A cookie verifies under other inputs exactly until it expires and only if both sign the same text. */
  lemma VerifiesIffSameText(
      d: Digests, username: seq<byte>, expiryMillis: int, p: seq<byte>, s: seq<byte>, g: int,
      q: seq<byte>, t: seq<byte>, h: int, nowMillis: int)
    requires
      var a, b := SignedText(expiryMillis, username, p, s, g), SignedText(expiryMillis, username, q, t, h);
      d.sha256(a) == d.sha256(b) ==> a == b
    ensures
      var token := Token(username, expiryMillis, Sha256, Signature(d, expiryMillis, username, p, s, g, Sha256));
      Verify(d, token, q, t, h, nowMillis)
      <==> nowMillis <= expiryMillis
           && SignedText(expiryMillis, username, p, s, g) == SignedText(expiryMillis, username, q, t, h)
  {
    var token := Token(username, expiryMillis, Sha256, Signature(d, expiryMillis, username, p, s, g, Sha256));
    VerifyIff(d, token, q, t, h, nowMillis);
    var a := d.sha256(SignedText(expiryMillis, username, p, s, g));
    var b := d.sha256(SignedText(expiryMillis, username, q, t, h));
    HexDecodeIff(LowerHex(a), a);
    HexDecodeIff(LowerHex(b), b);
  }

  /**
   Changing the password revokes, and so does changing the secret: a cookie
   issued under password hash `p` and secret `s` verifies under `q` and `t`
   exactly until its expiry and only if `p == q` and `s == t`, as long as the
   digest tells the two signed texts apart. A password hash with a colon in it
   could trade characters with the secret, but only if both change at once.
   */
  lemma CredentialsRevokeIff(
      d: Digests, username: seq<byte>, expiryMillis: int, p: seq<byte>, s: seq<byte>, q: seq<byte>, t: seq<byte>,
      generation: int, nowMillis: int)
    requires p == q || s == t || (COLON !in p && COLON !in q)
    requires
      var a := SignedText(expiryMillis, username, p, s, generation);
      var b := SignedText(expiryMillis, username, q, t, generation);
      d.sha256(a) == d.sha256(b) ==> a == b
    ensures
      var token := Token(username, expiryMillis, Sha256, Signature(d, expiryMillis, username, p, s, generation, Sha256));
      Verify(d, token, q, t, generation, nowMillis) <==> nowMillis <= expiryMillis && p == q && s == t
  {
    VerifiesIffSameText(d, username, expiryMillis, p, s, generation, q, t, generation, nowMillis);
    if SignedText(expiryMillis, username, p, s, generation) == SignedText(expiryMillis, username, q, t, generation) {
      CredentialsSigned(expiryMillis, username, p, s, q, t, generation);
    }
  }

  /**
   Raising the generation revokes: a cookie issued at generation `g` verifies at
   generation `h` exactly until its expiry and only if the two are equal or
   neither is positive, as long as the digest tells the two signed texts apart.
   */
  lemma RevokedIff(
      d: Digests, username: seq<byte>, expiryMillis: int, passwordHash: seq<byte>, secret: seq<byte>,
      g: int, h: int, nowMillis: int)
    requires
      var a := SignedText(expiryMillis, username, passwordHash, secret, g);
      var b := SignedText(expiryMillis, username, passwordHash, secret, h);
      d.sha256(a) == d.sha256(b) ==> a == b
    ensures
      var token := Token(username, expiryMillis, Sha256, Signature(d, expiryMillis, username, passwordHash, secret, g, Sha256));
      Verify(d, token, passwordHash, secret, h, nowMillis)
      <==> nowMillis <= expiryMillis && (g == h || (g <= 0 && h <= 0))
  {
    VerifiesIffSameText(d, username, expiryMillis, passwordHash, secret, g, passwordHash, secret, h, nowMillis);
    GenerationSignedIff(expiryMillis, username, passwordHash, secret, g, h);
  }
}
