/**
 The request-path firewall: encoded blocklist, one percent-decoding (section 2.4
 of RFC 3986), decoded blocklist, dot segments (section 5.2.4).
 */
module HttpFirewall {
  import opened Options
  import opened Bytes
  import opened Lists

  const SLASH: byte := 0x2F
  const BACKSLASH: byte := 0x5C
  const SEMICOLON: byte := 0x3B
  const DOT: byte := 0x2E

  predicate StartsWith(s: seq<byte>, p: seq<byte>) { |p| <= |s| && s[..|p|] == p }

  predicate Contains(s: seq<byte>, p: seq<byte>) {
    StartsWith(s, p) || (s != [] && Contains(s[1..], p))
  }

  function LowerByte(b: byte): byte { if Between(b, 0x41, 0x5A) then b + 32 else b }

  function Lower(s: seq<byte>): seq<byte> {
    if s == [] then [] else [LowerByte(s[0])] + Lower(s[1..])
  }

  /** The lower-case spelling "%xx" of a byte. */
  function LowerTriple(v: byte): seq<byte> { [PERCENT, HexDigit(High(v), 0x57), HexDigit(Low(v), 0x57)] }

  /** Semicolon, slash, backslash, NUL, line feed, carriage return, percent and dot must not arrive encoded. */
  const ENCODED_BLOCKLIST: seq<byte> := [0x3B, 0x2F, 0x5C, 0x00, 0x0A, 0x0D, 0x25, 0x2E]

  predicate IsDotSegment(segment: seq<byte>) { segment == [DOT] || segment == [DOT, DOT] }

  predicate Normalized(path: seq<byte>) {
    forall i :: 0 <= i < |Split(path, SLASH)| ==> !IsDotSegment(Split(path, SLASH)[i])
  }

  predicate Printable(path: seq<byte>) { forall i :: 0 <= i < |path| ==> Between(path[i], 0x20, 0x7E) }

  predicate RejectedEncoded(path: seq<byte>) {
    || !Printable(path)
    || SEMICOLON in path || Contains(path, [SLASH, SLASH]) || BACKSLASH in path
    || 0x00 in path || 0x0A in path || 0x0D in path
    || (exists k :: 0 <= k < |ENCODED_BLOCKLIST| && Contains(Lower(path), LowerTriple(ENCODED_BLOCKLIST[k])))
    || !Normalized(path)
  }

  /** U+2028 and U+2029 in UTF-8. */
  const LINE_SEPARATOR: seq<byte> := [0xE2, 0x80, 0xA8]
  const PARAGRAPH_SEPARATOR: seq<byte> := [0xE2, 0x80, 0xA9]

  predicate RejectedDecoded(decoded: seq<byte>) {
    || SEMICOLON in decoded || Contains(decoded, [SLASH, SLASH]) || BACKSLASH in decoded || PERCENT in decoded
    || 0x00 in decoded || 0x0A in decoded || 0x0D in decoded
    || Contains(decoded, LINE_SEPARATOR) || Contains(decoded, PARAGRAPH_SEPARATOR)
    || !Normalized(decoded)
  }

  predicate Rejected(path: seq<byte>) {
    || RejectedEncoded(path)
    || !IsUtf8(PercentDecode(path))
    || RejectedDecoded(PercentDecode(path))
  }

  // ---------------------------------------------------------------- percent triples

  /** Some well-formed triple of `s` stands for `v`. */
  predicate HasTriple(s: seq<byte>, v: byte) {
    s != [] && ((TripleAt(s) && TripleValue(s) == v) || HasTriple(s[1..], v))
  }

  /** Every '%' starts a triple. */
  predicate WellFormed(s: seq<byte>) {
    s == [] || ((s[0] == PERCENT ==> TripleAt(s)) && WellFormed(s[1..]))
  }

  lemma LowerHexDigit(b: byte, v: byte)
    requires v < 16
    ensures LowerByte(b) == HexDigit(v, 0x57) <==> HexValue(b) == Some(v)
  {
  }

  lemma LowerAt(s: seq<byte>, i: nat)
    requires i < |s| && i < 3
    ensures |Lower(s)| == |s| && Lower(s)[i] == LowerByte(s[i])
  {
    LowerLength(s);
    if i > 0 {
      assert Lower(s)[i] == Lower(s[1..])[i - 1];
      LowerAt(s[1..], i - 1);
    }
  }

  lemma {:induction false} LowerLength(s: seq<byte>)
    ensures |Lower(s)| == |s|
    decreases |s|
  {
    if s != [] {
      LowerLength(s[1..]);
    }
  }

  lemma ThreeLower(s: seq<byte>)
    requires |s| >= 3
    ensures |Lower(s)| == |s|
    ensures Lower(s)[..3] == [LowerByte(s[0]), LowerByte(s[1]), LowerByte(s[2])]
  {
    LowerLength(s);
    LowerAt(s, 0);
    LowerAt(s, 1);
    LowerAt(s, 2);
  }

  lemma TripleHead(s: seq<byte>, v: byte)
    ensures StartsWith(Lower(s), LowerTriple(v)) <==> TripleAt(s) && TripleValue(s) == v
  {
    LowerLength(s);
    if |s| >= 3 {
      ThreeLower(s);
      NibbleBounds(v);
      SameThree(LowerByte(s[0]), LowerByte(s[1]), LowerByte(s[2]), v);
      LowerHexDigit(s[1], High(v));
      LowerHexDigit(s[2], Low(v));
      if TripleAt(s) {
        HexValueBound(s[1]);
        HexValueBound(s[2]);
        NibblesBack(HexValue(s[1]).value, HexValue(s[2]).value);
      }
    }
  }

  lemma SameThree(a: byte, b: byte, c: byte, v: byte)
    ensures [a, b, c] == LowerTriple(v)
            <==> a == PERCENT && b == HexDigit(High(v), 0x57) && c == HexDigit(Low(v), 0x57)
  {
    if [a, b, c] == LowerTriple(v) {
      assert [a, b, c][0] == PERCENT && [a, b, c][1] == LowerTriple(v)[1] && [a, b, c][2] == LowerTriple(v)[2];
    }
  }

  lemma HexValueBound(b: byte)
    ensures HexValue(b).Some? ==> HexValue(b).value < 16
  {
  }

  /** The case-insensitive text search of the blocklist finds exactly the triples of that value. */
  lemma {:induction false} BlocklistFindsTriples(s: seq<byte>, v: byte)
    ensures Contains(Lower(s), LowerTriple(v)) <==> HasTriple(s, v)
    decreases |s|
  {
    TripleHead(s, v);
    LowerLength(s);
    if s != [] {
      BlocklistFindsTriples(s[1..], v);
      assert Lower(s)[1..] == Lower(s[1..]);
    }
  }

  /** After a triple only what follows it matters. */
  lemma TripleSkips(s: seq<byte>, v: byte)
    requires TripleAt(s)
    ensures HasTriple(s, v) <==> TripleValue(s) == v || HasTriple(s[3..], v)
    ensures WellFormed(s) <==> WellFormed(s[3..])
  {
    var t := s[1..];
    assert t[0] == s[1] && t[1] == s[2] && t[1..][1..] == s[3..];
    assert s[1] != PERCENT && s[2] != PERCENT;
    assert HasTriple(t, v) <==> HasTriple(t[1..], v);
    assert t[1..][0] == s[2];
    assert HasTriple(t[1..], v) <==> HasTriple(s[3..], v);
    assert WellFormed(t) <==> WellFormed(t[1..]);
    assert WellFormed(t[1..]) <==> WellFormed(s[3..]);
  }

  // ---------------------------------------------------------------- what decoding can produce

  /** A decoded byte was written literally or as a triple; a '%' only survives if it was malformed or encoded. */
  lemma {:induction false} DecodedByteOrigin(s: seq<byte>, b: byte)
    ensures b != PERCENT && b in PercentDecode(s) ==> b in s || HasTriple(s, b)
    ensures PERCENT in PercentDecode(s) <==> !WellFormed(s) || HasTriple(s, PERCENT)
    decreases |s|
  {
    if s == [] {
    } else if TripleAt(s) {
      DecodedByteOrigin(s[3..], b);
      TripleSkips(s, b);
      TripleSkips(s, PERCENT);
    } else {
      DecodedByteOrigin(s[1..], b);
    }
  }

  lemma DecodeHead(s: seq<byte>)
    requires s != []
    ensures PercentDecode(s) != []
    ensures PercentDecode(s)[0] == if TripleAt(s) then TripleValue(s) else s[0]
  {
  }

  lemma DoubleSlashHead(s: seq<byte>)
    requires s != [] && !HasTriple(s, SLASH)
    ensures StartsWith(PercentDecode(s), [SLASH, SLASH]) ==> StartsWith(s, [SLASH, SLASH])
  {
    var d := PercentDecode(s);
    if StartsWith(d, [SLASH, SLASH]) {
      assert d[0] == d[..2][0] && d[1] == d[..2][1];
      DecodeHead(s);
      assert d[1..] == PercentDecode(s[1..]) && d[1] == d[1..][0];
      assert s[1..] != [];
      DecodeHead(s[1..]);
      assert s[..2] == [SLASH, SLASH];
    }
  }

  /** Without encoded slashes, decoding creates no double slash. */
  lemma {:induction false} NoNewDoubleSlash(s: seq<byte>)
    requires !HasTriple(s, SLASH) && !Contains(s, [SLASH, SLASH])
    ensures !Contains(PercentDecode(s), [SLASH, SLASH])
    decreases |s|
  {
    if s != [] {
      DoubleSlashHead(s);
      var rest := if TripleAt(s) then s[3..] else s[1..];
      if TripleAt(s) {
        TripleSkips(s, SLASH);
        assert !Contains(s[1..], [SLASH, SLASH]);
        assert !Contains(s[1..][1..], [SLASH, SLASH]);
        assert s[3..] == s[1..][1..][1..];
      }
      NoNewDoubleSlash(rest);
      assert PercentDecode(s)[1..] == PercentDecode(rest);
    }
  }

  function DecodeAll(parts: seq<seq<byte>>): seq<seq<byte>> {
    if parts == [] then [] else [PercentDecode(parts[0])] + DecodeAll(parts[1..])
  }

  lemma SplitCons(b: byte, rest: seq<byte>)
    ensures Split([b] + rest, SLASH)
         == if b == SLASH then [[]] + Split(rest, SLASH)
            else [[b] + Split(rest, SLASH)[0]] + Split(rest, SLASH)[1..]
  {
    assert ([b] + rest)[1..] == rest;
  }

  lemma {:induction false} FirstSegment(s: seq<byte>)
    ensures
      var seg := Split(s, SLASH)[0];
      && |seg| <= |s| && seg == s[..|seg|] && SLASH !in seg && (|seg| < |s| ==> s[|seg|] == SLASH)
    decreases |s|
  {
    if s != [] && s[0] != SLASH {
      FirstSegment(s[1..]);
    }
  }

  /** A triple lies inside one segment. */
  lemma SplitTriple(s: seq<byte>)
    requires TripleAt(s)
    ensures Split(s, SLASH) == [s[..3] + Split(s[3..], SLASH)[0]] + Split(s[3..], SLASH)[1..]
    ensures SLASH !in s[..3]
  {
    var rest := s[3..];
    var r := Split(rest, SLASH);
    assert s[1] != SLASH && s[2] != SLASH;
    SplitCons(s[2], rest);
    SplitCons(s[1], [s[2]] + rest);
    SplitCons(s[0], [s[1]] + ([s[2]] + rest));
    assert s == [s[0]] + ([s[1]] + ([s[2]] + rest));
    assert s[..3] + r[0] == [s[0]] + ([s[1]] + ([s[2]] + r[0]));
  }

  /** Without encoded slashes, decoding commutes with splitting into segments. */
  lemma {:induction false} DecodeThenSplit(s: seq<byte>)
    requires !HasTriple(s, SLASH)
    ensures Split(PercentDecode(s), SLASH) == DecodeAll(Split(s, SLASH))
    decreases |s|
  {
    if s == [] {
      assert Split(s, SLASH)[1..] == [];
    } else if TripleAt(s) {
      TripleSkips(s, SLASH);
      DecodeThenSplit(s[3..]);
      SplitTriple(s);
      var r := Split(s[3..], SLASH);
      SplitCons(TripleValue(s), PercentDecode(s[3..]));
      var seg := s[..3] + r[0];
      assert seg[3..] == r[0] && TripleAt(seg) && TripleValue(seg) == TripleValue(s);
      assert PercentDecode(seg) == [TripleValue(s)] + PercentDecode(r[0]);
      assert ([seg] + r[1..])[1..] == r[1..];
    } else {
      DecodeThenSplit(s[1..]);
      var r := Split(s[1..], SLASH);
      assert s == [s[0]] + s[1..];
      SplitCons(s[0], s[1..]);
      SplitCons(s[0], PercentDecode(s[1..]));
      if s[0] == SLASH {
        assert ([[]] + r)[1..] == r;
      } else {
        FirstSegment(s[1..]);
        var seg := [s[0]] + r[0];
        assert seg[1..] == r[0];
        SegmentHeadStays(s, seg);
        assert ([seg] + r[1..])[1..] == r[1..];
      }
    }
  }

  /** The first segment starts with a triple only if the path does. */
  lemma SegmentHeadStays(s: seq<byte>, seg: seq<byte>)
    requires s != [] && seg == [s[0]] + Split(s[1..], SLASH)[0] && !TripleAt(s)
    ensures !TripleAt(seg)
  {
    FirstSegment(s[1..]);
    assert |seg| >= 3 ==> seg[1] == s[1..][..|seg| - 1][0] && seg[2] == s[1..][..|seg| - 1][1];
  }

  /** Only dots written literally decode to dots. */
  lemma {:induction false} LiteralDots(s: seq<byte>)
    requires !HasTriple(s, DOT) && forall i :: 0 <= i < |PercentDecode(s)| ==> PercentDecode(s)[i] == DOT
    ensures PercentDecode(s) == s
    decreases |s|
  {
    if s == [] {
    } else if TripleAt(s) {
      DecodeHead(s);
      assert false;
    } else {
      assert PercentDecode(s)[1..] == PercentDecode(s[1..]);
      assert forall i :: 0 <= i < |PercentDecode(s[1..])| ==> PercentDecode(s[1..])[i] == PercentDecode(s)[i + 1];
      LiteralDots(s[1..]);
    }
  }

  lemma {:induction false} DecodeAllAt(parts: seq<seq<byte>>, i: nat)
    requires i < |parts|
    ensures |DecodeAll(parts)| == |parts| && DecodeAll(parts)[i] == PercentDecode(parts[i])
    decreases |parts|
  {
    if |parts| > 1 {
      DecodeAllAt(parts[1..], if i > 0 then i - 1 else 0);
    }
  }

  /** A triple of a segment is a triple of the path. */
  lemma {:induction false} SegmentTriples(s: seq<byte>, i: nat, v: byte)
    requires i < |Split(s, SLASH)| && HasTriple(Split(s, SLASH)[i], v)
    ensures HasTriple(s, v)
    decreases |s|
  {
    if s != [] {
      var r := Split(s[1..], SLASH);
      if s[0] == SLASH {
        SegmentTriples(s[1..], i - 1, v);
      } else if i > 0 {
        SegmentTriples(s[1..], i, v);
      } else {
        var seg := [s[0]] + r[0];
        assert seg[1..] == r[0];
        if HasTriple(r[0], v) {
          SegmentTriples(s[1..], 0, v);
        } else {
          FirstSegment(s[1..]);
          assert seg[1] == s[1..][..|r[0]|][0] && seg[2] == s[1..][..|r[0]|][1];
        }
      }
    }
  }

  /** Without encoded slashes and dots, decoding creates no dot segment. */
  lemma NoNewDotSegment(s: seq<byte>)
    requires !HasTriple(s, SLASH) && !HasTriple(s, DOT) && Normalized(s)
    ensures Normalized(PercentDecode(s))
  {
    DecodeThenSplit(s);
    var parts := Split(s, SLASH);
    var decoded := Split(PercentDecode(s), SLASH);
    forall i | 0 <= i < |decoded| ensures !IsDotSegment(decoded[i]) {
      DecodeAllLength(parts);
      DecodeAllAt(parts, i);
      if IsDotSegment(decoded[i]) {
        if HasTriple(parts[i], DOT) {
          SegmentTriples(s, i, DOT);
        }
        LiteralDots(parts[i]);
      }
    }
  }

  lemma {:induction false} DecodeAllLength(parts: seq<seq<byte>>)
    ensures |DecodeAll(parts)| == |parts|
    decreases |parts|
  {
    if parts != [] {
      DecodeAllLength(parts[1..]);
    }
  }

  // ---------------------------------------------------------------- the laws

  lemma PassedTriples(path: seq<byte>, v: byte)
    requires !RejectedEncoded(path) && v in ENCODED_BLOCKLIST
    ensures !HasTriple(path, v)
  {
    var k :| 0 <= k < |ENCODED_BLOCKLIST| && ENCODED_BLOCKLIST[k] == v;
    assert !Contains(Lower(path), LowerTriple(ENCODED_BLOCKLIST[k]));
    BlocklistFindsTriples(path, v);
  }

  /**
   Once the encoded blocklist has passed, the decoded one can only object to a
   malformed escape or to a line or paragraph separator: everything else it looks
   for cannot arise.
   */
  lemma DecodedBlocklistExact(path: seq<byte>)
    requires !RejectedEncoded(path)
    ensures RejectedDecoded(PercentDecode(path))
            <==> || !WellFormed(path)
                 || Contains(PercentDecode(path), LINE_SEPARATOR)
                 || Contains(PercentDecode(path), PARAGRAPH_SEPARATOR)
  {
    assert ENCODED_BLOCKLIST[0] == SEMICOLON && ENCODED_BLOCKLIST[1] == SLASH && ENCODED_BLOCKLIST[2] == BACKSLASH;
    assert ENCODED_BLOCKLIST[3] == 0x00 && ENCODED_BLOCKLIST[4] == 0x0A && ENCODED_BLOCKLIST[5] == 0x0D;
    assert ENCODED_BLOCKLIST[6] == PERCENT && ENCODED_BLOCKLIST[7] == DOT;
    PassedByte(path, SEMICOLON);
    PassedByte(path, BACKSLASH);
    PassedByte(path, 0x00);
    PassedByte(path, 0x0A);
    PassedByte(path, 0x0D);
    PassedTriples(path, PERCENT);
    PassedTriples(path, SLASH);
    PassedTriples(path, DOT);
    DecodedByteOrigin(path, SEMICOLON);
    NoNewDoubleSlash(path);
    NoNewDotSegment(path);
  }

  lemma PassedByte(path: seq<byte>, b: byte)
    requires !RejectedEncoded(path) && b in ENCODED_BLOCKLIST && b != PERCENT && b !in path
    ensures b !in PercentDecode(path)
  {
    PassedTriples(path, b);
    DecodedByteOrigin(path, b);
  }

  lemma {:induction false} DecodeWithoutPercent(s: seq<byte>)
    requires PERCENT !in s
    ensures PercentDecode(s) == s
    decreases |s|
  {
    if s != [] {
      DecodeWithoutPercent(s[1..]);
    }
  }

  /**
   For every accepted path: decoding commutes with splitting on '/', no decoded
   segment is "." or "..", every escape was well formed, and decoding a second
   time changes nothing.
   */
  lemma AcceptedPathsAreUnambiguous(path: seq<byte>)
    requires !Rejected(path)
    ensures Split(PercentDecode(path), SLASH) == DecodeAll(Split(path, SLASH))
    ensures forall i :: 0 <= i < |Split(path, SLASH)| ==> !IsDotSegment(PercentDecode(Split(path, SLASH)[i]))
    ensures WellFormed(path) && PercentDecode(PercentDecode(path)) == PercentDecode(path)
  {
    assert ENCODED_BLOCKLIST[1] == SLASH;
    PassedTriples(path, SLASH);
    DecodeThenSplit(path);
    DecodedBlocklistExact(path);
    DecodeWithoutPercent(PercentDecode(path));
    forall i | 0 <= i < |Split(path, SLASH)| ensures !IsDotSegment(PercentDecode(Split(path, SLASH)[i])) {
      DecodeAllLength(Split(path, SLASH));
      DecodeAllAt(Split(path, SLASH), i);
    }
  }

  function Slashes(s: seq<byte>): nat {
    if s == [] then 0 else (if s[0] == SLASH then 1 else 0) + Slashes(s[1..])
  }

  lemma {:induction false} SplitCounts(s: seq<byte>)
    ensures |Split(s, SLASH)| == 1 + Slashes(s)
    decreases |s|
  {
    if s != [] {
      SplitCounts(s[1..]);
    }
  }

  lemma SlashesBehindTriple(s: seq<byte>)
    requires TripleAt(s)
    ensures Slashes(s) == Slashes(s[3..])
  {
    var t := s[1..];
    assert t[0] == s[1] && t[1..][0] == s[2] && t[1..][1..] == s[3..];
    assert s[1] != SLASH && s[2] != SLASH;
    assert Slashes(t) == Slashes(t[1..]) && Slashes(t[1..]) == Slashes(s[3..]);
  }

  lemma {:induction false} DecodeAddsSlashes(s: seq<byte>)
    ensures Slashes(PercentDecode(s)) >= Slashes(s)
    ensures HasTriple(s, SLASH) ==> Slashes(PercentDecode(s)) > Slashes(s)
    decreases |s|
  {
    if s == [] {
    } else if TripleAt(s) {
      DecodeAddsSlashes(s[3..]);
      TripleSkips(s, SLASH);
      SlashesBehindTriple(s);
      assert PercentDecode(s)[1..] == PercentDecode(s[3..]);
    } else {
      DecodeAddsSlashes(s[1..]);
      assert PercentDecode(s)[1..] == PercentDecode(s[1..]);
    }
  }

  /** Decoding commutes with splitting exactly when no slash is encoded. */
  lemma CommutesIff(s: seq<byte>)
    ensures Split(PercentDecode(s), SLASH) == DecodeAll(Split(s, SLASH)) <==> !HasTriple(s, SLASH)
  {
    if HasTriple(s, SLASH) {
      DecodeAddsSlashes(s);
      SplitCounts(s);
      SplitCounts(PercentDecode(s));
      DecodeAllLength(Split(s, SLASH));
    } else {
      DecodeThenSplit(s);
    }
  }

  // ---------------------------------------------------------------- exactly which paths pass

  predicate Occurs(s: seq<byte>, p: seq<byte>, i: nat) { i + |p| <= |s| && s[i..i + |p|] == p }

  lemma {:induction false} ContainsIff(s: seq<byte>, p: seq<byte>)
    ensures Contains(s, p) <==> exists i: nat :: Occurs(s, p, i)
    decreases |s|
  {
    assert StartsWith(s, p) <==> Occurs(s, p, 0);
    if s != [] {
      ContainsIff(s[1..], p);
      if i: nat :| Occurs(s, p, i) && i > 0 {
        assert s[1..][i - 1..i - 1 + |p|] == s[i..i + |p|];
        assert Occurs(s[1..], p, i - 1);
      }
      if i: nat :| Occurs(s[1..], p, i) {
        assert s[1..][i..i + |p|] == s[i + 1..i + 1 + |p|];
        assert Occurs(s, p, i + 1);
      }
    }
  }

  /** `s[a..b]` stands between two slashes, or between a slash and an end. */
  predicate SegmentAt(s: seq<byte>, a: nat, b: nat) {
    && a <= b <= |s| && SLASH !in s[a..b]
    && (a == 0 || s[a - 1] == SLASH) && (b == |s| || s[b] == SLASH)
  }

  lemma SegmentShifts(s: seq<byte>, n: nat, a: nat, b: nat)
    requires 0 < n <= |s| && s[n - 1] == SLASH
    ensures SegmentAt(s[n..], a, b) <==> SegmentAt(s, a + n, b + n)
    ensures a <= b && b + n <= |s| ==> s[n..][a..b] == s[a + n..b + n]
  {
    if a <= b && b + n <= |s| {
      assert s[n..][a..b] == s[a + n..b + n];
    }
  }

  lemma FirstSegmentAt(s: seq<byte>, b: nat)
    requires SegmentAt(s, 0, b)
    ensures s[..b] == Split(s, SLASH)[0]
  {
    FirstSegment(s);
    var part := Split(s, SLASH)[0];
    assert forall k :: 0 <= k < |part| ==> part[k] == s[k];
    assert forall k :: 0 <= k < b ==> s[0..b][k] == s[k];
  }

  lemma LaterSegmentAt(s: seq<byte>, a: nat, b: nat)
    requires SegmentAt(s, a, b) && a > 0
    ensures a > |Split(s, SLASH)[0]|
  {
    FirstSegment(s);
    var part := Split(s, SLASH)[0];
    assert forall k :: 0 <= k < |part| ==> part[k] == s[k];
  }

  /** The segments are what stands between slashes. */
  lemma {:induction false} SegmentsIff(s: seq<byte>, seg: seq<byte>)
    ensures seg in Split(s, SLASH) <==> exists a: nat, b: nat :: SegmentAt(s, a, b) && s[a..b] == seg
    decreases |s|
  {
    FirstSegment(s);
    var part := Split(s, SLASH)[0];
    var n := |part| + 1;
    assert SegmentAt(s, 0, |part|) && s[0..|part|] == part;
    if |part| == |s| {
      SplitHead(s, [], SLASH);
      if a: nat, b: nat :| SegmentAt(s, a, b) && s[a..b] == seg {
        LastSegmentAt(s, a, b);
      }
    } else {
      var tail := s[n..];
      assert s == part + [SLASH] + tail;
      SplitHead(part, tail, SLASH);
      SegmentsIff(tail, seg);
      if seg in Split(tail, SLASH) {
        var a: nat, b: nat :| SegmentAt(tail, a, b) && tail[a..b] == seg;
        SegmentShifts(s, n, a, b);
        assert SegmentAt(s, a + n, b + n) && s[a + n..b + n] == seg;
      }
      if a: nat, b: nat :| SegmentAt(s, a, b) && s[a..b] == seg {
        SegmentOfTail(s, n, a, b);
      }
    }
  }

  lemma LastSegmentAt(s: seq<byte>, a: nat, b: nat)
    requires SegmentAt(s, a, b) && |Split(s, SLASH)[0]| == |s|
    ensures a == 0 && s[a..b] == Split(s, SLASH)[0]
  {
    if a > 0 {
      LaterSegmentAt(s, a, b);
    } else {
      FirstSegmentAt(s, b);
    }
  }

  lemma SegmentOfTail(s: seq<byte>, n: nat, a: nat, b: nat)
    requires SegmentAt(s, a, b) && n == |Split(s, SLASH)[0]| + 1 <= |s| && s[n - 1] == SLASH
    ensures s[a..b] == Split(s, SLASH)[0]
            || exists c: nat, d: nat :: SegmentAt(s[n..], c, d) && s[n..][c..d] == s[a..b]
  {
    if a == 0 {
      FirstSegmentAt(s, b);
    } else {
      LaterSegmentAt(s, a, b);
      SegmentShifts(s, n, a - n, b - n);
      assert SegmentAt(s[n..], a - n, b - n) && s[n..][a - n..b - n] == s[a..b];
    }
  }

  /** A path without dot segments, by positions. */
  lemma NormalizedIff(path: seq<byte>)
    ensures Normalized(path)
            <==> forall a: nat, b: nat :: SegmentAt(path, a, b) ==> path[a..b] != [0x2E] && path[a..b] != [0x2E, 0x2E]
  {
    SegmentsIff(path, [0x2E]);
    SegmentsIff(path, [0x2E, 0x2E]);
    if !Normalized(path) {
      var i :| 0 <= i < |Split(path, SLASH)| && IsDotSegment(Split(path, SLASH)[i]);
      assert Split(path, SLASH)[i] in Split(path, SLASH);
    }
  }

  /** Only whole escapes stand in the path. */
  predicate Escaped(us: Units) {
    match us
    case NoUnits => true
    case Units(u, rest) => (u.Plain? ==> u.b != PERCENT) && Escaped(rest)
  }

  /** What the firewall lets through, one unit at a time. */
  predicate UnitPasses(u: Unit) {
    match u
    case Plain(b) => 0x20 <= b <= 0x7E && b != 0x25 && b != 0x3B && b != 0x5C
    case Escape(v, _, _) =>
      v != 0x3B && v != 0x2F && v != 0x5C && v != 0x00 && v != 0x0A && v != 0x0D && v != 0x25 && v != 0x2E
  }

  predicate UnitsPass(us: Units) {
    match us
    case NoUnits => true
    case Units(u, rest) => UnitPasses(u) && UnitsPass(rest)
  }

  /**
   A path passes when it is spelled in passing units, no slash follows a slash,
   no segment is "." or "..", and it decodes to UTF-8 without line and paragraph
   separators.
   */
  ghost predicate Passes(path: seq<byte>, us: Units) {
    && UnitsText(us) == path && UnitsPass(us)
    && (forall i :: 0 <= i < |path| - 1 ==> !(path[i] == 0x2F && path[i + 1] == 0x2F))
    && (forall a: nat, b: nat :: SegmentAt(path, a, b) ==> path[a..b] != [0x2E] && path[a..b] != [0x2E, 0x2E])
    && IsUtf8(UnitsValue(us))
    && (forall i: nat :: !Occurs(UnitsValue(us), [0xE2, 0x80, 0xA8], i) && !Occurs(UnitsValue(us), [0xE2, 0x80, 0xA9], i))
  }

  lemma UnitTriples(u: Unit, rest: seq<byte>, v: byte)
    requires u.Plain? ==> u.b != PERCENT
    ensures HasTriple(UnitText(u) + rest, v) <==> (u.Escape? && u.value == v) || HasTriple(rest, v)
    ensures WellFormed(UnitText(u) + rest) <==> WellFormed(rest)
  {
    var s := UnitText(u) + rest;
    UnitDecodes(u, rest);
    if u.Escape? {
      assert s[3..] == rest;
      TripleSkips(s, v);
      assert PercentDecode(s)[0] == TripleValue(s) == u.value;
    } else {
      assert s[1..] == rest;
    }
  }

  ghost predicate HasEscape(us: Units, v: byte) {
    us.Units? && ((us.first.Escape? && us.first.value == v) || HasEscape(us.rest, v))
  }

  lemma {:induction false} EscapedTriples(us: Units, v: byte)
    requires Escaped(us)
    ensures HasTriple(UnitsText(us), v) <==> HasEscape(us, v)
    ensures WellFormed(UnitsText(us))
    decreases us
  {
    if us.Units? {
      UnitTriples(us.first, UnitsText(us.rest), v);
      EscapedTriples(us.rest, v);
    }
  }

  lemma {:induction false} WellFormedIsEscaped(us: Units)
    requires WellSpelled(us) && WellFormed(UnitsText(us))
    ensures Escaped(us)
    decreases us
  {
    if us.Units? {
      var s := UnitsText(us);
      UnitDecodes(us.first, UnitsText(us.rest));
      if us.first.Escape? {
        TripleSkips(s, us.first.value);
        assert s[3..] == UnitsText(us.rest);
      } else {
        assert s[1..] == UnitsText(us.rest);
      }
      WellFormedIsEscaped(us.rest);
    }
  }

  lemma {:induction false} EscapedIsWellSpelled(us: Units)
    requires Escaped(us)
    ensures WellSpelled(us)
    decreases us
  {
    if us.Units? {
      EscapedIsWellSpelled(us.rest);
    }
  }

  lemma SlashesAt(path: seq<byte>, i: nat)
    ensures Occurs(path, [SLASH, SLASH], i) <==> i + 1 < |path| && path[i] == 0x2F && path[i + 1] == 0x2F
  {
    if i + 2 <= |path| {
      assert path[i..i + 2] == [path[i], path[i + 1]];
    }
  }

  lemma DoubleSlashIff(path: seq<byte>)
    ensures Contains(path, [SLASH, SLASH]) <==> exists i :: 0 <= i < |path| - 1 && path[i] == 0x2F && path[i + 1] == 0x2F
  {
    ContainsIff(path, [SLASH, SLASH]);
    if i :| 0 <= i < |path| - 1 && path[i] == 0x2F && path[i + 1] == 0x2F {
      SlashesAt(path, i);
    }
    if i: nat :| Occurs(path, [SLASH, SLASH], i) {
      SlashesAt(path, i);
    }
  }

  lemma EscapeBytes(u: Unit)
    requires u.Escape?
    ensures forall b :: b in UnitText(u) ==> b == PERCENT || IsHex(b)
  {
    NibbleBounds(u.value);
    HexDigitIsHex(High(u.value), u.smallHigh);
    HexDigitIsHex(Low(u.value), u.smallLow);
  }

  /** The units allow exactly the printable bytes without semicolon and backslash, and escapes off the blocklist. */
  lemma {:induction false} PassingBytes(us: Units)
    requires UnitsPass(us)
    ensures Escaped(us) && Printable(UnitsText(us)) && SEMICOLON !in UnitsText(us) && BACKSLASH !in UnitsText(us)
    ensures forall k :: 0 <= k < |ENCODED_BLOCKLIST| ==> !HasEscape(us, ENCODED_BLOCKLIST[k])
    decreases us
  {
    if us.Units? {
      PassingBytes(us.rest);
      var a, b := UnitText(us.first), UnitsText(us.rest);
      if us.first.Escape? {
        EscapeBytes(us.first);
        assert a[0] in a && a[1] in a && a[2] in a;
      }
      assert forall i :: 0 <= i < |a + b| ==> (a + b)[i] == if i < |a| then a[i] else b[i - |a|];
    }
  }

  lemma {:induction false} BytesPass(us: Units)
    requires Escaped(us) && Printable(UnitsText(us)) && SEMICOLON !in UnitsText(us) && BACKSLASH !in UnitsText(us)
    requires forall k :: 0 <= k < |ENCODED_BLOCKLIST| ==> !HasEscape(us, ENCODED_BLOCKLIST[k])
    ensures UnitsPass(us)
    decreases us
  {
    if us.Units? {
      var a, b := UnitText(us.first), UnitsText(us.rest);
      assert forall i :: 0 <= i < |b| ==> b[i] == (a + b)[i + |a|];
      assert (a + b)[0] == a[0];
      BytesPass(us.rest);
      EscapeOffBlocklist(us);
    }
  }

  lemma EscapeOffBlocklist(us: Units)
    requires us.Units? && forall k :: 0 <= k < |ENCODED_BLOCKLIST| ==> !HasEscape(us, ENCODED_BLOCKLIST[k])
    ensures us.first.Escape? ==> UnitPasses(us.first)
  {
    assert ENCODED_BLOCKLIST[0] == 0x3B && ENCODED_BLOCKLIST[1] == 0x2F && ENCODED_BLOCKLIST[2] == 0x5C;
    assert ENCODED_BLOCKLIST[3] == 0x00 && ENCODED_BLOCKLIST[4] == 0x0A && ENCODED_BLOCKLIST[5] == 0x0D;
    assert ENCODED_BLOCKLIST[6] == 0x25 && ENCODED_BLOCKLIST[7] == 0x2E;
  }

  /** The decoded text's own conditions. */
  lemma DecodedPasses(path: seq<byte>, us: Units)
    requires UnitsText(us) == path && Escaped(us) && !RejectedEncoded(path)
    ensures Rejected(path)
            <==> || !IsUtf8(UnitsValue(us))
                 || exists i: nat :: Occurs(UnitsValue(us), [0xE2, 0x80, 0xA8], i) || Occurs(UnitsValue(us), [0xE2, 0x80, 0xA9], i)
  {
    EscapedIsWellSpelled(us);
    UnitsDecode(us);
    EscapedTriples(us, PERCENT);
    DecodedBlocklistExact(path);
    ContainsIff(UnitsValue(us), [0xE2, 0x80, 0xA8]);
    ContainsIff(UnitsValue(us), [0xE2, 0x80, 0xA9]);
  }

  lemma PassesEncoded(path: seq<byte>, us: Units)
    requires UnitsText(us) == path && Escaped(us)
    ensures !RejectedEncoded(path)
            <==> && UnitsPass(us)
                 && (forall i :: 0 <= i < |path| - 1 ==> !(path[i] == 0x2F && path[i + 1] == 0x2F))
                 && (forall a: nat, b: nat :: SegmentAt(path, a, b) ==> path[a..b] != [0x2E] && path[a..b] != [0x2E, 0x2E])
  {
    DoubleSlashIff(path);
    NormalizedIff(path);
    forall k | 0 <= k < |ENCODED_BLOCKLIST|
      ensures Contains(Lower(path), LowerTriple(ENCODED_BLOCKLIST[k])) <==> HasEscape(us, ENCODED_BLOCKLIST[k])
    {
      BlocklistFindsTriples(path, ENCODED_BLOCKLIST[k]);
      EscapedTriples(us, ENCODED_BLOCKLIST[k]);
    }
    if UnitsPass(us) {
      PassingBytes(us);
    } else if !RejectedEncoded(path) {
      BytesPass(us);
    }
  }

  /** A path is accepted exactly when it passes in some spelling. */
  lemma AcceptedIff(path: seq<byte>)
    ensures !Rejected(path) <==> exists us: Units :: Passes(path, us)
  {
    if !Rejected(path) {
      DecodedBlocklistExact(path);
      var us := EveryTextIsSpelled(path);
      WellFormedIsEscaped(us);
      PassesEncoded(path, us);
      DecodedPasses(path, us);
      assert Passes(path, us);
    }
    if us: Units :| Passes(path, us) {
      PassingBytes(us);
      PassesEncoded(path, us);
      DecodedPasses(path, us);
    }
  }
}
