/**
 Strings, shared by the text machines.

 Searching, character classes as the source's languages define them, runs of
 characters, lexicographic order, and decimal numerals with the parsers that
 read them back.
 */
module Text {
  import opened Options

  /** `p` occurs in `s` at position `i`. */
  predicate At(s: string, p: string, i: nat) {
    i + |p| <= |s| && s[i..i + |p|] == p
  }

  /** The first occurrence of `p` at or after `i`. */
  function FindFrom(s: string, p: string, i: nat): (r: Option<nat>)
    requires i <= |s|
    ensures r.Some? ==> i <= r.value && r.value + |p| <= |s|
    decreases |s| - i
  {
    if At(s, p, i) then Some(i) else if i == |s| then None else FindFrom(s, p, i + 1)
  }

  function Find(s: string, p: string): (r: Option<nat>)
    ensures r.Some? ==> r.value + |p| <= |s|
  {
    FindFrom(s, p, 0)
  }

  lemma {:induction false} FindFromFirst(s: string, p: string, i: nat)
    requires i <= |s|
    ensures
      match FindFrom(s, p, i)
      case Some(k) => At(s, p, k) && forall j :: i <= j < k ==> !At(s, p, j)
      case None => forall j :: i <= j <= |s| ==> !At(s, p, j)
    decreases |s| - i
  {
    if i < |s| {
      FindFromFirst(s, p, i + 1);
    }
  }

  /** `Find` gives the first occurrence, and nothing only if there is none. */
  lemma FindFirst(s: string, p: string)
    ensures
      match Find(s, p)
      case Some(k) => At(s, p, k) && forall j :: 0 <= j < k ==> !At(s, p, j)
      case None => forall j :: 0 <= j <= |s| ==> !At(s, p, j)
  {
    FindFromFirst(s, p, 0);
  }

  lemma FirstOccurrence(s: string, p: string, i: nat)
    requires At(s, p, i) && forall j :: 0 <= j < i ==> !At(s, p, j)
    ensures Find(s, p) == Some(i)
  {
    FindFirst(s, p);
  }

  lemma NoOccurrence(s: string, p: string)
    requires forall j :: 0 <= j <= |s| ==> !At(s, p, j)
    ensures Find(s, p).None?
  {
    FindFirst(s, p);
  }

  /** One differing character rules an occurrence out. */
  lemma NotAt(s: string, p: string, i: nat, k: nat)
    requires k < |p| && i + k < |s| && s[i + k] != p[k]
    ensures !At(s, p, i)
  {
    assert i + |p| <= |s| ==> s[i..i + |p|][k] == s[i + k];
  }

  lemma SliceOfSlice(s: string, from: nat, to: nat, i: nat, j: nat)
    requires from <= to <= |s| && i <= j <= to - from
    ensures s[from..to][i..j] == s[from + i..from + j]
  {
    var a, b := s[from..to][i..j], s[from + i..from + j];
    assert |a| == |b|;
    forall k | 0 <= k < |a| ensures a[k] == b[k] {
      assert a[k] == s[from..to][i + k];
    }
  }

  /** What follows an occurrence that fits does not matter. */
  lemma AtPrefix(s: string, rest: string, p: string, i: nat)
    requires i + |p| <= |s|
    ensures At(s + rest, p, i) <==> At(s, p, i)
  {
    assert (s + rest)[i..i + |p|] == s[i..i + |p|];
  }

  /** A one-character search stops at that character's first position. */
  lemma FindChar(head: string, c: char, tail: string)
    requires c !in head
    ensures Find(head + [c] + tail, [c]) == Some(|head|)
  {
    var s := head + [c] + tail;
    forall j | 0 <= j < |head| ensures !At(s, [c], j) {
      assert s[j..j + 1] == [head[j]];
    }
    assert s[|head|..|head| + 1] == [c];
    FirstOccurrence(s, [c], |head|);
  }

  predicate Starts(s: string, p: string) { |p| <= |s| && s[..|p|] == p }

  lemma Split3(text: string, i: nat, m: nat, e: nat, head: string, tail: string)
    requires i <= e <= |text| && text[i..e] == head + tail && m == i + |head|
    ensures m <= e && text[i..m] == head && text[m..e] == tail
  {
    SliceOfSlice(text, i, e, 0, |head|);
    SliceOfSlice(text, i, e, |head|, e - i);
    assert text[i..e][0..|head|] == head && text[i..e][|head|..e - i] == tail;
  }

  lemma AtChar(text: string, c: char, k: nat)
    requires k <= |text|
    ensures At(text, [c], k) <==> k < |text| && text[k] == c
  {
    assert k < |text| ==> text[k..k + 1] == [text[k]];
  }

  // ---------------------------------------------------------------- up to a closer

  /** Past the next `t`, or the end of the text. */
  function AfterTerminator(text: string, t: string, i: nat): (end: nat)
    requires i <= |text|
    ensures i <= end <= |text|
  {
    match FindFrom(text, t, i)
    case Some(k) => k + |t|
    case None => |text|
  }

  /** Up to the first closer, or without one to the end of the text. */
  ghost predicate ClosedBy(body: string, closer: string, rest: string) {
    || (|closer| <= |body| && At(body, closer, |body| - |closer|) && forall j :: 0 <= j < |body| - |closer| ==> !At(body, closer, j))
    || (rest == "" && forall j :: 0 <= j <= |body| ==> !At(body, closer, j))
  }

  lemma AtSlice(text: string, t: string, i: nat, e: nat, j: nat)
    requires i <= e <= |text| && j + |t| <= e - i
    ensures At(text[i..e], t, j) <==> At(text, t, i + j)
  {
    SliceOfSlice(text, i, e, j, j + |t|);
  }

  lemma ClosedIff(text: string, t: string, i: nat, e: nat)
    requires i <= e <= |text| && t != ""
    ensures AfterTerminator(text, t, i) == e <==> ClosedBy(text[i..e], t, text[e..])
  {
    FindFromFirst(text, t, i);
    var body := text[i..e];
    forall j: nat | j + |t| <= |body| ensures At(body, t, j) <==> At(text, t, i + j) {
      AtSlice(text, t, i, e, j);
    }
    if AfterTerminator(text, t, i) == e {
      ClosedThere(text, t, i, e);
    }
    if ClosedBy(body, t, text[e..]) {
      ClosedFound(text, t, i, e);
    }
  }

  lemma ClosedThere(text: string, t: string, i: nat, e: nat)
    requires i <= e <= |text| && t != "" && AfterTerminator(text, t, i) == e
    requires forall j: nat :: j + |t| <= e - i ==> (At(text[i..e], t, j) <==> At(text, t, i + j))
    ensures ClosedBy(text[i..e], t, text[e..])
  {
    FindFromFirst(text, t, i);
    if FindFrom(text, t, i).Some? {
      assert At(text[i..e], t, e - i - |t|);
    }
  }

  lemma FoundAt(text: string, t: string, i: nat, k: nat)
    requires i <= k <= |text| && At(text, t, k) && forall j :: i <= j < k ==> !At(text, t, j)
    ensures AfterTerminator(text, t, i) == k + |t|
  {
    FindFromFirst(text, t, i);
  }

  lemma FoundNowhere(text: string, t: string, i: nat)
    requires i <= |text| && forall k :: i <= k <= |text| ==> !At(text, t, k)
    ensures AfterTerminator(text, t, i) == |text|
  {
    FindFromFirst(text, t, i);
  }

  lemma ClosedFound(text: string, t: string, i: nat, e: nat)
    requires i <= e <= |text| && t != "" && ClosedBy(text[i..e], t, text[e..])
    requires forall j: nat :: j + |t| <= e - i ==> (At(text[i..e], t, j) <==> At(text, t, i + j))
    ensures AfterTerminator(text, t, i) == e
  {
    var body := text[i..e];
    if |t| <= |body| && At(body, t, |body| - |t|) && forall j :: 0 <= j < |body| - |t| ==> !At(body, t, j) {
      forall k | i <= k < e - |t| ensures !At(text, t, k) {
        assert !At(body, t, k - i);
      }
      FoundAt(text, t, i, e - |t|);
    } else {
      forall k | i <= k <= |text| ensures !At(text, t, k) {
        assert !At(body, t, k - i);
      }
      FoundNowhere(text, t, i);
    }
  }

  lemma ClosedEnds(text: string, closer: string, m: nat, e: nat)
    requires m <= e <= |text| && closer != "" && ClosedBy(text[m..e], closer, text[e..])
    ensures AfterTerminator(text, closer, m) == e
  {
    ClosedIff(text, closer, m, e);
  }

  lemma ClosedAt(text: string, closer: string, m: nat)
    requires m <= |text| && closer != ""
    ensures
      var e := AfterTerminator(text, closer, m);
      ClosedBy(text[m..e], closer, text[e..])
  {
    ClosedIff(text, closer, m, AfterTerminator(text, closer, m));
  }

  // ---------------------------------------------------------------- character classes

  /** White space as Python's `str.isspace` and its `\s` see it. */
  predicate IsPythonSpace(c: char) {
    || '\U{0009}' <= c <= '\U{000D}' || '\U{001C}' <= c <= '\U{0020}' || c == '\U{0085}' || c == '\U{00A0}'
    || c == '\U{1680}' || '\U{2000}' <= c <= '\U{200A}' || c == '\U{2028}' || c == '\U{2029}' || c == '\U{202F}'
    || c == '\U{205F}' || c == '\U{3000}'
  }

  /** The end of the run of characters satisfying `p` from `i`. */
  function RunEnd(s: string, i: nat, p: char -> bool): (j: nat)
    requires i <= |s|
    ensures i <= j <= |s|
    decreases |s| - i
  {
    if i < |s| && p(s[i]) then RunEnd(s, i + 1, p) else i
  }

  /** Unicode White_Space, as Rust's `trim` sees it. */
  predicate IsRustSpace(c: char) {
    || '\U{0009}' <= c <= '\U{000D}' || c == ' ' || c == '\U{0085}' || c == '\U{00A0}' || c == '\U{1680}'
    || '\U{2000}' <= c <= '\U{200A}' || c == '\U{2028}' || c == '\U{2029}' || c == '\U{202F}'
    || c == '\U{205F}' || c == '\U{3000}'
  }

  function TrimStart(s: string): string {
    if s != "" && IsRustSpace(s[0]) then TrimStart(s[1..]) else s
  }

  function TrimEnd(s: string): string {
    if s != "" && IsRustSpace(s[|s| - 1]) then TrimEnd(s[..|s| - 1]) else s
  }

  function Trim(s: string): string { TrimEnd(TrimStart(s)) }

  /** Python's white space is Rust's and the four separators U+001C to U+001F. */
  lemma SpacesCompared(c: char)
    ensures IsPythonSpace(c) <==> IsRustSpace(c) || 0x1C <= c as int <= 0x1F
    ensures !('!' <= c <= '~' && IsRustSpace(c)) && IsRustSpace('\n') && IsRustSpace('\r') && IsRustSpace('\t') && IsRustSpace(' ')
  {
  }

  predicate OnlySpace(s: string) { forall i :: 0 <= i < |s| ==> IsRustSpace(s[i]) }

  lemma {:induction false} TrimStartExact(s: string) returns (a: string)
    ensures s == a + TrimStart(s) && OnlySpace(a) && (TrimStart(s) == "" || !IsRustSpace(TrimStart(s)[0]))
  {
    if s != "" && IsRustSpace(s[0]) {
      a := TrimStartExact(s[1..]);
      a := [s[0]] + a;
    } else {
      a := "";
    }
  }

  lemma {:induction false} TrimEndExact(s: string) returns (b: string)
    ensures s == TrimEnd(s) + b && OnlySpace(b)
    ensures TrimEnd(s) == "" || !IsRustSpace(TrimEnd(s)[|TrimEnd(s)| - 1])
  {
    if s != "" && IsRustSpace(s[|s| - 1]) {
      b := TrimEndExact(s[..|s| - 1]);
      b := b + [s[|s| - 1]];
    } else {
      b := "";
    }
  }

  /** Trimming takes white space off both ends, all of it and nothing else. */
  lemma TrimExact(s: string) returns (a: string, b: string)
    ensures s == a + Trim(s) + b && OnlySpace(a) && OnlySpace(b)
    ensures Trim(s) != "" ==> !IsRustSpace(Trim(s)[0]) && !IsRustSpace(Trim(s)[|Trim(s)| - 1])
  {
    a := TrimStartExact(s);
    b := TrimEndExact(TrimStart(s));
    assert TrimStart(s) == Trim(s) + b;
    assert Trim(s) != "" ==> TrimStart(s)[0] == Trim(s)[0];
  }

  lemma {:induction false} TrimStartIs(a: string, t: string)
    requires OnlySpace(a) && (t == "" || !IsRustSpace(t[0]))
    ensures TrimStart(a + t) == t
    decreases |a|
  {
    if a == "" {
      assert a + t == t;
    } else {
      assert (a + t)[1..] == a[1..] + t;
      TrimStartIs(a[1..], t);
    }
  }

  lemma {:induction false} TrimEndIs(t: string, b: string)
    requires OnlySpace(b) && (t == "" || !IsRustSpace(t[|t| - 1]))
    ensures TrimEnd(t + b) == t
    decreases |b|
  {
    if b == "" {
      assert t + b == t;
    } else {
      assert (t + b)[..|t + b| - 1] == t + b[..|b| - 1];
      TrimEndIs(t, b[..|b| - 1]);
    }
  }

  /** What is left by trimming is what has no white space at its ends. */
  lemma TrimIs(a: string, t: string, b: string)
    requires OnlySpace(a) && OnlySpace(b) && t != "" && !IsRustSpace(t[0]) && !IsRustSpace(t[|t| - 1])
    ensures Trim(a + t + b) == t
  {
    assert a + t + b == a + (t + b);
    TrimStartIs(a, t + b);
    TrimEndIs(t, b);
  }

  function LowerChar(c: char): char {
    if 'A' <= c <= 'Z' then (c as int + 32) as char else c
  }

  /** Equal up to ASCII case. */
  predicate SameIgnoringCase(s: string, t: string) {
    |s| == |t| && forall i :: 0 <= i < |s| ==> LowerChar(s[i]) == LowerChar(t[i])
  }

  /** Lexicographic order by code point. */
  predicate StringLeq(a: string, b: string) {
    a == [] || (b != [] && (a[0] < b[0] || (a[0] == b[0] && StringLeq(a[1..], b[1..]))))
  }

  lemma {:induction false} StringLeqTotal(a: string, b: string)
    ensures StringLeq(a, b) || StringLeq(b, a)
  {
    if a != [] && b != [] {
      StringLeqTotal(a[1..], b[1..]);
    }
  }

  lemma {:induction false} StringLeqTransitive(a: string, b: string, c: string)
    requires StringLeq(a, b) && StringLeq(b, c)
    ensures StringLeq(a, c)
  {
    if a != [] && a[0] == b[0] == c[0] {
      StringLeqTransitive(a[1..], b[1..], c[1..]);
    }
  }

  lemma {:induction false} StringLeqAntisymmetric(a: string, b: string)
    requires StringLeq(a, b) && StringLeq(b, a)
    ensures a == b
  {
    if a != [] {
      StringLeqAntisymmetric(a[1..], b[1..]);
      assert a == [a[0]] + a[1..] && b == [b[0]] + b[1..];
    }
  }

  predicate IsAlpha(c: char) { 'a' <= c <= 'z' || 'A' <= c <= 'Z' }

  /** A line or block comment starts here. */
  predicate OpensComment(s: string) { |s| >= 2 && s[0] == '/' && (s[1] == '/' || s[1] == '*') }

  /** `a` is smaller than `b` at their first difference, position `k`. */
  ghost predicate SmallerAt(a: string, b: string, k: nat) {
    k < |a| && k < |b| && a[..k] == b[..k] && a[k] < b[k]
  }

  lemma SmallerBehind(a: string, b: string, k: nat)
    requires a != "" && b != "" && a[0] == b[0]
    ensures SmallerAt(a, b, k + 1) <==> SmallerAt(a[1..], b[1..], k)
    ensures !SmallerAt(a, b, 0)
    ensures |a| <= |b| && b[..|a|] == a <==> |a[1..]| <= |b[1..]| && b[1..][..|a| - 1] == a[1..]
  {
    if k + 1 < |a| && k + 1 < |b| {
      assert a[..k + 1] == [a[0]] + a[1..][..k] && b[..k + 1] == [b[0]] + b[1..][..k];
      assert a[..k + 1][1..] == a[1..][..k] && b[..k + 1][1..] == b[1..][..k];
    }
    if |a| <= |b| {
      assert b[..|a|] == [b[0]] + b[1..][..|a| - 1] && a == [a[0]] + a[1..];
      assert b[..|a|][1..] == b[1..][..|a| - 1];
    }
  }

  lemma SameHead(a: string, b: string, k: nat)
    requires 0 < k <= |a| && k <= |b| && a[..k] == b[..k]
    ensures a[0] == b[0]
  {
    assert a[..k][0] == a[0] && b[..k][0] == b[0];
  }

  lemma FirstDiffers(a: string, b: string)
    requires a != "" && b != "" && a[0] != b[0]
    ensures (exists k: nat :: SmallerAt(a, b, k)) <==> a[0] < b[0]
    ensures !(|a| <= |b| && b[..|a|] == a)
  {
    if a[0] < b[0] {
      assert a[..0] == b[..0];
      assert SmallerAt(a, b, 0);
    }
    if k: nat :| SmallerAt(a, b, k) && k > 0 {
      SameHead(a, b, k);
    }
    assert |a| <= |b| ==> b[..|a|][0] == b[0];
  }

  /** A prefix comes first; otherwise the first difference decides. */
  lemma {:induction false} StringLeqMeans(a: string, b: string)
    ensures StringLeq(a, b) <==> (|a| <= |b| && b[..|a|] == a) || exists k: nat :: SmallerAt(a, b, k)
    decreases |a|
  {
    if a != "" && b != "" {
      if a[0] == b[0] {
        StringLeqMeans(a[1..], b[1..]);
        SmallerBehind(a, b, 0);
        if k: nat :| SmallerAt(a, b, k) {
          SmallerBehind(a, b, k - 1);
        }
        if k: nat :| SmallerAt(a[1..], b[1..], k) {
          SmallerBehind(a, b, k);
        }
      } else {
        FirstDiffers(a, b);
      }
    }
  }

  // ---------------------------------------------------------------- decimal numerals

  function Digit(d: nat): char
    requires d < 10
  {
    ('0' as int + d) as char
  }

  predicate IsDigit(c: char) { '0' <= c <= '9' }

  predicate AllDigits(s: string) { forall i :: 0 <= i < |s| ==> IsDigit(s[i]) }

  function DigitValue(c: char): nat
    requires IsDigit(c)
  {
    c as int - '0' as int
  }

  /** The decimal numeral of `n`, without leading zeros. */
  function Dec(n: nat): (s: string)
    ensures s != "" && AllDigits(s)
  {
    if n < 10 then [Digit(n)] else Dec(n / 10) + [Digit(n % 10)]
  }

  /** The value of a string of digits. */
  function DigitsValue(s: string): nat
    requires AllDigits(s)
  {
    if s == "" then 0 else DigitsValue(s[..|s| - 1]) * 10 + DigitValue(s[|s| - 1])
  }

  function ParseDigits(s: string): Option<nat> {
    if s != "" && AllDigits(s) then Some(DigitsValue(s)) else None
  }

  lemma {:induction false} ParseDec(n: nat)
    ensures ParseDigits(Dec(n)) == Some(n)
  {
    var s := Dec(n);
    if n >= 10 {
      ParseDec(n / 10);
      assert s[..|s| - 1] == Dec(n / 10);
    } else {
      assert DigitsValue(s[..0]) == 0 && s[..|s| - 1] == s[..0];
    }
  }

  lemma DecInjective(a: nat, b: nat)
    requires Dec(a) == Dec(b)
    ensures a == b
  {
    ParseDec(a);
    ParseDec(b);
  }

  /** Rust's unsigned `parse`: an optional '+' before the digits, and a bound. */
  function ParseUnsigned(s: string, max: nat): Option<nat> {
    var digits := if s != "" && s[0] == '+' then s[1..] else s;
    match ParseDigits(digits)
    case Some(n) => if n <= max then Some(n) else None
    case None => None
  }

  lemma ParseUnsignedDec(n: nat, max: nat)
    requires n <= max
    ensures ParseUnsigned(Dec(n), max) == Some(n)
  {
    ParseDec(n);
    assert IsDigit(Dec(n)[0]);
  }

  /** The decimal numeral of an integer, with '-' when negative. */
  function Signed(n: int): string {
    if n < 0 then "-" + Dec(-n) else Dec(n)
  }

  /** Rust's signed `parse`: an optional sign before the digits, and bounds. */
  function ParseSigned(s: string, min: int, max: int): Option<int> {
    var negative := s != "" && s[0] == '-';
    var digits := if s != "" && (s[0] == '+' || s[0] == '-') then s[1..] else s;
    match ParseDigits(digits)
    case Some(n) =>
      var v: int := if negative then -(n as int) else n;
      if min <= v <= max then Some(v) else None
    case None => None
  }

  lemma ParseSignedSigned(n: int, min: int, max: int)
    requires min <= n <= max
    ensures ParseSigned(Signed(n), min, max) == Some(n)
  {
    if n < 0 {
      ParseDec(-n);
      assert ("-" + Dec(-n))[1..] == Dec(-n);
    } else {
      ParseDec(n);
      assert IsDigit(Dec(n)[0]);
    }
  }
}
