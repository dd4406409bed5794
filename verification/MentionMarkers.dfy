/** Markdown mentions: extraction, collision-free markers, and their restoration after rendering. */
module MentionMarkers {
  import opened Options
  import opened Text

  const OPEN: char := '\U{E000}'
  const CLOSE: char := '\U{E001}'
  const STEM: string := [OPEN] + "LORUSER"
  const USIZE_MAX: nat := 0xFFFF_FFFF_FFFF_FFFF

  /** A mention covers `[start, end)` of the source. */
  datatype Mention = Mention(nick: string, start: nat, end: nat)

  predicate IsBoundary(c: char) {
    c == ' ' || c == '(' || c == '\t' || c == '\n' || c == '\r'
  }

  /** A mention may only start the text or follow a boundary character. */
  predicate MentionBoundary(source: string, at: nat)
    requires at <= |source|
  {
    at == 0 || IsBoundary(source[at - 1])
  }

  /** Sorted, disjoint, inside the source, each after a boundary. */
  ghost predicate ValidMentions(source: string, ms: seq<Mention>) {
    && (forall i :: 0 <= i < |ms| ==> ms[i].start < ms[i].end <= |source| && MentionBoundary(source, ms[i].start))
    && (forall i, j :: 0 <= i < j < |ms| ==> ms[i].end <= ms[j].start)
  }

  /** The same, one mention at a time: mentions `i..` lie in order at or after `cursor`. */
  predicate ValidFrom(source: string, ms: seq<Mention>, i: nat, cursor: nat)
    decreases |ms| - i
  {
    && cursor <= |source| && i <= |ms|
    && (i < |ms| ==>
          && cursor <= ms[i].start < ms[i].end <= |source|
          && MentionBoundary(source, ms[i].start)
          && ValidFrom(source, ms, i + 1, ms[i].end))
  }

  lemma {:induction false} ValidIsValidFrom(source: string, ms: seq<Mention>, i: nat, cursor: nat)
    requires ValidMentions(source, ms) && i <= |ms| && cursor <= |source| && (i < |ms| ==> cursor <= ms[i].start)
    ensures ValidFrom(source, ms, i, cursor)
    decreases |ms| - i
  {
    if i < |ms| {
      ValidIsValidFrom(source, ms, i + 1, ms[i].end);
    }
  }

  // ---------------------------------------------------------------- extraction

  predicate IsNameChar(c: char) { IsAlpha(c) || IsDigit(c) || c == '_' || c == '-' }

  /** '@' and a letter inside the text range: where the mention expression matches. */
  predicate OpensMention(source: string, at: nat, limit: nat)
    requires limit <= |source|
  {
    at + 1 < limit && source[at] == '@' && IsAlpha(source[at + 1])
  }

  /** Up to `left` name characters from `at`. */
  function NameEnd(source: string, at: nat, limit: nat, left: nat): (end: nat)
    requires at <= limit <= |source|
    ensures at <= end <= limit && end - at <= left
    ensures forall k :: at <= k < end ==> IsNameChar(source[k])
    decreases left
  {
    if left == 0 || at == limit || !IsNameChar(source[at]) then at else NameEnd(source, at + 1, limit, left - 1)
  }

  /** The end of the expression `@[A-Za-z][A-Za-z0-9_-]{0,80}` matched at `at`. */
  function MatchEnd(source: string, at: nat, limit: nat): nat
    requires limit <= |source| && OpensMention(source, at, limit)
  {
    NameEnd(source, at + 2, limit, 80)
  }

  /** The mentions of the source's text range `[at, limit)`. */
  function MentionsIn(source: string, at: nat, limit: nat): seq<Mention>
    requires at <= limit <= |source|
    decreases limit - at
  {
    if at == limit then []
    else if !OpensMention(source, at, limit) then MentionsIn(source, at + 1, limit)
    else
      var end := MatchEnd(source, at, limit);
      (if MentionBoundary(source, at) then [Mention(source[at + 1..end], at, end)] else [])
      + MentionsIn(source, end, limit)
  }

  datatype Range = Range(start: nat, end: nat)

  /** What the Markdown parser guarantees of its text events: in order, without overlap. */
  predicate ValidRanges(source: string, ranges: seq<Range>) {
    && (forall i :: 0 <= i < |ranges| ==> ranges[i].start <= ranges[i].end <= |source|)
    && (forall i, j :: 0 <= i < j < |ranges| ==> ranges[i].end <= ranges[j].start)
  }

  function AllMentions(source: string, ranges: seq<Range>): seq<Mention>
    requires forall i :: 0 <= i < |ranges| ==> ranges[i].start <= ranges[i].end <= |source|
  {
    if ranges == [] then []
    else
      AllMentions(source, ranges[..|ranges| - 1])
      + MentionsIn(source, ranges[|ranges| - 1].start, ranges[|ranges| - 1].end)
  }

  method MarkdownMentions(source: string, ranges: seq<Range>) returns (ms: seq<Mention>)
    requires ValidRanges(source, ranges)
    ensures ms == AllMentions(source, ranges)
  {
    ms := [];
    for i := 0 to |ranges|
      invariant ms == AllMentions(source, ranges[..i])
    {
      ghost var before := ms;
      var at := ranges[i].start;
      var limit := ranges[i].end;
      while at < limit
        invariant ranges[i].start <= at <= limit
        invariant before + MentionsIn(source, ranges[i].start, limit) == ms + MentionsIn(source, at, limit)
        decreases limit - at
      {
        if OpensMention(source, at, limit) {
          var end := MatchEnd(source, at, limit);
          if MentionBoundary(source, at) {
            ms := ms + [Mention(source[at + 1..end], at, end)];
          }
          at := end;
        } else {
          at := at + 1;
        }
      }
      assert ranges[..i + 1][..i] == ranges[..i];
    }
    assert ranges[..|ranges|] == ranges;
  }

  lemma ConcatValid(source: string, a: seq<Mention>, b: seq<Mention>, mid: nat)
    requires ValidMentions(source, a) && ValidMentions(source, b)
    requires forall m :: m in a ==> m.end <= mid
    requires forall m :: m in b ==> mid <= m.start
    ensures ValidMentions(source, a + b)
  {
    forall i, j | 0 <= i < j < |a + b| ensures (a + b)[i].end <= (a + b)[j].start {
      if i < |a| {
        assert (a + b)[i] in a;
      }
      if j >= |a| {
        assert (a + b)[j] in b;
      }
    }
  }

  predicate Inside(source: string, m: Mention, at: nat, limit: nat)
    requires limit <= |source|
  {
    at <= m.start < m.end <= limit && OpensMention(source, m.start, limit) && m.nick == source[m.start + 1..m.end]
  }

  lemma {:induction false} MentionsInside(source: string, at: nat, limit: nat)
    requires at <= limit <= |source|
    ensures forall m :: m in MentionsIn(source, at, limit) ==> Inside(source, m, at, limit)
    decreases limit - at
  {
    if at < limit {
      if OpensMention(source, at, limit) {
        MentionsInside(source, MatchEnd(source, at, limit), limit);
      } else {
        MentionsInside(source, at + 1, limit);
      }
    }
  }

  lemma {:induction false} MentionsInSound(source: string, at: nat, limit: nat)
    requires at <= limit <= |source|
    ensures ValidMentions(source, MentionsIn(source, at, limit))
    ensures forall m :: m in MentionsIn(source, at, limit) ==> Inside(source, m, at, limit)
    decreases limit - at
  {
    MentionsInside(source, at, limit);
    if at < limit {
      if OpensMention(source, at, limit) {
        var end := MatchEnd(source, at, limit);
        MentionsInSound(source, end, limit);
        FirstIsValid(source, at, limit, end);
        var head := if MentionBoundary(source, at) then [Mention(source[at + 1..end], at, end)] else [];
        ConcatValid(source, head, MentionsIn(source, end, limit), end);
      } else {
        MentionsInSound(source, at + 1, limit);
      }
    }
  }

  lemma FirstIsValid(source: string, at: nat, limit: nat, end: nat)
    requires limit <= |source| && OpensMention(source, at, limit) && end == MatchEnd(source, at, limit)
    ensures ValidMentions(source, if MentionBoundary(source, at) then [Mention(source[at + 1..end], at, end)] else [])
  {
  }

  lemma MatchHidesNothing(source: string, at: nat, limit: nat)
    requires limit <= |source| && OpensMention(source, at, limit)
    ensures forall k :: at < k < MatchEnd(source, at, limit) ==> source[k] != '@'
  {
  }

  /** No '@' hides inside a match, so every boundary '@letter' of the range is found. */
  lemma {:induction false} MentionsInComplete(source: string, at: nat, limit: nat, k: nat)
    requires at <= k < limit <= |source| && OpensMention(source, k, limit) && MentionBoundary(source, k)
    ensures exists m :: m in MentionsIn(source, at, limit) && m.start == k
    decreases limit - at
  {
    if !OpensMention(source, at, limit) {
      MentionsInComplete(source, at + 1, limit, k);
    } else {
      var end := MatchEnd(source, at, limit);
      if k == at {
        assert MentionsIn(source, at, limit)[0].start == k;
      } else {
        MatchHidesNothing(source, at, limit);
        MentionsInComplete(source, end, limit, k);
      }
    }
  }

  /** Extraction yields valid mentions, exactly one per boundary '@letter' of the text ranges. */
  lemma {:induction false} MentionsExact(source: string, ranges: seq<Range>)
    requires ValidRanges(source, ranges)
    ensures ValidMentions(source, AllMentions(source, ranges))
    ensures forall m :: m in AllMentions(source, ranges) ==> m.nick == source[m.start + 1..m.end]
    ensures forall m :: m in AllMentions(source, ranges) ==> ranges != [] && m.end <= ranges[|ranges| - 1].end
    ensures forall k: nat ::
              (exists m :: m in AllMentions(source, ranges) && m.start == k) <==> MentionAllowedAt(source, ranges, k)
    decreases |ranges|
  {
    if ranges != [] {
      var last := ranges[|ranges| - 1];
      var prior := ranges[..|ranges| - 1];
      MentionsExact(source, prior);
      MentionsInSound(source, last.start, last.end);
      ConcatValid(source, AllMentions(source, prior), MentionsIn(source, last.start, last.end), last.start);
      forall k: nat
        ensures (exists m :: m in AllMentions(source, ranges) && m.start == k) <==> MentionAllowedAt(source, ranges, k)
      {
        AllowedSplits(source, ranges, k);
        StartsSplit(AllMentions(source, prior), MentionsIn(source, last.start, last.end), k);
        LastRangeStarts(source, last, k);
      }
    }
  }

  /**
   `m` is a whole match of the expression inside the text range `r`: '@', a
   letter and up to eighty letters, digits, '_' and '-', and as many of them as
   the range offers.
   */
  predicate WholeMatch(source: string, m: Mention, r: Range) {
    && r.start <= m.start && m.start + 2 <= m.end <= r.end <= |source|
    && source[m.start] == '@' && m.nick == source[m.start + 1..m.end] && |m.nick| <= 81
    && ('a' <= source[m.start + 1] <= 'z' || 'A' <= source[m.start + 1] <= 'Z')
    && (forall k :: m.start + 1 <= k < m.end ==>
          || 'a' <= source[k] <= 'z' || 'A' <= source[k] <= 'Z' || '0' <= source[k] <= '9'
          || source[k] == '_' || source[k] == '-')
    && (|| m.end == r.end || |m.nick| == 81
        || !(|| 'a' <= source[m.end] <= 'z' || 'A' <= source[m.end] <= 'Z' || '0' <= source[m.end] <= '9'
             || source[m.end] == '_' || source[m.end] == '-'))
  }

  lemma {:induction false} NameEndIsMaximal(source: string, at: nat, limit: nat, left: nat)
    requires at <= limit <= |source|
    ensures
      var end := NameEnd(source, at, limit, left);
      end == limit || end == at + left || !IsNameChar(source[end])
    decreases left
  {
    if left > 0 && at < limit && IsNameChar(source[at]) {
      NameEndIsMaximal(source, at + 1, limit, left - 1);
    }
  }

  lemma MatchIsWhole(source: string, at: nat, r: Range)
    requires r.start <= at && r.end <= |source| && OpensMention(source, at, r.end)
    ensures WholeMatch(source, Mention(source[at + 1..MatchEnd(source, at, r.end)], at, MatchEnd(source, at, r.end)), r)
  {
    NameEndIsMaximal(source, at + 2, r.end, 80);
  }

  lemma {:induction false} MentionsInAreWhole(source: string, at: nat, r: Range)
    requires r.start <= at <= r.end <= |source|
    ensures forall m :: m in MentionsIn(source, at, r.end) ==> WholeMatch(source, m, r)
    decreases r.end - at
  {
    if at < r.end {
      if OpensMention(source, at, r.end) {
        MatchIsWhole(source, at, r);
        MentionsInAreWhole(source, MatchEnd(source, at, r.end), r);
      } else {
        MentionsInAreWhole(source, at + 1, r);
      }
    }
  }

  ghost predicate WholeInSome(source: string, m: Mention, ranges: seq<Range>) {
    exists i :: 0 <= i < |ranges| && WholeMatch(source, m, ranges[i])
  }

  /** Every mention is a whole match inside one of the text ranges: it ends where its name does. */
  lemma {:induction false} MentionsAreWhole(source: string, ranges: seq<Range>)
    requires ValidRanges(source, ranges)
    ensures forall m :: m in AllMentions(source, ranges) ==> WholeInSome(source, m, ranges)
    decreases |ranges|
  {
    if ranges != [] {
      var prior, last := ranges[..|ranges| - 1], ranges[|ranges| - 1];
      MentionsAreWhole(source, prior);
      MentionsInAreWhole(source, last.start, last);
      forall m | m in AllMentions(source, ranges) ensures WholeInSome(source, m, ranges) {
        if m in AllMentions(source, prior) {
          var i :| 0 <= i < |prior| && WholeMatch(source, m, prior[i]);
          assert WholeMatch(source, m, ranges[i]);
        } else {
          assert WholeMatch(source, m, ranges[|ranges| - 1]);
        }
      }
    }
  }

  /** '@' and a letter at `k`, both inside the text range, at the start of the text or behind a blank, '(' or line end. */
  predicate StartsMention(source: string, r: Range, k: nat) {
    && r.start <= k && k + 2 <= r.end <= |source| && source[k] == '@'
    && ('a' <= source[k + 1] <= 'z' || 'A' <= source[k + 1] <= 'Z')
    && (|| k == 0 || source[k - 1] == ' ' || source[k - 1] == '\t' || source[k - 1] == '\r' || source[k - 1] == '\n'
        || source[k - 1] == '(')
  }

  ghost predicate StartsInSome(source: string, ranges: seq<Range>, k: nat) {
    exists i :: 0 <= i < |ranges| && StartsMention(source, ranges[i], k)
  }

  /** Mentions start at exactly these places: none is missed and none made up. */
  lemma MentionStarts(source: string, ranges: seq<Range>, k: nat)
    requires ValidRanges(source, ranges)
    ensures (exists m :: m in AllMentions(source, ranges) && m.start == k) <==> StartsInSome(source, ranges, k)
  {
    MentionsExact(source, ranges);
    if MentionAllowedAt(source, ranges, k) {
      var i :| 0 <= i < |ranges| && MentionOpensIn(source, ranges[i], k);
      assert StartsMention(source, ranges[i], k);
    }
    if StartsInSome(source, ranges, k) {
      var i :| 0 <= i < |ranges| && StartsMention(source, ranges[i], k);
      assert MentionOpensIn(source, ranges[i], k);
    }
  }

  lemma AllowedSplits(source: string, ranges: seq<Range>, k: nat)
    requires ValidRanges(source, ranges) && ranges != []
    ensures MentionAllowedAt(source, ranges, k)
            <==> MentionAllowedAt(source, ranges[..|ranges| - 1], k)
                 || MentionOpensIn(source, ranges[|ranges| - 1], k)
  {
    var prior := ranges[..|ranges| - 1];
    if MentionAllowedAt(source, prior, k) {
      var i :| 0 <= i < |prior| && MentionOpensIn(source, prior[i], k);
      assert MentionOpensIn(source, ranges[i], k);
    }
    if MentionAllowedAt(source, ranges, k) {
      var i :| 0 <= i < |ranges| && MentionOpensIn(source, ranges[i], k);
      assert i < |prior| ==> MentionOpensIn(source, prior[i], k);
    }
  }

  lemma StartsSplit(a: seq<Mention>, b: seq<Mention>, k: nat)
    ensures (exists m :: m in a + b && m.start == k)
            <==> (exists m :: m in a && m.start == k) || (exists m :: m in b && m.start == k)
  {
  }

  lemma LastRangeStarts(source: string, r: Range, k: nat)
    requires r.start <= r.end <= |source|
    ensures (exists m :: m in MentionsIn(source, r.start, r.end) && m.start == k) <==> MentionOpensIn(source, r, k)
  {
    MentionsInSound(source, r.start, r.end);
    if MentionOpensIn(source, r, k) {
      MentionsInComplete(source, r.start, r.end, k);
    }
    if m :| m in MentionsIn(source, r.start, r.end) && m.start == k {
      var i :| 0 <= i < |MentionsIn(source, r.start, r.end)| && MentionsIn(source, r.start, r.end)[i] == m;
      assert Inside(source, m, r.start, r.end);
    }
  }

  predicate MentionOpensIn(source: string, r: Range, k: nat)
    requires r.start <= r.end <= |source|
  {
    r.start <= k < r.end && OpensMention(source, k, r.end) && MentionBoundary(source, k)
  }

  predicate MentionAllowedAt(source: string, ranges: seq<Range>, k: nat)
    requires ValidRanges(source, ranges)
  {
    exists i :: 0 <= i < |ranges| && MentionOpensIn(source, ranges[i], k)
  }

  // ---------------------------------------------------------------- the prefix

  function Repeat(c: char, k: nat): string {
    seq(k, i => c)
  }

  function Prefix(k: nat): string {
    STEM + Repeat(OPEN, k)
  }

  /** The shortest prefix of the family that the source does not contain. */
  function PrefixFor(source: string, k: nat): (r: nat)
    ensures k <= r && Find(source, Prefix(r)).None?
    ensures forall j :: k <= j < r ==> Find(source, Prefix(j)).Some?
    decreases |source| + 1 - k
  {
    if Find(source, Prefix(k)).Some? then
      assert |Prefix(k)| == 8 + k;
      PrefixFor(source, k + 1)
    else k
  }

  // ---------------------------------------------------------------- insertion

  function Marker(prefix: string, i: nat): string {
    prefix + Dec(i) + [CLOSE]
  }

  function MarkerOf(prefix: string): nat -> string {
    (i: nat) => Marker(prefix, i)
  }

  /** The source from `cursor` on, with mentions `i..` replaced by `text(i)`. */
  function Replaced(source: string, ms: seq<Mention>, i: nat, cursor: nat, text: nat -> string): string
    requires ValidFrom(source, ms, i, cursor)
    decreases |ms| - i
  {
    if i == |ms| then source[cursor..]
    else source[cursor..ms[i].start] + text(i) + Replaced(source, ms, i + 1, ms[i].end, text)
  }

  /** Everything outside the mention ranges is kept: putting each mention's own text back gives the source. */
  lemma {:induction false} ReplacedByItself(source: string, ms: seq<Mention>, i: nat, cursor: nat, text: nat -> string)
    requires ValidFrom(source, ms, i, cursor)
    requires forall j :: i <= j < |ms| ==> ms[j].start <= ms[j].end <= |source| && text(j) == source[ms[j].start..ms[j].end]
    ensures Replaced(source, ms, i, cursor, text) == source[cursor..]
    decreases |ms| - i
  {
    if i < |ms| {
      ReplacedByItself(source, ms, i + 1, ms[i].end, text);
      assert source[cursor..] == source[cursor..ms[i].start] + source[ms[i].start..ms[i].end] + source[ms[i].end..];
    }
  }

  method ChoosePrefix(source: string) returns (prefix: string)
    ensures prefix == Prefix(PrefixFor(source, 0))
  {
    prefix := STEM;
    ghost var k := 0;
    assert prefix == Prefix(0);
    while Find(source, prefix).Some?
      invariant prefix == Prefix(k) && PrefixFor(source, 0) == PrefixFor(source, k)
      decreases |source| + 1 - |prefix|
    {
      prefix := prefix + [OPEN];
      k := k + 1;
    }
  }

  method InsertMarkers(source: string, ms: seq<Mention>, prefix: string) returns (prepared: string)
    requires ValidFrom(source, ms, 0, 0)
    ensures prepared == Replaced(source, ms, 0, 0, MarkerOf(prefix))
  {
    prepared := "";
    var cursor: nat := 0;
    for i := 0 to |ms|
      invariant ValidFrom(source, ms, i, cursor)
      invariant Replaced(source, ms, 0, 0, MarkerOf(prefix)) == prepared + Replaced(source, ms, i, cursor, MarkerOf(prefix))
    {
      var emitted := source[cursor..ms[i].start] + (prefix + Dec(i) + [CLOSE]);
      ghost var tail := Replaced(source, ms, i + 1, ms[i].end, MarkerOf(prefix));
      assert Replaced(source, ms, i, cursor, MarkerOf(prefix)) == emitted + tail;
      assert prepared + (emitted + tail) == (prepared + emitted) + tail;
      prepared := prepared + emitted;
      cursor := ms[i].end;
    }
    prepared := prepared + source[cursor..];
  }

  method PrepareMarkers(source: string, resolveUsers: bool, ms: seq<Mention>)
    returns (prepared: string, prefix: Option<string>)
    requires ValidFrom(source, ms, 0, 0)
    ensures !resolveUsers || ms == [] ==> prepared == source && prefix == None
    ensures resolveUsers && ms != [] ==>
              var p := Prefix(PrefixFor(source, 0));
              prefix == Some(p) && prepared == Replaced(source, ms, 0, 0, MarkerOf(p))
  {
    if !resolveUsers || ms == [] {
      return source, None;
    }
    var p := ChoosePrefix(source);
    prepared := InsertMarkers(source, ms, p);
    prefix := Some(p);
  }

  // ---------------------------------------------------------------- restoration

  /** What one marker text becomes: the mention's rendering if the number names one. */
  function Resolve(prefix: string, number: string, count: nat, render: nat -> string): string {
    match ParseUnsigned(number, USIZE_MAX)
    case Some(i) => if i < count then render(i) else prefix + number + [CLOSE]
    case None => prefix + number + [CLOSE]
  }

  /** The text before the first marker, the number in it and the text after it, if there is a marker. */
  datatype Split = Whole | Split(before: string, number: string, rest: string)

  function FirstMarker(html: string, prefix: string): (r: Split)
    requires prefix != ""
    ensures r.Split? ==> |r.rest| < |html|
  {
    match Find(html, prefix)
    case None => Whole
    case Some(start) =>
      var after := html[start + |prefix|..];
      match Find(after, [CLOSE])
      case None => Whole
      case Some(end) => Split(html[..start], after[..end], after[end + 1..])
  }

  function Restore(html: string, prefix: string, count: nat, render: nat -> string): string
    requires prefix != ""
    decreases |html|
  {
    match FirstMarker(html, prefix)
    case Whole => html
    case Split(before, number, rest) =>
      before + Resolve(prefix, number, count, render) + Restore(rest, prefix, count, render)
  }

  method RestoreMarkers(html: string, prefix: Option<string>, users: bool, count: nat, render: nat -> string)
    returns (out: string)
    requires prefix.Some? ==> prefix.value != ""
    ensures out == if prefix.None? || !users then html else Restore(html, prefix.value, count, render)
  {
    if prefix.None? || !users {
      return html;
    }
    out := RestoreLoop(html, prefix.value, count, render);
  }

  method RestoreLoop(html: string, p: string, count: nat, render: nat -> string) returns (out: string)
    requires p != ""
    ensures out == Restore(html, p, count, render)
  {
    out := "";
    var rest := html;
    ghost var todo := Restore(html, p, count, render);
    var marker := FirstMarker(rest, p);
    while marker.Split?
      invariant marker == FirstMarker(rest, p) && todo == Restore(rest, p, count, render)
      invariant Restore(html, p, count, render) == out + todo
      decreases |rest|
    {
      var emitted := marker.before + Resolve(p, marker.number, count, render);
      ghost var later := RestoreSplits(rest, marker, p, count, render);
      assert out + (emitted + later) == (out + emitted) + later;
      out, todo := out + emitted, later;
      rest := marker.rest;
      marker := FirstMarker(rest, p);
    }
    out := out + rest;
  }

  lemma RestoreSplits(html: string, marker: Split, p: string, count: nat, render: nat -> string) returns (later: string)
    requires p != "" && marker == FirstMarker(html, p) && marker.Split?
    ensures later == Restore(marker.rest, p, count, render)
    ensures Restore(html, p, count, render) == marker.before + Resolve(p, marker.number, count, render) + later
  {
    later := Restore(marker.rest, p, count, render);
  }

  // ---------------------------------------------------------------- exactness

  /** Authored text in front of a marker: the first occurrence of the prefix is the marker's own. */
  ghost predicate Separate(chunk: string, prefix: string) {
    Find(chunk + prefix, prefix) == Some(|chunk|)
  }

  /** Chunks of text, each followed by the marker with some number, and a last chunk. */
  datatype Marked = Last(text: string) | Chunk(text: string, number: nat, rest: Marked)

  function Flatten(m: Marked, text: nat -> string): string {
    match m
    case Last(t) => t
    case Chunk(t, n, rest) => t + text(n) + Flatten(rest, text)
  }

  ghost predicate Clean(m: Marked, prefix: string) {
    match m
    case Last(t) => Find(t, prefix).None?
    case Chunk(t, _, rest) => Separate(t, prefix) && Clean(rest, prefix)
  }

  function OrVerbatim(prefix: string, count: nat, render: nat -> string): nat -> string {
    (n: nat) => if n < count then render(n) else Marker(prefix, n)
  }

  /**
   Restoring any text in which every marker is separate from what surrounds it
   replaces each marker by the rendering of the mention it numbers, whatever
   markers the renderer dropped, repeated or reordered.
   */
  lemma {:induction false} RestoreExact(m: Marked, prefix: string, count: nat, render: nat -> string)
    requires prefix != "" && Clean(m, prefix) && count <= USIZE_MAX + 1
    requires MarkedBelow(m, USIZE_MAX)
    ensures Restore(Flatten(m, MarkerOf(prefix)), prefix, count, render)
         == Flatten(m, OrVerbatim(prefix, count, render))
    decreases m
  {
    match m
    case Last(t) =>
    case Chunk(t, n, rest) =>
      MarkerFound(t, prefix, n, Flatten(rest, MarkerOf(prefix)));
      ParseUnsignedDec(n, USIZE_MAX);
      RestoreExact(rest, prefix, count, render);
      RestoreStep(t, prefix, n, Flatten(rest, MarkerOf(prefix)), count, render);
  }

  predicate MarkedBelow(m: Marked, max: nat) {
    m.Last? || (m.number <= max && MarkedBelow(m.rest, max))
  }

  /** Both searches of one restoration step land on the marker itself. */
  lemma MarkerFound(t: string, prefix: string, n: nat, tail: string)
    requires Separate(t, prefix)
    ensures Find(t + Marker(prefix, n) + tail, prefix) == Some(|t|)
    ensures Find(Dec(n) + [CLOSE] + tail, [CLOSE]) == Some(|Dec(n)|)
  {
    var html := t + Marker(prefix, n) + tail;
    var after := Dec(n) + [CLOSE] + tail;
    var head := t + prefix;
    assert html == head + after;
    forall j | 0 <= j <= |t| ensures At(html, prefix, j) <==> At(head, prefix, j) {
      AtPrefix(head, after, prefix, j);
    }
    FindFirst(head, prefix);
    FirstOccurrence(html, prefix, |t|);
    FindChar(Dec(n), CLOSE, tail);
  }

  lemma RestoreStep(t: string, prefix: string, n: nat, tail: string, count: nat, render: nat -> string)
    requires prefix != "" && n <= USIZE_MAX
    requires Find(t + Marker(prefix, n) + tail, prefix) == Some(|t|)
    requires Find(Dec(n) + [CLOSE] + tail, [CLOSE]) == Some(|Dec(n)|)
    ensures Restore(t + Marker(prefix, n) + tail, prefix, count, render)
         == t + OrVerbatim(prefix, count, render)(n) + Restore(tail, prefix, count, render)
  {
    var html := t + Marker(prefix, n) + tail;
    var after := Dec(n) + [CLOSE] + tail;
    assert html[|t| + |prefix|..] == after;
    assert html[..|t|] == t;
    assert after[..|Dec(n)|] == Dec(n);
    assert after[|Dec(n)| + 1..] == tail;
    assert FirstMarker(html, prefix) == Split(t, Dec(n), tail);
    ParseUnsignedDec(n, USIZE_MAX);
    assert Resolve(prefix, Dec(n), count, render) == OrVerbatim(prefix, count, render)(n);
  }

  /** The prefix cannot start in authored text that contains no prefix and ends at a boundary. */
  lemma BoundarySeparates(chunk: string, k: nat)
    requires Find(chunk, Prefix(k)).None?
    requires chunk == "" || IsBoundary(chunk[|chunk| - 1])
    ensures Separate(chunk, Prefix(k))
  {
    var p := Prefix(k);
    var s := chunk + p;
    FindFirst(chunk, p);
    assert s[|chunk|..|chunk| + |p|] == p;
    forall j | 0 <= j < |chunk| ensures !At(s, p, j) {
      if At(s, p, j) {
        if j + |p| <= |chunk| {
          assert s[j..j + |p|] == chunk[j..j + |p|];
          assert At(chunk, p, j);
          assert false;
        } else {
          var last := |chunk| - 1 - j;
          assert s[j..j + |p|][last] == p[last];
          assert s[j + last] == chunk[|chunk| - 1];
          NoBoundaryInPrefix(k, last);
          assert false;
        }
      }
    }
    FirstOccurrence(s, p, |chunk|);
  }

  lemma NoBoundaryInPrefix(k: nat, i: nat)
    requires i < |Prefix(k)|
    ensures !IsBoundary(Prefix(k)[i])
  {
    if i < 8 {
      assert Prefix(k)[i] == STEM[i];
    }
  }

  /** A slice of text without the prefix has no prefix either. */
  lemma SliceHasNoPrefix(source: string, p: string, from: nat, to: nat)
    requires from <= to <= |source| && Find(source, p).None?
    ensures Find(source[from..to], p).None?
  {
    var slice := source[from..to];
    FindFirst(source, p);
    forall j | 0 <= j <= |slice| ensures !At(slice, p, j) {
      assert !At(source, p, from + j);
      if j + |p| <= |slice| {
        SliceOfSlice(source, from, to, j, j + |p|);
      }
    }
    NoOccurrence(slice, p);
  }

  /** The prepared source as chunks and markers. */
  function Chunks(source: string, ms: seq<Mention>, i: nat, cursor: nat): Marked
    requires ValidFrom(source, ms, i, cursor)
    decreases |ms| - i
  {
    if i == |ms| then Last(source[cursor..])
    else Chunk(source[cursor..ms[i].start], i, Chunks(source, ms, i + 1, ms[i].end))
  }

  lemma {:induction false} ChunksFlatten(source: string, ms: seq<Mention>, i: nat, cursor: nat, text: nat -> string)
    requires ValidFrom(source, ms, i, cursor)
    ensures Flatten(Chunks(source, ms, i, cursor), text) == Replaced(source, ms, i, cursor, text)
    decreases |ms| - i
  {
    if i < |ms| {
      ChunksFlatten(source, ms, i + 1, ms[i].end, text);
    }
  }

  lemma {:induction false} ChunksClean(source: string, ms: seq<Mention>, i: nat, cursor: nat, k: nat)
    requires ValidFrom(source, ms, i, cursor) && |ms| <= USIZE_MAX
    requires Find(source, Prefix(k)).None?
    ensures Clean(Chunks(source, ms, i, cursor), Prefix(k)) && MarkedBelow(Chunks(source, ms, i, cursor), USIZE_MAX)
    decreases |ms| - i
  {
    if i == |ms| {
      SliceHasNoPrefix(source, Prefix(k), cursor, |source|);
      assert source[cursor..] == source[cursor..|source|];
    } else {
      SliceHasNoPrefix(source, Prefix(k), cursor, ms[i].start);
      BoundarySeparates(source[cursor..ms[i].start], k);
      ChunksClean(source, ms, i + 1, ms[i].end, k);
    }
  }

  /**
   Marker insertion and restoration are exact: with nothing happening in between,
   the result is the source with each mention range, and nothing else, replaced
   by that mention's rendering.
   */
  lemma MarkersRoundTrip(source: string, ms: seq<Mention>, render: nat -> string)
    requires ValidFrom(source, ms, 0, 0) && |ms| <= USIZE_MAX
    ensures
      var p := Prefix(PrefixFor(source, 0));
      Restore(Replaced(source, ms, 0, 0, MarkerOf(p)), p, |ms|, render) == Replaced(source, ms, 0, 0, render)
  {
    var k := PrefixFor(source, 0);
    var p := Prefix(k);
    var chunks := Chunks(source, ms, 0, 0);
    ChunksClean(source, ms, 0, 0, k);
    ChunksFlatten(source, ms, 0, 0, MarkerOf(p));
    RestoreExact(chunks, p, |ms|, render);
    ChunksFlatten(source, ms, 0, 0, OrVerbatim(p, |ms|, render));
    ReplacedRendered(source, ms, 0, 0, p, render);
  }

  lemma {:induction false} ReplacedRendered(
      source: string, ms: seq<Mention>, i: nat, cursor: nat, p: string, render: nat -> string)
    requires ValidFrom(source, ms, i, cursor)
    ensures Replaced(source, ms, i, cursor, OrVerbatim(p, |ms|, render)) == Replaced(source, ms, i, cursor, render)
    decreases |ms| - i
  {
    if i < |ms| {
      ReplacedRendered(source, ms, i + 1, ms[i].end, p, render);
    }
  }

  /**
   The boundary rule is what makes this work: a mention glued to text that ends
   in the stem would let the prefix begin in that text and be restored wrongly.
   */
  lemma GluedMentionIsNotSeparate()
    ensures
      var source := STEM + "@bob";
      && PrefixFor(source, 0) == 1
      && !MentionBoundary(source, |STEM|)
      && !Separate(source[..|STEM|], Prefix(1))
  {
    var source := STEM + "@bob";
    assert Prefix(0) == STEM;
    assert source[0..8] == Prefix(0);
    assert At(source, Prefix(0), 0);
    assert |Prefix(1)| == 9 && Prefix(1)[8] == OPEN && Prefix(1)[0] == OPEN;
    forall j | 0 <= j <= |source| ensures !At(source, Prefix(1), j) {
      assert j + 9 <= |source| ==> source[j + 8] != OPEN;
      assert j + 9 <= |source| ==> source[j..j + 9][8] == source[j + 8];
    }
    FindFirst(source, Prefix(0));
    NoOccurrence(source, Prefix(1));
    var glued := source[..8] + Prefix(1);
    assert source[..8] == STEM;
    assert glued[0..9] == Prefix(1);
    assert At(glued, Prefix(1), 0);
    FirstOccurrence(glued, Prefix(1), 0);
  }

  /** The whole pipeline on any source and text ranges, with the Markdown renderer as the identity. */
  method RenderMentions(source: string, ranges: seq<Range>, render: nat -> string) returns (html: string)
    requires ValidRanges(source, ranges) && |source| <= USIZE_MAX
    ensures
      var ms := AllMentions(source, ranges);
      ValidFrom(source, ms, 0, 0) && html == Replaced(source, ms, 0, 0, render)
    ensures forall m :: m in AllMentions(source, ranges) ==> WholeInSome(source, m, ranges)
    ensures forall k: nat :: StartsInSome(source, ranges, k) ==> exists m :: m in AllMentions(source, ranges) && m.start == k
  {
    var ms := MarkdownMentions(source, ranges);
    MentionsExact(source, ranges);
    MentionsAreWhole(source, ranges);
    forall k: nat | StartsInSome(source, ranges, k) ensures exists m :: m in AllMentions(source, ranges) && m.start == k {
      MentionStarts(source, ranges, k);
    }
    ValidIsValidFrom(source, ms, 0, 0);
    FewerMentionsThanCharacters(source, ms, 0, 0);
    var prepared, prefix := PrepareMarkers(source, true, ms);
    html := RestoreMarkers(prepared, prefix, true, |ms|, render);
    MarkersRoundTrip(source, ms, render);
  }

  lemma {:induction false} FewerMentionsThanCharacters(source: string, ms: seq<Mention>, i: nat, cursor: nat)
    requires ValidFrom(source, ms, i, cursor)
    ensures |ms| - i <= |source| - cursor
    decreases |ms| - i
  {
    if i < |ms| {
      FewerMentionsThanCharacters(source, ms, i + 1, ms[i].end);
    }
  }
}
