/**
 Mentions in LORCODE: a one-pass machine over the tag tokens of a message, and
 the set of `[user]` texts it is meant to collect.
 */
module LorcodeMentions {
  import opened Options
  import opened Text

  /** A tag token `[start, end)` of the source and the tag name in it. */
  datatype Tag = Tag(start: nat, end: nat, name: string)

  /** Tokens come in order and do not overlap. */
  ghost predicate ValidTags(source: string, tags: seq<Tag>) {
    && (forall i :: 0 <= i < |tags| ==> tags[i].start <= tags[i].end <= |source|)
    && (forall i, j :: 0 <= i < j < |tags| ==> tags[i].end <= tags[j].start)
  }

  predicate HasPrefix(s: string, p: string) { |p| <= |s| && s[..|p|] == p }

  predicate HasSuffix(s: string, p: string) { |p| <= |s| && s[|s| - |p|..] == p }

  function Raw(source: string, t: Tag): string
    requires t.start <= t.end <= |source|
  {
    source[t.start..t.end]
  }

  predicate Escaped(source: string, t: Tag)
    requires t.start <= t.end <= |source|
  {
    HasPrefix(Raw(source, t), "[[") && HasSuffix(Raw(source, t), "]]")
  }

  predicate Closing(source: string, t: Tag)
    requires t.start <= t.end <= |source|
  {
    HasPrefix(Raw(source, t), "[/") || HasPrefix(Raw(source, t), "[[/")
  }

  predicate IsCodeTag(t: Tag) { SameIgnoringCase(t.name, "code") || SameIgnoringCase(t.name, "inline") }

  predicate IsUserTag(t: Tag) { SameIgnoringCase(t.name, "user") }

  // ---------------------------------------------------------------- names

  /** Fewer than eighty characters, a letter first, then letters, digits, '_' and '-'. */
  predicate IsLogin(nick: string) {
    && 0 < |nick| < 80
    && IsAlpha(nick[0])
    && forall i :: 1 <= i < |nick| ==> IsAlpha(nick[i]) || IsDigit(nick[i]) || nick[i] == '_' || nick[i] == '-'
  }

  // ---------------------------------------------------------------- the specification

  predicate OpensCode(source: string, t: Tag)
    requires t.start <= t.end <= |source|
  {
    !Escaped(source, t) && IsCodeTag(t) && !Closing(source, t)
  }

  predicate ClosesCode(source: string, t: Tag)
    requires t.start <= t.end <= |source|
  {
    !Escaped(source, t) && IsCodeTag(t) && Closing(source, t)
  }

  /** Before tag `i` some code tag is open: an opening one with no closing one after it. */
  ghost predicate InCode(source: string, tags: seq<Tag>, i: nat)
    requires ValidTags(source, tags) && i <= |tags|
  {
    exists j :: 0 <= j < i && OpensCode(source, tags[j]) && forall k :: j < k < i ==> !ClosesCode(source, tags[k])
  }

  /** Tag `i` starts a user text: an unescaped opening user tag outside code. */
  ghost predicate OpensUser(source: string, tags: seq<Tag>, i: nat)
    requires ValidTags(source, tags) && i < |tags|
  {
    !Escaped(source, tags[i]) && IsUserTag(tags[i]) && !Closing(source, tags[i]) && !InCode(source, tags, i)
  }

  /** The trimmed text from tag `i` to the next tag or the end of the source. */
  function TextAfter(source: string, tags: seq<Tag>, i: nat): string
    requires i < |tags| && tags[i].start <= tags[i].end <= |source|
    requires i + 1 < |tags| ==> tags[i].end <= tags[i + 1].start <= |source|
  {
    Trim(source[tags[i].end..if i + 1 < |tags| then tags[i + 1].start else |source|])
  }

  /** The user texts opened by the first `n` tags. */
  ghost function UserTexts(source: string, tags: seq<Tag>, n: nat): seq<string>
    requires ValidTags(source, tags) && n <= |tags|
  {
    if n == 0 then []
    else UserTexts(source, tags, n - 1) + (if OpensUser(source, tags, n - 1) then [TextAfter(source, tags, n - 1)] else [])
  }

  function Push(out: seq<string>, nick: string): seq<string> {
    if IsLogin(nick) && nick !in out then out + [nick] else out
  }

  /** The login names among `texts`, once each, in first-seen order. */
  function FirstSeen(texts: seq<string>): seq<string> {
    if texts == [] then [] else Push(FirstSeen(texts[..|texts| - 1]), texts[|texts| - 1])
  }

  // ---------------------------------------------------------------- the machine

  class Collector {
    var out: seq<string>
    var seen: set<string>
    var activeUserTextStart: Option<nat>

    constructor ()
      ensures out == [] && seen == {} && activeUserTextStart == None
    {
      out, seen, activeUserTextStart := [], {}, None;
    }

    ghost predicate Valid() reads this { forall n :: n in seen <==> n in out }

    method PushJavaLoginOnce(nick: string)
      modifies this
      requires Valid()
      ensures Valid() && out == Push(old(out), nick) && activeUserTextStart == old(activeUserTextStart)
    {
      if IsLogin(nick) && nick !in seen {
        seen := seen + {nick};
        out := out + [nick];
      }
    }

    method TakeLorUserText(source: string, end: nat)
      modifies this
      requires Valid() && (activeUserTextStart.Some? ==> activeUserTextStart.value <= end <= |source|)
      ensures Valid() && activeUserTextStart == None
      ensures out == if old(activeUserTextStart).None? then old(out)
                     else Push(old(out), Trim(source[old(activeUserTextStart).value..end]))
    {
      if activeUserTextStart.Some? {
        var start := activeUserTextStart.value;
        activeUserTextStart := None;
        PushJavaLoginOnce(Trim(source[start..end]));
      }
    }
  }

  /** How code mode changes at a tag. */
  lemma InCodeNext(source: string, tags: seq<Tag>, i: nat)
    requires ValidTags(source, tags) && i < |tags|
    ensures InCode(source, tags, i + 1)
            <==> OpensCode(source, tags[i]) || (InCode(source, tags, i) && !ClosesCode(source, tags[i]))
  {
    if InCode(source, tags, i) && !ClosesCode(source, tags[i]) {
      var j :| 0 <= j < i && OpensCode(source, tags[j]) && forall k :: j < k < i ==> !ClosesCode(source, tags[k]);
      assert forall k :: j < k < i + 1 ==> !ClosesCode(source, tags[k]);
    }
  }

  /** What the machine knows before tag `i`. */
  ghost predicate Progress(source: string, tags: seq<Tag>, i: nat, codeMode: bool, active: Option<nat>, out: seq<string>)
    requires ValidTags(source, tags) && i <= |tags|
  {
    && codeMode == InCode(source, tags, i)
    && (active.Some? <==> i > 0 && OpensUser(source, tags, i - 1))
    && (active.Some? ==> active.value == tags[i - 1].end)
    && out == FirstSeen(UserTexts(source, tags, if active.Some? then i - 1 else i))
  }

  lemma UserTextsStep(source: string, tags: seq<Tag>, n: nat)
    requires ValidTags(source, tags) && n < |tags|
    ensures FirstSeen(UserTexts(source, tags, n + 1))
         == if OpensUser(source, tags, n) then Push(FirstSeen(UserTexts(source, tags, n)), TextAfter(source, tags, n))
            else FirstSeen(UserTexts(source, tags, n))
  {
    var texts := UserTexts(source, tags, n);
    if OpensUser(source, tags, n) {
      assert (texts + [TextAfter(source, tags, n)])[..|texts|] == texts;
    } else {
      assert texts + [] == texts;
    }
  }

  /** An open user text never coexists with code mode. */
  lemma UserTextOutsideCode(source: string, tags: seq<Tag>, i: nat)
    requires ValidTags(source, tags) && i < |tags| && OpensUser(source, tags, i)
    ensures !InCode(source, tags, i + 1)
  {
    InCodeNext(source, tags, i);
    assert |"user"| == 4 && |"inline"| == 6;
    assert LowerChar("user"[0]) == 'u' && LowerChar("code"[0]) == 'c';
  }

  method ExtractLorcodeMentions(source: string, tags: seq<Tag>) returns (out: seq<string>)
    requires ValidTags(source, tags)
    ensures out == FirstSeen(UserTexts(source, tags, |tags|))
  {
    var c := new Collector();
    var codeMode := false;
    for i := 0 to |tags|
      invariant fresh(c) && c.Valid()
      invariant Progress(source, tags, i, codeMode, c.activeUserTextStart, c.out)
    {
      codeMode := VisitTag(c, source, tags, i, codeMode);
    }
    if |tags| > 0 {
      UserTextsStep(source, tags, |tags| - 1);
    }
    c.TakeLorUserText(source, |source|);
    return c.out;
  }

  /** The machine's known texts once the open one is taken at the next tag. */
  lemma TakenAtTag(source: string, tags: seq<Tag>, i: nat, codeMode: bool, active: Option<nat>, out: seq<string>)
    requires ValidTags(source, tags) && i < |tags| && Progress(source, tags, i, codeMode, active, out)
    ensures active.Some? ==> active.value <= tags[i].start <= |source| && !codeMode
    ensures FirstSeen(UserTexts(source, tags, i))
         == if active.Some? then Push(out, Trim(source[active.value..tags[i].start])) else out
  {
    if active.Some? {
      TextTaken(source, tags, i);
    }
  }

  /** The text opened by the tag before is complete at this tag, and not in code. */
  lemma TextTaken(source: string, tags: seq<Tag>, i: nat)
    requires ValidTags(source, tags) && 0 < i < |tags| && OpensUser(source, tags, i - 1)
    ensures tags[i - 1].end <= tags[i].start <= |source| && !InCode(source, tags, i)
    ensures FirstSeen(UserTexts(source, tags, i))
         == Push(FirstSeen(UserTexts(source, tags, i - 1)), Trim(source[tags[i - 1].end..tags[i].start]))
  {
    UserTextOutsideCode(source, tags, i - 1);
    TextUpToTag(source, tags, i);
    UserTextsStep(source, tags, i - 1);
  }

  lemma TextUpToTag(source: string, tags: seq<Tag>, i: nat)
    requires ValidTags(source, tags) && 0 < i < |tags|
    ensures tags[i - 1].end <= tags[i].start <= |source|
    ensures TextAfter(source, tags, i - 1) == Trim(source[tags[i - 1].end..tags[i].start])
  {
  }

  /** One iteration: the new code mode, with the collector moved on. */
  method VisitTag(c: Collector, source: string, tags: seq<Tag>, i: nat, codeMode: bool) returns (newMode: bool)
    requires ValidTags(source, tags) && i < |tags| && c.Valid()
    requires Progress(source, tags, i, codeMode, c.activeUserTextStart, c.out)
    modifies c
    ensures c.Valid() && Progress(source, tags, i + 1, newMode, c.activeUserTextStart, c.out)
  {
    var tag := tags[i];
    newMode := codeMode;
    InCodeNext(source, tags, i);
    TakenAtTag(source, tags, i, codeMode, c.activeUserTextStart, c.out);
    UserTextsStep(source, tags, i);
    if Escaped(source, tag) {
      c.TakeLorUserText(source, tag.start);
    } else if codeMode {
      if IsCodeTag(tag) && Closing(source, tag) {
        newMode := false;
      }
    } else if IsCodeTag(tag) {
      CodeIsNotUser(tag);
      c.TakeLorUserText(source, tag.start);
      newMode := !Closing(source, tag);
    } else if IsUserTag(tag) {
      c.TakeLorUserText(source, tag.start);
      if !Closing(source, tag) {
        c.activeUserTextStart := Some(tag.end);
      }
    } else if c.activeUserTextStart.Some? {
      c.TakeLorUserText(source, tag.start);
    }
  }

  lemma CodeIsNotUser(t: Tag)
    requires IsCodeTag(t)
    ensures !IsUserTag(t)
  {
    assert |"user"| == 4 && |"inline"| == 6;
    assert LowerChar("user"[0]) == 'u' && LowerChar("code"[0]) == 'c';
  }

  // ---------------------------------------------------------------- what the result means

  /** The position of the first text equal to `n`. */
  function FirstIndex(texts: seq<string>, n: string): (k: nat)
    requires n in texts
    ensures k < |texts| && texts[k] == n && forall i :: 0 <= i < k ==> texts[i] != n
  {
    if texts[0] == n then 0 else 1 + FirstIndex(texts[1..], n)
  }

  /** `FirstSeen` keeps exactly the login names, without repeats, in order of first appearance. */
  lemma {:induction false} FirstSeenExact(texts: seq<string>)
    ensures forall n :: n in FirstSeen(texts) <==> n in texts && IsLogin(n)
    ensures forall i, j :: 0 <= i < j < |FirstSeen(texts)| ==>
              FirstIndex(texts, FirstSeen(texts)[i]) < FirstIndex(texts, FirstSeen(texts)[j])
    decreases |texts|
  {
    if texts != [] {
      var prior := texts[..|texts| - 1];
      var last := texts[|texts| - 1];
      FirstSeenExact(prior);
      var out := FirstSeen(texts);
      assert texts == prior + [last];
      forall n | n in prior ensures FirstIndex(texts, n) == FirstIndex(prior, n) {
        assert texts[FirstIndex(prior, n)] == n;
        assert texts[FirstIndex(texts, n)] == n;
      }
      forall i, j | 0 <= i < j < |out| ensures FirstIndex(texts, out[i]) < FirstIndex(texts, out[j]) {
        assert out[i] == FirstSeen(prior)[i] && out[i] in FirstSeen(prior);
        if j < |FirstSeen(prior)| {
          assert out[j] == FirstSeen(prior)[j] && out[j] in FirstSeen(prior);
        } else {
          assert out[j] == last && last !in prior;
        }
      }
    }
  }

  /** One of the first `n` tags opens a user text that reads `text`. */
  ghost predicate SomeUserText(source: string, tags: seq<Tag>, n: nat, text: string)
    requires ValidTags(source, tags) && n <= |tags|
  {
    exists i :: 0 <= i < n && OpensUser(source, tags, i) && TextAfter(source, tags, i) == text
  }

  lemma SomeUserTextStep(source: string, tags: seq<Tag>, n: nat, text: string)
    requires ValidTags(source, tags) && n < |tags|
    ensures SomeUserText(source, tags, n + 1, text)
            <==> SomeUserText(source, tags, n, text) || (OpensUser(source, tags, n) && TextAfter(source, tags, n) == text)
  {
  }

  lemma UserTextsHold(source: string, tags: seq<Tag>, n: nat, text: string)
    requires ValidTags(source, tags) && n < |tags|
    ensures text in UserTexts(source, tags, n + 1)
            <==> text in UserTexts(source, tags, n) || (OpensUser(source, tags, n) && TextAfter(source, tags, n) == text)
  {
  }

  /** A text is collected exactly if some unescaped opening user tag outside code has it as its text. */
  lemma {:induction false} UserTextsExact(source: string, tags: seq<Tag>, n: nat, text: string)
    requires ValidTags(source, tags) && n <= |tags|
    ensures text in UserTexts(source, tags, n) <==> SomeUserText(source, tags, n, text)
  {
    if n > 0 {
      UserTextsExact(source, tags, n - 1, text);
      SomeUserTextStep(source, tags, n - 1, text);
      UserTextsHold(source, tags, n - 1, text);
    }
  }

  /** The mentions of a message are exactly the login names standing as the text of a user tag. */
  lemma MentionsExact(source: string, tags: seq<Tag>, nick: string)
    requires ValidTags(source, tags)
    ensures nick in FirstSeen(UserTexts(source, tags, |tags|))
            <==> IsLogin(nick) && SomeUserText(source, tags, |tags|, nick)
  {
    FirstSeenExact(UserTexts(source, tags, |tags|));
    UserTextsExact(source, tags, |tags|, nick);
  }

  // ---------------------------------------------------------------- the same, on the characters

  /** In double brackets. */
  predicate Bracketed(source: string, t: Tag) {
    && t.start + 2 <= t.end <= |source|
    && source[t.start] == '[' && source[t.start + 1] == '[' && source[t.end - 2] == ']' && source[t.end - 1] == ']'
  }

  /** A slash behind one or two opening brackets. */
  predicate Slashed(source: string, t: Tag) {
    && t.start + 2 <= t.end <= |source| && source[t.start] == '['
    && (source[t.start + 1] == '/' || (t.start + 3 <= t.end && source[t.start + 1] == '[' && source[t.start + 2] == '/'))
  }

  /** The lower-case word, with any of its letters capital. */
  predicate Reads(name: string, word: string) {
    && |name| == |word|
    && forall k :: 0 <= k < |name| ==>
         name[k] == word[k] || ('A' <= name[k] <= 'Z' && name[k] as int + 32 == word[k] as int)
  }

  predicate ReadsCode(name: string) { Reads(name, "code") || Reads(name, "inline") }

  predicate LoginLetter(c: char) { 'a' <= c <= 'z' || 'A' <= c <= 'Z' }

  predicate LoginLetters(nick: string) {
    && 1 <= |nick| <= 79 && LoginLetter(nick[0])
    && forall i :: 0 <= i < |nick| ==> LoginLetter(nick[i]) || '0' <= nick[i] <= '9' || nick[i] == '_' || nick[i] == '-'
  }

  /** A code tag before tag `i` opens code that no later one closes. */
  ghost predicate CodeIsOpen(source: string, tags: seq<Tag>, i: nat)
    requires i <= |tags|
  {
    exists j :: 0 <= j < i && ReadsCode(tags[j].name) && !Bracketed(source, tags[j]) && !Slashed(source, tags[j])
                && forall k :: j < k < i ==> !(ReadsCode(tags[k].name) && !Bracketed(source, tags[k]) && Slashed(source, tags[k]))
  }

  /** Behind an opening user tag outside code, up to the next tag or the end, stands the name between white space. */
  ghost predicate StandsAsUser(source: string, tags: seq<Tag>, i: nat, nick: string)
    requires ValidTags(source, tags) && i < |tags|
  {
    && Reads(tags[i].name, "user") && !Bracketed(source, tags[i]) && !Slashed(source, tags[i])
    && !CodeIsOpen(source, tags, i)
    && exists a: string, b: string ::
         OnlySpace(a) && OnlySpace(b)
         && source[tags[i].end..if i + 1 < |tags| then tags[i + 1].start else |source|] == a + nick + b
  }

  lemma ReadsIff(name: string, word: string)
    requires forall k :: 0 <= k < |word| ==> 'a' <= word[k] <= 'z'
    ensures SameIgnoringCase(name, word) <==> Reads(name, word)
  {
  }

  lemma TagShape(source: string, t: Tag)
    requires t.start <= t.end <= |source|
    ensures Escaped(source, t) <==> Bracketed(source, t)
    ensures Closing(source, t) <==> Slashed(source, t)
  {
    var raw := Raw(source, t);
    if |raw| >= 2 {
      assert raw[..2] == [raw[0], raw[1]] && raw[|raw| - 2..] == [raw[|raw| - 2], raw[|raw| - 1]];
    }
    if |raw| >= 3 {
      assert raw[..3] == [raw[0], raw[1], raw[2]];
    }
  }

  lemma TagNames(name: string)
    ensures SameIgnoringCase(name, "user") <==> Reads(name, "user")
    ensures SameIgnoringCase(name, "code") || SameIgnoringCase(name, "inline") <==> ReadsCode(name)
  {
    ReadsIff(name, "user");
    ReadsIff(name, "code");
    ReadsIff(name, "inline");
  }

  lemma InCodeIff(source: string, tags: seq<Tag>, i: nat)
    requires ValidTags(source, tags) && i <= |tags|
    ensures InCode(source, tags, i) <==> CodeIsOpen(source, tags, i)
  {
    forall j | 0 <= j < |tags|
      ensures OpensCode(source, tags[j]) <==> ReadsCode(tags[j].name) && !Bracketed(source, tags[j]) && !Slashed(source, tags[j])
      ensures ClosesCode(source, tags[j]) <==> ReadsCode(tags[j].name) && !Bracketed(source, tags[j]) && Slashed(source, tags[j])
    {
      TagShape(source, tags[j]);
      TagNames(tags[j].name);
    }
  }

  lemma TrimmedIff(s: string, nick: string)
    requires LoginLetters(nick)
    ensures Trim(s) == nick <==> exists a: string, b: string :: OnlySpace(a) && OnlySpace(b) && s == a + nick + b
  {
    if Trim(s) == nick {
      var a, b := TrimExact(s);
    }
    if a: string, b: string :| OnlySpace(a) && OnlySpace(b) && s == a + nick + b {
      TrimIs(a, nick, b);
    }
  }

  lemma OpensUserIff(source: string, tags: seq<Tag>, i: nat, nick: string)
    requires ValidTags(source, tags) && i < |tags| && LoginLetters(nick)
    ensures OpensUser(source, tags, i) && TextAfter(source, tags, i) == nick <==> StandsAsUser(source, tags, i, nick)
  {
    TagShape(source, tags[i]);
    TagNames(tags[i].name);
    InCodeIff(source, tags, i);
    TrimmedIff(source[tags[i].end..if i + 1 < |tags| then tags[i + 1].start else |source|], nick);
  }

  /** The mentions of a message, on its characters. */
  lemma MentionsMean(source: string, tags: seq<Tag>, nick: string)
    requires ValidTags(source, tags)
    ensures nick in FirstSeen(UserTexts(source, tags, |tags|))
            <==> LoginLetters(nick) && exists i :: 0 <= i < |tags| && StandsAsUser(source, tags, i, nick)
  {
    MentionsExact(source, tags, nick);
    if LoginLetters(nick) {
      forall i | 0 <= i < |tags|
        ensures OpensUser(source, tags, i) && TextAfter(source, tags, i) == nick <==> StandsAsUser(source, tags, i, nick)
      {
        OpensUserIff(source, tags, i, nick);
      }
    }
  }
}
