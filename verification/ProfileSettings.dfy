/**
 Profile settings: reading them from stored hstore text, applying a settings
 form, and what survives storing and reading back.
 */
module ProfileSettings {
  import opened Options
  import opened Text
  import opened Lists

  datatype Settings = Settings(
    style: string, formatMode: string, topics: int, messages: int, photos: bool, hideAdsense: bool, mainGallery: bool,
    avatar: string, trackerMode: string, oldTracker: bool, oldNotifications: bool, reactionNotification: bool)

  /** What may be chosen, and what holds until something is. */
  datatype Offer = Offer(
    themes: seq<string>, formatModes: seq<string>, avatars: seq<string>, trackerModes: seq<string>,
    topics: seq<int>, messages: seq<int>, standard: Settings)

  const THEMES: seq<string> := ["tango", "tango-light", "tango-auto", "black", "white2", "waltz", "zomg_ponies"]
  const FORMAT_MODES: seq<string> := ["markdown", "lorcode", "ntobr"]
  const AVATARS: seq<string> := ["empty", "identicon", "monsterid", "wavatar", "retro", "robohash"]
  const TRACKER_MODES: seq<string> := ["all", "main"]
  const TOPICS_VALUES: seq<int> := [30, 50, 100, 200, 300, 500]
  const MESSAGES_VALUES: seq<int> := [25, 50, 100, 200, 300, 500]

  const DEFAULT: Settings :=
    Settings("tango-auto", "markdown", 30, 50, true, true, true, "empty", "main", false, false, true)

  /** The offer of the site; the laws below hold for every offer of plain values. */
  const OFFER: Offer :=
    Offer(THEMES, FORMAT_MODES, AVATARS, TRACKER_MODES, TOPICS_VALUES, MESSAGES_VALUES, DEFAULT)

  const I32_MIN: int := -0x8000_0000
  const I32_MAX: int := 0x7FFF_FFFF

  function ParseI32(s: string): Option<int> { ParseSigned(s, I32_MIN, I32_MAX) }

  predicate IsI32(n: int) { I32_MIN <= n <= I32_MAX }

  // ---------------------------------------------------------------- hstore text

  function TrimQuotesStart(s: string): string {
    if s != "" && s[0] == '"' then TrimQuotesStart(s[1..]) else s
  }

  function TrimQuotesEnd(s: string): string {
    if s != "" && s[|s| - 1] == '"' then TrimQuotesEnd(s[..|s| - 1]) else s
  }

  /** Every backslash-quote becomes a quote. */
  function Unescape(s: string): string {
    if |s| >= 2 && s[0] == '\\' && s[1] == '"' then "\"" + Unescape(s[2..])
    else if s == "" then ""
    else [s[0]] + Unescape(s[1..])
  }

  function CleanToken(token: string): string { Unescape(TrimQuotesEnd(TrimQuotesStart(Trim(token)))) }

  const ARROW := "=>"

  /** The entry one comma-separated part adds. */
  function AddPart(entries: map<string, string>, part: string): map<string, string> {
    match Find(part, ARROW)
    case None => entries
    case Some(k) =>
      var key, value := CleanToken(part[..k]), CleanToken(part[k + 2..]);
      if key == "" then entries else entries[key := value]
  }

  function AddParts(parts: seq<string>): map<string, string> {
    if parts == [] then map[] else AddPart(AddParts(parts[..|parts| - 1]), parts[|parts| - 1])
  }

  function HstoreMap(text: string): map<string, string> { AddParts(Split(text, ',')) }

  method ParseHstoreText(value: string) returns (entries: map<string, string>)
    ensures entries == HstoreMap(value)
  {
    entries := map[];
    var parts := Split(value, ',');
    for i := 0 to |parts|
      invariant entries == AddParts(parts[..i])
    {
      assert parts[..i + 1][..i] == parts[..i];
      match Find(parts[i], ARROW)
      case None =>
      case Some(k) =>
        var key := CleanToken(parts[i][..k]);
        var val := CleanToken(parts[i][k + 2..]);
        if key != "" {
          entries := entries[key := val];
        }
    }
    assert parts[..|parts|] == parts;
  }

  // ---------------------------------------------------------------- any hstore text

  function Quotes(n: nat): string { if n == 0 then "" else "\"" + Quotes(n - 1) }

  lemma {:induction false} QuotesSnoc(n: nat)
    ensures Quotes(n) + "\"" == Quotes(n + 1)
  {
    if n > 0 {
      QuotesSnoc(n - 1);
    }
  }

  lemma {:induction false} QuotesOffStart(s: string) returns (p: nat)
    ensures s == Quotes(p) + TrimQuotesStart(s) && (TrimQuotesStart(s) == "" || TrimQuotesStart(s)[0] != '"')
    decreases |s|
  {
    if s != "" && s[0] == '"' {
      p := QuotesOffStart(s[1..]);
      p := p + 1;
    } else {
      p := 0;
    }
  }

  lemma {:induction false} QuotesOffEnd(s: string) returns (q: nat)
    ensures s == TrimQuotesEnd(s) + Quotes(q) && (TrimQuotesEnd(s) == "" || TrimQuotesEnd(s)[|TrimQuotesEnd(s)| - 1] != '"')
    decreases |s|
  {
    if s != "" && s[|s| - 1] == '"' {
      q := QuotesOffEnd(s[..|s| - 1]);
      QuotesSnoc(q);
      assert s == s[..|s| - 1] + "\"";
      q := q + 1;
    } else {
      q := 0;
    }
  }

  /** Text as escaped quotes and other characters. */
  datatype Spelling = End | Quote(rest: Spelling) | Other(c: char, rest: Spelling)

  function SpelledText(t: Spelling): string {
    match t
    case End => ""
    case Quote(rest) => "\\\"" + SpelledText(rest)
    case Other(c, rest) => [c] + SpelledText(rest)
  }

  function SpelledValue(t: Spelling): string {
    match t
    case End => ""
    case Quote(rest) => "\"" + SpelledValue(rest)
    case Other(c, rest) => [c] + SpelledValue(rest)
  }

  /** Where a backslash meets a quote, the two are one escaped quote. */
  predicate Greedy(t: Spelling) {
    match t
    case End => true
    case Quote(rest) => Greedy(rest)
    case Other(c, rest) => (c == '\\' ==> SpelledText(rest) == "" || SpelledText(rest)[0] != '"') && Greedy(rest)
  }

  lemma {:induction false} UnescapeThere(s: string) returns (t: Spelling)
    ensures SpelledText(t) == s && Greedy(t) && SpelledValue(t) == Unescape(s)
    decreases |s|
  {
    if |s| >= 2 && s[0] == '\\' && s[1] == '"' {
      t := UnescapeThere(s[2..]);
      t := Quote(t);
    } else if s == "" {
      t := End;
    } else {
      t := UnescapeThere(s[1..]);
      t := Other(s[0], t);
    }
  }

  /**
   A token is cleaned of white space at its ends, then of all quotes at its ends,
   then its escaped quotes are undone; nothing else changes.
   */
  lemma CleanTokenExact(token: string) returns (a: string, p: nat, t: Spelling, q: nat, b: string)
    ensures token == a + (Quotes(p) + SpelledText(t) + Quotes(q)) + b && OnlySpace(a) && OnlySpace(b)
    ensures Trim(token) == Quotes(p) + SpelledText(t) + Quotes(q)
    ensures SpelledText(t) != "" ==> SpelledText(t)[0] != '"' && SpelledText(t)[|SpelledText(t)| - 1] != '"'
    ensures Greedy(t) && CleanToken(token) == SpelledValue(t)
  {
    a, b := TrimExact(token);
    p, t, q := CleanTrimmed(Trim(token));
    assert Trim(token) == Quotes(p) + SpelledText(t) + Quotes(q);
  }

  lemma CleanTrimmed(token: string) returns (p: nat, t: Spelling, q: nat)
    ensures token == Quotes(p) + SpelledText(t) + Quotes(q)
    ensures SpelledText(t) != "" ==> SpelledText(t)[0] != '"' && SpelledText(t)[|SpelledText(t)| - 1] != '"'
    ensures Greedy(t) && SpelledValue(t) == Unescape(TrimQuotesEnd(TrimQuotesStart(token)))
  {
    var s := TrimQuotesStart(token);
    p := QuotesOffStart(token);
    q := QuotesOffEnd(s);
    t := UnescapeThere(TrimQuotesEnd(s));
    assert token == Quotes(p) + (SpelledText(t) + Quotes(q));
    assert SpelledText(t) != "" ==> s[0] == SpelledText(t)[0];
  }

  /** What the part stores under the key: its first arrow stands between the two. */
  function StoredUnder(part: string, key: string): Option<string> {
    match Find(part, "=>")
    case None => None
    case Some(k) => if key != "" && CleanToken(part[..k]) == key then Some(CleanToken(part[k + 2..])) else None
  }

  lemma AddPartExact(entries: map<string, string>, part: string, key: string)
    ensures
      var after := AddPart(entries, part);
      match StoredUnder(part, key)
      case Some(value) => key in after && after[key] == value
      case None => (key in after <==> key in entries) && (key in entries ==> after[key] == entries[key])
  {
  }

  function Under(key: string): string -> Option<string> { part => StoredUnder(part, key) }

  /** Some part stores the value, and none behind it stores anything. */
  ghost predicate LastStores(parts: seq<string>, stored: string -> Option<string>, value: string) {
    exists i :: 0 <= i < |parts| && stored(parts[i]) == Some(value)
                && forall j :: i < j < |parts| ==> stored(parts[j]) == None
  }

  lemma {:induction false} AddPartsExact(parts: seq<string>, key: string, value: string)
    ensures (key in AddParts(parts) && AddParts(parts)[key] == value) <==> LastStores(parts, Under(key), value)
    decreases |parts|
  {
    if parts != [] {
      var init, last := parts[..|parts| - 1], parts[|parts| - 1];
      AddPartsExact(init, key, value);
      AddPartExact(AddParts(init), last, key);
      LastStoresStep(init, last, Under(key), value);
      assert parts == init + [last];
    }
  }

  lemma LastStoresStep(init: seq<string>, last: string, stored: string -> Option<string>, value: string)
    ensures LastStores(init + [last], stored, value)
            <==> if stored(last).Some? then stored(last) == Some(value) else LastStores(init, stored, value)
  {
    var parts, n := init + [last], |init|;
    assert parts[n] == last && forall i :: 0 <= i < n ==> parts[i] == init[i];
    if LastStores(init, stored, value) && stored(last).None? {
      var i :| 0 <= i < n && stored(init[i]) == Some(value) && forall j :: i < j < n ==> stored(init[j]) == None;
      assert stored(parts[i]) == Some(value);
    }
    if LastStores(parts, stored, value) && stored(last).None? {
      var i :| 0 <= i <= n && stored(parts[i]) == Some(value) && forall j :: i < j <= n ==> stored(parts[j]) == None;
      assert stored(init[i]) == Some(value);
    }
  }

  /** What a stored text holds: under each key the value of the last part, between commas, that stores it. */
  lemma HstoreIff(text: string, key: string, value: string)
    ensures (key in HstoreMap(text) && HstoreMap(text)[key] == value) <==> LastStores(Split(text, ','), Under(key), value)
  {
    AddPartsExact(Split(text, ','), key, value);
  }

  // ---------------------------------------------------------------- reading

  datatype Key =
    | Style | FormatMode | Topics | Messages | Photos | HideAdsense | MainGallery
    | Avatar | TrackerMode | OldTracker | OldNotifications | ReactionNotification

  function Name(k: Key): string {
    match k
    case Style => "style"
    case FormatMode => "format.mode"
    case Topics => "topics"
    case Messages => "messages"
    case Photos => "photos"
    case HideAdsense => "hideAdsense"
    case MainGallery => "mainGallery"
    case Avatar => "avatar"
    case TrackerMode => "trackerMode"
    case OldTracker => "oldTracker"
    case OldNotifications => "oldNotifications"
    case ReactionNotification => "reactionNotification"
  }

  predicate ParseBool(value: string) { value in ["true", "t", "yes", "on", "1"] }

  /** A stored choice counts only if it is still offered. */
  function Choice(m: map<string, string>, k: Key, offered: seq<string>, otherwise: string): string {
    if Name(k) in m && m[Name(k)] in offered then m[Name(k)] else otherwise
  }

  /** A stored number counts if it is one, offered or not. */
  function Number(m: map<string, string>, k: Key, otherwise: int): int {
    if Name(k) in m && ParseI32(m[Name(k)]).Some? then ParseI32(m[Name(k)]).value else otherwise
  }

  function Flag(m: map<string, string>, k: Key, otherwise: bool): bool {
    if Name(k) in m then ParseBool(m[Name(k)]) else otherwise
  }

  function FromMap(o: Offer, m: map<string, string>): Settings {
    Settings(
      Choice(m, Style, o.themes, o.standard.style), Choice(m, FormatMode, o.formatModes, o.standard.formatMode),
      Number(m, Topics, o.standard.topics), Number(m, Messages, o.standard.messages),
      Flag(m, Photos, o.standard.photos), Flag(m, HideAdsense, o.standard.hideAdsense), Flag(m, MainGallery, o.standard.mainGallery),
      Choice(m, Avatar, o.avatars, o.standard.avatar), Choice(m, TrackerMode, o.trackerModes, o.standard.trackerMode),
      Flag(m, OldTracker, o.standard.oldTracker), Flag(m, OldNotifications, o.standard.oldNotifications),
      Flag(m, ReactionNotification, o.standard.reactionNotification))
  }

  function FromText(o: Offer, text: Option<string>): Settings {
    FromMap(o, if text.Some? then HstoreMap(text.value) else map[])
  }

  /** The value stored under a key, if it is one of those offered. */
  function Offered(m: map<string, string>, key: string, offered: seq<string>): Option<string> {
    if key in m && m[key] in offered then Some(m[key]) else None
  }

  function OrStandard<T>(v: Option<T>, standard: T): T { if v.Some? then v.value else standard }

  function StoredFlag(m: map<string, string>, key: string): Option<bool> {
    if key in m then Some(m[key] in {"true", "t", "yes", "on", "1"}) else None
  }

  function StoredNumber(m: map<string, string>, key: string): Option<int> {
    if key in m then ParseSigned(m[key], -0x8000_0000, 0x7FFF_FFFF) else None
  }

  lemma FlagByKey(m: map<string, string>, k: Key, standard: bool)
    ensures Flag(m, k, standard) == OrStandard(StoredFlag(m, Name(k)), standard)
  {
    if Name(k) in m {
      TrueWords(m[Name(k)]);
    }
  }

  lemma TrueWords(v: string)
    ensures ParseBool(v) <==> v in {"true", "t", "yes", "on", "1"}
  {
    var words := ["true", "t", "yes", "on", "1"];
    assert forall i :: 0 <= i < 5 ==> words[i] in {"true", "t", "yes", "on", "1"};
    assert words[0] == "true" && words[1] == "t" && words[2] == "yes" && words[3] == "on" && words[4] == "1";
  }

  /** Key by key, which choices and numbers reading takes from the stored entries. */
  lemma ChoicesByKey(o: Offer, m: map<string, string>)
    ensures
      var s := FromMap(o, m);
      && s.style == OrStandard(Offered(m, "style", o.themes), o.standard.style)
      && s.formatMode == OrStandard(Offered(m, "format.mode", o.formatModes), o.standard.formatMode)
      && s.avatar == OrStandard(Offered(m, "avatar", o.avatars), o.standard.avatar)
      && s.trackerMode == OrStandard(Offered(m, "trackerMode", o.trackerModes), o.standard.trackerMode)
      && s.topics == OrStandard(StoredNumber(m, "topics"), o.standard.topics)
      && s.messages == OrStandard(StoredNumber(m, "messages"), o.standard.messages)
  {
  }

  /** Key by key, which flags it takes. */
  lemma FlagsByKey(o: Offer, m: map<string, string>)
    ensures
      var s := FromMap(o, m);
      && s.photos == OrStandard(StoredFlag(m, "photos"), o.standard.photos)
      && s.hideAdsense == OrStandard(StoredFlag(m, "hideAdsense"), o.standard.hideAdsense)
      && s.mainGallery == OrStandard(StoredFlag(m, "mainGallery"), o.standard.mainGallery)
      && s.oldTracker == OrStandard(StoredFlag(m, "oldTracker"), o.standard.oldTracker)
      && s.oldNotifications == OrStandard(StoredFlag(m, "oldNotifications"), o.standard.oldNotifications)
      && s.reactionNotification == OrStandard(StoredFlag(m, "reactionNotification"), o.standard.reactionNotification)
  {
    FlagByKey(m, Photos, o.standard.photos);
    FlagByKey(m, HideAdsense, o.standard.hideAdsense);
    FlagByKey(m, MainGallery, o.standard.mainGallery);
    FlagByKey(m, OldTracker, o.standard.oldTracker);
    FlagByKey(m, OldNotifications, o.standard.oldNotifications);
    FlagByKey(m, ReactionNotification, o.standard.reactionNotification);
  }

  method FromHstoreText(o: Offer, text: Option<string>) returns (settings: Settings)
    ensures settings == FromText(o, text)
    ensures Valid(o, o.standard) ==> Valid(o, settings)
    ensures GoodOffer(o) ==> forall s: Settings, entries: seq<Entry> ::
              (Valid(o, s) && Orders(entries, s) && text == Some(HstoreText(entries)) ==> settings == s)
  {
    var m: map<string, string> := map[];
    if text.Some? {
      m := ParseHstoreText(text.value);
    }
    settings := ReadFields(o, m);
    ReadFacts(o, text, settings);
  }

  /** The standard settings, replaced field by field by what is stored. */
  method ReadFields(o: Offer, m: map<string, string>) returns (settings: Settings)
    ensures settings == FromMap(o, m)
  {
    settings := ReadFirstFields(o, m);
    settings := settings.(mainGallery := Flag(m, MainGallery, settings.mainGallery));
    settings := settings.(avatar := Choice(m, Avatar, o.avatars, settings.avatar));
    settings := settings.(trackerMode := Choice(m, TrackerMode, o.trackerModes, settings.trackerMode));
    settings := settings.(oldTracker := Flag(m, OldTracker, settings.oldTracker));
    settings := settings.(oldNotifications := Flag(m, OldNotifications, settings.oldNotifications));
    settings := settings.(reactionNotification := Flag(m, ReactionNotification, settings.reactionNotification));
  }

  method ReadFirstFields(o: Offer, m: map<string, string>) returns (settings: Settings)
    ensures
      var s := FromMap(o, m);
      settings == o.standard.(style := s.style, formatMode := s.formatMode, topics := s.topics,
                              messages := s.messages, photos := s.photos, hideAdsense := s.hideAdsense)
  {
    settings := o.standard;
    settings := settings.(style := Choice(m, Style, o.themes, settings.style));
    settings := settings.(formatMode := Choice(m, FormatMode, o.formatModes, settings.formatMode));
    settings := settings.(topics := Number(m, Topics, settings.topics));
    settings := settings.(messages := Number(m, Messages, settings.messages));
    settings := settings.(photos := Flag(m, Photos, settings.photos));
    settings := settings.(hideAdsense := Flag(m, HideAdsense, settings.hideAdsense));
  }

  /** Offered choices, and 32-bit numbers of any value. */
  predicate Valid(o: Offer, s: Settings) {
    && s.style in o.themes && s.formatMode in o.formatModes && s.avatar in o.avatars && s.trackerMode in o.trackerModes
    && IsI32(s.topics) && IsI32(s.messages)
  }

  lemma ParsedIsI32(s: string)
    ensures ParseI32(s).Some? ==> IsI32(ParseI32(s).value)
  {
  }

  /** Whatever is stored, what is read is valid. */
  lemma ReadIsValid(o: Offer, text: Option<string>)
    requires Valid(o, o.standard)
    ensures Valid(o, FromText(o, text))
  {
    var m := if text.Some? then HstoreMap(text.value) else map[];
    if Name(Topics) in m {
      ParsedIsI32(m[Name(Topics)]);
    }
    if Name(Messages) in m {
      ParsedIsI32(m[Name(Messages)]);
    }
  }

  // ---------------------------------------------------------------- writing

  datatype Entry = Entry(key: string, value: string)

  function Boolean(b: bool): string { if b then "true" else "false" }

  /** A setting as it is stored. */
  function Stored(s: Settings, k: Key): string {
    match k
    case Style => s.style
    case FormatMode => s.formatMode
    case Topics => Signed(s.topics)
    case Messages => Signed(s.messages)
    case Photos => Boolean(s.photos)
    case HideAdsense => Boolean(s.hideAdsense)
    case MainGallery => Boolean(s.mainGallery)
    case Avatar => s.avatar
    case TrackerMode => s.trackerMode
    case OldTracker => Boolean(s.oldTracker)
    case OldNotifications => Boolean(s.oldNotifications)
    case ReactionNotification => Boolean(s.reactionNotification)
  }

  const KEYS: seq<Key> :=
    [Style, FormatMode, Topics, Messages, Photos, HideAdsense, MainGallery,
     Avatar, TrackerMode, OldTracker, OldNotifications, ReactionNotification]

  function EntriesOf(s: Settings, keys: seq<Key>): (entries: seq<Entry>)
    ensures |entries| == |keys|
    ensures forall i :: 0 <= i < |keys| ==> entries[i] == Entry(Name(keys[i]), Stored(s, keys[i]))
  {
    if keys == [] then [] else [Entry(Name(keys[0]), Stored(s, keys[0]))] + EntriesOf(s, keys[1..])
  }

  /** The two parallel arrays, paired. */
  function ToHstore(s: Settings): seq<Entry> { EntriesOf(s, KEYS) }

  /** The twelve entries, in the order in which they are stored. */
  lemma StoredEntries(s: Settings)
    ensures |ToHstore(s)| == 12
    ensures ToHstore(s)[0] == Entry("style", s.style) && ToHstore(s)[1] == Entry("format.mode", s.formatMode)
    ensures ToHstore(s)[2] == Entry("topics", Signed(s.topics)) && ToHstore(s)[3] == Entry("messages", Signed(s.messages))
    ensures ToHstore(s)[4] == Entry("photos", if s.photos then "true" else "false")
    ensures ToHstore(s)[5] == Entry("hideAdsense", if s.hideAdsense then "true" else "false")
    ensures ToHstore(s)[6] == Entry("mainGallery", if s.mainGallery then "true" else "false")
    ensures ToHstore(s)[7] == Entry("avatar", s.avatar) && ToHstore(s)[8] == Entry("trackerMode", s.trackerMode)
    ensures ToHstore(s)[9] == Entry("oldTracker", if s.oldTracker then "true" else "false")
    ensures ToHstore(s)[10] == Entry("oldNotifications", if s.oldNotifications then "true" else "false")
    ensures ToHstore(s)[11] == Entry("reactionNotification", if s.reactionNotification then "true" else "false")
  {
  }

  /** An entry as the database prints it; none of the stored values needs escaping. */
  function Printed(e: Entry): string { "\"" + e.key + "\"" + ARROW + "\"" + e.value + "\"" }

  /** Printed entries, the second and later ones after a comma and a space. */
  function PrintedParts(entries: seq<Entry>, first: bool): seq<string> {
    if entries == [] then []
    else [(if first then "" else " ") + Printed(entries[0])] + PrintedParts(entries[1..], false)
  }

  function HstoreText(entries: seq<Entry>): string { Join(PrintedParts(entries, true), ',') }

  // ---------------------------------------------------------------- one entry

  /** No character with a meaning of its own in hstore text. */
  predicate Plain(s: string) { ',' !in s && '"' !in s && '\\' !in s && '=' !in s }

  lemma {:induction false} UnescapePlain(s: string)
    requires '\\' !in s
    ensures Unescape(s) == s
    decreases |s|
  {
    if s != "" {
      UnescapePlain(s[1..]);
    }
  }

  lemma TrimQuotesPlain(s: string)
    requires '"' !in s
    ensures TrimQuotesEnd(TrimQuotesStart("\"" + s + "\"")) == s
  {
    var t := "\"" + s + "\"";
    var rest := s + "\"";
    assert t[1..] == rest && t[0] == '"';
    assert TrimQuotesStart(t) == TrimQuotesStart(rest);
    if s == "" {
      assert rest[1..] == "" && TrimQuotesStart(rest) == "";
    } else {
      assert rest[0] == s[0] && TrimQuotesStart(rest) == rest;
      assert rest[..|rest| - 1] == s && TrimQuotesEnd(rest) == TrimQuotesEnd(s);
    }
  }

  lemma CleanQuoted(s: string, space: string)
    requires Plain(s) && (space == "" || space == " ")
    ensures CleanToken(space + "\"" + s + "\"") == s
  {
    var quoted := "\"" + s + "\"";
    TrimQuoted(quoted, space);
    assert space + "\"" + s + "\"" == space + quoted;
    TrimQuotesPlain(s);
    UnescapePlain(s);
  }

  lemma TrimQuoted(quoted: string, space: string)
    requires |quoted| >= 2 && quoted[0] == '"' && quoted[|quoted| - 1] == '"' && (space == "" || space == " ")
    ensures Trim(space + quoted) == quoted
  {
    if space == "" {
      assert space + quoted == quoted;
    } else {
      assert (space + quoted)[1..] == quoted && (space + quoted)[0] == ' ';
    }
    assert TrimStart(space + quoted) == TrimStart(quoted) == quoted;
  }

  /** A printed entry's first arrow is the one after its key, and the key and value come back clean. */
  lemma PartAdds(entries: map<string, string>, e: Entry, space: string)
    requires Plain(e.key) && Plain(e.value) && e.key != "" && (space == "" || space == " ")
    ensures AddPart(entries, space + Printed(e)) == entries[e.key := e.value]
    ensures ',' !in space + Printed(e)
  {
    var left, right := space + "\"" + e.key + "\"", "\"" + e.value + "\"";
    assert space + Printed(e) == left + ARROW + right;
    CleanQuoted(e.key, space);
    CleanQuoted(e.value, "");
    assert "" + "\"" + e.value + "\"" == right;
    SidesAdd(entries, left, right);
  }

  lemma SidesAdd(entries: map<string, string>, left: string, right: string)
    requires '=' !in left && CleanToken(left) != ""
    ensures AddPart(entries, left + ARROW + right) == entries[CleanToken(left) := CleanToken(right)]
  {
    var part := left + ARROW + right;
    ArrowFound(left, right);
    assert part[..|left|] == left && part[|left| + 2..] == right;
  }

  lemma ArrowFound(left: string, right: string)
    requires '=' !in left
    ensures Find(left + ARROW + right, ARROW) == Some(|left|)
  {
    var s := left + ARROW + right;
    assert s[|left|..|left| + 2] == ARROW;
    forall j | 0 <= j < |left| ensures !At(s, ARROW, j) {
      assert s[j] == left[j];
      NotAt(s, ARROW, j, 0);
    }
    FirstOccurrence(s, ARROW, |left|);
  }

  // ---------------------------------------------------------------- all entries

  predicate PlainEntries(entries: seq<Entry>) {
    forall i :: 0 <= i < |entries| ==> Plain(entries[i].key) && Plain(entries[i].value) && entries[i].key != ""
  }

  function MapOf(entries: seq<Entry>): map<string, string> {
    if entries == [] then map[] else MapOf(entries[..|entries| - 1])[entries[|entries| - 1].key := entries[|entries| - 1].value]
  }

  lemma {:induction false} PartsPush(entries: seq<Entry>, e: Entry, first: bool)
    ensures PrintedParts(entries + [e], first)
            == PrintedParts(entries, first) + [(if first && entries == [] then "" else " ") + Printed(e)]
    decreases |entries|
  {
    if entries == [] {
      assert entries + [e] == [e] && [e][1..] == [];
    } else {
      PartsPush(entries[1..], e, false);
      assert (entries + [e])[1..] == entries[1..] + [e];
    }
  }

  lemma {:induction false} PartsMap(entries: seq<Entry>)
    requires PlainEntries(entries)
    ensures AddParts(PrintedParts(entries, true)) == MapOf(entries)
    ensures forall i :: 0 <= i < |PrintedParts(entries, true)| ==> ',' !in PrintedParts(entries, true)[i]
    ensures entries != [] ==> PrintedParts(entries, true) != []
    decreases |entries|
  {
    if entries != [] {
      var before, last := entries[..|entries| - 1], entries[|entries| - 1];
      PartsMap(before);
      PartsPush(before, last, true);
      assert entries == before + [last];
      PartAdds(MapOf(before), last, if before == [] then "" else " ");
      var parts := PrintedParts(entries, true);
      assert parts[..|parts| - 1] == PrintedParts(before, true);
    }
  }

  /** Printed hstore text reads back as its entries. */
  lemma TextMap(entries: seq<Entry>)
    requires PlainEntries(entries) && entries != []
    ensures HstoreMap(HstoreText(entries)) == MapOf(entries)
  {
    PartsMap(entries);
    SplitJoin(PrintedParts(entries, true), ',');
  }

  /** When all entries for a key agree, the map has their value. */
  lemma {:induction false} MapOfAgrees(entries: seq<Entry>, key: string, value: string)
    requires forall i :: 0 <= i < |entries| && entries[i].key == key ==> entries[i].value == value
    ensures key in MapOf(entries) ==> MapOf(entries)[key] == value
    ensures Entry(key, value) in entries ==> key in MapOf(entries)
    decreases |entries|
  {
    if entries != [] {
      MapOfAgrees(entries[..|entries| - 1], key, value);
      assert entries == entries[..|entries| - 1] + [entries[|entries| - 1]];
    }
  }

  // ---------------------------------------------------------------- round trip

  lemma StyleAndFormatModeArePlain()
    ensures Plain(Name(Style)) && Plain(Name(FormatMode)) && Name(Style) != "" && Name(FormatMode) != ""
  {
  }

  lemma TopicsAndMessagesArePlain()
    ensures Plain(Name(Topics)) && Plain(Name(Messages)) && Name(Topics) != "" && Name(Messages) != ""
  {
  }

  lemma PhotosAndHideAdsenseArePlain()
    ensures Plain(Name(Photos)) && Plain(Name(HideAdsense)) && Name(Photos) != "" && Name(HideAdsense) != ""
  {
  }

  lemma MainGalleryAndAvatarArePlain()
    ensures Plain(Name(MainGallery)) && Plain(Name(Avatar)) && Name(MainGallery) != "" && Name(Avatar) != ""
  {
  }

  lemma TrackerModeAndOldTrackerArePlain()
    ensures Plain(Name(TrackerMode)) && Plain(Name(OldTracker)) && Name(TrackerMode) != "" && Name(OldTracker) != ""
  {
  }

  lemma OldNotificationsIsPlain()
    ensures Plain(Name(OldNotifications)) && Name(OldNotifications) != ""
  {
  }

  lemma ReactionNotificationIsPlain()
    ensures Plain(Name(ReactionNotification)) && Name(ReactionNotification) != ""
  {
  }

  lemma NamesArePlain(k: Key)
    ensures Plain(Name(k)) && Name(k) != ""
  {
    match k {
      case Style => StyleAndFormatModeArePlain();
      case FormatMode => StyleAndFormatModeArePlain();
      case Topics => TopicsAndMessagesArePlain();
      case Messages => TopicsAndMessagesArePlain();
      case Photos => PhotosAndHideAdsenseArePlain();
      case HideAdsense => PhotosAndHideAdsenseArePlain();
      case MainGallery => MainGalleryAndAvatarArePlain();
      case Avatar => MainGalleryAndAvatarArePlain();
      case TrackerMode => TrackerModeAndOldTrackerArePlain();
      case OldTracker => TrackerModeAndOldTrackerArePlain();
      case OldNotifications => OldNotificationsIsPlain();
      case ReactionNotification => ReactionNotificationIsPlain();
    }
  }

  lemma NumeralIsPlain(n: int)
    ensures Plain(Signed(n))
  {
    var s := Signed(n);
    forall i | 0 <= i < |s| ensures IsDigit(s[i]) || s[i] == '-' {
    }
  }

  predicate PlainList(values: seq<string>) { forall v :: v in values ==> Plain(v) }

  /** An offer that hstore text can hold: plain values, and valid standard settings. */
  predicate GoodOffer(o: Offer) {
    && PlainList(o.themes) && PlainList(o.formatModes) && PlainList(o.avatars) && PlainList(o.trackerModes)
    && Valid(o, o.standard)
  }

  lemma ThemesArePlain()
    ensures PlainList(THEMES)
  {
  }

  lemma AvatarsArePlain()
    ensures PlainList(AVATARS)
  {
  }

  lemma ModesArePlain()
    ensures PlainList(FORMAT_MODES) && PlainList(TRACKER_MODES)
  {
  }

  /** The site's own offer is one. */
  lemma OfferIsGood()
    ensures GoodOffer(OFFER)
  {
    ThemesArePlain();
    AvatarsArePlain();
    ModesArePlain();
    assert THEMES[2] == DEFAULT.style && FORMAT_MODES[0] == DEFAULT.formatMode;
    assert AVATARS[0] == DEFAULT.avatar && TRACKER_MODES[1] == DEFAULT.trackerMode;
  }

  lemma StoredIsPlain(o: Offer, s: Settings, k: Key)
    requires GoodOffer(o) && Valid(o, s)
    ensures Plain(Stored(s, k))
  {
    NumeralIsPlain(s.topics);
    NumeralIsPlain(s.messages);
    BooleanIsPlain(true);
    BooleanIsPlain(false);
  }

  lemma BooleanIsPlain(b: bool)
    ensures Plain(Boolean(b))
  {
  }

  lemma NamesDiffer(a: Key, b: Key)
    requires Name(a) == Name(b)
    ensures a == b
  {
  }

  /** `entries` are the settings' entries in some order. */
  predicate Orders(entries: seq<Entry>, s: Settings) { multiset(entries) == multiset(ToHstore(s)) }

  lemma OrderedEntry(entries: seq<Entry>, s: Settings, e: Entry)
    requires Orders(entries, s) && e in entries
    ensures exists k :: e == Entry(Name(k), Stored(s, k))
  {
    assert e in multiset(entries) && e in multiset(ToHstore(s));
    var i :| 0 <= i < |ToHstore(s)| && ToHstore(s)[i] == e;
    assert e == Entry(Name(KEYS[i]), Stored(s, KEYS[i]));
  }

  lemma KeyListed(k: Key) returns (i: nat)
    ensures i < |KEYS| && KEYS[i] == k
  {
    i := match k
      case Style => 0
      case FormatMode => 1
      case Topics => 2
      case Messages => 3
      case Photos => 4
      case HideAdsense => 5
      case MainGallery => 6
      case Avatar => 7
      case TrackerMode => 8
      case OldTracker => 9
      case OldNotifications => 10
      case ReactionNotification => 11;
  }

  lemma ReadsStored(entries: seq<Entry>, s: Settings, k: Key)
    requires Orders(entries, s)
    ensures Name(k) in MapOf(entries) && MapOf(entries)[Name(k)] == Stored(s, k)
  {
    forall i | 0 <= i < |entries| && entries[i].key == Name(k) ensures entries[i].value == Stored(s, k) {
      OrderedEntry(entries, s, entries[i]);
      var other :| entries[i] == Entry(Name(other), Stored(s, other));
      NamesDiffer(other, k);
    }
    var n := KeyListed(k);
    assert ToHstore(s)[n] in multiset(ToHstore(s));
    assert Entry(Name(k), Stored(s, k)) in multiset(entries);
    MapOfAgrees(entries, Name(k), Stored(s, k));
  }

  lemma BooleanParses(b: bool)
    ensures ParseBool(Boolean(b)) == b
  {
    assert b ==> Boolean(b) == ["true", "t", "yes", "on", "1"][0];
    if !b {
      var f := "false";
      assert |f| == 5 && |"true"| == 4 && |"t"| == 1 && |"yes"| == 3 && |"on"| == 2 && |"1"| == 1;
    }
  }

  /** Valid settings survive storing, printing with the keys in any order, and reading. */
  lemma StoredRoundTrip(o: Offer, s: Settings, entries: seq<Entry>)
    requires GoodOffer(o) && Valid(o, s) && Orders(entries, s)
    ensures FromText(o, Some(HstoreText(entries))) == s
  {
    forall i | 0 <= i < |entries|
      ensures Plain(entries[i].key) && Plain(entries[i].value) && entries[i].key != "" {
      OrderedEntry(entries, s, entries[i]);
      var k :| entries[i] == Entry(Name(k), Stored(s, k));
      NamesArePlain(k);
      StoredIsPlain(o, s, k);
    }
    assert entries != [] by {
      ReadsStored(entries, s, Style);
    }
    TextMap(entries);
    var m := MapOf(entries);
    forall k: Key ensures Name(k) in m && m[Name(k)] == Stored(s, k) {
      ReadsStored(entries, s, k);
    }
    FromStored(o, m, s);
  }

  /** What reading guarantees: valid settings, and those that were stored. */
  lemma ReadFacts(o: Offer, text: Option<string>, settings: Settings)
    requires settings == FromText(o, text)
    ensures Valid(o, o.standard) ==> Valid(o, settings)
    ensures GoodOffer(o) ==> forall s: Settings, entries: seq<Entry> ::
              (Valid(o, s) && Orders(entries, s) && text == Some(HstoreText(entries)) ==> settings == s)
  {
    if Valid(o, o.standard) {
      ReadIsValid(o, text);
    }
    if GoodOffer(o) {
      forall s: Settings, entries: seq<Entry> | Valid(o, s) && Orders(entries, s) && text == Some(HstoreText(entries))
        ensures settings == s {
        StoredRoundTrip(o, s, entries);
      }
    }
  }

  lemma ChoiceReads(m: map<string, string>, k: Key, offered: seq<string>, otherwise: string, v: string)
    requires Name(k) in m && m[Name(k)] == v && v in offered
    ensures Choice(m, k, offered, otherwise) == v
  {
  }

  lemma NumberReads(m: map<string, string>, k: Key, otherwise: int, n: int)
    requires Name(k) in m && m[Name(k)] == Signed(n) && IsI32(n)
    ensures Number(m, k, otherwise) == n
  {
    ParseSignedSigned(n, I32_MIN, I32_MAX);
  }

  lemma FlagReads(m: map<string, string>, k: Key, otherwise: bool, b: bool)
    requires Name(k) in m && m[Name(k)] == Boolean(b)
    ensures Flag(m, k, otherwise) == b
  {
    BooleanParses(b);
  }

  /** The map has every setting as stored. */
  ghost predicate Holds(m: map<string, string>, s: Settings) {
    forall k: Key :: Name(k) in m && m[Name(k)] == Stored(s, k)
  }

  lemma ChoicesRead(o: Offer, m: map<string, string>, s: Settings)
    requires Valid(o, s) && Holds(m, s)
    ensures FromMap(o, m).style == s.style && FromMap(o, m).formatMode == s.formatMode
    ensures FromMap(o, m).avatar == s.avatar && FromMap(o, m).trackerMode == s.trackerMode
  {
    ChoiceReads(m, Style, o.themes, o.standard.style, s.style);
    ChoiceReads(m, FormatMode, o.formatModes, o.standard.formatMode, s.formatMode);
    ChoiceReads(m, Avatar, o.avatars, o.standard.avatar, s.avatar);
    ChoiceReads(m, TrackerMode, o.trackerModes, o.standard.trackerMode, s.trackerMode);
  }

  lemma NumbersRead(o: Offer, m: map<string, string>, s: Settings)
    requires Valid(o, s) && Holds(m, s)
    ensures FromMap(o, m).topics == s.topics && FromMap(o, m).messages == s.messages
  {
    NumberReads(m, Topics, o.standard.topics, s.topics);
    NumberReads(m, Messages, o.standard.messages, s.messages);
  }

  lemma PageFlagsRead(o: Offer, m: map<string, string>, s: Settings)
    requires Holds(m, s)
    ensures FromMap(o, m).photos == s.photos && FromMap(o, m).hideAdsense == s.hideAdsense
    ensures FromMap(o, m).mainGallery == s.mainGallery
  {
    FlagReads(m, Photos, o.standard.photos, s.photos);
    FlagReads(m, HideAdsense, o.standard.hideAdsense, s.hideAdsense);
    FlagReads(m, MainGallery, o.standard.mainGallery, s.mainGallery);
  }

  lemma NoticeFlagsRead(o: Offer, m: map<string, string>, s: Settings)
    requires Holds(m, s)
    ensures FromMap(o, m).oldTracker == s.oldTracker && FromMap(o, m).oldNotifications == s.oldNotifications
    ensures FromMap(o, m).reactionNotification == s.reactionNotification
  {
    FlagReads(m, OldTracker, o.standard.oldTracker, s.oldTracker);
    FlagReads(m, OldNotifications, o.standard.oldNotifications, s.oldNotifications);
    FlagReads(m, ReactionNotification, o.standard.reactionNotification, s.reactionNotification);
  }

  lemma FromStored(o: Offer, m: map<string, string>, s: Settings)
    requires Valid(o, s) && Holds(m, s)
    ensures FromMap(o, m) == s
  {
    ChoicesRead(o, m, s);
    NumbersRead(o, m, s);
    PageFlagsRead(o, m, s);
    NoticeFlagsRead(o, m, s);
  }

  // ---------------------------------------------------------------- forms

  datatype Rejection = BadTopics | BadMessages | BadStyle | BadFormatMode | BadAvatar

  function Field(form: map<string, string>, name: string): Option<string> {
    if name in form then Some(form[name]) else None
  }

  function NumberField(form: map<string, string>, name: string): Option<int> {
    if name in form then ParseI32(form[name]) else None
  }

  /** An offered number, or the one already saved. */
  predicate AcceptsNumber(n: Option<int>, offered: seq<int>, saved: int) {
    n.Some? && (n.value in offered || n.value == saved)
  }

  predicate AcceptsChoice(v: Option<string>, offered: seq<string>) { v.Some? && v.value in offered }

  method ApplyForm(o: Offer, self: Settings, form: map<string, string>) returns (result: Result<Settings, Rejection>)
    ensures result.Ok? <==> Acceptable(o, self, form)
    ensures result.Ok? ==> result.value == Submitted(o, form)
    ensures result.Err? ==> result.error == FirstFault(o, self, form)
    ensures result.Ok? ==> Asked(o, form, result.value)
  {
    if Acceptable(o, self, form) {
      SubmittedIsAsked(o, self, form);
    }
    var settings := self;
    var topics := CheckNumber(form, "topics", o.topics, self.topics);
    if topics.None? {
      return Err(BadTopics);
    }
    settings := settings.(topics := topics.value);
    var messages := CheckNumber(form, "messages", o.messages, self.messages);
    if messages.None? {
      return Err(BadMessages);
    }
    settings := settings.(messages := messages.value);
    result := ApplyChoices(o, settings, form);
  }

  /** The number of a field if it parses and is offered or already saved. */
  method CheckNumber(form: map<string, string>, name: string, offered: seq<int>, saved: int) returns (n: Option<int>)
    ensures n.Some? <==> AcceptsNumber(NumberField(form, name), offered, saved)
    ensures n.Some? ==> n == NumberField(form, name)
  {
    n := NumberField(form, name);
    if n.Some? && n.value !in offered && n.value != saved {
      n := None;
    }
  }

  /** The second half: the choices and the flags. */
  method ApplyChoices(o: Offer, start: Settings, form: map<string, string>) returns (result: Result<Settings, Rejection>)
    ensures result.Ok? <==> AcceptsChoice(Field(form, "style"), o.themes)
                            && AcceptsChoice(Field(form, "format_mode"), o.formatModes)
                            && AcceptsChoice(Field(form, "avatar"), o.avatars)
    ensures result.Ok? ==> result.value == WithChoices(o, start, form)
    ensures result.Err? ==> result.error == ChoiceFault(o, form)
  {
    var settings := start;
    var style := Field(form, "style");
    if style.None? || style.value !in o.themes {
      return Err(BadStyle);
    }
    settings := settings.(style := style.value);
    var formatMode := Field(form, "format_mode");
    if formatMode.None? || formatMode.value !in o.formatModes {
      return Err(BadFormatMode);
    }
    settings := settings.(formatMode := formatMode.value);
    var avatar := Field(form, "avatar");
    if avatar.None? || avatar.value !in o.avatars {
      return Err(BadAvatar);
    }
    settings := settings.(avatar := avatar.value);
    settings := settings.(photos := "photos" in form, hideAdsense := "hideAdsense" in form, mainGallery := "mainGallery" in form);
    settings := settings.(oldTracker := "oldTracker" in form, oldNotifications := "oldNotifications" in form,
                          reactionNotification := "reactionNotification" in form);
    settings := settings.(trackerMode := TrackerOf(o, form));
    result := Ok(settings);
  }

  /** An unknown tracker mode silently becomes the default. */
  function TrackerOf(o: Offer, form: map<string, string>): string { Choice(form, TrackerMode, o.trackerModes, o.standard.trackerMode) }

  /** Choices and flags from the form, numbers from `start`. */
  function WithChoices(o: Offer, start: Settings, form: map<string, string>): Settings
    requires "style" in form && "format_mode" in form && "avatar" in form
  {
    Settings(
      form["style"], form["format_mode"], start.topics, start.messages,
      "photos" in form, "hideAdsense" in form, "mainGallery" in form, form["avatar"], TrackerOf(o, form),
      "oldTracker" in form, "oldNotifications" in form, "reactionNotification" in form)
  }

  function ChoiceFault(o: Offer, form: map<string, string>): Rejection {
    if !AcceptsChoice(Field(form, "style"), o.themes) then BadStyle
    else if !AcceptsChoice(Field(form, "format_mode"), o.formatModes) then BadFormatMode
    else BadAvatar
  }

  /** What the form must hold; only the two numbers look at the saved settings. */
  predicate Acceptable(o: Offer, self: Settings, form: map<string, string>) {
    && AcceptsNumber(NumberField(form, "topics"), o.topics, self.topics)
    && AcceptsNumber(NumberField(form, "messages"), o.messages, self.messages)
    && AcceptsChoice(Field(form, "style"), o.themes)
    && AcceptsChoice(Field(form, "format_mode"), o.formatModes)
    && AcceptsChoice(Field(form, "avatar"), o.avatars)
  }

  /** The settings a complete form stands for; nothing of the saved settings is left. */
  function Submitted(o: Offer, form: map<string, string>): Settings
    requires NumberField(form, "topics").Some? && NumberField(form, "messages").Some?
    requires "style" in form && "format_mode" in form && "avatar" in form
  {
    WithChoices(o, o.standard.(topics := NumberField(form, "topics").value, messages := NumberField(form, "messages").value), form)
  }

  /** Field by field, what a form asks for: two numbers, three choices, six check boxes, and the tracker mode. */
  predicate Asked(o: Offer, form: map<string, string>, s: Settings) {
    && "topics" in form && ParseI32(form["topics"]) == Some(s.topics)
    && "messages" in form && ParseI32(form["messages"]) == Some(s.messages)
    && "style" in form && s.style == form["style"]
    && "format_mode" in form && s.formatMode == form["format_mode"]
    && "avatar" in form && s.avatar == form["avatar"]
    && (s.photos <==> "photos" in form)
    && (s.hideAdsense <==> "hideAdsense" in form)
    && (s.mainGallery <==> "mainGallery" in form)
    && (s.oldTracker <==> "oldTracker" in form)
    && (s.oldNotifications <==> "oldNotifications" in form)
    && (s.reactionNotification <==> "reactionNotification" in form)
    && ("trackerMode" in form && form["trackerMode"] in o.trackerModes ==> s.trackerMode == form["trackerMode"])
    && (!("trackerMode" in form && form["trackerMode"] in o.trackerModes) ==> s.trackerMode == o.standard.trackerMode)
  }

  lemma SubmittedIsAsked(o: Offer, self: Settings, form: map<string, string>)
    requires Acceptable(o, self, form)
    ensures Asked(o, form, Submitted(o, form))
  {
  }

  /** A form determines what it asks for, so `Asked` pins every field down. */
  lemma AskedOnce(o: Offer, form: map<string, string>, s: Settings, t: Settings)
    requires Asked(o, form, s) && Asked(o, form, t)
    ensures s == t
  {
  }

  /** Each refusal names a field at fault, and those checked before it are in order. */
  lemma RefusalMeans(o: Offer, self: Settings, form: map<string, string>)
    requires !Acceptable(o, self, form)
    ensures
      var badTopics := "topics" !in form || ParseI32(form["topics"]).None?
                       || (ParseI32(form["topics"]).value !in o.topics && ParseI32(form["topics"]).value != self.topics);
      var badMessages := "messages" !in form || ParseI32(form["messages"]).None?
                         || (ParseI32(form["messages"]).value !in o.messages && ParseI32(form["messages"]).value != self.messages);
      var badStyle := "style" !in form || form["style"] !in o.themes;
      var badFormat := "format_mode" !in form || form["format_mode"] !in o.formatModes;
      var badAvatar := "avatar" !in form || form["avatar"] !in o.avatars;
      match FirstFault(o, self, form)
      case BadTopics => badTopics
      case BadMessages => !badTopics && badMessages
      case BadStyle => !badTopics && !badMessages && badStyle
      case BadFormatMode => !badTopics && !badMessages && !badStyle && badFormat
      case BadAvatar => !badTopics && !badMessages && !badStyle && !badFormat && badAvatar
  {
  }

  /** The fault reported for a form that is not acceptable: the first in this order. */
  function FirstFault(o: Offer, self: Settings, form: map<string, string>): Rejection {
    if !AcceptsNumber(NumberField(form, "topics"), o.topics, self.topics) then BadTopics
    else if !AcceptsNumber(NumberField(form, "messages"), o.messages, self.messages) then BadMessages
    else ChoiceFault(o, form)
  }

  // ---------------------------------------------------------------- runs of forms

  /** An accepted form, and the order in which the database then prints the stored entries. */
  datatype Save = Save(form: map<string, string>, order: seq<Entry>)

  /** One accepted form, stored and read back. */
  predicate CanSave(o: Offer, s: Settings, save: Save) {
    Acceptable(o, s, save.form) && Orders(save.order, Submitted(o, save.form))
  }

  function AfterSave(o: Offer, save: Save): Settings { FromText(o, Some(HstoreText(save.order))) }

  /** The settings after each of the saves in turn. */
  predicate CanSaveAll(o: Offer, s: Settings, saves: seq<Save>)
    decreases |saves|
  {
    saves == [] || (CanSave(o, s, saves[0]) && CanSaveAll(o, AfterSave(o, saves[0]), saves[1..]))
  }

  function AfterAll(o: Offer, s: Settings, saves: seq<Save>): Settings
    decreases |saves|
  {
    if saves == [] then s else AfterAll(o, AfterSave(o, saves[0]), saves[1..])
  }

  lemma SaveIsExact(o: Offer, s: Settings, save: Save)
    requires GoodOffer(o) && CanSave(o, s, save)
    ensures AfterSave(o, save) == Submitted(o, save.form) && Valid(o, AfterSave(o, save))
    ensures AfterSave(o, save).topics in o.topics || AfterSave(o, save).topics == s.topics
    ensures AfterSave(o, save).messages in o.messages || AfterSave(o, save).messages == s.messages
  {
    var u := Submitted(o, save.form);
    ParsedIsI32(save.form["topics"]);
    ParsedIsI32(save.form["messages"]);
    StoredRoundTrip(o, u, save.order);
  }

  /** Along every run of saved forms the settings stay valid, and the numbers are offered ones or the original ones. */
  lemma {:induction false} RunsStayValid(o: Offer, s: Settings, saves: seq<Save>)
    requires GoodOffer(o) && Valid(o, s) && CanSaveAll(o, s, saves)
    ensures Valid(o, AfterAll(o, s, saves))
    ensures AfterAll(o, s, saves).topics in o.topics || AfterAll(o, s, saves).topics == s.topics
    ensures AfterAll(o, s, saves).messages in o.messages || AfterAll(o, s, saves).messages == s.messages
    decreases |saves|
  {
    if saves != [] {
      SaveIsExact(o, s, saves[0]);
      RunsStayValid(o, AfterSave(o, saves[0]), saves[1..]);
    }
  }

  /** A legacy number, once replaced, can never be chosen again: no later run of forms brings it back. */
  lemma LegacyIsNeverRegained(o: Offer, s: Settings, first: seq<Save>, later: seq<Save>)
    requires GoodOffer(o) && Valid(o, s) && CanSaveAll(o, s, first) && CanSaveAll(o, AfterAll(o, s, first), later)
    ensures s.topics !in o.topics && AfterAll(o, s, first).topics != s.topics
            ==> AfterAll(o, AfterAll(o, s, first), later).topics != s.topics
    ensures s.messages !in o.messages && AfterAll(o, s, first).messages != s.messages
            ==> AfterAll(o, AfterAll(o, s, first), later).messages != s.messages
  {
    RunsStayValid(o, s, first);
    RunsStayValid(o, AfterAll(o, s, first), later);
  }
}
