# A verified model of the search spool, the text machines and the codecs

This project models the parts of the forum engine whose correctness does not
depend on a running database, browser or search server, and proves what they
are for. It is written for Dafny 4.11; `dafny verify dfyconfig.toml` checks all
of it. Each module follows one component:

- `SearchSpool`, `SpoolDrain`: the durable queue of search jobs. The first is a
  step system with any number of workers, crashes and reclaims at any moment;
  the second is one worker's drain pass as a class over the three directories,
  proved to be a run of the first.
- `SearchIndex`, `ReindexMonths`: the jobs that make the index agree with the
  database, with requests that may be lost or have their answers lost, and the
  enumeration and interval arithmetic of the full rebuild.
- `QueueConvergence`: queue and index joined: what an emptied queue says about
  the documents, whatever workers repeat, crash or send late.
- `MentionMarkers`, `MarkdownCut`, `LorcodeMentions`: mention markers, topic cuts
  and LORCODE mentions.
- `TitleAudit`, `TitlePieces`, `DeploymentWindows`: the title representation audit,
  with a grammar of titles against which the classifier is proved.
- `Bytes`, `Base64`, `RememberMe`, `HttpFirewall`: the remember-me cookie and the
  path firewall.
- `SqlTokens`, `SqlPieces`, `CodeMask`, `RouteMask`, `RustPieces`, `TestItems`,
  `TestAttributes`: the source lexers of the tools; `SqlPieces` and `RustPieces`
  are grammars of SQL and Rust text against which the tokenizer and the lexer of
  `RouteMask` are proved.
- `FormMerge`, `ProfileSettings`, `AdvCounter`: servlet parameters, profile
  settings and the batch counter.

`Options`, `Text` and `Lists` hold shared helpers. Methods mirror the loops and
updates of the source and are proved equal to specification functions; the
lemmas say what those functions mean.

## Where the code and its documentation disagree

- The comment above `vDrainQueue` says that concurrent replicas cannot process
  the same ready file. Reclaiming measures a file's modification time, which the
  claiming rename does not refresh, so an old file can be taken back right after
  it was claimed. `ExclusiveStepIff` and `FreshClaimCanBeTakenBack` say exactly
  when the promise holds; what always holds is at-least-once processing with
  nothing lost (`NoJobIsLostOrDuplicated`). The same race can quarantine a good
  job (`ReclaimCanQuarantineAGoodJob`); it cannot exactly while no read fails for
  a job that parses (`GarbageStepIff`, `ReadableJobsAreNotQuarantinedIff`).
- A topic-only job for a topic that became unsearchable leaves its comments'
  documents in the index, and the job of a topic that is gone leaves the topic's
  document; `TopicOnlyJobLeavesComments` and `MissingTopicJobIsANoOp` give the
  exact conditions.
- The January 1970 sentinel of the full reindex covers epoch-dated messages only
  where that month starts at or before the epoch (`SentinelReachesEpochIff`; not in
  the zone of `SentinelMissesEpochInTheWest`), and repeats a month when the span already contains it (`SentinelRepeatsIff`).
- `_top_level_segments` tests a token's text and not its kind, so a string literal
  that spells "," separates as well (`StringCommaSplits`; exactly when:
  `SegmentsAreCommaSplitIff`).
- `_without_non_code` does not know character literals, so an attribute inside a
  string can be found in a text without any code (`AttributeFoundInString`,
  `QuoteLiteralMisleads`). Its mask agrees with the item scanner's lexer exactly
  when no character literal contains a string quote or a comment opener
  (`LexersAgreeIff`); then attributes are found in code and only there
  (`AttributeIsCode`, `WrittenIsFound`).
- `sJavaUrlEncode` is described as byte-for-byte compatible with
  java.net.URLEncoder; it escapes `*` and leaves `~` alone, where the Java class
  does the opposite (`TildeAndStarDiffer`). The two agree exactly on values
  without these characters (`UrlEncoderIff`); the round trip is unaffected.

## Model

| member | source | states |
|---|---|---|
| SearchSpool.NoJobIsLostOrDuplicated | src/search_index.rs:575-695 | over every interleaving of workers, crashes and reclaims, each enqueued file is in exactly one directory or was removed exactly once, unaltered, and each removal follows that worker's own successful indexing of that very job |
| SearchSpool.InvRun | src/search_index.rs:605-673 | every step keeps the accounting of files, their contents, what each worker believes about its job, and the justification of removals |
| SearchSpool.ExclusiveStepIff | src/search_index.rs:605-616 | exclusive claims survive a step if and only if it is not the reclaim of a file some worker holds |
| SearchSpool.FreshClaimCanBeTakenBack | src/search_index.rs:676-695 | right after a claim the file can be reclaimed exactly when it was already older than ten minutes, and then two workers hold it |
| SearchSpool.GarbageStepIff | src/search_index.rs:610-625 | a step lets a job that parses get on the way to the failed directory if and only if it is a failing read of such a job |
| SearchSpool.ReadableJobsAreNotQuarantinedIff | src/search_index.rs:610-625 | after every step of a run only files that do not parse are failed or on the way there, exactly when no read of the run fails for a job that parses |
| SearchSpool.ReadableJobsAreNotQuarantined | src/search_index.rs:610-625 | in particular this holds while no held file is reclaimed and reads do not fail otherwise |
| SearchSpool.ReclaimCanQuarantineAGoodJob | src/search_index.rs:605-631 | the concrete run in which a reclaim between claim and read sends a parsable job to the failed directory |
| SearchSpool.EveryJobCanStillComplete | src/search_index.rs:676-695 | from every reachable state each readable job outside the failed directory still has a run that indexes and removes it, so no crash strands a job |
| SpoolDrain.Spool.ReclaimStaleQueueJobs | src/search_index.rs:676-695 | exactly the claimed files older than ten minutes go back to pending; everything else stays |
| SpoolDrain.Spool.FinishQueueJob | src/search_index.rs:661-674 | a finished job's file is removed, a failed one's is handed back and the pass stops |
| SpoolDrain.Spool.SortedJobs | src/search_index.rs:587-603 | the JSON files of the pending directory, each once, in the order that OrderByKindThenName describes |
| SpoolDrain.Spool.DrainQueue | src/search_index.rs:575-655 | one pass is reclaim, listing, order, and a batch of at most one hundred, as ReclaimExact, OrderByKindThenName and BatchIsPrefix describe them; unconfigured it does nothing |
| SpoolDrain.DrainExact | src/search_index.rs:604-655 | the job that fails stays pending, all earlier ones are removed or quarantined, later ones and all else are untouched |
| SpoolDrain.PassExact | src/search_index.rs:587-655 | the same for a whole pass: it settles the prefix of the first hundred jobs before the first failure and succeeds exactly when there is none |
| SpoolDrain.ReclaimExact | src/search_index.rs:676-695 | of every claimed file exactly those modified more than 600 seconds ago change back to pending, with their contents; no other file moves |
| SpoolDrain.ListingExact | src/search_index.rs:587-595 | the order of work holds exactly the pending names that are a non-empty stem and ".json", each once |
| SpoolDrain.OrderByKindThenName | src/search_index.rs:596-602 | of two names in that order the earlier does not start with "l-" unless the later does; where both or neither do, it is a prefix of the later or smaller at their first difference |
| SpoolDrain.BatchIsPrefix | src/search_index.rs:603-606 | a pass works on the first hundred names of that order, or on all |
| SpoolDrain.MonthsWaitForLiveJobs | src/search_index.rs:596-605 | when a batch holds the name "l-" and something, every pending JSON name that does not start so stands before it in the batch |
| SpoolDrain.SortNamesSorts | src/search_index.rs:593-602 | sorting by priority and name orders the listing and keeps exactly its names |
| SpoolDrain.OrderUnique | src/search_index.rs:593-602 | that order is the only one, so the pass does not depend on the directory's listing order |
| SpoolDrain.SuccessfulPassShrinksBacklog | src/search_index.rs:603-655 | a pass without failures takes exactly the first hundred jobs, or all, off the backlog |
| SpoolDrain.BacklogEmptyIff | src/search_index.rs:603-655 | when all jobs succeed, n jobs are gone after k passes exactly when k is at least n/100 rounded up |
| SpoolDrain.DrainIsRun | src/search_index.rs:607-655 | working through a listing is a run of the concurrent step system with the same directories, and goes through exactly when no job is handed back |
| SpoolDrain.PassIsRun | src/search_index.rs:586-655 | a whole pass is such a run: one reclaim for each stale file, then the work on the first hundred jobs, with the same directories at the end and success exactly when no job is handed back |
| SearchIndex.Index.IndexComment | src/search_index.rs:478-564 | success settles exactly that comment; failure leaves its document old or right, and every other one alone |
| SearchIndex.Index.IndexTopic | src/search_index.rs:418-476 | success settles exactly the topic and, if asked, its comments; failure at any request leaves a part of that scope settled and the rest untouched |
| SearchIndex.Index.IndexComments | src/search_index.rs:631-639 | the comment-list job settles exactly the listed comments that exist; a failure leaves a part of them settled and the rest untouched |
| SearchIndex.Index.ReindexBetween | src/search_index.rs:839-872 | a month rebuild settles every topic of the interval and all their comments, stopping at the first failure |
| SearchIndex.IntervalsJoin | src/search_index.rs:839-850 | adjacent intervals share no topic and together hold those of the whole |
| SearchIndex.TopicJobConverges | src/search_index.rs:418-564 | after a topic-with-comments job the index is the searchable projection on the topic and its comments, unchanged elsewhere, with no comment of an unsearchable topic |
| SearchIndex.TopicJobLeaves | src/search_index.rs:387-476 | a job leaves no document for a topic that is deleted, a draft, hidden by postscore 10002, or written by user 2 and awaiting its commit in a premoderated section; for any other one the document with these fields |
| SearchIndex.CommentJobLeaves | src/search_index.rs:276-312 | nor for a deleted comment or one of such a topic; for any other one the document with the comment's and the topic's fields, titled unless the title is empty, the topic's own or a reply's |
| SearchIndex.OrphanJobLeaves | src/search_index.rs:544-548 | nor for a comment whose topic is gone |
| SearchIndex.SettleTwice | src/search_index.rs:418-564 | settling one set of ids after another is settling their union: order and repetition do not matter |
| SearchIndex.RetriesReachTheSameIndex | src/search_index.rs:418-564 | any number of attempts that failed part-way, then a success, reach the same index as success at once |
| SearchIndex.TopicOnlyJobLeavesComments | src/search_index.rs:418-476 | a topic-only job on an unsearchable topic is right on its comments exactly when none was in the index |
| SearchIndex.MissingTopicJobIsANoOp | src/search_index.rs:418-430 | the job of a topic that is gone changes nothing, which is right exactly when the topic had no document |
| ReindexMonths.AllReindexMonths | src/search_index.rs:765-794 | the month list: each month one before its predecessor, from now to the first topic's month, then the sentinel; terminates for every pair of months |
| ReindexMonths.EnumeratesExactly | src/search_index.rs:765-794 | before the sentinel the list holds exactly the months of the span, strictly descending |
| ReindexMonths.SentinelRepeatsIff | src/search_index.rs:785-793 | a month is listed twice exactly when the span contains January 1970 |
| ReindexMonths.EachInstantHasOneMonth | src/search_index.rs:803-837 | every instant of the span lies within the half-open bounds of exactly one listed month |
| ReindexMonths.MonthsDoNotOverlap | src/search_index.rs:803-837 | the bounds of different months have no instant in common |
| ReindexMonths.SentinelReachesEpochIff | src/search_index.rs:785-793 | the sentinel month contains the epoch exactly where January 1970 starts at or before it |
| ReindexMonths.SentinelMissesEpochInTheWest | src/search_index.rs:785-793 | a regular zone west of UTC in which the sentinel month starts after the epoch and misses it |
| ReindexMonths.ReindexMonth | src/search_index.rs:839-872 | a month job settles the topics between the month's bounds, and fails when the zone has no such bounds |
| ReindexMonths.ReindexedAgrees | src/search_index.rs:839-872 | a document some month of a rebuild is responsible for ends up right whatever the others do |
| ReindexMonths.OrphansSurvive | src/search_index.rs:839-872 | documents of neither topics nor comments in the database survive every rebuild |
| ReindexMonths.FullReindexReconciles | src/search_index.rs:765-872 | a completed full rebuild makes the index right on every topic from the first month to now and on all its comments, whatever it held before |
| QueueConvergence.IndexJob | src/search_index.rs:626-651 | a job of any kind, when it succeeds, puts right exactly the documents it is responsible for; when it fails, some of them and nothing else |
| QueueConvergence.RunKeeps | src/search_index.rs:575-673 | with workers writing documents in any portions and requests applied arbitrarily late, every step keeps right what was written, what was indexed and what no job covers |
| QueueConvergence.RemovedJobsAreRight | src/search_index.rs:575-673 | over one database, in every such run, the index agrees on all documents of every removed job, and documents of no enqueued job are as they were |
| QueueConvergence.DrainedQueueIsRight | src/search_index.rs:575-673 | once the three directories are empty, the index agrees on the documents of all enqueued jobs together and is unchanged elsewhere |
| MentionMarkers.MarkdownMentions | src/markup.rs:71-109 | the extraction loop over text ranges returns the mentions that MentionsExact, MentionStarts and MentionsAreWhole characterise |
| MentionMarkers.MentionsExact | src/markup.rs:71-117 | the mentions are valid, sorted and disjoint, and carry the text after "@" |
| MentionMarkers.MentionStarts | src/markup.rs:71-117 | there is a mention exactly at each "@" that stands with a letter behind it inside one text range, at the start of the text or behind a space, tab, line end or "(" |
| MentionMarkers.MentionsAreWhole | src/markup.rs:17-18 | each is a whole match inside a text range: a letter and up to eighty letters, digits, "_" and "-", ended by the range, by that limit or by a character that is none of these |
| MentionMarkers.ChoosePrefix | src/markup.rs:608-613 | the search for an unused prefix ends, at the first candidate that does not occur in the source |
| MentionMarkers.InsertMarkers | src/markup.rs:614-626 | the prepared text is the source with each mention range replaced by its numbered marker |
| MentionMarkers.PrepareMarkers | src/markup.rs:599-629 | without users or mentions the source stays as it is and there is no prefix; otherwise both steps happen |
| MentionMarkers.ReplacedByItself | src/markup.rs:614-626 | everything outside the mention ranges is kept: replacing each mention by its own text gives the source |
| MentionMarkers.RestoreMarkers | src/markup.rs:631-665 | the restoring loop computes the specified replacement, and leaves the text alone without prefix or users |
| MentionMarkers.RestoreExact | src/markup.rs:631-665 | restoring replaces every separate marker by the rendering of its mention, whichever markers were dropped, repeated or reordered, and keeps unknown numbers verbatim |
| MentionMarkers.BoundarySeparates | src/markup.rs:111-117 | no occurrence of the prefix straddles authored text ending at a boundary and a marker |
| MentionMarkers.MarkersRoundTrip | src/markup.rs:599-665 | inserting and restoring gives the source with each mention range, and nothing else, replaced by that mention's rendering |
| MentionMarkers.RenderMentions | src/markup.rs:514-665 | extraction, insertion and restoration together replace exactly the whole mentions by their renderings, for every source and every list of text ranges |
| MentionMarkers.GluedMentionIsNotSeparate | src/markup.rs:111-117 | without the boundary rule it would fail: a source whose text ends in the prefix's stem lets the prefix start too early |
| MarkdownCut.MarkdownCutPieces | src/markup.rs:460-496 | the splitting loop computes the specified piece list |
| MarkdownCut.NothingLost | src/markup.rs:460-496 | the pieces with their marker lines put back are exactly the source's lines, in order |
| MarkdownCut.PrintThenSplit | src/markup.rs:460-496 | a normal piece list, printed and split again, is itself |
| MarkdownCut.NormalIffSplit | src/markup.rs:460-496 | the normal lists are exactly those some source splits into |
| MarkdownCut.MarkerLineIff | src/markup.rs:464-488 | a marker is a line of three angle brackets with nothing but carriage returns and newlines behind them |
| MarkdownCut.RenderTopicCut | src/markup.rs:352-458 | the fragments are those that TopicIsRendered characterises |
| MarkdownCut.TopicIsRendered | src/markup.rs:352-458 | what is shown is, in order, the lines of the source without the marker lines, and without those of cuts when minimized; with cuts there is one fragment for each segment of lines: text as itself, a cut as a link to the topic or as a block, the first under the anchor "cut", the k-th behind it under "cut-k"; nofollow holds only where asked for and not minimized; without cuts the source is one fragment |
| MarkdownCut.AnchorsAgree | src/markup.rs:380-458 | the link of one cut and the block of another carry the same anchor exactly when they are the same cut |
| MarkdownCut.AnchorInjective | src/markup.rs:380-458 | cut numbers have different anchors |
| LorcodeMentions.Collector.PushJavaLoginOnce | src/markup.rs:217-225 | a valid login name is appended once, anything else changes nothing, and the set stays the set of the list |
| LorcodeMentions.Collector.TakeLorUserText | src/markup.rs:205-215 | an open user text is closed at the given end, trimmed and pushed |
| LorcodeMentions.ExtractLorcodeMentions | src/markup.rs:119-203 | the machine over tags returns the first-seen login names of the specified user texts |
| LorcodeMentions.UserTextOutsideCode | src/markup.rs:119-203 | an open user text never coexists with code mode |
| LorcodeMentions.FirstSeenExact | src/markup.rs:217-235 | the result has exactly the login names among the texts, in order of first appearance and without repeats |
| LorcodeMentions.UserTextsExact | src/markup.rs:119-203 | a text is collected exactly when an unescaped opening user tag outside code has it up to the next tag or the end |
| LorcodeMentions.MentionsExact | src/markup.rs:119-235 | a name is mentioned exactly when it is a login name and the text of such a tag |
| LorcodeMentions.MentionsMean | src/markup.rs:119-235 | on the characters: a name is mentioned exactly when it is a letter and up to 78 letters, digits, "_" and "-", and stands, between white space, behind a tag named "user" in any case that is neither in double brackets nor slashed, with no code or inline tag open, up to the next tag or the end |
| TitleAudit.CanonicalStorageEscape | tools/audit_title_representation.py:196-210 | the loop computes the escape |
| TitleAudit.DecodeEscape | tools/audit_title_representation.py:213-238 | decoding one entity layer undoes the storage escape, for every string |
| TitleAudit.ClassifyTitle | tools/audit_title_representation.py:241-304 | the scanning loop computes the specified signals, category and flags |
| TitleAudit.SignalsOfEscape | tools/audit_title_representation.py:241-275 | an escape has no raw and no other signals, and as many canonical tokens of each kind as the original had such characters |
| TitleAudit.DoubleOfEscape | tools/audit_title_representation.py:59-65 | an escape looks double-encoded exactly when the original contains an entity-shaped token |
| TitleAudit.StoredTitleVerdict | tools/audit_title_representation.py:241-304 | a stored title is ambiguous exactly if the title contains an entity-shaped token, else canonical exactly if it contains one of the five characters, else plain; never mixed; decoding gives the title |
| TitleAudit.CleanIsStored | tools/audit_title_representation.py:241-304 | a value without raw and other signals is the escape of what it decodes to |
| TitleAudit.CleanIffStored | tools/audit_title_representation.py:241-304 | those two signals are empty exactly for escapes |
| TitlePieces.SignalsOfPieces | tools/audit_title_representation.py:241-263 | however a title is cut into characters and entity tokens, its signals count the five characters that stand by themselves, the five canonical tokens, and all other tokens |
| TitlePieces.DecodeOfPieces | tools/audit_title_representation.py:213-238 | one layer of decoding replaces exactly the tokens: a decimal or hexadecimal numeral, leading zeros and all, by its character if that is a scalar value, a known name by its character |
| TitlePieces.DoubleIff | tools/audit_title_representation.py:63-66 | a title looks double-encoded exactly where an ampersand encoded by name or number stands in front of the rest of an entity token |
| TitlePieces.VerdictIff | tools/audit_title_representation.py:241-304 | the category of any title by what it is cut into: a character standing by itself decides first, then a double encoding, then another token, then a canonical one; mixed exactly when two kinds of signals are there |
| TitlePieces.EveryTitleIsCut | tools/audit_title_representation.py:241-263 | every title can be cut so |
| DeploymentWindows.ParseDeploymentWindows | tools/audit_title_representation.py:307-344 | a document is accepted exactly when AcceptableIff says so, and the result is it, sorted; a refusal names the first item that is at fault, with its fault, or two windows that share an instant |
| DeploymentWindows.AcceptableIff | tools/audit_title_representation.py:307-344 | the documents accepted: not empty, names of one to sixty-four letters, digits, ".", "_" and "-" that start with a letter or digit, none "unassigned" and none twice, no empty range, and no instant in two windows |
| DeploymentWindows.SortedMeans | tools/audit_title_representation.py:333-339 | windows without a start come first, then by start, then by name |
| DeploymentWindows.DisjointIffBefore | tools/audit_title_representation.py:333-343 | for windows in order, the neighbour test is disjointness |
| DeploymentWindows.NeighboursSuffice | tools/audit_title_representation.py:333-343 | comparing neighbours after sorting decides every pair |
| DeploymentWindows.WindowForExact | tools/audit_title_representation.py:356-372 | on accepted windows the lookup never finds two matches, and names the window that contains the instant |
| DeploymentWindows.WindowForCounts | tools/audit_title_representation.py:356-360 | on any windows the lookup fails exactly when two of them contain the instant, and names only windows that do |
| Base64.DecodeIffEncode | src/security.rs:229-236 | unpadded decoding accepts exactly the encodings (section 4 of RFC 4648) and undoes them |
| Base64.DecodePaddedIffEncode | src/security.rs:233-236 | the same for padded text |
| RememberMe.FieldRoundTrip | src/security.rs:170-180 | decoding an encoded field gives it back, and encoded fields hold no colon |
| RememberMe.TildeAndStarDiffer | src/security.rs:170-174 | on "~" and on "*" the encoder differs from java.net.URLEncoder |
| RememberMe.UrlEncoderIff | src/security.rs:170-174 | it agrees with java.net.URLEncoder exactly on values without "*" and "~" |
| RememberMe.MakeSignature | src/security.rs:182-201 | the result is the only text of digits 0-9 and a-f that decodes to the digest of the signed text |
| RememberMe.SignedTextFields | src/security.rs:182-194 | the signed text of colon-free parts splits at its colons into user, expiry, password hash and secret, followed by the generation exactly when that is positive |
| RememberMe.CredentialsSigned | src/security.rs:190-194 | with all else equal, two password hashes and secrets sign the same text only if they are equal, when one of them stays or the hashes hold no colon |
| RememberMe.HexDecodeIff | src/security.rs:200-201 | a text decodes from hexadecimal to some bytes exactly when it is their lower-case form |
| RememberMe.GenerationSignedIff | src/security.rs:190-194 | with all else equal, two generations sign the same text exactly when they are equal or neither is positive |
| RememberMe.ConstantTimeEqIsEquality | src/security.rs:113-122 | the comparison that looks at every byte decides equality |
| RememberMe.CookieRoundTrip | src/security.rs:170-288 | an encoded cookie decodes to the same user, expiry, algorithm and signature and verifies at exactly the times up to and including its expiry |
| RememberMe.VerifyIff | src/security.rs:269-288 | a token verifies exactly if it is not expired and carries the expected signature |
| RememberMe.RevokedIff | src/security.rs:182-288 | a cookie issued at one generation verifies at another exactly until its expiry and only if the two are equal or neither is positive, as long as the digest tells the two signed texts apart |
| RememberMe.CredentialsRevokeIff | src/security.rs:182-288 | a cookie issued under one password hash and secret verifies under others exactly until its expiry and only if both are equal, when one of them stays or the hashes hold no colon, as long as the digest tells the two signed texts apart |
| RememberMe.FieldsDecodeIff | src/security.rs:229-266 | which token a cookie of these fields decodes to: three fields are a legacy token with MD5, four name MD5 or SHA256, any other number is refused, and the expiry is a 64-bit numeral |
| RememberMe.AcceptedCookiesAreCanonical | src/security.rs:232-236 | a plain text has exactly two cookies, the unpadded and the padded one |
| HttpFirewall.BlocklistFindsTriples | src/http_method_firewall.rs:35-60 | the case-insensitive text search finds exactly the percent triples of that byte |
| HttpFirewall.DecodeThenSplit | src/http_method_firewall.rs:35-77 | without an encoded slash, decoding (section 2.1 of RFC 3986) and splitting at "/" commute |
| HttpFirewall.CommutesIff | src/http_method_firewall.rs:35-77 | they commute exactly when no slash is encoded |
| HttpFirewall.NoNewDotSegment | src/http_method_firewall.rs:29-33 | without encoded slashes and dots, decoding creates no dot segment (section 5.2.4 of RFC 3986) |
| HttpFirewall.DecodedBlocklistExact | src/http_method_firewall.rs:61-77 | after the encoded blocklist, the decoded one objects exactly to malformed escapes and line or paragraph separators |
| HttpFirewall.AcceptedPathsAreUnambiguous | src/http_method_firewall.rs:29-77 | for every accepted path decoding commutes with splitting, no decoded segment is "." or "..", and decoding twice is decoding once (section 2.4 of RFC 3986) |
| HttpFirewall.AcceptedIff | src/http_method_firewall.rs:29-77 | a path is accepted exactly when it is spelled in printable bytes other than ";", "\" and "%" and in escapes of bytes other than the eight listed ones, no slash follows a slash, nothing between slashes is "." or "..", and it decodes to UTF-8 without U+2028 and U+2029 |
| Bytes.UnitsDecode | src/http_method_firewall.rs:61-66 | however a text is spelled in plain bytes and escapes with digits of either case, decoding gives the bytes they stand for |
| Bytes.EveryTextIsSpelled | src/http_method_firewall.rs:61-66 | every text can be spelled so |
| SqlTokens.TokenizeSql | tools/audit_rust_sql_schema.py:377-472 | terminates on every text with the tokens that SqlPieces.TokensArePieces characterises, strictly increasing offsets, and depths that both parentheses of a pair share |
| SqlTokens.ScanQuoted | tools/audit_rust_sql_schema.py:403-434 | the literal loop yields the text with doubled quotes undone and the position behind it |
| SqlTokens.LiteralIsLexed | tools/audit_rust_sql_schema.py:403-434 | every value, quoted with its quotes doubled, is lexed in whatever surroundings as one string or identifier of that value, up to what follows |
| SqlPieces.PieceLexed | tools/audit_rust_sql_schema.py:377-472 | each piece of the grammar is lexed whole: a line comment up to its newline, a block comment up to the first closer, a dollar quote up to its own marker, a literal, a brace placeholder, a numbered parameter, a word, an operator (the longer of "->>" and "->"), a single character |
| SqlPieces.TokensArePieces | tools/audit_rust_sql_schema.py:377-472 | however a text is cut into pieces, its tokens are those of the pieces that are neither white space nor comments, each with its kind, value, offset and depth |
| SqlPieces.EveryTextIsCut | tools/audit_rust_sql_schema.py:377-472 | every text can be cut so |
| SqlTokens.MatchingParen | tools/audit_rust_sql_schema.py:475-482 | the first ")" of the recorded depth, or the last token, or the start itself |
| SqlTokens.MatchedParenIsFound | tools/audit_rust_sql_schema.py:475-482 | for a "(" with a stack-matched ")", the search finds exactly that one and everything between is deeper |
| SqlTokens.UnmatchedParenFindsNothing | tools/audit_rust_sql_schema.py:475-482 | without one, every later token is deeper, so the search falls back to the last token |
| SqlTokens.TopLevelSegments | tools/audit_rust_sql_schema.py:724-735 | the loop computes the split, empty segments dropped |
| SqlTokens.SegmentsFlatten | tools/audit_rust_sql_schema.py:724-735 | the segments together are the slice minus its separators, in order |
| SqlTokens.SegmentsAreCommaSplitIff | tools/audit_rust_sql_schema.py:724-735 | the segments are those between real commas exactly when no other base-depth token spells "," |
| SqlTokens.StringCommaSplits | tools/audit_rust_sql_schema.py:724-735 | a text without a comma token that is split nevertheless, at the string literal ',' |
| SqlTokens.SegmentIsWellNested | tools/audit_rust_sql_schema.py:724-735 | every segment of a well-nested slice is a well-nested run of consecutive tokens |
| CodeMask.MaskCode | tools/extract_original_routes.py:78-126 | the in-place machine writes exactly the specified mask |
| CodeMask.MaskKeepsOffsets | tools/extract_original_routes.py:78-126 | same length; each position unchanged or blanked, newlines exactly where they were |
| CodeMask.MaskShowsCode | tools/extract_original_routes.py:78-126 | however a text is cut into characters, comments and literals, exactly the code characters stay, each at its offset |
| CodeMask.EveryTextIsLexed | tools/extract_original_routes.py:78-126 | every text can be cut that way, so the previous law covers all inputs |
| CodeMask.FixedIffClean | tools/extract_original_routes.py:78-126 | the texts masking leaves alone are exactly those without quotes and comment openers |
| CodeMask.MaskIdempotent | tools/extract_original_routes.py:78-126 | no quote or comment opener remains, so masking again changes nothing |
| RouteMask.RawString | tools/extract_axum_routes.py:21-38 | the hash-counting loop finds the end of a raw string |
| RouteMask.ScanString | tools/extract_axum_routes.py:71-80 | the string loop, which may step one past the end behind a backslash, finds the end of a string |
| RouteMask.ScanChar | tools/extract_axum_routes.py:81-98 | a character literal needs its closing quote on the same line |
| RouteMask.WithoutNonCode | tools/extract_axum_routes.py:105-162 | blanking in place, with comments that nest, writes exactly the mask characterised by RustPieces.MaskShowsPieces |
| RouteMask.MaskedKeepsOffsets | tools/extract_axum_routes.py:105-162 | same length, line breaks in place, and what is not blanked is the text itself |
| RouteMask.FixedIffClean | tools/extract_axum_routes.py:105-162 | the texts this masking leaves alone are exactly those without string quotes and comment openers |
| RouteMask.MaskIdempotent | tools/extract_axum_routes.py:105-162 | masking twice is masking once |
| RouteMask.LexersAgreeIff | tools/extract_axum_routes.py:41-162 | the masking pass agrees with the item scanner's lexer exactly when no character literal holds a string quote or comment opener |
| RouteMask.QuoteLiteralMisleads | tools/extract_axum_routes.py:81-162 | they part on a double quote written as a character literal |
| RustPieces.PieceEnds | tools/extract_axum_routes.py:21-98 | the lexer ends each line comment, balanced block comment, raw string with its own number of hashes, string and character literal where the grammar does |
| RustPieces.MaskShowsPieces | tools/extract_axum_routes.py:105-162 | however a text is cut into pieces of the grammar, the mask shows exactly its characters, and its character literals where it knows them, and blanks all else |
| RustPieces.CodesAreCharacters | tools/extract_axum_routes.py:41-102 | the positions the item scanner takes for code are exactly those of the character pieces |
| RustPieces.EveryTextIsLexed | tools/extract_axum_routes.py:21-102 | every text can be cut into such pieces, with or without character literals, so these laws cover all inputs |
| TestItems.CaptureBlock | tools/extract_axum_routes.py:209-270 | the text between the braces and the end of the block, or the rest of the text |
| TestItems.BlockCloseExact | tools/extract_axum_routes.py:209-270 | the block ends at the first code brace that brings the depth to zero, counting code braces only |
| TestItems.BlockIsBalanced | tools/extract_axum_routes.py:209-270 | a braced block's code braces balance at its end and nowhere before |
| TestItems.FindItemEnd | tools/extract_axum_routes.py:41-102 | the scanning loop computes the specified item end |
| TestItems.ItemEndExact | tools/extract_axum_routes.py:41-102 | an item ends with the block or semicolon of its first code brace or semicolon, or at the end of the text |
| TestItems.WithoutCfgTestItems | tools/extract_axum_routes.py:165-181 | terminates; same length; a position is blanked, line breaks kept, exactly if it lies in a range, and is otherwise unchanged |
| TestItems.RangesOrdered | tools/extract_axum_routes.py:165-174 | the ranges are non-empty, disjoint, increasing and inside the text |
| TestItems.EveryAttributeCovered | tools/extract_axum_routes.py:165-174 | every attribute found in the masked text starts inside a range |
| TestItems.BlankedIsAnItem | tools/extract_axum_routes.py:165-181 | every blanked position belongs to the item of such an attribute |
| TestAttributes.AttributeIsCode | tools/extract_axum_routes.py:105-174 | when no character literal misleads the masking pass, every visible character of an attribute it finds is a code character of the text |
| TestAttributes.WrittenIsFound | tools/extract_axum_routes.py:105-174 | under the same condition an attribute written in code at a line start is found and starts inside a blanked range |
| TestAttributes.AttributeIff | tools/extract_axum_routes.py:18 | where the expression matches and up to where: at a line start, behind blanks, the attribute with white space anywhere between its seven parts, and all blanks behind it |
| TestAttributes.AttributeFoundInString | tools/extract_axum_routes.py:105-174 | a text without any code character, a quoted double quote and a string, in which an attribute is found |
| FormMerge.LossyIsText | src/form.rs:33-36 | lossy decoding always gives well-formed text and leaves exactly the well-formed texts alone |
| FormMerge.BadLengthMeans | src/form.rs:33-36 | one replacement character stands for the longest start of a well-formed sequence, or for a single byte |
| FormMerge.PrintThenParse | src/form.rs:164-169 | printed pairs (section 5 of the URL Standard) parse back, whatever text they hold |
| FormMerge.EncodedByte | src/form.rs:164-169 | printing keeps letters, digits and "*-._", writes a space as "+" and any other byte as an upper-case escape |
| FormMerge.ParseFields | src/form.rs:33-36 | however a query is cut at "&" into fields, each empty, a name without "=", or a name and a value around its first "=", its pairs are those of the fields that are not empty, a missing value being an empty one, with "+" and escapes decoded |
| FormMerge.EveryQueryIsFields | src/form.rs:33-36 | every query can be cut so |
| FormMerge.IsFormPostIff | src/form.rs:79-105 | a servlet form is a POST whose content type is the form type in any case, between white space, up to the end or a semicolon |
| FormMerge.ServletRequestParameters | src/form.rs:79-105 | query pairs first, then the body of a form POST; an oversized form is refused |
| FormMerge.MergeServletPostFormIntoQuery | src/form.rs:112-195 | other requests pass unchanged, an oversized form is refused, otherwise only the query changes, to the merged one, if the URI parser accepts it |
| FormMerge.FirstOfEachAgrees | src/form.rs:143-162 | the merged list has each name once, with its first value |
| FormMerge.FirstOfEachInOrder | src/form.rs:143-162 | and in the order in which the names first appeared |
| FormMerge.MergedQueryAgrees | src/form.rs:79-195 | the new query, parsed again, has each name once and agrees on every name's first value with the query-then-body servlet list |
| FormMerge.MergeTwice | src/form.rs:107-195 | merging again changes nothing, and readers of query and body still see the same first values |
| ProfileSettings.ParseHstoreText | src/profile.rs:364-377 | the loop over parts computes the specified map, later entries winning and empty keys skipped |
| ProfileSettings.HstoreIff | src/profile.rs:364-377 | in any text, a key has the value of the last part between commas that stores something under it, behind its first arrow |
| ProfileSettings.CleanTokenExact | src/profile.rs:379-381 | keys and values lose the white space at their ends, then all quotes at their ends, then the backslash of each escaped quote, and nothing else |
| ProfileSettings.FromHstoreText | src/profile.rs:110-161 | whatever text is stored, valid settings are read; and text printed from valid settings, in any key order, reads back as those settings |
| ProfileSettings.ReadIsValid | src/profile.rs:110-161 | whatever text is stored, the settings read are valid, for every offer whose defaults are |
| ProfileSettings.ChoicesByKey | src/profile.rs:110-161 | key by key, a choice is the stored one if it is offered, a number the stored one if it parses, each else the default |
| ProfileSettings.FlagsByKey | src/profile.rs:110-161 | key by key, a stored flag is set exactly by "true", "t", "yes", "on" and "1" |
| ProfileSettings.PartAdds | src/profile.rs:364-381 | a printed entry's key and value come back clean and are split at the right arrow |
| ProfileSettings.OfferIsGood | src/profile.rs:46-88 | the site's own themes, formats, avatars and modes are plain texts and its defaults are among them, so the laws below, stated for every such offer, apply |
| ProfileSettings.StoredRoundTrip | src/profile.rs:110-261 | valid settings survive storing, printing as hstore text with the keys in any order, and reading |
| ProfileSettings.StoredEntries | src/profile.rs:229-261 | the twelve entries, in order: each key, and the setting stored under it |
| ProfileSettings.ApplyForm | src/profile.rs:173-227 | a form is accepted exactly under the stated conditions; the accepted settings are, field by field, what SubmittedIsAsked states, and a refusal is what RefusalMeans states |
| ProfileSettings.SubmittedIsAsked | src/profile.rs:173-227 | two numbers and three choices are those of the fields, each of six flags is set exactly when its own field is there, the tracker mode is the offered one or the default |
| ProfileSettings.RefusalMeans | src/profile.rs:173-215 | each refusal names a field that is missing or not allowed, and the fields checked before it are in order |
| ProfileSettings.RunsStayValid | src/profile.rs:163-227 | along every run of accepted, stored and reread forms the settings stay valid and each count is an offered one or the original one |
| ProfileSettings.LegacyIsNeverRegained | src/profile.rs:163-227 | a legacy count that was replaced can never come back |
| AdvCounter.Counter.Count | src/application/adv_counter.rs:12-19 | one more at that path, stopping at the 64-bit maximum, others unchanged |
| AdvCounter.Counter.Take | src/application/adv_counter.rs:21-27 | the whole map is handed out and an empty one left |
| AdvCounter.Counter.Restore | src/application/adv_counter.rs:31-40 | in whatever order the batch is visited, it is added path by path to what was counted meanwhile |
| AdvCounter.ConservedIff | src/application/adv_counter.rs:11-41 | over every interleaving of counts, takes, commits and restores nothing is counted twice, and nothing is lost at a path exactly as long as no addition there saturates |
| AdvCounter.ConservedBelowMaximum | src/application/adv_counter.rs:11-41 | up to the 64-bit maximum of requests, memory, batches in flight and database together hold all of them |
| AdvCounter.CommittedGrows | src/application/adv_counter.rs:21-40 | committed counts never decrease |

## Left out

- The network, SQL and mail: OpenSearch requests become deliveries that succeed, are lost, or lose only their answer; the database is an abstract snapshot that does not change while one job runs; the worker loop around `vDrainQueue` is not modelled.
- File system faults in the single worker's class: a rename or read that fails for other reasons appears only in the step system, where a worker then gives up its file.
- The index functions' branch for an unconfigured search server, index creation and its contract check, and the search request and result builders.
- The producers in `src/infra/search_queue.rs`: enqueueing is adding a file under a fresh name; that month jobs and only they are named with the low-priority prefix is theirs to keep.
- The Markdown, HTML and LORCODE parsers and the sanitizer: text ranges and tags are sorted, disjoint inputs, and rendering is an arbitrary function; the label of a cut, always absent in Markdown, is left out of its fragment.
- Regular expression engines: each expression is written out as a matcher; the class `\d`, which Python extends to all Unicode digits, is a parameter of the tokenizer.
- TitleAudit.ClassifyTitle: signals are multisets, where the source prints them as sorted "name:count" texts; the entity table is a parameter of which only four names are fixed; the digit limit of Python's `int` is not modelled.
- DeploymentWindows.ParseDeploymentWindows: the JSON shape and timestamp syntax are taken as parsed, an instant is an integer, and the error texts are reduced to their kinds.
- ReindexMonths: time zones are arbitrary functions from months to strictly increasing starts where the bounds exist; chrono's treatment of gaps and folds is not modelled.
- Digests, bcrypt, HMAC and the encryption of permits: MD5 and SHA-256 are arbitrary functions, and nothing is claimed about forging a signature or about timing.
- FormMerge.MergeServletPostFormIntoQuery: whether the URI parser accepts the new path and query is a parameter, and reading the body can fail only by size.
- ProfileSettings.StoredRoundTrip: the database is taken to print hstore as quoted entries separated by a comma and a space; no valid setting contains a character it would escape.
- AdvCounter: the mutex is modelled as steps that do not interleave, and the flush as a take followed by a commit or a restore.
- CodeMask.MaskCode: what an iteration writes is decided in a helper method, and a character that stays is written over itself.
- RouteMask.WithoutNonCode: the block-comment test is made before the line-comment test, which cannot both succeed at one position, and iterations are split into helper methods.
- Templates, security headers, CSRF cookies, configuration checks, pagination, userpic scaling, the identifier heuristics of the SQL audit, browser and database drivers: wiring or field checks that would add only easy members.
