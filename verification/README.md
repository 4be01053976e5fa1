# Serica: a verified model of its core logic

Serica is a search and content-extraction service with an HTTP gateway and an MCP
(JSON-RPC over stdio) gateway. This Dafny project models the parts of it that carry
logic and proves what they promise: the HTML rewriting scanners in front of the
extractor, the query codec and the two URL builders on top of it, the
redirect-following fetch loop, the lazily connecting Redis cache, the extract cascade
and its permits, the safe-search filter, the shared search cache, and the stdio
dispatcher. Check it with `dafny verify dfyconfig.toml` (Dafny 4.11).

## How it is modelled

- **Scanners** (`Tags`, `CodespanFixup`, `CodeblockLinebreaks`, `WhitespaceRestore`).
  The source's index loops are methods over byte strings. Each is proved equal to a
  byte-at-a-time automaton (`SpanRun`, `BreakRun`) whose state does not count bytes,
  so that the laws between passes can be proved by moving states from one text to
  another. Every string slice the source takes is a `StrSlice`, whose precondition is
  that both ends are character boundaries (RFC 3629), so a verified method cannot panic.
  `SpanLaws`, `BreakLaws`, `SentinelSites`, `BreakSites`, `TagExtent`, `RewriteOrder` and
  `RewriteConflict` hold the laws. `TagText` and `BreakText` say byte by byte what a tag, a
  quoted value and a line boundary look like; `SpanRegions` and `BreakRegions` say by
  position alone what each pass makes of a document.
- **Query codec** (`FormUrlencoded`, `ExtractUrl`, `DuckDuckGo`). The parser and the
  serializer of the URL Standard, sections 5.1 and 5.2, are written out over bytes,
  with the lossy UTF-8 decoding they use. `normalize_extract_url` and
  `build_search_url` are methods on top.
- **Fetch loop** (`AddressPolicy`, `FetchLoop`). The loop runs against an arbitrary
  world whose answers may differ from one lookup to the next, and leaves a log of
  every lookup and dial; the theorems are about that log.
- **Protocols** (`LazyRedis`, `ExtractLimiter`, `ExtractReplies`, `SearchGateway`,
  `CacheKeys`, `McpStdio`). State
  machines over the atomic sections between awaits; a theorem about a run quantifies
  over every interleaving of any number of tasks, with failures and cancellation. The
  classes are the source's shared objects, one method per critical section (or one
  whole call, where no other task interferes).
- **Cascade** (`ExtractCascade`, `Trim`, `SafeSearch`). Methods proved against functions, and
  laws about those functions. Ratios are compared by cross-multiplication.

What the libraries return (extractor, HTML dump, JSON text, `Url::join`, Unicode
classes, hosts of result URLs, the hasher) is a parameter and arbitrary.

## Where the code and its comments differ

The model follows the code. The differences that the proofs turned up:

- The cache-key comment (src/gateway/mod.rs:36-46) says tracking variants of a target
  share one cache entry. They do iff the clean query is already in serialized form
  (`VariantSharesEntryIff`, with `q=%20` as the counterexample).
- The two rewriting passes do not commute on every document; `PassesCommuteIff` says on
  which ones they do, and `PassesNeedNotCommute` gives a document on which they do not.
- A selection that fills the cap is "trusted outright" (src/util/extract.rs:106-138
  and 332) only above the absolute floors, and only if it holds no sentinel, since
  restoring a sentinel shortens it below the cap (`SaturatedIsTrustedIff`,
  `SaturatedNeedNotBeTrusted`).
- `invalidate` (src/cache/redis.rs:207-209) clears whatever handle is stored, which may
  be a newer one than the handle that failed (`InvalidateDropsOwnHandleIff`,
  `StaleInvalidation`).
- The extract semaphore bounds tasks in the fetch-and-parse span. A task dropped while
  its parse runs gives its permit back at once, so any number of parses can run on one
  permit (`ParsesAreUnbounded`, `SemaphoreBoundsParsesIff`); `ParsesWithinLimitIff` says
  in which states they stay within the limit.
- The MCP semaphore is taken inside the spawned task: it bounds active handlers, while
  spawned tasks are bounded by the input only (`SpawningIsUnbounded`,
  `SpawnedAtMostIff`). The comment at
  src/gateway/mcp.rs:171-175 says it keeps tasks from being spawned unboundedly.
- The MCP gateway narrows `page` and `safe_search` before checking their range, so the
  check sees wrapped values; and whatever is no unsigned 64-bit integer, such as a
  negative number, `2.0`, `"2"` or an integer of 2^64 or more (which the JSON parser reads
  as a float), silently counts as 1, where the HTTP gateway rejects it
  (`McpChecksWrappedValues`, `McpServesWhatHttpRejects`). A caller that asks for the strict
  level in such a form gets the moderate one.
- An explicit `"id": null` is read as no id, so such a request is not answered; JSON-RPC
  2.0, section 4.1, makes only a missing `id` a notification
  (`AnsweredIffNotNotification`, `RequestsLeftUnanswered`).

## Model

| member | source | states |
|---|---|---|
| `Tags.FindTagEnd` | src/util/codespan_fixup.rs:259-285 | the index loop finds exactly the `>` that the attribute-quote automaton closes the tag at, or reports that none does |
| `TagText.UnquotedTagEnd` | src/util/codespan_fixup.rs:259-285 | without quotes the tag ends at the first `>`, and is not closed if there is none |
| `TagText.QuotedTagEnd` | src/util/codespan_fixup.rs:259-285 | a value in quotes of either kind, whatever it holds but that quote, is passed over: the tag ends where the rest of it ends |
| `TagText.OpenQuoteTagEnd` | src/util/codespan_fixup.rs:259-285 | a quote that is not closed swallows the end of the tag |
| `Tags.IsTagOpenAt` | src/util/codeblock_linebreaks.rs:196-210 | true iff the text at `i` is an opening tag of that name, in any ASCII case, with a name boundary behind it |
| `Tags.ClosingTagLen` | src/util/codeblock_linebreaks.rs:249-269 | the length of the closing tag of that name at `j`, or none |
| `TagText.OpenMeans` | src/util/codeblock_linebreaks.rs:196-210 | in bytes: `<`, the letters of the name, small or capital, and then one of the five separators, `>` or `/` |
| `TagText.CloseMeans` | src/util/codeblock_linebreaks.rs:249-269 | in bytes: `</`, the letters of the name, separators only, and `>`, whose end is the length found |
| `Tags.SameHeadRecognition` | src/util/codespan_fixup.rs:239-312 | whether and how far a tag is recognised depends only on the text up to the next `<` or `>`, so rewriting behind it cannot change it |
| `CodespanFixup.PreserveWhitespaceOnlySpans` | src/util/codespan_fixup.rs:130-192 | the jumping scanner computes `Preserved`; every slice is on character boundaries and the output is valid UTF-8 |
| `SpanLaws.PreserveIsIdempotent` | src/util/codespan_fixup.rs:130-192 | a second pass changes nothing, on every input, unclosed tags and unbalanced quotes included |
| `SpanLaws.SpanKeepsTagEnd` | src/util/codespan_fixup.rs:259-285 | replacing bodies never changes whether a tag that is being read gets closed |
| `SentinelSites.SentinelsSitInEmptySpans` | src/util/codespan_fixup.rs:150-180 | in the output of a document without sentinels, each sentinel stands directly between a span's opening tag (as `find_tag_end` delimits it) and a span's closing tag |
| `SpanRegions.PreservedIsFilled` | src/util/codespan_fixup.rs:130-192 | by position alone: the output is the input with U+E000 for each stretch of spaces, tabs, newlines and carriage returns between a `<span ...>` tag and the `</span>` right behind it, and nothing else changed, if no such tag holds a second `<` |
| `SpanRegions.RoundTripIsFilled` | src/util/codespan_fixup.rs:130-234 | and the restored output is that with one space each |
| `SpanRegions.BodyEndsOnce` | src/util/codespan_fixup.rs:150-180 | such a stretch is determined by where it starts: it ends at the next `<` |
| `WhitespaceRestore.RestoreWhitespacePlaceholders` | src/util/codespan_fixup.rs:217-234 | the loop that pops and skips computes `Restored`, and its output is valid UTF-8 |
| `WhitespaceRestore.RestoreLeavesNoSentinel` | src/util/codespan_fixup.rs:217-234 | no sentinel is left |
| `WhitespaceRestore.RestoreKeepsTokens` | src/util/codespan_fixup.rs:206-234 | everything but spaces and sentinels is kept, in order |
| `WhitespaceRestore.RestoreIsRunByRun` | src/util/codespan_fixup.rs:206-234 | a maximal run of spaces and sentinels is restored independently of the rest: untouched without a sentinel, otherwise to between 1 and max(1, its spaces) spaces |
| `WhitespaceRestore.RestoreLength` | src/util/codespan_fixup.rs:217-234 | text is unchanged iff it holds no sentinel, and is otherwise at least 2 bytes shorter |
| `WhitespaceRestore.RoundTripIff` | src/util/codespan_fixup.rs:130-234 | restoring a preserved document gives it back with each whitespace-only span body made one space, iff the document holds no sentinel of its own |
| `WhitespaceRestore.RoundTripIdentityIff` | src/util/codespan_fixup.rs:130-234 | the round trip is the identity iff there is no sentinel and every such body is one space already |
| `CodeblockLinebreaks.PreserveCodeBlockLineBreaks` | src/util/codeblock_linebreaks.rs:130-191 | the jumping scanner with its `in_pre` flag computes `Broken`; slices are on character boundaries and the output is valid UTF-8 |
| `BreakLaws.BreaksAreIdempotent` | src/util/codeblock_linebreaks.rs:130-191 | a second pass changes nothing, on every input, an unclosed pre included |
| `BreakSites.BreaksOnlyInsert` | src/util/codeblock_linebreaks.rs:130-191 | the output is the input plus newlines, each directly behind `</div>`, `</p>`, `</tr>` or `</li>`, in front of a byte that is neither separator nor the start of `</`, and while a pre is open: a `<pre ...>` tag as `find_tag_end` delimits it lies before it with no `</pre>` in between; deleting them gives the input back |
| `BreakLaws.BreaksSettleEveryBoundary` | src/util/codeblock_linebreaks.rs:160-180 | a document is unchanged iff every recognised boundary in a pre is followed by whitespace, `</` or the end; the output always is such a document |
| `BreakRegions.BreaksFillTheGaps` | src/util/codeblock_linebreaks.rs:130-191 | in bytes and by position alone: the output is the input with a newline in every gap and nowhere else, if no `<pre ...>` tag holds a second `<`. A gap lies inside a pre, directly behind `</div>`, `</p>`, `</tr>` or `</li>` (any case, separators before the `>`), and in front of a byte that is none of 0x20, 0x09, 0x0A, 0x0C, 0x0D and does not start `</` |
| `BreakRegions.DueIsGap` | src/util/codeblock_linebreaks.rs:160-180 | in every document, clean tags or not, a newline is due in gaps only |
| `BreakRegions.UnchangedIffSettled` | src/util/codeblock_linebreaks.rs:130-191 | a document without gaps is left alone, and conversely, if no `<pre ...>` tag holds a second `<` |
| `BreakRegions.OutputIsSettled` | src/util/codeblock_linebreaks.rs:130-191 | so such an output has no gap: inside a pre every boundary close is followed by one of the five separators, `</` or the end |
| `BreakSites.OutsidePreIsCopied` | src/util/codeblock_linebreaks.rs:130-191 | any stretch of the input in which no pre is open, before or behind pre regions, is in the output byte for byte and in its place |
| `BreakSites.DueInPre` | src/util/codeblock_linebreaks.rs:160-180 | a newline is due only where a pre is open |
| `RewriteOrder.PassesCommuteIff` | src/util/extract.rs:272 | the passes commute iff no whitespace-only span's opening tag ends in a boundary close recognised inside a pre; the outputs differ in length by the number of those |
| `RewriteOrder.CleanDocumentsCommute` | src/util/extract.rs:272 | they commute on every document in which no span opening tag holds another `<` |
| `RewriteOrder.PatchingIsIdempotent` | src/util/extract.rs:272 | the composition the extractor is fed is idempotent, on every input |
| `RewriteConflict.PassesNeedNotCommute` | src/util/extract.rs:272 | a document on which the order matters |
| `FormUrlencoded.ParseSerialized` | src/util/ssrf.rs:142-166 | parsing a serialized list of text pairs gives the list back |
| `FormUrlencoded.EscapesRead` | src/util/ssrf.rs:142-166 | every byte is read from its `%xy`, in small digits, capital ones or one of each |
| `FormUrlencoded.OthersRead` | src/util/ssrf.rs:142-166 | `+` is read as a space, a `%` without two digits behind it as itself, and so is every other byte |
| `FormUrlencoded.ParseNameValue` | src/util/ssrf.rs:142-166 | a pair is split at its first `=`, name first |
| `FormUrlencoded.EmptyAndNameOnly` | src/util/ssrf.rs:142-166 | nothing between two ampersands is no pair, and a pair without `=` is a name |
| `FormUrlencoded.ParsedAreText` | src/util/ssrf.rs:142-166 | whatever is parsed is valid UTF-8, so it can be serialized again |
| `FormUrlencoded.DecodeSerialized` | src/engines/duckduckgo.rs:172-188 | decoding undoes `byte_serialize` on every valid UTF-8 text |
| `Utf8.LossyIdentityIff` | src/util/ssrf.rs:142-166 | the lossy decoding behind the parser changes a byte string iff it is not valid UTF-8 |
| `Utf8.LossyReplaces` | src/util/ssrf.rs:142-166 | one U+FFFD stands for the longest start of a character, or for a single byte that is none |
| `ExtractUrl.NormalizeExtractUrl` | src/util/ssrf.rs:142-166 | the clone-and-edit procedure computes `Normalized` |
| `ExtractUrl.NormalizedPairs` | src/util/ssrf.rs:142-166 | the result decodes to exactly the non-tracking pairs of the input, in order |
| `ExtractUrl.NormalizedKeepsOrder` | src/util/ssrf.rs:142-166 | the pairs of the result are pairs of the input at increasing indices |
| `ExtractUrl.NormalizedCounts` | src/util/ssrf.rs:142-166 | of a tracking pair none is left, of any other as many copies as the input has |
| `ExtractUrl.NormalizedElsewhere` | src/util/ssrf.rs:142-166 | scheme, host, port and path stay, the fragment goes, and a query of tracking pairs only goes with its `?` |
| `ExtractUrl.NormalizeIsIdempotent` | src/util/ssrf.rs:142-166 | normalizing twice is normalizing once |
| `ExtractUrl.QueryUntouchedIff` | src/util/ssrf.rs:142-166 | the query is byte-for-byte untouched iff no tracking key decodes from it |
| `ExtractUrl.TrackedVariantsAgreeIff` | src/gateway/mod.rs:36-55 | two URLs that both carry tracking share the cache entry iff everything else decodes alike |
| `ExtractUrl.VariantSharesEntryIff` | src/gateway/mod.rs:36-55 | a variant shares the clean URL's entry iff the clean query is already in serialized form |
| `ExtractUrl.VariantsNeedNotShare` | src/gateway/mod.rs:36-46 | `q=%20` and `q=%20&ref` are a variant pair with two entries |
| `DuckDuckGo.BuildSearchUrl` | src/engines/duckduckgo.rs:172-188 | the URL built by appending is the base and the serialized list of q, s, optional kl and kp |
| `DuckDuckGo.SearchQueryDecodes` | src/engines/duckduckgo.rs:172-188 | form-parsing the query gives back exactly those parameters, for every query text |
| `DuckDuckGo.UpstreamReads` | src/engines/duckduckgo.rs:125-188 | what the upstream decodes for a validated request: the text as `q`, 20 results a page as `s`, `us-en`, `de-de`, `fr-fr` or `es-es` as `kl` for the four languages, and `-2`, `-1` or `1` as `kp` for the three levels |
| `DuckDuckGo.UpstreamUrlsAreDistinct` | src/engines/duckduckgo.rs:125-188 | distinct validated requests go to distinct upstream URLs |
| `DuckDuckGo.McpChecksWrappedValues` | src/gateway/mcp.rs:426-455 | for every argument, exactly when the two gateways make the same of it: a page that is missing, fits 32 bits, or has low 32 bits that are no page; a level likewise with 8 bits, a missing one only if the configured default is 1; never for what is no unsigned 64-bit integer |
| `DuckDuckGo.McpServesWhatHttpRejects` | src/gateway/mcp.rs:426-455 | the inputs at which they differ: wrapped values, integers of 64 bits or more, and every negative number, fraction or string, which MCP serves at page 1 and level 1 |
| `AddressPolicy.ForbiddenV4IsBlocks` | src/util/ssrf.rs:56-65 | the octet tests are membership in the listed IPv4 blocks |
| `AddressPolicy.ForbiddenV6IsBlocks` | src/util/ssrf.rs:40-54 | the segment tests are membership in the listed IPv6 blocks, or in an IPv4 block mapped into ::ffff:0:0/96 |
| `FetchLoop.ValidateExtractTarget` | src/util/ssrf.rs:73-102 | https only, one lookup, refused if any address is forbidden, otherwise the first address |
| `FetchLoop.FetchExtractTarget` | src/util/ssrf.rs:264-333 | in every run: each dial goes to the first answer of its own lookup, all answers allowed; each URL is https, a fixed point of normalization, and the redirect target of the one before; at most 6 dials; each outcome is read off the log |
| `FetchLoop.OneEnding` | src/util/ssrf.rs:264-333 | the log determines the outcome: no run ends in two ways |
| `FetchLoop.DialledAddressesAreAllowed` | src/util/ssrf.rs:34-102 | no address dialled, and no other answer of its lookup, lies in a forbidden block |
| `FetchLoop.EarlierRepliesAreRedirects` | src/util/ssrf.rs:264-333 | every reply before the last was a redirect |
| `FetchLoop.FetchInNumbers` | src/util/ssrf.rs:220-333 | at most 6 dials, and exactly 6 if there were too many redirects; lookups are for the URL's port or 443; replies that were followed have a status of 300 to 399, the one returned has not |
| `LazyRedis.LazyRedisCache.EnsureConn` | src/cache/redis.rs:156-205 | fast path, throttle, stamp and connect of a task that meets no other, with the whole new state |
| `LazyRedis.LazyRedisCache.Invalidate` | src/cache/redis.rs:207-209 | the stored handle is dropped, whichever it is, and the stamp stays |
| `LazyRedis.LoneCallIsEnsureConn` | src/cache/redis.rs:156-205 | the atomic sections of a lone task, run one after the other, leave exactly the state and handle `EnsureConn` promises |
| `LazyRedis.LazyRedisCache.Recheck` | src/cache/redis.rs:172-190 | under the write lock the decision is taken again, and only a connect changes the stamp |
| `LazyRedis.CheckInNumbers` | src/cache/redis.rs:156-190 | a stored handle is used; without one an attempt is due at once the first time and 10 000 ms after the last one otherwise |
| `LazyRedis.AttemptsResume` | src/cache/redis.rs:156-205 | in any state without a handle and writer, a task that begins gets to connect iff such an attempt is due |
| `LazyRedis.StepKeepsInv` | src/cache/redis.rs:156-210 | every atomic section, and cancellation anywhere, keeps the lock, stamp and handle invariant |
| `LazyRedis.AttemptsAreSpaced` | src/cache/redis.rs:15-18 | in every run attempts never overlap, and their starts are 10 s or more apart |
| `LazyRedis.AttemptsPerWindow` | src/cache/redis.rs:15-18 | in every run a window of T ms holds at most T / 10000 + 1 attempt starts |
| `LazyRedis.HandlesComeFromAttempts` | src/cache/redis.rs:156-205 | every handle in use was made by a successful attempt |
| `LazyRedis.InvalidateDropsOwnHandleIff` | src/cache/redis.rs:207-209 | an invalidation drops the handle that failed iff no attempt has succeeded since |
| `LazyRedis.StaleInvalidation` | src/cache/redis.rs:207-209 | a run in which it drops a newer one |
| `ExtractCascade.TruncateAtCharBoundary` | src/util/extract.rs:232-245 | the loop over character ends computes `Truncated` |
| `ExtractCascade.TruncatedIsLongestPrefix` | src/util/extract.rs:232-245 | the longest whole-character prefix within the cap, at most 3 bytes short of it |
| `ExtractCascade.ExtractFromHtml` | src/util/extract.rs:260-387 | the reassigning cascade yields content, method and ratio as the specification functions say |
| `ExtractCascade.ContentIsLongestPrefix` | src/util/extract.rs:260-387 | content is the longest whole-character prefix within the cap of exactly the text its method names |
| `ExtractCascade.FormatDecides` | src/util/extract.rs:276-315 | markdown is served only if it is configured and is not all white space; and if so, it or the whole document is served |
| `ExtractCascade.OfferInNumbers` | src/util/extract.rs:276-372 | content and method for every offered text, in numbers: audited under 3000 bytes (markdown under 1500), and on pages of 524 288 bytes or more also under the cap; then replaced under 30 percent of the whole document (5 on those pages), by the document if that has 200 bytes and by nothing otherwise |
| `ExtractCascade.NothingOffered` | src/util/extract.rs:276-372 | without an offer the whole document is served if it has 200 bytes, otherwise nothing |
| `Trim.BlankIff` | src/util/extract.rs:279-311 | a text counts as empty iff it is the UTF-8 of code points with the White_Space property |
| `ExtractCascade.RescueIsNoShorter` | src/util/extract.rs:338-372 | a rescue is never more than 3 bytes shorter than what it replaces |
| `ExtractCascade.NoContentIff` | src/util/extract.rs:338-372 | when exactly nothing is served |
| `ExtractCascade.SelectionIsNeverLost` | src/util/extract.rs:338-372 | a selection of 60 bytes or more (10 on a large page) always yields content |
| `ExtractCascade.HealthyMarkdownIsKept` | src/util/extract.rs:84-89 | markdown of 1500 bytes or more on a page under 512 KB is served as it is |
| `ExtractCascade.SaturatedIsTrustedIff` | src/util/extract.rs:106-138 | when exactly a cap-filling extractor output on a large page escapes the audit |
| `ExtractCascade.SaturatedNeedNotBeTrusted` | src/util/extract.rs:106-138 | cap-filling pages that are audited: with a sentinel at every cap from 4 bytes up, and without one at every cap below the floor |
| `ExtractLimiter.ExtractCache.RunExtract` | src/util/extract.rs:422-562 | one call around the timed span: a decodable entry is handed out and nothing changes; otherwise only a success is stored, under the key of the normalized URL |
| `ExtractLimiter.CallAlone` | src/util/extract.rs:422-562 | the same call step by step, for a hit, a success, a drop before the store, and an error or a timeout at each await: it never waits, leaves the cache the method promises, gives its permit back, and at most leaves a parse nobody waits for |
| `ExtractLimiter.PermitsAreConserved` | src/util/extract.rs:394-401 | in every run, with errors, timeouts and drops at any await, free permits and tasks in the span add up to the limit |
| `ExtractReplies.HitsRepeatSuccesses` | src/util/extract.rs:439-450 | a cache hit repeats an earlier success for the same normalized URL, unless another URL of the run shares its hash |
| `ExtractReplies.HitsRepeatIffInjective` | src/gateway/mod.rs:51-55 | for any stock of URLs, every hit of every run over them repeats a success for its own normalized URL iff no two of those share a hash |
| `ExtractReplies.ForeignHit` | src/gateway/mod.rs:51-55 | a run in which a shared hash hands out another URL's reply |
| `ExtractReplies.CacheHoldsSuccessesOnly` | src/util/extract.rs:548-559 | whatever decodes under an extract key is a finished extraction of a URL with that hash; failures, timeouts and the searches sharing the cache leave nothing there |
| `ExtractLimiter.ParsesWithinLimitIff` | src/util/extract.rs:464-510 | in every run, running parses stay within the limit iff the parses whose caller is gone are no more than the free permits and the permit holders still fetching |
| `ExtractLimiter.ParsesAreUnbounded` | src/util/extract.rs:464-510 | with any positive limit there is, for every n, a run with n parses running |
| `ExtractLimiter.SemaphoreBoundsParsesIff` | src/util/extract.rs:464-510 | so some bound holds for the running parses of every run iff the limit is 0 |
| `SafeSearch.ApplySafeSearchFilter` | src/gateway/mod.rs:136-174 | the retain loop computes `Kept`; level 0 returns the input |
| `SafeSearch.DroppedIffListedRun` | src/gateway/mod.rs:160-172 | through the tokenizer: a result is dropped iff a maximal alphanumeric run of its title, snippet or host is, lower-cased, a word of the level's list |
| `SafeSearch.CaseDoesNotMatter` | src/gateway/mod.rs:160-172 | results whose title, snippet and host differ in ASCII case only are dropped alike, if `alnum` does not tell the two cases apart |
| `SafeSearch.ModerateSparesFourWords` | src/gateway/mod.rs:73-125 | the moderate list is the strict one without "adult", "sex", "nude" and "webcam" |
| `SafeSearch.KeptCounts` | src/gateway/mod.rs:145-173 | copy for copy, what is left out is exactly what is listed |
| `SafeSearch.StricterKeepsSubsequence` | src/gateway/mod.rs:73-174 | strict output is a subsequence of moderate output, and that of the input |
| `SafeSearch.FilterTwice` | src/gateway/mod.rs:136-174 | filtering at one level after another is filtering at the stricter one |
| `SafeSearch.FinalizeResults` | src/gateway/mod.rs:210-233 | the finished page: the front of the filtered results, at most as many as a page holds and never skipped again by page, with the number of all of them |
| `SafeSearch.PageIsFront` | src/gateway/mod.rs:210-233 | results are a prefix of the filtered ones, min(total, cap) of them, and total counts them before the cap |
| `SafeSearch.PageIsFiltered` | src/gateway/mod.rs:210-233 | a finished page passes the filter at its own and every looser level unchanged |
| `CacheKeys.SearchKeysAreHashes` | src/gateway/mod.rs:27-34 | two search keys are equal iff the 64-bit hashes are |
| `CacheKeys.ExtractKeysAreHashes` | src/gateway/mod.rs:51-55 | likewise two extract keys |
| `CacheKeys.KeySpacesAreDisjoint` | src/gateway/mod.rs:27-55 | no search key equals an extract key, whatever the hashes |
| `SearchGateway.SearchCache.LookUp` | src/gateway/http.rs:627-644 | the cache lookup: a decodable entry is a hit marked cached if the cache can be read; anything else, an unreachable cache too, is a miss |
| `SearchGateway.SearchCache.Complete` | src/gateway/http.rs:646-694 | an empty parse becomes an empty page; any other engine error leaves the cache alone; otherwise the finished page is stored and answered |
| `SearchGateway.EngineErrorsLeaveNothing` | src/gateway/http.rs:584-671 | a blocked, challenged, failed or panicked engine call ends the search with no page recorded or cached |
| `SearchGateway.EmptyParseIsAnAnswer` | src/gateway/http.rs:584-671 | no results is an answer, finished as an empty page |
| `SearchGateway.StepKeepsInv` | src/gateway/mcp.rs:521-618 | every step of either gateway, failed reads and writes, evictions, spoiled entries and the extract pipeline's own writes keep the cache honest |
| `SearchGateway.ResponsesAnswerTheRequest` | src/gateway/http.rs:609-695 | in every run without hash collisions a response, cached or fresh, is the finished page of an engine answer to that very request |
| `SearchGateway.ResponsesAreFiltered` | src/gateway/http.rs:609-695 | such a response is the front of what the filter leaves of one engine answer to its request: a prefix, min(total, cap) long, a fixed point of the filter at the level asked for, with the total before the cap |
| `SearchGateway.CollisionsShareAnswers` | src/gateway/mod.rs:27-34 | of two different requests under one hash the second is answered with the first one's page, without the engine being asked for it |
| `SearchGateway.AllAnsweredIffInjective` | src/gateway/mod.rs:27-34 | for any stock of requests, every response of every run over them answers its own request iff no two of them share a hash |
| `McpStdio.AnsweredIffNotNotification` | src/gateway/mcp.rs:246-287 | when exactly "answered" and "not a notification" (JSON-RPC 2.0, section 4.1) coincide |
| `McpStdio.RequestsLeftUnanswered` | src/gateway/mcp.rs:263-267 | `tools/list` (or any method) with a null id, and `notifications/initialized` with an id, are requests and get no answer |
| `McpStdio.AnswersKeepTheId` | src/gateway/mcp.rs:246-287 | an answer carries its message's own id, or null if that could not be read |
| `McpStdio.WhoIsAnsweredHow` | src/gateway/mcp.rs:246-287 | with an id, `initialize`, `tools/list` and `tools/call` get what their handler made and any other method but `notifications/initialized` gets -32601; unreadable text gets -32700 |
| `McpStdio.HandlerResultIsWritten` | src/gateway/mcp.rs:203-222 | what a known method's handler makes is what its task goes on to write |
| `McpStdio.ReadMessages` | src/gateway/mcp.rs:178-193 | the read loop dispatches the trimmed non-blank lines of the input, a last unterminated one too |
| `McpStdio.SentLinesAreMessages` | src/gateway/mcp.rs:178-193 | messages sent a line each are dispatched one by one, in order |
| `McpStdio.LinesReadBack` | src/gateway/mcp.rs:224-232 | whole lines and part of one read back as exactly those lines |
| `McpStdio.StepKeepsInv` | src/gateway/mcp.rs:198-236 | every partial write, lock hand-over, abort and permit step keeps the dispatcher's invariant |
| `McpStdio.StdoutIsWholeLines` | src/gateway/mcp.rs:164-168 | in every run stdout is whole response lines and at most the start of one more, of the task holding the lock |
| `McpStdio.ClientReadsResponses` | src/gateway/mcp.rs:164-168 | a client reading line by line sees exactly the finished responses |
| `McpStdio.OneResponseEach` | src/gateway/mcp.rs:208-214 | a message gets at most one response, with its own id, -32700 if it is unreadable and -32601 if its method is unknown, and a notification none |
| `McpStdio.AtMost32Active` | src/gateway/mcp.rs:171-206 | at most 32 tasks are being handled or waiting to write; free permits and those tasks are 32 together |
| `McpStdio.HolderCanProceed` | src/gateway/mcp.rs:224-235 | the task holding stdout always has a next step, so the lock is never stuck |
| `McpStdio.SpawningIsUnbounded` | src/gateway/mcp.rs:176-206 | with n messages there is a run with n spawned tasks and no permit taken |
| `McpStdio.SpawnedAtMostIff` | src/gateway/mcp.rs:176-206 | every run keeps to n spawned tasks iff the input has at most n messages |

## Left out

- General URL parsing, `Url::join`, percent-encoding of paths and Punycode: a URL is scheme, host, port, path, optional query and optional fragment, and `join` is arbitrary.
- The proxy branch of the fetch, TLS, real DNS, sockets and the per-request time limit of the client: the world the fetch loop runs against stands for them, with no proxy.
- `rs_trafilatura`, `lol_html`, `scraper` and `html_escape`: what they return is arbitrary.
- JSON text: compact output is assumed to hold no newline, and stored bytes either decode to what was stored or to nothing.
- The claim that the scanners are linear: an unclosed tag makes `find_tag_end` read the tail again for each opening, and cost is not modelled.
- The standard library's hasher: an arbitrary 64-bit function; what depends on its being injective says on which requests or URLs.
- ExtractCascade.ExtractFromHtml: lengths are compared exactly where the source divides `f64`s, and metadata fields are not carried.
- LazyRedis.AttemptsAreSpaced: an attempt starts at the clock reading stored in `last_attempt`, just before the connection is opened.
- McpStdio.StdoutIsWholeLines: write errors on stdout, and the process ending while a line is being written, are not modelled.
- McpStdio.OneResponseEach: at most one, not exactly one, since the end of input does not wait for tasks that are still running.
- SearchGateway.ResponsesAnswerTheRequest: one fixed `max_results_per_page`, which the cache key does not contain.
- The query trimming and 500-character limit, the trimming and lower-casing of the language code (HTTP only), `timing_ms`, logging, metrics and the health monitor.
- The rate limiter, API keys, CORS, compression and the outer timeouts of the HTTP router, which can end a request earlier than the budgets modelled here.
- Invalid UTF-8 on stdin, which ends the read loop with an error.
- Configuration checks, the plain (eager) Redis cache, the no-op cache, the body-size cap and the result-page parser.
