# RSSHub route cores in Dafny

This project models four RSSHub route modules and proves properties of the
models:

- **t66y** (`lib/routes/t66y/utils.ts`): content extraction for forum posts.
  - `killRedircdn` unwraps redirect-proxy links. It strips each line up to its last `?http`, turns each run of six underscores into a dot, and removes the first `&z`.
  - `parseContent` rewrites the first `div.tpc_content`. It drops `.t_like` widgets, promotes lazy-loaded images and unwraps links.
  - `removeInvalidChars` removes control characters, hexadecimal control entities and U+202E.
- **sukebei** (`lib/routes/sukebei/index.ts`): a serial enrichment pipeline.
  - It builds the listing URL and applies the row limit.
  - It turns rows into stubs, keeping a `null` stub for a row without a link.
  - It fetches each detail page with one escalation on HTTP 429, degrades to a fixed fallback item on failure, and processes the stubs in index order.
- **cbnweek** (`lib/routes/cbnweek/index.ts`): maps API posts to stubs: guid, link, joined authors and topic names. An enrichment producer fills in `description` in place, falling back to a fixed text when the article cannot be read.
- **kaiyan** (`lib/routes/kaiyan/index.ts`): validates the playback speed, keeps the `followCard` entries in order, and builds each item (default author, description embedding the speed).

The files:
- `common.dfy` holds `Option`, `Result` and the symbolic parsed date.
- `strings.dfy` holds JavaScript's string searches and the subsequence relation.
- Each route has its own module in its own file.

Modelling choices:
- Code that works by expressions (filters, maps, string building) is modelled by functions.
- Code that assigns step by step is modelled by methods proved against those functions: the listing URL, the reassigned `detailResponse` and the file-list `+=` loop.
- The cbnweek stub, which a producer changes in place, is a class.
- The network is an oracle parameter from URL (and, for sukebei, retry policy) to outcome. The cache is a map threaded through the calls.
- Sukebei records its pauses and fetches in an event trace, so the escalation order can be stated.

## Model

| member | source | states |
|---|---|---|
| T66y.KillRedircdn | lib/routes/t66y/utils.ts:5-10 | the three replacements in source order: strip through the last `?http` per line, turn `______` runs into dots, drop the first `&z`; its behaviour is stated by the lemmas below, ending with KillRedircdnRoundTrip |
| T66y.StripRedirectPrefix | lib/routes/t66y/utils.ts:6-9 | `replaceAll(/.*\?http/g, 'http')`: `.` stops at line terminators, so each line loses everything up to its last `?http`; stated by the three StripRedirectPrefix lemmas |
| T66y.StripLine | lib/routes/t66y/utils.ts:6-9 | one line under `/.*\?http/g`: everything through its last `?http` becomes `http`, a line without one is kept; stated by StripRedirectPrefixOnOneLine and StripRedirectPrefixWithoutMarker |
| T66y.ReplaceDotTokens | lib/routes/t66y/utils.ts:7-9 | `replaceAll(/______/g, '.')`, a left-to-right non-overlapping scan; stated by DotTokenRun, ReplaceDotTokensSplit and DotTokenRoundTrip |
| T66y.RemoveFirst | lib/routes/t66y/utils.ts:8-9 | `replace` with a string pattern; stated by RemoveFirstSound |
| T66y.RemoveFirstSound | lib/routes/t66y/utils.ts:8-9 | `replace` with a string pattern removes only the first occurrence; without one the string is unchanged |
| T66y.StripRedirectPrefixOnOneLine | lib/routes/t66y/utils.ts:6-9 | on a single line, everything up to and including the last `?http` becomes `http` |
| T66y.StripRedirectPrefixWithoutMarker | lib/routes/t66y/utils.ts:6-9 | a link without `?http` keeps its prefix, even across line breaks |
| T66y.StripRedirectPrefixLeavesNoMarker | lib/routes/t66y/utils.ts:6-9 | after the strip, a single-line link no longer contains `?http` |
| T66y.ShortRunUnchanged | lib/routes/t66y/utils.ts:7-9 | a run of fewer than six underscores is left alone |
| T66y.DotTokenRun | lib/routes/t66y/utils.ts:7-9 | a run of n underscores becomes n/6 dots followed by n%6 underscores (left to right, non-overlapping) |
| T66y.DotTokenExamples | lib/routes/t66y/utils.ts:7-9 | twelve underscores give `..`, seven give `._` |
| T66y.DotTokenRoundTrip | lib/routes/t66y/utils.ts:7-9 | writing each dot of an underscore-free text as six underscores is undone by the substitution |
| T66y.ReplaceDotTokensAfterPlainPrefix | lib/routes/t66y/utils.ts:7-9 | an underscore-free prefix passes the substitution unchanged |
| T66y.ReplaceDotTokensSplit | lib/routes/t66y/utils.ts:7 | the substitution works piecewise at any cut not followed by an underscore: no token spans such a cut |
| T66y.SuffixSurvivesSubstitution | lib/routes/t66y/utils.ts:7-9 | inside any link, the `&z` marker splits the substitution into its two sides and comes out untouched, so the later `replace` still finds it |
| T66y.RemoveFirstSuffixNotAnchored | lib/routes/t66y/utils.ts:8-9 | the first `&z` is removed wherever it is, with whatever follows it kept, another `&z` included |
| T66y.KillRedircdnRoundTrip | lib/routes/t66y/utils.ts:5-10 | a proxy link `p?http` + obfuscated target + `&z` unwraps to `http` + target, for any single-line target without an underscore, `?http` or `&z`; query strings with `?` and `&` included |
| T66y.ObfuscatedAbsent | lib/routes/t66y/utils.ts:6-8 | writing dots as underscores makes no underscore-free pattern appear, so the marker and the suffix stay unique in the wrapped link |
| T66y.ObfuscatedIsPlain | lib/routes/t66y/utils.ts:6-8 | the obfuscated target holds no line break, no `?http` and no `&z` |
| T66y.UnderscoreBeforeDotMoves | lib/routes/t66y/utils.ts:7 | a target `a_.b` is read back as `a._b`: an underscore before a dot joins its token |
| T66y.StripControls | lib/routes/t66y/utils.ts:64 | the first `replaceAll`; stated by StripControlsSound and StripControlsKeepsValid |
| T66y.StripControlEntities | lib/routes/t66y/utils.ts:65 | the second `replaceAll`, a left-to-right non-overlapping scan; stated by the StripControlEntities lemmas |
| T66y.StripRightToLeftOverride | lib/routes/t66y/utils.ts:66 | the third `replaceAll`; stated by StripRightToLeftOverrideSound and StripRightToLeftOverrideKeepsOthers |
| T66y.Sanitize | lib/routes/t66y/utils.ts:63-66 | the three passes, each run once, in source order; stated by SanitizeSound and SanitizeFixedPoints |
| T66y.StripControlsSound | lib/routes/t66y/utils.ts:64 | the first pass leaves a subsequence without U+0000–U+0008, U+000B, U+000C, U+000E–U+001F and keeps every other character |
| T66y.StripControlEntitiesSound | lib/routes/t66y/utils.ts:65 | the entity pass leaves a subsequence and keeps every character that cannot be part of an entity |
| T66y.EntityCountAtEntity | lib/routes/t66y/utils.ts:65 | matches do not overlap: after an entity the scan resumes six characters on |
| T66y.StripControlEntitiesLength | lib/routes/t66y/utils.ts:65 | the entity pass shortens the text by exactly six characters per entity it finds |
| T66y.StripControlEntitiesKeepsEntityFree | lib/routes/t66y/utils.ts:65 | text in which no `&#x1` + hex digit + `;` starts anywhere passes the entity pass unchanged (so `&amp;`, `&#x20;`, `&#X1F;` survive) |
| T66y.StripControlEntitiesFixedPoints | lib/routes/t66y/utils.ts:65 | the entity pass changes a text exactly when a control entity starts somewhere in it |
| T66y.ControlEntityDeleted | lib/routes/t66y/utils.ts:65 | `&#x1` + a hex digit of either case + `;` is deleted |
| T66y.AmpersandFreeKept | lib/routes/t66y/utils.ts:65 | text without `&` passes the entity pass unchanged |
| T66y.StripRightToLeftOverrideSound | lib/routes/t66y/utils.ts:66 | the last pass removes every U+202E and keeps every other character |
| T66y.StripControlsKeepsValid | lib/routes/t66y/utils.ts:64 | text with no invalid control is unchanged by the first pass |
| T66y.StripRightToLeftOverrideKeepsOthers | lib/routes/t66y/utils.ts:66 | text with no U+202E is unchanged by the last pass |
| T66y.SanitizeSound | lib/routes/t66y/utils.ts:63-66 | the three passes give a subsequence with no invalid control and no U+202E, keeping the count of every character that is neither a control, U+202E nor one that can belong to an entity |
| T66y.SanitizeFixedPoints | lib/routes/t66y/utils.ts:63-66 | the passes change a text exactly when it holds an invalid control, a U+202E or a control entity |
| T66y.RemoveInvalidChars | lib/routes/t66y/utils.ts:59-67 | a non-string is returned unchanged; a string comes back as a subsequence without invalid controls or U+202E, every other non-entity character kept, and unchanged exactly when it had nothing to remove |
| T66y.ShortTextKept | lib/routes/t66y/utils.ts:59-67 | a clean text of at most six characters that is not a control entity is returned unchanged |
| T66y.RemoveInvalidCharsKeepsCapitalX | lib/routes/t66y/utils.ts:65 | `&#X1F;` survives: the pattern's `x` is lower case only |
| T66y.RemoveInvalidCharsKeepsNamedEntity | lib/routes/t66y/utils.ts:65 | `&amp;` survives |
| T66y.RemoveInvalidCharsKeepsPrintableEntity | lib/routes/t66y/utils.ts:65 | `&#x20;` survives: only `&#x10;`–`&#x1F;` are matched |
| T66y.RemoveInvalidCharsExample | lib/routes/t66y/utils.ts:63-66 | `a`, BEL, `b`, U+202E, `c` becomes `abc` |
| T66y.RemoveInvalidCharsNotIdempotent | lib/routes/t66y/utils.ts:63-66 | any control entity `&#x1?;` written with U+202E after its `&#x` (such as `&#x` U+202E `1F;`) comes out as the entity, and a second call deletes it: one call is not idempotent |
| T66y.FirstPostContent | lib/routes/t66y/utils.ts:15 | `$('div.tpc_content').eq(0)` over the parsed page; stated by FirstPostContentMatches and FirstPostContentIsFirstElement |
| T66y.FirstPostContentMatches | lib/routes/t66y/utils.ts:15 | the element found is a `div` with the class `tpc_content` |
| T66y.FirstPostContentInDocumentOrder | lib/routes/t66y/utils.ts:15 | seen on tags alone: the found element's name and attributes are those of the first match in the preorder list of tags, and it exists exactly when one does (FirstPostContentIsFirstElement is the node-level statement) |
| T66y.FirstMatch | lib/routes/t66y/utils.ts:15 | the lowest-index `div.tpc_content` node of a list, and none exactly when no node matches |
| T66y.FirstMatchConcat | lib/routes/t66y/utils.ts:15 | the first match in `a + b` is the first in `a`, or else the first in `b` |
| T66y.FirstPostContentIsFirstElement | lib/routes/t66y/utils.ts:15 | the element found, subtree and all, is the first matching node of the page's preorder element list, so a later post with the same tag cannot stand in for it |
| T66y.RemoveLikeWidgets | lib/routes/t66y/utils.ts:16 | `content.find('.t_like').remove()`; stated by LikeWidgetsRemoved, LikeWidgetRemovalKeeps and LikeWidgetRemovalFixedPoints |
| T66y.LikeWidgetsRemoved | lib/routes/t66y/utils.ts:16 | no element with class `t_like` is left at any depth |
| T66y.NoLikeWidgetsKept | lib/routes/t66y/utils.ts:16 | a post without any `t_like` element is left exactly as it was |
| T66y.LikeWidgetRemovalFixedPoints | lib/routes/t66y/utils.ts:16 | the removal changes the post exactly when some element at some depth has the class `t_like` |
| T66y.Covered | lib/routes/t66y/utils.ts:16 | one mark per element of the post, in document order: whether it or an element it sits inside has the class `t_like` |
| T66y.LikeWidgetsCovered | lib/routes/t66y/utils.ts:16 | every element with the class `t_like` is marked |
| T66y.CoveredInside | lib/routes/t66y/utils.ts:16 | everything inside a `t_like` element is marked, so the whole subtree goes |
| T66y.LikeWidgetRemovalKeeps | lib/routes/t66y/utils.ts:16 | the removal keeps exactly the unmarked elements, in document order: an element goes exactly when it or an element it sits inside has the class `t_like` |
| T66y.PromoteLazyImage | lib/routes/t66y/utils.ts:31-39 | a non-empty `ess-data` becomes `src`; `ess-data` and `iyl-data` are always removed; no other attribute changes |
| T66y.UnwrapLink | lib/routes/t66y/utils.ts:48-54 | an `href` containing `redircdn` becomes its unwrapped form; other hrefs and all other attributes are unchanged |
| T66y.RewriteTree | lib/routes/t66y/utils.ts:31-54 | one `.find(tag).each(...)` loop over the post, as a tree rewrite; stated by RewriteTreeTags |
| T66y.RewriteTreeTags | lib/routes/t66y/utils.ts:31-54 | each `.each` loop changes every element as its body says and keeps the document order |
| T66y.RewriteContent | lib/routes/t66y/utils.ts:16-54 | the `.t_like` removal, then the image loop, then the link loop, on the children of the post; stated by RewriteContentSound and RewriteContentKeepsPlainPost |
| T66y.RewriteContentSound | lib/routes/t66y/utils.ts:15-54 | in the rewritten post no `t_like` element survives and no image keeps a lazy-loader attribute; in document order, every element of the post not inside a `t_like` element (nor one itself) comes out with the image rewrite and then the link rewrite applied, and no other element does |
| T66y.RewriteContentKeepsPlainPost | lib/routes/t66y/utils.ts:15-54 | a post without `t_like` elements keeps every element, in order, each with the two rewrites applied |
| T66y.ParseContent | lib/routes/t66y/utils.ts:12-57 | the result is `null` exactly when the page has no `div.tpc_content`; otherwise it is `removeInvalidChars` of the serialised children of the first post after the removal and the two rewrites |
| Sukebei.FilterParam | lib/routes/sukebei/index.ts:46 | the filter is the given one when non-empty, else `0` |
| Sukebei.ListingUrlOf | lib/routes/sukebei/index.ts:45-49 | the listing URL as an expression; stated by ListingUrlRoundTrip and computed step by step by BuildListingUrl |
| Sukebei.BuildListingUrl | lib/routes/sukebei/index.ts:46-49 | the conditionally extended URL is the listing URL of the parameters |
| Sukebei.ListingUrlRoundTrip | lib/routes/sukebei/index.ts:45-49 | the URL carries the effective filter, and `&c=` + category exactly when the category is non-empty; both can be read back |
| Sukebei.Limit | lib/routes/sukebei/index.ts:43 | without a (non-empty) `limit` query the limit is 30 |
| Sukebei.SliceEnd | lib/routes/sukebei/index.ts:56 | `slice(0, end)` semantics: NaN gives 0, a negative end counts from the back, a large one is clipped |
| Sukebei.TakeRows | lib/routes/sukebei/index.ts:55-56 | the rows used are a prefix of the listing, at most `limit` long |
| Sukebei.AbsoluteLink | lib/routes/sukebei/index.ts:66 | a link starting with `/` gets the root prefixed, any other is kept; the result never starts with `/` and ends with the link |
| Sukebei.RowToSlot | lib/routes/sukebei/index.ts:58-75 | a row without an href (or an empty one) gives `null`; otherwise the stub of its title, absolute link and date |
| Sukebei.MapRows | lib/routes/sukebei/index.ts:58-75 | one slot per row, each the row's mapped stub, in order |
| Sukebei.DropUndefined | lib/routes/sukebei/index.ts:76 | the filter leaves no `undefined` |
| Sukebei.DropUndefinedKeepsNull | lib/routes/sukebei/index.ts:62-76 | the filter changes nothing on the mapped rows: `null` stubs stay |
| Sukebei.Stubs | lib/routes/sukebei/index.ts:55-76 | slice, map and filter composed; stated by StubsOfRows |
| Sukebei.StubsOfRows | lib/routes/sukebei/index.ts:55-76 | one slot per kept row, in order |
| Sukebei.Escalate | lib/routes/sukebei/index.ts:84-99 | the first fetch uses retry 2/timeout 10000; only a 429 leads to a 2000 ms pause and one fetch with retry 1/timeout 15000, whose outcome is final; other errors propagate |
| Sukebei.FetchDetail | lib/routes/sukebei/index.ts:83-99 | the reassignment of `detailResponse` yields the escalation's outcome and events |
| Sukebei.EscalationBound | lib/routes/sukebei/index.ts:84-99 | one or two fetches per detail page, two and a pause exactly after a 429 |
| Sukebei.FirstMagnet | lib/routes/sukebei/index.ts:103 | the first href starting with `magnet:`, or `''` when there is none |
| Sukebei.FileLinesConcat | lib/routes/sukebei/index.ts:117-127 | the file list is the lines of its entries in order |
| Sukebei.FileListBlock | lib/routes/sukebei/index.ts:113-129 | the file-list block: the header, one line per entry and the footer, or nothing without a file list; computed step by step by RenderFileList and stated by FileLinesConcat |
| Sukebei.DescriptionHtml | lib/routes/sukebei/index.ts:105-111 | the rendered torrent description, or `''` without one; part of DetailItem's contract |
| Sukebei.RenderFileList | lib/routes/sukebei/index.ts:113-129 | the loop builds the header, one `name size` line per entry and the footer, or nothing without a file list |
| Sukebei.DetailItem | lib/routes/sukebei/index.ts:131-140 | the enriched item keeps the stub's title, link and date, and its description is the rendered text followed by the file-list block; the enclosure is the first magnet with the torrent type |
| Sukebei.FallbackItem | lib/routes/sukebei/index.ts:142-149 | the degraded item keeps title, link and date, has the rate-limit text and no enclosure |
| Sukebei.ProcessItem | lib/routes/sukebei/index.ts:78-150 | a `null` stub fails the handler, and an object stub never does |
| Sukebei.ProcessItemSound | lib/routes/sukebei/index.ts:78-150 | a cache hit is returned as stored, with no event; a miss pauses 500 ms and escalates, then yields the detail item, which is cached, or, when the escalation fails, the fallback item, which is not |
| Sukebei.ProcessItemKeepsStub | lib/routes/sukebei/index.ts:78-150 | every processed item has its stub's link, and, when freshly built, its title and date |
| Sukebei.StepOfSound | lib/routes/sukebei/index.ts:78-150 | `processItem` never replaces a cached entry, adds no key but its own link, and keeps items tied to their links |
| Sukebei.ProcessItemsSequentially | lib/routes/sukebei/index.ts:152-158 | the accumulator recursion, with the cache and the event trace threaded along; a throwing `processItem` ends it with the cache and trace so far; stated by the lemmas below |
| Sukebei.ProcessItemsSequentiallySound | lib/routes/sukebei/index.ts:152-158 | the output has the same length and order as the stubs; the run fails, with a `TypeError`, exactly when a stub is `null`; either way the trace only grows and the cache stays keyed by link |
| Sukebei.After | lib/routes/sukebei/index.ts:152-158 | the reference state after the first j stubs, each processed against the cache the earlier ones left: j items |
| Sukebei.AfterItem | lib/routes/sukebei/index.ts:156-157 | item j is the step applied to stub j against the cache the stubs before it left |
| Sukebei.SequentialFrom | lib/routes/sukebei/index.ts:152-158 | resuming the recursion at any index from the reference state reaches the reference state after all stubs |
| Sukebei.SequentialFails | lib/routes/sukebei/index.ts:152-158 | resuming the recursion before the first `null` stub fails at it with the state the stubs before it left |
| Sukebei.ProcessItemsSequentiallyFails | lib/routes/sukebei/index.ts:78-158 | a `null` stub throws only after every stub before it was processed: the failure carries the cache and trace those stubs left, their misses fetched and, when detailed, stored |
| Sukebei.ProcessItemsSequentiallyInOrder | lib/routes/sukebei/index.ts:152-158 | `out[j]` is `processItem(itemList[j])` run against the cache the earlier items left, one per stub, in index order |
| Sukebei.AfterKeepsEntries | lib/routes/sukebei/index.ts:80 | no later stub replaces an entry an earlier state had |
| Sukebei.AfterNewKeys | lib/routes/sukebei/index.ts:80 | the only keys added are links of stubs already processed |
| Sukebei.StepNewKey | lib/routes/sukebei/index.ts:80-149 | a key one `processItem` adds is its stub's link, and only when the escalating fetch succeeded |
| Sukebei.AfterNewKeysFetched | lib/routes/sukebei/index.ts:80-149 | every key the run adds is the link of a processed stub whose detail page was fetched; a fallback is never stored |
| Sukebei.CacheSeenDistinct | lib/routes/sukebei/index.ts:80 | with distinct links, each stub meets the starting cache's entry for its link, or none |
| Sukebei.AfterItemDistinct | lib/routes/sukebei/index.ts:78-158 | with distinct links, stub j becomes the stored item, the detail item or the fallback item, chosen by the starting cache and its escalation, with the matching events |
| Sukebei.AfterEventsDistinct | lib/routes/sukebei/index.ts:152-158 | with distinct links, each stub appends its own events to the trace |
| Sukebei.AfterTraceDistinct | lib/routes/sukebei/index.ts:152-158 | with distinct links, the trace is, stub by stub in index order, nothing for a hit and the 500 ms pause plus the escalation for a miss |
| Sukebei.AfterStoresMiss | lib/routes/sukebei/index.ts:80-140 | with distinct links, a miss that gets its detail page leaves its item in the final cache under its link |
| Sukebei.AfterCacheDistinct | lib/routes/sukebei/index.ts:80-140 | with distinct links, the final cache keeps every starting entry, holds each detailed miss's item under its link, and every other new key is the link of a stub whose escalating fetch succeeded, so no fallback is ever stored |
| Sukebei.DistinctStubsClosedForm | lib/routes/sukebei/index.ts:152-158 | with distinct links, item j is what stub j alone becomes against the starting cache, and the trace is the stubs' events in index order |
| Sukebei.AfterLinks | lib/routes/sukebei/index.ts:156-157 | every item carries its stub's link, and the cache stays keyed by link |
| Sukebei.ProcessRows | lib/routes/sukebei/index.ts:55-160 | over the listing's kept rows the run fails exactly on a row without a link; otherwise it is the reference state over one stub per kept row, item j carrying row j's absolute link |
| Sukebei.ProcessRowsFails | lib/routes/sukebei/index.ts:55-160 | the run fails exactly on a kept row without a link, and succeeds exactly when every stub is an object |
| Sukebei.Handler | lib/routes/sukebei/index.ts:40-167 | the whole route as a function of the query, the fetch oracles and the shared cache, a failure carrying the cache and trace it leaves; stated by HandlerSound |
| Sukebei.HandlerSound | lib/routes/sukebei/index.ts:40-167 | a failed listing fetch fails the handler with the cache untouched; otherwise it fails exactly on a kept row without a link, with the sequential run's failure (cache and trace so far), and the feed is the sequential processing of the stubs under the fixed title and root link, with its cache and trace |
| Cbnweek.Join | lib/routes/cbnweek/index.ts:39 | `join(', ')` over the names; stated by JoinConcat and JoinLength |
| Cbnweek.JoinConcat | lib/routes/cbnweek/index.ts:39 | joining two non-empty lists puts one `, ` between their joins |
| Cbnweek.JoinLength | lib/routes/cbnweek/index.ts:39 | one separator between consecutive names, a missing name rendering as empty |
| Cbnweek.ArticleLink | lib/routes/cbnweek/index.ts:37 | the link is the article prefix followed by the post id |
| Cbnweek.ArticleApiUrl | lib/routes/cbnweek/index.ts:48 | the article API URL of a guid, which DescriptionFor fetches |
| Cbnweek.StubOf | lib/routes/cbnweek/index.ts:32-42 | the stub of the first post: its id as guid, its link, title and date; joined authors and topic names, each missing when absent; an entry without posts throws |
| Cbnweek.Stubs | lib/routes/cbnweek/index.ts:32-42 | `response.data.map(...)`; stated by StubsSound |
| Cbnweek.StubsSound | lib/routes/cbnweek/index.ts:32-42 | one stub per entry in order, failing exactly when an entry has no post |
| Cbnweek.StubLinks | lib/routes/cbnweek/index.ts:46 | the cache keys, one per stub, in order |
| Cbnweek.FallbackDescription | lib/routes/cbnweek/index.ts:57 | the fallback is the fixed prefix followed by the title |
| Cbnweek.DescriptionFor | lib/routes/cbnweek/index.ts:46-60 | the article's `content` on success; the fallback when the fetch or the `data` access fails |
| Cbnweek.Article.constructor | lib/routes/cbnweek/index.ts:34-41 | the stub object carries the mapped fields and no description |
| Cbnweek.Article.Value | lib/routes/cbnweek/index.ts:60 | the object the producer returns holds the stub fields and the current description |
| Cbnweek.Article.Produce | lib/routes/cbnweek/index.ts:46-61 | the producer never throws and sets the description as above; the other fields are constants |
| Cbnweek.TryGetValue | lib/routes/cbnweek/index.ts:46-61 | what `tryGet` yields per stub: the stored value on a hit, else the stub with DescriptionFor; TryGet and EnrichAll are proved against it |
| Cbnweek.Store | lib/routes/cbnweek/index.ts:44-63 | the cache after the run, each miss stored under its link; stated by StoreKeeps, StoreKeys, StoreMissed and StoreKeyed |
| Cbnweek.StoreKeeps | lib/routes/cbnweek/index.ts:44-63 | the entries the cache had before the run stay as they were |
| Cbnweek.StoreKeys | lib/routes/cbnweek/index.ts:44-63 | a key is cached afterwards exactly when it was before or is some stub's link |
| Cbnweek.StoreMissed | lib/routes/cbnweek/index.ts:44-63 | a stub that missed has its completed object stored under its link, unless a later stub with that link overwrote it |
| Cbnweek.StoreKeyed | lib/routes/cbnweek/index.ts:44-63 | storing objects under their own links keeps the cache keyed by link |
| Cbnweek.TryGet | lib/routes/cbnweek/index.ts:46-61 | a hit returns the stored value and leaves the stub object and the cache alone; a miss completes the stub object in place, returns it and stores it under its link |
| Cbnweek.EnrichAll | lib/routes/cbnweek/index.ts:44-63 | one item per stub in order, each `tryGet`'s value against the cache from before the run; a hit leaves the stub object untouched, a miss completes it in place; the cache afterwards is the old one with each miss stored |
| Cbnweek.Handler | lib/routes/cbnweek/index.ts:21-70 | the feed has one item per entry in order, with the fixed title and link, each the cached value or the stub with its description, and the cache after it is Store; a failed listing fetch or an entry without a post fails with the cache untouched; a cache keyed by link stays so |
| Kaiyan.Speed | lib/routes/kaiyan/index.ts:28-32 | the speed is 1 without a query, the parsed value when it lies in [0.25, 4], and 1 otherwise (NaN, infinities, out of range) |
| Kaiyan.RequestedSpeed | lib/routes/kaiyan/index.ts:28 | the parsed `speed` query, or 1 without one; validated by Speed |
| Kaiyan.FollowCards | lib/routes/kaiyan/index.ts:40 | only `followCard` entries remain |
| Kaiyan.FollowCardsConcat | lib/routes/kaiyan/index.ts:38-41 | the filter keeps the original order |
| Kaiyan.FollowCardsMembers | lib/routes/kaiyan/index.ts:40 | an entry is kept exactly when it is a `followCard` |
| Kaiyan.Author | lib/routes/kaiyan/index.ts:50 | the author's name when present, an empty one included, otherwise the default author |
| Kaiyan.ImageTag | lib/routes/kaiyan/index.ts:48 | the cover `<img>` tag; placed by DescriptionLayout |
| Kaiyan.VideoTag | lib/routes/kaiyan/index.ts:49 | the `<video>` template; stated by VideoTagEmbedsSpeed |
| Kaiyan.VideoTagEmbedsSpeed | lib/routes/kaiyan/index.ts:49 | the video tag plays the URL at the speed in `playbackRate`, `defaultPlaybackRate` and the `onloadeddata` handler |
| Kaiyan.Description | lib/routes/kaiyan/index.ts:51 | the concatenation; stated by DescriptionLayout |
| Kaiyan.DescriptionLayout | lib/routes/kaiyan/index.ts:48-51 | the description is the text, a break, the cover image, a break and the video tag |
| Kaiyan.ItemFor | lib/routes/kaiyan/index.ts:45-59 | the item's link is the video URL (also its cache key), with its title, author, description and UTC date |
| Kaiyan.TryGet | lib/routes/kaiyan/index.ts:45-60 | `cache.tryGet(videoUrl, producer)`: the stored item on a hit, the producer's item otherwise; used by EnrichAll |
| Kaiyan.EnrichAll | lib/routes/kaiyan/index.ts:38-62 | one `tryGet` per kept entry, in order, against the cache as it was before the run |
| Kaiyan.Stored | lib/routes/kaiyan/index.ts:45-60 | the cache after the run, each miss stored under its video URL; stated by StoredKeys, StoredKeeps, StoredMiss, StoredSound and StoredKeyed |
| Kaiyan.StoredKeys | lib/routes/kaiyan/index.ts:45 | every card's URL ends up cached and no other key is added |
| Kaiyan.StoredKeeps | lib/routes/kaiyan/index.ts:45 | an entry is replaced only under the URL of a card that missed |
| Kaiyan.StoredMiss | lib/routes/kaiyan/index.ts:45-60 | a card that missed has its item stored under its URL unless a later card with that URL overwrote it |
| Kaiyan.StoredSound | lib/routes/kaiyan/index.ts:45-60 | the run keeps every entry already cached, caches every video URL and nothing else, and stores each missed card's item under its URL (the last such card's for a repeated URL) |
| Kaiyan.StoredKeyed | lib/routes/kaiyan/index.ts:45-60 | a cache keyed by link stays so |
| Kaiyan.Handler | lib/routes/kaiyan/index.ts:27-70 | a failed fetch or an empty `itemList` fails; otherwise the feed has the fixed title, link and description, its items are `tryGet` for each `followCard` entry of the first section at the validated speed, and the cache is the old one with each miss stored |
| Kaiyan.HandlerItems | lib/routes/kaiyan/index.ts:38-62 | with a cache keyed by link, there is one item per `followCard` entry, in order: the cached item on a hit, the freshly built item at the validated speed on a miss, each linked to its card's video; every video URL is cached afterwards and the cache stays keyed |

## Left out

- Network access, and the retries `ofetch` performs inside one call, are not modelled. Fetch outcomes are oracle parameters; the retry policy passed is recorded in the event trace.
- HTML parsing is outside the model: cheerio, CSS selector matching beyond tag names and class tokens, `.text()`, `.trim()`, and `.html()` serialisation. Pages arrive already parsed, texts already trimmed, and serialisation is a function parameter.
- `parseContent` mutates the DOM in place. Here it is modelled on values (a tree rewrite), so the aliasing of cheerio nodes is not captured.
- Some external utilities are parameters or symbols, not models:
  - `markdown-it` rendering, `Number.parseInt`, `Number.parseFloat`, number-to-string formatting and `toUTCString` are parameters.
  - `parseDate` yields a symbolic date holding its source text.
- The delays are events in a trace; no time passes.
- Cache internals are not modelled: expiry, serialisation of cached values, errors of the cache backend itself, and the deduplication of concurrent producers for one key. The cache is a map of stored values.
- Cbnweek.EnrichAll: with `Promise.all`, every lookup sees the cache from before the run, and the producers run in list order. Other interleavings are not modelled, and neither is which of two stubs sharing a link is stored last.
- Kaiyan.EnrichAll: the same simplification for the `Promise.all` in the kaiyan handler.
- The `Promise.all` write order is not modelled. When two cbnweek stubs or two kaiyan cards share a link and both miss, the model stores the later one's value under that link. Cbnweek.StoreMissed, Kaiyan.StoredMiss and Kaiyan.StoredSound state the stored value only for the last stub or card with its link.
- The fetch oracles do not depend on time. Two sukebei stubs with the same link therefore see the same outcomes. Sukebei.DistinctStubsClosedForm and the lemmas beside it state the closed form for distinct links only; Sukebei.ProcessItemsSequentiallyInOrder covers repeated links against the threaded cache.
- That every cached item is stored under its own link (`CacheKeyed`) is an assumption about the shared cache, not something a caller guarantees. It appears as a `requires` only on lemmas (Sukebei.HandlerSound, Sukebei.ProcessRows, Kaiyan.HandlerItems and the like) and as a premise in Cbnweek.Handler's last `ensures`; the handlers themselves take any cache.
- The cbnweek stub fields other than `description` are constants of the Article class, since no code assigns them after the object literal is built.
- Sukebei.ProcessItem: its own contract states only when it fails; its hit, miss, fetch and caching behaviour is stated by Sukebei.ProcessItemSound beside it.
- `logger.warn` and the route metadata objects (`route`, `radar`, `features`) are not modelled. Neither is the unused `baseUrl` export in `lib/routes/t66y/utils.ts`.
- JavaScript strings are UTF-16 code units, while a Dafny `string` holds Unicode scalar values, so a lone surrogate in a post or an href cannot be represented. None of the modelled regular expressions behave differently on text that can be represented.
- The commented-out video and input handlers in `parseContent` are not modelled.
- Missing fields are not modelled where the code would read them and render `undefined` into a string or throw. That covers post fields in cbnweek and card fields in kaiyan, beyond the absences the contracts name.

## Behaviour of the code worth knowing

- A target holding an underscore does not survive the unwrap: in `a_.b` the underscore joins the six written for the dot, so the substitution in `killRedircdn` reads it back as `a._b` (T66y.UnderscoreBeforeDotMoves).
- `killRedircdn` strips only through `?http`, not through a query parameter whose value starts with `http`. `https://host/redircdn?url=http______example.com%2Fpage&z` contains no `?http` (it has `?url=http`), so the prefix is kept and the result is `https://host/redircdn?url=http.example.com%2Fpage`, not `http.example.com/page`. The model follows the code.
- `removeInvalidChars` is not idempotent, because each pass runs once. Removing U+202E can assemble a control entity that the earlier entity pass has already skipped, so the sanitiser is not idempotent. `T66y.RemoveInvalidCharsNotIdempotent` proves this for every such entity. The model follows the code.
- Degradation is not always item-local in the code:
  - A sukebei row without a link becomes a `null` stub that the filter keeps. Its fallback then dereferences `null`, and the whole handler fails. The stubs before it have already been processed by then, so their detail items stay in the shared cache; Sukebei.ProcessItemsSequentiallyFails states this.
  - A cbnweek entry without posts fails the whole mapping.
  - An empty kaiyan `itemList` fails the handler.
- A cbnweek article response whose `data` has no `content` leaves the description `undefined`; no fallback is written.
