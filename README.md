# seo-god-mode core, modelled in Dafny

This project models the deterministic core of the seo-god-mode content optimiser, a React
single-page app that crawls a WordPress sitemap, ranks pages by opportunity and
generates or refreshes articles with AI providers. The model covers the following.

- **Network racer** (`Network`, `SmartCrawl`):
  - which fetch strategies `fetchWithProxies` uses, with and without credentials;
  - which responses qualify, and how the earliest qualifying one wins;
  - the exhaustion error;
  - the Jina and DOM gates of `smartCrawl`, and its two-way race.
- **Content utilities** (`ContentUtils`):
  - regular-expression escaping;
  - the readability verdict ladder;
  - YouTube id extraction;
  - word-count enforcement;
  - the capped, de-duplicated video accumulation loop.
- **Generated articles** (`Generated`):
  - default filling and image padding in `normalizeGeneratedContent`;
  - the four steps of `postProcessGeneratedHtml`: boilerplate removal, the key-takeaways box, the verification footer and the video embed;
  - placeholder substitution in `processInternalLinks`.
- **Sitemap crawl** (`Sitemap`):
  - the worklist loop of `handleCrawlSitemap`: queue, visited list, the 100-sitemap cap and the url→lastmod map;
  - page construction with the staleness rule;
  - the merge that preserves analysed pages.
- **Content hub state** (`Hub`):
  - the hub filter and pagination;
  - selection and sort toggles;
  - the cooperative stop set, as a class whose methods update it in place;
  - the god-mode log callback;
  - line splitting of text areas.
- **Components** (`Components`):
  - the MoneyPanel opportunity ranking and its score badge;
  - the `ApiKeyInput` field naming and its round trip with `App.tsx`;
  - the key status icon.

`Text` models the JavaScript string and array built-ins these use: `split`/`join`,
`trim`, `indexOf`, `toLowerCase`, `filter` and a few regular-expression replacements. `Pages`
holds the `SitemapPage` record.

Loops in the source are methods with loop invariants. Each is proved equal to a specification function, and the properties are proved about those functions:
- the image padding loop;
- the video accumulation loops;
- the sitemap worklist;
- the child-sitemap and url-entry loops;
- the stop loop.

Where the source's names promise more than its code does, the model follows the code:
- the hub list is filtered but never sorted;
- the maximum word count is never checked;
- the `candidates` list of `processInternalLinks` is computed but never used, so every page is searched.

## Model

| member | source | states |
|---|---|---|
| ContentUtils.EscapeRegExp | contentUtils.tsx:5-7 | the escaped string is one character longer for every special character; a special first character gets a backslash, and any other first character is kept |
| ContentUtils.EscapeRegExpReadsBack | contentUtils.tsx:5-7 | read as a regular-expression literal, where a special character must come escaped and a bare one is refused, the escaped pattern matches exactly the input string |
| ContentUtils.EscapeRegExpAppend | contentUtils.tsx:5-7 | escaping works character by character: the escape of a concatenation is the concatenation of the escapes |
| ContentUtils.EscapeRegExpChar | contentUtils.tsx:5-7 | a special character becomes a backslash followed by itself, and any other character is kept |
| ContentUtils.BareSpecialIsNoLiteral | contentUtils.tsx:5-7 | a pattern with an unescaped `.` is not a literal, so leaving a special character bare would not read back |
| ContentUtils.ReadabilityVerdict | contentUtils.tsx:27-35 | every score gets one of the seven verdicts of the ladder, shown in the colour the source gives that verdict |
| ContentUtils.VerdictRankCountsThresholds | contentUtils.tsx:27-35 | the verdict's rank equals the number of thresholds (30, 50, 60, 70, 80, 90) the score reaches |
| ContentUtils.VerdictMonotone | contentUtils.tsx:27-35 | a higher score never gets a harder verdict |
| ContentUtils.ExtractYouTubeID | contentUtils.tsx:37-41 | an extracted id is exactly 11 characters, none of them `#`, `&` or `?` |
| ContentUtils.LastWhereGreatest | contentUtils.tsx:38 | the greedy `.*` selects the last URL marker on the first line: no marker occurs after it, and none at all when nothing is found |
| ContentUtils.EmbedUrlRoundTrip | contentUtils.tsx:37-41 | extracting the id from the embed URL of an 11-character id free of `# & ? / =` gives back that id |
| ContentUtils.StripTags | contentUtils.tsx:139 | after tags are replaced by spaces, no `<` is followed later by a `>` |
| ContentUtils.EnforceWordCount | contentUtils.tsx:138-143 | succeeds exactly when the counted words reach `minWords` and returns the count; otherwise it fails with the too-short error carrying the content and the count |
| ContentUtils.NeverTooLong | contentUtils.tsx:138-143 | the result does not depend on `maxWords`, and content with at least `minWords` words is accepted with its count, however many words it has |
| ContentUtils.PlainTextWordCount | contentUtils.tsx:139-140 | plain text made of n space-separated words counts as n words |
| ContentUtils.GatherQuery | contentUtils.tsx:161-167 | accumulating one query's hits keeps the earlier videos as a prefix and keeps the list well formed: at most two videos, distinct ids, embed URLs built from the ids |
| ContentUtils.GatherQueryComplete | contentUtils.tsx:161-167 | while the list is not full, every id extracted from a reached link ends up in it |
| ContentUtils.GatherQueryKeeps | contentUtils.tsx:161-167 | an id already in the list stays in it |
| ContentUtils.GatherQueryHits | contentUtils.tsx:161-167 | the inner loop, with its early break, computes `GatherQuery` |
| ContentUtils.GetGuaranteedYoutubeVideos | contentUtils.tsx:145-171 | an empty key gives no videos; otherwise the outer loop over the three queries computes `GatherAll` over their results, a well-formed list of at most two videos |
| Network.Earliest | contentUtils.tsx:73-76 | the race picks the fulfilled entry that finished first (the lowest index on a tie), and nothing exactly when every entry is rejected |
| Network.EarliestIsUnique | contentUtils.tsx:73-76 | a fulfilled entry that finishes strictly before every other fulfilled one is the winner |
| Network.EncodeURIComponent | contentUtils.tsx:46 | the encoding is made of unreserved characters and percent escapes only, and leaves a string of unreserved characters unchanged |
| Network.EncodedHasNoDelimiters | contentUtils.tsx:46 | the encoded address contains none of `/ ? # & = :` or space |
| Network.AuthStrategies | contentUtils.tsx:53-58 | with credentials the plan is the address itself, then corsproxy with the encoded address, neither with a timeout; no other relay sees the request |
| Network.RaceStrategies | contentUtils.tsx:60-69 | without credentials the plan races the address itself, corsproxy and allorigins with the encoded address, and thingproxy with the raw address, with timeouts 4000, 8000, 8000 and 10000 ms |
| Network.Settle | contentUtils.tsx:73-76 | an attempt fulfils exactly when it answers in time with a qualifying response, at its finishing time and with that response |
| Network.AuthUsesTrustedPathOnly | contentUtils.tsx:53-58 | with credentials the direct response is returned whenever one arrives, with any status; when the direct request fails outright, corsproxy's response is returned, with any status; the call fails, with the request failure, exactly when both requests fail |
| Network.AnonymousRace | contentUtils.tsx:71-80 | without credentials the result is the earliest in-time qualifying response; the call fails with the exhaustion message exactly when none qualifies |
| Network.ClientErrorsQualify | contentUtils.tsx:74 | a not-ok client-error (4xx) response qualifies and wins like a success, while the server error 100 above it does not |
| Network.RaceFinishIsWinner | contentUtils.tsx:71-77 | a race that delivers a response delivers it at the finishing time of the strategy that won |
| SmartCrawl.JinaStrategy | contentUtils.tsx:88-98 | the Jina text is accepted exactly when the response is ok and the text is non-empty, at least 200 characters and free of "Access Denied"; it is cut to 35000 characters |
| SmartCrawl.DomStrategy | contentUtils.tsx:100-118 | the DOM text, with whitespace collapsed and trimmed, is accepted exactly when the racer fetched it and it is at least 200 characters; it is cut to 30000 characters |
| SmartCrawl.CrawlFailsOnlyWhenBothFail | contentUtils.tsx:120-128 | the crawl fails exactly when both strategies fail; otherwise it returns the text of the one that finished first |
| SmartCrawl.CrawledTextShape | contentUtils.tsx:95-96 | crawled text has 200 to 35000 (Jina) or 30000 (DOM) characters; Jina text never contains "Access Denied"; DOM text is single-spaced with no leading space |
| SmartCrawl.JinaTextShape | contentUtils.tsx:93-96 | a text the Jina strategy accepts has 200 to 35000 characters and no "Access Denied" |
| SmartCrawl.DomTextShape | contentUtils.tsx:113-116 | a text the DOM strategy accepts has 200 to 30000 characters, is single-spaced and does not start with a space |
| SmartCrawl.DomAfterRacer | contentUtils.tsx:104-116 | the DOM strategy can only finish after the racer has delivered its page: `extractMs` after the winning relay finished |
| SmartCrawl.DomIgnoresStatus | contentUtils.tsx:104-116 | a 404 page returned by the racer is extracted like any other |
| Generated.Slugify | contentUtils.tsx:176 | the default slug consists of lower-case word characters and dashes only |
| Generated.SlugifyIdempotent | contentUtils.tsx:176 | slugifying a slug changes nothing |
| Generated.PaddedImages | contentUtils.tsx:179-188 | the image list keeps its entries in order and is padded to three, each added entry numbered by its position |
| Generated.Normalized | contentUtils.tsx:173-199 | a non-empty title, slug, meta description or keyword is kept, and so are the content and every list or schema given; a missing one gets its default: the item title, the slug of the item title, "Guide on <title>.", the item title as keyword, an empty list or an empty schema |
| Generated.NormalizedImages | contentUtils.tsx:179-188 | the normalised images are at least three, begin with the given ones, and the k-th added one has placeholder `[IMAGE_k]` |
| Generated.NormalizeGeneratedContent | contentUtils.tsx:173-199 | the method with its padding loop computes `Normalized` |
| Generated.NormalizedIsStable | contentUtils.tsx:173-199 | normalising already normalised content changes nothing |
| Generated.RemoveBoilerplate | contentUtils.tsx:228 | removing the phrases never lengthens the text |
| Generated.RemoveBoilerplateDropsPhrase | contentUtils.tsx:228 | a leading "Sources Scanned", "Read Time" or "Word count", in any letter case, disappears |
| Generated.RemoveBoilerplateKeepsText | contentUtils.tsx:228 | text with no phrase starting in it is copied unchanged |
| Generated.RemoveBoilerplateClean | contentUtils.tsx:228 | a text with no phrase anywhere is left as it is |
| Generated.FindH2 | contentUtils.tsx:238 | a found heading start is at or after the search position and matches `<h2` ignoring case |
| Generated.FindH2Least | contentUtils.tsx:238 | the found `<h2` is the first one; when none is found there is none |
| Generated.TakeawaysPosition | contentUtils.tsx:237-249 | the insertion point is zero exactly when there is no `<h2` or no `</h2>` after it, and otherwise lies right after a `</h2>` |
| Generated.TakeawaysAfterFirstHeading | contentUtils.tsx:238-243 | that `</h2>` is the first one after the first `<h2` |
| Generated.WithTakeaways | contentUtils.tsx:230-250 | the box is inserted at the insertion point unless the text already has a takeaways box or there are no takeaways |
| Generated.WithTakeawaysIdempotent | contentUtils.tsx:230-250 | inserting the takeaways twice is the same as once |
| Generated.SecondParagraphEnd | contentUtils.tsx:260-264 | the cut lies right after the second `</p>`, with the two `</p>`-free paragraphs before it and the remaining segments after it |
| Generated.SpliceAfterSecondParagraph | contentUtils.tsx:260-264 | splicing a segment in at index 2 of the `</p>` split puts it, followed by `</p>`, right after the second paragraph end |
| Generated.EmbedVideo | contentUtils.tsx:259-265 | with a video and more than three segments, the first video's player is placed after the second paragraph end; otherwise the text is unchanged |
| Generated.PostProcessGeneratedHtml | contentUtils.tsx:226-267 | the result is the boilerplate-free text with the takeaways box, then the footer unless refreshing, then the video placed as `EmbedVideo` states |
| Generated.PlaceholderAt | contentUtils.tsx:273 | a placeholder found at the start of the text begins with `[` and the opening in some letter case, ends at a `]` and captures a non-empty keyword without `]` |
| Generated.PlaceholderFound | contentUtils.tsx:273 | every spelling the case-insensitive pattern matches is found: the opening in any letter case, any white space before the keyword, and the first `]` after it closing the placeholder |
| Generated.PlaceholderMissing | contentUtils.tsx:273 | when nothing is found after a matching opening, no `]` closes a non-empty keyword |
| Generated.Capture | contentUtils.tsx:273 | the captured keyword is the bracket body without its leading white space, or its last character when the body is all white space, as the greedy `\s*` followed by `[^\]]+` gives |
| Generated.PlaceholderRoundTrip | contentUtils.tsx:273 | a placeholder written around a keyword is recognised with exactly that keyword and length |
| Generated.FindPage | contentUtils.tsx:274 | the target is the first page whose lower-cased title contains the lower-cased keyword, and none exactly when no page's does |
| Generated.LinkFor | contentUtils.tsx:274-278 | the replacement is the anchor to the target page, or the bare keyword when there is none |
| Generated.LinksKeepPlainText | contentUtils.tsx:269-281 | text outside placeholders is copied unchanged |
| Generated.PlaceholderReplaced | contentUtils.tsx:269-281 | every placeholder the pattern matches, in any letter case and spacing, becomes the link for the keyword it captures, and the text after it is processed on its own |
| Generated.ProcessInternalLinks | contentUtils.tsx:269-281 | a text without `[` holds no placeholder and comes back unchanged |
| Sitemap.RecordAllLastWins | App.tsx:310-316 | the lastmod recorded for a trimmed page address is that of its last entry |
| Sitemap.QueueChildren | App.tsx:306-310 | the queue grows by exactly `Queued` of the children: after the existing queue, every non-empty child not yet crawled, trimmed, in document order, and nothing else |
| Sitemap.QueuedFrom | App.tsx:308-309 | every queued address is the trimmed form of a non-empty child that was not yet crawled |
| Sitemap.QueuedCovers | App.tsx:308-309 | every non-empty child not yet crawled is queued, trimmed |
| Sitemap.RecordUrls | App.tsx:311-316 | the url-entry loop records the entries as `RecordAll` does |
| Sitemap.CrawlSitemaps | App.tsx:289-317 | the loop computes `SitemapCrawl`: first in, first out, skipping blank and crawled addresses, at most 100 fetched; every crawled address after the first was listed by one crawled before it; crawled addresses start with the given one and are distinct and non-blank; a finished crawl holds every fetched page entry and, under the cap, reached every child sitemap; an aborted one stops at its first failed fetch with "Error: " and the fetch error |
| Sitemap.SitemapCrawl | App.tsx:289 | the crawl needs input exactly when the address is empty, and an aborted crawl names the address it stopped at |
| Sitemap.CrawlFromShape | App.tsx:294-317 | a crawl finishes with the `<url>` entries of the crawled sitemaps recorded in crawl order, or aborts at an address whose fetch failed, with "Error: " and that failure's message |
| Sitemap.CrawlFromReached | App.tsx:294-310 | from a queue of reached addresses, every address crawled later was listed as a `<sitemap>` child by a sitemap crawled before it |
| Sitemap.CrawlReached | App.tsx:292-310 | every sitemap the crawl fetches after the given one was listed by a sitemap fetched before it |
| Sitemap.NewPage | App.tsx:319-331 | a new page is idle, unanalysed and keyed by its address; `daysOld` is absent without a lastmod; it is stale exactly when older than 365 days |
| Sitemap.DiscoveredPages | App.tsx:319-331 | one new page per recorded address, in the order the addresses were first seen |
| Sitemap.DiscoveredIdsDistinct | App.tsx:319-331 | the discovered pages have distinct ids, the recorded addresses |
| Sitemap.ById | App.tsx:335 | the lookup holds every previous id, mapped to the last page with that id |
| Sitemap.MergeOne | App.tsx:337-341 | a page that was analysed keeps its status, analysis, health score and priority; any other page is the fresh record |
| Sitemap.Merge | App.tsx:334-343 | the merged list is exactly the discovered pages, in order, each merged with its previous record |
| Sitemap.MergeIdempotent | App.tsx:334-343 | merging the same discovery again changes nothing |
| Sitemap.RacerFailureMessage | App.tsx:302 | a sitemap fetch without credentials fails with the racer's exhaustion message |
| Sitemap.HandleCrawlSitemap | App.tsx:288-346 | an empty address reports "Enter URL."; an aborted crawl keeps the pages and reports "Error: " with the exhaustion message of the address that failed; a finished crawl reports "Found n pages." with the merged list of the n pages recorded from the crawled sitemaps |
| Hub.HubFilter | App.tsx:248-253 | a page is kept exactly when it matches the priority filter (or the filter is "All") and its title or id contains the search text ignoring case; every copy of a kept page stays and order is kept |
| Hub.PageOf | App.tsx:256-259 | a page of the hub holds at most 20 items: the clipped slice starting at (page - 1) * 20 |
| Hub.TotalPages | App.tsx:261 | the page count is the least number of 20-item pages that holds the list |
| Hub.PagesCoverList | App.tsx:256-261 | the pages up to the page count give back the whole list, and any page beyond it is empty |
| Hub.Toggle | App.tsx:280 | toggling flips the membership of that id only |
| Hub.ToggleTwice | App.tsx:353 | toggling an id twice restores the selection |
| Hub.SelectAll | App.tsx:281 | select-all clears when the selection's size equals the visible count, and otherwise selects exactly the visible ids |
| Hub.SelectAllTwiceClears | App.tsx:354 | with distinct visible ids, two select-all clicks from a partial selection clear it |
| Hub.SelectAllComparesCounts | App.tsx:281 | select-all compares only sizes: a selection of one other id is cleared rather than replaced |
| Hub.NextSort | App.tsx:246 | the sort switches to the clicked key, descending exactly when that key was already ascending |
| Hub.SortClicksAlternate | App.tsx:355 | clicking the same key again flips the direction |
| Hub.GeneratingIds | App.tsx:359 | the ids listed are exactly those of items being generated |
| Hub.StopRegistry.Stop | App.tsx:359 | stopping an id adds only it; stopping without one adds every generating item's id, dispatches those ids in order and ends the run |
| Hub.StopRegistry.GenerateSingle | App.tsx:357 | generating one item withdraws only its stop request |
| Hub.StopRegistry.GenerateSelected | App.tsx:358 | generating the selection clears the stop set and hands over exactly the selected items, every copy, in order, starting only when there are any |
| Hub.PushLog | App.tsx:201-202 | a new log line goes first and the list keeps at most 50 lines |
| Hub.OnLog | App.tsx:194-203 | a success report adds a history entry when it has title and URL and logs "Optimized: title"; any other message is logged as is |
| Hub.SuccessReportRoundTrip | App.tsx:194-203 | a success report built from a title and URL without `\|` is recorded with exactly that title and URL |
| Hub.SplitLinesAreLines | App.tsx:245 | every split line is non-empty with no white space at either end |
| Hub.SplitLinesRoundTrip | App.tsx:245 | joining non-empty trimmed lines without line feeds by `\n` and splitting again gives them back |
| Hub.KeywordItems | App.tsx:349 | one standard item per keyword line, its id and title the keyword; nothing when there is none |
| Components.Opportunities | components.tsx:38-43 | at most 10 pages, each scoring above 20, ordered by non-increasing score |
| Components.OpportunitiesAreTop | components.tsx:39-42 | of k qualifying pages exactly min(k, 10) are listed, all taken from the input, and none left out scores more than one listed |
| Components.SortSorted | components.tsx:41 | the sort orders pages by non-increasing score |
| Components.SortPermutes | components.tsx:41 | the sort is a permutation |
| Components.SortStable | components.tsx:41 | pages with equal scores keep their relative order |
| Components.UnscoredNeverListed | components.tsx:40 | a page without a score is never listed |
| Components.Badge | components.tsx:73-76 | the badge uses the highlight colour and background exactly when the score exceeds 80 |
| Components.ListedBadges | components.tsx:73-76 | among listed pages the highlight marks exactly the scores above 80 |
| Components.FieldName | components.tsx:31 | the input's name is the provider followed by "ApiKey" |
| Components.ProviderOf | App.tsx:244 | the provider is the name with its first "ApiKey" removed, and the name itself when there is none |
| Components.ProviderRoundTrip | App.tsx:244 | a provider name without "ApiKey" is recovered from its field name |
| Components.ProviderRoundTripNeedsPlainName | App.tsx:244 | a provider named "ApiKeyX" comes back as "XApiKey" |
| Components.StatusIcon | components.tsx:32 | "valid" shows the check icon, "invalid" the cross, and any other status nothing |
| Text.JoinSplit | contentUtils.tsx:260-264 | joining the `</p>` split with `</p>` gives back the text |
| Text.SplitJoin | App.tsx:197 | splitting a join of separator-free parts gives back the parts |
| Text.KeepFacts | App.tsx:250-251 | `filter` keeps exactly the elements that pass, as a subsequence of the input |
| Text.KeepCounts | App.tsx:250-251 | `filter` keeps every copy of a passing element and no copy of any other |

## Left out

- Concurrency is not modelled. `Promise.any` over real fetches, `AbortSignal.timeout` and the abort controllers of `smartCrawl` become a function `net` that gives each request's outcome and finishing time. The race picks the earliest qualifying entry, with ties going to the first listed. The time the DOM strategy spends parsing the page it got from the racer is the parameter `extractMs`.
- Progress messages (`onProgress`, `onCrawlProgress`) are left out, apart from the final crawl message.
- `calculateFleschReadability` is floating-point text statistics and is left out. `ReadabilityVerdict` takes the score as a `real`.
- DOM and XML parsing are parameters:
  - sitemap parsing is `parse`;
  - main-content extraction and DOM cleaning in `smartCrawl` are `mainText`.
- `performSurgicalUpdate` is left out because it edits a parsed DOM.
- The clock is a parameter: the footer's year, the lastmod age `ageDays` (Date parsing and `Math.round` of milliseconds) and the log timestamp.
- `extractSlugFromUrl` is the parameter `slugOf`. The `utils` and `services` modules (`maintenanceEngine`, `godModeService`, retry and batch helpers) are not part of this model.
- types.ts is not part of this model. Record shapes follow their use in App.tsx.
- React rendering, hooks, localStorage and console logging are left out. State setters are modelled as functions from the old state to the new.
- Letter case is folded for ASCII letters only. Lengths count code points, not UTF-16 units.
- `RequestFailed` stands for the browser's "Failed to fetch" message of a request that fails outright.
- Network.FetchWithProxies and SmartCrawl.Crawl carry no contract of their own. Their behaviour is stated by Network.AuthUsesTrustedPathOnly, Network.AnonymousRace, SmartCrawl.CrawlFailsOnlyWhenBothFail and SmartCrawl.CrawledTextShape.
- Components.ProviderRoundTrip: holds only for provider names that do not contain "ApiKey", as Components.ProviderRoundTripNeedsPlainName shows.
- The simulated search-console columns of MoneyPanel are display only. `[...pages]` copies before sorting, which is automatic for Dafny's sequence values.
- `hubPage` is never changed by the app. Pagination is modelled for any page number.
- Generated.Normalized: a field that JSON gives as a truthy value of the wrong kind (a string where a list is expected, say) is `None` in RawContent and so becomes `[]`. The source keeps any truthy value in every field except `imageDetails`, which it checks with `Array.isArray` (contentUtils.tsx:179 against 192-197).
- Generated.NormalizeGeneratedContent: `{ ...parsedJson }` is a shallow copy, so the `push` that pads the images also grows the caller's `imageDetails` array. The model works on values and does not show that aliasing.
- `ContentTooLongError` and `maxWords` are never used by the source, so nothing checks the maximum.
