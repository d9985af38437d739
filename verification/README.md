# youtube-channel-scrapper core in Dafny

This project models the pure rules inside the YouTube channel scraper and
its audio downloader, and proves properties of them.

**Scraper (`youtubeScraperMain.ts`).**
- `scrapeYouTubeChannel` builds the list of listing pages to visit: the videos listing, then the streams listing.
- On every page it scrolls until the page stops growing.
- It then turns each content element of the page into a `ScrapedContent` record. The record is classified as `video`, `livestream` or `upcoming`.
- It keeps only `watch?v=` links.
- Finally it cleans the urls, deduplicates them through a JavaScript `Map`, and cuts the list to `maxItems`.

**Downloader (`youtubeAudioDownloader.ts`).**
- It sanitises the title and the upload date of each record into a file name.
- It falls back to the current time when a record has no date.
- It builds the yt-dlp command for each record and runs the downloads one after another.

The modules follow the program:

| module | file | models |
|---|---|---|
| `Wrappers` | wrappers.dfy | `Option` |
| `Strings` | strings.dfy | `includes`, `indexOf`, `split(sep)[0]`, `replace` with a string pattern, `trim()` and the `\s` class, `Number.prototype.toString` |
| `Content` | content.dfy | the `ScrapedContent` record |
| `UrlClean` | url_clean.dfy | `cleanUrl` |
| `Finalisation` | finalise.dfy | clean, `new Map(...).values()`, `slice(0, maxItems)` |
| `Extractor` | extractor.dfy | the `page.evaluate` body: per-element extraction, classification, the `watch?v=` filter |
| `Scroll` | scroll.dfy | the infinite-scroll loop's stagnation counter and stopping rule |
| `Targets` | targets.dfy | target list construction and `isStreamsPage` |
| `Scraper` | scraper.dfy | `scrapeYouTubeChannel` with page loading as a parameter |
| `Sanitize` | sanitize.dfy | `sanitizeFilename` |
| `Download` | download.dfy | output path, date fallback, command, `processAllVideos` |

JavaScript semantics are written out where they matter:
- `split(sep)[0]` is the text before the first `sep`.
- `replace` with a string pattern replaces only the first match.
- `trim()` and `\s` use the ECMAScript WhiteSpace and LineTerminator characters.
- `slice(0, n)` counts a negative `n` from the end.
- A `Map` built from entries keeps each key at the position of its first entry but holds the value of its last entry.

Three behaviours of the code differ from what a reader might expect; the model follows the code:
- **Deduplication.** One might expect the first-seen record for a url to be kept. The code's `new Map(entries).values()` keeps the first-seen position but the last-seen record. `Finalisation.LaterRecordWins` proves the code's behaviour for two records sharing a url.
- **Classification on a streams page.** One might expect an element without the live badge to count as upcoming only when it shows no duration. The code makes every such element `upcoming` and never looks at the duration (`Extractor.StreamsWithoutBadgeIsUpcoming`). Such an element still gets `duration`, `views` and `uploadDate`, and also gets `scheduledStartTime` when the schedule locator matches.
- **Order of filter and cleaning.** The `watch?v=` filter runs inside `page.evaluate`, before `cleanUrl`. So a `shorts/` link is dropped before it could be rewritten.

## Model

| member | source | states |
|---|---|---|
| Strings.IndexOf | youtubeScraperMain.ts:257 | `includes`/`indexOf`: a result exists exactly when the pattern occurs somewhere, and it is the leftmost occurrence |
| Strings.BeforeFirst | youtubeScraperMain.ts:18 | `split(sep)[0]` is a prefix of the input that holds no separator, and it is either the whole input or cut at the first occurrence of the separator |
| Strings.ReplaceFirst | youtubeScraperMain.ts:18 | `replace` with a string pattern leaves the input alone when the pattern is absent, and otherwise substitutes exactly the first occurrence |
| Strings.Trim | youtubeAudioDownloader.ts:58 | `trim()` returns an infix that neither starts nor ends with whitespace, and everything cut off on either side is whitespace |
| Strings.IsJsSpace | youtubeAudioDownloader.ts:57-58 | the characters `\s` matches and `trim()` removes: the ECMAScript WhiteSpace and LineTerminator set; used by `Strings.Trim`, `Sanitize.CollapseRemovesSpace` and `Sanitize.SanitizeShape` |
| Strings.TrimIdempotent | youtubeAudioDownloader.ts:58 | trimming twice is trimming once |
| Strings.NatToStringRoundTrip | youtubeAudioDownloader.ts:43 | the decimal form of the timestamp reads back as the same number |
| Strings.NatToString | youtubeAudioDownloader.ts:43 | `getTime().toString()` of a non-negative timestamp: a non-empty string of decimal digits without a leading zero; `Strings.NatToStringRoundTrip` reads it back |
| UrlClean.CleanUrl | youtubeScraperMain.ts:16-19 | the empty url cleans to `""`; no cleaned url contains `&` or `?si=` |
| UrlClean.AmpersandTailIgnored | youtubeScraperMain.ts:18 | two urls that agree up to their first `&` clean to the same url |
| UrlClean.ShareTagTailIgnored | youtubeScraperMain.ts:18 | a `?si=` share tag and everything after it are ignored: the url cleans as if they were absent |
| UrlClean.PrefixWhenNoShorts | youtubeScraperMain.ts:18 | when the text before the first `&` holds no `shorts/`, cleaning only cuts the url short: the result is a prefix of the input |
| UrlClean.RewriteAddsNoShorts | youtubeScraperMain.ts:18 | the inserted `watch?v=` cannot form a new `shorts/` with the text around it |
| UrlClean.ShortFormMatchesWatchForm | youtubeScraperMain.ts:18 | a `shorts/` link and the matching `watch?v=` link clean to the same url |
| UrlClean.ShortLinkRewritten | youtubeScraperMain.ts:18 | a `shorts/` link without tracking parts becomes exactly the `watch?v=` link |
| UrlClean.CleanUrlIdempotent | youtubeScraperMain.ts:18 | cleaning is idempotent when the input holds `shorts/` at most once |
| UrlClean.TwoShortsNotIdempotent | youtubeScraperMain.ts:18 | with two `shorts/` cleaning is not idempotent, because only the first occurrence is rewritten |
| Finalisation.MapValuesSpec | youtubeScraperMain.ts:272-274 | the `Map` values have pairwise distinct urls, the same set of urls as the input, each url's last input record, and the order of first occurrence |
| Finalisation.Put | youtubeScraperMain.ts:273 | one `Map.set`: an existing url keeps its position and takes the new record, a new url goes last; its effect on whole lists is stated by `Finalisation.MapValuesSpec` |
| Finalisation.MapValues | youtubeScraperMain.ts:272-274 | `Array.from(new Map(entries).values())`; its properties are the rows `Finalisation.MapValuesSpec`, `MapValuesOfDistinct`, `MapValuesIdempotent` and `MapValuesLength` |
| Finalisation.Finalise | youtubeScraperMain.ts:266-276 | clean, deduplicate, slice; its properties are the rows `Finalisation.FinaliseSpec`, `FinaliseFromInputs` and `LaterRecordWins` |
| Finalisation.MapValuesOfDistinct | youtubeScraperMain.ts:272-274 | input with distinct urls passes the `Map` unchanged |
| Finalisation.MapValuesIdempotent | youtubeScraperMain.ts:272-274 | deduplicating the deduplicated list changes nothing |
| Finalisation.MapValuesLength | youtubeScraperMain.ts:272-274 | the deduplicated list has one record per distinct input url |
| Finalisation.SliceToEnd | youtubeScraperMain.ts:276 | `slice(0, n)` is a prefix of length `min(n, len)`; a negative `n` counts from the end |
| Finalisation.CleanAll | youtubeScraperMain.ts:267-270 | every record keeps its fields except the url, which is replaced by its cleaned form |
| Finalisation.FinaliseSpec | youtubeScraperMain.ts:266-276 | the result is a prefix of the deduplicated cleaned list, of length `min(maxItems, distinct cleaned urls)`; it has distinct urls, the last record per url, first-seen order, and no `&` or `?si=` |
| Finalisation.FinaliseFromInputs | youtubeScraperMain.ts:267-276 | every result record is an input record with its url cleaned, and result urls are distinct |
| Finalisation.LaterRecordWins | youtubeScraperMain.ts:272-274 | of two records with the same url, the finalised list holds only the later one |
| Extractor.FirstMatch | youtubeScraperMain.ts:201-216 | an `a \|\| b \|\| c` locator chain yields the text of the first locator present, or nothing when none is |
| Extractor.TextOrEmpty | youtubeScraperMain.ts:206-244 | `node?.textContent?.trim() \|\| ""`; stated by `Extractor.VideoFieldsFollowLocators` |
| Extractor.TextOrAbsent | youtubeScraperMain.ts:199-227 | `node?.textContent?.trim()`, absent when nothing matched; stated by `Extractor.StreamFieldsFollowLocator` |
| Extractor.Kept | youtubeScraperMain.ts:256-258 | the post-filter `v !== null && v.url.includes("watch?v=")`; stated by `Extractor.ExtractPage` and `Extractor.ExtractPageSelection` |
| Extractor.ExtractElement | youtubeScraperMain.ts:163-254 | an element yields a record exactly when it is readable and has a title anchor. The rules: the url is the anchor's `href`; the title is the anchor's `title` attribute when non-empty, else its trimmed text; the thumbnail is the image source with its first `hqdefault` upgraded; a videos page gives `video`; a streams page gives `livestream` exactly when the live badge is present, else `upcoming`, never `video`; `isLive` holds exactly for `livestream`; viewers only for `livestream`; duration, views and date exactly for non-live records; schedule only for `upcoming` |
| Extractor.ExtractPage | youtubeScraperMain.ts:161-258 | no more records than elements, and every kept url contains `watch?v=` |
| Extractor.ExtractPageSelection | youtubeScraperMain.ts:161-258 | the records are exactly the kept element records, in page order: a strictly increasing list of source positions exists, and it covers every kept element |
| Extractor.ExtractPageAppend | youtubeScraperMain.ts:161-258 | extraction works element by element, so it distributes over concatenation |
| Extractor.UnreadableSkipped | youtubeScraperMain.ts:251-254 | an element whose processing throws contributes nothing |
| Extractor.VideoFieldsFollowLocators | youtubeScraperMain.ts:229-248 | on a videos page, duration, views and date each come from the first present locator of their list, `""` when none is |
| Extractor.StreamFieldsFollowLocator | youtubeScraperMain.ts:194-228 | on a streams page, the viewer count of a live record and the schedule of an upcoming record come from the stream meta locator, absent when it is missing |
| Extractor.StreamsWithoutBadgeIsUpcoming | youtubeScraperMain.ts:186-191 | a streams-page element without the badge is `upcoming` even when it shows a duration |
| Extractor.ThumbnailSource | youtubeScraperMain.ts:178-182 | a non-empty `src` wins; an empty or missing `src` falls through to a non-empty `data-src`; the result is `""` exactly when neither attribute holds text |
| Extractor.ThumbnailUpgraded | youtubeScraperMain.ts:178-183 | a thumbnail source naming `hqdefault` becomes one naming `maxresdefault` |
| Extractor.UpgradeThumbnail | youtubeScraperMain.ts:183 | `replace("hqdefault", "maxresdefault")` on the source, only the first occurrence; stated by `Extractor.ThumbnailUpgraded` and the `ReplaceFirst` contract |
| Scroll.CounterIsStagnantRun | youtubeScraperMain.ts:138-147 | the counter equals the length of a run of flat samples that repeat the stored element count |
| Scroll.Step | youtubeScraperMain.ts:138-147 | one loop iteration's update: a flat sample that repeats the stored count adds one attempt, anything else resets the attempts and stores the new count; stated over traces by the `Scroll.StateAfter` contract (the stored count is always the latest sample's) and `Scroll.StagnantRunCounts` |
| Scroll.StateAfter | youtubeScraperMain.ts:111-147 | the state after `n` samples, fixed by the trace alone: the stored count is the latest sample's count (0 before any sample), and the counter is the length of the longest trailing run of samples that are flat and show the same count as the sample before them (0 for the first) |
| Scroll.StagnantRunCounts | youtubeScraperMain.ts:138-147 | conversely, `k` such samples raise the counter by exactly `k` |
| Scroll.ScrollLoop | youtubeScraperMain.ts:111-150 | the loop never runs when the budget is already met; otherwise it stops when the trace ends or the counter reaches 5, and not before; when it stops on the counter, the last five samples were flat |
| Scroll.ConstantPageStops | youtubeScraperMain.ts:111-150 | on a page that never changes, the loop stops after exactly five stagnant iterations: five in all with no elements, six otherwise |
| Targets.StripTrailingSlash | youtubeScraperMain.ts:62 | at most one trailing `/` is removed, and one is removed whenever present |
| Targets.TargetUrls | youtubeScraperMain.ts:62-66 | the list of listing pages to visit; stated by `Targets.TargetUrlsSpec` |
| Targets.IsStreamsPage | youtubeScraperMain.ts:154 | `targetUrl.includes("/streams")`; stated by `Targets.StreamsTargetIsStreamsPage` and `Targets.VideosTargetKind` |
| Targets.TargetUrlsSpec | youtubeScraperMain.ts:62-66 | one target per flag, videos first, each the stripped url plus its suffix |
| Targets.StreamsTargetIsStreamsPage | youtubeScraperMain.ts:154 | the streams target is always read as a streams page |
| Targets.VideosTargetKind | youtubeScraperMain.ts:154 | the videos target is read as a streams page exactly when the channel url itself contains `/streams` |
| Scraper.PageItems | youtubeScraperMain.ts:70-261 | a target whose navigation or first-content wait fails contributes nothing; a loaded target contributes exactly its page's extracted records, classified by whether its url names `/streams`; kept urls contain `watch?v=` |
| Scraper.Accumulate | youtubeScraperMain.ts:68-262 | every accumulated url contains `watch?v=`, and nothing is accumulated when no target loads |
| Scraper.AccumulateAppend | youtubeScraperMain.ts:68-262 | the loop accumulates target by target: crawling `a` then `b` yields `a`'s records followed by `b`'s |
| Scraper.FailedTargetSkipped | youtubeScraperMain.ts:77-80 | a target whose navigation or content wait fails is skipped: the targets before and after it contribute exactly what they would without it |
| Scraper.LoadedTargetContributes | youtubeScraperMain.ts:153-261 | a loaded target appends its page's extracted records after those of the earlier targets |
| Scraper.ScrapeChannel | youtubeScraperMain.ts:21-277 | `scrapeYouTubeChannel` with page loading as a parameter; stated by the rows `Scraper.ScrapeChannelExact`, `ScrapeChannelBounded`, `ScrapeChannelProvenance` and `ScrapeChannelEmpty` |
| Scraper.ScrapeChannelExact | youtubeScraperMain.ts:61-276 | the crawl returns the records accumulated from the loaded targets, cleaned and deduplicated: a prefix of that list holding each url's last record in first-seen order, of length `min(maxItems, distinct cleaned urls)` for a non-negative `maxItems` |
| Scraper.ScrapeChannelBounded | youtubeScraperMain.ts:266-276 | the crawl returns at most `maxItems` records, with distinct urls |
| Scraper.ScrapeChannelProvenance | youtubeScraperMain.ts:256-274 | every returned record is the cleaned form of an extracted record whose raw url contains `watch?v=` |
| Scraper.ScrapeChannelEmpty | youtubeScraperMain.ts:63-108 | with neither flag set, or with no target loading, the crawl returns nothing |
| Sanitize.RemoveForbiddenKeeps | youtubeAudioDownloader.ts:56 | a character survives the first pass exactly when it occurs in the input and is not forbidden |
| Sanitize.RemoveForbidden | youtubeAudioDownloader.ts:56 | the first pass, never longer than its input; stated by `Sanitize.RemoveForbiddenKeeps`, `RemoveForbiddenShape` and `RemoveForbiddenAppend` |
| Sanitize.Collapse | youtubeAudioDownloader.ts:57 | the second pass; stated by `Sanitize.CollapseIsSqueeze` and `CollapseRemovesSpace` |
| Sanitize.SanitizeFilename | youtubeAudioDownloader.ts:54-59 | `sanitizeFilename`; stated by `Sanitize.SanitizeShape`, `SanitizeClean`, `SanitizeIdempotent` and `ForbiddenCharacterJoins` |
| Sanitize.RemoveForbiddenShape | youtubeAudioDownloader.ts:56 | nothing of `<>:"/\|?*` or U+0000..U+001F survives the first pass |
| Sanitize.RemoveForbiddenAppend | youtubeAudioDownloader.ts:56 | the first pass distributes over concatenation |
| Sanitize.CollapseIsSqueeze | youtubeAudioDownloader.ts:57 | the greedy `/\s+/g` replacement equals a character-by-character reference: a whitespace character yields `_` only when the previous character was not whitespace |
| Sanitize.CollapseRemovesSpace | youtubeAudioDownloader.ts:57 | the second pass leaves no whitespace |
| Sanitize.SanitizeShape | youtubeAudioDownloader.ts:54-59 | the final `trim()` removes nothing; the output holds no forbidden character and no whitespace, and is no longer than the input |
| Sanitize.SanitizeClean | youtubeAudioDownloader.ts:54-59 | a string already free of forbidden characters and whitespace is unchanged |
| Sanitize.SanitizeIdempotent | youtubeAudioDownloader.ts:54-59 | sanitising twice is sanitising once |
| Sanitize.ForbiddenCharacterJoins | youtubeAudioDownloader.ts:56-57 | a deleted character, tab and line feed included, joins its neighbours instead of leaving a `_` |
| Download.DateLabel | youtubeAudioDownloader.ts:43 | a present, non-empty upload date is used as is; otherwise the label is a non-empty string of decimal digits (the clock reading, see `Download.DateFallback`) |
| Download.FileNameShape | youtubeAudioDownloader.ts:15-19 | every file name ends in `.mp3` and holds no `/`, `"` or whitespace |
| Download.FileName | youtubeAudioDownloader.ts:15-19 | `${sanitized title}_${sanitized date}.mp3`; stated by `Download.FileNameShape` and `Download.DateFallback` |
| Download.MakeJob | youtubeAudioDownloader.ts:13-21 | one download job: the record's url and title, the output path built from its title and date label, and the command quoting that path before the url; stated for whole lists by `Download.Plan` |
| Download.OutputPath | youtubeAudioDownloader.ts:15-19 | `path.join(outputDir, safeTitle + ".mp3")`; stated by `Download.OutputPathShape` and `Download.DateFallback` |
| Download.Command | youtubeAudioDownloader.ts:21 | the yt-dlp command line; stated by `Download.CommandQuotesPath` |
| Download.OutputPathShape | youtubeAudioDownloader.ts:15-19 | every output path lies directly in `downloaded_audio/`: its only `/` follows the directory name; it holds no `"` and ends in `.mp3` |
| Download.DateFallback | youtubeAudioDownloader.ts:15-43 | with no usable upload date, the file name is the sanitised title, `_`, the timestamp digits unchanged, and `.mp3` |
| Download.CommandQuotesPath | youtubeAudioDownloader.ts:19-21 | the quoted `-o` argument of the yt-dlp command is exactly the output path |
| Download.Plan | youtubeAudioDownloader.ts:13-44 | one job per record, in order, with the record's url and title; job `i` writes to the output path built from record `i`'s own title and date label, and its command quotes that path and ends in record `i`'s url |
| Download.PlanJobsShape | youtubeAudioDownloader.ts:13-44 | every planned job writes into `downloaded_audio/` under a correctly quoted argument |
| Download.CompletedExactly | youtubeAudioDownloader.ts:37-50 | a file is downloaded (its path is what `downloadAudio` resolves with) exactly when some job with that path succeeded, so a failed download does not stop the later ones |
| Download.Completed | youtubeAudioDownloader.ts:37-50 | the files written, one per succeeded job at most; stated by `Download.CompletedExactly` and `Download.AllSucceed` |
| Download.AllSucceed | youtubeAudioDownloader.ts:37-50 | when every download succeeds, every planned file is downloaded, in order |

## Left out

- Browser launch, the stealth plugin, the viewport, `page.goto`, `waitForSelector` and `browser.close()`: these are foreign calls. Their outcome for a target is the parameter `load: string -> PageLoad` (navigation failed, content missing, or loaded with the fully scrolled page's elements). The `continue` on failure is modelled.
- The foreign calls outside any `try`: `setUserAgent` and `setRequestInterception` (youtubeScraperMain.ts:48, 51), the scroll loop's `page.evaluate` calls (lines 118, 122, 131-136) and the extraction's `page.evaluate` (line 153). A throw in any of them rejects `scrapeYouTubeChannel` with no partial result and skips `browser.close()`. `Scraper.ScrapeChannel` is total and has no such outcome.
- The cookie-consent click on the first target: a foreign call whose effect (for instance, an overlay that would otherwise hide the content) is folded into the outcome `load` gives for that target.
- The default arguments of `scrapeYouTubeChannel` (`maxItems = 100`, `headless = true`, `includeLivestreams = true`, `includeVideos = true`): `Scraper.ScrapeChannel` takes every argument explicitly, as the command-line caller passes them all.
- The random user agent, `delay` and the scroll increments: these are randomness and timers. The scroll loop is modelled over a finite trace of samples.
- Request interception: it is an event callback that changes nothing the model observes.
- DOM querying: each element is an abstract snapshot (anchor, image, live badge, the text found by each locator), or `Unreadable` when processing it throws.
- `exportToJsonFile`, the output-directory creation, running the yt-dlp process, console output and the two-second pause between downloads: these are file-system, process and timer effects. Each download's outcome is the parameter `succeeds`.
- Both command-line entry files: they only parse arguments and call into the modules.
- Scroll.ScrollLoop: the `if (maxItems && allContent.length >= maxItems) break` at the end of the body is not a separate statement, because `allContent` does not change inside the loop and the loop condition already checks it.
- `maxItems` is an unbounded integer: `NaN`, fractional values and JavaScript number limits are not modelled.
- Download.CommandQuotesPath: states only that `"` cannot close the quoted path early. A `$` or a backquote in a title survives sanitising and would still be expanded by the shell; the shell is not modelled.
- Download.DateLabel: the clock reading is a non-negative integer parameter (`clock(i)` for record `i`), not `Date.now()`.
- Download.OutputPathShape: assumes the POSIX `path` module, whose `join` separates with `/`. On Windows `path.join` uses `\`, and the "only `/`" clause would not describe the path.
- Strings are sequences of Unicode scalar values, not JavaScript's UTF-16 code units: lone surrogates cannot be represented, and a length counts code points rather than code units.
