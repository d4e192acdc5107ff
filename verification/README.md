# Play Store fetcher, modelled in Dafny

The repository scrapes Google Play Store pages for a list of Android
packages. It has two iterations:

- `play_store_fetcher.py`, the current scraper. For every package of a
  `;`-separated listing and every requested region, it asks for the English
  store page, unless the `(package, region)` pair is already in the cache
  log. A 200 answer is reduced to four values (rating, download count,
  review count, last update). Each value is read from one CSS locator
  through a regex token filter and defaults to "Not Found". The values are
  written as a csv row and the raw HTML is saved. A 404 is written to the
  missing csv. For both, the pair is appended to the cache log. Any other
  status is written to the error csv, and a 429 first pauses for an hour.
  Every request is followed by a random delay.
- `play_store_fetcher2.py`, the older scraper. It is keyed by package
  only, and it requests the bare details address. `send_request` passes on
  200 answers only. The values come from three case-insensitive
  `re.search` patterns over the text of the `l8YSdd` container, with ","
  first replaced by ".", and default to "Not found". The date is the
  stripped text of the `xg1aie` block. A saved record goes to a cache file
  as a `;`-joined line and to an output csv. The cached set is read once,
  before the loop.

The Dafny modules follow that split:

| module | file | models |
|---|---|---|
| `Text` | text.dfy | `str.strip`, `str.split`, `str.join`, line iteration over a file, `\d`, `\w`, `\s`, ASCII case folding, `str.replace` of one character |
| `TokenFilter` | token_filter.dfy | the `re.findall` filter of the current scraper, as a scanner over the pattern's five alternatives |
| `Extractor` | extractor.dfy | the current `get_app_info_from_html` over four locator texts |
| `PlayUrl` | url.dfy | `form_playstore_url` and a parser that inverts it |
| `Ledger` | ledger.dfy | the region cache of the current scraper: read, add, membership, and the on-disk log |
| `PackageList` | package_list.dfy | `read_package_names`, which is identical in both iterations |
| `FetchPolicy` | fetch_policy.dfy | `fetch_playstore_data_from_regions`, `init_checks` and `main` of the current scraper, as a trace of events |
| `LegacyExtractor` | legacy_extractor.dfy | `extract_app_info` and `get_app_info_from_html` of the older scraper, with the regex engine's backtracking spelled out |
| `LegacyFetcher` | legacy_fetcher.dfy | `read_cached_packages`, `send_request`, `save_to_cache_and_csv` and `main` of the older scraper |

The network is a function `respond(n, url)`: the answer to the n-th
request. HTML parsing and the CSS/`find` lookups form a second function,
from page text to the located texts. Sleeps, csv rows and saved HTML become
events of a trace, in the order the source performs them. Files the loop
reads back are kept as file contents: the cache log of the current scraper
and the cache file of the older one. The older scraper's output rows are kept
as a file too, but it only checks whether that file exists, to decide whether
to write the header first.

## Model

| member | source | states |
|---|---|---|
| Text.Strip | play_store_fetcher.py:202 | `str.strip()`: the result is a contiguous slice of the input, everything cut from either end is whitespace, and the result neither starts nor ends with whitespace |
| Text.SplitJoin | play_store_fetcher.py:202 | splitting a `sep`-join of separator-free parts gives back exactly those parts |
| Text.JoinSplit | play_store_fetcher.py:202 | joining the parts of a split with the same separator gives back the original text |
| Text.LinesOfWritten | play_store_fetcher.py:200-201 | iterating over the lines of a file written as newline-terminated lines yields exactly those lines |
| Text.WrittenLines | play_store_fetcher2.py:162-163 | a newline-terminated file is exactly the concatenation of its lines, each followed by a newline |
| Text.LinesAppendLine | play_store_fetcher2.py:162-163 | appending one line and a newline to a newline-terminated file adds exactly that line to what a reader sees |
| Text.ReplaceChar | play_store_fetcher2.py:93 | `replace(",", ".")`: the length is kept, every comma becomes a dot, every other character is kept, and no comma is left |
| PackageList.PackageName | play_store_fetcher.py:202-204 | the name is the stripped line up to the first ';', which it does not contain |
| PackageList.ReadPackageNames | play_store_fetcher.py:199-205 | one name per line of the listing, in order, blank lines included as empty names |
| PackageList.NameOfPlainLine | play_store_fetcher.py:202-204 | a line without ';' gives its stripped text |
| PackageList.NameOfBlankLine | play_store_fetcher.py:202-204 | a whitespace-only line gives the empty name |
| PackageList.NameBeforeSeparator | tests/test_read_package_names.py:20-29 | for a name without ';' that does not start with whitespace, `name;rest` gives `name`, whatever follows the separator |
| PackageList.OneNamePerLine | play_store_fetcher2.py:30-46 | a listing written as lines gives exactly one name per line, each being that line's name |
| TokenFilter.ScanStep | play_store_fetcher.py:66-73 | `findall` takes the match at the scan position and resumes right after it |
| TokenFilter.ScanSkip | play_store_fetcher.py:66-73 | where no alternative matches, `findall` moves on by one character |
| TokenFilter.MatchHereSound | play_store_fetcher.py:66 | a match at a position spells out exactly the text of the token it denotes |
| TokenFilter.MatchRendered | play_store_fetcher.py:66 | each well-formed token, followed by a space or nothing, is matched as itself by the first alternative that applies |
| TokenFilter.FindAllRenders | play_store_fetcher.py:66-74 | scanning the space-joined texts of well-formed tokens finds exactly those tokens, in order |
| TokenFilter.FilterEmptyIff | play_store_fetcher.py:73-76 | the joined value is empty exactly when `findall` finds nothing |
| TokenFilter.RenderHasDigit | play_store_fetcher.py:66 | every token the pattern can produce is non-empty and holds a digit |
| TokenFilter.FilterIdempotent | play_store_fetcher.py:66-74 | filtering an already filtered value changes nothing |
| TokenFilter.FilterKeepsToken | play_store_fetcher.py:66-74 | a text that is one well-formed token is kept verbatim |
| TokenFilter.FilterKeepsScaledDecimal | tests/test_get_app_info_from_html.py:37 | "1.58K+" is kept as "1.58K+" |
| TokenFilter.FilterKeepsScaledInteger | tests/test_get_app_info_from_html.py:32 | "100B+" is kept as "100B+" |
| TokenFilter.FilterKeepsDate | play_store_fetcher.py:66 | "Jan 1, 2025" is kept as "Jan 1, 2025" |
| TokenFilter.FilterDropsBarePlus | play_store_fetcher.py:66 | "100+" gives "100": a '+' survives only after K, M or B |
| TokenFilter.FilterIntegerRating | play_store_fetcher.py:66 | "3star" gives "": the `\b` after a digit run fails before a letter |
| TokenFilter.NoMatchInWord | play_store_fetcher.py:66 | a run of letters inside a word yields no match |
| TokenFilter.NoMatchInNumberWord | play_store_fetcher.py:66 | digits glued to a word that does not start with K, M or B yield no match |
| Extractor.FieldValue | play_store_fetcher.py:67-76 | a field is "Not Found" exactly when its locator selects nothing or its text has no match; otherwise it is the filtered text, which holds a digit and is a fixed point of the filter |
| Extractor.Extract | play_store_fetcher.py:58-79 | each of the four values is "Not Found" exactly when its own locator fails, and is that locator's filtered text otherwise, in selector-table order |
| Extractor.FieldsIndependent | play_store_fetcher.py:69-76 | a value depends on its own locator only |
| Extractor.NothingSelected | play_store_fetcher.py:67 | a page on which no selector matches gives "Not Found" four times |
| Extractor.ExtractKeepsTokens | play_store_fetcher.py:58-79 | locator texts that are single tokens come back unchanged, each in its own slot |
| Extractor.FilterHasDigit | play_store_fetcher.py:73-76 | a filtered value that is kept holds a digit |
| PlayUrl.Param | play_store_fetcher.py:125-128 | an empty value adds nothing; a non-empty one adds '&', then the key, then '=', then the value |
| PlayUrl.FormUrl | play_store_fetcher.py:123-129 | the address starts with the base and the package, and is exactly that when both region and language are empty |
| PlayUrl.ParseFormUrl | play_store_fetcher.py:111-129 | for a package, language and region free of '&', parsing a formed address gives back all three |
| PlayUrl.FormUrlInjective | play_store_fetcher.py:111-129 | distinct targets free of '&' give distinct addresses |
| PlayUrl.QueryOf | play_store_fetcher.py:124-128 | for a package, language and region free of '&', the query splits at '&' into the package, then `gl=`, then `hl=`, each present only when non-empty |
| PlayUrl.DriverUrl | play_store_fetcher.py:245 | the address requested for any package in a non-empty region is the English page `…?id=<pkg>&gl=<region>&hl=en` |
| PlayUrl.DriverUrlExample | play_store_fetcher.py:245 | for the package `com.example.app` in the US the address is exactly `https://play.google.com/store/apps/details?id=com.example.app&gl=US&hl=en` |
| PlayUrl.BareUrl | play_store_fetcher2.py:192 | with no region and no language the address is the base and the package, which is what the older scraper requests |
| Ledger.Mark | play_store_fetcher.py:170 | the pair becomes cached, no other pair changes, and the region is appended to the package's list |
| Ledger.Append | play_store_fetcher.py:171 | the row is appended as the last row, after every earlier row, and a missing file is created |
| Ledger.Replay | play_store_fetcher.py:144-151 | reading the log succeeds exactly when every row has two fields, and then a pair is cached exactly when some row names it; otherwise it fails at the first short row |
| Ledger.ReadLog | play_store_fetcher.py:145 | a missing log reads as the empty cache |
| Ledger.LogRowFields | play_store_fetcher.py:171 | a written `pkg;region` row reads back as exactly those two fields |
| Ledger.AddKeepsSync | play_store_fetcher.py:153-171 | adding a pair keeps the in-memory cache equal to what reading the log back would give |
| Ledger.FirstAdd | play_store_fetcher.py:153-171 | adding to an empty cache with no log caches exactly the one pair |
| FetchPolicy.FetchRegion | play_store_fetcher.py:238-270 | a cached pair is skipped with no trace; otherwise one request for the region's English address, one delay at the end, the pair cached exactly for 200 and 404, and no other pair touched |
| FetchPolicy.HandleCounts | play_store_fetcher.py:249-266 | handling an answer writes exactly one row, sends nothing, does not sleep, and caches the pair exactly for 200 and 404 |
| FetchPolicy.FetchRegionCounts | play_store_fetcher.py:238-270 | an iteration sends one request, writes one row and sleeps once, or does none of these when skipped |
| FetchPolicy.FoundTrace | play_store_fetcher.py:251-254 | on 200: request, found row in csv column order, raw HTML at `<prefix>raw_html_output/<pkg>_<region>.html`, cache row, delay |
| FetchPolicy.MissingTrace | play_store_fetcher.py:255-259 | on 404: request, missing row with status and address, cache row, delay |
| FetchPolicy.CooldownTrace | play_store_fetcher.py:262-266 | on 429: request, a 3600-second pause, error row, delay; cache and log untouched |
| FetchPolicy.ErrorTrace | play_store_fetcher.py:260-266 | on any other status: request, error row, delay, no pause; cache and log untouched |
| FetchPolicy.FetchRegions | play_store_fetcher.py:238-270 | the cache only grows, only by this package's listed regions, and every listed region ends cached or with an error row |
| FetchPolicy.FetchRegionsCounts | play_store_fetcher.py:238-270 | requests, rows and delays each equal the number of requests sent |
| FetchPolicy.RequestOrder | play_store_fetcher.py:238-246 | for distinct regions, the requested addresses are those of the uncached regions, in region order |
| FetchPolicy.RequestsPlanned | play_store_fetcher.py:238-246 | for any regions, repeats included, every requested address is that of a listed region uncached at the start, and there are no more requests than such regions |
| FetchPolicy.SkipCached | play_store_fetcher.py:241-243 | when every region is cached, nothing happens |
| FetchPolicy.Rerun | play_store_fetcher.py:249-259 | when every answer is 200 or 404, a second pass over the same regions does nothing |
| FetchPolicy.NoErrorsWhenSettled | play_store_fetcher.py:249-259 | when every answer is 200 or 404, every listed region ends cached |
| FetchPolicy.FetchRegionsKeepsSync | play_store_fetcher.py:259 | the cache and its log stay in agreement across a package's regions |
| FetchPolicy.FetchAll | play_store_fetcher.py:339-341 | over the whole listing the cache only grows, only by listed pairs, and every listed pair ends cached or with an error row |
| FetchPolicy.FetchAllOrder | play_store_fetcher.py:339-341 | for distinct packages and distinct regions, the whole run requests the addresses of the uncached pairs, package by package, region by region |
| FetchPolicy.FetchAllRequestsPlanned | play_store_fetcher.py:339-341 | for any listing and regions, every requested address is that of a listed pair uncached at the start, and there are no more requests than such pairs |
| FetchPolicy.FetchAllCounts | play_store_fetcher.py:339-341 | over the whole listing, requests, rows and delays each equal the requests sent |
| FetchPolicy.FetchAllKeepsSync | play_store_fetcher.py:336-341 | the cache and its log stay in agreement over the whole listing |
| FetchPolicy.AllCachedWhenSettled | play_store_fetcher.py:336-341 | when every answer is 200 or 404, every listed pair ends cached |
| FetchPolicy.SkipAll | play_store_fetcher.py:339-341 | when every listed pair is cached, the run does nothing |
| FetchPolicy.RunBatch | play_store_fetcher.py:272-341 | a missing listing stops with "Could not find the input package listing file!"; a log row with fewer than two fields stops the read; otherwise every listed pair ends cached or with an error row, and requests, rows and delays agree in number |
| FetchPolicy.NamesLogSafe | play_store_fetcher.py:202-204 | listed names never hold ';', so their log rows read back intact |
| FetchPolicy.ResumeAfterSettled | play_store_fetcher.py:316-341 | after a run whose answers were all 200 or 404, running again with the log it left sends, writes and sleeps nothing |
| LegacyExtractor.RatingAt | play_store_fetcher2.py:94 | the anchored rating match is a prefix of the text, shaped `\d+(\.\d+)?`, covering the whole digit run, and followed by optional whitespace and "star" in any case |
| LegacyExtractor.RatingAtExact | play_store_fetcher2.py:94 | a rating-shaped prefix is the match exactly when "star" follows it |
| LegacyExtractor.ExactLongerRun | play_store_fetcher2.py:94 | a prefix that stops inside the digit run is never the match, since the greedy `\d+` cannot give back digits usefully |
| LegacyExtractor.CountAt | play_store_fetcher2.py:95-96 | the anchored count match is the full digit run plus the shortest run of letters and '+' that the keyword follows |
| LegacyExtractor.CountAtExact | play_store_fetcher2.py:95-96 | a prefix within the suffix run is the match exactly when the keyword follows it and follows no shorter candidate |
| LegacyExtractor.CountMiss | play_store_fetcher2.py:95-96 | with a digit run present, no keyword after any candidate end means no match |
| LegacyExtractor.SearchFrom | play_store_fetcher2.py:94-96 | `re.search` finds the leftmost position at which the pattern matches, or reports that none does |
| LegacyExtractor.ValueOf | play_store_fetcher2.py:94-100 | a value is "Not found" exactly when the pattern matches nowhere; otherwise it is the group of the leftmost match |
| LegacyExtractor.ValueAt | play_store_fetcher2.py:94-100 | the group matched at a position before which nothing matches is the value |
| LegacyExtractor.NoDigitNotFound | play_store_fetcher2.py:94-100 | a text without digits gives "Not found" three times |
| LegacyExtractor.NoCommaUnchanged | play_store_fetcher2.py:93 | a text without commas is searched unchanged |
| LegacyExtractor.LegacyAppInfo | play_store_fetcher2.py:127-143 | without the `l8YSdd` container the three counts are "Not found", with it they are extracted from its stripped text; the date is the stripped `xg1aie` text or "Not found" |
| LegacyExtractor.DigitlessInfo | play_store_fetcher2.py:128-133 | a container whose text has no digit gives what no container gives |
| LegacyExtractor.LookupsIndependent | play_store_fetcher2.py:128-141 | the counts depend only on the container and the date only on the date block |
| LegacyExtractor.RatingLower | tests/test_extract_app_info.py:20-22 | "4.5 stars" matches the rating pattern with group "4.5" |
| LegacyExtractor.RatingSingular | tests/test_extract_app_info.py:48-50 | "5.0 star" matches with "5.0": the singular keyword will do |
| LegacyExtractor.RatingUpper | tests/test_extract_app_info.py:55-57 | "3.3 STAR" matches with "3.3": the keyword is matched in any case |
| LegacyExtractor.ReviewsScaled | tests/test_extract_app_info.py:20-23 | "100K+ reviews" matches the reviews pattern with "100K+": the lazy suffix stops at the keyword |
| LegacyExtractor.DownloadsScaled | tests/test_extract_app_info.py:20-24 | "1M+ Downloads" matches the downloads pattern with "1M+" |
| LegacyExtractor.ReviewsSingle | tests/test_extract_app_info.py:48-51 | "1 reviews" matches with "1": one digit is a whole count |
| LegacyExtractor.DownloadsSingle | tests/test_extract_app_info.py:48-52 | "1 Downloads" matches with "1" |
| LegacyExtractor.ReviewsUpper | tests/test_extract_app_info.py:55-58 | "999 REVIEWS" matches with "999" |
| LegacyExtractor.DownloadsUpper | tests/test_extract_app_info.py:55-59 | "999 DOWNLOADS" matches with "999" |
| LegacyExtractor.NoNumberExamples | tests/test_extract_app_info.py:33-45 | "" and "Rating: , reviews, Downloads" give "Not found" three times |
| LegacyExtractor.GroupChars | play_store_fetcher2.py:94-96 | every character of a captured group is a digit, a '.', a letter or a '+' |
| LegacyExtractor.ValueLineFree | play_store_fetcher2.py:94-100 | no extracted count holds a line break |
| LegacyExtractor.InfoLineFree | play_store_fetcher2.py:127-143 | no value of a page holds a line break unless the date block's text does |
| LegacyFetcher.SendRequest | play_store_fetcher2.py:64-73 | the response is passed on exactly for status 200, and unchanged |
| LegacyFetcher.NamesOf | play_store_fetcher2.py:28 | the cached set holds exactly the names of the non-blank lines |
| LegacyFetcher.BlankIffStripEmpty | play_store_fetcher2.py:28 | a line is skipped exactly when it is whitespace only |
| LegacyFetcher.ReadCachedAppend | play_store_fetcher2.py:15-28 | appending a line to a newline-terminated (or absent or empty) cache file adds that line's name, if it has one, to the cached set |
| LegacyFetcher.ReadCachedGlued | play_store_fetcher2.py:15-28 | when the cache file's last line lacks its newline, an appended line is glued onto it and the read sees one merged name in place of both |
| LegacyFetcher.ReadCachedOneLine | play_store_fetcher2.py:15-28 | a cache file of one line reads back as that line's name, or nothing when the line is blank |
| LegacyFetcher.GluedName | play_store_fetcher2.py:162-163 | a file holding only an unterminated `abc` reads back as `abcdef` once `def;4.5` is appended: neither `abc` nor `def` is cached |
| LegacyFetcher.CacheLineName | play_store_fetcher2.py:162-163 | the saved cache line reads back as the package it was saved for |
| LegacyFetcher.ListedNamesClean | play_store_fetcher2.py:30-46 | a listed name holds no ';', no line break, and no leading whitespace |
| LegacyFetcher.Visit | play_store_fetcher2.py:187-204 | a cached package is skipped with no trace; otherwise one request to the bare address and one delay; at most one row is added to the output and earlier rows are kept |
| LegacyFetcher.FailedRequestWritesNothing | play_store_fetcher2.py:196-200 | a non-200 answer leaves both files as they were |
| LegacyFetcher.AnsweredRequestSaves | play_store_fetcher2.py:196-198 | a 200 answer appends the same record to the output csv and, as a `;`-joined line, to the cache file |
| LegacyFetcher.Uncached | play_store_fetcher2.py:187-190 | the requested packages are the listed ones not in the cached set, and no others |
| LegacyFetcher.TraceAt | play_store_fetcher2.py:192-204 | the trace alternates a request for the i-th requested package and a delay |
| LegacyFetcher.RunEvents | play_store_fetcher2.py:187-204 | the loop's trace is one request and one delay per uncached listed entry, in listing order |
| LegacyFetcher.VisitInStep | play_store_fetcher2.py:187-198 | one iteration appends to the cache file exactly the lines of the rows it adds, and each added row is an uncached package's record of a page |
| LegacyFetcher.RunInStep | play_store_fetcher2.py:187-204 | the same over the whole loop: the cache file grows by exactly the lines of the added rows |
| LegacyFetcher.InStepChain | play_store_fetcher2.py:162-168 | that agreement between the two files composes across iterations |
| LegacyFetcher.CacheLinesNames | play_store_fetcher2.py:162-163 | the names in the saved cache lines are exactly the packages of the saved rows |
| LegacyFetcher.ReadCachedAppendAll | play_store_fetcher2.py:15-28 | appending lines to a newline-terminated cache file adds exactly their names to the cached set |
| LegacyFetcher.InStepNames | play_store_fetcher2.py:15-28 | for a newline-terminated (or absent or empty) cache file, what the loop appended reads back as the old cached set plus the saved packages |
| LegacyFetcher.PageRowSavable | play_store_fetcher2.py:162-163 | a record made from a page fits on one cache line when its date does |
| LegacyFetcher.RunReadBack | play_store_fetcher2.py:178-204 | starting from a newline-terminated (or absent or empty) cache file, after the loop the file reads back as the earlier cached set plus exactly the packages saved |
| LegacyFetcher.UncachedKeepsRepeats | play_store_fetcher2.py:179 | an uncached package listed k times is requested k times: the cached set is not updated during the loop |
| LegacyFetcher.LegacyMain | play_store_fetcher2.py:170-204 | a missing listing is an error; otherwise the trace is one request and delay per uncached listed entry, and the output starts with its earlier rows, or with the header when it did not exist |
| LegacyFetcher.ResumeSkipsSaved | play_store_fetcher2.py:170-204 | a second run on the files the first left requests exactly the listed entries neither cached before nor saved by the first; the first saved only listed, uncached packages |
| LegacyFetcher.RunSavesListed | play_store_fetcher2.py:187-198 | the loop saves only listed packages that were not cached |

## Left out

- HTML parsing, BeautifulSoup's `select_one`/`find` and `get_text(strip=True)` are left out. They are an opaque function from page text to the located texts.
- The network is left out. `requests.get` is an oracle indexed by request number and address, and network exceptions are not modelled.
- `print` output is left out, and so are `argparse` (`parse_console_arguments`) and the `__main__` blocks.
- `random.uniform(2, 4)` and `time.sleep` are left out. Each becomes a `Delay` or `Cooldown(3600)` event; the duration of the random delay is not modelled.
- The filesystem side of `init_checks` (creating the three output csv files with their headers, and `mkdir` of the HTML folder) is left out. It only prepares outputs that the model keeps as events; only the missing-listing exit is modelled.
- csv quoting and escaping are not modelled. Rows are sequences of fields, and fields that reach the logs are required to be free of ';' and line breaks. The csv module's `\r\n` terminator is not modelled.
- `\d`, `\w`, `\s` and `re.IGNORECASE` are modelled on ASCII only (`\s` uses Python's `str.isspace` set). Unicode digits and letters, and case folds such as 'ſ' matching 's', are left out.
- Files are read as text split at '\n'. Universal-newline translation of '\r' is not modelled.
- `read_package_names` is defined identically in both iterations. It is modelled once, in `PackageList`.
- The date normalisation, '+' on bare integers, "3star" and badge layouts expected by tests/test_get_app_info_from_html.py are left out: the code does not do them. The model follows the code: `TokenFilter.FilterDropsBarePlus` and `TokenFilter.FilterIntegerRating` state what it does, and dates are kept as they appear.
- LegacyExtractor.RatingLower: the documented examples are stated for the anchored match at the number, not for `extract_app_info` on the whole test sentence. The whole-sentence search needs a miss at every earlier position, which is too costly to unfold over a literal of that length. The same holds for LegacyExtractor.RatingSingular, LegacyExtractor.RatingUpper, LegacyExtractor.ReviewsScaled, LegacyExtractor.DownloadsScaled, LegacyExtractor.ReviewsSingle, LegacyExtractor.DownloadsSingle, LegacyExtractor.ReviewsUpper and LegacyExtractor.DownloadsUpper.
- LegacyExtractor.NoNumberExamples: states the empty text and "Rating: , reviews, Downloads". The sentence "Rating: Not found, reviews: Not found, Downloads: Not found" is covered by LegacyExtractor.NoDigitNotFound, since it holds no digit, but is not stated as a literal.
- LegacyFetcher.RunReadBack: assumes every date block's text is free of line breaks (`DatesLineFree`). A date with an interior newline would split the saved cache line in two, and the read-back would then see an extra, unrelated name. It also assumes the cache file is absent, empty or ends in a newline, as do LegacyFetcher.ReadCachedAppend and LegacyFetcher.InStepNames. The code accepts a file without a final newline, for example one edited by hand or cut short during a write. The first appended line is then glued onto the file's last line, and the next read sees one merged name in place of both (LegacyFetcher.ReadCachedGlued, LegacyFetcher.GluedName).
- LegacyFetcher.ResumeSkipsSaved: assumes the same of the dates, and that the cache file ends in a newline (or is empty), as every file the loop writes does.
- LegacyFetcher.UncachedKeepsRepeats: states the repeat count for a single package. The order in which duplicate entries are requested follows from LegacyFetcher.RunEvents.
- PlayUrl.FormUrlInjective: holds only for a package, language and region free of '&', as do PlayUrl.ParseFormUrl and PlayUrl.QueryOf. Android package names and ISO codes hold none. Otherwise two targets can share an address: package `a&gl=US` with no region and package `a` in region `US` both give `…?id=a&gl=US`.
- FetchPolicy.RequestOrder: states the exact order only for distinct regions, and FetchPolicy.FetchAllOrder only for distinct packages and distinct regions. `--regions US,US` or a repeated line in the listing is accepted by the code. A repeat is then requested again exactly when its first answer did not cache it, which depends on the answers. For repeats, FetchPolicy.RequestsPlanned and FetchPolicy.FetchAllRequestsPlanned state that every request is planned and that there are no extra requests, not the exact sequence.
- `save_pkg_data`'s HTML file and `append_to_csv`'s rows are events, not file contents. Nothing in the current scraper reads them back.
