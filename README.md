# Web tools server: a verified model of its search, fetch and extraction core

The server exposes three tools to an agent: `search_web`, `fetch_url` and
`extract_readable`, all defined in `src/server.js`. This project models the
decision logic behind them and proves properties of that model:

- **DuckDuckGo scraper** (`ddgSearch`, module `DdgScraper`). It walks the
  result-title anchors in document order and takes each anchor's trimmed
  text as the title. It skips anchors without a link. It resolves each link:
  a redirect wrapper is unwrapped through its `uddg` parameter and
  `decodeURIComponent`, a protocol-relative link gets `https:`, and a
  root-relative link gets the engine's origin. It stops as soon as `limit`
  results are collected. The loop is the method `DdgSearch`. It is proved
  equal to "resolve every anchor, then keep the first `limit`", and to read
  no anchor after the one whose result fills the limit.
- **SerpAPI provider** (`serpApiSearch`, module `SerpApi`). Without a key
  it gives `null`. It asks for `min(limit, 10)` results and throws on an
  HTTP error, on a body that is not JSON or is JSON `null`, and on a `null`
  entry among the first `limit` results. A non-array `organic_results`
  counts as no results. Otherwise the result is
  `organic_results.slice(0, limit)` with missing fields defaulted to `""`.
- **`search_web`** (module `WebSearch`). The provider runs first. The
  scraper runs only when the provider gives nothing, that is when it
  returns `null` or throws. The chosen list is rendered as a numbered list
  separated by blank lines, or as `No results` when it is empty.
- **`fetch_url`** (module `UrlFetch`). A response without a body (a
  null-body status such as 204 or 304) makes `res.body.getReader()` throw
  a TypeError. Otherwise the body is read chunk by chunk.
  Whole chunks are kept until one overflows the byte budget. Only the
  fitting part of that chunk is kept, and reading stops. The summary
  reports the content type and `min(received, maxBytes)`. The read loop is
  the method `ReadCapped`. It is proved to keep exactly the first
  `min(total, maxBytes)` bytes, and the reported count is proved to equal
  the number of bytes kept.
- **`extract_readable`** (module `Readable`). It renders the article the
  extraction heuristic found: title as a `# ` heading, then `by ` byline,
  then excerpt, then text. Absent or empty fields are omitted.
- Supporting modules:
  - `Strings`: JavaScript `startsWith`, `includes`, `trim` and `join`.
  - `Decimal`: how a number is printed in a template literal.
  - `UriComponent`: ECMAScript `decodeURIComponent` with its URIError
    cases. Malformed `%XX` triplets and ill-formed, overlong or surrogate
    UTF-8 are modelled as `None`.
  - `SearchTypes`: the result record and `Array.prototype.slice`.
  - `Wrappers`: `Option`.

Where the code does something other than what it evidently intends, the
model follows the code:

- A provider result whose `link` is missing gets the URL `""`
  (`r.link || ""`, `src/server.js:66`), although a search result is meant
  to point somewhere. Only the scraper path drops empty URLs.
- A wrapper link that does not start with `http` is not resolved against
  the engine's host. The code puts the origin text in front of it
  (`src/server.js:36`). A protocol-relative wrapper
  `//duckduckgo.com/l/?…` therefore becomes
  `https://duckduckgo.com//duckduckgo.com/l/?…`. The model keeps this
  concatenation (`DdgScraper.WrapperUrl`). What the URL parser makes of the
  result is the abstract `lookup` parameter.
- An empty `uddg` value keeps the raw link, because the code tests
  `if (target)`. A link whose resolved URL would be empty is skipped. The
  model proves this never happens for a non-empty link (`ResolveHref`
  ensures `href != [] ==> url != []`).

## Model

| member | source | states |
|---|---|---|
| Strings.ContainsIff | src/server.js:35 | `includes` holds exactly when the needle occurs at some position |
| Strings.StartsWith | src/server.js:35-42 | `startsWith`: the text begins with the prefix, character for character |
| Strings.Contains | src/server.js:35 | `includes`: the needle is a prefix of the text or of one of its suffixes |
| Strings.Trim | src/server.js:30 | `trim` is `trimStart` followed by `trimEnd` |
| Strings.IsJsWhiteSpace | src/server.js:30 | the white space `trim` removes: tab to carriage return, space, no-break space, the Unicode space separators, line and paragraph separators, and the byte-order mark |
| Strings.TrimStart | src/server.js:30 | `trimStart`: drops white space from the front until a non-white-space character |
| Strings.TrimEnd | src/server.js:30 | `trimEnd`: drops white space from the back until a non-white-space character |
| Strings.TrimStartDropsLeadingSpace | src/server.js:30 | `trimStart` removes exactly the leading white space: the result is a suffix, what it dropped is all white space, and it does not start with white space |
| Strings.TrimEndDropsTrailingSpace | src/server.js:30 | `trimEnd` removes exactly the trailing white space |
| Strings.TrimSlice | src/server.js:30 | the trimmed title is a contiguous slice of the anchor text, only white space surrounds it, and its ends are not white space |
| Strings.TrimIdempotent | src/server.js:30 | trimming a title twice is trimming it once |
| Strings.Join | src/server.js:88 | `join`: the parts with the separator between each neighbouring pair, empty for no parts |
| Strings.JoinSnoc | src/server.js:86-88 | joining one more entry appends the separator and that entry |
| Decimal.FromNat | src/server.js:87 | a printed number is a non-empty run of digits with no leading zero |
| Decimal.ValueOfFromNat | src/server.js:87 | reading the printed number back gives the number |
| Decimal.FromNatInjective | src/server.js:87 | different entry numbers print differently |
| UriComponent.Utf8RoundTrip | src/server.js:39 | UTF-8 decoding undoes UTF-8 encoding for every character |
| UriComponent.Utf8Unique | src/server.js:39 | an octet sequence that decodes to a character is that character's encoding, so no overlong form is accepted |
| UriComponent.Utf8Decode | src/server.js:39 | the character that one to four octets encode when they form a single well-formed UTF-8 sequence with no overlong form, surrogate or value above U+10FFFF; none otherwise |
| UriComponent.DecodeEscape | src/server.js:39 | one escaped character takes a whole, non-zero number of `%XX` triplets, all within the text |
| UriComponent.Decode | src/server.js:39 | a successful decode is never longer than its input and is empty only for an empty input |
| UriComponent.DecodeWithoutEscapes | src/server.js:39 | a text without `%` decodes to itself |
| UriComponent.DecodeAppend | src/server.js:39 | decoding is left to right: after a prefix that decodes, the rest decodes on its own, and a failure in the rest fails the whole |
| UriComponent.MalformedTripletFails | src/server.js:39 | a `%` not followed by two hex digits makes the decode throw, whatever precedes it, a prefix that itself fails included |
| UriComponent.DecodeEncode | src/server.js:39 | decoding undoes percent-encoding of the UTF-8 octets, for every text |
| SearchTypes.Truncate | src/server.js:48 | the first `n` entries, or all of them when there are fewer |
| SearchTypes.Slice | src/server.js:66 | `slice(0, end)` is a prefix; a non-negative end gives the first `end` entries; a negative end drops that many entries from the back |
| SearchTypes.TruncateAtPrefix | src/server.js:48 | cutting at the end of a leading part gives exactly that part |
| DdgScraper.IsWrapper | src/server.js:35 | a redirect wrapper is a link that starts with `/l/?` or contains `duckduckgo.com/l/?` |
| DdgScraper.WrapperUrl | src/server.js:36 | a wrapper starting with `http` is parsed as it is; any other gets the origin text in front |
| DdgScraper.Title | src/server.js:30 | the title is the trimmed anchor text, empty when the anchor has no text |
| DdgScraper.Href | src/server.js:31 | the link is the `href` attribute, empty when it is missing |
| DdgScraper.Emit | src/server.js:31-47 | an anchor contributes nothing without a link or with an empty resolved URL, otherwise its title and resolved URL |
| DdgScraper.Candidates | src/server.js:29-47 | the contributions of all anchors, concatenated in document order, before the limit applies |
| DdgScraper.Cap | src/server.js:48 | the number of results the scan collects: `limit`, or one when `limit` is below one, because the test comes after the first push |
| DdgScraper.Unwrap | src/server.js:35-39 | a wrapper yields a destination exactly when `uddg` is present, non-empty and decodes, and the destination is that decoding |
| DdgScraper.ResolveHref | src/server.js:33-45 | the priority order of wrapper, protocol-relative, root-relative and plain links; a failed unwrap keeps the raw link; a non-empty link never resolves to an empty URL |
| DdgScraper.DdgSearch | src/server.js:27-50 | the early-exit scan returns exactly the first `limit` results (at least one) of resolving every linked anchor in order; it reads anchors only up to the one whose result fills the limit, so it reads every anchor whenever the limit is not filled before the last one |
| DdgScraper.CandidatesSnoc | src/server.js:29-47 | one more anchor adds its own result, if any, at the end |
| DdgScraper.CandidatesStop | src/server.js:48 | once the results read so far fill the limit, the remaining anchors change nothing |
| DdgScraper.CandidatesAppend | src/server.js:29-49 | the results of two runs of anchors are the results of each, in order |
| DdgScraper.CandidatesAreLinked | src/server.js:31-47 | every anchor with a non-empty link gives exactly one result, in document order, and no other anchor gives one |
| DdgScraper.LimitOneGivesFirst | src/server.js:29-48 | with limit one the result is the first linked anchor, resolved |
| DdgScraper.WrappedDestinationRecovered | src/server.js:35-39 | a wrapper whose `uddg` holds a percent-encoded destination resolves to exactly that destination |
| DdgScraper.RootWrapperPlainTarget | src/server.js:35-39 | a root-relative wrapper is parsed against the engine origin, and a `uddg` value without `%` is the destination |
| SerpApi.Request | src/server.js:56-61 | the request asks Google for `min(limit, 10)` results with the caller's query and key |
| SerpApi.IsOk | src/server.js:63 | `res.ok`: the status is in 200 to 299 |
| SerpApi.OrganicOf | src/server.js:65 | the `organic_results` array, or no entries when it is not an array |
| SerpApi.Normalize | src/server.js:66 | a non-null entry becomes its `title` and `link`, each defaulted to `""` when missing |
| SerpApi.HasNull | src/server.js:66 | some entry of the sliced list is `null`, so reading its `title` throws |
| SerpApi.SerpApiSearch | src/server.js:53-67 | `null` exactly without a non-empty key; a list exactly when the reply is OK, its body is JSON other than `null`, and no entry among the first `limit` is `null`; that list is `organic_results.slice(0, limit)` with each entry normalized; otherwise it throws |
| SerpApi.NullEntryThrows | src/server.js:65-66 | a `null` entry among the first `limit` organic results makes the provider throw |
| WebSearch.RenderNoResultsIff | src/server.js:86-90 | the `No results` sentinel is rendered exactly when the list is empty |
| WebSearch.RenderAppend | src/server.js:86-88 | one more result adds a blank line and its numbered entry at the end |
| WebSearch.RenderSingle | src/server.js:86-88 | a single result renders as `1. title`, a newline and its URL |
| WebSearch.Entry | src/server.js:87 | an entry is the number `i + 1`, a dot, the title, a newline and the URL; it starts with a digit and ends with the URL |
| WebSearch.Entries | src/server.js:86-87 | one numbered entry per result, entry `k` numbered `k + 1` |
| WebSearch.RenderResults | src/server.js:86-90 | the entries joined by blank lines, or `No results` when that text is empty; never empty |
| WebSearch.Chosen | src/server.js:83-85 | the provider's list whenever it gives one, the scraper's results otherwise |
| WebSearch.Limit | src/server.js:76 | the caller's limit, or the default of 10 when it is absent |
| WebSearch.SearchWeb | src/server.js:75-92 | the scraper runs exactly when the provider gives no list; the text renders the provider's list or the scraper's limited results |
| WebSearch.ChosenWithinLimit | src/server.js:76-85 | whichever path runs, at most `limit` results are rendered |
| WebSearch.ProviderListIsFinal | src/server.js:83-90 | a provider list, even an empty one, is used as it is, and an empty one renders the sentinel |
| WebSearch.FallbackToScraper | src/server.js:77-85 | without a key, or when the provider throws, the scraper's results are used |
| UrlFetch.Flatten | src/server.js:124 | the kept chunks concatenated in order |
| UrlFetch.FlattenAppend | src/server.js:124 | concatenating two runs of chunks gives the bytes of each, in order |
| UrlFetch.FlattenPrefix | src/server.js:124 | the bytes of the first chunks are a prefix of all the bytes |
| UrlFetch.EffectiveMaxBytes | src/server.js:102 | the budget lies between 1 KiB and 16 MiB and is the requested value or the 16 MiB default |
| UrlFetch.ReadCapped | src/server.js:111-123 | the kept bytes are exactly the first `min(total, maxBytes)` bytes; without overflow every chunk is read and kept; on overflow reading stops at the overflowing chunk and keeps only the part of it that fits |
| UrlFetch.Summary | src/server.js:125 | the summary line names the content type and the byte count |
| UrlFetch.FetchUrl | src/server.js:101-132 | a response without a body (`res.body` is `null`) gives the TypeError outcome exactly; otherwise the body is the first `min(total, maxBytes)` bytes and the summary reports exactly the number of bytes in the body |
| Readable.BlocksInOrder | src/server.js:151-155 | the blocks come title first, then byline, excerpt and text |
| Readable.Rendered | src/server.js:148-156 | the `No readable content found.` sentinel without an article, otherwise its blocks joined by blank lines |
| Readable.Present | src/server.js:152-155 | JavaScript truthiness of a field: present and not empty |
| Readable.Slots | src/server.js:152-155 | the fields in rendering order with their prefixes: title with `# `, byline with `by `, excerpt and text with none |
| Readable.Block | src/server.js:152-155 | the block one field pushes: its prefix and value when it is present, nothing otherwise |
| Readable.Blocks | src/server.js:151-155 | the blocks of all fields, in rendering order |
| Readable.ExtractReadable | src/server.js:138-157 | the sentinel when no article is found, otherwise the blocks of the present fields joined by blank lines |
| Readable.BlocksOfPresentFields | src/server.js:151-155 | one non-empty block per present field and none for an absent or empty one |
| Readable.TitleAndTextOnly | src/server.js:151-156 | an article with only a title and text renders as the heading, a blank line, and the text |
| Readable.EmptyFieldIsMissing | src/server.js:152-155 | an empty field renders exactly like a missing one |
| Readable.NothingPresentRendersEmpty | src/server.js:148-156 | an article with no present field renders as the empty text, not as the sentinel |

## Left out

- The tool-protocol server, its stdio transport and the input schemas (`src/server.js:1-11`, `69-74`, `95-100`, `135-137`, `160-161`). Schema validation appears as preconditions: a non-empty query, a limit of 1 to 10, and a `maxBytes` of 1024 to 16 MiB.
- All HTTP requests, request headers and response status handling outside SerpAPI. Fetched data is an input: the result anchors, the SerpAPI reply, the body chunks and the content-type header. Network failures are not modelled.
- The HTML parse and the CSS selector of the result page. The anchors the selector finds are the input of `DdgSearch`.
- The WHATWG URL parser and `URLSearchParams.get`. The outcome of parsing the wrapper URL and reading `uddg` is the abstract function `lookup`, so form decoding (`+` as space) is not modelled.
- The article-extraction heuristic and the DOM it runs on. Its outcome, an optional article with four optional text fields, is the input of `ExtractReadable`.
- JSON parsing beyond its outcome. A body either fails to parse or is JSON `null` (both throw), or its `organic_results` is an array of entries, each `null` or an object with optional string `title` and `link`, or it is something else (no results). An entry that is a number, string or boolean reads as an object with neither field. Non-string `title` or `link` values are not modelled.
- Reading `SERPAPI_KEY` from the process environment. The key is a parameter.
- The UTF-8 decoding of the fetched body (`src/server.js:124`). `FetchUrl` returns the kept bytes, not their text.
- JavaScript strings are UTF-16 and Dafny characters are Unicode scalar values. So `decodeURIComponent` yields one character where JavaScript yields a surrogate pair, and lone surrogates in anchor text or links are not modelled.
- Concurrency and the asynchronous scheduling of the handlers. Each handler is modelled as one sequential run.
