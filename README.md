# arXiv query proxy: the feed translator and the request handler

The arXiv query proxy is a serverless HTTP endpoint. It takes a search
query, asks the arXiv API for an Atom feed and answers with JSON records.
This project models its one source file, `api/arxiv-query.ts`, in Dafny and
proves properties of the model.

**The feed translator `parseArxivXML`.** It cuts the feed into its
`<entry>…</entry>` blocks with a global lazy regular expression. From each
block it takes five fields:
- title and summary, trimmed with runs of whitespace collapsed to one space;
- the pdf link;
- the authors, from a nested author/name pattern;
- the categories.

The records are pushed in document order.

**The handler's decision logic:**
- 405 for a method other than `GET`;
- 400 for a missing or empty `search_query`;
- defaults for `sortBy`, `sortOrder`, `start` and `max_results`;
- 500 with the status in the message when the upstream reply is not ok;
- 500 with the error's message (or "Unknown error") when something throws;
- 200 with `total_results` equal to the number of entries on success.

Modules:
- `Text` (text.dfy): the character classes of ECMAScript `\s` and of `.`, substring occurrence, and leftmost search (`FindFrom`).
- `Whitespace` (whitespace.dfy): `trim`, `replace(/\s+/g, " ")` and the normalisation of the title and the summary.
- `Patterns` (patterns.dfy): each pattern of the form `open[\s\S]*?close` or `open(.*?)close` becomes an explicit search. This covers the first match, the group it captures, and the global scan with the `g` flag, which restarts after each match. The scan is proved leftmost, lazy, ordered, without overlap and complete.
- `Nested` (nested.dfy): the author pattern `<author>[\s\S]*?<name>(.*?)<\/name>[\s\S]*?<\/author>`, including the backtracking to a later `<name>` when a name group crosses a line break.
- `Feed` (feed.dfy): the records and the imperative translator: `ParseArxivXML` with its entry loop and the push loops for authors and categories. Each is proved against a specification function (`ParseFeed`, `EntryOf`, `Collect`).
- `FeedProperties` (feed_properties.dfy): what the translator promises, field by field.
- `Handler` (handler.dfy) and `HandlerProperties` (handler_properties.dfy): the request handler.

The upstream call is a parameter: `fetch` gives the outcome of asking the API for a query, and that outcome can be
- a thrown value;
- a reply with its ok flag, status and status text, whose body read either yields text or throws.

The handler is given both as a function (`Handle`) and as the method that mirrors the source statement by statement (`Handler`). The method calls the imperative translator.

## Model

| member | source | states |
|---|---|---|
| `Feed.ParseArxivXML` | api/arxiv-query.ts:75-141 | The entries returned are `ParseFeed(xmlData)`: the record of each entry block, in order. |
| `Feed.ParseBlocks` | api/arxiv-query.ts:85-138 | The entry loop pushes, for every block in turn, the record built from it; no block is skipped, none is added. |
| `Feed.ParseEntry` | api/arxiv-query.ts:86-133 | The record for one block is `EntryOf(entryXml)`: title, summary, pdf link, authors and categories, each computed from that block. |
| `Feed.PushPicks` | api/arxiv-query.ts:105-124 | The author and category loops push `pick(m)` for each match `m` where the inner pattern matches, in match order (`Collect`). |
| `Feed.EntrySpans` | api/arxiv-query.ts:79 | The marker positions of the global `<entry>[\s\S]*?<\/entry>` matches; `EntrySpansAreMatches` states that they are the lazy matches in order. |
| `Feed.EntryBlocks` | api/arxiv-query.ts:79-83 | What `xmlData.match(/<entry>[\s\S]*?<\/entry>/g)` returns, with `null` as the empty list; `EntryBlockAt` states that the `k`-th block is the text of the `k`-th match. |
| `Feed.NormalizedField` | api/arxiv-query.ts:88-95 | A field taken by `open([\s\S]*?)close` and normalised, or `""` without a match; `NormalizedFieldOfMatch`, `NormalizedFieldEmptyIff` and `NormalizedFieldShape` state its value and shape. |
| `Feed.Title` | api/arxiv-query.ts:88-89 | The title field, from `<title>…</title>`. |
| `Feed.Summary` | api/arxiv-query.ts:92-95 | The summary field, from `<summary>…</summary>`. |
| `Feed.PdfLink` | api/arxiv-query.ts:98-99 | The pdf link, or `""` without a match; `PdfLinkOfMatch` and `PdfLinkShape` state which text it is. |
| `Feed.AuthorMatches` | api/arxiv-query.ts:102-104 | What the global author pattern returns; `AuthorsAreNames` states what is pushed for each. |
| `Feed.AuthorPick` | api/arxiv-query.ts:108-110 | The trimmed `<name>(.*?)<\/name>` group of one author match, if that pattern matches; `AuthorAt` states which name that is. |
| `Feed.CategorySpans` | api/arxiv-query.ts:116 | The marker positions of the global `<category term="…"` matches; `CategorySpansAreMatches` states that they are the lazy matches in order. |
| `Feed.CategoryMatches` | api/arxiv-query.ts:116-118 | What the global category pattern returns; `CategoriesAreTerms` states what is pushed for each. |
| `Feed.CategoryPick` | api/arxiv-query.ts:120-122 | The `term="([^"]*)"` group of one category match, if that pattern matches; `CategoryPickAt` states that it is the match's value. |
| `Feed.Collect` | api/arxiv-query.ts:105-124 | What a loop pushes: `pick(m)` for each match `m` where the inner pattern matches, in order; `CollectAllPicked` and `CollectAt` state it position by position. |
| `Feed.EntryOf` | api/arxiv-query.ts:86-133 | The record of one block, each field computed from that block alone. |
| `Feed.Map` | api/arxiv-query.ts:85-138 | One value per element, in order; `ParseFeedEntries` states it position by position. |
| `Feed.ParseFeed` | api/arxiv-query.ts:75-141 | One record per entry block, in order; `ParseFeedAt`, `ParseFeedEntries` and `ParseFeedEmptyIff` state its length and elements. |
| `FeedProperties.EntrySpansAreMatches` | api/arxiv-query.ts:79 | The entry blocks are lazy `<entry>…</entry>` matches, each from an `<entry>` to the first `</entry>` after it. They come in document order without overlap, no earlier `<entry>` is skipped, and no further match exists after the last. |
| `FeedProperties.EntryBlockAt` | api/arxiv-query.ts:79 | The `k`-th block is exactly the text of the `k`-th match, from its `<entry>` to the end of its `</entry>`; there is one block per match. |
| `FeedProperties.ParseFeedAt` | api/arxiv-query.ts:79-133 | There is one record per block, and the `k`-th record is built from the `k`-th block. |
| `FeedProperties.ParseFeedEntries` | api/arxiv-query.ts:79-133 | The same fact for all blocks at once. |
| `FeedProperties.ParseFeedEmptyIff` | api/arxiv-query.ts:79-83 | The result is empty exactly when no complete `<entry>…</entry>` block exists; that case returns the empty list, not an error. |
| `FeedProperties.UnclosedEntryGivesNothing` | api/arxiv-query.ts:79-83 | A first `<entry>` with no `</entry>` after it yields no record. |
| `FeedProperties.NormalizedFieldShape` | api/arxiv-query.ts:88-95 | A title or summary has no whitespace at either end, no two adjacent whitespace characters and no whitespace but `' '`, and normalising it again leaves it unchanged. |
| `FeedProperties.NormalizedFieldOfMatch` | api/arxiv-query.ts:88-95 | The field is the normalised text between the markers of the leftmost lazy tag pair. |
| `FeedProperties.NormalizedFieldEmptyIff` | api/arxiv-query.ts:88-95 | The field is `""` exactly when the tag pair is absent or encloses only whitespace. |
| `FeedProperties.QuoteFreeGroup` | api/arxiv-query.ts:98-99 | A group closed by the first `"` holds no `"`, so the lazy `"`-closed group equals `([^"]*)"`. |
| `FeedProperties.PdfLinkOfMatch` | api/arxiv-query.ts:98-99 | The link is the text from the end of the first `<link title="pdf" href="` to the first `"` after it. |
| `FeedProperties.PdfLinkShape` | api/arxiv-query.ts:98-99 | The link holds no `"`, and is `""` when no such element exists. |
| `FeedProperties.CollectAllPicked` | api/arxiv-query.ts:105-124 | When the inner pattern matches every global match, the loop pushes one value per match, the `k`-th from the `k`-th match. |
| `FeedProperties.CollectAt` | api/arxiv-query.ts:105-124 | The same fact at one position `k`. |
| `FeedProperties.AuthorOpenHidesName` | api/arxiv-query.ts:103 | No `<name>` can start inside `<author>`. |
| `FeedProperties.NestAllPicked` | api/arxiv-query.ts:106-112 | The inner pattern `<name>(.*?)<\/name>` matches in every global author match, so `if (nameMatch)` never skips one. |
| `FeedProperties.NestPickAt` | api/arxiv-query.ts:102-113 | For a nested pattern in general: the `k`-th pushed value is the trimmed group the `k`-th global match chose, and holds no line terminator. |
| `FeedProperties.TrimOfLineFree` | api/arxiv-query.ts:103-110 | Trimming a stretch without a line terminator leaves none. |
| `FeedProperties.AuthorAt` | api/arxiv-query.ts:102-113 | The `k`-th author is the trimmed `<name>` group of the `k`-th global author match; the group lies within one line and the name holds no line terminator. |
| `FeedProperties.AuthorsAreNames` | api/arxiv-query.ts:102-113 | There is one author per global author match, in document order, each as in `AuthorAt`. |
| `FeedProperties.CategorySpansAreMatches` | api/arxiv-query.ts:116 | The category matches are the lazy `<category term="…"` matches, in document order. None is skipped and none is left after the last. |
| `FeedProperties.CategoryOpenEndsWithTerm` | api/arxiv-query.ts:116-120 | `term="` ends `<category term="` and starts nowhere earlier in it. |
| `FeedProperties.CategoryPickAt` | api/arxiv-query.ts:116-122 | Inside the `k`-th category match, the pattern `term="([^"]*)"` captures the same value as the global match. |
| `FeedProperties.CategoriesAreTerms` | api/arxiv-query.ts:116-124 | There is one category per global lazy `<category term="…"` match, in document order. Each is the text from the end of its `<category term="` to the next `"`, and holds no `"`. So an occurrence of `<category term="` with no later `"`, or one inside the value of an earlier match, yields no category. |
| `Whitespace.TrimStart` | api/arxiv-query.ts:89 | Trimming the start leaves no whitespace in front. |
| `Whitespace.TrimEnd` | api/arxiv-query.ts:89 | Trimming the end leaves no whitespace behind. |
| `Whitespace.Trim` | api/arxiv-query.ts:89-110 | `trim` leaves no whitespace at either end. |
| `Whitespace.Collapse` | api/arxiv-query.ts:89-94 | `replace(/\s+/g, " ")` never lengthens the string, and keeps whether it starts with whitespace. |
| `Whitespace.Normalize` | api/arxiv-query.ts:89-95 | `x.trim().replace(/\s+/g, " ")`; `NormalizeIsNormalized`, `NormalizeRun` and `NormalizeKeepsNonWs` state its result. |
| `Whitespace.TrimStartIsSuffix` | api/arxiv-query.ts:89 | Trimming the start keeps the suffix after a whitespace-only prefix. |
| `Whitespace.TrimEndIsPrefix` | api/arxiv-query.ts:89 | Trimming the end keeps the prefix before a whitespace-only suffix. |
| `Whitespace.TrimIsSlice` | api/arxiv-query.ts:89-110 | `trim` keeps the slice between a whitespace-only prefix and a whitespace-only suffix. |
| `Whitespace.CollapseLast` | api/arxiv-query.ts:89 | Collapsing keeps whether the last character is whitespace. |
| `Whitespace.CollapseSpaces` | api/arxiv-query.ts:89 | After `replace(/\s+/g, " ")` the only whitespace is single plain spaces. |
| `Whitespace.SpacedIff` | api/arxiv-query.ts:89 | The recursive and the index-wise readings of "single spaces only" agree. |
| `Whitespace.NormalizeIsNormalized` | api/arxiv-query.ts:89-95 | Normalisation yields a string with no outer whitespace and only single spaces. |
| `Whitespace.CollapseKeepsSingleSpaces` | api/arxiv-query.ts:89 | Collapsing leaves alone a string already made of single spaces. |
| `Whitespace.NormalizedIsFixed` | api/arxiv-query.ts:89-95 | A normalised string is a fixed point of normalisation. |
| `Whitespace.NormalizeIdempotent` | api/arxiv-query.ts:89-95 | Normalising twice equals normalising once. |
| `Whitespace.TrimStartAppend` | api/arxiv-query.ts:89 | Trimming the start of a text that ends in a non-whitespace character removes nothing after it. |
| `Whitespace.TrimEndPrepend` | api/arxiv-query.ts:89 | Trimming the end of a text that starts with a non-whitespace character removes nothing before it. |
| `Whitespace.TrimStartOfBlank` | api/arxiv-query.ts:89 | Trimming the start removes exactly a whitespace run that stands before a non-whitespace character. |
| `Whitespace.TrimStartKeepsLast` | api/arxiv-query.ts:89 | Trimming the start keeps a non-whitespace last character. |
| `Whitespace.CollapseAppend` | api/arxiv-query.ts:89 | `replace(/\s+/g, " ")` works piecewise across a boundary after a non-whitespace character, since no run of whitespace spans it. |
| `Whitespace.CollapseBlankPrefix` | api/arxiv-query.ts:89 | A leading run of whitespace becomes one space. |
| `Whitespace.CollapseRun` | api/arxiv-query.ts:89 | A run of whitespace between two non-whitespace characters, or an end of the string, becomes exactly one space. |
| `Whitespace.NormalizeRun` | api/arxiv-query.ts:89-95 | A whitespace run between two non-whitespace characters normalises to one space, and each side is normalised on its own: `"Quantum\n  Computing"` becomes `"Quantum Computing"`. |
| `Whitespace.NonWsAppend` | api/arxiv-query.ts:89 | The non-whitespace characters of a concatenation are those of its parts. |
| `Whitespace.NonWsOfBlank` | api/arxiv-query.ts:89 | A whitespace-only string has no non-whitespace characters. |
| `Whitespace.TrimStartKeepsNonWs` | api/arxiv-query.ts:89 | Trimming the start removes whitespace only. |
| `Whitespace.TrimEndKeepsNonWs` | api/arxiv-query.ts:89 | Trimming the end removes whitespace only. |
| `Whitespace.TrimKeepsNonWs` | api/arxiv-query.ts:89 | `trim` removes whitespace only. |
| `Whitespace.CollapseKeepsNonWs` | api/arxiv-query.ts:89 | Collapsing changes whitespace only. |
| `Whitespace.NormalizeKeepsNonWs` | api/arxiv-query.ts:89-95 | Normalisation keeps every non-whitespace character, in order. |
| `Text.IsLineTerminator` | api/arxiv-query.ts:103-108 | The characters `.` does not match: line feed, carriage return, U+2028 and U+2029. |
| `Text.IsWhiteSpace` | api/arxiv-query.ts:89 | The ECMAScript WhiteSpace characters. |
| `Text.IsWs` | api/arxiv-query.ts:89-110 | The class `\s`, and what `trim` removes: WhiteSpace and line terminators. |
| `Text.FindFrom` | api/arxiv-query.ts:79-120 | The leftmost occurrence of a marker at or after a position, as each pattern searches; `FindFromLeftmost` and `FindFromIff` state it. |
| `Text.FindFromSound` | api/arxiv-query.ts:88 | A search result is an occurrence at or after the start. |
| `Text.FindFromFirst` | api/arxiv-query.ts:88 | No occurrence stands between the start and the result. |
| `Text.FindFromLeftmost` | api/arxiv-query.ts:88 | The search finds the leftmost occurrence, and fails only when none exists. |
| `Text.FindFromIff` | api/arxiv-query.ts:88 | The search returns `p` exactly when `p` is the first occurrence at or after the start. |
| `Patterns.FirstPair` | api/arxiv-query.ts:88-98 | A match found has its `open` at or after the start and its `close` after it, inside the string. |
| `Patterns.FirstPairSpec` | api/arxiv-query.ts:88-98 | `s.match(/open[\s\S]*?close/)` takes the leftmost `open` and the first `close` after it, and fails exactly when no `open` has a later `close`. |
| `Patterns.Group` | api/arxiv-query.ts:88-99 | The group of `s.match(/open([\s\S]*?)close/)`, or none; `GroupIs` and `GroupNone` state it. |
| `Patterns.GroupIs` | api/arxiv-query.ts:88-98 | The captured group is the text between the markers of that match. |
| `Patterns.GroupNone` | api/arxiv-query.ts:88-98 | There is no group exactly when there is no match. |
| `Patterns.ScanPairs` | api/arxiv-query.ts:79-116 | Every match of a global scan starts at or after where the scan began. |
| `Patterns.ScanPairsAreMatches` | api/arxiv-query.ts:79-116 | Every result of a global scan is a lazy match, and each starts after the previous one ends. |
| `Patterns.ScanPairsLeftmost` | api/arxiv-query.ts:79-116 | No `open` stands in the gap before any result, so none is skipped. |
| `Patterns.ScanPairsComplete` | api/arxiv-query.ts:79-116 | No match exists after the last result. |
| `Patterns.ScanEmptyIff` | api/arxiv-query.ts:79-83 | A global scan finds nothing (`match` returns `null`) exactly when no match exists. |
| `Patterns.ScanTexts` | api/arxiv-query.ts:79-116 | The texts a global lazy pair pattern returns; `ScanTextAt` and `ScanTextsLength` state them. |
| `Patterns.ScanTextAt` | api/arxiv-query.ts:79-116 | The `k`-th matched text runs from its `open` to the end of its `close`. |
| `Patterns.LineFreeInSlice` | api/arxiv-query.ts:103-108 | Line terminators inside a slice are those of the whole string at the shifted positions. |
| `Patterns.LineLazyClose` | api/arxiv-query.ts:103-108 | Where `(.*?)close` ends from a position: its first `close`, if no line terminator stands before it. |
| `Patterns.LineLazyCloseSpec` | api/arxiv-query.ts:103-108 | `(.*?)close` ends at the first `close`, and fails when a line terminator stands before it. |
| `Patterns.FirstLinePair` | api/arxiv-query.ts:103-108 | The `open` chosen by `open(.*?)close` and where its group ends, or a failure; `FirstLinePairIff` states which one. |
| `Patterns.FirstLinePairLeftmost` | api/arxiv-query.ts:108 | Each `open` before the chosen one has no line-lazy close. |
| `Patterns.FirstLinePairMonotone` | api/arxiv-query.ts:108 | An `open` whose group succeeds bounds the chosen match from above. |
| `Patterns.FirstLineCloseMonotone` | api/arxiv-query.ts:108 | A later `open` has a later line-lazy close. |
| `Patterns.FirstLinePairIff` | api/arxiv-query.ts:108 | `s.match(/open(.*?)close/)` chooses the first `open` whose line-lazy group succeeds, and exactly that one. |
| `Patterns.LineGroup` | api/arxiv-query.ts:108 | The group of `s.match(/open(.*?)close/)`, or none. |
| `Patterns.TailGroupOfMatch` | api/arxiv-query.ts:116-122 | Inside the text of a lazy match, a suffix `tail` of `open` that starts nowhere earlier captures the same group. |
| `Patterns.TailGroupAt` | api/arxiv-query.ts:116-122 | The same fact for the `k`-th match of a global scan. |
| `Nested.NestMatchAt` | api/arxiv-query.ts:103 | A match found at a position starts there and ends inside the string. |
| `Nested.NestMatchAtSound` | api/arxiv-query.ts:103 | What the matcher finds at a position is a match there in the declarative reading. |
| `Nested.NestMatchAtComplete` | api/arxiv-query.ts:103 | A declarative match at a position is what the matcher finds there. |
| `Nested.NestScanInOrder` | api/arxiv-query.ts:103 | Every result of the global author scan is the pattern's match at its start, and each starts after the previous one ends. |
| `Nested.NestMatchAtExact` | api/arxiv-query.ts:103 | The matcher at a position agrees exactly with the declarative reading of a match there. That reading includes the backtracking to a later `<name>`. |
| `Nested.NestScan` | api/arxiv-query.ts:102-104 | The matches of the global author pattern, each searched from the end of the previous one; `NestScanMatches`, `NestScanLeftmost` and `NestScanComplete` state them. |
| `Nested.NestTexts` | api/arxiv-query.ts:102-104 | The texts of those matches; `NestTextAt` states them. |
| `Nested.NestScanMatches` | api/arxiv-query.ts:103 | Every result of the global scan is a match, in order. |
| `Nested.NestScanLeftmost` | api/arxiv-query.ts:103 | No `<author>` before a result and after the previous one starts a match that is skipped. |
| `Nested.NestScanComplete` | api/arxiv-query.ts:103 | No match starts after the last result. |
| `Nested.NestTextAt` | api/arxiv-query.ts:103 | The `k`-th author text is the text of the `k`-th match. |
| `Nested.InnerGroupOfMatch` | api/arxiv-query.ts:103-108 | The inner pattern applied to a match's text finds the name group the whole pattern chose, and that group holds no line terminator. |
| `Nested.NestTextGroupAt` | api/arxiv-query.ts:102-108 | The same fact for the `k`-th global match. |
| `Handler.Prepare` | api/arxiv-query.ts:20-45 | 405 exactly for a method other than `GET`, and 400 exactly for a `GET` whose `search_query` is absent or empty. Otherwise the upstream query carries the search query and each other parameter as given, or else its default: `submittedDate`, `descending`, `0`, `10`. |
| `Handler.StatusMessage` | api/arxiv-query.ts:51-53 | The message `ArXiv API returned ${status}: ${statusText}`; `StatusMessageReports` states that the status reads back from it. |
| `Handler.Failure` | api/arxiv-query.ts:66-71 | The catch arm answers 500 with `error` "Failed to fetch ArXiv data". |
| `Handler.Complete` | api/arxiv-query.ts:48-71 | 200 exactly for an ok reply whose body was read. Its body is `success: true`, the translated entries, and `total_results` their count. A reply that is not ok gives 500 with the message `ArXiv API returned <status>: <statusText>`. |
| `Handler.Handle` | api/arxiv-query.ts:19-73 | The answer is 200, 400, 405 or 500: 405 and 400 exactly as above, and 200 exactly when the prepared query's reply is ok and readable. |
| `Handler.Handler` | api/arxiv-query.ts:19-73 | The handler as written (early returns, the upstream call, the translator method) answers as `Handle`. |
| `Handler.DigitChar` | api/arxiv-query.ts:52 | A digit character denotes its value. |
| `Handler.Decimal` | api/arxiv-query.ts:52 | `${status}` is a non-empty string of decimal digits with no leading zero. |
| `HandlerProperties.DecimalValue` | api/arxiv-query.ts:52 | Reading the decimal notation back gives the status. |
| `HandlerProperties.DigitRunAppend` | api/arxiv-query.ts:52 | The digit run of the decimal notation stops at the `:` after it. |
| `HandlerProperties.StatusMessageReports` | api/arxiv-query.ts:50-53 | The message of a reply that is not ok reports its status, which can be read back from it, and ends with its status text. |
| `HandlerProperties.RejectionIgnoresUpstream` | api/arxiv-query.ts:20-37 | A rejected request gets the same 400 or 405 answer whatever the upstream would do: validation happens before any upstream call. |
| `HandlerProperties.UpstreamAskedOnce` | api/arxiv-query.ts:48 | Only the outcome for the prepared query matters. |
| `HandlerProperties.NotOkReportsStatus` | api/arxiv-query.ts:50-53 | A reply that is not ok gives 500, with "Failed to fetch ArXiv data" and a message from which its status reads back. |
| `HandlerProperties.SuccessCountsEntries` | api/arxiv-query.ts:56-65 | A readable ok reply gives 200 with one entry per entry block of its body, in order, and `total_results` their count. |
| `HandlerProperties.ThrownReportsMessage` | api/arxiv-query.ts:48-71 | A thrown `Error` gives 500 with its message, and any other thrown value gives "Unknown error". This holds whether `fetch` throws or reading the body of an ok reply throws. |

## Left out

- I/O is not modelled: the network call `fetch`, reading the body `response.text()`, and the awaiting. Their outcome is a parameter of the handler (`Outcome`).
- The construction of the API URL with `URL`/`searchParams` and their percent-encoding is left out, because the model cannot see that library. The model keeps only the five parameter values that are set.
- The Vercel `req`/`res` objects, JSON serialisation and `console.error` logging are framework plumbing. A response is a status and a body value.
- Query parameters given as arrays are not modelled: a parameter is absent or one string. The interface declares `start` and `max_results` as numbers, but at run time a given value is the text of the query string, so its `toString()` returns it unchanged. The defaults of `start` and `max_results` are the numbers 0 and 10, modelled as the strings `"0"` and `"10"` that `toString` produces.
- The `catch` arm inside the entry loop is not modelled, because nothing in the modelled extraction throws. Extraction is total.
- That a missing or removed field leaves the other fields unaffected is not proved. `EntryOf` computes each field from the whole block, so removing one element can change another field: a `<link title="pdf" …>` inside `<title>…</title>` is part of the title. The property holds only when that element lies outside the other fields' matches, and that conditional statement is not part of this model. `PdfLinkShape` states only that a missing link gives `""`.
- JavaScript strings are modelled as sequences of Unicode characters. UTF-16 surrogate pairs are not modelled. The classes `\s` and line terminator are the ECMAScript lists, written out in `Text`.
