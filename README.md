# pick-random-line in Dafny

pikapi's `/pick-random-line` endpoint fetches a plain-text document and answers with
one of its lines. `str.split(/[\n\r]+/g)` cuts the document into segments. One segment
is then chosen by its 1-based number, at random among the segments that are not blank
or, in the second version, by a text search. The repository holds two versions of the
endpoint, and this project models both.

- `scripts/pick-random-line.js` handles a raw HTTP request. It first rewrites a request
  URL that carries a second URL. It then turns the `line` query parameter into a line
  number or "random", fetches the document named by `url`, and writes the chosen line
  or an `Error! ...` text.
- `lib/scripts/pick-random-line.js` takes a `params` object. It checks `url`, then
  dispatches `line` either to numbered selection (when `isNaN(line)` is false) or to a
  search over the lowercased segments.

Modules:

| module | file | what it holds |
|---|---|---|
| `Wrappers` | `wrappers.dfy` | `Option`, `Result` |
| `JsString` | `js_string.dfy` | `trim` over the ECMAScript whitespace set, `toLowerCase`, `indexOf` |
| `JsNumber` | `js_number.dfy` | `isNaN` of a string (the StringNumericLiteral grammar), `parseInt` without radix, integer to string |
| `LineSplit` | `line_split.dfy` | `split(/[\n\r]+/g)` and its properties |
| `RandomDraws` | `random_draws.dfy` | `Math.random()` as a sequence of draws in [0, 1); `Math.floor(r * n)`; where the retry loop stops |
| `UriComponent` | `uri_component.dfy` | `encodeURIComponent` (section 19.2.6.5 of ECMA-262) and `decodeURIComponent` as its partner |
| `PickRandomLine` | `pick_random_line.dfy` | the `scripts/` version |
| `LibPickRandomLine` | `lib_pick_random_line.dfy` | the `lib/` version |

How the model represents the source:

- **Randomness.** The do-while retry loops are methods that consume a `seq<Draw>`. Their
  precondition is that some draw lands on a non-blank segment. On a document that is
  not blank, the JavaScript loop keeps drawing until one does, and it finds one with
  probability 1. On a blank document no draw can land on a visible segment
  (`BlankDocumentLoopNeverStops`); the callers test for a blank document before they
  reach the loop.
  `RandomSelectionCoversVisible` proves that every non-blank segment is reachable by
  some draw sequence.
- **I/O.** The remote document reaches `scripts/` as a `Fetched` value: the body, a
  response error or a request error. `HandleRequest` takes the fetch as a function
  `remote: string -> Fetched`, and `url.parse(..., true).query` as a function
  `parseQuery` from a URL to a map.
- **Results.** A thrown `Error` in `lib/` is `Err(message)`. A `null` or `undefined`
  result is `None`.

## Model

| member | source | states |
|---|---|---|
| JsString.Trim | scripts/pick-random-line.js:82 | `s.trim()`; no ensures of its own, characterised by TrimEmptyIffBlank and TrimShape |
| JsString.TrimStart | lib/scripts/pick-random-line.js:26 | the result is a suffix of the input; what was dropped is whitespace; the result starts with non-whitespace or is empty |
| JsString.TrimEnd | lib/scripts/pick-random-line.js:26 | the result is a prefix of the input; what was dropped is whitespace; the result ends with non-whitespace or is empty |
| JsString.TrimEmptyIffBlank | scripts/pick-random-line.js:82 | `s.trim()` is the empty (falsy) string exactly when every character of `s` is whitespace |
| JsString.TrimShape | scripts/pick-random-line.js:33 | `trim()` yields a stretch of the input with no whitespace at either end |
| JsString.ToLower | lib/scripts/pick-random-line.js:65 | same length as the input, each character lowercased |
| JsString.IndexOf | lib/scripts/pick-random-line.js:65 | -1 when the query occurs nowhere, otherwise the first position where it occurs |
| JsString.ToLowerHasNoCapital | lib/scripts/pick-random-line.js:65 | a lowercased string holds no ASCII capital |
| JsNumber.IsNaN | scripts/pick-random-line.js:121 | `isNaN(s)` on a string, by the StringNumericLiteral grammar; no ensures, characterised by NumberToStringIsNumeric and BlankLineParameterIsNaN |
| JsNumber.ParseInt | scripts/pick-random-line.js:126 | `parseInt(s)` without radix; no ensures, characterised by ParseIntOfDigits, ParseIntOfNegatedDigits, ParseIntNumberToString and BlankLineParameterIsNaN |
| JsNumber.NumberToString | scripts/pick-random-line.js:47 | `"" + n` for a `parseInt` result is never empty; characterised further by ParseIntNumberToString and NumberToStringIsNumeric |
| JsNumber.NatToDecimal | scripts/pick-random-line.js:47 | the decimal form of a natural number is a digit string with no leading zero |
| JsNumber.NatToDecimalValue | scripts/pick-random-line.js:47 | reading the decimal form back gives the number |
| JsNumber.ParseIntOfDigits | scripts/pick-random-line.js:126 | `parseInt` of a digit string is its decimal value |
| JsNumber.ParseIntOfNegatedDigits | scripts/pick-random-line.js:126 | `parseInt` of `-` followed by digits is the negated value |
| JsNumber.ParseIntNumberToString | scripts/pick-random-line.js:126 | `parseInt` reads back the string form of every integer |
| JsNumber.NumberToStringIsNumeric | scripts/pick-random-line.js:121 | `isNaN` is false on the string form of every integer |
| LineSplit.Split | scripts/pick-random-line.js:86 | the split yields at least one segment |
| LineSplit.SplitJoin | scripts/pick-random-line.js:86 | there is one fewer separator run than segments, and interleaving segments and runs rebuilds the document |
| LineSplit.SeparatorsAreRuns | scripts/pick-random-line.js:86 | each separator run is non-empty and made only of `\n`/`\r` |
| LineSplit.SplitHasNoSeparator | scripts/pick-random-line.js:86 | no segment holds `\n` or `\r` |
| LineSplit.SplitInnerNonEmpty | scripts/pick-random-line.js:86 | only the first and the last segment can be empty |
| LineSplit.SplitEnds | scripts/pick-random-line.js:86 | the first (last) segment is empty exactly when the document is empty or starts (ends) with a separator |
| LineSplit.SplitKeepsVisible | scripts/pick-random-line.js:82-86 | a document that is not blank has a segment that is not blank |
| LineSplit.SegmentIsDelimited | scripts/pick-random-line.js:86 | every segment occurs in the document with a separator or an end of the document on each side |
| LineSplit.VisibleSegmentInVisibleDocument | scripts/pick-random-line.js:82-86 | a non-blank segment makes the document non-blank |
| LineSplit.SplitOfSegment | lib/scripts/pick-random-line.js:40 | a text without separators splits into itself |
| LineSplit.SplitAtBreak | lib/scripts/pick-random-line.js:40 | a line, `\n`, then text not starting with a separator splits as that line followed by the split of the text |
| LineSplit.SplitOfThreeLines | scripts/pick-random-line.js:86 | three separator-free lines, the middle one non-empty, joined by `\n` split back into those three lines |
| RandomDraws.Pick | scripts/pick-random-line.js:98 | `Math.floor(r * n)` is an index below `n` |
| RandomDraws.FirstHit | scripts/pick-random-line.js:97-100 | the loop stops at the first draw that lands on a non-blank segment |
| RandomDraws.RandomLine | scripts/pick-random-line.js:97-100 | the segment the do-while loop settles on; no ensures, characterised by FirstHit and ReachableWhenVisible |
| RandomDraws.PickReachesEveryIndex | scripts/pick-random-line.js:98 | every index below `n` is picked by some draw |
| RandomDraws.ReachableWhenVisible | scripts/pick-random-line.js:97-100 | for every non-blank segment some draw sequence stops the loop on it |
| UriComponent.Encode | scripts/pick-random-line.js:111 | `encodeURIComponent(s)`; no ensures, characterised by DecodeEncode, EncodeAlphabet and EncodeKeepsUnreserved |
| UriComponent.Decode | scripts/pick-random-line.js:111 | `decodeURIComponent`, the partner of the encoding (not called by the source); no ensures, characterised by DecodeEncode |
| UriComponent.DecodeEncode | scripts/pick-random-line.js:111 | `decodeURIComponent(encodeURIComponent(s)) == s` |
| UriComponent.EncodeAlphabet | scripts/pick-random-line.js:111 | the encoding is made only of unreserved characters, `%` and upper-case hex digits |
| UriComponent.EncodeKeepsUnreserved | scripts/pick-random-line.js:111 | a text of unreserved characters is its own encoding |
| UriComponent.DecodeSequenceOfUtf8 | scripts/pick-random-line.js:111 | the `%XX` escapes of a code point's UTF-8 bytes decode to that code point |
| PickRandomLine.LineFromString | scripts/pick-random-line.js:80-103 | `getLineFromString`; no ensures, characterised by BlankDocumentHasNoLine, NumberedSelection, RandomSelection, RandomSelectionCoversVisible and SelectedLineIsDelimited |
| PickRandomLine.GetLineFromString | scripts/pick-random-line.js:80-103 | the method with its do-while loop computes `LineFromString` |
| PickRandomLine.BlankDocumentHasNoLine | scripts/pick-random-line.js:81-84 | a blank document gives `null` for every line number |
| PickRandomLine.NumberedSelection | scripts/pick-random-line.js:88-95 | for a number, the result is segment `n` exactly when `1 <= n <= parts.length` and it is non-empty, and `null` otherwise (NaN included) |
| PickRandomLine.WhitespaceSegmentIsReturned | scripts/pick-random-line.js:89-90 | a non-empty segment of whitespace alone is returned by number |
| PickRandomLine.ThreeLineScenario | scripts/pick-random-line.js:88-95 | in a three-line document line 2 is the middle line, and numbers outside 1..3 give `null` |
| PickRandomLine.RandomSelection | scripts/pick-random-line.js:96-101 | with no number, the result is a segment that is not blank |
| PickRandomLine.RandomSelectionCoversVisible | scripts/pick-random-line.js:96-101 | every non-blank segment is a possible random result |
| PickRandomLine.RandomChoiceExists | scripts/pick-random-line.js:82-100 | a non-blank document has a non-blank segment for the loop to find |
| PickRandomLine.SelectedLineIsDelimited | scripts/pick-random-line.js:80-103 | a returned line is non-empty, holds no separator, and sits in the document between separators or ends |
| PickRandomLine.LineNumberParameter | scripts/pick-random-line.js:120-127 | the line number handed to `getLine`; no ensures, characterised by LineParameterMapping and BlankLineParameterIsNaN |
| PickRandomLine.LineParameterMapping | scripts/pick-random-line.js:120-127 | an absent, empty or `isNaN` `line` means random; the decimal form of an integer means that integer |
| PickRandomLine.BlankLineParameterIsNaN | scripts/pick-random-line.js:121-126 | a non-empty `line` of whitespace passes `isNaN` and becomes `parseInt`'s NaN |
| PickRandomLine.Outcome | scripts/pick-random-line.js:26-60 | the callback `getLine` ends with; no ensures, characterised by EmptyDocumentMessage, RandomOutcomeSucceeds, NumberedOutcome, TransferErrorMessages and OutcomeIsSegmentOrFailure |
| PickRandomLine.GetLine | scripts/pick-random-line.js:26-60 | the method computes `Outcome`: connection errors, blank body, found line, not-found messages |
| PickRandomLine.EmptyDocumentMessage | scripts/pick-random-line.js:33-36 | a blank body fails with "Empty document!" |
| PickRandomLine.RandomOutcomeSucceeds | scripts/pick-random-line.js:39-51 | with no line number the answer is a non-blank segment, so "Could not find a non-empty line!" never occurs |
| PickRandomLine.NumberedOutcome | scripts/pick-random-line.js:39-48 | with number `n` the answer is segment `n`, or "Line n is empty or nonexistent!" |
| PickRandomLine.TransferErrorMessages | scripts/pick-random-line.js:26-60 | a response error becomes "Connection error: " + err (lines 26-31); a request error is passed as it came (lines 55-60) |
| PickRandomLine.OutcomeIsSegmentOrFailure | scripts/pick-random-line.js:33-51 | every reply is a failure or a segment of the fetched document |
| PickRandomLine.Body | scripts/pick-random-line.js:132-139 | what the callbacks write; no ensures, characterised by FailureBody and PresentUrlIsFetched |
| PickRandomLine.FailureBody | scripts/pick-random-line.js:136-137 | a failure is written after the "Error! " prefix |
| PickRandomLine.Respond | scripts/pick-random-line.js:116-144 | the response to a parsed query; no ensures, characterised by MissingUrlIsRejected and PresentUrlIsFetched |
| PickRandomLine.HandleRequest | scripts/pick-random-line.js:105-145 | the method computes `Respond` on the rewritten URL's query |
| PickRandomLine.MissingUrlIsRejected | scripts/pick-random-line.js:117-144 | without a truthy `url` the body is "Invalid request! ...", `getLine` is never called and the callback does not run |
| PickRandomLine.PresentUrlIsFetched | scripts/pick-random-line.js:117-140 | with a `url`, exactly that URL is handed to `getLine`, the callback runs, and the body is a segment of the document or an "Error! " text |
| PickRandomLine.LastSchemeBefore | scripts/pick-random-line.js:6 | the last position below `p` (and at least 1) where `http://` or `https://` starts, ignoring case, or none |
| PickRandomLine.UrlInUrlSplit | scripts/pick-random-line.js:109-110 | where the regex of line 6 splits the URL; no ensures, characterised by UrlInUrlMatches and RewriteEncodesSuffix |
| PickRandomLine.RewriteRequestUrl | scripts/pick-random-line.js:109-114 | the rewritten request URL; no ensures, characterised by RewriteEncodesSuffix and RewriteWithoutMatch |
| PickRandomLine.UrlInUrlMatches | scripts/pick-random-line.js:109-110 | the regex of line 6 matches exactly when the URL has no line terminator and some scheme has a character before it |
| PickRandomLine.EncodedHasNoSyntax | scripts/pick-random-line.js:111 | an encoded text holds none of `:`, `/`, `?`, `&`, `=`, `#`, `$` |
| PickRandomLine.EncodedTail | scripts/pick-random-line.js:111-112 | appending an encoded text keeps the prefix, decodes back and adds no URL syntax |
| PickRandomLine.RewriteEncodesSuffix | scripts/pick-random-line.js:109-114 | on a match, the split is at the last scheme; the prefix is kept; the suffix is replaced by its encoding, which decodes back and holds no URL syntax |
| PickRandomLine.RewriteWithoutMatch | scripts/pick-random-line.js:109-114 | a URL the regex does not match is used unchanged |
| LibPickRandomLine.NumberedLine | lib/scripts/pick-random-line.js:39-57 | numbered selection never throws and never returns an empty line |
| LibPickRandomLine.GetNumberedLineFromString | lib/scripts/pick-random-line.js:39-57 | the method with its do-while loop computes `NumberedLine` |
| LibPickRandomLine.NumberedSelection | lib/scripts/pick-random-line.js:43-49 | a number gives segment `n` when `1 <= n <= parts.length` and it is non-empty, else `null`; the throw at line 47 is unreachable |
| LibPickRandomLine.RandomSelection | lib/scripts/pick-random-line.js:50-55 | for `null` the loop ends on a non-blank segment |
| LibPickRandomLine.MatchingLines | lib/scripts/pick-random-line.js:60-68 | there are no more matching lines than segments |
| LibPickRandomLine.Search | lib/scripts/pick-random-line.js:59-78 | `searchLineInString`; no ensures, characterised by SearchThrowsIffMatch, SingleLineSearch, CapitalQueryYieldsNothing and SearchYieldsNoLine |
| LibPickRandomLine.SearchLineInString | lib/scripts/pick-random-line.js:59-78 | the method with its `for` loop computes `Search` |
| LibPickRandomLine.MatchingLinesAppend | lib/scripts/pick-random-line.js:63-68 | filtering distributes over concatenation, so the segments' order is kept |
| LibPickRandomLine.MatchingLinesSingle | lib/scripts/pick-random-line.js:65-67 | a single segment is kept exactly when its lowercased text contains the query |
| LibPickRandomLine.MatchingLinesMembers | lib/scripts/pick-random-line.js:63-68 | a line is matching exactly when it is a segment whose lowercased text contains the query |
| LibPickRandomLine.MatchingLinesEmpty | lib/scripts/pick-random-line.js:63-68 | no line matches exactly when no segment does |
| LibPickRandomLine.SearchThrowsIffMatch | lib/scripts/pick-random-line.js:72-77 | the search throws `Could not find a line containing "<query>"!` exactly when some segment matches, and otherwise gives `undefined` |
| LibPickRandomLine.SingleLineSearch | lib/scripts/pick-random-line.js:59-78 | a one-line document throws exactly when its line matches |
| LibPickRandomLine.CapitalQueryNeverMatches | lib/scripts/pick-random-line.js:65 | a query with an ASCII capital matches no line |
| LibPickRandomLine.CapitalQueryYieldsNothing | lib/scripts/pick-random-line.js:65-77 | a search for a query with an ASCII capital gives `undefined` whatever the document |
| LibPickRandomLine.SearchForPresentTextThrows | lib/scripts/pick-random-line.js:72-74 | searching "Banana" for "an" throws, though the text is there |
| LibPickRandomLine.IntendedSearch | lib/scripts/pick-random-line.js:59-78 | the corrected search; no ensures, characterised by IntendedSearchFindsContainingLine, IntendedSearchIgnoresQueryCase and IntendedSearchFindsCapitalQuery |
| LibPickRandomLine.IntendedSearchFindsContainingLine | lib/scripts/pick-random-line.js:59-78 | the corrected search fails exactly when no segment contains the query, ignoring case, and otherwise yields such a segment |
| LibPickRandomLine.IntendedSearchIgnoresQueryCase | lib/scripts/pick-random-line.js:65 | the corrected search succeeds for a query and for its lowercase form, or for neither, and with the same line; only the error message, which quotes the query, differs |
| LibPickRandomLine.IntendedSearchFindsCapitalQuery | lib/scripts/pick-random-line.js:65 | for "Banana" in "Banana" the code as written gives `undefined`; the corrected search gives the line |
| LibPickRandomLine.LineFromString | lib/scripts/pick-random-line.js:24-37 | `getLineFromString`; no ensures, characterised by BlankDocumentThrows, Dispatch, SearchedLinesYieldNothing and OnlyNumberedLinesComeOut |
| LibPickRandomLine.GetLineFromString | lib/scripts/pick-random-line.js:24-37 | the method computes `LineFromString` |
| LibPickRandomLine.BlankDocumentThrows | lib/scripts/pick-random-line.js:26-28 | a blank document throws "The remote document is empty!" for every `line` |
| LibPickRandomLine.Dispatch | lib/scripts/pick-random-line.js:32-36 | an `isNaN` `line` is searched for; an absent one is searched as "undefined"; any other goes to numbered selection with its `parseInt` value, a number or NaN, so the random branch at lines 50-55 is never reached from here |
| LibPickRandomLine.BlankDocumentLoopNeverStops | lib/scripts/pick-random-line.js:39-55 | `getNumberedLineFromString` has no blank check: for `null` on a blank document no draw sequence stops the retry loop |
| LibPickRandomLine.SearchYieldsNoLine | lib/scripts/pick-random-line.js:72-77 | a search throws or gives `undefined` |
| LibPickRandomLine.SearchedLinesYieldNothing | lib/scripts/pick-random-line.js:32-33 | every `line` sent to the search, an absent one included, yields no line |
| LibPickRandomLine.OnlyNumberedLinesComeOut | lib/scripts/pick-random-line.js:24-37 | any line that comes out came from numbered selection on a non-blank document with a numeric `line` |
| LibPickRandomLine.NumberedLineShape | lib/scripts/pick-random-line.js:43-45 | a line from numbered selection is the segment at that number |
| LibPickRandomLine.IntendedLineFromString | lib/scripts/pick-random-line.js:24-37 | `getLineFromString` with the corrected search; no ensures, characterised by IntendedLineFromStringKeepsNumbers and IntendedLineFromStringFinds |
| LibPickRandomLine.IntendedLineFromStringKeepsNumbers | lib/scripts/pick-random-line.js:24-37 | with the corrected search, blank documents and numeric `line`s are answered as the code as written answers them |
| LibPickRandomLine.IntendedLineFromStringFinds | lib/scripts/pick-random-line.js:32-78 | with the corrected search, a searched `line` yields a segment containing it, ignoring case, and fails exactly when there is none |
| LibPickRandomLine.ValidateParams | lib/scripts/pick-random-line.js:84-87 | the request is rejected with "The 'url' parameter is missing!" exactly when `params`, or its `url`, is missing or blank; otherwise `url` and `line` go on unchanged |

## Left out

- Network I/O. `http.request` and its options are not modelled, nor is the chunk accumulation in `handleRemoteResponse` (`scripts/pick-random-line.js:11-31, 55-78`). The finished transfer enters as a `Fetched` value. The model records the URL handed to `getLine`. It does not model which host and path `http.request` then contacts: the options built from `url.parse` carry only the host name and path, and the port test at line 16 reads the `url` module instead of the parsed parts, so the scheme, credentials and port are all dropped.
- The port mix-up at `scripts/pick-random-line.js:17-19`, noted only as a remark. It reads `url.port` (the module) instead of `urlParts.port`, so `requestOptions.port` is never set and a remote URL with another port is requested on the default port.
- `url.parse(..., true)` query decoding. This is a library call, and `HandleRequest` takes its result as the `parseQuery` function.
- Repeated query parameters. They make `parts.query.url` or `line` an array, and query values are modelled as strings only.
- `remoteDocumentLoader.loadAndParse` (`lib/scripts/pick-random-line.js:4, 9`). It is a module that is not part of this model.
- The Promise plumbing in `lib/` (lines 6-22, 81, 89-93), also noted only as a remark. `new Promise()` without an executor throws a `TypeError`, so as written the handler never reaches its validation. `handleRequest` never returns `p` on the valid path. `getLine` has no rejection handler for the loader. `ValidateParams` models lines 84-87 on their own.
- `winston` logging. It has no effect on the results.
- Uniformity and floating point of `Math.random()`. Draws are exact reals in [0, 1), and the model states which indices are admissible, not how likely each one is.
- PickRandomLine.GetLineFromString: the retry loop requires that some draw lands on a non-blank segment. The document is not blank there (line 82 returns first), and the JavaScript loop stops with probability 1.
- LibPickRandomLine.GetNumberedLineFromString: the retry loop requires that some draw lands on a non-blank segment. This excludes `null` with a blank document, where the JavaScript loop never stops (`BlankDocumentLoopNeverStops`). The function has no blank check of its own. It is safe only because its one caller tests for a blank document at line 26 and never passes `null`. For a document that is not blank, the loop stops with probability 1.
- JsString.ToLower: only the ASCII letters A-Z are mapped. JavaScript's full Unicode case mapping is not modelled.
- JsNumber.ParseInt: values are exact integers. Rounding beyond 2^53 is not modelled.
- JsNumber.NumberToString: always writes plain decimal digits. The exponent form `String(x)` takes from 10^21 is not modelled.
- LibPickRandomLine.LineFromString: an absent `line` is modelled as `undefined`, which is searched for as the text "undefined". A `null` `line` is not distinguished: `isNaN(null)` is false, so it would go to numbered selection with NaN and give `null`.
- PickRandomLine: JavaScript's `null` and `undefined` are one `None`, and an `Error` object passed to `onFailure` is its string form.
- LibPickRandomLine.IntendedLineFromString: the corrected entry point sits beside the one as written. The corrected members are IntendedLineFromString, IntendedSearch and Found, with the lemmas about them. Every other member models the code as written.
- UriComponent.Encode: the `URIError` for a lone surrogate cannot arise, because Dafny `char`s are Unicode scalar values.

## Findings

| source | as written | input that shows it | evidently intended | confidence | as-written member | corrected member |
|---|---|---|---|---|---|---|
| lib/scripts/pick-random-line.js:72 | `if (matchingLines.length)` throws "Could not find a line containing ..." when lines DO match, and otherwise reads an empty list, so the search never yields a line | document "Banana", query "an": throws | throw when no line matches, otherwise pick one of the matching lines | high (not executed) | LibPickRandomLine.SearchForPresentTextThrows | LibPickRandomLine.IntendedLineFromStringFinds |
| lib/scripts/pick-random-line.js:65 | only the line is lowercased, so a query with a capital letter never matches | document "Banana", query "Banana": gives `undefined` | compare case-insensitively by lowercasing the query too | high (not executed) | LibPickRandomLine.CapitalQueryYieldsNothing | LibPickRandomLine.IntendedSearchIgnoresQueryCase |
