# Web98 core in Dafny

Web98 is a browser for iOS whose pages do not exist anywhere. Suppose the user types an address or a
search, or follows a link or a form. A language model then writes the page on the fly, and the page
is shown as it streams in. This project models the sequential core of that browser and proves
properties of the model:

- **Address-bar text as an address** (`urls.dfy`, `url_helpers.dfy`). Typed text is read as a URL
  (`withNaturalString`), or else becomes a search (`withSearchQuery`, `googleSearch`).
  - The history key is used for deduplication (`historyKey`).
  - The display form drops the scheme and `www.` (`stripped`).
  - The host and query projections are `hostWithoutWWW`, `hasRootHost`, `isRootOfDomain` and
    `queryParam`.
  - A URL is an abstract record: scheme, host, path, query items and fragment.
  - `absoluteString` prints it, and `URLComponents(string:)` parses it. The parse splits the text
    as section 3 of RFC 3986 does, and the scheme follows the grammar of section 3.1.
- **The app's own URL conventions** (`url_web98.dfy`). The fake search engine's address
  (`searchURL`) is read back by `parsedAsSearchURL`. A form post is rewritten into an address whose
  query carries the form fields and a trailing `method=POST` (`convertPostBodyToQuery`).
  Its precondition is exactly what the code's force unwrap and its `[1]` index demand; the
  code traps where the precondition fails.
- **String helpers** (`string_helpers.dfy`, `text.dfy`). These are `byDroppingPrefix`,
  `nilIfEmpty` and `nilIfEmptyOrJustWhitespace`. `text.dfy` holds the pieces of Swift's string API
  the core relies on: splitting, joining, lower-casing, trimming, literal replacement and decimal
  printing.
- **GIF short links** (`gifs.dfy`). The table runs from names to archived GIF addresses. The model
  is shown short links `/gifs/<name>.gif` (`ids`, `allShortURLs`, `shortURL(forName:)`). The
  rewrite (`replaceShortURLsWithLongURLs`) puts the long addresses back into a generated page. The
  regular expression is modelled as a hand-written left-to-right scan with ICU's
  backtracking-greedy semantics.
- **Prompts and the page cache** (`prompting.dfy`). These are the fixed-shape conversations
  `genPrompt` and `genSearchSuggestionsPrompt`, and the `Cache` class.
- **Search suggestions** (`json.dfy`, `search_suggestions.dfy`). The model's reply is trimmed and
  unfenced, then decoded as a JSON array of strings (sections 2, 5 and 7 of RFC 8259). Placeholder
  rows pad the list to four.
- **The transition tracker** (`transitions.dfy`). `ManualTransitionView` keeps one session per
  model id, with phase pre-insert, inserted or removed.
  - `processChanged` updates these sessions in three passes.
  - A promote tick and per-id purge timers are explicit methods.
  - `sortedSessions` orders the sessions by insertion date.
- **The browser** (`browser.dfy`).
  - `navigateTo(query:)` is modelled.
  - The page-generation state machine of `showURL` is modelled: a cache hit or a miss, a streamed
    chunk, the stream's end, and the toolbar's cancel button. It is a pure `Next` function over a
    `View` value. `Browser.ShowUrl`, `OnChunk`, `OnEnd` and `CancelLoading` are proved to perform
    exactly those transitions.

Some facts go beyond the code's individual lines:

- Every rendered page begins with the viewport tag (`EveryRenderedPageHasViewport`).
- A cancelled or superseded stream renders nothing until its page is shown again
  (`CancelSilences`, `StaleStreamSilent`). Neither cancel nor a later `showURL` stops the stream,
  so once its page is shown again and missed, its chunks render again (`CancelledStreamResumes`).
- A model that disappears and comes back before its purge timer fires is still purged
  (`ReturnBeforePurgeIsDropped`).

Two further facts about the code:

- The history key drops only one leading `www` label. So `www.www.x` keys to `www.x`, and that
  in turn keys to `x` (`UrlHelpers.KeyNotIdempotent`).
- A rewritten form post reads as a post only when no item of the address and no form field is
  itself named `method`. `queryParam` returns the first item with the name, so a body field named
  `method` shadows the marker (`UrlWeb98.FieldShadowsMarker`).

Two defects in the code are listed under "## Findings". For each, the model has the code as
written and a corrected version. The browser uses the code as written: the page transform
(`Browsing.PageHtml`) rewrites with the pattern's unescaped dot, and the suggestions closure is
`ParseReply`. The corrected versions are `Gifs.Rewrite` with `LiteralDot` and
`ParseSuggestionsRetrying`.

The model is verified only. Nothing in it was executed.

## Model

| member | source | states |
|---|---|---|
| Text.SplitAtFirst | Web98/Utils/URLHelpers.swift:38 | the text before the first occurrence of a character and, when it occurs, the text after; rejoining them gives the text back |
| Text.SplitKeep | Web98/Utils/URLHelpers.swift:99 | `components(separatedBy:)`: at least one piece, none holding the separator |
| Text.JoinSplitKeep | Web98/Utils/URLHelpers.swift:99-103 | joining the pieces with the separator gives back the original text |
| Text.SplitKeepJoin | Web98/Utils/URLHelpers.swift:99-103 | splitting a join of separator-free pieces gives back the pieces |
| Text.SplitKeepAvoids | Web98/Utils/URLHelpers.swift:99 | a character absent from the text is absent from every piece |
| Text.SplitOmit | Web98/Utils/URLHelpers.swift:44 | `split(separator:)`: every piece is non-empty and free of the separator |
| Text.SplitOmitFirst | Web98/Utils/URLHelpers.swift:44 | a leading separator-free label is split off as the first piece |
| Text.SplitOmitLast | Web98/Utils/URLHelpers.swift:44 | a non-empty separator-free text is its own single piece |
| Text.LowerConcat | Web98/Utils/URLHelpers.swift:38 | lower-casing distributes over concatenation |
| Text.LowerUnchanged | Web98/Utils/URLHelpers.swift:38 | a text without upper-case letters is its own lower-case form |
| Text.LowerKeepsNonLetter | Web98/Utils/URLHelpers.swift:38 | lower-casing neither adds nor removes any character that is not a letter |
| Text.TrimStart | Web98/Utils/String+Helpers.swift:17 | what is removed is all white space, and what remains is a suffix not starting with white space |
| Text.TrimEnd | Web98/Utils/String+Helpers.swift:17 | what is removed is all white space, and what remains is a prefix not ending with white space |
| Text.TrimEmptyIff | Web98/Utils/String+Helpers.swift:17 | trimming yields "" exactly when every character is white space |
| Text.TrimFramed | Web98/SearchSuggestions.swift:54 | trimming removes exactly the white space around a text whose ends are not white space |
| Text.ReplaceAll | Web98/GIFs.swift:48 | `replacingOccurrences(of:with:)`: a replacement at least as long as the pattern never shortens the text |
| Text.ReplaceAllSkip | Web98/GIFs.swift:48 | a prefix in which no occurrence starts is copied unchanged |
| Text.ReplaceAllAbsent | Web98/GIFs.swift:48 | a text without an occurrence of the pattern is returned unchanged |
| Text.ReplaceAllOnce | Web98/GIFs.swift:48 | a single occurrence is replaced and nothing else changes |
| Text.JoinContains | Web98/Prompting.swift:23 | every piece of a join occurs in the joined text |
| Text.DecimalRoundTrip | Web98/SearchSuggestions.swift:45 | reading back the decimal form of `n` gives `n` |
| Text.NatToDecimalInjective | Web98/SearchSuggestions.swift:45 | distinct numbers are interpolated as distinct texts |
| StringHelpers.ByDroppingPrefix | Web98/Utils/String+Helpers.swift:4-10 | with the prefix, prefix + result is the string; without it, the string is returned unchanged |
| StringHelpers.DropsOneCopyOnly | Web98/Utils/String+Helpers.swift:4-10 | only one copy is dropped: "``````x" less "```" is "```x" |
| StringHelpers.NilIfEmpty | Web98/Utils/String+Helpers.swift:12-14 | nil iff the string is empty, otherwise the string |
| StringHelpers.NilIfEmptyOrJustWhitespace | Web98/Utils/String+Helpers.swift:16-21 | nil iff every character is white space or a newline, otherwise the string untrimmed |
| StringHelpers.BlankAwareRefinesEmpty | Web98/Utils/String+Helpers.swift:12-21 | whenever the blank-aware helper keeps a string it agrees with `nilIfEmpty` |
| Urls.SchemeRun | Web98/Utils/URLHelpers.swift:5 | the longest prefix made of scheme characters |
| Urls.Parse | Web98/Utils/URLHelpers.swift:4 | `URLComponents(string:)`; in this model it fails exactly on a text holding a character no URI may hold, and otherwise yields the record of the text's parts |
| Urls.AbsoluteString | Web98/Utils/URLHelpers.swift:38 | `absoluteString`; its contract is carried by `PrintParse`, `ParsePrint`, `PrintComponents` and `LowerAbsoluteString` |
| Urls.ToUrl | Web98/Utils/URLHelpers.swift:51 | `comps.url` is nil exactly when a path not starting with '/' follows a host, or a path starting with "//" has no host; otherwise it is the record itself |
| Urls.PrintComponents | Web98/Utils/URLHelpers.swift:51 | printing the parts of any text gives the text back |
| Urls.PrintParse | Web98/Utils/URL+Web98.swift:23 | `absoluteString` of a parsed text is that text |
| Urls.ParsePrint | Web98/Utils/URL+Web98.swift:23 | a well-formed record is parsed back from its `absoluteString` unchanged |
| Urls.ParsedIsUrl | Web98/Utils/URLHelpers.swift:51 | a parsed record always passes `comps.url`'s check |
| Urls.ItemRoundTrip | Web98/Utils/URL+Web98.swift:24 | a query item whose name has no '=' is parsed back from its printed form |
| Urls.QueryStringOfParse | Web98/Utils/URL+Web98.swift:24 | printing the items of a query gives the query back |
| Urls.ParseQueryOfString | Web98/Utils/URL+Web98.swift:24 | well-formed items are parsed back from their printed query |
| Urls.UrlCharsConcat | Web98/Utils/URLHelpers.swift:18 | a concatenation holds only URI characters iff both parts do |
| Urls.WellFormedWithScheme | Web98/Utils/URLHelpers.swift:39-41 | replacing the scheme of a well-formed record by another scheme keeps it well formed |
| Urls.LowerAbsoluteString | Web98/Utils/URLHelpers.swift:38 | lower-casing the printed text is printing the lower-cased record |
| Urls.LowerUrlChars | Web98/Utils/URLHelpers.swift:38 | lower-casing neither adds nor removes characters that no URI may hold |
| Urls.LowerKeepsWellFormed | Web98/Utils/URLHelpers.swift:38 | lower-casing keeps a record well formed |
| UrlHelpers.HttpsScheme | Web98/Utils/URLHelpers.swift:18 | "https://" + s always parses with scheme https |
| UrlHelpers.HasUrlScheme | Web98/Utils/URLHelpers.swift:3-8 | `stringHasURLScheme`; its contract is carried by `NaturalStringCases` and `SchemedTextKept` |
| UrlHelpers.WithNaturalString | Web98/Utils/URLHelpers.swift:11-19 | nil when the text holds neither ':' nor '.'; nil exactly then or when the text does not parse; a result always has a scheme |
| UrlHelpers.NaturalStringCases | Web98/Utils/URLHelpers.swift:15-18 | text naming a scheme is parsed as written and prints back as itself; otherwise the result is https and prints as "https://" + text |
| UrlHelpers.GoogleSearch | Web98/Utils/URLHelpers.swift:24-28 | prints as "https://google.com/search?q=" + q, and its `q` item is q |
| UrlHelpers.NaturalIsNotSearch | Web98/Utils/URLHelpers.swift:20-22 | no typed text reads as its own Google search |
| UrlHelpers.WithSearchQuery | Web98/Utils/URLHelpers.swift:20-22 | the text read as a URL when it reads as one, and its Google search exactly when it does not |
| UrlHelpers.ShouldDrop | Web98/Utils/URLHelpers.swift:131-139 | `shouldDropQueryItemForHistoryKey`: an empty or missing value, or a `utm_` name; its contract is carried by `KeptItems` |
| UrlHelpers.KeptItems | Web98/Utils/URLHelpers.swift:50 | an item is kept iff it is in the list and neither has an empty or missing value nor a `utm_` name |
| UrlHelpers.KeptItemsAppend | Web98/Utils/URLHelpers.swift:50 | filtering works item by item, so the kept items stay in their order |
| UrlHelpers.DropTrailingSlash | Web98/Utils/URLHelpers.swift:52-54 | removes exactly one trailing '/', when there is one |
| UrlHelpers.HistoryKey | Web98/Utils/URLHelpers.swift:37-60 | `historyKey`, also returned by `normalizedKey`; its contract is carried by `KeyOfWellFormed`, `HistoryKeyUnparsable`, `TwinsShareKey`, `KeyHasNoFragment`, `PlainHostKey` and `KeyNotIdempotent` |
| UrlHelpers.HistoryKeyUnparsable | Web98/Utils/URLHelpers.swift:38 | a URL whose lower-cased text does not parse is keyed by its own text, not lower-cased |
| UrlHelpers.KeyOfWellFormed | Web98/Utils/URLHelpers.swift:37-56 | the key of a well-formed URL with a host comes from its lower-cased record: http for https, no fragment, host labels less one "www", the kept items, less one trailing '/' |
| UrlHelpers.TwinsShareKey | Web98/Utils/URLHelpers.swift:39-41 | an https URL and its http twin have the same key |
| UrlHelpers.KeyIgnoresHttps | Web98/Utils/URLHelpers.swift:39-41 | the key's record does not depend on whether the scheme is https or http |
| UrlHelpers.KeyHasNoFragment | Web98/Utils/URLHelpers.swift:42 | the key of a well-formed URL with a host holds no '#' |
| UrlHelpers.StripOneWww | Web98/Utils/URLHelpers.swift:44-48 | exactly one leading "www" label is dropped: "www.www.x" becomes "www.x" |
| UrlHelpers.PlainHostKey | Web98/Utils/URLHelpers.swift:37-56 | the key of "http://" + h, for a plain lower-case host h, is its labels less one "www", less one trailing '/' |
| UrlHelpers.KeyNotIdempotent | Web98/Utils/URLHelpers.swift:44-47 | the key of www.www.x is "http://www.x", which parses, and whose own key is "http://x" |
| UrlHelpers.DropPrefixes | Web98/Utils/URLHelpers.swift:77-81 | after each prefix has been dropped at most once, what remains is a suffix of the text |
| UrlHelpers.StripDisplay | Web98/Utils/URLHelpers.swift:73-86 | the display form is a suffix of the text, possibly less one trailing '/' |
| UrlHelpers.StripText | Web98/Utils/URLHelpers.swift:76-85 | the loop of `stripped` computes the display form of the text |
| UrlHelpers.Stripped | Web98/Utils/URLHelpers.swift:73-86 | `stripped` is the display form of `absoluteString` |
| UrlHelpers.StripSecureWww | Web98/Utils/URLHelpers.swift:77-85 | "https://www." + r shows as r less a trailing '/' |
| UrlHelpers.StripOnceOnly | Web98/Utils/URLHelpers.swift:77-81 | each prefix goes at most once: "http://http://" + t shows as "http://" + t |
| UrlHelpers.JoinStripWww | Web98/Utils/URLHelpers.swift:99-103 | joining the '.'-pieces less a first "www" gives the host less "www.", "" for "www", and the host otherwise |
| UrlHelpers.HostWithoutWww | Web98/Utils/URLHelpers.swift:98-104 | the host less one leading "www.", "" for the host "www", and the host itself otherwise |
| UrlHelpers.HasRootHost | Web98/Utils/URLHelpers.swift:114-123 | holds iff the host less "www." is the given host or ends with "." + it; for the host "www", iff the given host is "" |
| UrlHelpers.SubdomainHasRootHost | Web98/Utils/URLHelpers.swift:114-123 | www.sub.root has the root host root |
| UrlHelpers.IsRootOfDomain | Web98/Utils/URLHelpers.swift:106-108 | holds iff the path is empty |
| UrlHelpers.NoComponentsIffEmpty | Web98/Utils/URLHelpers.swift:107 | a path has no components iff it is empty |
| UrlHelpers.FindName | Web98/Utils/URLHelpers.swift:127 | the position of the first item with the name; no earlier item has it |
| UrlHelpers.QueryParam | Web98/Utils/URLHelpers.swift:125-128 | the value of the first item with exactly that name, whatever it is; nil without a query or without such an item |
| UrlHelpers.FindNameAppend | Web98/Utils/URLHelpers.swift:127 | appended items count only when no earlier item has the name |
| UrlHelpers.QueryParamAppend | Web98/Utils/URLHelpers.swift:125-128 | after appending items, a name is found among the original items first |
| UrlWeb98.SearchUrl | Web98/Utils/URL+Web98.swift:4-8 | prints as "http://search.com/find?q=" + q, passes `comps.url`, has host search.com and `q` item q |
| UrlWeb98.ParsedAsSearchUrl | Web98/Utils/URL+Web98.swift:10-16 | nil for any host but search.com; for search.com, `queryParam("q")` |
| UrlWeb98.SearchRoundTrip | Web98/Utils/URL+Web98.swift:4-16 | the query is read back from its search address |
| UrlWeb98.SearchUrlWellFormed | Web98/Utils/URL+Web98.swift:4-8 | the search address of a plain query is a well-formed record |
| UrlWeb98.SearchTextRoundTrip | Web98/Utils/URL+Web98.swift:4-16 | the round trip also holds through the printed and reparsed text |
| UrlWeb98.GoogleIsNotSearch | Web98/Utils/URL+Web98.swift:11 | a Google search is never read as a query of the app's own engine |
| UrlWeb98.Fields | Web98/Utils/URL+Web98.swift:25 | one item per segment, named by its first '='-piece and valued by its second |
| UrlWeb98.BodyFields | Web98/Utils/URL+Web98.swift:25 | one item per non-empty '&'-segment, each with a non-empty name and value free of '=' and '&' |
| UrlWeb98.ConvertPostBodyToQuery | Web98/Utils/URL+Web98.swift:20-30 | nil iff there is no address; the address unchanged without a UTF-8 body; otherwise the reparsed address with its own items, then the body's fields, then method=POST |
| UrlWeb98.ConvertWellFormed | Web98/Utils/URL+Web98.swift:23-26 | for a well-formed address the result is that address with the fields and the marker appended |
| UrlWeb98.Lookup | Web98/Utils/URLHelpers.swift:127 | the first item with the name, or nil when no item has it |
| UrlWeb98.ConvertQueryParam | Web98/Utils/URL+Web98.swift:26 | a name is found among the address's items, then among the fields, and `method` falls through to POST |
| UrlWeb98.ConvertMarksPost | Web98/Utils/URL+Web98.swift:26 | without an earlier item named `method`, `queryParam("method")` of the result is POST |
| UrlWeb98.OneField | Web98/Utils/URL+Web98.swift:25 | the body n=v becomes the single item n=v |
| UrlWeb98.TwoFields | Web98/Utils/URL+Web98.swift:25 | the body n1=v1&n2=v2 becomes the two items in order |
| UrlWeb98.OnlyFieldFirst | Web98/Utils/URL+Web98.swift:25-26 | the only field of a query-less address is what `queryParam` finds for its name |
| UrlWeb98.FieldShadowsMarker | Web98/Utils/URL+Web98.swift:25-26 | a body field named `method` comes before the marker and shadows it |
| Gifs.Names | Web98/GIFs.swift:4 | the names of the entries, in order |
| Gifs.Table | Web98/GIFs.swift:4 | `namesToURLs`: its keys are the names, and each name maps to its address |
| Gifs.SharedDistinct | Web98/GIFs.swift:5-23 | the shared table's names are distinct, so its dictionary literal does not trap |
| Gifs.SharedLengthening | Web98/GIFs.swift:5-23 | every shared address is longer than its short link |
| Gifs.EntriesLengthening | Web98/GIFs.swift:45-46 | addresses ten characters longer than their names keep the rewrite from shortening the page |
| Gifs.LessIrreflexive | Web98/GIFs.swift:26 | Swift's string `<` is irreflexive |
| Gifs.LessTransitive | Web98/GIFs.swift:26 | Swift's string `<` is transitive |
| Gifs.LessTotal | Web98/GIFs.swift:26 | of two distinct strings one is less |
| Gifs.Insert | Web98/GIFs.swift:26 | inserting into a sorted list keeps it sorted and adds exactly the element |
| Gifs.Sort | Web98/GIFs.swift:26 | `sorted()` of distinct names is strictly sorted and a permutation |
| Gifs.Ids | Web98/GIFs.swift:25-27 | `ids` is strictly sorted, one per entry, and holds exactly the table's keys |
| Gifs.ShortUrl | Web98/GIFs.swift:33-36 | the short link is ten characters longer than the name |
| Gifs.ShortUrlChars | Web98/GIFs.swift:33-36 | the short link is "/gifs/", the name, ".gif", character by character |
| Gifs.AllShortUrls | Web98/GIFs.swift:29-31 | one short link per id, element i being the link of id i |
| Gifs.AlnumRun | Web98/GIFs.swift:40 | the maximal run of ASCII letters and digits at a position |
| Gifs.NameLength | Web98/GIFs.swift:40 | the greedy `+` backs off to the longest name after which the pattern completes |
| Gifs.MatchAt | Web98/GIFs.swift:40 | a match at i opens with "/gifs/", captures a non-empty run of letters and digits, and completes the pattern |
| Gifs.MatchesFrom | Web98/GIFs.swift:42 | the matches lie in the text, left to right, without overlapping |
| Gifs.Step | Web98/GIFs.swift:45-49 | one pass of the loop never shortens the text |
| Gifs.ApplyFrom | Web98/GIFs.swift:44-50 | the passes from the last match down never shorten the text |
| Gifs.Rewrite | Web98/GIFs.swift:38-52 | the rewrite as a function of the dot's reading; its contract is carried by `ReplaceShortUrlsWithLongUrls`, `ApplyFrom`, `NoMatchUnchanged`, `SingleShortUrl`, `LinkFreeUnchanged` and `ShadowedShortUrl` |
| Gifs.ReplaceShortUrlsWithLongUrls | Web98/GIFs.swift:38-52 | the loop over the matches in reverse computes the rewrite with the pattern as written |
| Gifs.ShortUrlMatches | Web98/GIFs.swift:40 | a short link of a name of letters and digits is matched, with exactly that name captured |
| Gifs.LiteralDotFindsShortUrls | Web98/GIFs.swift:40 | with the dot escaped, every match is exactly the short link of its name |
| Gifs.AnyCharMatchesNonShortUrl | Web98/GIFs.swift:40 | as written, "/gifs/" + name + any other character + "gif" is matched too |
| Gifs.NoMatchUnchanged | Web98/GIFs.swift:38-52 | a text with no match is returned unchanged |
| Gifs.NoKnownNameUnchanged | Web98/GIFs.swift:47-49 | when no captured name is in the table, the text is returned unchanged |
| Gifs.SingleShortUrl | Web98/GIFs.swift:44-50 | a single match of a known link occurring nowhere else is replaced by the table's address |
| Gifs.KeepsLinkFreePrefix | Web98/GIFs.swift:38-52 | a prefix in which no short link can start is kept by the rewrite |
| Gifs.LinkFreeUnchanged | Web98/GIFs.swift:38-52 | a text in which no short link can start is returned unchanged |
| Gifs.NoOpeningSkipped | Web98/GIFs.swift:42 | a stretch without "/gifs/" adds no match |
| Gifs.ShadowMatchesAsWritten | Web98/GIFs.swift:40-42 | as written, /gifs/n1/gifs/n2.gif has the one match /gifs/n1/gif |
| Gifs.ShadowMatchesIntended | Web98/GIFs.swift:40-42 | with the dot escaped, its one match is the short link of n2 |
| Gifs.ShadowOnlyOccurrence | Web98/GIFs.swift:48 | the short link of n2 occurs there once only |
| Gifs.ShadowedShortUrl | Web98/GIFs.swift:38-52 | as written the known link of n2 is left in place; with the dot escaped it is replaced |
| Prompting.GifList | Web98/Prompting.swift:23 | every short link of the table occurs in the joined list |
| Prompting.IsPost | Web98/Prompting.swift:20 | `queryParam(name: "method") == "POST"`; its contract is carried by `GenPrompt` and `UrlWeb98.ConvertMarksPost` |
| Prompting.GenPrompt | Web98/Prompting.swift:19-51 | four messages: the system instruction with the GIF list, the world as user, the POST instruction iff the address is a post and the plain one otherwise, and the `absoluteString` as user |
| Prompting.InstructionsDiffer | Web98/Prompting.swift:44-48 | the POST and plain instructions are different texts |
| Prompting.ListedBetween | Web98/Prompting.swift:24-42 | whatever surrounds the GIF list, each short link occurs in the whole |
| Prompting.PromptOffersEveryGif | Web98/Prompting.swift:32 | every short link of the table is offered in the first instruction |
| Prompting.GenSearchSuggestionsPrompt | Web98/Prompting.swift:53-77 | three messages: system instruction, the world as user, the request for links as system |
| Prompting.Cache.constructor | Web98/Prompting.swift:79-82 | a new cache is empty |
| Prompting.Cache.Lookup | Web98/Prompting.swift:81 | a hit iff the address is a key, with its stored page |
| Prompting.Cache.Store | Web98/Prompting.swift:81 | a write stores the page under its own address and no other entry changes |
| Json.SkipSpace | Web98/SearchSuggestions.swift:64 | skipping insignificant white space leaves a text not starting with it |
| Json.SkipSpaceLeading | Web98/SearchSuggestions.swift:64 | leading JSON white space is skipped exactly |
| Json.HexValue | Web98/SearchSuggestions.swift:64 | a hexadecimal digit's value is below 16 |
| Json.Hex4 | Web98/SearchSuggestions.swift:64 | four hexadecimal digits make a UTF-16 code unit |
| Json.PairScalar | Web98/SearchSuggestions.swift:64 | a surrogate pair stands for a scalar from U+10000 to U+10FFFF |
| Json.Escape | Web98/SearchSuggestions.swift:64 | an escape consumes input |
| Json.StringBody | Web98/SearchSuggestions.swift:64 | a string literal consumes input up to its closing quote |
| Json.Elements | Web98/SearchSuggestions.swift:64 | the elements of an array are at least one string and consume input |
| Json.DecodeStrings | Web98/SearchSuggestions.swift:64 | a decoded text starts, after white space, with '[' |
| Json.Hex4Digits | Web98/SearchSuggestions.swift:64 | four hexadecimal digits |
| Json.Hex4OfDigits | Web98/SearchSuggestions.swift:64 | the digits of a code unit read back as that unit |
| Json.HexDigit | Web98/SearchSuggestions.swift:64 | a digit reads back as its value |
| Json.HexPlaces | Web98/SearchSuggestions.swift:64 | the four places of a code unit recompose it |
| Json.Utf16Pair | Web98/SearchSuggestions.swift:64 | a scalar beyond the Basic Multilingual Plane has a high and a low surrogate |
| Json.PairScalarOfPair | Web98/SearchSuggestions.swift:64 | a surrogate pair stands for the scalar it was made from |
| Json.EscapePair | Web98/SearchSuggestions.swift:64 | a pair of `\u` escapes decodes to one character |
| Json.EscapeLoneLow | Web98/SearchSuggestions.swift:64 | a lone low surrogate is an error |
| Json.EscapeLoneHigh | Web98/SearchSuggestions.swift:64 | a high surrogate not followed by an escape is an error |
| Json.StringBodyChar | Web98/SearchSuggestions.swift:64 | decoding an encoded character consumes exactly its encoding |
| Json.EscapeControl | Web98/SearchSuggestions.swift:64 | a control character's `\u00XX` escape gives it back |
| Json.StringBodyEscaped | Web98/SearchSuggestions.swift:64 | an encoded string literal decodes to its text |
| Json.FirstString | Web98/SearchSuggestions.swift:64 | a first literal is read to its closing quote, whatever follows |
| Json.ElementsEncoded | Web98/SearchSuggestions.swift:64 | encoded elements closed by ']' decode to themselves |
| Json.LastElementEncoded | Web98/SearchSuggestions.swift:64 | a single encoded element closed by ']' decodes to itself |
| Json.DecodeArray | Web98/SearchSuggestions.swift:64 | an array is read from its opening bracket after white space |
| Json.DecodeEncoded | Web98/SearchSuggestions.swift:64 | decoding inverts encoding, with any white space around the array |
| Json.NoPads | Web98/SearchSuggestions.swift:64 | the layout without white space has one empty pad per element |
| Json.ElementsSpaced | Web98/SearchSuggestions.swift:64 | elements laid out with any white space around each, closed by ']', decode to themselves |
| Json.DecodeSpaced | Web98/SearchSuggestions.swift:64 | decoding inverts encoding in every layout: any white space around each element, inside an empty array and around the array |
| Json.CompactIsSpaced | Web98/SearchSuggestions.swift:64 | the compact encoding is the layout with no white space, so `DecodeEncoded` is a case of `DecodeSpaced` |
| Json.OnePerLineDecodes | Web98/SearchSuggestions.swift:64 | the one-per-line layout that the prompt asks for decodes to its strings |
| Json.ElementsUnclosed | Web98/SearchSuggestions.swift:64 | elements without a closing bracket do not decode |
| Json.DecodeUnclosed | Web98/SearchSuggestions.swift:64 | an array without its closing bracket does not decode |
| SearchSuggestions.DroppingSuffix | Web98/SearchSuggestions.swift:58-60 | with the suffix, result + suffix is the text; otherwise the text is unchanged |
| SearchSuggestions.ParseSuggestions | Web98/SearchSuggestions.swift:53-70 | the parsing closure as a function; its contract is carried by `FencedArrayDecodes`, `BareArrayDecodes`, `NotJsonIgnored` and `UnclosedArray` |
| SearchSuggestions.ParseReply | Web98/SearchSuggestions.swift:53-71 | the parsing closure returns the decoding of the trimmed, unfenced reply |
| SearchSuggestions.FenceAtStart | Web98/SearchSuggestions.swift:55 | the reply starts with a fence iff its first three characters are backquotes |
| SearchSuggestions.FenceAtEnd | Web98/SearchSuggestions.swift:58 | the reply ends with a fence iff its last three characters are backquotes |
| SearchSuggestions.FenceStrippedFenced | Web98/SearchSuggestions.swift:54-60 | one fence is removed from each end, with any white space around |
| SearchSuggestions.StripsAtMostOneFence | Web98/SearchSuggestions.swift:55-60 | a doubled fence keeps one copy at each end |
| SearchSuggestions.FenceStrippedBare | Web98/SearchSuggestions.swift:54-60 | a reply without fences is only trimmed |
| SearchSuggestions.EncodedEnds | Web98/SearchSuggestions.swift:64 | an encoded array starts with '[' and ends with ']' |
| SearchSuggestions.FencedArrayDecodes | Web98/SearchSuggestions.swift:54-65 | a fenced array of strings, with any JSON white space around each element and around the array, decodes to its elements in order |
| SearchSuggestions.BareArrayDecodes | Web98/SearchSuggestions.swift:54-65 | an unfenced array of strings, with any JSON white space around each element, decodes to its elements in order |
| SearchSuggestions.PromptLayoutReplyDecodes | Web98/SearchSuggestions.swift:54-65 | a reply in a code block with one address per line, as the prompt asks, decodes to its addresses |
| SearchSuggestions.NotJsonIgnored | Web98/SearchSuggestions.swift:66-67 | "not json" yields nil, which leaves the list as it was |
| SearchSuggestions.ElementsEndInQuote | Web98/SearchSuggestions.swift:63 | encoded elements end with a quote, so no fence is taken off them |
| SearchSuggestions.UnclosedArray | Web98/SearchSuggestions.swift:61-69 | a fenced array cut off before its ']' yields nil as written, and its elements with the retry |
| SearchSuggestions.UnclosedExample | Web98/SearchSuggestions.swift:61-69 | "```[\"a\",\"b\"" yields nil as written and ["a", "b"] with the retry |
| SearchSuggestions.ParseSuggestionsRetrying | Web98/SearchSuggestions.swift:61-69 | the retry changes nothing for a reply that already decodes |
| SearchSuggestions.PlaceholderNamesDistinct | Web98/SearchSuggestions.swift:45 | placeholder names of distinct numbers differ |
| SearchSuggestions.PlaceholderSuggestions | Web98/SearchSuggestions.swift:42-48 | max(0, 4 - shown) placeholders, nil counting as none, so at least four rows; named placeholder-0, placeholder-1, ..., pairwise distinct |
| ManualTransition.ById | Web98/ManualTransitionView.swift:39 | with distinct ids, the map's keys are the ids and each id maps to its model |
| ManualTransition.MarkRemoved | Web98/ManualTransitionView.swift:45-46 | the removed pass keeps the keys |
| ManualTransition.AddSessions | Web98/ManualTransitionView.swift:54-56 | the added pass adds exactly the added ids as keys |
| ManualTransition.Refresh | Web98/ManualTransitionView.swift:66-68 | the kept pass keeps the keys |
| ManualTransition.Processed | Web98/ManualTransitionView.swift:35-69 | keys become old keys and new ids; a vanished id becomes removed, keeping its model and date; a new id gets a pre-insert session with its model and `now`; a kept id takes the new model and keeps phase and date, even when removed; sessions stay keyed by their model's id |
| ManualTransition.Promoted | Web98/ManualTransitionView.swift:58-64 | no pre-insert session is left; models, dates and keys are unchanged, and other sessions are untouched |
| ManualTransition.Purged | Web98/ManualTransitionView.swift:47-51 | the session goes iff it is removed when the timer fires; nothing else changes |
| ManualTransition.MarkRemovedStep | Web98/ManualTransitionView.swift:46 | marking one more id removed extends the pass by that id |
| ManualTransition.MarkRemovedAbsent | Web98/ManualTransitionView.swift:46 | an id without a session is skipped by the optional chaining |
| ManualTransition.AddSessionsStep | Web98/ManualTransitionView.swift:55 | adding one more session extends the pass by that id |
| ManualTransition.AddSessionsPointwise | Web98/ManualTransitionView.swift:54-56 | a map with the added sessions and the old ones is the added pass |
| ManualTransition.AddSessionsNone | Web98/ManualTransitionView.swift:54-56 | adding no id changes nothing |
| ManualTransition.RefreshStep | Web98/ManualTransitionView.swift:67 | refreshing one more id extends the pass by that id |
| ManualTransition.RefreshNone | Web98/ManualTransitionView.swift:66-68 | refreshing no id changes nothing |
| ManualTransition.PromoteIdempotent | Web98/ManualTransitionView.swift:58-64 | a second promote tick changes nothing |
| ManualTransition.ReturnBeforePurgeIsDropped | Web98/ManualTransitionView.swift:43 | a model that vanishes and comes back before its timer stays removed, and the timer deletes its session, with or without a promote tick between |
| ManualTransition.ProcessedTakesListedModel | Web98/ManualTransitionView.swift:39 | every listed model becomes its session's latest model |
| ManualTransition.InsertByDate | Web98/ManualTransitionView.swift:32 | inserting adds exactly that session |
| ManualTransition.InsertMembers | Web98/ManualTransitionView.swift:32 | inserting adds that session and keeps the others |
| ManualTransition.InsertKeepsSorted | Web98/ManualTransitionView.swift:32 | inserting keeps the list in date order |
| ManualTransition.Tracker.constructor | Web98/ManualTransitionView.swift:14 | a tracker starts without sessions |
| ManualTransition.Tracker.ProcessChanged | Web98/ManualTransitionView.swift:35-69 | the new sessions are `Processed` of the old ones; purge timers start for exactly the vanished ids; sessions stay keyed |
| ManualTransition.Tracker.MarkRemovedPass | Web98/ManualTransitionView.swift:45-52 | the loop over removed ids computes the removed pass |
| ManualTransition.Tracker.AddPass | Web98/ManualTransitionView.swift:54-56 | the loop over added ids computes the added pass |
| ManualTransition.Tracker.RefreshPass | Web98/ManualTransitionView.swift:66-68 | the loop over kept ids computes the kept pass |
| ManualTransition.Tracker.Promote | Web98/ManualTransitionView.swift:58-64 | the tick computes `Promoted` and keeps the sessions keyed |
| ManualTransition.Tracker.Purge | Web98/ManualTransitionView.swift:47-51 | the timer computes `Purged` and keeps the sessions keyed |
| ManualTransition.Tracker.SortedSessions | Web98/ManualTransitionView.swift:31-33 | every session exactly once, in non-decreasing insertion date: a sorted permutation of the values |
| Browsing.PlainWordsSearched | Web98/Browser.swift:14 | words without ':' or '.' go to their search address, whose query reads them back |
| Browsing.SchemedTextKept | Web98/Browser.swift:14 | text naming a scheme is loaded as parsed |
| Browsing.BareHostSecured | Web98/Browser.swift:14 | a bare host name is loaded behind https:// |
| Browsing.TypedWordsShownBack | Web98/Toolbar.swift:86 | a typed search is shown again in the address bar once its page loads |
| Browsing.BrowserState.constructor | Web98/Browser.swift:10 | the unfocus counter starts at 0 |
| Browsing.BrowserState.NavigateTo | Web98/Browser.swift:12-20 | "" changes nothing; otherwise the counter goes up by one, and the target is loaded iff it differs from the current address |
| Browsing.ViewportLinkFree | Web98/Browser.swift:108 | no short link can start inside the viewport tag |
| Browsing.PageHtml | Web98/Browser.swift:106-109 | the chunk transform with the GIF pattern as written: every page it makes begins with the viewport tag and is no shorter than the tag and the unfenced reply |
| Browsing.Unfenced | Web98/Browser.swift:107 | the reply trimmed, less one leading fence and one `html` label; its contract is carried by `UnfencedFenced` |
| Browsing.TransformChunk | Web98/Browser.swift:106-109 | the source's rewrite loop, run on the tag and the unfenced reply, computes `PageHtml`, which begins with the viewport tag |
| Browsing.UnfencedFenced | Web98/Browser.swift:107 | white space, one fence and one `html` label are removed from around a page |
| Browsing.FencedPagePlain | Web98/Browser.swift:106-109 | a fenced reply without short links becomes the viewport tag and the page |
| Browsing.ChunkOf | Web98/Browser.swift:105-109 | the chunk event of a reply carries a page beginning with the viewport tag |
| Browsing.World | Web98/Browser.swift:103 | a blank stored prompt gives the built-in world, and any other prompt is used as it is |
| Browsing.StreamFor | Web98/Browser.swift:97-104 | `showURL` starts no stream iff the address is cached |
| Browsing.Next | Web98/Browser.swift:95-122 | the `showURL` state machine; its contract is carried by `ShowCases`, `ChunkRenderedIff`, `EndCases`, `NextFrame` and `NextKeepsViewported` |
| Browsing.NextFrame | Web98/Browser.swift:95-122 | only a chunk writes the cache, only under its own address; at most one page is rendered, after the earlier ones |
| Browsing.NextKeepsViewported | Web98/Browser.swift:108-114 | every event keeps each cached and rendered page beginning with the viewport tag |
| Browsing.ShowCases | Web98/Browser.swift:96-104 | `showURL` always sets the page being generated; a hit renders the cached page, leaves loading and starts nothing; a miss renders nothing, turns loading on and asks with four messages for the address in the stored world |
| Browsing.ChunkRenderedIff | Web98/Browser.swift:111-115 | a chunk always writes its page to the cache, and is rendered iff its address is being generated and loading is on |
| Browsing.EndCases | Web98/Browser.swift:118-122 | the end turns loading off iff its address is still being generated, and leaves the cache and the rendered pages alone |
| Browsing.RunKeepsViewported | Web98/Browser.swift:108-114 | any run of events keeps the pages beginning with the viewport tag |
| Browsing.EveryRenderedPageHasViewport | Web98/Browser.swift:108-114 | from an empty cache, every page ever rendered begins with the viewport tag |
| Browsing.CancelSilences | Web98/Toolbar.swift:54 | without loading and before the next `showURL`, nothing is rendered and loading stays off |
| Browsing.CancelThenSilent | Web98/Toolbar.swift:54 | after cancel, nothing is rendered until the next `showURL` |
| Browsing.CancelledStreamResumes | Web98/Toolbar.swift:54 | cancel only turns loading off: after `showURL`, cancel and `showURL` of the same uncached page, the old stream's chunk is rendered |
| Browsing.StaleStreamSilent | Web98/Browser.swift:112-121 | once another address is being generated, the old stream renders nothing, leaves loading and the generated address alone, and writes no other cache entry |
| Browsing.RevisitServedFromCache | Web98/Browser.swift:97-100 | an address whose chunk arrived is served from the cache when shown again, and no stream is started |
| Browsing.LoadingOutlivesItsStream | Web98/Browser.swift:118-121 | a cache hit during another page's stream leaves loading on, and that stream's end does not turn it off |
| Browsing.Browser.constructor | Web98/Browser.swift:29-30 | nothing is being generated, loading is off, nothing is rendered |
| Browsing.Browser.ShowUrl | Web98/Browser.swift:95-104 | the view moves by a `Show` event and the stream started is `StreamFor` |
| Browsing.Browser.OnChunk | Web98/Browser.swift:105-116 | the view moves by the chunk event of the transformed reply, whose page `TransformChunk` computes |
| Browsing.Browser.OnEnd | Web98/Browser.swift:118-122 | the view moves by an `End` event |
| Browsing.Browser.CancelLoading | Web98/Toolbar.swift:54 | the view moves by a `Cancel` event |

## Left out

- Characters are Unicode scalars, not grapheme clusters. Lower-casing covers ASCII letters only.
  White space for trimming is the six ASCII space and line-break characters only. Foundation's
  `whitespacesAndNewlines` also holds Unicode spaces such as U+00A0 and U+2028.
- URLs use the RFC 3986 character set for parsing. The authority is kept whole as the host, with
  no port or user-info split. Percent-encoding is not modelled.
- `URLComponents.url` is modelled only by its path check. A record's query items are assumed to
  print without escaping.
- `withScheme`, `stringsToSearchBasedOn`, `isAncestorOf`, `isDescendantOfApplicationsDir` and
  `inferredFaviconURL` are left out. They depend on Foundation URL resolution and on symlinks in
  the file system.
- Gifs.ReplaceShortUrlsWithLongUrls: the regular expression is modelled as a scan over characters.
  NSRange counts UTF-16 code units. The rewrite is stated on the shared table only through its
  properties, because a concrete rewrite over the seventeen literal addresses is too costly to
  unfold.
- The GIF library (`Gifs.shared`) is a parameter of the prompt and page functions. The entries of
  its literal are `Gifs.SharedEntries`.
- JSON decoding is modelled only for a top-level array of strings, which is what
  `JSONDecoder().decode([String].self, ...)` accepts. The UTF-8 encoding and validation of the
  data are not modelled.
- Network streaming, the OpenAI client, `temperature` and `Task`/`DispatchQueue` scheduling are
  left out. They are modelled as an explicit sequence of chunk and end events, or as method calls
  made in order.
- `evaluateJavaScript` with `encodedAsJSONString` is modelled as the `rendered` log of pages.
- `loadSimulatedRequest` is modelled as the address `NavigateTo` returns. The web view's address
  change that calls `showURL` is left to the caller.
- The `shouldBlockNavigation` handler is left out; it is UI plumbing around
  `convertPostBodyToQuery`. So are the SwiftUI views, the loading bar's float arithmetic, the
  `searchFocused` and `searchQuery` fields, and Settings.
- The stored prompt and model are fixed for a `Browser`'s lifetime. Editing them in Settings is
  not modelled.
- ManualTransition.Tracker.ProcessChanged: one clock value `now` is used for every id added in one
  call, where the code reads `Date()` once per id.
- ManualTransition.Tracker.ProcessChanged: the removal duration and the dispatch of the promote
  tick and the purge timers are not modelled. The method returns the ids whose timers start, and
  `Promote` and `Purge` are called explicitly.
- ManualTransition.Tracker.SortedSessions: Swift's sort is not stable, so the order of sessions
  with equal dates is left open, as in the code.
- SearchSuggestions.ParseReply: `compactMap` over the stream and the `@State` update are left out.
  A `None` result means the list is left as it was.

## Findings

| source | as written | input that shows it | evidently intended | confidence | as-written member | corrected member |
|---|---|---|---|---|---|---|
| Web98/GIFs.swift:40 | the pattern `/gifs/([a-zA-Z0-9]+).gif` leaves its `.` unescaped, so it matches any character before `gif` | `/gifs/x/gifs/Email3D.gif`: the scan matches `/gifs/x/gif`, skips past the real link, and the known link is never replaced | a literal dot, so that only short links match and every known link is replaced | high; not executed | Gifs.ShadowedShortUrl (first ensures, `AnyChar`), Gifs.AnyCharMatchesNonShortUrl | Gifs.LiteralDotFindsShortUrls, Gifs.ShadowedShortUrl (second ensures, `LiteralDot`) |
| Web98/SearchSuggestions.swift:66-67 | the `catch` returns nil on the first failure, so the `"]"`-appending second turn of the loop is never taken | a fence of three backquotes followed by `["a","b"` (a reply cut off before its `]`) yields nil | retry with `]` appended before giving up | high; not executed | SearchSuggestions.ParseReply, SearchSuggestions.UnclosedArray (first ensures) | SearchSuggestions.ParseSuggestionsRetrying, SearchSuggestions.UnclosedArray (second ensures) |
