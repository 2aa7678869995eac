# Game deals service: a Dafny model

The service keeps a list of discounted physical video-game deals for the French market. It
answers two requests at one endpoint, `netlify/functions/deals.js`:

- **list** (`GET ?q=&minDiscount=&maxPrice=`): takes the most recent stored deals and applies,
  in order:
  - an optional title search on normalised text;
  - a minimum discount and a maximum price;
  - a sort by discount, highest first;
  - a cut to 100 deals.
- **create** (`POST`): an administrator sends a deal with a token, and it goes through these
  steps in order:
  - the token is checked against a configured secret;
  - the fields are trimmed and checked;
  - the prices are checked;
  - the discount `cut` is derived and the record is completed with its fixed market
    (`FR`, `PHYSICAL`) before it is stored.

The model has seven modules:

| file | module | what it holds |
|---|---|---|
| `wrappers.dfy` | `Wrappers` | `Option`, with `GetOr` standing for JavaScript's `x || default` |
| `text.dfy` | `Text` | the JavaScript string operations the service uses: `trim` (the ECMAScript white-space and line-terminator set), `toLowerCase`/`toUpperCase` and `includes` |
| `normalizer.dfy` | `Normalizer` | `normalize`: lower-case, accent folding, separator squashing, trimming |
| `deals.dfy` | `Deals` | the record the writer builds (`Record`) and the stored document the reader receives (`Deal`), whose fields may be missing |
| `reader.dfy` | `Reader` | the list pipeline, see below |
| `writer.dfy` | `Writer` | the create decision, a pure function into an `Outcome` datatype with one variant per answer |
| `service.dfy` | `Service` | lemmas linking the two operations |

The list pipeline in `reader.dfy` is modelled twice:

- as functions (`Listing`), which carry the properties;
- as methods: `ListDeals` reads the query string into a `Query`, then `ListMatches`
  reassigns its deal list through the filters, as the handler does, and sorts an array in
  place with a stable insertion sort.

The methods are proved to compute the function.

Prices are Dafny `real`s. `Math.round` rounds halves upward, so `cut` is
`Floor(100 * (regular - price) / regular + 1/2)`.

## Model

| member | source | states |
|---|---|---|
| `Text.Trim` | netlify/functions/deals.js:8 | the result is a slice of the input that starts where the leading white space ends, and neither of its ends is white space |
| `Text.TrimStart` | netlify/functions/deals.js:8 | the result is a suffix of the input that starts with non-white space or is empty |
| `Text.TrimEnd` | netlify/functions/deals.js:8 | the result is a prefix of the input that ends with non-white space or is empty |
| `Text.TrimStartDropsWhitespace` | netlify/functions/deals.js:8 | everything `TrimStart` drops is white space, and it leaves nothing exactly when the input is all white space |
| `Text.TrimEndDropsWhitespace` | netlify/functions/deals.js:8 | everything `TrimEnd` drops is white space |
| `Text.TrimDropsWhitespace` | netlify/functions/deals.js:8 | everything `trim` drops, before and after the slice it keeps, is white space |
| `Text.TrimEmpty` | netlify/functions/deals.js:8 | `trim` gives the empty string exactly when the input is all white space |
| `Text.ToLower` | netlify/functions/deals.js:5 | lower-casing maps each character on its own and keeps the length |
| `Text.ToUpper` | netlify/functions/deals.js:81 | every character of the result is its own upper case and the result is never shorter; for an input without `ß`, the result has the same length and each character is the upper case of the input's character at that position |
| `Text.ToUpperKeepsUpperCase` | netlify/functions/deals.js:81 | upper-casing an upper-case string changes nothing |
| `Text.ToUpperSharpS` | netlify/functions/deals.js:81 | `ß` upper-cases to two letters: "straße" becomes "STRASSE" |
| `Text.TrimKeepsUpperCase` | netlify/functions/deals.js:81 | trimming an upper-case string leaves it upper-case |
| `Text.Includes` | netlify/functions/deals.js:58 | an empty search text occurs in every title, and a text longer than the title never occurs in it |
| `Text.IncludesAt` | netlify/functions/deals.js:58 | `h.includes(n)` holds exactly when `n` occurs in `h` at some position |
| `Normalizer.FoldChar` | netlify/functions/deals.js:6 | a character folds to at most one character; it vanishes exactly when it is a combining mark U+0300-U+036F; it changes only when it is an accented Latin-1 letter, and then becomes a letter `a`-`z`; letters and digits `a`-`z`, `0`-`9` are kept |
| `Normalizer.StripAccents` | netlify/functions/deals.js:6 | accent folding never lengthens the text, and no combining mark U+0300-U+036F is left in the result |
| `Normalizer.Squash` | netlify/functions/deals.js:7 | after replacing separator runs, only `a`-`z`, `0`-`9` and spaces remain, no two spaces are adjacent, and a leading letter or digit is kept |
| `Normalizer.Normalize` | netlify/functions/deals.js:3-9 | the result holds only `a`-`z`, `0`-`9` and spaces, never two spaces in a row, and no space at either end |
| `Normalizer.NormalizeField` | netlify/functions/deals.js:4 | the same shape for any field; a missing value normalises to the empty string |
| `Normalizer.CanonicalIsNormal` | netlify/functions/deals.js:3-9 | a string of that shape is its own normal form |
| `Normalizer.TrimKeepsSquashed` | netlify/functions/deals.js:7-8 | trimming the squashed text leaves no space at either end and keeps it squashed |
| `Normalizer.NormalizeIdempotent` | netlify/functions/deals.js:3-9 | normalising twice is normalising once |
| `Normalizer.NormalizeIsJoinedWords` | netlify/functions/deals.js:3-9 | the result is the maximal runs of letters and digits of the lower-cased, folded text, joined by single spaces |
| `Normalizer.NormalizeExamples` | netlify/functions/deals.js:3-9 | "Café—Déjà Vu!!" normalises to "cafe deja vu", and a missing value to "" |
| `Reader.CutOf` | netlify/functions/deals.js:60-63 | definition only: the discount the filter and the sort compare, `d.cut || 0`, so a missing discount counts as 0 |
| `Reader.PriceOf` | netlify/functions/deals.js:61 | definition only: the price the filter compares, `d.priceEur || 0`, so a missing price counts as 0 |
| `Reader.Keeps` | netlify/functions/deals.js:58-61 | the three filter tests; an empty search text keeps every deal |
| `Reader.ParseQuery` | netlify/functions/deals.js:43-46 | the search text is normalised, and empty when `q` is missing; a threshold is NaN exactly when its parameter is not a number; a missing `minDiscount` is 0 and a missing `maxPrice` is 999999 |
| `Reader.Filter` | netlify/functions/deals.js:58-61 | every deal a filter returns passes its test, and a filter never lengthens the list |
| `Reader.Matching` | netlify/functions/deals.js:58-61 | the three filters in the handler's order never produce more deals than the candidates |
| `Reader.FilterMembers` | netlify/functions/deals.js:58-61 | a deal is in a filter's result exactly when it is in the input and passes the test |
| `Reader.FilterAgainstNaN` | netlify/functions/deals.js:60-61 | a threshold that is not a number keeps no deal |
| `Reader.MatchingMembers` | netlify/functions/deals.js:58-61 | a deal survives the three filters exactly when it is a candidate with discount at least `minDiscount`, price at most `maxPrice`, and (for a non-empty query) a normalised title containing the query |
| `Reader.MatchingNotANumber` | netlify/functions/deals.js:60-61 | a NaN discount or price threshold leaves no match |
| `Reader.SortByCut` | netlify/functions/deals.js:63 | the sort keeps the length |
| `Reader.SortByCutPermutes` | netlify/functions/deals.js:63 | the sort only reorders: the same deals, each as often |
| `Reader.SortByCutSorted` | netlify/functions/deals.js:63 | the sorted discounts (missing counted as 0) never increase |
| `Reader.SortByCutStable` | netlify/functions/deals.js:63 | for each discount, the deals with it keep their input order |
| `Reader.InsertInPlace` | netlify/functions/deals.js:63 | one in-place insertion step, swapping the next deal down past those with a smaller discount, turns the array prefix into the functional insertion and leaves the rest alone |
| `Reader.SortByCutInPlace` | netlify/functions/deals.js:63 | the in-place array sort leaves the array equal to the stable functional sort of its old contents |
| `Reader.Listing` | netlify/functions/deals.js:58-65 | the page holds at most 100 deals and never more than the candidates |
| `Reader.ToArray` | netlify/functions/deals.js:56 | a fresh array holding the list |
| `Reader.ListMatches` | netlify/functions/deals.js:56-65 | the handler's reassign-filter, sort-in-place, slice sequence returns exactly `Listing` for the query |
| `Reader.ListDeals` | netlify/functions/deals.js:43-65 | reading the query string and running the pipeline returns exactly `Listing` of the parsed query |
| `Reader.ListingSound` | netlify/functions/deals.js:58-61 | every listed deal is a candidate with discount at least `minDiscount`, price at most `maxPrice`, and a normalised title containing the normalised query when there is one |
| `Reader.ListingComplete` | netlify/functions/deals.js:58-65 | every candidate that passes the filters is listed, unless the page holds 100 deals whose discounts are all at least its own |
| `Reader.ListingSorted` | netlify/functions/deals.js:63-65 | the page is ordered by discount, highest first |
| `Reader.ListingLength` | netlify/functions/deals.js:65 | the page holds `min(100, n)` deals for `n` matches |
| `Reader.ListingStable` | netlify/functions/deals.js:63-65 | for each discount, the listed deals with it are the first matches with it, and these are the matches among the candidates with that discount, in store order |
| `Reader.FilterCons` | netlify/functions/deals.js:58-61 | a filter decides the first deal on its own and then filters the rest |
| `Reader.FilterWithCut` | netlify/functions/deals.js:58-61 | filtering and then taking the deals of one discount gives the same list, in the same order, as taking them first and then filtering |
| `Reader.MatchingWithCut` | netlify/functions/deals.js:58-61 | the same for all three filters: the matches with a given discount are the candidates with it that match, in store order |
| `Reader.WithCutMembers` | netlify/functions/deals.js:63 | a deal is among those of discount `k` exactly when it is in the list and its discount (missing counted as 0) is `k` |
| `Reader.MatchingFirst` | netlify/functions/deals.js:58-61 | a first candidate that passes the filters stays the first match |
| `Reader.ListingFirst` | netlify/functions/deals.js:58-65 | the first candidate (the newest stored deal), when it passes the filters, is listed unless the page holds 100 deals whose discounts are all strictly larger than its own |
| `Reader.ListingNotANumber` | netlify/functions/deals.js:45-46 | a `minDiscount` or `maxPrice` that is not a number gives an empty page |
| `Writer.PresentedToken` | netlify/functions/deals.js:70 | the token is the trimmed lower-case header when that header is non-empty, the trimmed capitalised header otherwise |
| `Writer.Secret` | netlify/functions/deals.js:71-73 | the configured secret is trimmed, and empty when it is not configured |
| `Writer.Authorised` | netlify/functions/deals.js:71-76 | a request passes the token check only when a secret is configured and it presents a non-empty token |
| `Writer.TextField` | netlify/functions/deals.js:80-83 | a text field is trimmed, and empty when missing |
| `Writer.TextFieldBlank` | netlify/functions/deals.js:80-83 | a text field is empty exactly when it is missing or all white space |
| `Writer.PlatformField` | netlify/functions/deals.js:81 | the platform is trimmed and upper-case |
| `Writer.EanField` | netlify/functions/deals.js:106 | the record has a code exactly when the body has a non-empty one, and that code is the body's code trimmed |
| `Writer.Cut` | netlify/functions/deals.js:94 | `cut` is the integer nearest to the percentage saved, halves rounded up |
| `Writer.Refusal` | netlify/functions/deals.js:71-76 | the request is refused exactly when it is not authorised, and refused as a configuration error exactly when no secret is configured |
| `Writer.HasFields` | netlify/functions/deals.js:80-87 | definition only: title, platform, retailer and url are all non-empty once trimmed (the platform upper-cased first) |
| `Writer.HasPrices` | netlify/functions/deals.js:84-90 | definition only: both prices are finite numbers and the regular price is positive |
| `Writer.Validate` | netlify/functions/deals.js:87-92 | a body fails for missing fields exactly when a field is missing; it fails for bad prices exactly when the fields are present and the prices are not valid; otherwise it yields a valid record |
| `Writer.Build` | netlify/functions/deals.js:96-110 | a complete body with valid prices yields a valid record |
| `Writer.Create` | netlify/functions/deals.js:70-110 | a record is only ever created for an authorised request, and every created record is valid: trimmed non-empty text fields, an upper-case platform, a positive regular price, the rounded `cut`, market `FR`/`PHYSICAL`, a trimmed code; the answer is a malformed body exactly when the request is authorised and its body does not parse |
| `Writer.SecretCheckedFirst` | netlify/functions/deals.js:71-73 | a missing or blank secret fails every request, whatever its token and body |
| `Writer.TokenCheckedBeforeBody` | netlify/functions/deals.js:74-76 | a wrong or missing token is refused whatever the body, even a malformed one |
| `Writer.BlankHeaderRefused` | netlify/functions/deals.js:70-76 | a blank but non-empty lower-case header hides the capitalised one and the request is refused |
| `Writer.CreatedOnlyWithSecret` | netlify/functions/deals.js:70-78 | a created deal came with a non-empty token equal to the secret and a well-formed body |
| `Writer.FieldsCheckedBeforePrices` | netlify/functions/deals.js:87-92 | a body missing a field is refused as such, even when its prices are also bad |
| `Writer.PricesCheckedAfterFields` | netlify/functions/deals.js:87-92 | an authorised request whose fields are all present but whose price is not finite, or whose regular price is at most 0, is refused for bad prices |
| `Writer.UnparsedBodyRefused` | netlify/functions/deals.js:78 | an authorised request whose body does not parse fails as malformed |
| `Writer.EmptyBodyMissesFields` | netlify/functions/deals.js:78-89 | an authorised request without a body is missing its fields |
| `Writer.CreatedExactly` | netlify/functions/deals.js:87-110 | a deal is created exactly when the request is authorised, the fields are present and the prices valid; it is then the record the body describes |
| `Writer.BuildKeepsFields` | netlify/functions/deals.js:80-108 | the record carries the body's trimmed text, its upper-cased platform, its prices, its coordinates and its trimmed code (none for an empty or missing one) |
| `Writer.CutNotNegative` | netlify/functions/deals.js:94 | a price at most the regular one gives a discount of at least 0 |
| `Writer.CutAtMostHundred` | netlify/functions/deals.js:94 | a price of at least 0 gives a discount of at most 100 |
| `Writer.CutMonotone` | netlify/functions/deals.js:94 | a lower price never gives a smaller discount |
| `Writer.CutExamples` | netlify/functions/deals.js:94 | (40, 50) gives 20; (30, 50) gives 40; (60, 50) gives -20; a saving of exactly 0.5 % rounds to 1 and a loss of 0.5 % to 0 |
| `Service.CreatedIsListed` | netlify/functions/deals.js:56-110 | a created deal priced at most its regular price and at most 999999, once stored as the newest deal, is listed by a query without parameters, unless the page holds 100 deals whose discounts are all strictly larger than its own |
| `Service.ValidRecordIsListed` | netlify/functions/deals.js:56-65 | the same for any valid record stored as the newest deal, whatever the other stored deals |
| `Service.ValidRecordAloneIsListed` | netlify/functions/deals.js:56-65 | such a record, alone in the store, is exactly the page a query without parameters returns |

## Left out

- Firebase initialisation and its once-per-process guard (lines 11-22) are left out: they are foreign SDK calls and an environment read.
- The store query (lines 48-54) is left out. Its result (the at most 300 deals of the fixed market, newest first) is the `candidates` parameter of the list operation.
- The store write and its server timestamp (lines 109, 112) are left out. A `Created(record)` outcome is what would be written, and `Deals.Stored` is the document read back.
- The HTTP envelope is left out: CORS headers, the `OPTIONS` answer, the 405 answer, and the mapping of outcomes to status codes and JSON bodies (lines 25-36, 65, 75, 88, 91, 113-119).
- JavaScript coercions are left out: `String(...)`, `Number(...)`, `typeof` and `JSON.parse` of the body and the query. The model takes their results as parameters:
  - a text field is `None` when falsy;
  - a price is `None` when not a finite number;
  - a query number is `Absent`, `Number(v)` or `NotANumber`;
  - a body that does not parse is `None`.
  So a non-string title that `String` would turn into text is not modelled.
- Floating point is left out. Prices, thresholds and the discount arithmetic use exact reals, so IEEE-754 rounding is not modelled, and neither are infinite thresholds such as `maxPrice=Infinity`.
- Unicode case mapping and NFD decomposition are modelled only on ASCII and Latin-1:
  - `toLowerCase`/`toUpperCase` change A-Z, a-z and the Latin-1 letters (with `ß`, `ÿ` and `µ` upper-cased as in Unicode);
  - accent folding maps the accented Latin-1 lower-case letters to their base letter and drops the combining marks U+0300-U+036F;
  - every other character passes through unchanged.
- Deal fields that a stored document holds with a type other than the one the writer gives them are not modelled: `Deal` fields are typed, and possibly missing.
- `Reader.Filter`: its contract does not state that the order is kept, nor how often a deal occurs. Membership is stated by `FilterMembers`, and the order within each discount by `FilterWithCut`, `FilterCons` and `ListingStable`.
- Non-numeric query parameters: lines 45-46 apply the default only to a missing or empty `minDiscount`/`maxPrice`. Any other value goes through `Number(...)`, and a non-numeric one becomes `NaN`. Every comparison with `NaN` is false, so the page is empty (`Reader.ListingNotANumber`).
