# Derilinx geocoder: the address-to-coordinates core

The geocoder turns an Irish postal address into gazetteer rows that carry
GPS coordinates. Its core is two Python functions:

- `address_handler` splits the raw address into a flat list of upper-cased
  tokens. It splits on commas, drops empty segments, strips one leading space
  and every dot from each segment, then splits segments that hold a space into
  words and upper-cases every token.
- `extract_gps_coordinates` takes the last token as the county anchor. It
  tries the front token as a townland name in that county and pops it when no
  townland row matches. When only the county is left, it answers from the
  counties table.

The model is imperative, like the source:

- `AddressTokenizer.RemoveEmptySegments`, `CleanSegments` and `SplitSegments`
  are the three loops of `address_handler`.
- `ProgressiveMatcher.ExtractGpsCoordinates` is the `while` loop. It consumes
  the caller's list, an `AddressList` object, from the front.

Each loop is proved against a pure specification:

- `Tokenize` is the tokenizer written as a pipeline of filters and maps.
- `Resolution` and `Remaining` give the matcher's result and what is left of
  the caller's list. Both are defined through `FirstHit`, the index at which
  the loop stops.

These spec functions come with lemmas: the token shape, the order of the
tokens, the townland-match and county-fallback cases, and how the caller's
list is consumed.

Modules:

- `Outcomes`: the `IndexError` and `KeyError` exception outcomes.
- `PyText`: Python's `str.split(',')`, `str.split()`, `str.replace('.', '')` and `str.upper()`.
- `AddressTokenizer`: `address_handler`.
- `ProgressiveMatcher`: `extract_gps_coordinates`.
- `Geocoder`: the two calls made in sequence by the request handler.
- `TextExamples`, `TokenizerExamples` and `GeocoderExamples`: worked examples.

The model follows the code wherever its behaviour is easy to misread:

- **Adjacent empty segments.** The removal loop deletes from the list it
  iterates. After a removal, Python's list iterator skips the element that
  slid into place, and `list.remove('')` deletes the *first* empty segment.
  So of two adjacent empty segments (`"a,,,b"`, or `","`), one survives and
  raises `IndexError` at `word[0]`. The model returns `Err(IndexError)` in
  exactly that case. A lone empty segment (`"a,,b"`, or a leading or
  trailing comma) is dropped.
- **Whitespace-only segments.** These are not removed. `" "` loses its
  leading space and becomes the empty token `""`.
- **Two kinds of whitespace.** The segment test is a literal `' ' in word`.
  The split is `str.split()`, which splits on every character
  `str.isspace()` accepts; `PyText.IsPySpace` lists that set. A segment with
  a tab but no space stays one token.
- **Empty token list.** The loop never runs, and projecting four columns
  from the column-less `pandas.DataFrame()` raises `KeyError`. The model
  returns `Err(KeyError)`, not an empty result.
- **Search order.** For `JOHNSTOWN, BENNEKERRY, CO, CARLOW` the county plus
  the first word is tried first, so the spurious `CO` is tried third, after
  both real names (`ProgressiveMatcher.CarlowSearchOrder`).

## Model

| member | source | states |
|---|---|---|
| PyText.IsPySpace | derilinx_geocoder_api.py:167 | the characters `str.isspace()` accepts, the separators of `split()` (definition) |
| PyText.UpperChar | derilinx_geocoder_api.py:168-171 | one character upper-cased: a lower-case ASCII letter becomes its capital, every other character is kept |
| PyText.Upper | derilinx_geocoder_api.py:168-171 | `upper()` keeps the length and leaves no lower-case letter |
| PyText.UpperKeepsNonLetters | derilinx_geocoder_api.py:168-171 | upper-casing leaves every non-letter where it was, so a character that is not a letter occurs after upper-casing iff it occurred before |
| PyText.UpperIdempotent | derilinx_geocoder_api.py:168-171 | upper-casing an upper-cased token changes nothing |
| PyText.UpperAppend | derilinx_geocoder_api.py:168-171 | upper-casing distributes over concatenation |
| PyText.RemoveChar | derilinx_geocoder_api.py:160 | `replace('.', '')` leaves no dot, keeps every other character (as a set), shortens by the number of dots, and is the identity on a dot-free string |
| PyText.RemoveCharAppend | derilinx_geocoder_api.py:160 | removing dots works piece by piece over a concatenation, so the kept characters keep their order |
| PyText.RemoveCharLast | derilinx_geocoder_api.py:160 | a trailing dot after a dot-free string is dropped and the rest is kept in order |
| PyText.SplitOn | derilinx_geocoder_api.py:149 | `split(',')` gives one piece more than there are commas, and no piece holds a comma |
| PyText.JoinSplit | derilinx_geocoder_api.py:149 | joining the pieces with the separator gives the address back |
| PyText.SplitJoin | derilinx_geocoder_api.py:149 | splitting a join of separator-free pieces gives the pieces back |
| PyText.SplitOnField | derilinx_geocoder_api.py:149 | a separator-free field followed by a comma is split off as the first piece |
| PyText.SplitWs | derilinx_geocoder_api.py:167 | `split()`: the maximal runs of non-whitespace characters, in order (definition; its properties are the lemmas below) |
| PyText.SplitWsEmpty | derilinx_geocoder_api.py:167 | `split()` of the empty string has no word |
| PyText.SplitWsSkip | derilinx_geocoder_api.py:167 | a leading whitespace character is skipped, so leading whitespace and runs of whitespace between words produce no extra or merged words |
| PyText.SplitWsWords | derilinx_geocoder_api.py:167 | every word of `split()` is non-empty and holds no whitespace |
| PyText.SplitWsKeepsText | derilinx_geocoder_api.py:167 | the words of `split()` put back together are exactly the non-whitespace characters, in order |
| PyText.SplitWsField | derilinx_geocoder_api.py:167 | a word followed by whitespace is the first word of `split()` |
| PyText.SplitWsWord | derilinx_geocoder_api.py:167 | a non-empty string without whitespace is one word |
| AddressTokenizer.NonEmptySegments | derilinx_geocoder_api.py:152-154 | the intended filter keeps no empty segment and is never longer than its input |
| AddressTokenizer.NonEmptySegmentsAppend | derilinx_geocoder_api.py:152-154 | the filter distributes over concatenation, so the kept segments stay in order |
| AddressTokenizer.FirstEmpty | derilinx_geocoder_api.py:154 | the index `list.remove('')` acts on: an empty segment with none before it |
| AddressTokenizer.RemoveFirstEmpty | derilinx_geocoder_api.py:154 | `list.remove('')` deletes exactly the first empty segment: one element shorter, the elements before it unchanged, the ones after it shifted down by one |
| AddressTokenizer.RemoveEmptyKeepsNonEmpty | derilinx_geocoder_api.py:154 | a removal leaves the non-empty segments and their order unchanged |
| AddressTokenizer.RemoveEmptySegments | derilinx_geocoder_api.py:152-154 | the removal loop keeps every non-empty segment in order; its result holds an empty segment iff the input had two adjacent ones; otherwise it is exactly the filtered list |
| AddressTokenizer.CleanSegment | derilinx_geocoder_api.py:158-160 | a cleaned segment holds no dot, is not longer and brings in no new character; a dot-free segment loses exactly its leading space when it has one and is otherwise unchanged |
| AddressTokenizer.CleanAll | derilinx_geocoder_api.py:157-160 | every segment is cleaned at its own position |
| AddressTokenizer.CleanSegments | derilinx_geocoder_api.py:157-160 | the cleaning loop raises IndexError iff some segment is empty; otherwise it cleans every segment in place |
| AddressTokenizer.SegmentTokens | derilinx_geocoder_api.py:165-171 | the tokens of one segment: one token when it holds no space, otherwise one per `split()` word |
| AddressTokenizer.TokensOf | derilinx_geocoder_api.py:164-171 | the tokens of a segment list: each segment's tokens, concatenated in order (definition) |
| AddressTokenizer.SegmentTokensShape | derilinx_geocoder_api.py:164-171 | each token of a segment is upper-case, holds no space, and holds no non-letter that the segment did not |
| AddressTokenizer.SegmentContribution | derilinx_geocoder_api.py:164-171 | a segment without a space gives one token; one with a space gives its words in order, which together are its non-whitespace characters |
| AddressTokenizer.TokensOfAppend | derilinx_geocoder_api.py:164-171 | the tokens of consecutive segments are the tokens of each, concatenated left to right |
| AddressTokenizer.SplitSegments | derilinx_geocoder_api.py:164-171 | the nested append loops produce the segments' tokens concatenated in segment order |
| AddressTokenizer.Tokenize | derilinx_geocoder_api.py:149-171 | the tokenizer as a pipeline: comma split, empty segments filtered out, segments cleaned, tokens concatenated (definition; its shape is `TokenizeShape`) |
| AddressTokenizer.AddressHandler | derilinx_geocoder_api.py:134-172 | `address_handler` fails (IndexError) iff the comma split has two adjacent empty segments; otherwise it returns the pipeline's tokens |
| AddressTokenizer.TokensOfShape | derilinx_geocoder_api.py:164-171 | segments without commas and dots give only tokens that are upper-case and hold no comma, dot or space |
| AddressTokenizer.TokenizeShape | derilinx_geocoder_api.py:149-171 | every token of an address is upper-case and holds no comma, no dot and no space |
| TokenizerExamples.DocCommentExample | derilinx_geocoder_api.py:138 | "Johnstown, Bennekerry, Co Carlow" gives JOHNSTOWN, BENNEKERRY, CO, CARLOW |
| TokenizerExamples.LeadingSpaceDotExample | derilinx_geocoder_api.py:157-171 | " Foo., Bar": leading spaces and the dot go, giving FOO, BAR |
| TokenizerExamples.DoubleCommaExample | derilinx_geocoder_api.py:152-154 | "Foo,,Bar": the single empty segment is dropped, giving FOO, BAR |
| TokenizerExamples.TrailingCommaExample | derilinx_geocoder_api.py:152-154 | "Foo,": the empty segment after a trailing comma is dropped |
| TokenizerExamples.TripleCommaExample | derilinx_geocoder_api.py:152-158 | "Foo,,,Bar" has two adjacent empty segments, the case that reaches `word[0]` (the IndexError itself is `GeocoderExamples.TripleCommaGeocode`) |
| TokenizerExamples.EmptyAddressExample | derilinx_geocoder_api.py:149-154 | the empty address gives no token |
| TokenizerExamples.BlankSegmentExample | derilinx_geocoder_api.py:157-171 | a one-space segment is kept and becomes the empty token |
| TokenizerExamples.CountyOnlyExample | derilinx_geocoder_api.py:149-171 | a county name alone is one upper-cased token |
| ProgressiveMatcher.Select | derilinx_geocoder_api.py:191-192 | a row selection is never longer than the table, and every selected row matches |
| ProgressiveMatcher.SelectAppend | derilinx_geocoder_api.py:191-192 | a selection distributes over concatenation, so table order is kept |
| ProgressiveMatcher.SelectCount | derilinx_geocoder_api.py:191-197 | a matching row occurs as often in the selection as in the table, and a non-matching row never does |
| ProgressiveMatcher.SelectEmpty | derilinx_geocoder_api.py:190 | the selection is `.empty` iff no row of the table matches |
| ProgressiveMatcher.Lookup | derilinx_geocoder_api.py:191-197 | one iteration's rows: all in the anchor's county, and named after the front token unless it is the county lookup |
| ProgressiveMatcher.FirstHitFrom | derilinx_geocoder_api.py:190-200 | the stopping index from `i` on: no townland hit before it, and a hit at it unless it is the anchor |
| ProgressiveMatcher.FirstHit | derilinx_geocoder_api.py:190-200 | the loop stops within the list |
| ProgressiveMatcher.Resolution | derilinx_geocoder_api.py:189-202 | the matcher's return value: KeyError exactly on an empty list, otherwise the rows of the stopping iteration |
| ProgressiveMatcher.Remaining | derilinx_geocoder_api.py:200 | the caller's list after the `pop(0)`s: a suffix of it, strictly shorter when the list was not empty |
| ProgressiveMatcher.AddressList.constructor | derilinx_geocoder_api.py:236 | the caller's `address_list` as an object, holding the tokens it is made with |
| ProgressiveMatcher.ExtractGpsCoordinates | derilinx_geocoder_api.py:175-202 | the loop returns the rows of the iteration that stops it (KeyError on an empty list) and leaves the caller's list without its tried prefix |
| ProgressiveMatcher.StopIndex | derilinx_geocoder_api.py:190 | before the stopping iteration every lookup is empty, and an empty townland lookup is not the stopping one |
| ProgressiveMatcher.TownlandMatch | derilinx_geocoder_api.py:190-192 | with a townland hit at `k` and none before it, the result is exactly those rows, and the list keeps what follows `k` |
| ProgressiveMatcher.CountyFallback | derilinx_geocoder_api.py:196-197 | with no townland hit, the result is the county rows of the anchor, possibly none, and the list is used up |
| ProgressiveMatcher.SingleToken | derilinx_geocoder_api.py:191-197 | with a single token, the townland lookup is discarded for the county lookup |
| ProgressiveMatcher.TownlandLevelIff | derilinx_geocoder_api.py:190-197 | the loop stops before the anchor iff some candidate is a townland hit; a non-empty list always gives a result, and every row lies in the anchor's county |
| ProgressiveMatcher.ConsumedFromFront | derilinx_geocoder_api.py:190-200 | what is left is a proper suffix of the list, ending with the anchor while non-empty |
| ProgressiveMatcher.EmptyResultConsumesAll | derilinx_geocoder_api.py:190-200 | an empty result leaves an empty list |
| ProgressiveMatcher.TownlandMatchLeavesRest | derilinx_geocoder_api.py:190-200 | after a townland match the list is non-empty, and the number of tokens popped is one more than the matched index |
| ProgressiveMatcher.CarlowSearchOrder | derilinx_geocoder_api.py:178-182 | for the doc-comment tokens, JOHNSTOWN is tried first, then BENNEKERRY, then the spurious CO (a CO hit in CARLOW wins and leaves only CARLOW), and the counties table last |
| Geocoder.GeocodeResult | derilinx_geocoder_api.py:232-236 | the two calls' outcome: IndexError exactly when the comma split has two adjacent empty segments, otherwise the matcher's outcome on the tokens |
| Geocoder.Geocode | derilinx_geocoder_api.py:232-236 | the two calls in sequence: the tokenizer's IndexError first, else the matcher's outcome on the tokens |
| Geocoder.GeocodeOutcomes | derilinx_geocoder_api.py:232-236 | a request fails iff an empty segment survives or no token is left, with KeyError exactly in the second case; every returned row lies in the county named by the last token |
| GeocoderExamples.DocCommentGeocode | derilinx_geocoder_api.py:8 | the doc-comment address resolves to JOHNSTOWN's rows in CARLOW when there are any |
| GeocoderExamples.CountyOnlyGeocode | derilinx_geocoder_api.py:196-197 | a lone county is answered from the counties table |
| GeocoderExamples.EmptyAddressGeocode | derilinx_geocoder_api.py:189-202 | the empty address raises KeyError at the projection |
| GeocoderExamples.TripleCommaGeocode | derilinx_geocoder_api.py:152-158 | "Foo,,,Bar" raises IndexError |
| GeocoderExamples.LoneCommaGeocode | derilinx_geocoder_api.py:149-158 | "," raises IndexError |

## Left out

- The Flask application: the routes `home`, `page_not_found` and `api_filter`, `flask.jsonify`, `print` and `app.run()`. These are HTTP and console I/O. `Geocoder.Geocode` keeps only the two calls `api_filter` makes.
- Loading the two CSV gazetteers with `pandas.read_csv`. This is file I/O. Both tables are read-only sequences of rows passed as parameters, so the matcher cannot write them.
- The column projection at line 202. Both tables are assumed to have the four columns `County`, `English_Name`, `Y` and `X`, which makes the projection the identity on a `Place` row. Without an `English_Name` column in the counties table, line 202 would raise `KeyError` on every county-level answer. The run figures in the module's comments (lines 82-114) report 225 county-level answers and no failures, which supports the assumption. A county row carries whatever name field the counties table gives it.
- pandas cell values other than strings (NaN and numbers). Every cell is a string, and the matcher compares with exact string equality. `pandas.read_csv` reads an empty CSV field as NaN, and NaN equals no token. So the model's tables stand for files with no empty `County` or `English_Name` field; in the model the empty token of a blank segment could match a `""` row, which pandas never does.
- PyText.Upper: only ASCII `a`-`z` are upper-cased. Python's full Unicode case mapping, including characters whose upper case is longer, is not modelled.
- Percent-encoding of `&` and parsing of request arguments. These are the HTTP caller's concern.
- The performance figures and timings in the module's comments. They are not behaviour.
- Concurrency between requests. Each call is modelled on its own.
