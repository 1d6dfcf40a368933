# Etstur hotel scraper back end, modelled in Dafny

This project models the parts of the Etstur scraper back end that compute something:

- `generateHotelUrl` guesses a hotel's page address on www.etstur.com from its free-text name.
- `getHotelIdFromName` reads the hotel id from the Next.js page state embedded in that page.
- `searchHotels` keeps the hotel suggestions of the autocomplete endpoint.
- `fetchHotelData` posts a stay to the room API. It sends a Referer built with `URLSearchParams.set`.
- `parseRoomData` turns the room API's answer into a list of offers.
- `searchETSUrl` builds the listing address for a destination and a stay. The command line fills its counts with defaults.

HTTP requests, cheerio's HTML lookup and `JSON.parse` are not modelled. Each one is a field of the `Remote.Site` datatype (an oracle). Every property below holds whatever those oracles answer.

Modules, one per file:

- `Js` (js.dfy): the JavaScript semantics the code relies on:
  - JSON values plus `undefined`;
  - truthiness;
  - property reads that throw on `null` or `undefined`, and `?.`;
  - white space as `\s` and `trim` see it;
  - `String(n)` for integers;
  - `parseInt(s, 10)`.
- `Uri` (uri.dfy): `encodeURIComponent` as section 19.2.6 of ECMA-262 defines it, UTF-8 included. Also its inverse `decodeURIComponent`, used to state the round trip.
- `HotelUrl` (hotel_url.dfy): `generateHotelUrl` as its chain of string stages.
- `Remote` (remote.dfy): the oracles and the records sent to the room API.
- `HotelLookup` (hotel_lookup.dfy): `getHotelIdFromName`.
- `HotelSearch` (hotel_search.dfy): `searchHotels`.
- `UrlParams` (search_params.dfy): the `URLSearchParams` list and its `set` method. This follows section 6.2 of the WHATWG URL Standard, as a class updated in place.
- `HotelData` (hotel_data.dfy): `fetchHotelData`. The Referer is built by a method that calls `set` in a loop over the children's ages, as the code's `forEach` does.
- `RoomData` (room_data.dfy): `parseRoomData`. A JavaScript TypeError is the `Throw` outcome.
- `SearchListing` (search_url.dfy):
  - `searchETSUrl`;
  - the count defaults of src/main.js;
  - a parser for listing addresses, used to prove that the address determines its five arguments.

In three places `parseRoomData` does less than one might expect, and the model follows the code:

- Line 190 reads `room.subBoards[0]`: the first board option of every room is taken, with no availability check.
- Line 191 reads `subBoard.price.discountedPrice`: the total price has no fallback to the list price.
- A room whose `subBoards` is `[]` has `subBoard` undefined at line 190, so `.price` at line 191 throws and the whole call throws (`RoomData.EmptyBoardsThrow`).

## Model

| member | source | states |
|---|---|---|
| Js.Truthy | src/services/etsturService.js:42 | ToBoolean as `if (v)` tests it at lines 42, 50, 87, 126 and 182; `null` and `undefined` are never truthy |
| Js.Prop | src/services/etsturService.js:48 | `?.` is never an error; it is `undefined` unless the base is an object holding the key, and then it is that property |
| Js.Get | src/services/etsturService.js:189-191 | a property read throws exactly on `null`/`undefined` and otherwise reads like `?.` |
| Js.First | src/services/etsturService.js:190 | `v[0]` throws exactly on `null`/`undefined`, and gives the first element of a non-empty array |
| Js.TrimStart | src/services/etsturService.js:16 | the result is the input with exactly its leading white space removed: a suffix that does not start with white space, and everything cut off is white space |
| Js.TrimEnd | src/services/etsturService.js:16 | the result is the input with exactly its trailing white space removed: a prefix that does not end with white space, and everything cut off is white space |
| Js.Trim | src/services/etsturService.js:16 | `trim()` never lengthens the text, and a non-empty result neither starts nor ends with white space |
| Js.TrimEmptyIff | src/services/etsturService.js:16 | `trim` gives "" exactly for an all-white-space string |
| Js.NumberToString | src/services/etsturService.js:137-140 | `String(n)` is non-empty, starts with `-` exactly for a negative n, and is decimal digits after that |
| Js.ParseInt | src/services/etsturService.js:149 | `parseInt(s, 10)` is a number exactly when, after leading white space and one optional sign, the text starts with a decimal digit; otherwise it is NaN |
| Js.ParseIntOfDigits | src/services/etsturService.js:149 | `parseInt` of a string of decimal digits is the number they write |
| Js.ParseIntOfNegatedDigits | src/services/etsturService.js:149 | `parseInt` of a minus sign followed by decimal digits is that number negated |
| Js.ParseIntOfNumberToString | src/services/etsturService.js:149 | `parseInt(String(n), 10) == n` for every integer n |
| Js.NumberToStringInjective | src/services/etsturService.js:140 | distinct integers print as distinct text |
| Uri.EncodeURIComponent | src/services/etsturService.js:76 | the encoded component is never shorter than the component (used at etstur.js:8 too) |
| Uri.EncodedCharset | src/scrapers/etstur.js:8 | every character of an encoded component is unreserved or `%` |
| Uri.EncodeIsIdentityIff | src/scrapers/etstur.js:8 | encoding leaves a string unchanged if and only if all its characters are unreserved; it never shortens |
| Uri.DecodeEncode | src/scrapers/etstur.js:8 | decoding an encoded component gives back the original string |
| Uri.EncodeInjective | src/scrapers/etstur.js:8 | distinct components encode differently |
| Uri.EncodeAppend | src/scrapers/etstur.js:8 | encoding works character by character: the code of a concatenation is the concatenation of the codes |
| Uri.ExampleCommaSpace | src/scrapers/etstur.js:8 | "x, y" encodes as the code of x, then `%2C%20`, then the code of y |
| Uri.DateUnchanged | src/scrapers/etstur.js:8 | a date made of digits and dots, such as DD.MM.YYYY, is left unchanged |
| Uri.ExampleTwoByte | src/scrapers/etstur.js:8 | ç becomes `%C3%A7`: two UTF-8 bytes, upper-case hex digits |
| Uri.ExampleFourByte | src/scrapers/etstur.js:8 | a character outside the Basic Multilingual Plane becomes four `%XX` triples |
| HotelUrl.BeforeFirstComma | src/services/etsturService.js:9 | the result is a prefix without a comma, and the input continues with a comma when it is longer |
| HotelUrl.GenerateHotelUrl | src/services/etsturService.js:8-22 | the address is `https://www.etstur.com/` followed by a slug of ASCII letters, digits and hyphens; a capital only opens a hyphen-separated word; the address is the bare base exactly when the name before its first comma has no letter, digit or hyphen (an empty or all-blank name included) |
| HotelUrl.IgnoresTextAfterComma | src/services/etsturService.js:8-9 | `generateHotelUrl(a + "," + b) == generateHotelUrl(a)` for all a and b |
| HotelUrl.CleanNameIsTransliteration | src/services/etsturService.js:11-15 | lower-casing, NFD, mark stripping, the six replacements and the character filter amount to one per-character transliteration: ç ğ ı ö ş ü and their capitals become c g i o s u, ASCII capitals are lowered, other characters outside [a-z0-9\s-] vanish |
| HotelUrl.CleanName | src/services/etsturService.js:11-15 | after lower-casing, NFD, mark stripping, the replacements and the filter, only [a-z0-9-] and white space are left |
| HotelUrl.SplitOnWhiteSpace | src/services/etsturService.js:17 | at least one piece; the first piece is non-empty when the text starts with a non-blank |
| HotelUrl.SplitOfSpaced | src/services/etsturService.js:17 | for text made of words separated by runs of white space, `split(/\s+/)` returns exactly those words, in order |
| HotelUrl.SpacedParts | src/services/etsturService.js:16-17 | trimmed non-empty text is always words separated by runs of white space |
| HotelUrl.SpacedSplit | src/services/etsturService.js:16-17 | for trimmed non-empty text, the pieces of `split(/\s+/)` are its words, with only white space between them |
| HotelUrl.SplitOfCleanText | src/services/etsturService.js:15-17 | every piece of cleaned text holds only [a-z0-9-] |
| HotelUrl.Capitalize | src/services/etsturService.js:18 | `charAt(0).toUpperCase() + slice(1)` keeps the length and every character after the first; a word not starting with a lower-case letter is unchanged |
| HotelUrl.CapitalizeShape | src/services/etsturService.js:18 | a capitalised word keeps its length and every letter after the first; a lower-case first letter becomes its capital, and no later letter is a capital |
| HotelUrl.CapitalizeAll | src/services/etsturService.js:18 | one capitalised word per word, in order |
| HotelUrl.JoinWithHyphens | src/services/etsturService.js:19 | `join("-")` starts with the first word, and a hyphen follows it when there are more words |
| HotelUrl.JoinShape | src/services/etsturService.js:19 | joining slug words keeps the slug alphabet, and a capital still only opens a word, now after a hyphen |
| HotelUrl.SlugOf | src/services/etsturService.js:10-19 | no contract of its own: HotelUrl.SlugShape, HotelUrl.SlugEmptyIfWhiteSpace and HotelUrl.GenerateHotelUrlWords state what it computes |
| HotelUrl.GenerateHotelUrlWords | src/services/etsturService.js:8-22 | the address is the base followed by the words of the transliterated name before its first comma, each capitalised, joined by single hyphens |
| HotelUrl.GenerateHotelUrlHasWords | src/services/etsturService.js:8-22 | a name whose transliteration is not blank splits into its words, and the slug is exactly those words capitalised and joined by hyphens |
| HotelUrl.SlugShape | src/services/etsturService.js:10-19 | the slug holds only [A-Za-z0-9-], and capitals only open words |
| HotelUrl.SlugEmptyIff | src/services/etsturService.js:10-19 | the slug is empty if and only if no character of the name is a letter, digit or hyphen |
| HotelUrl.TransliterateWordChar | src/services/etsturService.js:11-15 | a character turns into white space or nothing exactly when it is not a letter, digit or hyphen |
| HotelLookup.GetHotelIdFromName | src/services/etsturService.js:27-66 | a found hotel carries the generated address and a truthy id |
| HotelLookup.LookupAt | src/services/etsturService.js:31-65 | a found hotel carries the address that was fetched and a truthy id |
| HotelLookup.LookupOutcome | src/services/etsturService.js:31-65 | the result is `null` exactly when the page fails, the `__NEXT_DATA__` script is missing or empty, the JSON does not parse, or `props.pageProps.data.hotelId` is falsy; otherwise it is that id with the fetched address |
| HotelLookup.NextDataHotelId | src/services/etsturService.js:48 | the optional chain is `undefined` when the parsed JSON is not an object holding `props` |
| HotelLookup.NextDataHotelIdOf | src/services/etsturService.js:48 | the optional chain reads `hotelId` whenever all four levels are present |
| HotelLookup.LookupFindsStringId | src/services/etsturService.js:47-52 | a page state holding a non-empty string id yields that id |
| HotelLookup.LookupIgnoresTextAfterComma | src/services/etsturService.js:27-28 | two names that agree before their first comma resolve alike |
| HotelSearch.SearchUrl | src/services/etsturService.js:76 | the autocomplete address is the fixed prefix followed by an encoded query, which decodes back to the query |
| HotelSearch.FilterHotels | src/services/etsturService.js:88 | the filter never returns more items than it was given |
| HotelSearch.FilterHotelsSpec | src/services/etsturService.js:88 | the filter throws exactly when an item is null or undefined; otherwise it keeps exactly the items whose `type` is "HOTEL" |
| HotelSearch.FilterHotelsAppend | src/services/etsturService.js:88 | filtering keeps the original order (it distributes over concatenation) |
| HotelSearch.FilterHotelsKeepsHotels | src/services/etsturService.js:88 | a list made only of hotels is kept whole |
| HotelSearch.SearchHotels | src/services/etsturService.js:75-103 | every returned item is a hotel |
| HotelSearch.SearchHotelsOutcome | src/services/etsturService.js:80-102 | the result is `[]` unless the request succeeds with a truthy payload, a truthy `success` and an array `result` without null items; then it is exactly the hotel items, in order |
| UrlParams.RemoveName | src/services/etsturService.js:135-140 | no pair with the name is left, and every other pair is kept |
| UrlParams.Lookup | src/services/etsturService.js:135-140 | `get` is absent exactly when no pair has the name, and a found value is paired with the name in the list |
| UrlParams.SetParam | src/services/etsturService.js:135-140 | after `set(n, v)` the list holds the pair (n, v) |
| UrlParams.SetParamLookup | src/services/etsturService.js:135-140 | after `set(n, v)`, `get(n)` is v and every other name reads as before |
| UrlParams.SetParamKeepsPosition | src/services/etsturService.js:135-140 | setting a name the list already holds puts the new value at that name's first position and leaves the pairs before it unchanged |
| UrlParams.SetParamFresh | src/services/etsturService.js:135-140 | setting a name the list lacks appends the pair |
| UrlParams.SetParamNames | src/services/etsturService.js:135-140 | after `set(n, v)` the list holds the new pair and the old pairs of other names, nothing else |
| UrlParams.RemoveNameDistinct | src/services/etsturService.js:135-140 | removing a name keeps the names distinct |
| UrlParams.SetParamDistinct | src/services/etsturService.js:135-140 | `set` keeps the names distinct and holds the new pair |
| UrlParams.SearchParams.constructor | src/services/etsturService.js:134 | the search parameters of the query-less hotel address start empty |
| UrlParams.SearchParams.Set | src/services/etsturService.js:135-140 | the in-place pass leaves the list that the standard's `set` describes |
| HotelData.Ages | src/services/etsturService.js:118 | an absent `childrenAges` is `[]` |
| HotelData.ReplaceDashes | src/services/etsturService.js:135-136 | every `-` becomes `.`, every other character and the length stay |
| HotelData.ChildAgeNameInjective | src/services/etsturService.js:140 | distinct children get distinct `childage_1_i` names |
| HotelData.RefererNamesDistinct | src/services/etsturService.js:134-141 | no parameter name of the Referer occurs twice |
| HotelData.RefererReadsBack | src/services/etsturService.js:134-141 | the Referer carries the dates with dots for hyphens, `adults`, the number of children and, under `childage_1_i`, the i-th age |
| HotelData.StaySets | src/services/etsturService.js:135-138 | the four `set` calls on an empty query give the check-in, check-out, adults and child-count pairs in that order |
| HotelData.ChildAgeSet | src/services/etsturService.js:139-141 | each child's age parameter is a new name, so it is appended after the ones before it |
| HotelData.BuildReferer | src/services/etsturService.js:134-141 | the sequence of `set` calls and the loop over the ages leave four stay parameters, then one parameter per child in order |
| HotelData.RoomRequestFor | src/services/etsturService.js:144-154 | the body carries the dates as given, `parseInt(adults, 10)`, the ages unchanged, their count, and no infants |
| HotelData.AdultsAgree | src/services/etsturService.js:137-149 | for an integer `adults`, the body's adult count is that integer and the Referer's `adult_1` is its decimal text |
| HotelData.FetchHotelData | src/services/etsturService.js:117-178 | `null` when the lookup fails, whatever the room API would say; otherwise the room API's answer to this body and Referer, or `null` when the post fails |
| RoomData.MapAll | src/services/etsturService.js:188-203 | `map` with a callback that may throw: it throws exactly when one element fails; otherwise it returns one image per element, in order |
| RoomData.ParseDailyPrice | src/services/etsturService.js:192-196 | a night throws exactly when it is null or undefined; otherwise it keeps only its date, amount and currency |
| RoomData.ItemsToMap | src/services/etsturService.js:188 | only an array can be mapped |
| RoomData.ParseRoom | src/services/etsturService.js:188-202 | the callback throws on a `null` or `undefined` room |
| RoomData.ParseRoomSpec | src/services/etsturService.js:188-203 | a room gives an offer exactly when it is well formed; the offer has the room's name, the first board option's discounted price, and that option's nights in order |
| RoomData.ParseRoomData | src/services/etsturService.js:181-206 | `[]` unless the answer, `success`, `result` and `result.rooms` are all truthy; otherwise one offer per room |
| RoomData.ParseRoomDataSpec | src/services/etsturService.js:181-206 | the call throws exactly when the guard passes but the rooms are not an array or one room is malformed; otherwise offer i comes from room i |
| RoomData.EmptyBoardsThrow | src/services/etsturService.js:190-191 | one room with `subBoards: []` makes the whole call throw |
| SearchListing.SearchETSUrl | src/scrapers/etstur.js:7-10 | the listing address starts with `https://www.etstur.com/` |
| SearchListing.EncodedHasNoSeparator | src/scrapers/etstur.js:8 | no encoded component contains `?`, `&`, `=`, `/`, `#` or a space |
| SearchListing.EncodeNumber | src/scrapers/etstur.js:8 | an integer count is written as its plain decimal text |
| SearchListing.Split4Fields | src/scrapers/etstur.js:8 | a query the reader accepts is exactly four `&`-free fields joined by `&`; a fifth field is refused |
| SearchListing.QueryFieldsOf | src/scrapers/etstur.js:8 | the query is accepted as exactly four fields (none holds an `&`), which read back as the two dates and the two counts |
| SearchListing.SearchUrlRoundTrip | src/scrapers/etstur.js:7-10 | reading the address back gives the destination, both dates and both counts it was built from |
| SearchListing.SearchUrlInjective | src/scrapers/etstur.js:7-10 | different searches give different addresses |
| SearchListing.CountOrDefault | src/main.js:23-24 | `parseInt(text, 10) \|\| d` is d for NaN and for 0, and the parsed value otherwise |
| SearchListing.AdultCountDefaults | src/main.js:23 | the adult count is never 0; a blank or non-numeric answer means 1; a typed integer is kept |
| SearchListing.ChildCountDefaults | src/main.js:24 | the child count is the typed integer, and 0 when the answer is not a number |

## Left out

- HTTP and parsing: the `axios.get` and `axios.post` calls, `cheerio.load(...)('#__NEXT_DATA__').html()` and `JSON.parse` are oracles. Their request headers and the room API's fixed address are not modelled.
- `console` logging is left out. The `error.response` details printed in the `catch` blocks are left out too.
- The code is asynchronous. The model is sequential, because each function awaits its one request in order.
- HotelUrl.GenerateHotelUrl: requires the text before the first comma to be ASCII plus ç ğ ı ö ş ü Ç Ğ İ Ö Ş Ü. Full Unicode `toLowerCase` and `normalize("NFD")` are modelled only on that alphabet.
- HotelLookup.GetHotelIdFromName: has the same alphabet requirement, because it calls `generateHotelUrl`.
- HotelData.FetchHotelData: has the same alphabet requirement on `hotelName`.
- HotelData.FetchHotelData: several inputs are simplified:
  - `adults` is taken as the text `String(adults)`;
  - the ages are integers;
  - `checkIn` and `checkOut` are strings.

  A `null` `childrenAges`, or a non-string date, makes the code throw. That path is not modelled.
- HotelData.BuildReferer: the Referer is the hotel address plus its list of query pairs. The `href` serialisation (application/x-www-form-urlencoded) is not modelled. `new URL(hotelUrl)` is taken to start with no query; the slug's character set (`HotelUrl.IsSlug`) guarantees the address has no `?` or `#`.
- Js.ParseInt: the value is an unbounded integer. JavaScript rounds it to the nearest double, so beyond 2^53 `parseInt("12345678901234567", 10)` is 12345678901234568. This affects the adult count at src/services/etsturService.js:149 and the counts at src/main.js:23-24 only for such huge inputs.
- Js.ParseIntOfDigits: exact only while the digits write a number of at most 2^53, for the same rounding reason.
- Js.ParseIntOfNegatedDigits: exact only while the digits write a number of at most 2^53, for the same rounding reason.
- Js.ParseIntOfNumberToString: exact only for |n| up to 2^53, for the same rounding reason.
- HotelLookup.LookupAt: the success log at src/services/etsturService.js:51 formats the id with `${hotelId}`. For an object id whose own `toString` is not a function, such as `{"toString":1}`, that throws a TypeError, and the `catch` turns it into `null`; the model returns the id. String conversion of JSON values is not modelled.
- HotelLookup.GetHotelIdFromName: the same logging TypeError is not modelled.
- Uri.EncodeURIComponent: strings are sequences of Unicode scalar values, so a lone surrogate, on which `encodeURIComponent` throws a URIError, cannot be given to it.
- HotelSearch.SearchHotels: the URIError that `encodeURIComponent(query)` raises on a lone surrogate is not modelled. It would be raised at src/services/etsturService.js:76, before the `try` at line 79, so the returned promise rejects instead of resolving to `[]`.
- SearchListing.SearchETSUrl: the URIError that `encodeURIComponent` raises on a lone surrogate in any argument (src/scrapers/etstur.js:8) is not modelled; the call would throw instead of returning an address.
- Js.NumberToString: covers integers only. Exponent notation from 1e21 up, fractions and negative zero are not modelled.
- Js.Prop: own properties of parsed JSON objects only. Inherited properties, such as a string's `length`, are not modelled; the code reads none of them.
- Numbers in JSON payloads are mathematical reals, not IEEE doubles. They are only carried along and tested for truthiness.
- The comparison aggregation, room-type discovery and availability filtering are not part of this model. The controller calls them, but the service file does not define them.
- The HTTP handlers, routing, the browser page, the readline prompts of src/main.js and the unused puppeteer import are not part of this model.
