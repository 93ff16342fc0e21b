# Country list server: the `/countries` pagination path

This project models the one piece of logic in the country list server: the
paginated `GET /countries` endpoint. It has two stages.

1. The `validatePagination` middleware reads the raw `offset` and `limit`
   query parameters with JavaScript's `parseInt`. A value that is absent or
   not a number falls back to its default: offset 0, limit 10. After that,
   a negative offset is rejected with status 400 and the valid range
   `0 - (length-1)`. A limit outside 1..100 is rejected with status 400 and
   `maxAllowed: 100`. The offset is checked first.
2. The route handler answers an offset at or past the end of the list with
   a successful empty result that carries the total `count`. Otherwise it
   returns the slice `[offset, offset+limit)` of the list, clipped to its
   length. Each name is wrapped as `{ name }`. The response also carries
   `count`, the echoed `offset` and `limit`, `hasMore` and `remaining`.

The country list is loaded once at start-up and never changes, so it is a
plain `seq<string>` parameter.

Files:

- `wrappers.dfy`: module `Wrappers`, the `Option` type. `None` stands for
  an absent query parameter and for NaN.
- `js_parse_int.dfy`: module `JsParseInt`, a decimal model of `parseInt`.
  It skips leading white space, reads an optional sign and the longest run
  of digits, and ignores the rest. The module also has the numeral writer
  `IntToString`, and the round-trip lemmas that connect the two.
- `pagination.dfy`: module `Pagination`, the constants, the response
  datatypes, and the two stages:
  - `Validate`, the validation rules as a function.
  - `ValidatePagination`, the middleware as a method. Like the source, it
    reassigns the parsed locals to their defaults.
  - `ListCountries`, the handler.
  - `Countries`, the whole endpoint.
- `pagination_properties.dfy`: module `PaginationProperties`, lemmas that
  relate the endpoint to raw query text and relate pages to each other.
  These cover defaulting, rejection order, tiling of the list by
  successive pages, and the metadata bookkeeping.

## Model

| member | source | states |
|---|---|---|
| `JsParseInt.TrimStart` | server.js:39-40 | the result is a suffix of the input, everything dropped is white space, and the result does not start with white space |
| `JsParseInt.DigitPrefix` | server.js:39-40 | the result is the longest prefix made only of decimal digits: a prefix, all digits, followed by a non-digit or by the end |
| `JsParseInt.ParseTrimmed` | server.js:39-40 | after the optional sign, `parseInt` yields a number exactly when at least one digit follows; otherwise it yields NaN (`None`) |
| `JsParseInt.ParseTrimmedDigits` | server.js:39-40 | an unsigned run of digits, followed by a non-digit or by the end, is read as its decimal value |
| `JsParseInt.ParseTrimmedNegativeDigits` | server.js:39-40 | a `-` followed by a run of digits is read as the negated decimal value |
| `JsParseInt.ParseTrimmedPlusDigits` | server.js:39-40 | a `+` followed by a run of digits is read as the decimal value ("+25" is 25) |
| `JsParseInt.ParseInt` | server.js:39-40 | `parseInt` is `TrimStart` then `ParseTrimmed`; its own contract says a number comes out only when the text holds a decimal digit; its value is stated by `ParseIntRoundTrip`, `ParseIntSkipsWhitespace`, `ParseIntNeedsADigit` and the three `ParseTrimmed*Digits` lemmas |
| `JsParseInt.ParseQuery` | server.js:39-40 | an absent query parameter (`undefined`) parses to NaN |
| `JsParseInt.ParseIntRoundTrip` | server.js:39-40 | `parseInt` reads back the decimal numeral of every integer, including negative ones, also when non-digit text follows it ("25abc", "7.5") |
| `JsParseInt.ParseIntSkipsWhitespace` | server.js:39-40 | leading white space never changes what `parseInt` returns |
| `JsParseInt.ParseIntNeedsADigit` | server.js:39-43 | a string with no decimal digit parses to NaN, so it takes the default |
| `Pagination.Status` | server.js:46-60 | the status is 400 exactly for a `BadRequest` body (the two rejections), and 200 for every other body (the empty success at line 91 and the page at line 100) |
| `Pagination.Validate` | server.js:37-64 | accepted exactly when the defaulted pair has offset >= 0 and limit in 1..100; the accepted pair is the defaulted pair (0 and 10 for NaN); a negative offset gives InvalidOffset(0, length-1) whatever the limit; any other rejection is InvalidLimit(100) |
| `Pagination.ValidatePagination` | server.js:37-66 | the middleware's step-by-step version returns the outcome of `Validate` on the parsed query, and an accepted pair always satisfies the handler's precondition |
| `Pagination.Slice` | server.js:98 | `slice(start, end)` has `min(end, length) - start` elements when start is inside the list, and none otherwise; element i is `list[start + i]` |
| `Pagination.Wrap` | server.js:101 | mapping names to `{ name }` keeps the length, and entry i wraps name i |
| `Pagination.ListCountries` | server.js:87-109 | offset >= length gives exactly the empty success with count = length; otherwise a page with count = length, the echoed offset and limit, `min(limit, length - offset)` results, result i = `{ name: list[offset + i] }`, `hasMore` iff offset + limit < length, and `remaining = max(0, length - offset - limit)` |
| `Pagination.Countries` | server.js:85-113 | the endpoint answers 400 exactly when the validation of the parsed parameters rejects; the 400 body carries exactly the error the validation gave, and every other answer is the handler's response for the accepted pair, for every query, including one with a single parameter absent |
| `PaginationProperties.ParseQueryOfNumeral` | server.js:39-40 | a query parameter holding an integer's numeral parses to that integer |
| `PaginationProperties.DefaultsWhenAbsent` | server.js:13-14 | with no parameters the endpoint serves the page at offset 0 with limit 10 |
| `PaginationProperties.NonNumericOffsetDefaults` | server.js:39-42 | an offset text without digits is answered exactly as an absent offset |
| `PaginationProperties.NonNumericLimitDefaults` | server.js:40-43 | a limit text without digits is answered exactly as an absent limit |
| `PaginationProperties.NegativeNonNumericOffsetServed` | server.js:39-52 | the text "-abc" has no digits, so it is served as offset 0 and not rejected as a negative offset |
| `PaginationProperties.NegativeOffsetRejected` | server.js:46-52 | every negative offset is rejected as InvalidOffset(0, length-1), whatever the limit parameter, because the offset is checked first |
| `PaginationProperties.LimitOutOfRangeRejected` | server.js:54-60 | with a non-negative offset, every limit <= 0 or > 100 is rejected as InvalidLimit(100) |
| `PaginationProperties.AcceptedPairIsServed` | server.js:62-66 | every pair with offset >= 0 and limit in 1..100 reaches the handler unchanged |
| `PaginationProperties.OffsetPastEndIsEmpty` | server.js:90-96 | a valid offset at or past the end gives the empty success, status 200, count = length |
| `PaginationProperties.SuccessEchoesValidatedPair` | server.js:63-64 | every successful response has count = length; a page echoes exactly the pair the validation accepted |
| `PaginationProperties.PageIsContiguousSlice` | server.js:98-101 | the names on a page are exactly `list[offset .. min(offset + limit, length))`, in list order |
| `PaginationProperties.PageAccounting` | server.js:102-107 | on a page, offset + number of results + remaining = count, so remaining > 0 exactly when `hasMore` |
| `PaginationProperties.HasMoreIffNextPageNonEmpty` | server.js:90-106 | `hasMore` is set exactly when the request for the next page (offset + limit) returns a non-empty page |
| `PaginationProperties.WalkCoversRest` | server.js:98-106 | a client that follows `hasMore` from an offset with a fixed limit collects every name from that offset to the end, each once and in order |
| `PaginationProperties.Example250LastFullPage` | server.js:98-107 | with 250 names, `offset=240&limit=10` gives 10 results, `hasMore` false and `remaining` 0 |
| `PaginationProperties.Example250ShortPage` | server.js:98-107 | with 250 names, `offset=245&limit=10` gives 5 results, `hasMore` false and `remaining` 0 |
| `PaginationProperties.Example250PastEnd` | server.js:90-96 | with 250 names, `offset=300&limit=10` gives the empty success with count 250 |
| `PaginationProperties.Example250NegativeOffset` | server.js:46-52 | with 250 names, `offset=-1` is rejected as InvalidOffset with range 0..249 |
| `PaginationProperties.Example250LimitTooLarge` | server.js:54-60 | with 250 names, `limit=200` is rejected as InvalidLimit with `maxAllowed` 100 |

## Left out

- Express set-up, `cors()`, `express.json()`, `app.listen` and the choice of port (server.js:1-9, 124-127): framework plumbing.
- Loading `countries.json` at start-up and exiting the process when that fails (server.js:17-25): file I/O and process lifetime. The list is a parameter.
- The 500 error middleware and the `try`/`catch` paths that call `next(err)` (server.js:28-34, 67-69, 110-112): these depend on Express dispatch. Once the list is loaded, nothing in the modelled code throws for string-valued parameters. Some query parsers (Express 4's extended parser, for example) can produce an object whose own keys hide `toString` and `valueOf`, as in `?offset[toString]=1`. Such an object makes `parseInt` throw. That path is left out along with the catch blocks.
- The health route and the 404 catch-all (server.js:73-82, 116-122): static JSON with no logic.
- The human-readable `error` and `message` strings: only the response kind and the machine fields (`validRange` as its two bounds, `maxAllowed`) are modelled. The empty success is `Empty(count)`; its `results: []` and message text are implied by the constructor.
- `validRange` is a string in the source; here it is the pair of bounds `(0, length - 1)`, which is `(0, -1)` for an empty list, just as the source prints `0 - -1`.
- JsParseInt.ParseInt: models only decimal parsing. It does not model the `0x` hexadecimal prefix, the full set of Unicode white space (only the common ASCII, no-break, line-separator and byte-order-mark characters are skipped), `-0` (read as 0, which the validation treats the same way), or query values that are not strings: an array from a repeated parameter (`?offset=1&offset=2`) or an object from a bracketed one (`?offset[a]=5`). The `Query` fields are `Option<string>`, so they cannot hold these. An ordinary object such as the one from `?offset[a]=5` reaches `parseInt` as "[object Object]", which is NaN, so the source applies the default. An object that hides `toString` makes `parseInt` throw instead; see the line on the catch paths above.
- JavaScript numbers are doubles; the model uses unbounded integers. Values too large to be exact only ever reach comparisons that give the same answer (a huge offset is past the end; a huge limit is over 100), and `offset + limit` is only computed with offset < length and limit <= 100.
- The writes to `req.validatedOffset` and `req.validatedLimit` (server.js:63-64) are modelled as the `Accepted(offset, limit)` value of `Validate`. `ValidatePagination` is proved to return that value (its first `ensures`), and `Countries` passes it to the handler.
