/**
 * The `/countries` endpoint of the country list server: the
 * `validatePagination` middleware, which turns the raw `offset` and `limit`
 * query parameters into a validated pair or a 400 rejection, and the route
 * handler, which slices the immutable country list and adds the page
 * metadata. The list is the one loaded at start-up, passed in as a value.
 */
module Pagination {
  import opened Wrappers
  import opened JsParseInt

  const MaxLimit: int := 100
  const DefaultLimit: int := 10
  const DefaultOffset: int := 0

  /** The raw query string parameters; `None` is a parameter that is not present. */
  datatype Query = Query(offset: Option<string>, limit: Option<string>)

  /** The machine-readable part of a 400 response. */
  datatype ParamError =
    | InvalidOffset(validLo: int, validHi: int)   // `validRange: "lo - hi"`
    | InvalidLimit(maxAllowed: int)

  /** What the middleware hands on: the validated pair (`req.validatedOffset`, `req.validatedLimit`) or a rejection. */
  datatype Validation = Accepted(offset: int, limit: int) | Rejected(error: ParamError)

  /** One element of `results`: the JSON object `{ name }`. */
  datatype Entry = Entry(name: string)

  /** The JSON bodies the endpoint answers with. */
  datatype Response =
    | BadRequest(error: ParamError)    // status 400
    | Empty(count: nat)                // status 200, `results: []` and a message
    | Page(results: seq<Entry>, count: nat, offset: int, limit: int, hasMore: bool, remaining: int)

  /** The HTTP status the endpoint sends with a response body. */
  function Status(r: Response): (code: int)
    ensures code == 400 <==> r.BadRequest?
    ensures code == 200 <==> !r.BadRequest?
  {
    if r.BadRequest? then 400 else 200
  }

  function Min(a: int, b: int): (m: int) { if a <= b then a else b }
  function Max(a: int, b: int): (m: int) { if a <= b then b else a }

  /** The pagination request the handler may assume: a non-negative offset and a limit in 1..MaxLimit. */
  predicate ValidRequest(offset: int, limit: int) {
    0 <= offset && 1 <= limit <= MaxLimit
  }

  /**
   * The validation rules on already parsed values (`None` is NaN): defaults
   * first, then the offset check, then the limit check.
   */
  function Validate(count: nat, rawOffset: Option<int>, rawLimit: Option<int>): (v: Validation)
    ensures v.Accepted? <==> ValidRequest(rawOffset.GetOr(DefaultOffset), rawLimit.GetOr(DefaultLimit))
    ensures v.Accepted? ==> v.offset == rawOffset.GetOr(DefaultOffset) && v.limit == rawLimit.GetOr(DefaultLimit)
    ensures rawOffset.GetOr(DefaultOffset) < 0 ==> v == Rejected(InvalidOffset(0, count - 1))
    ensures rawOffset.GetOr(DefaultOffset) >= 0 && !v.Accepted? ==> v == Rejected(InvalidLimit(MaxLimit))
  {
    var offset := rawOffset.GetOr(DefaultOffset);
    var limit := rawLimit.GetOr(DefaultLimit);
    if offset < 0 then Rejected(InvalidOffset(0, count - 1))
    else if limit <= 0 || limit > MaxLimit then Rejected(InvalidLimit(MaxLimit))
    else Accepted(offset, limit)
  }

  /**
   * `validatePagination` as written: parse both parameters, replace a NaN by
   * its default, then reject or accept.
   */
  method ValidatePagination(count: nat, query: Query) returns (v: Validation)
    ensures v == Validate(count, ParseQuery(query.offset), ParseQuery(query.limit))
    ensures v.Accepted? ==> ValidRequest(v.offset, v.limit)
  {
    var offset := ParseQuery(query.offset);
    var limit := ParseQuery(query.limit);
    if offset.None? {
      offset := Some(DefaultOffset);
    }
    if limit.None? {
      limit := Some(DefaultLimit);
    }
    if offset.value < 0 {
      return Rejected(InvalidOffset(0, count - 1));
    }
    if limit.value <= 0 || limit.value > MaxLimit {
      return Rejected(InvalidLimit(MaxLimit));
    }
    v := Accepted(offset.value, limit.value);
  }

  /** `Array.prototype.slice(start, end)` for `0 <= start <= end`: the indices in `[start, end)` that exist. */
  function Slice<T>(list: seq<T>, start: nat, end: nat): (s: seq<T>)
    requires start <= end
    ensures |s| == if start < |list| then Min(end, |list|) - start else 0
    ensures forall i :: 0 <= i < |s| ==> s[i] == list[start + i]
  {
    if start < |list| then list[start..Min(end, |list|)] else []
  }

  /** `.map(name => ({ name }))` */
  function Wrap(names: seq<string>): (entries: seq<Entry>)
    ensures |entries| == |names|
    ensures forall i :: 0 <= i < |names| ==> entries[i] == Entry(names[i])
  {
    if names == [] then [] else [Entry(names[0])] + Wrap(names[1..])
  }

  /** The names a response carries, in order. */
  function Names(entries: seq<Entry>): (names: seq<string>)
    ensures |names| == |entries|
    ensures forall i :: 0 <= i < |entries| ==> names[i] == entries[i].name
  {
    if entries == [] then [] else [entries[0].name] + Names(entries[1..])
  }

  /** The route handler, given the validated pair. */
  function ListCountries(countries: seq<string>, offset: int, limit: int): (r: Response)
    requires ValidRequest(offset, limit)
    ensures offset >= |countries| <==> r == Empty(|countries|)
    ensures offset < |countries| ==> r.Page? && r.count == |countries| && r.offset == offset && r.limit == limit
    ensures offset < |countries| ==> |r.results| == Min(limit, |countries| - offset)
    ensures offset < |countries| ==> forall i :: 0 <= i < |r.results| ==> r.results[i] == Entry(countries[offset + i])
    ensures r.Page? ==> (r.hasMore <==> offset + limit < |countries|)
    ensures r.Page? ==> r.remaining == Max(0, |countries| - offset - limit)
  {
    if offset >= |countries| then Empty(|countries|)
    else
      Page(Wrap(Slice(countries, offset, offset + limit)), |countries|, offset, limit,
           offset + limit < |countries|, Max(0, |countries| - offset - limit))
  }

  /** The whole `/countries` endpoint: the middleware, then the handler when it accepts. */
  function Countries(countries: seq<string>, query: Query): (r: Response)
    ensures Status(r) == 400 <==>
      Validate(|countries|, ParseQuery(query.offset), ParseQuery(query.limit)).Rejected?
    ensures var v := Validate(|countries|, ParseQuery(query.offset), ParseQuery(query.limit));
      (v.Rejected? ==> r == BadRequest(v.error)) &&
      (v.Accepted? ==> r == ListCountries(countries, v.offset, v.limit))
  {
    match Validate(|countries|, ParseQuery(query.offset), ParseQuery(query.limit))
    case Rejected(e) => BadRequest(e)
    case Accepted(offset, limit) => ListCountries(countries, offset, limit)
  }
}
