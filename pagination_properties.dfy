/**
 * Properties of the `/countries` endpoint that relate several calls, or the
 * endpoint to the raw query text.
 */
module PaginationProperties {
  import opened Wrappers
  import opened JsParseInt
  import opened Pagination

  /** The query a client sends for a given pair of integers. */
  function NumericQuery(offset: int, limit: int): (q: Query) {
    Query(Some(IntToString(offset)), Some(IntToString(limit)))
  }

  /** The numeral of an integer, sent as a query parameter, parses back to it. */
  lemma ParseQueryOfNumeral(n: int)
    ensures ParseQuery(Some(IntToString(n))) == Some(n)
  {
    ParseIntRoundTrip(n, []);
    assert IntToString(n) + [] == IntToString(n);
  }

  /** With neither parameter present the endpoint serves the first ten entries. */
  lemma DefaultsWhenAbsent(countries: seq<string>)
    ensures Countries(countries, Query(None, None)) == ListCountries(countries, 0, 10)
  {
  }

  /** An offset without digits is treated as an absent one: it falls back to 0 and is no error. */
  lemma NonNumericOffsetDefaults(countries: seq<string>, text: string, limit: Option<string>)
    requires forall i :: 0 <= i < |text| ==> !IsDigit(text[i])
    ensures Countries(countries, Query(Some(text), limit)) == Countries(countries, Query(None, limit))
  {
    ParseIntNeedsADigit(text);
  }

  /** A limit without digits is treated as an absent one: it falls back to 10 and is no error. */
  lemma NonNumericLimitDefaults(countries: seq<string>, offset: Option<string>, text: string)
    requires forall i :: 0 <= i < |text| ==> !IsDigit(text[i])
    ensures Countries(countries, Query(offset, Some(text))) == Countries(countries, Query(offset, None))
  {
    ParseIntNeedsADigit(text);
  }

  /**
   * The leniency asymmetry: "-abc" is not a negative number to `parseInt`,
   * so it is served as offset 0 rather than rejected as a negative offset
   * would be (see NegativeOffsetRejected).
   */
  lemma NegativeNonNumericOffsetServed(countries: seq<string>)
    ensures Countries(countries, Query(Some("-abc"), None)) == ListCountries(countries, 0, 10)
  {
    var text := "-abc";
    assert forall i :: 0 <= i < |text| ==> !IsDigit(text[i]);
    NonNumericOffsetDefaults(countries, text, None);
    DefaultsWhenAbsent(countries);
  }

  /**
   * A negative offset is rejected with the valid range `0 .. length-1`,
   * whatever the limit: the offset is checked first.
   */
  lemma NegativeOffsetRejected(countries: seq<string>, offset: int, limit: Option<string>)
    requires offset < 0
    ensures Countries(countries, Query(Some(IntToString(offset)), limit))
            == BadRequest(InvalidOffset(0, |countries| - 1))
  {
    ParseQueryOfNumeral(offset);
  }

  /** A limit outside 1..100 with an acceptable offset is rejected with `maxAllowed` 100. */
  lemma LimitOutOfRangeRejected(countries: seq<string>, offset: int, limit: int)
    requires offset >= 0 && (limit <= 0 || limit > 100)
    ensures Countries(countries, NumericQuery(offset, limit)) == BadRequest(InvalidLimit(100))
  {
    ParseQueryOfNumeral(offset);
    ParseQueryOfNumeral(limit);
  }

  /** Every acceptable pair reaches the handler unchanged. */
  lemma AcceptedPairIsServed(countries: seq<string>, offset: int, limit: int)
    requires ValidRequest(offset, limit)
    ensures Countries(countries, NumericQuery(offset, limit)) == ListCountries(countries, offset, limit)
  {
    ParseQueryOfNumeral(offset);
    ParseQueryOfNumeral(limit);
  }

  /** An offset at or past the end is a successful empty page carrying the total count. */
  lemma OffsetPastEndIsEmpty(countries: seq<string>, offset: int, limit: int)
    requires ValidRequest(offset, limit) && offset >= |countries|
    ensures Countries(countries, NumericQuery(offset, limit)) == Empty(|countries|)
    ensures Status(Countries(countries, NumericQuery(offset, limit))) == 200
  {
    AcceptedPairIsServed(countries, offset, limit);
  }

  /** Every successful response reports the list length and echoes the validated pair. */
  lemma SuccessEchoesValidatedPair(countries: seq<string>, query: Query)
    ensures Countries(countries, query).Empty? ==> Countries(countries, query).count == |countries|
    ensures Countries(countries, query).Page? ==>
      var r := Countries(countries, query);
      r.count == |countries| &&
      Validate(|countries|, ParseQuery(query.offset), ParseQuery(query.limit)) == Accepted(r.offset, r.limit)
  {
  }

  /** A page's entries are those between `offset` and `offset + limit`, in list order. */
  lemma PageIsContiguousSlice(countries: seq<string>, offset: int, limit: int)
    requires ValidRequest(offset, limit) && offset < |countries|
    ensures Names(ListCountries(countries, offset, limit).results)
            == countries[offset..Min(offset + limit, |countries|)]
  {
  }

  /**
   * The metadata accounts for the whole list: the entries before the page,
   * on it, and `remaining` after it add up to `count`; so `remaining` is
   * positive exactly when `hasMore` is set.
   */
  lemma PageAccounting(countries: seq<string>, offset: int, limit: int)
    requires ValidRequest(offset, limit)
    ensures var r := ListCountries(countries, offset, limit);
      r.Page? ==> r.count == r.offset + |r.results| + r.remaining && (r.remaining > 0 <==> r.hasMore)
  {
  }

  /** `hasMore` is set exactly when the next page, at `offset + limit`, has entries. */
  lemma HasMoreIffNextPageNonEmpty(countries: seq<string>, offset: int, limit: int)
    requires ValidRequest(offset, limit)
    ensures var r := ListCountries(countries, offset, limit);
      r.Page? ==> (r.hasMore <==> ListCountries(countries, offset + limit, limit).Page?)
  {
  }

  /** The names a client collects by following `hasMore` from `offset` with a fixed `limit`. */
  function Walk(countries: seq<string>, offset: int, limit: int): (names: seq<string>)
    requires ValidRequest(offset, limit)
    decreases |countries| - offset
  {
    match ListCountries(countries, offset, limit)
    case Page(results, _, _, _, hasMore, _) =>
      Names(results) + (if hasMore then Walk(countries, offset + limit, limit) else [])
    case _ => []
  }

  /** A walk step that is not the last: this page's names, then the walk from the next offset. */
  lemma WalkStepMore(countries: seq<string>, offset: int, limit: int)
    requires ValidRequest(offset, limit) && offset + limit < |countries|
    ensures Walk(countries, offset, limit)
            == countries[offset..offset + limit] + Walk(countries, offset + limit, limit)
  {
    PageIsContiguousSlice(countries, offset, limit);
  }

  /** The last walk step: the page reaches the end of the list. */
  lemma WalkStepLast(countries: seq<string>, offset: int, limit: int)
    requires ValidRequest(offset, limit) && offset < |countries| <= offset + limit
    ensures Walk(countries, offset, limit) == countries[offset..]
  {
    PageIsContiguousSlice(countries, offset, limit);
    assert Walk(countries, offset, limit) == Names(ListCountries(countries, offset, limit).results) + [];
  }

  /** A walk that starts at or past the end collects nothing. */
  lemma WalkAtEnd(countries: seq<string>, offset: int, limit: int)
    requires ValidRequest(offset, limit) && |countries| <= offset
    ensures Walk(countries, offset, limit) == []
  {
  }

  /** If the walk from the next page collects the rest of the list, so does the walk from this one. */
  lemma WalkExtends(countries: seq<string>, offset: int, limit: int)
    requires ValidRequest(offset, limit) && offset + limit < |countries|
    requires Walk(countries, offset + limit, limit) == countries[offset + limit..]
    ensures Walk(countries, offset, limit) == countries[offset..]
  {
    WalkStepMore(countries, offset, limit);
    SplitSuffix(countries, offset, offset + limit);
  }

  lemma SplitSuffix<T>(s: seq<T>, i: nat, j: nat)
    requires i <= j <= |s|
    ensures s[i..] == s[i..j] + s[j..]
  {
  }

  /** Paging through with `hasMore` visits every entry from `offset` on, once each and in order. */
  lemma {:induction false} WalkCoversRest(countries: seq<string>, offset: int, limit: int)
    requires ValidRequest(offset, limit) && offset <= |countries|
    ensures Walk(countries, offset, limit) == countries[offset..]
    decreases |countries| - offset
  {
    if offset + limit < |countries| {
      WalkCoversRest(countries, offset + limit, limit);
      WalkExtends(countries, offset, limit);
    } else if offset < |countries| {
      WalkStepLast(countries, offset, limit);
    } else {
      WalkAtEnd(countries, offset, limit);
    }
  }

  /** Worked case, 250 names: `offset=240&limit=10` is the last full page. */
  lemma Example250LastFullPage(countries: seq<string>)
    requires |countries| == 250
    ensures var r := Countries(countries, Query(Some("240"), Some("10")));
      r.Page? && |r.results| == 10 && !r.hasMore && r.remaining == 0
  {
    assert NatToString(24) == "24" && NatToString(240) == "240";
    assert IntToString(240) == "240" && NatToString(1) == "1" && IntToString(10) == "10";
    assert NumericQuery(240, 10) == Query(Some("240"), Some("10"));
    AcceptedPairIsServed(countries, 240, 10);
  }

  /** Worked case, 250 names: `offset=245&limit=10` is a short final page of five. */
  lemma Example250ShortPage(countries: seq<string>)
    requires |countries| == 250
    ensures var r := Countries(countries, Query(Some("245"), Some("10")));
      r.Page? && |r.results| == 5 && !r.hasMore && r.remaining == 0
  {
    assert NatToString(24) == "24" && NatToString(245) == "245";
    assert IntToString(245) == "245" && NatToString(1) == "1" && IntToString(10) == "10";
    assert NumericQuery(245, 10) == Query(Some("245"), Some("10"));
    AcceptedPairIsServed(countries, 245, 10);
  }

  /** Worked case, 250 names: `offset=300&limit=10` is an empty success. */
  lemma Example250PastEnd(countries: seq<string>)
    requires |countries| == 250
    ensures Countries(countries, Query(Some("300"), Some("10"))) == Empty(250)
  {
    assert NatToString(30) == "30" && NatToString(300) == "300";
    assert IntToString(300) == "300" && NatToString(1) == "1" && IntToString(10) == "10";
    assert NumericQuery(300, 10) == Query(Some("300"), Some("10"));
    AcceptedPairIsServed(countries, 300, 10);
  }

  /** Worked case, 250 names: `offset=-1` is rejected with the range 0..249. */
  lemma Example250NegativeOffset(countries: seq<string>)
    requires |countries| == 250
    ensures Countries(countries, Query(Some("-1"), None)) == BadRequest(InvalidOffset(0, 249))
  {
    assert IntToString(-1) == "-1";
    NegativeOffsetRejected(countries, -1, None);
  }

  /** Worked case, 250 names: `limit=200` is rejected with `maxAllowed` 100. */
  lemma Example250LimitTooLarge(countries: seq<string>)
    requires |countries| == 250
    ensures Countries(countries, Query(None, Some("200"))) == BadRequest(InvalidLimit(100))
  {
    var numeral := IntToString(200);
    assert NatToString(2) == "2" && NatToString(20) == "20";
    assert numeral == "200";
    ParseQueryOfNumeral(200);
    assert ParseQuery(Some("200")) == Some(200);
  }
}
