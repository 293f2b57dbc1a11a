/**
  * The search endpoint's handling of the query string: enum filters are
  * recognised by their exact names, and `offset` / `limit` default to 0 and
  * 10 and are otherwise read with `Number.parseInt`.
  */
module SearchController {
  import opened Wrappers
  import opened Numbers
  import opened HttpExceptions
  import opened ErrorHandler
  import opened Store
  import opened Search

  /** The query-string parameters the handler reads; `None` when a parameter is absent. */
  datatype SearchQuery = SearchQuery(
    offset: Option<string>,
    limit: Option<string>,
    availableFor: Option<string>,
    title: Option<string>,
    mediaType: Option<string>)

  /** The name an enum value has in the query string. */
  function NegotiationTypeName(t: NegotiationType): string
  {
    match t
    case RENT => "RENT"
    case SALE => "SALE"
  }

  function MediaTypeName(t: MediaType): string
  {
    match t
    case MOVIE => "MOVIE"
    case SERIE => "SERIE"
    case BOOK => "BOOK"
  }

  /** `formatNegotiationType`: the value whose name is given exactly, or nothing. */
  function FormatNegotiationType(s: Option<string>): (r: Option<NegotiationType>)
    ensures r.Some? ==> s == Some(NegotiationTypeName(r.value))
    ensures r.None? ==> forall t: NegotiationType :: s != Some(NegotiationTypeName(t))
  {
    if s == Some("RENT") then Some(RENT)
    else if s == Some("SALE") then Some(SALE)
    else None
  }

  /** `formatMediaType`: the value whose name is given exactly, or nothing. */
  function FormatMediaType(s: Option<string>): (r: Option<MediaType>)
    ensures r.Some? ==> s == Some(MediaTypeName(r.value))
    ensures r.None? ==> forall t: MediaType :: s != Some(MediaTypeName(t))
  {
    if s == Some("MOVIE") then Some(MOVIE)
    else if s == Some("SERIE") then Some(SERIE)
    else if s == Some("BOOK") then Some(BOOK)
    else None
  }

  /** Every negotiation type is recognised by its own name. */
  lemma NegotiationTypeRoundTrip(t: NegotiationType)
    ensures FormatNegotiationType(Some(NegotiationTypeName(t))) == Some(t)
  {
  }

  /** Every media type is recognised by its own name. */
  lemma MediaTypeRoundTrip(t: MediaType)
    ensures FormatMediaType(Some(MediaTypeName(t))) == Some(t)
  {
  }

  /** `offset ? Number.parseInt(offset) : default`: an absent or empty value gives the default. */
  function PagingValue(s: Option<string>, default: int): (n: JsNumber)
    ensures s.None? || s == Some("") ==> n == Int(default)
    ensures s.Some? && s.value != "" ==> n == ParseInt(s.value)
  {
    if s.None? || s.value == "" then Int(default) else ParseInt(s.value)
  }

  /** A paging value written as a decimal integer is read back as that integer. */
  lemma PagingValueReadsDecimal(n: int, default: int)
    ensures PagingValue(Some(IntToString(n)), default) == Int(n)
  {
    ParseIntRoundTrip(n);
  }

  /** What the handler passes to the service: the title as given, the recognised enums, skip 0 and take 10 by default. */
  function ToSearchParams(q: SearchQuery): (p: SearchParams)
    ensures p.title == q.title
    ensures p.negotiationType == FormatNegotiationType(q.availableFor)
    ensures p.mediaType == FormatMediaType(q.mediaType)
    ensures p.skip == PagingValue(q.offset, 0) && p.take == PagingValue(q.limit, 10)
  {
    SearchParams(q.title, FormatMediaType(q.mediaType), FormatNegotiationType(q.availableFor),
                 PagingValue(q.offset, 0), PagingValue(q.limit, 10))
  }

  /**
    * The handler: the service's result, or the exception it throws, which the
    * error handler turns into a 500 since the store gives it no status.
    */
  function HandleSearch(db: Db, q: SearchQuery): (r: Result<Results<Media>>)
    reads db
    ensures r.Err? <==> ToSearchParams(q).skip.NaN? || ToSearchParams(q).take.NaN?
                        || ToSearchParams(q).skip.value < 0 || ToSearchParams(q).take.value < 0
    ensures r.Err? ==> HandleError(r.error).status == 500
    ensures r.Ok? ==> |r.value.data| <= ToSearchParams(q).take.value
    ensures r.Ok? ==> var p := ToSearchParams(q); var found := Found(db.medias, db.nextMediaId, db.units, CriteriaOf(p));
                      r.value.total == |found| && r.value.data == Window(found, p.skip.value, p.take.value)
  {
    SearchMedias(db, ToSearchParams(q))
  }

  /** Without offset and limit, a search returns at most ten medias. */
  lemma DefaultPageHoldsTen(db: Db, q: SearchQuery)
    requires q.offset.None? && q.limit.None?
    ensures HandleSearch(db, q).Ok?
    ensures |HandleSearch(db, q).value.data| <= 10
  {
  }

  /** An unrecognised media type is dropped: the search runs as if none had been given. */
  lemma UnknownMediaTypeIsIgnored(db: Db, q: SearchQuery, s: string)
    requires forall t: MediaType :: s != MediaTypeName(t)
    ensures HandleSearch(db, q.(mediaType := Some(s))) == HandleSearch(db, q.(mediaType := None))
  {
    assert FormatMediaType(Some(s)) == None;
  }

  /** An unrecognised `availableFor` is dropped: the search runs as if none had been given. */
  lemma UnknownNegotiationTypeIsIgnored(db: Db, q: SearchQuery, s: string)
    requires forall t: NegotiationType :: s != NegotiationTypeName(t)
    ensures HandleSearch(db, q.(availableFor := Some(s))) == HandleSearch(db, q.(availableFor := None))
  {
    assert FormatNegotiationType(Some(s)) == None;
  }

  /**
    * An offset that does not start like a number (such as "x") makes the
    * store refuse the query, and the error handler answers 500.
    */
  lemma NonNumericOffsetAnswers500(db: Db, q: SearchQuery)
    requires q.offset.Some? && |q.offset.value| > 0
    requires var c := q.offset.value[0]; !IsJsWhiteSpace(c) && !IsDigit(c) && c != '-' && c != '+'
    ensures HandleSearch(db, q).Err?
    ensures HandleError(HandleSearch(db, q).error).status == 500
  {
    ParseIntRejectsNonNumeric(q.offset.value);
  }

  /** The same for a limit that does not start like a number. */
  lemma NonNumericLimitAnswers500(db: Db, q: SearchQuery)
    requires q.limit.Some? && |q.limit.value| > 0
    requires var c := q.limit.value[0]; !IsJsWhiteSpace(c) && !IsDigit(c) && c != '-' && c != '+'
    ensures HandleSearch(db, q).Err?
    ensures HandleError(HandleSearch(db, q).error).status == 500
  {
    ParseIntRejectsNonNumeric(q.limit.value);
  }
}
