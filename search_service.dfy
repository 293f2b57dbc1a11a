/**
  * The media search: one filter, built from optional criteria, gives both the
  * page of medias and the total. Searching only reads the database.
  */
module Search {
  import opened Wrappers
  import opened Strings
  import opened Numbers
  import opened HttpExceptions
  import opened Store

  /** The criteria the service receives; an absent criterion sets no condition. */
  datatype SearchParams = SearchParams(
    title: Option<string>,
    mediaType: Option<MediaType>,
    negotiationType: Option<NegotiationType>,
    skip: JsNumber,
    take: JsNumber)

  /** An absent or empty title sets no condition; otherwise the title must contain it, ignoring case. */
  predicate TitleMatches(title: Option<string>, m: Media)
  {
    title.None? || title.value == "" || ContainsIgnoringCase(m.title, title.value)
  }

  predicate TypeMatches(mediaType: Option<MediaType>, m: Media)
  {
    mediaType.None? || m.mediaType == mediaType.value
  }

  /** The condition every unit of a found media must meet: not archived, and offering the negotiation type if one is asked for. */
  predicate UnitQualifies(negotiationType: Option<NegotiationType>, u: Unit)
  {
    !u.archived && (negotiationType.None? || negotiationType.value in u.availableFor)
  }

  /** The criteria of a search, without its window. */
  datatype Criteria = Criteria(title: Option<string>, mediaType: Option<MediaType>, negotiationType: Option<NegotiationType>)

  function CriteriaOf(p: SearchParams): Criteria
  {
    Criteria(p.title, p.mediaType, p.negotiationType)
  }

  /** The `where` of the search: a live media of the asked title and type, all of whose units qualify. */
  predicate Matches(units: map<int, Unit>, c: Criteria, row: Row<Media>)
  {
    && !row.rec.archived
    && TitleMatches(c.title, row.rec)
    && TypeMatches(c.mediaType, row.rec)
    && forall k | k in units && units[k].mediaId == row.id :: UnitQualifies(c.negotiationType, units[k])
  }

  /** Every media the search finds, in id order. */
  function Found(medias: map<int, Media>, next: nat, units: map<int, Unit>, c: Criteria): seq<Row<Media>>
  {
    Filter(Rows(medias, next), (row: Row<Media>) => Matches(units, c, row))
  }

  /** The ids of the medias that match. */
  ghost function MatchingIds(medias: map<int, Media>, units: map<int, Unit>, c: Criteria): set<int>
  {
    set k | k in medias && Matches(units, c, Row(k, medias[k]))
  }

  /**
    * `search`: the skip/take window of the matching medias, and their number.
    * A skip or take that is not a non-negative integer is refused by the
    * store with an error that has no status.
    */
  function SearchMedias(db: Db, p: SearchParams): (r: Result<Results<Media>>)
    reads db
    ensures r.Err? <==> ToPage(ListParams(p.skip, p.take)).Err?
    ensures r.Err? ==> r.error == StoreException(InvalidPaging)
    ensures r.Ok? ==> |r.value.data| <= p.take.value && |r.value.data| <= r.value.total
    ensures r.Ok? ==> r.value.total == |Found(db.medias, db.nextMediaId, db.units, CriteriaOf(p))|
    ensures r.Ok? ==> r.value.data == Window(Found(db.medias, db.nextMediaId, db.units, CriteriaOf(p)), p.skip.value, p.take.value)
    ensures r.Ok? ==> IdsIncreasing(r.value.data)
    ensures r.Ok? ==> forall i :: 0 <= i < |r.value.data| ==>
              var row := r.value.data[i];
              && row.id in db.medias && db.medias[row.id] == row.rec
              && !row.rec.archived
              && TitleMatches(p.title, row.rec)
              && TypeMatches(p.mediaType, row.rec)
              && forall k | k in db.units && db.units[k].mediaId == row.id :: UnitQualifies(p.negotiationType, db.units[k])
  {
    var page := ToPage(ListParams(p.skip, p.take));
    if page.Err? then Err(page.error)
    else
      var units := db.units;
      var c := CriteriaOf(p);
      var found := Found(db.medias, db.nextMediaId, units, c);
      PageIsSound(db.medias, db.nextMediaId, (row: Row<Media>) => Matches(units, c, row), page.value);
      Ok(Results(|found|, Window(found, page.value.skip, page.value.take)))
  }

  /** The total is the number of matching medias in the whole table, whatever the window. */
  lemma FoundCount(medias: map<int, Media>, next: nat, units: map<int, Unit>, c: Criteria)
    requires KeysBelow(medias, next)
    ensures |Found(medias, next, units, c)| == |MatchingIds(medias, units, c)|
  {
    var keep := (row: Row<Media>) => Matches(units, c, row);
    FilterCount(medias, next, keep);
    assert Accepted(medias, next, keep) == MatchingIds(medias, units, c);
  }

  /** An empty title sets no more condition than an absent one. */
  lemma EmptyTitleIsNoFilter(units: map<int, Unit>, c: Criteria, row: Row<Media>)
    ensures Matches(units, c.(title := Some("")), row) == Matches(units, c.(title := None), row)
  {
  }

  /** A title that differs from the media's own only in letter case finds it. */
  lemma TitleFindsItselfIgnoringCase(title: string, m: Media)
    requires Lower(title) == Lower(m.title)
    ensures TitleMatches(Some(title), m)
  {
    ContainsItselfIgnoringCase(m.title, title);
  }

  /** A media with no units at all meets the unit condition, whatever negotiation type is asked for. */
  lemma MediaWithoutUnitsQualifies(units: map<int, Unit>, c: Criteria, row: Row<Media>)
    requires forall k | k in units :: units[k].mediaId != row.id
    requires !row.rec.archived && TitleMatches(c.title, row.rec) && TypeMatches(c.mediaType, row.rec)
    ensures Matches(units, c, row)
  {
  }

  /** One archived unit hides its media from every search. */
  lemma ArchivedUnitHidesMedia(units: map<int, Unit>, c: Criteria, row: Row<Media>, k: int)
    requires k in units && units[k].mediaId == row.id && units[k].archived
    ensures !Matches(units, c, row)
  {
  }
}
