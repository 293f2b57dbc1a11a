/**
  * The relational store the services run against, reduced to what they use:
  * one table per entity, kept as a map from id to record, with an
  * auto-increment counter per table and the schema's unique and foreign-key
  * constraints. Listing a table filters its rows and cuts a skip/take
  * window. The queries name no order, so the database picks one; the model
  * fixes it to id order, one order the database may return.
  */
module Store {
  import opened Wrappers
  import opened Numbers
  import opened Strings
  import opened HttpExceptions

  datatype NegotiationType = RENT | SALE

  datatype MediaType = MOVIE | SERIE | BOOK

  datatype Customer = Customer(firstName: string, lastName: string, email: string, archived: bool)

  datatype Genre = Genre(title: string)

  datatype Media = Media(
    title: string,
    subtitle: Option<string>,
    authorName: Option<string>,
    description: Option<string>,
    releaseYear: Option<int>,
    mediaType: MediaType,
    archived: bool)

  /** A copy of a media title; prices are carried along and never computed with. */
  datatype Unit = Unit(
    mediaId: int,
    available: bool,
    availableFor: seq<NegotiationType>,
    salePrice: real,
    rentalPrice: real,
    archived: bool)

  /** A rent or sale of some units to a customer; `units` are the ids of the linked units. */
  datatype Negotiation = Negotiation(
    customerId: int,
    negotiationType: NegotiationType,
    totalPrice: Option<real>,
    scheduledDeliveryAt: Option<string>,
    deliveredAt: Option<string>,
    archived: bool,
    units: seq<int>)

  /** A record together with its id. */
  datatype Row<T> = Row(id: int, rec: T)

  /** A list response: `total` as counted by the service, `data` the page. */
  datatype Results<T> = Results(total: nat, data: seq<Row<T>>)

  /** The `skip` and `take` a controller hands to a service, as `Number.parseInt` produced them. */
  datatype ListParams = ListParams(skip: JsNumber, take: JsNumber)

  datatype Page = Page(skip: nat, take: nat)

  // ---------------------------------------------------------------------------
  // Errors the store raises. Their texts stand in for the client's own:
  // an opening line naming the call, then the reason on the last line.

  function StoreMessage(call: string, reason: string): string
  {
    "\nInvalid `" + call + "` invocation:\n\n\n" + reason
  }

  // The longer texts are written in pieces, which keeps reasoning about them cheap.

  const UpdateTargetMissing := "An operation failed because " + "it depends on one or more " + "records that were required " + "but not found. " + "Record to update not found."

  function UniqueReason(fields: string): string
  {
    "Unique constraint failed on the fields: (" + fields + ")"
  }

  function ForeignKeyReason(field: string): string
  {
    "Foreign key constraint " + "failed on the field: `" + field + "`"
  }

  /** A write that would repeat a unique value. */
  function UniqueConstraintFailed(call: string, fields: string): (e: StoreError)
    ensures e.KnownRequestError?
  {
    KnownRequestError(StoreMessage(call, UniqueReason(fields)))
  }

  /** An update whose `where` matched no row. */
  function RecordToUpdateNotFound(call: string): (e: StoreError)
    ensures e.KnownRequestError?
  {
    KnownRequestError(StoreMessage(call, UpdateTargetMissing))
  }

  /** A write whose foreign key names no row of the referenced table. */
  function ForeignKeyFailed(call: string, field: string): (e: StoreError)
    ensures e.KnownRequestError?
  {
    KnownRequestError(StoreMessage(call, ForeignKeyReason(field)))
  }

  /** A find-or-throw query that matched nothing. */
  function NoRecordFound(model: string): StoreError
  {
    NotFoundError("No " + model + " found")
  }

  const InvalidPaging := ValidationError("Argument skip and take must be non-negative integers.")

  /** Turning a store error into a validation exception keeps exactly the reason line. */
  lemma ValidationKeepsReason(call: string, reason: string)
    requires '\n' !in reason
    ensures ValidationRecordException(KnownRequestError(StoreMessage(call, reason))).message == reason
  {
    assert StoreMessage(call, reason) == ("\nInvalid `" + call + "` invocation:\n\n") + "\n" + reason;
    LastLineAfterBreak("\nInvalid `" + call + "` invocation:\n\n", reason);
  }

  /** A unique-constraint violation, as the services report it: a 400 naming the fields. */
  function UniqueViolation(call: string, fields: string): (e: Exception)
    requires '\n' !in fields
    ensures e == HttpException(400, UniqueReason(fields))
  {
    ValidationKeepsReason(call, UniqueReason(fields));
    ValidationRecordException(UniqueConstraintFailed(call, fields))
  }

  /** An update of a missing row, as the services that catch it report it: a 400 with the store's reason. */
  function MissingUpdateTarget(call: string): (e: Exception)
    ensures e == HttpException(400, UpdateTargetMissing)
  {
    ValidationKeepsReason(call, UpdateTargetMissing);
    ValidationRecordException(RecordToUpdateNotFound(call))
  }

  // ---------------------------------------------------------------------------
  // Reading a table.

  /**
    * The store's check of `skip` and `take`: both must be non-negative
    * integers; NaN or a negative number is refused with an error that has no
    * HTTP status.
    */
  function ToPage(p: ListParams): (r: Result<Page>)
    ensures r.Ok? <==> p.skip.Int? && p.skip.value >= 0 && p.take.Int? && p.take.value >= 0
    ensures r.Ok? ==> r.value.skip == p.skip.value && r.value.take == p.take.value
    ensures r.Err? ==> r.error.Status().None?
  {
    match (p.skip, p.take)
    case (Int(s), Int(t)) => if s >= 0 && t >= 0 then Ok(Page(s, t)) else Err(StoreException(InvalidPaging))
    case _ => Err(StoreException(InvalidPaging))
  }

  predicate IdsIncreasing<T>(s: seq<Row<T>>)
  {
    forall i, j :: 0 <= i < j < |s| ==> s[i].id < s[j].id
  }

  /** The rows of `m` with an id below `n`, in increasing id order (the order the model fixes for listings). */
  function Rows<T>(m: map<int, T>, n: nat): (r: seq<Row<T>>)
    ensures forall i :: 0 <= i < |r| ==> r[i].id in m && m[r[i].id] == r[i].rec && 0 <= r[i].id < n
    ensures IdsIncreasing(r)
    ensures forall k :: 0 <= k < n && k in m ==> Row(k, m[k]) in r
    decreases n
  {
    if n == 0 then []
    else Rows(m, n - 1) + (if n - 1 in m then [Row(n - 1, m[n - 1])] else [])
  }

  /** The rows of `s` that `keep` accepts, in their original order. */
  function Filter<T>(s: seq<Row<T>>, keep: Row<T> -> bool): (r: seq<Row<T>>)
    ensures |r| <= |s|
    ensures forall i :: 0 <= i < |r| ==> r[i] in s && keep(r[i])
    ensures forall i :: 0 <= i < |s| && keep(s[i]) ==> s[i] in r
    ensures IdsIncreasing(s) ==> IdsIncreasing(r)
  {
    if |s| == 0 then []
    else
      var rest := Filter(s[1..], keep);
      assert forall i :: 1 <= i < |s| ==> s[i] == s[1..][i - 1];
      if keep(s[0]) then [s[0]] + rest else rest
  }

  function Min(a: int, b: int): int { if a <= b then a else b }

  /** `skip` / `take`: at most `take` consecutive elements of `s`, starting after the first `skip`. */
  function Window<T>(s: seq<T>, skip: nat, take: nat): (r: seq<T>)
    ensures |r| == if skip >= |s| then 0 else Min(take, |s| - skip)
    ensures forall i :: 0 <= i < |r| ==> r[i] == s[skip + i]
  {
    if skip >= |s| then [] else s[skip..Min(skip + take, |s|)]
  }

  /**
    * Every row on a page of a filtered table is a row of the table that the
    * filter accepts; the page holds no more than `take` rows, in id order.
    */
  lemma PageIsSound<T>(m: map<int, T>, n: nat, keep: Row<T> -> bool, page: Page)
    ensures var data := Window(Filter(Rows(m, n), keep), page.skip, page.take);
            && |data| <= page.take
            && IdsIncreasing(data)
            && forall i :: 0 <= i < |data| ==> data[i].id in m && m[data[i].id] == data[i].rec && keep(data[i])
  {
  }

  /** Filtering a concatenation filters each part. */
  lemma {:induction false} FilterAppend<T>(a: seq<Row<T>>, b: seq<Row<T>>, keep: Row<T> -> bool)
    ensures Filter(a + b, keep) == Filter(a, keep) + Filter(b, keep)
    decreases |a|
  {
    if |a| > 0 {
      assert (a + b)[1..] == a[1..] + b;
      FilterAppend(a[1..], b, keep);
    } else {
      assert a + b == b;
    }
  }

  /** The ids below `n` whose rows `keep` accepts. */
  ghost function Accepted<T>(m: map<int, T>, n: nat, keep: Row<T> -> bool): set<int>
  {
    set k | k in m && 0 <= k < n && keep(Row(k, m[k]))
  }

  lemma AcceptedStep<T>(m: map<int, T>, n: nat, keep: Row<T> -> bool)
    requires n > 0
    ensures n - 1 in m && keep(Row(n - 1, m[n - 1])) ==> |Accepted(m, n, keep)| == |Accepted(m, n - 1, keep)| + 1
    ensures !(n - 1 in m && keep(Row(n - 1, m[n - 1]))) ==> Accepted(m, n, keep) == Accepted(m, n - 1, keep)
  {
    if n - 1 in m && keep(Row(n - 1, m[n - 1])) {
      assert Accepted(m, n, keep) == Accepted(m, n - 1, keep) + {n - 1};
    }
  }

  /** A count over the filtered rows is the number of accepted ids. */
  lemma {:induction false} FilterCount<T>(m: map<int, T>, n: nat, keep: Row<T> -> bool)
    ensures |Filter(Rows(m, n), keep)| == |Accepted(m, n, keep)|
    decreases n
  {
    if n > 0 {
      var last := if n - 1 in m then [Row(n - 1, m[n - 1])] else [];
      FilterAppend(Rows(m, n - 1), last, keep);
      FilterCount(m, n - 1, keep);
      AcceptedStep(m, n, keep);
      assert |Filter(last, keep)| == if n - 1 in m && keep(Row(n - 1, m[n - 1])) then 1 else 0;
    }
  }

  // ---------------------------------------------------------------------------
  // The schema's constraints.

  /** Auto-increment ids: ids start at 1 and every key is below the next id to hand out. */
  ghost predicate KeysBelow<T>(m: map<int, T>, next: nat)
  {
    1 <= next && forall k :: k in m ==> 1 <= k < next
  }

  ghost predicate EmailsUnique(m: map<int, Customer>)
  {
    forall a, b :: a in m && b in m && m[a].email == m[b].email ==> a == b
  }

  ghost predicate GenreTitlesUnique(m: map<int, Genre>)
  {
    forall a, b :: a in m && b in m && m[a].title == m[b].title ==> a == b
  }

  ghost predicate TitleAndTypeUnique(m: map<int, Media>)
  {
    forall a, b :: a in m && b in m && m[a].title == m[b].title && m[a].mediaType == m[b].mediaType ==> a == b
  }

  ghost predicate UnitsBelongToMedias(units: map<int, Unit>, medias: map<int, Media>)
  {
    forall k :: k in units ==> units[k].mediaId in medias
  }

  ghost predicate NegotiatedUnitsExist(negotiations: map<int, Negotiation>, units: map<int, Unit>)
  {
    forall n, i :: n in negotiations && 0 <= i < |negotiations[n].units| ==> negotiations[n].units[i] in units
  }

  ghost predicate NegotiationsHaveCustomers(negotiations: map<int, Negotiation>, customers: map<int, Customer>)
  {
    forall n :: n in negotiations ==> negotiations[n].customerId in customers
  }

  /** The database: one map per table and one id counter per table. */
  class Db {
    var customers: map<int, Customer>
    var genres: map<int, Genre>
    var medias: map<int, Media>
    var units: map<int, Unit>
    var negotiations: map<int, Negotiation>
    var nextCustomerId: nat
    var nextGenreId: nat
    var nextMediaId: nat
    var nextUnitId: nat
    var nextNegotiationId: nat

    /** The constraints the store enforces on every state. */
    ghost predicate Valid()
      reads this
    {
      && KeysBelow(customers, nextCustomerId) && EmailsUnique(customers)
      && KeysBelow(genres, nextGenreId) && GenreTitlesUnique(genres)
      && KeysBelow(medias, nextMediaId) && TitleAndTypeUnique(medias)
      && KeysBelow(units, nextUnitId) && UnitsBelongToMedias(units, medias)
      && KeysBelow(negotiations, nextNegotiationId) && NegotiatedUnitsExist(negotiations, units)
      && NegotiationsHaveCustomers(negotiations, customers)
    }

    /** An empty database whose counters start at 1. */
    constructor ()
      ensures Valid()
      ensures customers == map[] && genres == map[] && medias == map[] && units == map[] && negotiations == map[]
      ensures nextCustomerId == 1 && nextGenreId == 1 && nextMediaId == 1 && nextUnitId == 1 && nextNegotiationId == 1
    {
      customers, genres, medias, units, negotiations := map[], map[], map[], map[], map[];
      nextCustomerId, nextGenreId, nextMediaId, nextUnitId, nextNegotiationId := 1, 1, 1, 1, 1;
    }
  }
}
