# media-shop business layer in Dafny

This project models the business layer of the media-shop REST API: a shop
that rents and sells units (copies) of media titles to customers. The HTTP
routing and the ORM are abstracted away. What remains is a set of services
over an in-memory database, with one table per entity (customers, genres,
medias, units, negotiations). Each table is a map from id to record, with an
auto-increment counter and the schema's unique and foreign-key constraints.

- `store.dfy` (module `Store`): the records, the `Db` class and its
  constraints (`Db.Valid`), the store's paging check and list reads
  (`Rows`, `Filter`, `Window`), and the store errors.
- `customer_service.dfy`, `media_service.dfy`, `genre_service.dfy`,
  `unit_service.dfy`: the CRUD services. Each is a class holding the `Db`.
  Its methods change only the table (field) they name in `modifies`.
- `negotiation_service.dfy`: the negotiation lifecycle. It holds the
  availability check (a counting rule), the loop that flips unit
  availability, and `create`, `deliver`, `destroy` and `archive`.
- `search_service.dfy` and `search_controller.dfy`: the media search as a
  pure function, and the query-string handling in front of it.
- `http_exceptions.dfy`, `error_handler.dfy`: the exceptions and the error
  middleware.
- `strings.dfy`, `numbers.dfy`, `wrappers.dfy`: JavaScript's `split`,
  `split('\n').pop()`, case-insensitive `contains`, `Number.parseInt` and
  `${n}`, plus `Option`.

Every service call returns a `Result`: the value, or the exception it throws.
An `HttpException` carries a status. An error thrown by the store client
(`StoreException`) carries none, so the error handler answers 500 for it.

Behaviour worth knowing:

- `update` of a missing customer, media or genre is a store error that the
  service catches and turns into a 400 (`ValidationRecordException`), not a
  404.
- The unit service's `update` and `create`, and the negotiation service's
  `archive` and the unit updates behind `create` and `deliver`, let the
  store error through uncaught. The unit controller's `create` and `update`
  and the negotiation controller's `deliver` have no `catch` either, so the
  HTTP answer to such an error depends on how the web framework treats a
  rejected promise, which is outside this model.
- The negotiation services' not-found error is the store's own, without a
  status. `getOne` and `destroy` pass it to the error handler, which
  answers 500.
- The availability check counts distinct ids. A list that repeats an id is
  rejected even when that unit is available.
- No listing query names an order. The model lists rows in id order, one
  order the database may return.

## Model

| member | source | states |
|---|---|---|
| HttpExceptions.RecordNotFoundException | src/entities/httpException.ts:21-25 | status 404; message "Record with id " + id + " not found", from which `parseInt` reads the id back |
| HttpExceptions.RecordNotFoundIsInjective | src/entities/httpException.ts:21-25 | two not-found exceptions are equal only for the same id |
| HttpExceptions.ValidationRecordException | src/entities/httpException.ts:27-33 | status 400; the message is the text after the last '\n' of the store message (a suffix without line breaks, preceded by '\n'), or the whole message when it has none |
| Strings.LastLine | src/entities/httpException.ts:30 | `split('\n').pop()`: no line break in the result; it is a suffix preceded by '\n', or the whole string |
| Strings.Split | src/entities/httpException.ts:30 | at least one segment; no segment holds the separator; exactly one segment iff the separator does not occur |
| Strings.JoinSplit | src/entities/httpException.ts:30 | joining the segments with the separator gives the original string back |
| Strings.LastLineAfterBreak | src/entities/httpException.ts:30 | the last line of `prefix + "\n" + line` is `line` when `line` has no break |
| Store.ValidationKeepsReason | src/entities/httpException.ts:27-33 | a validation exception built from a store message keeps exactly the reason line |
| Store.UniqueViolation | src/domains/customers/services/customer-service.ts:49-55 | a caught unique-constraint error becomes a 400 whose message is the store's reason naming the fields |
| Store.MissingUpdateTarget | src/domains/customers/services/customer-service.ts:57-69 | a caught update of a missing row becomes a 400 with the store's "Record to update not found" reason |
| ErrorHandler.HandleError | src/config/errorHandler.ts:11-17 | status is the exception's status when set and non-zero, else 500; body has success false, the same status and the message unchanged |
| ErrorHandler.NotFoundAnswers404 | src/config/errorHandler.ts:11-17 | a not-found exception answers 404 with its message |
| ErrorHandler.ValidationAnswers400 | src/config/errorHandler.ts:11-17 | a validation exception answers 400 |
| ErrorHandler.StoreErrorAnswers500 | src/config/errorHandler.ts:11-17 | a store error passed to the handler answers 500 with the store's message |
| Numbers.NatToString | src/entities/httpException.ts:23 | `${n}` for n >= 0: decimal digits, no leading zero |
| Numbers.IntToString | src/entities/httpException.ts:23 | `${n}`: a minus sign exactly for a negative number, then decimal digits without a leading zero |
| Numbers.ParseInt | src/domains/search/controllers/search-controller.ts:27-28 | `Number.parseInt`: NaN exactly when, after white space and a sign, no decimal digit (or "0x" and a hexadecimal digit) follows; a negative result only after a minus sign |
| Numbers.DecimalRoundTrip | src/entities/httpException.ts:23 | reading back the written digits gives the number |
| Numbers.ParseIntRoundTrip | src/domains/search/controllers/search-controller.ts:27-28 | `parseInt` of a written integer gives that integer |
| Numbers.ParseIntRejectsNonNumeric | src/domains/search/controllers/search-controller.ts:27-28 | a string starting with anything but white space, a sign or a digit parses to NaN |
| Numbers.ParseIntStopsAtNonDigit | src/domains/search/controllers/search-controller.ts:27-28 | digits followed by a non-digit parse to the digits' value, unless they are a lone "0" followed by 'x' or 'X' (a hexadecimal prefix) |
| Store.ToPage | src/domains/customers/services/customer-service.ts:29-32 | the store accepts skip and take only as non-negative integers; otherwise an error without status |
| Store.Rows | src/domains/customers/services/customer-service.ts:29-32 | the rows of a table below the counter, in increasing id order, each a true row, none missing |
| Store.Filter | src/domains/customers/services/customer-service.ts:29-32 | exactly the accepted rows, in order, no more rows than the input |
| Store.Window | src/domains/customers/services/customer-service.ts:29-32 | at most `take` consecutive elements starting after `skip` |
| Store.PageIsSound | src/domains/customers/services/customer-service.ts:27-37 | a page holds at most `take` rows of the table, in id order, each accepted by the filter (a consequence of the contracts of `Rows`, `Filter` and `Window`) |
| Store.FilterAppend | src/domains/units/services/unit-service.ts:29-35 | filtering distributes over concatenation |
| Store.FilterCount | src/domains/units/services/unit-service.ts:29-35 | the number of filtered rows is the number of accepted ids |
| Customers.InsertKeepsEmailsUnique | src/domains/customers/services/customer-service.ts:49-55 | inserting an unused email keeps emails unique |
| Customers.ReplaceKeepsEmailsUnique | src/domains/customers/services/customer-service.ts:57-69 | replacing a row with an email no other row holds keeps emails unique |
| Customers.CustomerService.FindById | src/domains/customers/services/customer-service.ts:17-25 | Ok iff the id exists and is not archived, with that record; otherwise the 404 for the id |
| Customers.CustomerService.GetOne | src/domains/customers/services/customer-service.ts:39-41 | as FindById; the error has status 404 |
| Customers.CustomerService.GetAll | src/domains/customers/services/customer-service.ts:27-37 | total counts every customer, archived ones included; data is the window of live customers in id order, at most `take` |
| Customers.CustomerService.Create | src/domains/customers/services/customer-service.ts:49-55 | fails with the 400 iff the email is used by any customer, changing nothing; otherwise inserts under the next id |
| Customers.CustomerService.Update | src/domains/customers/services/customer-service.ts:57-69 | keyed by id only, archived rows included; a missing id or another customer's email is a 400 and changes nothing; otherwise only the supplied fields change |
| Customers.CustomerService.Destroy | src/domains/customers/services/customer-service.ts:43-47 | a live customer gets `archived` set and nothing else changes; a missing or archived id is the 404 and changes nothing |
| Medias.WholeRecordReplaces | src/domains/medias/services/media-service.ts:43-47 | writing a found record back with every field replaces the row by it |
| Medias.InsertKeepsTitlesUnique | src/domains/medias/services/media-service.ts:49-55 | inserting an unused (title, type) pair keeps pairs unique |
| Medias.ReplaceKeepsTitlesUnique | src/domains/medias/services/media-service.ts:57-66 | replacing a row with a pair no other row holds keeps pairs unique |
| Medias.MediaService.FindById | src/domains/medias/services/media-service.ts:17-25 | Ok iff the id exists and is not archived; otherwise the 404 |
| Medias.MediaService.GetOne | src/domains/medias/services/media-service.ts:39-41 | as FindById; the error has status 404 |
| Medias.MediaService.GetAll | src/domains/medias/services/media-service.ts:27-37 | total counts every media, archived included; data is the window of live medias |
| Medias.MediaService.Create | src/domains/medias/services/media-service.ts:49-55 | fails with the 400 iff some media already has the title and type, changing nothing; otherwise inserts under the next id |
| Medias.MediaService.Update | src/domains/medias/services/media-service.ts:57-66 | a missing id or a (title, type) collision with another media is a 400 and changes nothing; otherwise only the supplied fields change |
| Medias.MediaService.Destroy | src/domains/medias/services/media-service.ts:43-47 | a live media gets `archived` set, nothing else changes, and its units are not touched; otherwise the 404 |
| Genres.InsertKeepsTitlesUnique | src/domains/genres/services/genre-service.ts:45-51 | inserting an unused title keeps titles unique |
| Genres.ReplaceKeepsTitlesUnique | src/domains/genres/services/genre-service.ts:53-62 | replacing a row with a title no other row holds keeps titles unique |
| Genres.GenreService.FindById | src/domains/genres/services/genre-service.ts:17-25 | Ok iff the id exists (no archived flag); otherwise the 404 |
| Genres.GenreService.GetOne | src/domains/genres/services/genre-service.ts:36-38 | as FindById; the error has status 404 |
| Genres.GenreService.GetAll | src/domains/genres/services/genre-service.ts:27-34 | total is the size of the table; data is its window in id order |
| Genres.GenreService.Destroy | src/domains/genres/services/genre-service.ts:40-43 | an existing id is removed from the table; a missing id is the 404 before any delete |
| Genres.GenreService.Create | src/domains/genres/services/genre-service.ts:45-51 | fails with the 400 iff the title is taken, changing nothing; otherwise inserts under the next id |
| Genres.GenreService.Update | src/domains/genres/services/genre-service.ts:53-62 | a missing id or another genre's title is a 400 and changes nothing; otherwise the title is replaced |
| Units.UnitsOfCount | src/domains/units/services/unit-service.ts:29-35 | the listed units of a media are exactly its live units in number |
| Units.UnitService.FindById | src/domains/units/services/unit-service.ts:15-23 | Ok iff the unit exists, is live and belongs to the named media; otherwise the 404 |
| Units.UnitService.GetOne | src/domains/units/services/unit-service.ts:40-42 | as FindById; a unit of another media is a 404 |
| Units.UnitService.GetAll | src/domains/units/services/unit-service.ts:25-38 | total is the number of live units of the media (same filter as the page); data is its window, no longer than total |
| Units.UnitService.Create | src/domains/units/services/unit-service.ts:50-52 | stores the unit with the argument's media id, whatever the body said; a media id with no media is an uncaught store error |
| Units.UnitService.Update | src/domains/units/services/unit-service.ts:54-59 | keyed by id alone, any media, archived or not; only supplied fields change; a missing id or unknown media is an uncaught store error that changes nothing |
| Units.UnitService.Destroy | src/domains/units/services/unit-service.ts:44-48 | a live unit of the named media gets `archived` set, keeping availability, offers and prices; otherwise the 404 |
| Negotiations.AvailableAmong | src/domains/negotiations/services/negotiation-service.ts:26-34 | the counted ids are a subset of the listed ids |
| Negotiations.ElementsCount | src/domains/negotiations/services/negotiation-service.ts:26-38 | a list has at most as many distinct ids as entries, exactly as many iff no id repeats |
| Negotiations.SubsetSize | src/domains/negotiations/services/negotiation-service.ts:26-38 | a subset is no larger than its superset |
| Negotiations.SubsetOfSameSize | src/domains/negotiations/services/negotiation-service.ts:26-38 | a subset as large as its superset equals it |
| Negotiations.CheckPassesIffAllAvailable | src/domains/negotiations/services/negotiation-service.ts:26-38 | `count < ids.length` is false iff the ids are distinct and each names an existing available unit |
| Negotiations.EmptyListPasses | src/domains/negotiations/services/negotiation-service.ts:26-38 | an empty list passes the check |
| Negotiations.RepeatedIdIsRejected | src/domains/negotiations/services/negotiation-service.ts:26-38 | a repeated id makes the check fail |
| Negotiations.UnknownIdIsRejected | src/domains/negotiations/services/negotiation-service.ts:26-38 | an unknown id makes the check fail |
| Negotiations.SetAvailability | src/domains/negotiations/services/negotiation-service.ts:39-50 | same keys; only `available` changes; listed units get the flag, others keep theirs |
| Negotiations.ReleaseUndoesReserve | src/domains/negotiations/services/negotiation-service.ts:52-58 | releasing what a reservation of available units took restores the unit table |
| Negotiations.SetAvailabilityIsIdempotent | src/domains/negotiations/services/negotiation-service.ts:123-138 | setting the flag twice equals setting it once, so a second delivery leaves the units as the first did |
| Negotiations.SetAvailabilityStep | src/domains/negotiations/services/negotiation-service.ts:39-50 | flipping one more id extends the flipped prefix by that id |
| Negotiations.SetAvailabilityKeepsConstraints | src/domains/negotiations/services/negotiation-service.ts:39-50 | flipping availability keeps every table constraint |
| Negotiations.NegotiationService.CheckAvailableUnits | src/domains/negotiations/services/negotiation-service.ts:26-38 | the 400 "All units must been available" iff the count falls short, that is iff the list is not all-available |
| Negotiations.NegotiationService.ToggleAvailableUnits | src/domains/negotiations/services/negotiation-service.ts:39-50 | the unit table becomes SetAvailability of the old one; fails with a store error iff some id names no unit |
| Negotiations.NegotiationService.ReserveUnits | src/domains/negotiations/services/negotiation-service.ts:52-54 | the listed units become unavailable |
| Negotiations.NegotiationService.EnableUnits | src/domains/negotiations/services/negotiation-service.ts:56-58 | the listed units become available |
| Negotiations.NegotiationService.FindById | src/domains/negotiations/services/negotiation-service.ts:60-68 | Ok iff the id exists and is not archived; otherwise the store's not-found error, without status |
| Negotiations.NegotiationService.GetOne | src/domains/negotiations/services/negotiation-service.ts:86-88 | as FindById |
| Negotiations.NegotiationService.GetAll | src/domains/negotiations/services/negotiation-service.ts:70-84 | total counts every negotiation, archived included; data is the window of live ones |
| Negotiations.NegotiationService.Create | src/domains/negotiations/services/negotiation-service.ts:96-108 | a rejected list is the 400 and changes nothing; an unknown customer fails the foreign key and changes nothing; otherwise a live negotiation linked to exactly the listed units is stored and every listed unit becomes unavailable, the others unchanged |
| Negotiations.NegotiationService.Archive | src/domains/negotiations/services/negotiation-service.ts:110-121 | sets `archived` on any existing row; a missing id is an uncaught store error |
| Negotiations.NegotiationService.Destroy | src/domains/negotiations/services/negotiation-service.ts:90-94 | a live negotiation is archived and no unit changes; otherwise the not-found error and nothing changes |
| Negotiations.NegotiationService.Deliver | src/domains/negotiations/services/negotiation-service.ts:123-138 | a live negotiation gets `deliveredAt` stamped (again, if already delivered) and every linked unit becomes available, other units unchanged; otherwise nothing changes |
| Strings.ContainsIgnoringCaseIsLowerSubstring | src/domains/search/services/search-service.ts:25-27 | insensitive `contains` equals a plain substring test on lower-cased text |
| Search.SearchMedias | src/domains/search/services/search-service.ts:18-61 | data is exactly the skip/take window of the matching medias and total their number; every result is a live media matching title, type and the all-units condition; bad paging is a store error |
| Search.FoundCount | src/domains/search/services/search-service.ts:45-60 | total is the number of matching medias in the whole table, independent of the window |
| Search.EmptyTitleIsNoFilter | src/domains/search/services/search-service.ts:25-27 | an empty title filters exactly as an absent one |
| Search.TitleFindsItselfIgnoringCase | src/domains/search/services/search-service.ts:25-27 | a title differing only in letter case matches |
| Search.MediaWithoutUnitsQualifies | src/domains/search/services/search-service.ts:37-42 | a media with no units meets the unit condition for any negotiation type |
| Search.ArchivedUnitHidesMedia | src/domains/search/services/search-service.ts:37-42 | one archived unit excludes its media from every search |
| SearchController.FormatNegotiationType | src/domains/search/controllers/search-controller.ts:12-17 | a value only for exactly "RENT" or "SALE", the one so named; nothing otherwise |
| SearchController.FormatMediaType | src/domains/search/controllers/search-controller.ts:19-23 | a value only for exactly "MOVIE", "SERIE" or "BOOK"; nothing otherwise |
| SearchController.NegotiationTypeRoundTrip | src/domains/search/controllers/search-controller.ts:12-17 | each negotiation type is recognised by its name |
| SearchController.MediaTypeRoundTrip | src/domains/search/controllers/search-controller.ts:19-23 | each media type is recognised by its name |
| SearchController.PagingValue | src/domains/search/controllers/search-controller.ts:27-28 | absent or empty gives the default; otherwise `parseInt` of the text |
| SearchController.PagingValueReadsDecimal | src/domains/search/controllers/search-controller.ts:27-28 | a decimal integer is read as itself |
| SearchController.ToSearchParams | src/domains/search/controllers/search-controller.ts:26-37 | title passed as given, enums recognised, skip default 0, take default 10 |
| SearchController.HandleSearch | src/domains/search/controllers/search-controller.ts:25-42 | fails iff skip or take is NaN or negative, and then the error handler answers 500; otherwise the skip/take window of the medias matching the parsed query, with their number as total |
| SearchController.DefaultPageHoldsTen | src/domains/search/controllers/search-controller.ts:27-28 | without offset and limit the search succeeds with at most 10 medias |
| SearchController.UnknownMediaTypeIsIgnored | src/domains/search/controllers/search-controller.ts:36 | an unrecognised media type gives the same answer as none |
| SearchController.UnknownNegotiationTypeIsIgnored | src/domains/search/controllers/search-controller.ts:35 | an unrecognised `availableFor` gives the same answer as none |
| SearchController.NonNumericOffsetAnswers500 | src/domains/search/controllers/search-controller.ts:27-40 | an offset such as "x" ends in a 500 |
| SearchController.NonNumericLimitAnswers500 | src/domains/search/controllers/search-controller.ts:27-40 | a limit such as "x" ends in a 500 |

## Left out

- Routes, the other controllers, the OpenAPI documents and the process bootstrap are wiring without logic. The other controllers' offset/limit handling is the search controller's, modelled once.
- Store error texts: the messages of the store client's errors are stand-ins that differ from its real texts. The known request errors are shaped as a first line naming the call and the reason on the last line; the caught 400s keep only that reason line. A store error without a status that reaches the error handler (negotiation `getOne` and `destroy`, a listing or search with bad skip/take) is answered with its whole message, whose text the model does not reproduce.
- Store.ToPage: the ORM's backward paging with a negative `take` is not modelled; a negative skip or take is refused like NaN.
- SearchController.HandleSearch: the same refusal of a negative `take`, which the ORM would read as paging backwards.
- Id counters advance only on a successful insert. A database sequence may also consume an id on a failed insert.
- `Promise.all` in `toggleAvailableUnits` and the race between concurrent requests (check, then reserve) are concurrency. The model applies the updates one after another; the final table is the same.
- `ValidationRecordException` built from an error that is not a known store error never initialises the object, a JavaScript runtime failure; the model requires a known store error.
- `createdAt` and `updatedAt` timestamps and the clock: `deliver` takes the time stamp as a parameter.
- Prices are carried as opaque reals and never computed with.
- Genre–media links, hydration of `customer`, `units` and `genres` in responses, and the links a genre delete removes.
- Whether a unit can be linked to several negotiations depends on the database schema, which is not part of this model; a negotiation keeps the list of unit ids it was created with.
- The database seeder is not modelled; `Db`'s constructor gives only the empty initial state.
- Strings.ContainsIgnoringCaseIsLowerSubstring: folds ASCII letters only, where the database folds case by its collation.
- Search.SearchMedias: the result's media records are returned without their units and genres. Its window is cut from the matches in id order, where the query leaves the order to the database.
- Customers.CustomerService.GetAll, Medias.MediaService.GetAll, Genres.GenreService.GetAll, Units.UnitService.GetAll, Negotiations.NegotiationService.GetAll: the model fixes id order, while the source's `findMany` calls pass no `orderBy` and leave the order, and so which rows fill a skip/take page, to the database.
- Numbers.NatToString: numbers are unbounded integers; JavaScript writes 1e21 and above in exponent form ("1e+21"), which the model does not.
- Numbers.IntToString: the same, for magnitudes of 1e21 and above.
- Numbers.ParseInt: returns the exact integer; JavaScript's result is a double, rounded above 2^53.
- Numbers.ParseIntRoundTrip: exact read-back holds in JavaScript only for magnitudes up to 2^53; the model's integers are unbounded.
- Numbers.ParseIntStopsAtNonDigit: likewise exact only up to 2^53 in JavaScript.
- SearchController.PagingValueReadsDecimal: likewise exact only up to 2^53 in JavaScript.
- HttpExceptions.RecordNotFoundException: ids are integers. A NaN id, which every controller's `parseInt` can produce and which the services' catch-all turns into "Record with id NaN not found", is not modelled, and neither are the exponent form from 1e21 and the rounding above 2^53 that break the read-back.
