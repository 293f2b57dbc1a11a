/** Genres: unique titles, no archived flag, and a delete that removes the row. */
module Genres {
  import opened Wrappers
  import opened HttpExceptions
  import opened Store

  /** The fields a request body supplies; an absent title keeps its value. */
  datatype GenrePatch = GenrePatch(title: Option<string>)

  function ApplyPatch(g: Genre, p: GenrePatch): Genre
  {
    Genre(p.title.GetOr(g.title))
  }

  predicate Any(row: Row<Genre>) { true }

  predicate TitleInUse(m: map<int, Genre>, title: string)
  {
    exists k | k in m :: m[k].title == title
  }

  predicate TitleHeldByOther(m: map<int, Genre>, id: int, title: string)
  {
    exists k | k in m && k != id :: m[k].title == title
  }

  lemma InsertKeepsTitlesUnique(m: map<int, Genre>, id: int, g: Genre)
    requires GenreTitlesUnique(m) && id !in m && !TitleInUse(m, g.title)
    ensures GenreTitlesUnique(m[id := g])
  {
  }

  lemma ReplaceKeepsTitlesUnique(m: map<int, Genre>, id: int, g: Genre)
    requires GenreTitlesUnique(m) && id in m && !TitleHeldByOther(m, id, g.title)
    ensures GenreTitlesUnique(m[id := g])
  {
  }

  const CreateCall := "prisma.genre.create()"
  const UpdateCall := "prisma.genre.update()"
  const TitleField := "`title`"

  class GenreService {
    const db: Db

    constructor (db: Db)
      ensures this.db == db
    {
      this.db := db;
    }

    /** `findById`: any genre with this id; a missing id is a 404. */
    method FindById(id: int) returns (r: Result<Genre>)
      ensures r.Ok? <==> id in db.genres
      ensures r.Ok? ==> r.value == db.genres[id]
      ensures r.Err? ==> r.error == RecordNotFoundException(id)
    {
      if id in db.genres {
        r := Ok(db.genres[id]);
      } else {
        r := Err(RecordNotFoundException(id));
      }
    }

    method GetOne(id: int) returns (r: Result<Genre>)
      ensures r.Ok? <==> id in db.genres
      ensures r.Ok? ==> r.value == db.genres[id]
      ensures r.Err? ==> r.error == RecordNotFoundException(id) && r.error.status == 404
    {
      r := FindById(id);
    }

    /** `getAll`: a page of all genres in id order; `total` is the size of the table. */
    method GetAll(p: ListParams) returns (r: Result<Results<Genre>>)
      ensures r.Err? <==> ToPage(p).Err?
      ensures r.Err? ==> r.error == ToPage(p).error
      ensures r.Ok? ==> r.value.total == |db.genres|
      ensures r.Ok? ==> |r.value.data| <= ToPage(p).value.take && IdsIncreasing(r.value.data)
      ensures r.Ok? ==> forall i :: 0 <= i < |r.value.data| ==>
                var row := r.value.data[i];
                row.id in db.genres && db.genres[row.id] == row.rec
      ensures r.Ok? ==>
                r.value.data == Window(Filter(Rows(db.genres, db.nextGenreId), Any), ToPage(p).value.skip, ToPage(p).value.take)
    {
      var page := ToPage(p);
      if page.Err? {
        return Err(page.error);
      }
      var data := Window(Filter(Rows(db.genres, db.nextGenreId), Any), page.value.skip, page.value.take);
      PageIsSound(db.genres, db.nextGenreId, Any, page.value);
      r := Ok(Results(|db.genres|, data));
    }

    /** `destroy`: a missing id is a 404 before anything is deleted; otherwise the row is removed. */
    method Destroy(id: int) returns (r: Result<()>)
      requires db.Valid()
      modifies db`genres
      ensures db.Valid()
      ensures r.Ok? <==> id in old(db.genres)
      ensures r.Err? ==> r.error == RecordNotFoundException(id) && db.genres == old(db.genres)
      ensures r.Ok? ==> db.genres == old(db.genres) - {id} && id !in db.genres
    {
      var found := FindById(id);
      if found.Err? {
        return Err(found.error);
      }
      db.genres := db.genres - {id};
      r := Ok(());
    }

    /** `create`: a new row under the next id, unless the title is taken, which is a 400. */
    method Create(g: Genre) returns (r: Result<Row<Genre>>)
      requires db.Valid()
      modifies db`genres, db`nextGenreId
      ensures db.Valid()
      ensures r.Err? <==> TitleInUse(old(db.genres), g.title)
      ensures r.Err? ==> r.error == UniqueViolation(CreateCall, TitleField) && r.error == HttpException(400, UniqueReason(TitleField))
      ensures r.Err? ==> db.genres == old(db.genres) && db.nextGenreId == old(db.nextGenreId)
      ensures r.Ok? ==> r.value == Row(old(db.nextGenreId), g) && r.value.id !in old(db.genres)
      ensures r.Ok? ==> db.genres == old(db.genres)[r.value.id := g] && db.nextGenreId == old(db.nextGenreId) + 1
    {
      if TitleInUse(db.genres, g.title) {
        return Err(UniqueViolation(CreateCall, TitleField));
      }
      var id := db.nextGenreId;
      InsertKeepsTitlesUnique(db.genres, id, g);
      db.genres := db.genres[id := g];
      db.nextGenreId := id + 1;
      r := Ok(Row(id, g));
    }

    /**
      * `update`: keyed by id. A missing id, or a title another genre holds,
      * is a store error turned into a 400.
      */
    method Update(id: int, patch: GenrePatch) returns (r: Result<Row<Genre>>)
      requires db.Valid()
      modifies db`genres
      ensures db.Valid()
      ensures r.Ok? <==> id in old(db.genres) && !(patch.title.Some? && TitleHeldByOther(old(db.genres), id, patch.title.value))
      ensures id !in old(db.genres) ==> r == Err(MissingUpdateTarget(UpdateCall))
      ensures id in old(db.genres) && r.Err? ==> r == Err(UniqueViolation(UpdateCall, TitleField))
      ensures r.Err? ==> r.error.status == 400 && db.genres == old(db.genres)
      ensures r.Ok? ==> r.value == Row(id, ApplyPatch(old(db.genres[id]), patch))
      ensures r.Ok? ==> db.genres == old(db.genres)[id := r.value.rec]
    {
      if id !in db.genres {
        return Err(MissingUpdateTarget(UpdateCall));
      }
      if patch.title.Some? && TitleHeldByOther(db.genres, id, patch.title.value) {
        return Err(UniqueViolation(UpdateCall, TitleField));
      }
      var updated := ApplyPatch(db.genres[id], patch);
      ReplaceKeepsTitlesUnique(db.genres, id, updated);
      db.genres := db.genres[id := updated];
      r := Ok(Row(id, updated));
    }
  }
}
