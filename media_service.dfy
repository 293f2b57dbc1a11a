/** Medias: soft-deleted titles, unique by the pair of title and media type. */
module Medias {
  import opened Wrappers
  import opened HttpExceptions
  import opened Store

  /**
    * The fields a request body supplies. A field that is absent keeps its
    * value; the nullable fields take `Some(None)` for an explicit null.
    */
  datatype MediaPatch = MediaPatch(
    title: Option<string>,
    subtitle: Option<Option<string>>,
    authorName: Option<Option<string>>,
    description: Option<Option<string>>,
    releaseYear: Option<Option<int>>,
    mediaType: Option<MediaType>,
    archived: Option<bool>)

  function ApplyPatch(m: Media, p: MediaPatch): Media
  {
    Media(
      p.title.GetOr(m.title),
      p.subtitle.GetOr(m.subtitle),
      p.authorName.GetOr(m.authorName),
      p.description.GetOr(m.description),
      p.releaseYear.GetOr(m.releaseYear),
      p.mediaType.GetOr(m.mediaType),
      p.archived.GetOr(m.archived))
  }

  /** Every field of `m`, as `destroy` writes the found record back. */
  function WholeRecord(m: Media): MediaPatch
  {
    MediaPatch(Some(m.title), Some(m.subtitle), Some(m.authorName), Some(m.description),
               Some(m.releaseYear), Some(m.mediaType), Some(m.archived))
  }

  /** Writing a record's own fields back over any record gives that record. */
  lemma WholeRecordReplaces(old_: Media, m: Media)
    ensures ApplyPatch(old_, WholeRecord(m)) == m
  {
  }

  predicate IsLive(row: Row<Media>) { !row.rec.archived }

  predicate TitleInUse(m: map<int, Media>, title: string, mediaType: MediaType)
  {
    exists k | k in m :: m[k].title == title && m[k].mediaType == mediaType
  }

  predicate TitleHeldByOther(m: map<int, Media>, id: int, title: string, mediaType: MediaType)
  {
    exists k | k in m && k != id :: m[k].title == title && m[k].mediaType == mediaType
  }

  lemma InsertKeepsTitlesUnique(m: map<int, Media>, id: int, media: Media)
    requires TitleAndTypeUnique(m) && id !in m && !TitleInUse(m, media.title, media.mediaType)
    ensures TitleAndTypeUnique(m[id := media])
  {
  }

  lemma ReplaceKeepsTitlesUnique(m: map<int, Media>, id: int, media: Media)
    requires TitleAndTypeUnique(m) && id in m && !TitleHeldByOther(m, id, media.title, media.mediaType)
    ensures TitleAndTypeUnique(m[id := media])
  {
  }

  const CreateCall := "prisma.media.create()"
  const UpdateCall := "prisma.media.update()"
  const TitleFields := "`title`,`mediaType`"

  class MediaService {
    const db: Db

    constructor (db: Db)
      ensures this.db == db
    {
      this.db := db;
    }

    /** `findById`: the media with this id unless it is missing or archived; otherwise 404. */
    method FindById(id: int) returns (r: Result<Media>)
      ensures r.Ok? <==> id in db.medias && !db.medias[id].archived
      ensures r.Ok? ==> r.value == db.medias[id]
      ensures r.Err? ==> r.error == RecordNotFoundException(id)
    {
      if id in db.medias && !db.medias[id].archived {
        r := Ok(db.medias[id]);
      } else {
        r := Err(RecordNotFoundException(id));
      }
    }

    method GetOne(id: int) returns (r: Result<Media>)
      ensures r.Ok? <==> id in db.medias && !db.medias[id].archived
      ensures r.Ok? ==> r.value == db.medias[id]
      ensures r.Err? ==> r.error == RecordNotFoundException(id) && r.error.status == 404
    {
      r := FindById(id);
    }

    /**
      * `getAll`: a page of the live medias in id order; `total` counts every
      * media, archived ones included.
      */
    method GetAll(p: ListParams) returns (r: Result<Results<Media>>)
      ensures r.Err? <==> ToPage(p).Err?
      ensures r.Err? ==> r.error == ToPage(p).error
      ensures r.Ok? ==> r.value.total == |db.medias|
      ensures r.Ok? ==> |r.value.data| <= ToPage(p).value.take && IdsIncreasing(r.value.data)
      ensures r.Ok? ==> forall i :: 0 <= i < |r.value.data| ==>
                var row := r.value.data[i];
                row.id in db.medias && db.medias[row.id] == row.rec && !row.rec.archived
      ensures r.Ok? ==>
                r.value.data == Window(Filter(Rows(db.medias, db.nextMediaId), IsLive), ToPage(p).value.skip, ToPage(p).value.take)
    {
      var page := ToPage(p);
      if page.Err? {
        return Err(page.error);
      }
      var data := Window(Filter(Rows(db.medias, db.nextMediaId), IsLive), page.value.skip, page.value.take);
      PageIsSound(db.medias, db.nextMediaId, IsLive, page.value);
      r := Ok(Results(|db.medias|, data));
    }

    /**
      * `create`: a new row under the next id, unless some media (archived ones
      * too) already has the same title and media type, which is a 400.
      */
    method Create(media: Media) returns (r: Result<Row<Media>>)
      requires db.Valid()
      modifies db`medias, db`nextMediaId
      ensures db.Valid()
      ensures r.Err? <==> TitleInUse(old(db.medias), media.title, media.mediaType)
      ensures r.Err? ==> r.error == UniqueViolation(CreateCall, TitleFields) && r.error == HttpException(400, UniqueReason(TitleFields))
      ensures r.Err? ==> db.medias == old(db.medias) && db.nextMediaId == old(db.nextMediaId)
      ensures r.Ok? ==> r.value == Row(old(db.nextMediaId), media) && r.value.id !in old(db.medias)
      ensures r.Ok? ==> db.medias == old(db.medias)[r.value.id := media] && db.nextMediaId == old(db.nextMediaId) + 1
    {
      if TitleInUse(db.medias, media.title, media.mediaType) {
        return Err(UniqueViolation(CreateCall, TitleFields));
      }
      var id := db.nextMediaId;
      InsertKeepsTitlesUnique(db.medias, id, media);
      db.medias := db.medias[id := media];
      db.nextMediaId := id + 1;
      r := Ok(Row(id, media));
    }

    /**
      * `update`: keyed by id alone, archived rows included. A missing id, or a
      * title and type another media already has, is a store error turned into
      * a 400.
      */
    method Update(id: int, patch: MediaPatch) returns (r: Result<Row<Media>>)
      requires db.Valid()
      modifies db`medias
      ensures db.Valid()
      ensures r.Ok? <==> id in old(db.medias)
                         && var m := ApplyPatch(old(db.medias[id]), patch);
                            !TitleHeldByOther(old(db.medias), id, m.title, m.mediaType)
      ensures id !in old(db.medias) ==> r == Err(MissingUpdateTarget(UpdateCall))
      ensures id in old(db.medias) && r.Err? ==> r == Err(UniqueViolation(UpdateCall, TitleFields))
      ensures r.Err? ==> r.error.status == 400 && db.medias == old(db.medias)
      ensures r.Ok? ==> r.value == Row(id, ApplyPatch(old(db.medias[id]), patch))
      ensures r.Ok? ==> db.medias == old(db.medias)[id := r.value.rec]
    {
      if id !in db.medias {
        return Err(MissingUpdateTarget(UpdateCall));
      }
      var updated := ApplyPatch(db.medias[id], patch);
      if TitleHeldByOther(db.medias, id, updated.title, updated.mediaType) {
        return Err(UniqueViolation(UpdateCall, TitleFields));
      }
      ReplaceKeepsTitlesUnique(db.medias, id, updated);
      db.medias := db.medias[id := updated];
      r := Ok(Row(id, updated));
    }

    /**
      * `destroy`: a soft delete. The live media is found (404 otherwise) and
      * written back with `archived` set. Its units are not touched: the
      * method may change the media table only.
      */
    method Destroy(id: int) returns (r: Result<()>)
      requires db.Valid()
      modifies db`medias
      ensures db.Valid()
      ensures r.Ok? <==> id in old(db.medias) && !old(db.medias[id].archived)
      ensures r.Err? ==> r.error == RecordNotFoundException(id) && db.medias == old(db.medias)
      ensures r.Ok? ==> db.medias == old(db.medias)[id := old(db.medias[id]).(archived := true)]
      ensures r.Ok? ==> id in db.medias && db.medias[id].archived
    {
      var found := FindById(id);
      if found.Err? {
        return Err(found.error);
      }
      var m := found.value.(archived := true);
      WholeRecordReplaces(found.value, m);
      var updated := Update(id, WholeRecord(m));
      assert updated.Ok?;
      r := Ok(());
    }
  }
}
