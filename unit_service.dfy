/**
  * Units: the copies of a media title. Reads and deletes are scoped by the
  * media the request names; `update` is keyed by the unit id alone and lets
  * store errors through unchanged.
  */
module Units {
  import opened Wrappers
  import opened HttpExceptions
  import opened Store

  /** The fields a request body supplies; a field that is absent keeps its value. */
  datatype UnitPatch = UnitPatch(
    mediaId: Option<int>,
    available: Option<bool>,
    availableFor: Option<seq<NegotiationType>>,
    salePrice: Option<real>,
    rentalPrice: Option<real>,
    archived: Option<bool>)

  function ApplyPatch(u: Unit, p: UnitPatch): Unit
  {
    Unit(p.mediaId.GetOr(u.mediaId), p.available.GetOr(u.available), p.availableFor.GetOr(u.availableFor),
         p.salePrice.GetOr(u.salePrice), p.rentalPrice.GetOr(u.rentalPrice), p.archived.GetOr(u.archived))
  }

  /** Every field of `u`, as `destroy` writes the found record back. */
  function WholeRecord(u: Unit): UnitPatch
  {
    UnitPatch(Some(u.mediaId), Some(u.available), Some(u.availableFor), Some(u.salePrice), Some(u.rentalPrice), Some(u.archived))
  }

  /** A unit the media-scoped reads return: not archived and a copy of that media. */
  predicate LiveUnitOf(mediaId: int, row: Row<Unit>)
  {
    !row.rec.archived && row.rec.mediaId == mediaId
  }

  /** The rows of the live units of one media, in id order. */
  function UnitsOf(m: map<int, Unit>, n: nat, mediaId: int): seq<Row<Unit>>
  {
    Filter(Rows(m, n), (row: Row<Unit>) => LiveUnitOf(mediaId, row))
  }

  /** The ids of the live units of one media. */
  ghost function UnitIdsOf(m: map<int, Unit>, mediaId: int): set<int>
  {
    set k | k in m && !m[k].archived && m[k].mediaId == mediaId
  }

  /** Counting the listed units gives exactly the live units of the media. */
  lemma UnitsOfCount(m: map<int, Unit>, n: nat, mediaId: int)
    requires KeysBelow(m, n)
    ensures |UnitsOf(m, n, mediaId)| == |UnitIdsOf(m, mediaId)|
  {
    var keep := (row: Row<Unit>) => LiveUnitOf(mediaId, row);
    FilterCount(m, n, keep);
    assert Accepted(m, n, keep) == UnitIdsOf(m, mediaId);
  }

  const CreateCall := "prisma.unit.create()"
  const UpdateCall := "prisma.unit.update()"
  const MediaField := "mediaId"

  class UnitService {
    const db: Db

    constructor (db: Db)
      ensures this.db == db
    {
      this.db := db;
    }

    /** `findById`: the unit, if it exists, is live and is a copy of `mediaId`; otherwise 404. */
    method FindById(id: int, mediaId: int) returns (r: Result<Unit>)
      ensures r.Ok? <==> id in db.units && !db.units[id].archived && db.units[id].mediaId == mediaId
      ensures r.Ok? ==> r.value == db.units[id]
      ensures r.Err? ==> r.error == RecordNotFoundException(id)
    {
      if id in db.units && !db.units[id].archived && db.units[id].mediaId == mediaId {
        r := Ok(db.units[id]);
      } else {
        r := Err(RecordNotFoundException(id));
      }
    }

    method GetOne(id: int, mediaId: int) returns (r: Result<Unit>)
      ensures r.Ok? <==> id in db.units && !db.units[id].archived && db.units[id].mediaId == mediaId
      ensures r.Ok? ==> r.value == db.units[id]
      ensures r.Err? ==> r.error == RecordNotFoundException(id) && r.error.status == 404
    {
      r := FindById(id, mediaId);
    }

    /**
      * `getAll`: a page of the live units of one media. Unlike the other
      * tables, `total` is counted with the same filter as the page.
      */
    method GetAll(p: ListParams, mediaId: int) returns (r: Result<Results<Unit>>)
      requires db.Valid()
      ensures r.Err? <==> ToPage(p).Err?
      ensures r.Err? ==> r.error == ToPage(p).error
      ensures r.Ok? ==> r.value.total == |UnitIdsOf(db.units, mediaId)|
      ensures r.Ok? ==> |r.value.data| <= ToPage(p).value.take && |r.value.data| <= r.value.total
      ensures r.Ok? ==> IdsIncreasing(r.value.data)
      ensures r.Ok? ==> forall i :: 0 <= i < |r.value.data| ==>
                var row := r.value.data[i];
                row.id in db.units && db.units[row.id] == row.rec && !row.rec.archived && row.rec.mediaId == mediaId
      ensures r.Ok? ==>
                r.value.data == Window(UnitsOf(db.units, db.nextUnitId, mediaId), ToPage(p).value.skip, ToPage(p).value.take)
    {
      var page := ToPage(p);
      if page.Err? {
        return Err(page.error);
      }
      var all := UnitsOf(db.units, db.nextUnitId, mediaId);
      var data := Window(all, page.value.skip, page.value.take);
      PageIsSound(db.units, db.nextUnitId, (row: Row<Unit>) => LiveUnitOf(mediaId, row), page.value);
      UnitsOfCount(db.units, db.nextUnitId, mediaId);
      r := Ok(Results(|all|, data));
    }

    /**
      * `create`: the unit is stored as a copy of `mediaId`, whatever media the
      * body named. A media id with no media fails the foreign key, an error
      * the service does not catch.
      */
    method Create(u: Unit, mediaId: int) returns (r: Result<Row<Unit>>)
      requires db.Valid()
      modifies db`units, db`nextUnitId
      ensures db.Valid()
      ensures r.Err? <==> mediaId !in db.medias
      ensures r.Err? ==> r.error == StoreException(ForeignKeyFailed(CreateCall, MediaField))
      ensures r.Err? ==> db.units == old(db.units) && db.nextUnitId == old(db.nextUnitId)
      ensures r.Ok? ==> r.value == Row(old(db.nextUnitId), u.(mediaId := mediaId)) && r.value.id !in old(db.units)
      ensures r.Ok? ==> db.units == old(db.units)[r.value.id := r.value.rec] && db.nextUnitId == old(db.nextUnitId) + 1
    {
      if mediaId !in db.medias {
        return Err(StoreException(ForeignKeyFailed(CreateCall, MediaField)));
      }
      var id := db.nextUnitId;
      var rec := u.(mediaId := mediaId);
      db.units := db.units[id := rec];
      db.nextUnitId := id + 1;
      r := Ok(Row(id, rec));
    }

    /**
      * `update`: keyed by id alone, whatever its media and archived flag; only
      * the supplied fields change. A missing id, or a media id with no media,
      * is a store error that reaches the handler without a status.
      */
    method Update(id: int, patch: UnitPatch) returns (r: Result<Row<Unit>>)
      requires db.Valid()
      modifies db`units
      ensures db.Valid()
      ensures r.Ok? <==> id in old(db.units) && ApplyPatch(old(db.units[id]), patch).mediaId in db.medias
      ensures id !in old(db.units) ==> r == Err(StoreException(RecordToUpdateNotFound(UpdateCall)))
      ensures id in old(db.units) && r.Err? ==> r == Err(StoreException(ForeignKeyFailed(UpdateCall, MediaField)))
      ensures r.Err? ==> r.error.Status().None? && db.units == old(db.units)
      ensures r.Ok? ==> r.value == Row(id, ApplyPatch(old(db.units[id]), patch))
      ensures r.Ok? ==> db.units == old(db.units)[id := r.value.rec]
    {
      if id !in db.units {
        return Err(StoreException(RecordToUpdateNotFound(UpdateCall)));
      }
      var updated := ApplyPatch(db.units[id], patch);
      if updated.mediaId !in db.medias {
        return Err(StoreException(ForeignKeyFailed(UpdateCall, MediaField)));
      }
      db.units := db.units[id := updated];
      r := Ok(Row(id, updated));
    }

    /**
      * `destroy`: a soft delete scoped by media. The live unit of `mediaId` is
      * found (404 otherwise) and written back with `archived` set; its
      * availability, offers and prices are kept.
      */
    method Destroy(id: int, mediaId: int) returns (r: Result<()>)
      requires db.Valid()
      modifies db`units
      ensures db.Valid()
      ensures r.Ok? <==> id in old(db.units) && !old(db.units[id].archived) && old(db.units[id].mediaId) == mediaId
      ensures r.Err? ==> r.error == RecordNotFoundException(id) && db.units == old(db.units)
      ensures r.Ok? ==> db.units == old(db.units)[id := old(db.units[id]).(archived := true)]
      ensures r.Ok? ==> id in db.units && db.units[id].archived
      ensures r.Ok? ==> var u := db.units[id]; var u0 := old(db.units[id]);
                        u.available == u0.available && u.availableFor == u0.availableFor
                        && u.salePrice == u0.salePrice && u.rentalPrice == u0.rentalPrice
    {
      var found := FindById(id, mediaId);
      if found.Err? {
        return Err(found.error);
      }
      var u := found.value.(archived := true);
      var updated := Update(id, WholeRecord(u));
      assert updated.Ok?;
      r := Ok(());
    }
  }
}
