/**
  * Negotiations: rents and sales of units to a customer. Creating one
  * reserves its units, delivering it releases them, and destroying it only
  * archives the negotiation.
  */
module Negotiations {
  import opened Wrappers
  import opened HttpExceptions
  import opened Store

  /** The request body of `create`. */
  datatype NegotiationInput = NegotiationInput(
    negotiationType: NegotiationType,
    totalPrice: Option<real>,
    customerId: int,
    scheduledDeliveryAt: Option<string>,
    deliveredAt: Option<string>,
    units: seq<int>)

  // ---------------------------------------------------------------------------
  // The availability check.

  /** The ids in the list. */
  function Elements(ids: seq<int>): set<int>
  {
    set k | k in ids
  }

  /**
    * The ids the store counts for `unit.count({ where: { id: { in: ids },
    * available: true } })`: listed, present and available, each counted once.
    */
  function AvailableAmong(units: map<int, Unit>, ids: seq<int>): (s: set<int>)
    ensures s <= Elements(ids)
  {
    set k | k in ids && k in units && units[k].available
  }

  predicate Distinct(ids: seq<int>)
  {
    forall i, j :: 0 <= i < j < |ids| ==> ids[i] != ids[j]
  }

  /** What the check is meant to establish: no id repeats, and each names an existing available unit. */
  predicate AllAvailable(units: map<int, Unit>, ids: seq<int>)
  {
    Distinct(ids) && forall i :: 0 <= i < |ids| ==> ids[i] in units && units[ids[i]].available
  }

  /** A list has at most as many different ids as entries, and exactly as many when no id repeats. */
  lemma {:induction false} ElementsCount(ids: seq<int>)
    ensures |Elements(ids)| <= |ids|
    ensures |Elements(ids)| == |ids| <==> Distinct(ids)
    decreases |ids|
  {
    if |ids| > 0 {
      var rest := ids[1..];
      ElementsCount(rest);
      assert Elements(ids) == {ids[0]} + Elements(rest);
      if ids[0] in rest {
        assert Elements(ids) == Elements(rest);
        var j :| 0 <= j < |rest| && rest[j] == ids[0];
        assert ids[0] == ids[j + 1];
      } else {
        assert Distinct(ids) <==> Distinct(rest) by {
          if Distinct(rest) {
            forall i, j | 0 <= i < j < |ids| ensures ids[i] != ids[j] {
              if i > 0 {
                assert ids[i] == rest[i - 1] && ids[j] == rest[j - 1];
              } else {
                assert ids[j] in rest;
              }
            }
          }
          if Distinct(ids) {
            forall i, j | 0 <= i < j < |rest| ensures rest[i] != rest[j] {
              assert rest[i] == ids[i + 1] && rest[j] == ids[j + 1];
            }
          }
        }
      }
    }
  }

  /** A subset is no larger than its superset. */
  lemma SubsetSize(a: set<int>, b: set<int>)
    requires a <= b
    ensures |a| <= |b|
  {
    assert b == a + (b - a);
    assert a * (b - a) == {};
  }

  /** A subset as large as its superset is the whole superset. */
  lemma SubsetOfSameSize(a: set<int>, b: set<int>)
    requires a <= b && |a| >= |b|
    ensures a == b
  {
    assert b == a + (b - a);
    assert a * (b - a) == {};
    assert |b - a| == 0;
  }

  /**
    * The counting rule `count < ids.length` rejects exactly the lists that are
    * not all-available: a repeated id, an unknown id or an unavailable unit
    * each make the count fall short.
    */
  lemma CheckPassesIffAllAvailable(units: map<int, Unit>, ids: seq<int>)
    ensures |AvailableAmong(units, ids)| >= |ids| <==> AllAvailable(units, ids)
  {
    var a := AvailableAmong(units, ids);
    var e := Elements(ids);
    ElementsCount(ids);
    SubsetSize(a, e);
    if AllAvailable(units, ids) {
      assert e <= a by {
        forall k | k in e ensures k in a {
          var i :| 0 <= i < |ids| && ids[i] == k;
        }
      }
      assert a == e;
    }
    if |a| >= |ids| {
      SubsetOfSameSize(a, e);
      forall i | 0 <= i < |ids| ensures ids[i] in units && units[ids[i]].available {
        assert ids[i] in e;
      }
    }
  }

  /** An empty list passes the check: a count of zero is not below a length of zero. */
  lemma EmptyListPasses(units: map<int, Unit>)
    ensures AllAvailable(units, [])
  {
  }

  /** A list that names the same unit twice is rejected, even when that unit is available. */
  lemma RepeatedIdIsRejected(units: map<int, Unit>, ids: seq<int>, i: int, j: int)
    requires 0 <= i < j < |ids| && ids[i] == ids[j]
    ensures |AvailableAmong(units, ids)| < |ids|
  {
    CheckPassesIffAllAvailable(units, ids);
  }

  /** A list that names a unit the table does not hold is rejected. */
  lemma UnknownIdIsRejected(units: map<int, Unit>, ids: seq<int>, i: int)
    requires 0 <= i < |ids| && ids[i] !in units
    ensures |AvailableAmong(units, ids)| < |ids|
  {
    CheckPassesIffAllAvailable(units, ids);
  }

  // ---------------------------------------------------------------------------
  // Flipping availability.

  /**
    * The unit table after `unit.update({ where: { id }, data: { available } })`
    * for every listed id: listed units present in the table get the flag,
    * every other unit and every other field is kept.
    */
  function SetAvailability(units: map<int, Unit>, ids: seq<int>, available: bool): (r: map<int, Unit>)
    ensures r.Keys == units.Keys
    ensures forall k | k in r :: r[k].(available := true) == units[k].(available := true)
    ensures forall k | k in r :: r[k].available == if k in ids then available else units[k].available
  {
    map k | k in units :: if k in ids then units[k].(available := available) else units[k]
  }

  /** Releasing the units a reservation took gives back the table as it was before. */
  lemma ReleaseUndoesReserve(units: map<int, Unit>, ids: seq<int>)
    requires forall i :: 0 <= i < |ids| && ids[i] in units ==> units[ids[i]].available
    ensures SetAvailability(SetAvailability(units, ids, false), ids, true) == units
  {
    var r := SetAvailability(SetAvailability(units, ids, false), ids, true);
    forall k | k in units ensures r[k] == units[k] {
      if k in ids {
        var i :| 0 <= i < |ids| && ids[i] == k;
      }
    }
  }

  /** Setting the same flag twice is the same as setting it once. */
  lemma SetAvailabilityIsIdempotent(units: map<int, Unit>, ids: seq<int>, available: bool)
    ensures SetAvailability(SetAvailability(units, ids, available), ids, available) == SetAvailability(units, ids, available)
  {
    var once := SetAvailability(units, ids, available);
    var twice := SetAvailability(once, ids, available);
    forall k | k in once ensures twice[k] == once[k] {
      assert twice[k].(available := true) == once[k].(available := true);
    }
  }

  /** Flipping one more id extends the flipped prefix by that id. */
  lemma SetAvailabilityStep(units: map<int, Unit>, ids: seq<int>, i: int, available: bool)
    requires 0 <= i < |ids|
    ensures var before := SetAvailability(units, ids[..i], available);
            SetAvailability(units, ids[..i + 1], available)
            == if ids[i] in before then before[ids[i] := before[ids[i]].(available := available)] else before
  {
    assert ids[..i + 1] == ids[..i] + [ids[i]];
    forall k ensures k in ids[..i + 1] <==> k in ids[..i] || k == ids[i] {
    }
  }

  /** Flipping availability keeps every schema constraint. */
  lemma SetAvailabilityKeepsConstraints(units: map<int, Unit>, ids: seq<int>, available: bool,
                                        next: nat, medias: map<int, Media>, negotiations: map<int, Negotiation>)
    requires KeysBelow(units, next) && UnitsBelongToMedias(units, medias) && NegotiatedUnitsExist(negotiations, units)
    ensures var r := SetAvailability(units, ids, available);
            KeysBelow(r, next) && UnitsBelongToMedias(r, medias) && NegotiatedUnitsExist(negotiations, r)
  {
    var r := SetAvailability(units, ids, available);
    forall k | k in r ensures r[k].mediaId == units[k].mediaId {
      assert r[k].(available := true) == units[k].(available := true);
    }
  }

  const UnitsUnavailable := "All units must been available"
  const UnitUpdateCall := "prisma.unit.update()"
  const CreateCall := "prisma.negotiation.create()"
  const UpdateCall := "prisma.negotiation.update()"
  const CustomerField := "customerId"

  predicate IsLive(row: Row<Negotiation>) { !row.rec.archived }

  class NegotiationService {
    const db: Db

    constructor (db: Db)
      ensures this.db == db
    {
      this.db := db;
    }

    /** `checkAvailableUnits`: a 400 when fewer listed units are available than the list is long. */
    method CheckAvailableUnits(ids: seq<int>) returns (r: Result<()>)
      ensures r.Err? <==> |AvailableAmong(db.units, ids)| < |ids|
      ensures r.Err? <==> !AllAvailable(db.units, ids)
      ensures r.Err? ==> r.error == HttpException(400, UnitsUnavailable)
    {
      var count := |AvailableAmong(db.units, ids)|;
      CheckPassesIffAllAvailable(db.units, ids);
      if count < |ids| {
        return Err(HttpException(400, UnitsUnavailable));
      }
      r := Ok(());
    }

    /**
      * `toggleAvailableUnits`: one update per listed id. Every update of a
      * present unit takes effect; when some id names no unit, its update fails
      * and so does the whole call, with a store error.
      */
    method ToggleAvailableUnits(ids: seq<int>, available: bool) returns (r: Result<()>)
      requires db.Valid()
      modifies db`units
      ensures db.Valid()
      ensures db.units == SetAvailability(old(db.units), ids, available)
      ensures r.Err? <==> exists i | 0 <= i < |ids| :: ids[i] !in old(db.units)
      ensures r.Err? ==> r.error == StoreException(RecordToUpdateNotFound(UnitUpdateCall))
    {
      var i := 0;
      var failed := false;
      while i < |ids|
        invariant 0 <= i <= |ids|
        invariant db.units == SetAvailability(old(db.units), ids[..i], available)
        invariant failed <==> exists j | 0 <= j < i :: ids[j] !in old(db.units)
      {
        var id := ids[i];
        SetAvailabilityStep(old(db.units), ids, i, available);
        if id in db.units {
          db.units := db.units[id := db.units[id].(available := available)];
        } else {
          failed := true;
        }
        i := i + 1;
      }
      assert ids[..i] == ids;
      SetAvailabilityKeepsConstraints(old(db.units), ids, available, db.nextUnitId, db.medias, db.negotiations);
      if failed {
        return Err(StoreException(RecordToUpdateNotFound(UnitUpdateCall)));
      }
      r := Ok(());
    }

    /** `reserveUnits`: every listed unit becomes unavailable. */
    method ReserveUnits(ids: seq<int>) returns (r: Result<()>)
      requires db.Valid()
      modifies db`units
      ensures db.Valid()
      ensures db.units == SetAvailability(old(db.units), ids, false)
      ensures r.Err? <==> exists i | 0 <= i < |ids| :: ids[i] !in old(db.units)
    {
      r := ToggleAvailableUnits(ids, false);
    }

    /** `enableUnits`: every listed unit becomes available. */
    method EnableUnits(ids: seq<int>) returns (r: Result<()>)
      requires db.Valid()
      modifies db`units
      ensures db.Valid()
      ensures db.units == SetAvailability(old(db.units), ids, true)
      ensures r.Err? <==> exists i | 0 <= i < |ids| :: ids[i] !in old(db.units)
    {
      r := ToggleAvailableUnits(ids, true);
    }

    /**
      * `findById`: the live negotiation with this id. A missing or archived id
      * is the store's own not-found error, which has no HTTP status.
      */
    method FindById(id: int) returns (r: Result<Negotiation>)
      ensures r.Ok? <==> id in db.negotiations && !db.negotiations[id].archived
      ensures r.Ok? ==> r.value == db.negotiations[id]
      ensures r.Err? ==> r.error == StoreException(NoRecordFound("Negotiation")) && r.error.Status().None?
    {
      if id in db.negotiations && !db.negotiations[id].archived {
        r := Ok(db.negotiations[id]);
      } else {
        r := Err(StoreException(NoRecordFound("Negotiation")));
      }
    }

    method GetOne(id: int) returns (r: Result<Negotiation>)
      ensures r.Ok? <==> id in db.negotiations && !db.negotiations[id].archived
      ensures r.Ok? ==> r.value == db.negotiations[id]
      ensures r.Err? ==> r.error == StoreException(NoRecordFound("Negotiation"))
    {
      r := FindById(id);
    }

    /**
      * `getAll`: a page of the live negotiations in id order; `total` counts
      * every negotiation, archived ones included.
      */
    method GetAll(p: ListParams) returns (r: Result<Results<Negotiation>>)
      ensures r.Err? <==> ToPage(p).Err?
      ensures r.Err? ==> r.error == ToPage(p).error
      ensures r.Ok? ==> r.value.total == |db.negotiations|
      ensures r.Ok? ==> |r.value.data| <= ToPage(p).value.take && IdsIncreasing(r.value.data)
      ensures r.Ok? ==> forall i :: 0 <= i < |r.value.data| ==>
                var row := r.value.data[i];
                row.id in db.negotiations && db.negotiations[row.id] == row.rec && !row.rec.archived
      ensures r.Ok? ==>
                r.value.data == Window(Filter(Rows(db.negotiations, db.nextNegotiationId), IsLive), ToPage(p).value.skip, ToPage(p).value.take)
    {
      var page := ToPage(p);
      if page.Err? {
        return Err(page.error);
      }
      var data := Window(Filter(Rows(db.negotiations, db.nextNegotiationId), IsLive), page.value.skip, page.value.take);
      PageIsSound(db.negotiations, db.nextNegotiationId, IsLive, page.value);
      r := Ok(Results(|db.negotiations|, data));
    }

    /**
      * `create`: the availability check runs before any write, so a rejected
      * list changes nothing. Then the negotiation is stored, linked to the
      * listed units (a customer id with no customer fails the foreign key
      * instead), the units are reserved, and the stored negotiation is read
      * back.
      */
    method Create(input: NegotiationInput) returns (r: Result<Row<Negotiation>>)
      requires db.Valid()
      modifies db`units, db`negotiations, db`nextNegotiationId
      ensures db.Valid()
      ensures r.Ok? <==> AllAvailable(old(db.units), input.units) && input.customerId in db.customers
      ensures !AllAvailable(old(db.units), input.units) ==> r == Err(HttpException(400, UnitsUnavailable))
      ensures AllAvailable(old(db.units), input.units) && input.customerId !in db.customers ==>
                r == Err(StoreException(ForeignKeyFailed(CreateCall, CustomerField)))
      ensures r.Err? ==> db.units == old(db.units) && db.negotiations == old(db.negotiations)
                         && db.nextNegotiationId == old(db.nextNegotiationId)
      ensures r.Ok? ==> r.value.id == old(db.nextNegotiationId) && r.value.id !in old(db.negotiations)
      ensures r.Ok? ==> r.value.rec == Negotiation(input.customerId, input.negotiationType, input.totalPrice,
                                                   input.scheduledDeliveryAt, input.deliveredAt, false, input.units)
      ensures r.Ok? ==> db.negotiations == old(db.negotiations)[r.value.id := r.value.rec]
                        && db.nextNegotiationId == old(db.nextNegotiationId) + 1
      ensures r.Ok? ==> db.units == SetAvailability(old(db.units), input.units, false)
      ensures r.Ok? ==> forall i :: 0 <= i < |input.units| ==> input.units[i] in db.units && !db.units[input.units[i]].available
    {
      var check := CheckAvailableUnits(input.units);
      if check.Err? {
        return Err(check.error);
      }
      if input.customerId !in db.customers {
        return Err(StoreException(ForeignKeyFailed(CreateCall, CustomerField)));
      }
      var id := db.nextNegotiationId;
      var rec := Negotiation(input.customerId, input.negotiationType, input.totalPrice,
                             input.scheduledDeliveryAt, input.deliveredAt, false, input.units);
      db.negotiations := db.negotiations[id := rec];
      db.nextNegotiationId := id + 1;
      var reserved := ReserveUnits(input.units);
      assert reserved.Ok?;
      var created := FindById(id);
      assert created.Ok?;
      r := Ok(Row(id, created.value));
    }

    /**
      * `archive`: keyed by id alone, archived rows included. A missing id is a
      * store error the service does not catch.
      */
    method Archive(id: int) returns (r: Result<()>)
      requires db.Valid()
      modifies db`negotiations
      ensures db.Valid()
      ensures r.Ok? <==> id in old(db.negotiations)
      ensures r.Err? ==> r.error == StoreException(RecordToUpdateNotFound(UpdateCall)) && db.negotiations == old(db.negotiations)
      ensures r.Ok? ==> db.negotiations == old(db.negotiations)[id := old(db.negotiations[id]).(archived := true)]
    {
      if id !in db.negotiations {
        return Err(StoreException(RecordToUpdateNotFound(UpdateCall)));
      }
      db.negotiations := db.negotiations[id := db.negotiations[id].(archived := true)];
      r := Ok(());
    }

    /**
      * `destroy`: the live negotiation is found (a status-less store error
      * otherwise) and archived. Its units keep their availability: the method
      * may change the negotiation table only.
      */
    method Destroy(id: int) returns (r: Result<()>)
      requires db.Valid()
      modifies db`negotiations
      ensures db.Valid()
      ensures r.Ok? <==> id in old(db.negotiations) && !old(db.negotiations[id].archived)
      ensures r.Err? ==> r.error == StoreException(NoRecordFound("Negotiation")) && db.negotiations == old(db.negotiations)
      ensures r.Ok? ==> db.negotiations == old(db.negotiations)[id := old(db.negotiations[id]).(archived := true)]
      ensures r.Ok? ==> id in db.negotiations && db.negotiations[id].archived
    {
      var found := FindById(id);
      if found.Err? {
        return Err(found.error);
      }
      var archived := Archive(id);
      assert archived.Ok?;
      r := Ok(());
    }

    /**
      * `deliver`: the live negotiation is found, its units are made available
      * again and `deliveredAt` is stamped with `now`. A negotiation already
      * delivered is delivered again.
      */
    method Deliver(id: int, now: string) returns (r: Result<Row<Negotiation>>)
      requires db.Valid()
      modifies db`units, db`negotiations
      ensures db.Valid()
      ensures r.Ok? <==> id in old(db.negotiations) && !old(db.negotiations[id].archived)
      ensures r.Err? ==> r.error == StoreException(NoRecordFound("Negotiation"))
                         && db.units == old(db.units) && db.negotiations == old(db.negotiations)
      ensures r.Ok? ==> r.value == Row(id, old(db.negotiations[id]).(deliveredAt := Some(now)))
      ensures r.Ok? ==> db.negotiations == old(db.negotiations)[id := r.value.rec]
      ensures r.Ok? ==> db.units == SetAvailability(old(db.units), old(db.negotiations[id]).units, true)
      ensures r.Ok? ==> forall i :: 0 <= i < |r.value.rec.units| ==>
                          r.value.rec.units[i] in db.units && db.units[r.value.rec.units[i]].available
    {
      var found := FindById(id);
      if found.Err? {
        return Err(found.error);
      }
      var n := found.value;
      var enabled := EnableUnits(n.units);
      assert enabled.Ok?;
      var delivered := n.(deliveredAt := Some(now));
      db.negotiations := db.negotiations[id := delivered];
      r := Ok(Row(id, delivered));
    }
  }
}
