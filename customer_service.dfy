/** Customers: soft-deleted records with a unique email. */
module Customers {
  import opened Wrappers
  import opened HttpExceptions
  import opened Store

  /** The fields a request body supplies; a field that is absent keeps its value. */
  datatype CustomerPatch = CustomerPatch(
    firstName: Option<string>,
    lastName: Option<string>,
    email: Option<string>,
    archived: Option<bool>)

  function ApplyPatch(c: Customer, p: CustomerPatch): Customer
  {
    Customer(p.firstName.GetOr(c.firstName), p.lastName.GetOr(c.lastName), p.email.GetOr(c.email), p.archived.GetOr(c.archived))
  }

  /** Every field of `c`, as `destroy` writes the found record back. */
  function WholeRecord(c: Customer): CustomerPatch
  {
    CustomerPatch(Some(c.firstName), Some(c.lastName), Some(c.email), Some(c.archived))
  }

  predicate IsLive(row: Row<Customer>) { !row.rec.archived }

  predicate EmailInUse(m: map<int, Customer>, email: string)
  {
    exists k | k in m :: m[k].email == email
  }

  predicate EmailHeldByOther(m: map<int, Customer>, id: int, email: string)
  {
    exists k | k in m && k != id :: m[k].email == email
  }

  lemma InsertKeepsEmailsUnique(m: map<int, Customer>, id: int, c: Customer)
    requires EmailsUnique(m) && id !in m && !EmailInUse(m, c.email)
    ensures EmailsUnique(m[id := c])
  {
  }

  lemma ReplaceKeepsEmailsUnique(m: map<int, Customer>, id: int, c: Customer)
    requires EmailsUnique(m) && id in m && !EmailHeldByOther(m, id, c.email)
    ensures EmailsUnique(m[id := c])
  {
  }

  const CreateCall := "prisma.customer.create()"
  const UpdateCall := "prisma.customer.update()"
  const EmailField := "`email`"

  class CustomerService {
    const db: Db

    constructor (db: Db)
      ensures this.db == db
    {
      this.db := db;
    }

    /** `findById`: the customer with this id unless it is missing or archived; otherwise 404. */
    method FindById(id: int) returns (r: Result<Customer>)
      ensures r.Ok? <==> id in db.customers && !db.customers[id].archived
      ensures r.Ok? ==> r.value == db.customers[id]
      ensures r.Err? ==> r.error == RecordNotFoundException(id)
    {
      if id in db.customers && !db.customers[id].archived {
        r := Ok(db.customers[id]);
      } else {
        r := Err(RecordNotFoundException(id));
      }
    }

    method GetOne(id: int) returns (r: Result<Customer>)
      ensures r.Ok? <==> id in db.customers && !db.customers[id].archived
      ensures r.Ok? ==> r.value == db.customers[id]
      ensures r.Err? ==> r.error == RecordNotFoundException(id) && r.error.status == 404
    {
      r := FindById(id);
    }

    /**
      * `getAll`: a page of the live customers in id order; `total` counts
      * every customer, archived ones included.
      */
    method GetAll(p: ListParams) returns (r: Result<Results<Customer>>)
      ensures r.Err? <==> ToPage(p).Err?
      ensures r.Err? ==> r.error == ToPage(p).error
      ensures r.Ok? ==> r.value.total == |db.customers|
      ensures r.Ok? ==> |r.value.data| <= ToPage(p).value.take && IdsIncreasing(r.value.data)
      ensures r.Ok? ==> forall i :: 0 <= i < |r.value.data| ==>
                var row := r.value.data[i];
                row.id in db.customers && db.customers[row.id] == row.rec && !row.rec.archived
      ensures r.Ok? ==>
                r.value.data == Window(Filter(Rows(db.customers, db.nextCustomerId), IsLive), ToPage(p).value.skip, ToPage(p).value.take)
    {
      var page := ToPage(p);
      if page.Err? {
        return Err(page.error);
      }
      var data := Window(Filter(Rows(db.customers, db.nextCustomerId), IsLive), page.value.skip, page.value.take);
      PageIsSound(db.customers, db.nextCustomerId, IsLive, page.value);
      r := Ok(Results(|db.customers|, data));
    }

    /**
      * `create`: a new row under the next id, unless the email is already
      * used by any customer (archived ones too), which is a 400.
      */
    method Create(c: Customer) returns (r: Result<Row<Customer>>)
      requires db.Valid()
      modifies db`customers, db`nextCustomerId
      ensures db.Valid()
      ensures r.Err? <==> EmailInUse(old(db.customers), c.email)
      ensures r.Err? ==> r.error == UniqueViolation(CreateCall, EmailField) && r.error == HttpException(400, UniqueReason(EmailField))
      ensures r.Err? ==> db.customers == old(db.customers) && db.nextCustomerId == old(db.nextCustomerId)
      ensures r.Ok? ==> r.value == Row(old(db.nextCustomerId), c) && r.value.id !in old(db.customers)
      ensures r.Ok? ==> db.customers == old(db.customers)[r.value.id := c] && db.nextCustomerId == old(db.nextCustomerId) + 1
    {
      if EmailInUse(db.customers, c.email) {
        return Err(UniqueViolation(CreateCall, EmailField));
      }
      var id := db.nextCustomerId;
      InsertKeepsEmailsUnique(db.customers, id, c);
      db.customers := db.customers[id := c];
      db.nextCustomerId := id + 1;
      r := Ok(Row(id, c));
    }

    /**
      * `update`: keyed by id alone, archived rows included. A missing id or an
      * email held by another customer is a store error turned into a 400.
      */
    method Update(id: int, patch: CustomerPatch) returns (r: Result<Row<Customer>>)
      requires db.Valid()
      modifies db`customers
      ensures db.Valid()
      ensures r.Ok? <==> id in old(db.customers) && !(patch.email.Some? && EmailHeldByOther(old(db.customers), id, patch.email.value))
      ensures id !in old(db.customers) ==> r == Err(MissingUpdateTarget(UpdateCall))
      ensures id in old(db.customers) && r.Err? ==> r == Err(UniqueViolation(UpdateCall, EmailField))
      ensures r.Err? ==> r.error.status == 400 && db.customers == old(db.customers)
      ensures r.Ok? ==> r.value == Row(id, ApplyPatch(old(db.customers[id]), patch))
      ensures r.Ok? ==> db.customers == old(db.customers)[id := r.value.rec]
    {
      if id !in db.customers {
        return Err(MissingUpdateTarget(UpdateCall));
      }
      if patch.email.Some? && EmailHeldByOther(db.customers, id, patch.email.value) {
        return Err(UniqueViolation(UpdateCall, EmailField));
      }
      var updated := ApplyPatch(db.customers[id], patch);
      ReplaceKeepsEmailsUnique(db.customers, id, updated);
      db.customers := db.customers[id := updated];
      r := Ok(Row(id, updated));
    }

    /**
      * `destroy`: a soft delete. The live customer is found (404 otherwise)
      * and written back with `archived` set; no other field changes and the
      * row stays in the table.
      */
    method Destroy(id: int) returns (r: Result<()>)
      requires db.Valid()
      modifies db`customers
      ensures db.Valid()
      ensures r.Ok? <==> id in old(db.customers) && !old(db.customers[id].archived)
      ensures r.Err? ==> r.error == RecordNotFoundException(id) && db.customers == old(db.customers)
      ensures r.Ok? ==> db.customers == old(db.customers)[id := old(db.customers[id]).(archived := true)]
      ensures r.Ok? ==> id in db.customers && db.customers[id].archived
    {
      var found := FindById(id);
      if found.Err? {
        return Err(found.error);
      }
      var c := found.value.(archived := true);
      var updated := Update(id, WholeRecord(c));
      assert updated.Ok?;
      r := Ok(());
    }
  }
}
