/** Appliance registration, listing and removal (routes/appliances.js) over an
    abstract appliance store.

    The store is the sequence of appliance documents in the order the
    database returns them (insertion order); the document id the database
    would assign enters as `freshId`. */
module Appliances {

  import opened Optional
  import opened Records

  type ApplianceStore = seq<Appliance>

  /** No two stored appliances share an id. */
  predicate UniqueIds(store: ApplianceStore)
  {
    forall i, j :: 0 <= i < j < |store| ==> store[i].id != store[j].id
  }

  predicate HasId(store: ApplianceStore, id: string)
  {
    exists i :: 0 <= i < |store| && store[i].id == id
  }

  /** Which appliances a query keeps: those owned by a user (listing), or all
      but the one with a given id (deletion). */
  datatype Criterion = OwnedBy(userId: string) | AllBut(id: string)

  predicate Keeps(c: Criterion, a: Appliance)
  {
    match c
    case OwnedBy(u) => a.userId == u
    case AllBut(id) => a.id != id
  }

  /** The appliances `c` keeps, in store order. */
  function Select(store: ApplianceStore, c: Criterion): (r: ApplianceStore)
    ensures |r| <= |store|
    ensures forall a :: a in r <==> a in store && Keeps(c, a)
  {
    if |store| == 0 then []
    else (if Keeps(c, store[0]) then [store[0]] else []) + Select(store[1..], c)
  }

  /** Selection distributes over concatenation, so it keeps store order. */
  lemma {:induction false} SelectAppend(a: ApplianceStore, b: ApplianceStore, c: Criterion)
    ensures Select(a + b, c) == Select(a, c) + Select(b, c)
    decreases |a|
  {
    if |a| == 0 {
      assert a + b == b;
    } else {
      assert (a + b)[0] == a[0];
      assert (a + b)[1..] == a[1..] + b;
      SelectAppend(a[1..], b, c);
    }
  }

  /** Selection that keeps every element changes nothing. */
  lemma {:induction false} SelectAll(store: ApplianceStore, c: Criterion)
    requires forall i :: 0 <= i < |store| ==> Keeps(c, store[i])
    ensures Select(store, c) == store
    decreases |store|
  {
    if |store| > 0 {
      SelectAll(store[1..], c);
      assert [store[0]] + store[1..] == store;
    }
  }

  datatype AddRequest = AddRequest(
    name: Option<string>,
    brand: Option<string>,
    deviceID: Option<string>,
    userId: Option<string>
  )

  datatype AddResult = Connected(appliance: Appliance) | AddRejected(message: string)

  const MissingFieldsMessage := "All fields are required"
  const DeletedMessage := "Appliance deleted successfully"

  predicate Complete(req: AddRequest)
  {
    Provided(req.name) && Provided(req.brand) && Provided(req.deviceID) && Provided(req.userId)
  }

  /** Connecting an appliance: all four fields are required; the new
      appliance draws no power yet and is active. */
  function Add(store: ApplianceStore, req: AddRequest, freshId: string): (out: (AddResult, ApplianceStore))
    ensures out.0.AddRejected? <==> !Complete(req)
    ensures out.0.AddRejected? ==> out.0.message == MissingFieldsMessage && out.1 == store
    ensures out.0.Connected? ==>
              && out.1 == store + [out.0.appliance]
              && out.0.appliance == Appliance(freshId, req.name.value, req.brand.value, req.deviceID.value,
                                              req.userId.value, Some(0), true, None, None)
  {
    if !Complete(req) then (AddRejected(MissingFieldsMessage), store)
    else
      var a := Appliance(freshId, req.name.value, req.brand.value, req.deviceID.value,
                         req.userId.value, Some(0), true, None, None);
      (Connected(a), store + [a])
  }

  /** Listing: exactly the appliances whose owner is `userId`, in store order. */
  function ListForUser(store: ApplianceStore, userId: string): (r: seq<Appliance>)
    ensures forall a :: a in r <==> a in store && a.userId == userId
  {
    Select(store, OwnedBy(userId))
  }

  /** Deletion by id. The reply is the same whether or not the id exists. */
  function Delete(store: ApplianceStore, id: string): (out: (string, ApplianceStore))
    ensures out.0 == DeletedMessage
    ensures forall a :: a in out.1 <==> a in store && a.id != id
  {
    (DeletedMessage, Select(store, AllBut(id)))
  }

  /** A fresh id keeps the ids unique. */
  lemma AddPreservesUniqueIds(store: ApplianceStore, req: AddRequest, freshId: string)
    requires UniqueIds(store) && !HasId(store, freshId)
    ensures UniqueIds(Add(store, req, freshId).1)
  {
  }

  /** A newly connected appliance appears last in its owner's list, and other
      users' lists do not change. */
  lemma ListAfterAdd(store: ApplianceStore, req: AddRequest, freshId: string, userId: string)
    requires Add(store, req, freshId).0.Connected?
    ensures ListForUser(Add(store, req, freshId).1, userId)
            == ListForUser(store, userId) + (if req.userId.value == userId then [Add(store, req, freshId).0.appliance] else [])
  {
    var a := Add(store, req, freshId).0.appliance;
    SelectAppend(store, [a], OwnedBy(userId));
    assert Select([a], OwnedBy(userId)) == (if Keeps(OwnedBy(userId), a) then [a] else []) + Select([], OwnedBy(userId));
  }

  /** Deleting an id that is not stored leaves the store as it was. */
  lemma DeleteMissingIsNoOp(store: ApplianceStore, id: string)
    requires !HasId(store, id)
    ensures Delete(store, id).1 == store
  {
    SelectAll(store, AllBut(id));
  }

  /** Deleting an appliance right after connecting it under a fresh id
      restores the store exactly. */
  lemma AddThenDelete(store: ApplianceStore, req: AddRequest, freshId: string)
    requires Add(store, req, freshId).0.Connected?
    requires !HasId(store, freshId)
    ensures Delete(Add(store, req, freshId).1, freshId).1 == store
  {
    var a := Add(store, req, freshId).0.appliance;
    SelectAppend(store, [a], AllBut(freshId));
    SelectAll(store, AllBut(freshId));
    assert Select([a], AllBut(freshId)) == [] + Select([], AllBut(freshId));
  }

  /** With unique ids, deletion removes exactly one stored appliance when the
      id is present. */
  lemma {:induction false} DeleteRemovesOne(store: ApplianceStore, id: string)
    requires UniqueIds(store) && HasId(store, id)
    ensures |Delete(store, id).1| == |store| - 1
    decreases |store|
  {
    var rest := store[1..];
    assert UniqueIds(rest) by {
      forall i, j | 0 <= i < j < |rest|
        ensures rest[i].id != rest[j].id
      {
        assert rest[i] == store[i + 1] && rest[j] == store[j + 1];
      }
    }
    if store[0].id == id {
      assert !HasId(rest, id) by {
        forall i | 0 <= i < |rest|
          ensures rest[i].id != id
        {
          assert rest[i] == store[i + 1];
        }
      }
      SelectAll(rest, AllBut(id));
    } else {
      var k :| 0 <= k < |store| && store[k].id == id;
      assert rest[k - 1].id == id;
      DeleteRemovesOne(rest, id);
    }
  }
}
