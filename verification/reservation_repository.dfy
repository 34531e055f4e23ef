/** The reservation store and the three derived queries of the reservation
    repository. A query returns the matching records keyed by id; the order
    of the backend's result list is not modelled. The store is passed by
    value, so a query cannot change it. */
module ReservationRepository {
  import opened Domain

  type Store = map<ReservationId, Reservation>

  /** The records of `store` that satisfy `keep`, and only those. */
  method Select(store: Store, keep: Reservation -> bool) returns (found: Store)
    ensures forall id :: id in found <==> id in store && keep(store[id])
    ensures forall id :: id in found ==> found[id] == store[id]
  {
    found := map[];
    var pending := store.Keys;
    while pending != {}
      invariant pending <= store.Keys
      invariant forall id :: id in found <==> id in store && id !in pending && keep(store[id])
      invariant forall id :: id in found ==> found[id] == store[id]
      decreases |pending|
    {
      var id :| id in pending;
      if keep(store[id]) {
        found := found[id := store[id]];
      }
      pending := pending - {id};
    }
  }

  /** `findByGuest`: every stored reservation made by `guest`. */
  method FindByGuest(store: Store, guest: GuestId) returns (found: Store)
    ensures forall id :: id in found <==> id in store && store[id].guest == guest
    ensures forall id :: id in found ==> found[id] == store[id]
  {
    found := Select(store, (r: Reservation) => r.guest == guest);
  }

  /** `findByStay`: every stored reservation on `stay`. */
  method FindByStay(store: Store, stay: StayId) returns (found: Store)
    ensures forall id :: id in found <==> id in store && store[id].stay == stay
    ensures forall id :: id in found ==> found[id] == store[id]
  {
    found := Select(store, (r: Reservation) => r.stay == stay);
  }

  /** `findByStayAndCheckoutDateAfter`: the reservations on `stay` whose
      checkout is strictly after `date`; one checking out on `date` itself
      is not returned. */
  method FindByStayAndCheckoutDateAfter(store: Store, stay: StayId, date: Day) returns (found: Store)
    ensures forall id :: id in found <==> id in store && store[id].stay == stay && store[id].checkout > date
    ensures forall id :: id in found ==> found[id] == store[id]
    ensures forall id :: id in store && store[id].checkout == date ==> id !in found
  {
    found := Select(store, (r: Reservation) => r.stay == stay && r.checkout > date);
  }
}
