/** Booking and cancelling, each one atomic step over the availability
    ledger and the reservation store, and the two listing calls. A call that
    fails returns `Err` and no new state: the state before the call stands. */
module ReservationService {
  import opened Domain
  import opened Availability
  import opened ReservationRepository
  import opened BookingState

  /** `add`: collects the AVAILABLE days in [checkin, checkout - 1]; if their
      count differs from `checkout - checkin` the booking collides, otherwise
      those days become RESERVED and the record is saved under `id` (the
      identity the database assigns). There is no separate check for an
      empty range: `checkout == checkin` saves the record and reserves no day. */
  function Add(st: State, id: ReservationId, reservation: Reservation): (r: Result<State>)
    ensures r.Ok? <==> reservation.checkin <= reservation.checkout
                       && forall d :: Covers(reservation, d) ==> IsAvailable(st.ledger, reservation.stay, d)
    ensures r.Err? ==> r.error == Collision
    ensures reservation.checkout < reservation.checkin ==> r == Err(Collision)
    ensures reservation.checkout == reservation.checkin ==> r == Ok(st.(store := st.store[id := reservation]))
    ensures r.Ok? ==> r.value.stays == st.stays && r.value.store == st.store[id := reservation]
    ensures r.Ok? ==> r.value.ledger.Keys == st.ledger.Keys
    ensures r.Ok? ==> forall k :: k in st.ledger ==>
              r.value.ledger[k] == if Occupies(reservation, k.stay, k.date) then Reserved else st.ledger[k]
  {
    var dates := AvailableDates(st.ledger, reservation.stay, reservation.checkin, reservation.checkout - 1);
    var duration := reservation.checkout - reservation.checkin;
    FullCountIffAllAvailable(st.ledger, reservation.stay, reservation.checkin, reservation.checkout);
    ReserveEmptyRange(st.ledger, reservation.stay, reservation.checkin, reservation.checkout - 1);
    if duration != |dates| then
      Err(Collision)
    else
      Ok(State(st.stays,
               ReserveRange(st.ledger, reservation.stay, reservation.checkin, reservation.checkout - 1),
               st.store[id := reservation]))
  }

  /** `delete`: an unknown id is not found; otherwise the reservation's days
      [checkin, checkout - 1] become AVAILABLE and the record is removed. */
  function Delete(st: State, id: ReservationId): (r: Result<State>)
    ensures r.Err? <==> id !in st.store
    ensures r.Err? ==> r.error == NotFound
    ensures r.Ok? ==> r.value.stays == st.stays && r.value.store == st.store - {id}
    ensures r.Ok? ==> r.value.ledger.Keys == st.ledger.Keys
    ensures r.Ok? ==> forall k :: k in st.ledger ==>
              r.value.ledger[k] == if Occupies(st.store[id], k.stay, k.date) then Available else st.ledger[k]
  {
    if id !in st.store then
      Err(NotFound)
    else
      var reservation := st.store[id];
      Ok(State(st.stays,
               ReleaseRange(st.ledger, reservation.stay, reservation.checkin, reservation.checkout - 1),
               st.store - {id}))
  }

  /** `listByGuest`: the stored reservations of `guest`. */
  method ListByGuest(st: State, guest: GuestId) returns (found: Store)
    ensures forall id :: id in found <==> id in st.store && st.store[id].guest == guest
    ensures forall id :: id in found ==> found[id] == st.store[id]
  {
    found := FindByGuest(st.store, guest);
  }

  /** `listByStay`: the stored reservations on `stay`. */
  method ListByStay(st: State, stay: StayId) returns (found: Store)
    ensures forall id :: id in found <==> id in st.store && st.store[id].stay == stay
    ensures forall id :: id in found ==> found[id] == st.store[id]
  {
    found := FindByStay(st.store, stay);
  }

  /** Cancelling a reservation right after booking it under a fresh id
      restores both the ledger and the store. */
  lemma AddThenDeleteRestores(st: State, id: ReservationId, reservation: Reservation)
    requires id !in st.store
    requires Add(st, id, reservation).Ok?
    ensures Delete(Add(st, id, reservation).value, id) == Ok(st)
  {
    var booked := Add(st, id, reservation).value;
    var back := Delete(booked, id).value;
    forall k | k in st.ledger
      ensures back.ledger[k] == st.ledger[k]
    {
      if Occupies(reservation, k.stay, k.date) {
        assert IsAvailable(st.ledger, k.stay, k.date);
      }
    }
    assert back.ledger == st.ledger;
    assert back.store == st.store;
  }

  /** In a consistent state, cancelling a reservation and booking the same
      record again under the same id restores the state. */
  lemma DeleteThenAddRestores(st: State, id: ReservationId)
    requires Consistent(st)
    requires id in st.store
    ensures Delete(st, id).Ok?
    ensures Add(Delete(st, id).value, id, st.store[id]) == Ok(st)
  {
    var reservation := st.store[id];
    var freed := Delete(st, id).value;
    forall d | Covers(reservation, d)
      ensures IsAvailable(freed.ledger, reservation.stay, d)
    {
      assert IsReserved(st.ledger, reservation.stay, d);
    }
    var again := Add(freed, id, reservation).value;
    forall k | k in st.ledger
      ensures again.ledger[k] == st.ledger[k]
    {
      if Occupies(reservation, k.stay, k.date) {
        assert IsReserved(st.ledger, k.stay, k.date);
      }
    }
    assert again.ledger == st.ledger;
    assert again.store == st.store;
  }

  /** Once a booking has succeeded, any booking that shares one of its
      nights collides. */
  lemma OverlappingAddCollides(st: State, id1: ReservationId, r1: Reservation,
                               id2: ReservationId, r2: Reservation, d: Day)
    requires Add(st, id1, r1).Ok?
    requires r2.stay == r1.stay && Covers(r1, d) && Covers(r2, d)
    ensures Add(Add(st, id1, r1).value, id2, r2) == Err(Collision)
  {
  }

  /** After a successful booking under a fresh id, every night of every
      stored reservation is still a RESERVED cell. */
  lemma AddKeepsNightsReserved(st: State, id: ReservationId, reservation: Reservation)
    requires Consistent(st)
    requires id !in st.store
    requires Add(st, id, reservation).Ok?
    ensures NightsReserved(Add(st, id, reservation).value)
  {
  }

  /** After a successful booking under a fresh id, every RESERVED cell
      still has exactly one owner: the new nights were AVAILABLE, so no
      earlier reservation covers them. */
  lemma AddKeepsOwnedOnce(st: State, id: ReservationId, reservation: Reservation)
    requires Consistent(st)
    requires id !in st.store
    requires Add(st, id, reservation).Ok?
    ensures ReservedOwnedOnce(Add(st, id, reservation).value)
  {
    var after := Add(st, id, reservation).value;
    forall j, d | j in st.store && Occupies(st.store[j], reservation.stay, d)
      ensures !Covers(reservation, d)
    {
      assert IsReserved(st.ledger, st.store[j].stay, d);
    }
    forall k | k in after.ledger && after.ledger[k] == Reserved
      ensures exists j :: j in after.store && Occupies(after.store[j], k.stay, k.date)
    {
      if Occupies(reservation, k.stay, k.date) {
        assert Occupies(after.store[id], k.stay, k.date);
      } else {
        var j :| j in st.store && Occupies(st.store[j], k.stay, k.date);
        assert j in after.store && after.store[j] == st.store[j];
      }
    }
    forall k, j1, j2 | k in after.ledger && after.ledger[k] == Reserved
        && j1 in after.store && Occupies(after.store[j1], k.stay, k.date)
        && j2 in after.store && Occupies(after.store[j2], k.stay, k.date)
      ensures j1 == j2
    {
      if j1 != id && j2 != id {
        assert st.ledger[k] == Reserved;
      }
    }
  }

  /** A successful booking under a fresh id keeps the state consistent,
      and so free of double booking. */
  lemma AddPreservesConsistency(st: State, id: ReservationId, reservation: Reservation)
    requires Consistent(st)
    requires id !in st.store
    requires Add(st, id, reservation).Ok?
    ensures Consistent(Add(st, id, reservation).value)
    ensures NoDoubleBooking(Add(st, id, reservation).value.store)
  {
    AddKeepsNightsReserved(st, id, reservation);
    AddKeepsOwnedOnce(st, id, reservation);
    ConsistentHasNoDoubleBooking(Add(st, id, reservation).value);
  }

  /** Cancelling keeps the state consistent. */
  lemma DeletePreservesConsistency(st: State, id: ReservationId)
    requires Consistent(st)
    ensures Delete(st, id).Ok? ==> Consistent(Delete(st, id).value)
  {
    if id in st.store {
      var gone := st.store[id];
      var after := Delete(st, id).value;
      ConsistentHasNoDoubleBooking(st);
      forall j, d | j in after.store && Covers(after.store[j], d)
        ensures IsReserved(after.ledger, after.store[j].stay, d)
      {
        assert IsReserved(st.ledger, st.store[j].stay, d);
        assert !Occupies(gone, st.store[j].stay, d);
      }
      forall k | k in after.ledger && after.ledger[k] == Reserved
        ensures exists j :: j in after.store && Occupies(after.store[j], k.stay, k.date)
      {
        var j :| j in st.store && Occupies(st.store[j], k.stay, k.date);
        assert j != id;
        assert j in after.store;
      }
      assert Consistent(after);
    }
  }

  /** A booking walk-through on a stay whose days 1..30 are all
      AVAILABLE: guest A books nights 3..5; guest B's request for
      nights 5..7 collides; once A cancels, the state is as before and B's
      request succeeds. */
  lemma BookCollideCancelRebook(st: State, x: StayId, a: GuestId, b: GuestId)
    requires forall d :: 1 <= d <= 30 ==> IsAvailable(st.ledger, x, d)
    requires 1 !in st.store
    ensures Add(st, 1, Reservation(x, a, 3, 6)).Ok?
    ensures Add(Add(st, 1, Reservation(x, a, 3, 6)).value, 2, Reservation(x, b, 5, 8)) == Err(Collision)
    ensures Delete(Add(st, 1, Reservation(x, a, 3, 6)).value, 1) == Ok(st)
    ensures Add(st, 2, Reservation(x, b, 5, 8)).Ok?
  {
    var ra := Reservation(x, a, 3, 6);
    var rb := Reservation(x, b, 5, 8);
    assert forall d :: Covers(ra, d) ==> IsAvailable(st.ledger, x, d);
    OverlappingAddCollides(st, 1, ra, 2, rb, 5);
    AddThenDeleteRestores(st, 1, ra);
    assert forall d :: Covers(rb, d) ==> IsAvailable(st.ledger, x, d);
  }
}
