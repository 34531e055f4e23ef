/** The persistent state the services act on, and the consistency invariant
    that ties the availability ledger to the reservation store. */
module BookingState {
  import opened Domain
  import opened Availability
  import opened ReservationRepository

  /** The published stays, the availability ledger and the reservation store. */
  datatype State = State(stays: set<StayId>, ledger: Ledger, store: Store)

  /** No stored reservation has its checkout before its checkin. */
  ghost predicate WellFormed(store: Store) {
    forall id :: id in store ==> store[id].checkin <= store[id].checkout
  }

  /** Every night of every stored reservation is a RESERVED cell. */
  ghost predicate NightsReserved(st: State) {
    forall id, d :: id in st.store && Covers(st.store[id], d) ==> IsReserved(st.ledger, st.store[id].stay, d)
  }

  /** Every RESERVED cell is held by exactly one stored reservation. */
  ghost predicate ReservedOwnedOnce(st: State) {
    && (forall k :: k in st.ledger && st.ledger[k] == Reserved ==>
          exists id :: id in st.store && Occupies(st.store[id], k.stay, k.date))
    && (forall k, id1, id2 ::
          k in st.ledger && st.ledger[k] == Reserved
          && id1 in st.store && Occupies(st.store[id1], k.stay, k.date)
          && id2 in st.store && Occupies(st.store[id2], k.stay, k.date)
          ==> id1 == id2)
  }

  ghost predicate Consistent(st: State) {
    WellFormed(st.store) && NightsReserved(st) && ReservedOwnedOnce(st)
  }

  /** No night of a stay is held by two different reservations. */
  ghost predicate NoDoubleBooking(store: Store) {
    forall id1, id2, d ::
      id1 in store && id2 in store && id1 != id2 && store[id1].stay == store[id2].stay
      ==> !(Covers(store[id1], d) && Covers(store[id2], d))
  }

  /** A consistent state has no double booking: a night two reservations
      shared would be one RESERVED cell with two owners. */
  lemma ConsistentHasNoDoubleBooking(st: State)
    requires Consistent(st)
    ensures NoDoubleBooking(st.store)
  {
  }
}
