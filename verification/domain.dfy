/** Identifiers, the reservation record and the error outcomes shared by the
    services of the stay-booking backend. */
module Domain {

  /** A stay's primary key (a `Long` in the backend). */
  type StayId = nat

  /** A reservation's primary key, assigned by the database on save. */
  type ReservationId = nat

  /** A guest is identified by username. */
  type GuestId = string

  /** A calendar day; `LocalDate` arithmetic becomes integer arithmetic. */
  type Day = int

  /** A reservation of `stay` by `guest`: the nights `checkin` up to but
      excluding `checkout`. */
  datatype Reservation = Reservation(stay: StayId, guest: GuestId, checkin: Day, checkout: Day)

  /** The night of day `d` belongs to reservation `r`. */
  predicate Covers(r: Reservation, d: Day) {
    r.checkin <= d < r.checkout
  }

  /** Reservation `r` holds the night `d` of stay `stay`. */
  predicate Occupies(r: Reservation, stay: StayId, d: Day) {
    r.stay == stay && Covers(r, d)
  }

  /** The exceptions the services throw. */
  datatype Error =
    | Collision   // ReservationCollisionException
    | NotFound    // ReservationNotFoundException
    | StayDelete  // StayDeleteException

  /** The outcome of a service call: a value, or the exception it threw. */
  datatype Result<T> = Ok(value: T) | Err(error: Error)
}
