# Stay-booking availability ledger and reservation protocol

A Dafny model of the booking core of the stay-booking backend. Hosts publish
stays; guests reserve ranges of nights on them. Availability is kept per
day: one ledger cell per (stay, day), either AVAILABLE or RESERVED. A booking
counts the AVAILABLE days of its range. It collides unless the count equals
the number of nights. On success it flips those days to RESERVED and saves the
reservation record. A cancellation flips the days back and deletes the record.
A stay cannot be deleted while one of its reservations checks out after today.

The model is a sequential state machine. Each `@Transactional` service call is
one atomic step. The state (`BookingState.State`) holds three things:

- the set of published stays;
- the ledger, a map from `AvailabilityKey(stay, date)` to `Available | Reserved`;
- the reservation store, a map from reservation id to
  `Reservation(stay, guest, checkin, checkout)`.

Days are integers. The current date (`LocalDate.now()`) is a `today` parameter.
The service exceptions become `Result.Err(Collision | NotFound | StayDelete)`.
A failed call returns no new state, so the state before the call stands. This
is how the model states all-or-nothing.

Modules:

- `Domain` (`domain.dfy`): ids, `Reservation`, `Error`, `Result`.
- `Availability` (`availability.dfy`): the ledger and the three range
  operations of the availability repository. Only their names are known:
  count AVAILABLE, set RESERVED and set AVAILABLE, each over a closed range.
- `ReservationRepository` (`reservation_repository.dfy`): the store and the
  three derived queries.
- `BookingState` (`booking_state.dfy`): the state and its consistency
  invariant. Every night of a stored reservation is a RESERVED cell, and every
  RESERVED cell has exactly one owning reservation.
- `ReservationService` (`reservation_service.dfy`): booking, cancelling,
  listing, the round trips and invariant preservation.
- `StayService` (`stay_service.dfy`): availability seeding on publish, and the
  deletion guard.

The code has no separate check for an empty or inverted range:

- With `checkout == checkin`, the queried range `[checkin, checkin - 1]` is
  empty and the count `0 == 0` passes. The record is saved and no day is
  reserved.
- With `checkout < checkin`, the duration is negative. It never equals a list
  size, so the call fails with a collision.

`ReservationService.Add` states both cases.

## Model

| member | source | states |
|---|---|---|
| Availability.AvailableDates | staybooking-backend/src/main/java/com/rorschach/staybooking/service/ReservationService.java:40 | the range query returns the AVAILABLE days of the stay in the closed range: every such day appears, no other day does, ascending without repeats, and there are at most as many as the range has days |
| Availability.FullCountIffAllAvailable | staybooking-backend/src/main/java/com/rorschach/staybooking/service/ReservationService.java:40-43 | the AVAILABLE count over [checkin, checkout-1] equals checkout - checkin exactly when checkin <= checkout and every night of the range is AVAILABLE (both directions) |
| Availability.ReserveRange | staybooking-backend/src/main/java/com/rorschach/staybooking/service/ReservationService.java:46 | reserving creates no cell, makes every existing cell of the stay in the range RESERVED, and leaves every other cell as it was |
| Availability.ReleaseRange | staybooking-backend/src/main/java/com/rorschach/staybooking/service/ReservationService.java:56 | releasing creates no cell, makes every existing cell of the stay in the range AVAILABLE whatever its state was, and leaves every other cell as it was |
| Availability.ReleaseUndoesReserve | staybooking-backend/src/main/java/com/rorschach/staybooking/service/ReservationService.java:46-56 | release is the inverse of reserve on a range whose cells were all AVAILABLE |
| Availability.ReserveUndoesRelease | staybooking-backend/src/main/java/com/rorschach/staybooking/service/ReservationService.java:46-56 | reserve is the inverse of release on a range whose cells were all RESERVED |
| Availability.ReserveEmptyRange | staybooking-backend/src/main/java/com/rorschach/staybooking/service/ReservationService.java:46 | reserving an empty range (to < from, as for checkout == checkin) leaves the ledger unchanged |
| ReservationRepository.Select | staybooking-backend/src/main/java/com/rorschach/staybooking/repository/ReservationRepository.java:13-18 | a derived query returns exactly the stored records satisfying its condition, with their stored values |
| ReservationRepository.FindByGuest | staybooking-backend/src/main/java/com/rorschach/staybooking/repository/ReservationRepository.java:14 | returns every stored reservation whose guest is the given one, and only those |
| ReservationRepository.FindByStay | staybooking-backend/src/main/java/com/rorschach/staybooking/repository/ReservationRepository.java:16 | returns every stored reservation on the given stay, and only those |
| ReservationRepository.FindByStayAndCheckoutDateAfter | staybooking-backend/src/main/java/com/rorschach/staybooking/repository/ReservationRepository.java:18 | returns exactly the reservations on the stay with checkout strictly after the date; one checking out on the date itself is excluded |
| BookingState.ConsistentHasNoDoubleBooking | staybooking-backend/src/main/java/com/rorschach/staybooking/service/ReservationService.java:38-48 | when every RESERVED cell has exactly one owner and every reserved night is a RESERVED cell, no two distinct reservations on a stay share a night |
| ReservationService.Add | staybooking-backend/src/main/java/com/rorschach/staybooking/service/ReservationService.java:38-48 | booking succeeds iff checkin <= checkout and every night is AVAILABLE. Otherwise it fails with a collision and yields no new state; checkout < checkin always collides. On success exactly the nights checkin..checkout-1 of that stay become RESERVED, the checkout day and all other cells are untouched, and the record is saved. checkout == checkin saves the record and reserves nothing |
| ReservationService.Delete | staybooking-backend/src/main/java/com/rorschach/staybooking/service/ReservationService.java:51-58 | an unknown id fails with not-found and yields no new state; otherwise the reservation's nights become AVAILABLE, nothing else in the ledger changes, and only that record is removed |
| ReservationService.ListByGuest | staybooking-backend/src/main/java/com/rorschach/staybooking/service/ReservationService.java:30-32 | returns exactly the stored reservations of the guest |
| ReservationService.ListByStay | staybooking-backend/src/main/java/com/rorschach/staybooking/service/ReservationService.java:34-36 | returns exactly the stored reservations on the stay |
| ReservationService.AddThenDeleteRestores | staybooking-backend/src/main/java/com/rorschach/staybooking/service/ReservationService.java:46-57 | a successful booking under a fresh id followed by its cancellation restores the original ledger and store |
| ReservationService.DeleteThenAddRestores | staybooking-backend/src/main/java/com/rorschach/staybooking/service/ReservationService.java:46-57 | in a consistent state, cancelling a reservation and booking the same record again succeeds and restores the state |
| ReservationService.OverlappingAddCollides | staybooking-backend/src/main/java/com/rorschach/staybooking/service/ReservationService.java:40-46 | after a successful booking, any booking on the same stay that shares one of its nights collides, whatever its id |
| ReservationService.AddKeepsNightsReserved | staybooking-backend/src/main/java/com/rorschach/staybooking/service/ReservationService.java:46-47 | after a successful booking under a fresh id, every night of every stored reservation, old or new, is a RESERVED cell |
| ReservationService.AddKeepsOwnedOnce | staybooking-backend/src/main/java/com/rorschach/staybooking/service/ReservationService.java:40-47 | after a successful booking under a fresh id, every RESERVED cell has exactly one owning reservation |
| ReservationService.AddPreservesConsistency | staybooking-backend/src/main/java/com/rorschach/staybooking/service/ReservationService.java:38-48 | a successful booking under a fresh id preserves the one-owner-per-RESERVED-cell invariant and leaves no double booking |
| ReservationService.DeletePreservesConsistency | staybooking-backend/src/main/java/com/rorschach/staybooking/service/ReservationService.java:51-58 | a successful cancellation preserves the consistency invariant |
| ReservationService.BookCollideCancelRebook | staybooking-backend/src/main/java/com/rorschach/staybooking/service/ReservationService.java:38-58 | on a stay with days 1..30 AVAILABLE: booking nights 3-5 succeeds, a booking of nights 5-7 then collides, cancelling restores the state, and nights 5-7 can then be booked |
| StayService.SeedAvailability | staybooking-backend/src/main/java/com/rorschach/staybooking/service/StayService.java:44-52 | publishing builds exactly 30 rows, row i for day today+1+i: consecutive days from tomorrow with no gap or repeat, each AVAILABLE and keyed by the stay's own id |
| StayService.Add | staybooking-backend/src/main/java/com/rorschach/staybooking/service/StayService.java:43-53 | after publishing, the stay is registered and its cells for today+1..today+30 exist and are AVAILABLE. No other cell is created or changed, and the store is untouched. Consistency is kept when the window held no RESERVED cell of the stay |
| StayService.Delete | staybooking-backend/src/main/java/com/rorschach/staybooking/service/StayService.java:82-90 | deletion fails with the stay-delete error and yields no new state iff some reservation on that stay checks out strictly after today. Otherwise only the stay is removed. Reservations on other stays, or checking out today or earlier, never block. Deleting an unregistered stay succeeds with no change |

## Left out

- Image upload and `StayImage` building (StayService.java lines 55-65): parallel calls to an external storage service.
- Geocoding and the location save (StayService.java lines 77-78): external services.
- `listByUser` and `findByIdAndHost`: pass-throughs to the stay repository, which is not part of this model.
- Serializable isolation: each service call is one atomic step. Races between concurrent transactions are not modelled. The unguarded race between the deletion check and a concurrent booking is therefore not modelled either.
- The SQL of the three availability queries: it is not part of this model. They are modelled by their names only, as updates of the existing cells in a closed range. No extra checks are assumed; releasing an AVAILABLE day leaves it AVAILABLE.
- `LocalDate` and `Duration` arithmetic: days are integers. The `(int)` cast of the duration cannot overflow for real calendar dates, so it is not modelled.
- Reservation id generation: `ReservationService.Add` takes the id the database assigns as a parameter. Saving under an id already in the store overwrites it, as an entity save would. The invariant and round-trip lemmas assume a fresh id.
- Deleting a stay removes only its id from the set of stays. What the entity mapping cascades to cells and reservations is not part of this model. As a consequence, in the model the deleted stay's cells stay AVAILABLE and `ReservationService.Add` can still book them. This follows from the model, not from the backend, which only ever saves cells through the stay's cascade.
- StayService.Delete: deleting a stay id that is not registered succeeds and changes nothing. The effect of `deleteById` on a missing id depends on the persistence framework version, which is not part of this model: older versions throw, newer ones ignore it.
- ReservationRepository.FindByGuest: the result is a map from id to record, so the order of the backend's result list is not modelled. The same holds for FindByStay, FindByStayAndCheckoutDateAfter, ListByGuest and ListByStay.
