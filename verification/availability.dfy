/** The availability ledger: one cell per (stay, day), either AVAILABLE or
    RESERVED, and the three range operations of the availability repository
    (`countByDateBetweenAndId`, `reserveByDateBetweenAndId`,
    `cancelByDateBetweenAndId`), each over a closed range of days. */
module Availability {
  import opened Domain

  datatype CellState = Available | Reserved

  /** The composite key of an availability row. */
  datatype AvailabilityKey = AvailabilityKey(stay: StayId, date: Day)

  /** An availability row as built when a stay is published. */
  datatype StayAvailability = StayAvailability(id: AvailabilityKey, state: CellState)

  /** The ledger: the state of every existing cell. Days without a cell
      are not offered at all. */
  type Ledger = map<AvailabilityKey, CellState>

  predicate IsAvailable(ledger: Ledger, stay: StayId, d: Day) {
    AvailabilityKey(stay, d) in ledger && ledger[AvailabilityKey(stay, d)] == Available
  }

  predicate IsReserved(ledger: Ledger, stay: StayId, d: Day) {
    AvailabilityKey(stay, d) in ledger && ledger[AvailabilityKey(stay, d)] == Reserved
  }

  /** Cell `k` belongs to `stay` and lies in the closed range [from, to]. */
  predicate InRange(k: AvailabilityKey, stay: StayId, from: Day, to: Day) {
    k.stay == stay && from <= k.date <= to
  }

  /** The AVAILABLE days of `stay` in the closed range [from, to], in
      ascending order (the query behind `countByDateBetweenAndId`). */
  function AvailableDates(ledger: Ledger, stay: StayId, from: Day, to: Day): (dates: seq<Day>)
    decreases to - from
    ensures |dates| <= if from <= to then to - from + 1 else 0
    ensures forall i :: 0 <= i < |dates| ==> from <= dates[i] <= to && IsAvailable(ledger, stay, dates[i])
    ensures forall d :: from <= d <= to && IsAvailable(ledger, stay, d) ==> d in dates
    ensures forall i, j :: 0 <= i < j < |dates| ==> dates[i] < dates[j]
  {
    if from > to then []
    else (if IsAvailable(ledger, stay, from) then [from] else []) + AvailableDates(ledger, stay, from + 1, to)
  }

  /** Sets every existing cell of `stay` in [from, to] to `state`; no cell
      is created or removed. */
  function SetRange(ledger: Ledger, stay: StayId, from: Day, to: Day, state: CellState): Ledger {
    map k | k in ledger :: if InRange(k, stay, from, to) then state else ledger[k]
  }

  /** `reserveByDateBetweenAndId`: the cells of `stay` in [from, to] become RESERVED. */
  function ReserveRange(ledger: Ledger, stay: StayId, from: Day, to: Day): (after: Ledger)
    ensures after.Keys == ledger.Keys
    ensures forall d :: from <= d <= to && AvailabilityKey(stay, d) in ledger ==> IsReserved(after, stay, d)
    ensures forall k :: k in ledger && !InRange(k, stay, from, to) ==> after[k] == ledger[k]
  {
    SetRange(ledger, stay, from, to, Reserved)
  }

  /** `cancelByDateBetweenAndId`: the cells of `stay` in [from, to] become
      AVAILABLE, whatever their state was. */
  function ReleaseRange(ledger: Ledger, stay: StayId, from: Day, to: Day): (after: Ledger)
    ensures after.Keys == ledger.Keys
    ensures forall d :: from <= d <= to && AvailabilityKey(stay, d) in ledger ==> IsAvailable(after, stay, d)
    ensures forall k :: k in ledger && !InRange(k, stay, from, to) ==> after[k] == ledger[k]
  {
    SetRange(ledger, stay, from, to, Available)
  }

  /** Over an empty range, reserving changes nothing. */
  lemma ReserveEmptyRange(ledger: Ledger, stay: StayId, from: Day, to: Day)
    ensures to < from ==> ReserveRange(ledger, stay, from, to) == ledger
  {
  }

  /** The collision test of a booking: the number of AVAILABLE days in
      [checkin, checkout - 1] equals `checkout - checkin` exactly when the
      range is not inverted and every one of its days is AVAILABLE. */
  lemma {:induction false} FullCountIffAllAvailable(ledger: Ledger, stay: StayId, checkin: Day, checkout: Day)
    ensures |AvailableDates(ledger, stay, checkin, checkout - 1)| == checkout - checkin
        <==> checkin <= checkout && forall d :: checkin <= d < checkout ==> IsAvailable(ledger, stay, d)
    decreases checkout - checkin
  {
    if checkin < checkout {
      FullCountIffAllAvailable(ledger, stay, checkin + 1, checkout);
      var rest := AvailableDates(ledger, stay, checkin + 1, checkout - 1);
      if IsAvailable(ledger, stay, checkin) {
        assert AvailableDates(ledger, stay, checkin, checkout - 1) == [checkin] + rest;
      } else {
        assert AvailableDates(ledger, stay, checkin, checkout - 1) == rest;
      }
    }
  }

  /** Releasing a range that was entirely AVAILABLE right after reserving it
      gives back the original ledger. */
  lemma ReleaseUndoesReserve(ledger: Ledger, stay: StayId, from: Day, to: Day)
    requires forall d :: from <= d <= to && AvailabilityKey(stay, d) in ledger ==> IsAvailable(ledger, stay, d)
    ensures ReleaseRange(ReserveRange(ledger, stay, from, to), stay, from, to) == ledger
  {
  }

  /** Reserving a range that was entirely RESERVED right after releasing it
      gives back the original ledger. */
  lemma ReserveUndoesRelease(ledger: Ledger, stay: StayId, from: Day, to: Day)
    requires forall d :: from <= d <= to && AvailabilityKey(stay, d) in ledger ==> IsReserved(ledger, stay, d)
    ensures ReserveRange(ReleaseRange(ledger, stay, from, to), stay, from, to) == ledger
  {
  }
}
