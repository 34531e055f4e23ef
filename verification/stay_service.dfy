/** Publishing a stay (its availability seeding) and deleting a stay behind
    the active-reservation guard. */
module StayService {
  import opened Domain
  import opened Availability
  import opened ReservationRepository
  import opened BookingState

  /** A newly published stay is offered for this many consecutive days. */
  const AvailabilityWindow: nat := 30

  /** Day `d` lies in the window offered when a stay is published on `today`:
      tomorrow up to and including `today + AvailabilityWindow`. */
  predicate InWindow(today: Day, d: Day) {
    today + 1 <= d <= today + AvailabilityWindow
  }

  /** The availability rows built for a stay published on `today`: one
      AVAILABLE row per day, starting tomorrow, consecutive and ascending. */
  method SeedAvailability(stay: StayId, today: Day) returns (cells: seq<StayAvailability>)
    ensures |cells| == AvailabilityWindow
    ensures forall i :: 0 <= i < |cells| ==> cells[i] == StayAvailability(AvailabilityKey(stay, today + 1 + i), Available)
  {
    var date := today + 1;
    cells := [];
    var i := 0;
    while i < AvailabilityWindow
      invariant 0 <= i <= AvailabilityWindow
      invariant date == today + 1 + i
      invariant |cells| == i
      invariant forall j :: 0 <= j < i ==> cells[j] == StayAvailability(AvailabilityKey(stay, today + 1 + j), Available)
    {
      cells := cells + [StayAvailability(AvailabilityKey(stay, date), Available)];
      date := date + 1;
      i := i + 1;
    }
  }

  /** `add`, availability part: registers `stay` and saves its seeded rows.
      The window's cells of `stay` exist and are AVAILABLE afterwards; every
      other cell, and the reservation store, is untouched. Publishing a stay
      that holds no RESERVED cell in its window keeps the state consistent. */
  method Add(st: State, stay: StayId, today: Day) returns (after: State)
    ensures after.stays == st.stays + {stay}
    ensures after.store == st.store
    ensures forall k :: k in after.ledger <==> k in st.ledger || (k.stay == stay && InWindow(today, k.date))
    ensures forall d :: InWindow(today, d) ==> IsAvailable(after.ledger, stay, d)
    ensures forall k :: k in st.ledger && !(k.stay == stay && InWindow(today, k.date)) ==> after.ledger[k] == st.ledger[k]
    ensures Consistent(st) && (forall d :: InWindow(today, d) ==> !IsReserved(st.ledger, stay, d))
            ==> Consistent(after)
  {
    var cells := SeedAvailability(stay, today);
    var ledger := st.ledger;
    var i := 0;
    while i < |cells|
      invariant 0 <= i <= |cells|
      invariant forall k :: k in ledger <==> k in st.ledger || (k.stay == stay && today + 1 <= k.date < today + 1 + i)
      invariant forall d :: today + 1 <= d < today + 1 + i ==> IsAvailable(ledger, stay, d)
      invariant forall k :: k in st.ledger && !(k.stay == stay && today + 1 <= k.date < today + 1 + i) ==> ledger[k] == st.ledger[k]
    {
      assert cells[i] == StayAvailability(AvailabilityKey(stay, today + 1 + i), Available);
      var before := ledger;
      ledger := ledger[cells[i].id := cells[i].state];
      forall d | today + 1 <= d < today + 1 + (i + 1)
        ensures IsAvailable(ledger, stay, d)
      {
        if d < today + 1 + i {
          assert IsAvailable(before, stay, d);
        }
      }
      i := i + 1;
    }
    after := State(st.stays + {stay}, ledger, st.store);
    if Consistent(st) && (forall d :: InWindow(today, d) ==> !IsReserved(st.ledger, stay, d)) {
      forall j, d | j in after.store && Covers(after.store[j], d)
        ensures IsReserved(after.ledger, after.store[j].stay, d)
      {
        assert IsReserved(st.ledger, st.store[j].stay, d);
      }
      forall k | k in after.ledger && after.ledger[k] == Reserved
        ensures exists j :: j in after.store && Occupies(after.store[j], k.stay, k.date)
      {
        assert InWindow(today, k.date) ==> IsAvailable(after.ledger, stay, k.date);
        assert k in st.ledger && st.ledger[k] == Reserved;
      }
      assert Consistent(after);
    }
  }

  /** Some reservation on `stay` checks out strictly after `today`. */
  predicate HasActiveReservation(store: Store, stay: StayId, today: Day) {
    exists id :: id in store && store[id].stay == stay && store[id].checkout > today
  }

  /** `delete`: refuses while a reservation on `stay` checks out after
      `today`; otherwise removes the stay. Reservations on other stays, and
      those checking out today or earlier, never block. */
  method Delete(st: State, stay: StayId, today: Day) returns (r: Result<State>)
    ensures r.Err? <==> HasActiveReservation(st.store, stay, today)
    ensures r.Err? ==> r.error == StayDelete
    ensures r.Ok? ==> r.value == st.(stays := st.stays - {stay})
    ensures r.Ok? && stay !in st.stays ==> r.value == st
    ensures (forall id :: id in st.store && st.store[id].stay == stay ==> st.store[id].checkout <= today) ==> r.Ok?
    ensures r.Ok? && Consistent(st) ==> Consistent(r.value)
  {
    var reservations := FindByStayAndCheckoutDateAfter(st.store, stay, today);
    if |reservations| > 0 {
      var id :| id in reservations;
      assert id in st.store;
      return Err(StayDelete);
    }
    return Ok(st.(stays := st.stays - {stay}));
  }
}
