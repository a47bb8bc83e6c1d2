/**
 * The older booking service. It writes its checks inline rather than through
 * helpers and lists through the JPQL predicate table; every operation has the
 * same outcome as in the newer service, which is what the contracts below
 * state.
 */
module LegacyBookingService {
  import opened Common
  import opened Rows
  import opened Entities
  import opened BookingStates
  import opened Store
  import LegacyBookingRepository
  import BookingService

  /** `getBooking`: unknown user, unknown booking and a stranger are all NotFound. */
  function GetBooking(t: Tables, bookingId: int, userId: int): (r: Result<Booking>)
    ensures r == BookingService.GetBooking(t, bookingId, userId)
  {
    if !UserExists(t, userId) then Err(NotFound)
    else
      match BookingById(t, bookingId)
      case None => Err(NotFound)
      case Some(b) =>
        match OwnerOfItem(t.items, b.itemId)
        case None => Err(NullPointer)
        case Some(ownerId) =>
          if userId != ownerId && userId != b.bookerId then Err(NotFound) else Ok(b)
  }

  /** `getUserBookings`: the state is passed by name, with a single `now`. */
  function GetUserBookings(t: Tables, userId: int, state: BookingState, now: int): (r: Result<seq<Booking>>)
    ensures r == BookingService.GetUserBookings(t, userId, state, now)
  {
    if !UserExists(t, userId) then Err(NotFound)
    else
      LegacyBookingRepository.BookerListingsAgree(t.bookings, userId, state, now);
      Ok(LegacyBookingRepository.FindAllForBooker(t.bookings, userId, Name(state), now))
  }

  /** `getOwnerBookings`. */
  function GetOwnerBookings(t: Tables, userId: int, state: BookingState, now: int): (r: Result<seq<Booking>>)
    ensures r == BookingService.GetOwnerBookings(t, userId, state, now)
  {
    if !UserExists(t, userId) then Err(NotFound)
    else
      LegacyBookingRepository.OwnerListingsAgree(t.bookings, t.items, userId, state, now);
      Ok(LegacyBookingRepository.FindAllForOwner(t.bookings, t.items, userId, Name(state), now))
  }

  class LegacyBookingService {
    const db: Db

    constructor (db: Db)
      ensures this.db == db
    {
      this.db := db;
    }

    /** `createBooking`, with the same checks in the same order as the newer service. */
    method CreateBooking(draft: BookingDraft, itemId: int, bookerId: int) returns (r: Result<Booking>)
      requires db.Valid()
      modifies db
      ensures db.Valid()
      ensures r.Err? <==> BookingService.CreationCheck(old(db.t), itemId, bookerId, draft).Fail?
      ensures r.Err? ==> r.error == BookingService.CreationCheck(old(db.t), itemId, bookerId, draft).error
      ensures r.Err? ==> db.t == old(db.t) && db.nextId == old(db.nextId)
      ensures r.Ok? ==> r.value == Booking(old(db.nextId), itemId, bookerId, draft.start.value, draft.end.value, Status.Waiting)
      ensures r.Ok? ==> db.t == old(db.t).(bookings := old(db.t.bookings) + [r.value]) && db.nextId == old(db.nextId) + 1
    {
      var item := ItemById(db.t, itemId);
      if item.None? {
        return Err(NotFound);
      }
      var booker := UserById(db.t, bookerId);
      if booker.None? {
        return Err(NotFound);
      }
      if item.value.ownerId.None? {
        return Err(NullPointer);
      }
      if item.value.ownerId.value == bookerId {
        return Err(NotFound);
      }
      if item.value.available.None? {
        return Err(NullPointer);
      }
      if !item.value.available.value {
        return Err(Validation);
      }
      if draft.start.None? || draft.end.None? {
        return Err(Validation);
      }
      if !(draft.start.value < draft.end.value) {
        return Err(Validation);
      }
      var saved := db.InsertBooking(Booking(0, item.value.id, booker.value.id, draft.start.value, draft.end.value, Status.Waiting));
      r := Ok(saved);
    }

    /** `setApprovedOrRejected`: owner check, then WAITING check, then the new status. */
    method SetApprovedOrRejected(bookingId: int, ownerId: int, approved: bool) returns (r: Result<Booking>)
      requires db.Valid()
      modifies db
      ensures db.Valid()
      ensures r == BookingService.DecisionOf(old(db.t), bookingId, ownerId, approved)
      ensures db.t == if r.Ok? then old(db.t).(bookings := Replace(old(db.t.bookings), BookingKey, r.value)) else old(db.t)
      ensures db.nextId == old(db.nextId)
    {
      var found := BookingById(db.t, bookingId);
      if found.None? {
        return Err(NotFound);
      }
      var booking := found.value;
      var realOwnerId := OwnerOfItem(db.t.items, booking.itemId);
      if realOwnerId.None? {
        return Err(NullPointer);
      }
      if realOwnerId.value != ownerId {
        return Err(Forbidden);
      }
      if booking.status != Status.Waiting {
        return Err(Validation);
      }
      booking := booking.(status := if approved then Status.Approved else Status.Rejected);
      db.UpdateBooking(booking);
      r := Ok(booking);
    }
  }
}
