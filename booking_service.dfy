/**
 * The booking service: creating a booking request, the owner's one-time
 * decision on it, reading one booking, and the booker's and owner's
 * listings by state. The guards are functions; the two operations that
 * write are methods on the store.
 */
module BookingService {
  import opened Common
  import opened Rows
  import opened Entities
  import opened BookingStates
  import opened Store
  import BookingRepository

  /**
   * `validateBookingCreation`: the owner may not book their own item
   * (NotFound), the item must be available, and both instants must be given
   * with the start strictly first (Validation). Reading a null owner id or
   * unboxing a null availability throws NullPointerException.
   */
  function ValidateBookingCreation(item: Item, bookerId: int, draft: BookingDraft): (r: Outcome)
    ensures r == Pass <==>
      && item.ownerId.Some? && item.ownerId.value != bookerId
      && item.available == Some(true)
      && draft.start.Some? && draft.end.Some? && draft.start.value < draft.end.value
    ensures r == Fail(NotFound) <==> item.ownerId == Some(bookerId)
    ensures r == Fail(NullPointer) <==> item.ownerId.None? || (item.ownerId != Some(bookerId) && item.available.None?)
    ensures r.Fail? ==> r.error in {NotFound, NullPointer, Validation}
  {
    if item.ownerId.None? then Fail(NullPointer)
    else if item.ownerId.value == bookerId then Fail(NotFound)
    else if item.available.None? then Fail(NullPointer)
    else if !item.available.value then Fail(Validation)
    else if draft.start.None? || draft.end.None? then Fail(Validation)
    else if !(draft.start.value < draft.end.value) then Fail(Validation)
    else Pass
  }

  /**
   * Everything `createBooking` checks before it saves: the item must exist,
   * then the booker, then the booking must pass `validateBookingCreation`.
   */
  function CreationCheck(t: Tables, itemId: int, bookerId: int, draft: BookingDraft): (r: Outcome)
    ensures ItemById(t, itemId).None? ==> r == Fail(NotFound)
    ensures r == Pass <==>
      && ItemById(t, itemId).Some? && UserExists(t, bookerId)
      && ItemById(t, itemId).value.ownerId.Some? && ItemById(t, itemId).value.ownerId.value != bookerId
      && ItemById(t, itemId).value.available == Some(true)
      && draft.start.Some? && draft.end.Some? && draft.start.value < draft.end.value
    ensures r == Fail(NotFound) <==>
      ItemById(t, itemId).None? || !UserExists(t, bookerId) || ItemById(t, itemId).value.ownerId == Some(bookerId)
    ensures ItemById(t, itemId).Some? && UserExists(t, bookerId) ==>
      r == ValidateBookingCreation(ItemById(t, itemId).value, bookerId, draft)
  {
    match ItemById(t, itemId)
    case None => Fail(NotFound)
    case Some(item) =>
      if UserById(t, bookerId).None? then Fail(NotFound)
      else ValidateBookingCreation(item, bookerId, draft)
  }

  /** An owner asking for their own item is refused with NotFound even when the item is unavailable. */
  lemma OwnerCheckPrecedesAvailability(t: Tables, itemId: int, bookerId: int, draft: BookingDraft)
    requires ItemById(t, itemId).Some? && UserExists(t, bookerId)
    requires ItemById(t, itemId).value.ownerId == Some(bookerId)
    requires ItemById(t, itemId).value.available == Some(false)
    ensures CreationCheck(t, itemId, bookerId, draft) == Fail(NotFound)
  {
  }

  /** A request for an available item of someone else fails only on its instants, and then with Validation. */
  lemma MissingOrInvertedDatesAreValidation(t: Tables, itemId: int, bookerId: int, draft: BookingDraft)
    requires ItemById(t, itemId).Some? && UserExists(t, bookerId)
    requires ItemById(t, itemId).value.ownerId.Some? && ItemById(t, itemId).value.ownerId.value != bookerId
    requires ItemById(t, itemId).value.available == Some(true)
    ensures CreationCheck(t, itemId, bookerId, draft) == (if draft.start.Some? && draft.end.Some? && draft.start.value < draft.end.value then Pass else Fail(Validation))
  {
  }

  /** `assertIsOwner`: only the owner of the booked item may decide (Forbidden otherwise). */
  function AssertIsOwner(items: seq<Item>, b: Booking, userId: int): (r: Outcome)
    ensures r == Pass <==> OwnerOfItem(items, b.itemId) == Some(userId)
    ensures r.Fail? ==> r.error == if OwnerOfItem(items, b.itemId).None? then NullPointer else Forbidden
  {
    match OwnerOfItem(items, b.itemId)
    case None => Fail(NullPointer)
    case Some(owner) => if owner == userId then Pass else Fail(Forbidden)
  }

  /** `assertIsOwnerOrBooker`: a booking is visible to its booker and to the item's owner only. */
  function AssertIsOwnerOrBooker(items: seq<Item>, b: Booking, userId: int): (r: Outcome)
    ensures r == Pass <==> OwnerOfItem(items, b.itemId).Some? && (userId == OwnerOfItem(items, b.itemId).value || userId == b.bookerId)
    ensures r.Fail? ==> r.error == if OwnerOfItem(items, b.itemId).None? then NullPointer else NotFound
  {
    match OwnerOfItem(items, b.itemId)
    case None => Fail(NullPointer)
    case Some(owner) => if userId != owner && userId != b.bookerId then Fail(NotFound) else Pass
  }

  /** `validateStatusIsWaiting`. */
  function ValidateStatusIsWaiting(b: Booking): (r: Outcome)
    ensures r == Pass <==> b.status == Status.Waiting
    ensures r.Fail? ==> r.error == Validation
  {
    if b.status != Status.Waiting then Fail(Validation) else Pass
  }

  /** The status a decision moves a waiting booking to. */
  function Decided(approved: bool): (s: Status)
    ensures s != Status.Waiting
    ensures s == Status.Approved <==> approved
  {
    if approved then Status.Approved else Status.Rejected
  }

  /**
   * `setApprovedOrRejected` as a value: the booking as it is saved, or the
   * error. Ownership is checked before the status, so a stranger is refused
   * with Forbidden whatever the booking's status.
   */
  function DecisionOf(t: Tables, bookingId: int, ownerId: int, approved: bool): (r: Result<Booking>)
    ensures BookingById(t, bookingId).None? ==> r == Err(NotFound)
    ensures r.Ok? <==>
      && BookingById(t, bookingId).Some?
      && OwnerOfItem(t.items, BookingById(t, bookingId).value.itemId) == Some(ownerId)
      && BookingById(t, bookingId).value.status == Status.Waiting
    ensures r.Ok? ==> r.value == BookingById(t, bookingId).value.(status := Decided(approved))
    ensures (&& BookingById(t, bookingId).Some?
             && OwnerOfItem(t.items, BookingById(t, bookingId).value.itemId).Some?
             && OwnerOfItem(t.items, BookingById(t, bookingId).value.itemId) != Some(ownerId))
            ==> r == Err(Forbidden)
    ensures (&& BookingById(t, bookingId).Some?
             && OwnerOfItem(t.items, BookingById(t, bookingId).value.itemId) == Some(ownerId)
             && BookingById(t, bookingId).value.status != Status.Waiting)
            ==> r == Err(Validation)
    ensures r == Err(NullPointer) <==>
      BookingById(t, bookingId).Some? && OwnerOfItem(t.items, BookingById(t, bookingId).value.itemId).None?
  {
    match BookingById(t, bookingId)
    case None => Err(NotFound)
    case Some(b) =>
      var owner := AssertIsOwner(t.items, b, ownerId);
      if owner.Fail? then Err(owner.error)
      else
        var waiting := ValidateStatusIsWaiting(b);
        if waiting.Fail? then Err(waiting.error)
        else Ok(b.(status := Decided(approved)))
  }

  /**
   * Approved and rejected are final: once a decision has been saved, any
   * further decision on that booking fails, with Validation for the owner
   * and Forbidden for anyone else.
   */
  lemma SecondDecisionFails(t: Tables, bookingId: int, ownerId: int, first: bool, caller: int, second: bool)
    requires DecisionOf(t, bookingId, ownerId, first).Ok?
    ensures var t2 := t.(bookings := Replace(t.bookings, BookingKey, DecisionOf(t, bookingId, ownerId, first).value));
      DecisionOf(t2, bookingId, caller, second) == Err(if caller == ownerId then Validation else Forbidden)
  {
    var b := DecisionOf(t, bookingId, ownerId, first).value;
    var t2 := t.(bookings := Replace(t.bookings, BookingKey, b));
    FindReplaced(t.bookings, BookingKey, b);
    assert BookingById(t2, bookingId) == Some(b);
  }

  /**
   * `getBooking`: the requester must exist, then the booking, then the
   * requester must be its booker or the item's owner; each refusal is NotFound.
   */
  function GetBooking(t: Tables, bookingId: int, userId: int): (r: Result<Booking>)
    ensures !UserExists(t, userId) ==> r == Err(NotFound)
    ensures UserExists(t, userId) && BookingById(t, bookingId).None? ==> r == Err(NotFound)
    ensures r.Ok? <==>
      && UserExists(t, userId) && BookingById(t, bookingId).Some?
      && OwnerOfItem(t.items, BookingById(t, bookingId).value.itemId).Some?
      && (userId == BookingById(t, bookingId).value.bookerId || OwnerOfItem(t.items, BookingById(t, bookingId).value.itemId) == Some(userId))
    ensures r.Ok? ==> r.value in t.bookings && r.value.id == bookingId
    ensures r.Err? ==> r.error == NotFound || (r.error == NullPointer && OwnerOfItem(t.items, BookingById(t, bookingId).value.itemId).None?)
    ensures r == Err(NullPointer) <==>
      && UserExists(t, userId) && BookingById(t, bookingId).Some?
      && OwnerOfItem(t.items, BookingById(t, bookingId).value.itemId).None?
  {
    if !UserExists(t, userId) then Err(NotFound)
    else
      match BookingById(t, bookingId)
      case None => Err(NotFound)
      case Some(b) =>
        var access := AssertIsOwnerOrBooker(t.items, b, userId);
        if access.Fail? then Err(access.error) else Ok(b)
  }

  /** `getUserBookings`: the requester's own bookings in `state`, latest start first. */
  function GetUserBookings(t: Tables, userId: int, state: BookingState, now: int): (r: Result<seq<Booking>>)
    ensures r.Err? <==> !UserExists(t, userId)
    ensures r.Err? ==> r.error == NotFound
    ensures r.Ok? ==> forall x :: multiset(r.value)[x] == if x.bookerId == userId && InState(x, state, now) then multiset(t.bookings)[x] else 0
    ensures r.Ok? ==> StartDescending(r.value)
  {
    if !UserExists(t, userId) then Err(NotFound)
    else Ok(BookingRepository.FindByBookerId(t.bookings, userId, BookingRepository.CriterionFor(state, now)))
  }

  /** `getOwnerBookings`: bookings of the requester's items in `state`, latest start first. */
  function GetOwnerBookings(t: Tables, userId: int, state: BookingState, now: int): (r: Result<seq<Booking>>)
    ensures r.Err? <==> !UserExists(t, userId)
    ensures r.Err? ==> r.error == NotFound
    ensures r.Ok? ==> forall x :: multiset(r.value)[x] == if OwnerOfItem(t.items, x.itemId) == Some(userId) && InState(x, state, now) then multiset(t.bookings)[x] else 0
    ensures r.Ok? ==> StartDescending(r.value)
  {
    if !UserExists(t, userId) then Err(NotFound)
    else Ok(BookingRepository.FindByItemOwnerId(t.bookings, t.items, userId, BookingRepository.CriterionFor(state, now)))
  }

  /** The service object; its repositories are the one store `db`. */
  class BookingService {
    const db: Db

    constructor (db: Db)
      ensures this.db == db
    {
      this.db := db;
    }

    /**
     * `createBooking`: on success a new row with a fresh id, the given
     * booker and item, the requested instants and status WAITING; on any
     * failure nothing is written.
     */
    method CreateBooking(draft: BookingDraft, itemId: int, bookerId: int) returns (r: Result<Booking>)
      requires db.Valid()
      modifies db
      ensures db.Valid()
      ensures r.Err? <==> CreationCheck(old(db.t), itemId, bookerId, draft).Fail?
      ensures r.Err? ==> r.error == CreationCheck(old(db.t), itemId, bookerId, draft).error
      ensures r.Err? ==> db.t == old(db.t) && db.nextId == old(db.nextId)
      ensures r.Ok? ==> r.value == Booking(old(db.nextId), itemId, bookerId, draft.start.value, draft.end.value, Status.Waiting)
      ensures r.Ok? ==> db.t == old(db.t).(bookings := old(db.t.bookings) + [r.value]) && db.nextId == old(db.nextId) + 1
    {
      var item := ItemById(db.t, itemId);
      if item.None? {
        return Err(NotFound);
      }
      var booker := UserById(db.t, bookerId);
      if booker.None? {
        return Err(NotFound);
      }
      var check := ValidateBookingCreation(item.value, bookerId, draft);
      if check.Fail? {
        return Err(check.error);
      }
      var saved := db.InsertBooking(Booking(0, item.value.id, booker.value.id, draft.start.value, draft.end.value, Status.Waiting));
      r := Ok(saved);
    }

    /**
     * `setApprovedOrRejected`: on success only the status of that booking
     * changes; on any failure nothing is written.
     */
    method SetApprovedOrRejected(bookingId: int, ownerId: int, approved: bool) returns (r: Result<Booking>)
      requires db.Valid()
      modifies db
      ensures db.Valid()
      ensures r == DecisionOf(old(db.t), bookingId, ownerId, approved)
      ensures db.t == if r.Ok? then old(db.t).(bookings := Replace(old(db.t.bookings), BookingKey, r.value)) else old(db.t)
      ensures db.nextId == old(db.nextId)
    {
      var found := BookingById(db.t, bookingId);
      if found.None? {
        return Err(NotFound);
      }
      var booking := found.value;
      var owner := AssertIsOwner(db.t.items, booking, ownerId);
      if owner.Fail? {
        return Err(owner.error);
      }
      var waiting := ValidateStatusIsWaiting(booking);
      if waiting.Fail? {
        return Err(waiting.error);
      }
      booking := booking.(status := Decided(approved));
      db.UpdateBooking(booking);
      r := Ok(booking);
    }
  }
}
