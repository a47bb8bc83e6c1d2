/**
 * The older booking repository, whose listings are one JPQL query each: the
 * requested state arrives as its name and selects one row of a predicate
 * table over (start, end, status, now).
 */
module LegacyBookingRepository {
  import opened Common
  import opened Rows
  import opened Entities
  import opened BookingStates
  import BookingRepository

  /** The state disjunction of the listing queries, for a state given by name. */
  predicate StateClause(b: Booking, state: string, now: int) {
    || state == "ALL"
    || (state == "CURRENT" && b.start <= now && b.end >= now)
    || (state == "PAST" && b.end < now)
    || (state == "FUTURE" && b.start > now)
    || (state == "WAITING" && b.status == Status.Waiting)
    || (state == "REJECTED" && b.status == Status.Rejected)
  }

  /** The table row selected by a state's own name is that state's meaning. */
  lemma StateClauseByName(b: Booking, state: BookingState, now: int)
    ensures StateClause(b, Name(state), now) <==> InState(b, state, now)
  {
  }

  /** A name outside the table admits no booking. */
  lemma UnknownStateSelectsNothing(b: Booking, state: string, now: int)
    requires forall s: BookingState :: Name(s) != state
    ensures !StateClause(b, state, now)
  {
    assert Name(All) != state && Name(Current) != state && Name(Past) != state;
    assert Name(Future) != state && Name(BookingState.Waiting) != state && Name(BookingState.Rejected) != state;
  }

  /** `findAllForBooker`. */
  function FindAllForBooker(bookings: seq<Booking>, userId: int, state: string, now: int): (r: seq<Booking>)
    ensures forall x :: multiset(r)[x] == if x.bookerId == userId && StateClause(x, state, now) then multiset(bookings)[x] else 0
    ensures StartDescending(r)
  {
    var r := Select(bookings, (b: Booking) => b.bookerId == userId && StateClause(b, state, now), StartDesc);
    StartDescKeyOrders(r);
    r
  }

  /** `findAllForOwner`: the same table, scoped by `item.owner.id`. */
  function FindAllForOwner(bookings: seq<Booking>, items: seq<Item>, userId: int, state: string, now: int): (r: seq<Booking>)
    ensures forall x :: multiset(r)[x] == if OwnerOfItem(items, x.itemId) == Some(userId) && StateClause(x, state, now) then multiset(bookings)[x] else 0
    ensures StartDescending(r)
  {
    var r := Select(bookings, (b: Booking) => OwnerOfItem(items, b.itemId) == Some(userId) && StateClause(b, state, now), StartDesc);
    StartDescKeyOrders(r);
    r
  }

  /** `hasFinishedBooking`: `count(b) > 0` over the matching bookings. */
  function HasFinishedBooking(bookings: seq<Booking>, itemId: int, bookerId: int, status: Status, now: int): (r: bool)
    ensures r <==> exists b :: b in bookings && b.itemId == itemId && b.bookerId == bookerId && b.status == status && b.end < now
  {
    var f := Filter(bookings, (b: Booking) => b.itemId == itemId && b.bookerId == bookerId && b.status == status && b.end < now);
    assert |f| > 0 ==> f[0] in f;
    |f| > 0
  }

  /** `findLastApproved`: approved bookings of the item that have started, latest first. */
  function FindLastApproved(bookings: seq<Booking>, itemId: int, now: int): (r: seq<Booking>)
    ensures forall x :: x in r <==> x in bookings && BookingRepository.LastCandidate(x, itemId, Status.Approved, now)
    ensures forall x :: multiset(r)[x] == if BookingRepository.LastCandidate(x, itemId, Status.Approved, now) then multiset(bookings)[x] else 0
    ensures StartDescending(r)
  {
    var r := Select(bookings, (b: Booking) => BookingRepository.LastCandidate(b, itemId, Status.Approved, now), StartDesc);
    StartDescKeyOrders(r);
    r
  }

  /** `findNextApproved`: approved bookings of the item that have not started, earliest first. */
  function FindNextApproved(bookings: seq<Booking>, itemId: int, now: int): (r: seq<Booking>)
    ensures forall x :: x in r <==> x in bookings && BookingRepository.NextCandidate(x, itemId, Status.Approved, now)
    ensures forall x :: multiset(r)[x] == if BookingRepository.NextCandidate(x, itemId, Status.Approved, now) then multiset(bookings)[x] else 0
    ensures StartAscending(r)
  {
    var r := Select(bookings, (b: Booking) => BookingRepository.NextCandidate(b, itemId, Status.Approved, now), StartAsc);
    StartAscKeyOrders(r);
    r
  }

  /** No booking is both a last and a next candidate: every last one starts before every next one. */
  lemma LastAndNextDisjoint(bookings: seq<Booking>, itemId: int, now: int)
    ensures forall x, y :: x in FindLastApproved(bookings, itemId, now) && y in FindNextApproved(bookings, itemId, now) ==> x.start < y.start
    ensures forall x :: !(x in FindLastApproved(bookings, itemId, now) && x in FindNextApproved(bookings, itemId, now))
  {
  }

  /** Both repositories pick the same row for the same state, and list it in the same order. */
  lemma BookerListingsAgree(bookings: seq<Booking>, userId: int, state: BookingState, now: int)
    ensures FindAllForBooker(bookings, userId, Name(state), now)
         == BookingRepository.FindByBookerId(bookings, userId, BookingRepository.CriterionFor(state, now))
  {
    var c := BookingRepository.CriterionFor(state, now);
    FilterCongruent(bookings,
      (b: Booking) => b.bookerId == userId && StateClause(b, Name(state), now),
      (b: Booking) => b.bookerId == userId && BookingRepository.Matches(b, c));
  }

  lemma OwnerListingsAgree(bookings: seq<Booking>, items: seq<Item>, userId: int, state: BookingState, now: int)
    ensures FindAllForOwner(bookings, items, userId, Name(state), now)
         == BookingRepository.FindByItemOwnerId(bookings, items, userId, BookingRepository.CriterionFor(state, now))
  {
    var c := BookingRepository.CriterionFor(state, now);
    FilterCongruent(bookings,
      (b: Booking) => OwnerOfItem(items, b.itemId) == Some(userId) && StateClause(b, Name(state), now),
      (b: Booking) => OwnerOfItem(items, b.itemId) == Some(userId) && BookingRepository.Matches(b, c));
  }
}
