/**
 * The derived finder methods of the booking repository. Each method name
 * spells out a `where` clause and an `order by`; here each one is a
 * selection followed by an ordering over the stored bookings.
 */
module BookingRepository {
  import opened Common
  import opened Rows
  import opened Entities
  import opened BookingStates

  /** The condition part of a derived finder name, after the booker or owner. */
  datatype Criterion =
    | NoCondition                                              // findBy…Id
    | StartLessThanEqualAndEndGreaterThanEqual(now1: int, now2: int)
    | EndLessThan(now: int)
    | StartGreaterThan(now: int)
    | StatusIs(status: Status)

  predicate Matches(b: Booking, c: Criterion) {
    match c
    case NoCondition => true
    case StartLessThanEqualAndEndGreaterThanEqual(now1, now2) => b.start <= now1 && b.end >= now2
    case EndLessThan(now) => b.end < now
    case StartGreaterThan(now) => b.start > now
    case StatusIs(s) => b.status == s
  }

  /** `findByBookerId…OrderByStartTimeBookingDesc`. */
  function FindByBookerId(bookings: seq<Booking>, userId: int, c: Criterion): (r: seq<Booking>)
    ensures forall x :: multiset(r)[x] == if x.bookerId == userId && Matches(x, c) then multiset(bookings)[x] else 0
    ensures forall x :: x in r ==> x.bookerId == userId
    ensures StartDescending(r)
  {
    var r := Select(bookings, (b: Booking) => b.bookerId == userId && Matches(b, c), StartDesc);
    StartDescKeyOrders(r);
    r
  }

  /** `findByItemOwnerId…OrderByStartTimeBookingDesc`: the join through `item.owner`. */
  function FindByItemOwnerId(bookings: seq<Booking>, items: seq<Item>, ownerId: int, c: Criterion): (r: seq<Booking>)
    ensures forall x :: multiset(r)[x] == if OwnerOfItem(items, x.itemId) == Some(ownerId) && Matches(x, c) then multiset(bookings)[x] else 0
    ensures forall x :: x in r ==> OwnerOfItem(items, x.itemId) == Some(ownerId)
    ensures StartDescending(r)
  {
    var r := Select(bookings, (b: Booking) => OwnerOfItem(items, b.itemId) == Some(ownerId) && Matches(b, c), StartDesc);
    StartDescKeyOrders(r);
    r
  }

  /** `existsByItemIdAndBookerIdAndStatusAndEndTimeBookingLessThan`. */
  function ExistsFinished(bookings: seq<Booking>, itemId: int, bookerId: int, status: Status, now: int): (r: bool)
    ensures r <==> exists b :: b in bookings && b.itemId == itemId && b.bookerId == bookerId && b.status == status && b.end < now
  {
    var f := Filter(bookings, (b: Booking) => b.itemId == itemId && b.bookerId == bookerId && b.status == status && b.end < now);
    assert |f| > 0 ==> f[0] in f;
    |f| > 0
  }

  /** A candidate for the "last" booking of an item: the status matches and it has started. */
  predicate LastCandidate(b: Booking, itemId: int, status: Status, now: int) {
    b.itemId == itemId && b.status == status && b.start <= now
  }

  /** A candidate for the "next" booking of an item: the status matches and it has not started. */
  predicate NextCandidate(b: Booking, itemId: int, status: Status, now: int) {
    b.itemId == itemId && b.status == status && b.start > now
  }

  /**
   * `findFirstByItemIdAndStatusAndStartTimeBookingLessThanEqualOrderByStartTimeBookingDesc`:
   * a candidate with the greatest start, or nothing when there is none.
   */
  function FindFirstLast(bookings: seq<Booking>, itemId: int, status: Status, now: int): (r: Option<Booking>)
    ensures r.None? <==> forall b :: b in bookings ==> !LastCandidate(b, itemId, status, now)
    ensures r.Some? ==> r.value in bookings && LastCandidate(r.value, itemId, status, now)
    ensures r.Some? ==> forall b :: b in bookings && LastCandidate(b, itemId, status, now) ==> b.start <= r.value.start
  {
    var s := Select(bookings, (b: Booking) => LastCandidate(b, itemId, status, now), StartDesc);
    if s == [] then None
    else
      assert forall b :: b in bookings && LastCandidate(b, itemId, status, now) ==> b.start <= s[0].start by {
        forall b | b in bookings && LastCandidate(b, itemId, status, now) ensures b.start <= s[0].start {
          SortedHeadLeast(s, StartDesc, b);
        }
      }
      Some(s[0])
  }

  /**
   * `findFirstByItemIdAndStatusAndStartTimeBookingGreaterThanOrderByStartTimeBookingAsc`:
   * a candidate with the smallest start, or nothing when there is none.
   */
  function FindFirstNext(bookings: seq<Booking>, itemId: int, status: Status, now: int): (r: Option<Booking>)
    ensures r.None? <==> forall b :: b in bookings ==> !NextCandidate(b, itemId, status, now)
    ensures r.Some? ==> r.value in bookings && NextCandidate(r.value, itemId, status, now)
    ensures r.Some? ==> forall b :: b in bookings && NextCandidate(b, itemId, status, now) ==> r.value.start <= b.start
  {
    var s := Select(bookings, (b: Booking) => NextCandidate(b, itemId, status, now), StartAsc);
    if s == [] then None
    else
      assert forall b :: b in bookings && NextCandidate(b, itemId, status, now) ==> s[0].start <= b.start by {
        forall b | b in bookings && NextCandidate(b, itemId, status, now) ensures s[0].start <= b.start {
          SortedHeadLeast(s, StartAsc, b);
        }
      }
      Some(s[0])
  }

  /** The last booking has started and the next has not, so they never coincide. */
  lemma LastBeforeNext(bookings: seq<Booking>, itemId: int, status: Status, now: int)
    ensures FindFirstLast(bookings, itemId, status, now).Some? ==> FindFirstLast(bookings, itemId, status, now).value.start <= now
    ensures FindFirstNext(bookings, itemId, status, now).Some? ==> now < FindFirstNext(bookings, itemId, status, now).value.start
    ensures FindFirstLast(bookings, itemId, status, now).Some? && FindFirstNext(bookings, itemId, status, now).Some? ==>
      FindFirstLast(bookings, itemId, status, now).value != FindFirstNext(bookings, itemId, status, now).value
  {
  }

  /**
   * `findByItemIdInAndStatusAndStartTimeBookingLessThanEqualOrderByItemIdAscStartTimeBookingDesc`:
   * last candidates of all the given items, grouped by item, latest start first.
   */
  function FindLastForItems(bookings: seq<Booking>, itemIds: seq<int>, status: Status, now: int): (r: seq<Booking>)
    ensures forall x :: multiset(r)[x] == if x.itemId in itemIds && LastCandidate(x, x.itemId, status, now) then multiset(bookings)[x] else 0
    ensures forall x :: x in r <==> x in bookings && x.itemId in itemIds && LastCandidate(x, x.itemId, status, now)
    ensures SortedBy(r, ItemAscStartDesc)
  {
    Select(bookings, (b: Booking) => b.itemId in itemIds && LastCandidate(b, b.itemId, status, now), ItemAscStartDesc)
  }

  /**
   * `findByItemIdInAndStatusAndStartTimeBookingGreaterThanOrderByItemIdAscStartTimeBookingAsc`:
   * next candidates of all the given items, grouped by item, earliest start first.
   */
  function FindNextForItems(bookings: seq<Booking>, itemIds: seq<int>, status: Status, now: int): (r: seq<Booking>)
    ensures forall x :: multiset(r)[x] == if x.itemId in itemIds && NextCandidate(x, x.itemId, status, now) then multiset(bookings)[x] else 0
    ensures forall x :: x in r <==> x in bookings && x.itemId in itemIds && NextCandidate(x, x.itemId, status, now)
    ensures SortedBy(r, ItemAscStartAsc)
  {
    Select(bookings, (b: Booking) => b.itemId in itemIds && NextCandidate(b, b.itemId, status, now), ItemAscStartAsc)
  }

  /** The finder the booking service calls for a listing `state` at `now`. */
  function CriterionFor(state: BookingState, now: int): (c: Criterion)
    ensures forall b :: Matches(b, c) <==> InState(b, state, now)
  {
    match state
    case All => NoCondition
    case Current => StartLessThanEqualAndEndGreaterThanEqual(now, now)
    case Past => EndLessThan(now)
    case Future => StartGreaterThan(now)
    case Waiting => StatusIs(Status.Waiting)
    case Rejected => StatusIs(Status.Rejected)
  }
}
