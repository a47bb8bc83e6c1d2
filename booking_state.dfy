/**
 * The `state` a client asks for when it lists bookings, what each state
 * means for a booking at a given instant, and the orderings the booking
 * queries use.
 */
module BookingStates {
  import opened Common
  import opened Rows
  import opened Entities

  datatype BookingState = All | Current | Past | Future | Waiting | Rejected

  /** `BookingState.name()`. */
  function Name(state: BookingState): (r: string)
    ensures |r| >= 3
  {
    match state
    case All => "ALL"
    case Current => "CURRENT"
    case Past => "PAST"
    case Future => "FUTURE"
    case Waiting => "WAITING"
    case Rejected => "REJECTED"
  }

  /** Different states have different names, so a name selects one state. */
  lemma NameInjective(s1: BookingState, s2: BookingState)
    requires Name(s1) == Name(s2)
    ensures s1 == s2
  {
  }

  /**
   * The booking belongs to `state` at `now`: CURRENT has started and not yet
   * ended, PAST has ended, FUTURE has not started, and the two status states
   * look only at the status.
   */
  predicate InState(b: Booking, state: BookingState, now: int) {
    match state
    case All => true
    case Current => b.start <= now && b.end >= now
    case Past => b.end < now
    case Future => b.start > now
    case Waiting => b.status == Status.Waiting
    case Rejected => b.status == Status.Rejected
  }

  // ---- orderings (`order by`) as ascending keys ----

  /** `order by start desc`. */
  function StartDesc(b: Booking): Key { (0, -b.start) }

  /** `order by start asc`. */
  function StartAsc(b: Booking): Key { (0, b.start) }

  /** `order by item.id asc, start desc`. */
  function ItemAscStartDesc(b: Booking): Key { (b.itemId, -b.start) }

  /** `order by item.id asc, start asc`. */
  function ItemAscStartAsc(b: Booking): Key { (b.itemId, b.start) }

  predicate StartDescending(s: seq<Booking>) {
    forall i, j :: 0 <= i < j < |s| ==> s[i].start >= s[j].start
  }

  predicate StartAscending(s: seq<Booking>) {
    forall i, j :: 0 <= i < j < |s| ==> s[i].start <= s[j].start
  }

  /** Rows sorted on the `order by start desc` key are in descending start order. */
  lemma StartDescKeyOrders(s: seq<Booking>)
    requires SortedBy(s, StartDesc)
    ensures StartDescending(s)
  {
    forall i, j | 0 <= i < j < |s| ensures s[i].start >= s[j].start {
      assert KeyLe(StartDesc(s[i]), StartDesc(s[j]));
    }
  }

  lemma StartAscKeyOrders(s: seq<Booking>)
    requires SortedBy(s, StartAsc)
    ensures StartAscending(s)
  {
    forall i, j | 0 <= i < j < |s| ensures s[i].start <= s[j].start {
      assert KeyLe(StartAsc(s[i]), StartAsc(s[j]));
    }
  }
}
