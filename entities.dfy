/**
 * The persistent entities of the server (users, items, bookings, item
 * requests, comments) as row values, and a snapshot of all tables. Every
 * column the Java entity may leave null is an `Option`.
 */
module Entities {
  import opened Common
  import opened Rows

  /** The lifecycle status stored on a booking. */
  datatype Status = Waiting | Approved | Rejected

  /** A stored booking; both instants are present once it is saved. */
  datatype Booking = Booking(id: int, itemId: int, bookerId: int, start: int, end: int, status: Status)

  /** The start and end a client sends when it asks to book (either may be null). */
  datatype BookingDraft = BookingDraft(start: Option<int>, end: Option<int>)

  datatype Item = Item(
    id: int,
    ownerId: Option<int>,
    name: Option<string>,
    description: Option<string>,
    available: Option<bool>,
    requestId: Option<int>)

  datatype User = User(id: int, name: Option<string>, email: Option<string>)

  datatype ItemRequest = ItemRequest(id: int, description: Option<string>, requestorId: int, created: int)

  datatype Comment = Comment(id: int, text: Option<string>, itemId: int, authorId: int, created: int)

  /** The contents of every table at one moment. */
  datatype Tables = Tables(
    users: seq<User>,
    items: seq<Item>,
    bookings: seq<Booking>,
    requests: seq<ItemRequest>,
    comments: seq<Comment>)

  // Primary-key columns.
  function UserKey(u: User): int { u.id }
  function ItemKey(i: Item): int { i.id }
  function BookingKey(b: Booking): int { b.id }
  function RequestKey(r: ItemRequest): int { r.id }
  function CommentKey(c: Comment): int { c.id }

  function UserById(t: Tables, id: int): Option<User> { Find(t.users, UserKey, id) }
  function ItemById(t: Tables, id: int): Option<Item> { Find(t.items, ItemKey, id) }
  function BookingById(t: Tables, id: int): Option<Booking> { Find(t.bookings, BookingKey, id) }
  function RequestById(t: Tables, id: int): Option<ItemRequest> { Find(t.requests, RequestKey, id) }

  /** `userRepository.existsById`. */
  predicate UserExists(t: Tables, id: int) {
    UserById(t, id).Some?
  }

  /**
   * `item.owner.id` through the item a booking refers to: absent when the
   * item is gone or has no owner.
   */
  function OwnerOfItem(items: seq<Item>, itemId: int): (r: Option<int>)
    ensures r.Some? ==> exists i :: i in items && i.id == itemId && i.ownerId == r
  {
    match Find(items, ItemKey, itemId)
    case None => None
    case Some(i) => i.ownerId
  }

  /** The table invariant of every table. */
  predicate TablesKeyed(t: Tables, next: int) {
    && WellKeyed(t.users, UserKey, next)
    && WellKeyed(t.items, ItemKey, next)
    && WellKeyed(t.bookings, BookingKey, next)
    && WellKeyed(t.requests, RequestKey, next)
    && WellKeyed(t.comments, CommentKey, next)
  }

  /** No two users with different ids hold the same email (the `unique` constraint on the column). */
  predicate EmailsUnique(users: seq<User>) {
    forall u, v :: u in users && v in users && u.email == v.email ==> u.id == v.id
  }

  /** `existsByEmail` (a null argument matches a null column, as Spring Data derives `is null`). */
  predicate EmailTaken(users: seq<User>, email: Option<string>) {
    exists u :: u in users && u.email == email
  }

  /** `existsByEmailAndIdNot`: the email is held by a user other than `id`. */
  predicate EmailTakenByOther(users: seq<User>, email: Option<string>, id: int) {
    exists u :: u in users && u.email == email && u.id != id
  }

  /** Inserting a user under a fresh id keeps emails unique when the email was not taken. */
  lemma InsertKeepsEmailsUnique(users: seq<User>, u: User)
    requires EmailsUnique(users) && !EmailTaken(users, u.email)
    ensures EmailsUnique(users + [u])
  {
  }

  /**
   * Saving a changed user keeps emails unique when the user keeps their own
   * email or takes one nobody else holds.
   */
  lemma ReplaceKeepsEmailsUnique(users: seq<User>, existing: User, u: User)
    requires EmailsUnique(users) && existing in users && existing.id == u.id
    requires u.email == existing.email || !EmailTakenByOther(users, u.email, u.id)
    ensures EmailsUnique(Replace(users, UserKey, u))
  {
    var r := Replace(users, UserKey, u);
    forall x | x in r ensures x == u || (x in users && x.id != u.id) {
      var i :| 0 <= i < |r| && r[i] == x;
    }
  }

  /** Deleting users keeps emails unique. */
  lemma RemoveKeepsEmailsUnique(users: seq<User>, id: int)
    requires EmailsUnique(users)
    ensures EmailsUnique(Remove(users, UserKey, id))
  {
  }
}
