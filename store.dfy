/**
 * The database behind the repositories: one mutable object holding the
 * current rows of every table and the identity counter that assigns a
 * primary key to each inserted row (`GenerationType.IDENTITY`).
 */
module Store {
  import opened Common
  import opened Rows
  import opened Entities

  class Db {
    var t: Tables
    var nextId: int

    /** Every table is keyed by distinct ids drawn from the counter. */
    ghost predicate Valid()
      reads this
    {
      1 <= nextId && TablesKeyed(t, nextId)
    }

    constructor ()
      ensures Valid()
      ensures t == Tables([], [], [], [], []) && nextId == 1
    {
      t := Tables([], [], [], [], []);
      nextId := 1;
    }

    // ---- inserts: `save` of an entity whose id is null ----

    method InsertUser(u: User) returns (saved: User)
      requires Valid()
      modifies this
      ensures Valid()
      ensures saved == u.(id := old(nextId))
      ensures t == old(t).(users := old(t.users) + [saved])
      ensures nextId == old(nextId) + 1
      ensures UserById(t, saved.id) == Some(saved)
    {
      saved := u.(id := nextId);
      AppendFresh(t.users, UserKey, nextId, saved);
      AppendFreshFound(t.users, UserKey, nextId, saved);
      t := t.(users := t.users + [saved]);
      nextId := nextId + 1;
    }

    method InsertItem(i: Item) returns (saved: Item)
      requires Valid()
      modifies this
      ensures Valid()
      ensures saved == i.(id := old(nextId))
      ensures t == old(t).(items := old(t.items) + [saved])
      ensures nextId == old(nextId) + 1
      ensures ItemById(t, saved.id) == Some(saved)
    {
      saved := i.(id := nextId);
      AppendFresh(t.items, ItemKey, nextId, saved);
      AppendFreshFound(t.items, ItemKey, nextId, saved);
      t := t.(items := t.items + [saved]);
      nextId := nextId + 1;
    }

    method InsertBooking(b: Booking) returns (saved: Booking)
      requires Valid()
      modifies this
      ensures Valid()
      ensures saved == b.(id := old(nextId))
      ensures t == old(t).(bookings := old(t.bookings) + [saved])
      ensures nextId == old(nextId) + 1
      ensures BookingById(t, saved.id) == Some(saved)
    {
      saved := b.(id := nextId);
      AppendFresh(t.bookings, BookingKey, nextId, saved);
      AppendFreshFound(t.bookings, BookingKey, nextId, saved);
      t := t.(bookings := t.bookings + [saved]);
      nextId := nextId + 1;
    }

    method InsertRequest(r: ItemRequest) returns (saved: ItemRequest)
      requires Valid()
      modifies this
      ensures Valid()
      ensures saved == r.(id := old(nextId))
      ensures t == old(t).(requests := old(t.requests) + [saved])
      ensures nextId == old(nextId) + 1
      ensures RequestById(t, saved.id) == Some(saved)
    {
      saved := r.(id := nextId);
      AppendFresh(t.requests, RequestKey, nextId, saved);
      AppendFreshFound(t.requests, RequestKey, nextId, saved);
      t := t.(requests := t.requests + [saved]);
      nextId := nextId + 1;
    }

    method InsertComment(c: Comment) returns (saved: Comment)
      requires Valid()
      modifies this
      ensures Valid()
      ensures saved == c.(id := old(nextId))
      ensures t == old(t).(comments := old(t.comments) + [saved])
      ensures nextId == old(nextId) + 1
    {
      saved := c.(id := nextId);
      AppendFresh(t.comments, CommentKey, nextId, saved);
      t := t.(comments := t.comments + [saved]);
      nextId := nextId + 1;
    }

    // ---- updates: `save` of an entity whose id is already stored ----

    method UpdateUser(u: User)
      requires Valid() && UserById(t, u.id).Some?
      modifies this
      ensures Valid()
      ensures t == old(t).(users := Replace(old(t.users), UserKey, u))
      ensures nextId == old(nextId)
      ensures UserById(t, u.id) == Some(u)
    {
      FindReplaced(t.users, UserKey, u);
      ReplaceKeepsKeys(t.users, UserKey, nextId, u);
      t := t.(users := Replace(t.users, UserKey, u));
    }

    method UpdateItem(i: Item)
      requires Valid() && ItemById(t, i.id).Some?
      modifies this
      ensures Valid()
      ensures t == old(t).(items := Replace(old(t.items), ItemKey, i))
      ensures nextId == old(nextId)
      ensures ItemById(t, i.id) == Some(i)
    {
      FindReplaced(t.items, ItemKey, i);
      ReplaceKeepsKeys(t.items, ItemKey, nextId, i);
      t := t.(items := Replace(t.items, ItemKey, i));
    }

    method UpdateBooking(b: Booking)
      requires Valid() && BookingById(t, b.id).Some?
      modifies this
      ensures Valid()
      ensures t == old(t).(bookings := Replace(old(t.bookings), BookingKey, b))
      ensures nextId == old(nextId)
      ensures BookingById(t, b.id) == Some(b)
    {
      FindReplaced(t.bookings, BookingKey, b);
      ReplaceKeepsKeys(t.bookings, BookingKey, nextId, b);
      t := t.(bookings := Replace(t.bookings, BookingKey, b));
    }

    // ---- deletes: `deleteById` ----

    method DeleteUser(id: int)
      requires Valid()
      modifies this
      ensures Valid()
      ensures t == old(t).(users := Remove(old(t.users), UserKey, id))
      ensures nextId == old(nextId)
      ensures UserById(t, id).None?
    {
      RemoveKeepsKeys(t.users, UserKey, nextId, id);
      t := t.(users := Remove(t.users, UserKey, id));
    }

    method DeleteItem(id: int)
      requires Valid()
      modifies this
      ensures Valid()
      ensures t == old(t).(items := Remove(old(t.items), ItemKey, id))
      ensures nextId == old(nextId)
      ensures ItemById(t, id).None?
    {
      RemoveKeepsKeys(t.items, ItemKey, nextId, id);
      t := t.(items := Remove(t.items, ItemKey, id));
    }
  }
}
