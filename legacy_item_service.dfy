/**
 * The older item service. It differs from the newer one in three places:
 * an item without an owner is NotFound rather than Forbidden, its owner
 * listing asks the single-item booking queries once per item, and it knows
 * nothing about requests. Its patching and search are the newer service's.
 */
module LegacyItemService {
  import opened Common
  import opened Rows
  import opened Entities
  import opened Store
  import BookingRepository
  import LegacyBookingRepository
  import ItemRepository
  import CommentRepository
  import ItemService

  /** `assertOwner`: a missing owner is NotFound, another owner is Forbidden. */
  function AssertOwner(item: Item, ownerId: int): (r: Outcome)
    ensures r == Pass <==> ItemService.IsOwner(item, ownerId)
    ensures r.Fail? ==> r.error == if item.ownerId.None? then NotFound else Forbidden
  {
    if item.ownerId.None? then Fail(NotFound)
    else if item.ownerId.value != ownerId then Fail(Forbidden)
    else Pass
  }

  /** Both services admit exactly the owner; they differ only in how they refuse an ownerless item. */
  lemma AssertOwnerAgreesWithServer(item: Item, ownerId: int)
    ensures AssertOwner(item, ownerId).Pass? <==> ItemService.AssertOwner(item, ownerId).Pass?
    ensures item.ownerId.Some? ==> AssertOwner(item, ownerId) == ItemService.AssertOwner(item, ownerId)
  {
  }

  /** `findById`: the caller must exist, then the item. */
  function FindById(t: Tables, userId: int, itemId: int): (r: Result<Item>)
    ensures r.Err? <==> !UserExists(t, userId) || ItemById(t, itemId).None?
    ensures r.Err? ==> r.error == NotFound
    ensures r.Ok? ==> r.value in t.items && r.value.id == itemId
  {
    if !UserExists(t, userId) then Err(NotFound)
    else
      match ItemById(t, itemId)
      case None => Err(NotFound)
      case Some(item) => Ok(item)
  }

  /** `getAllByOwner`: the caller must exist; then exactly the items they own. */
  function GetAllByOwner(t: Tables, ownerId: int): (r: Result<seq<Item>>)
    ensures r.Err? <==> !UserExists(t, ownerId)
    ensures r.Err? ==> r.error == NotFound
    ensures r.Ok? ==> forall i :: i in r.value <==> i in t.items && i.ownerId == Some(ownerId)
    ensures r.Ok? ==> forall i :: multiset(r.value)[i] == if i.ownerId == Some(ownerId) then multiset(t.items)[i] else 0
  {
    if !UserExists(t, ownerId) then Err(NotFound)
    else Ok(ItemRepository.FindAllByOwnerId(t.items, ownerId))
  }

  /**
   * `findFirst` of `findLastApproved` is the newer single-item "last" query:
   * the JPQL query and the derived finder select the same rows in the same
   * order, so their first rows coincide.
   */
  lemma FirstOfLastApproved(bookings: seq<Booking>, itemId: int, now: int)
    ensures Head(LegacyBookingRepository.FindLastApproved(bookings, itemId, now))
         == BookingRepository.FindFirstLast(bookings, itemId, Status.Approved, now)
  {
  }

  /**
   * `findFirst` of `findNextApproved` is the newer single-item "next" query,
   * for the same reason: one filter and one order.
   */
  lemma FirstOfNextApproved(bookings: seq<Booking>, itemId: int, now: int)
    ensures Head(LegacyBookingRepository.FindNextApproved(bookings, itemId, now))
         == BookingRepository.FindFirstNext(bookings, itemId, Status.Approved, now)
  {
  }

  /**
   * `getItemWithComments`: the same checks, and for the owner the first row
   * of the last and next lists; the view is the one the newer service builds.
   */
  function GetItemWithComments(t: Tables, requesterId: int, itemId: int, now: int): (r: Result<ItemService.ItemDetails>)
    ensures r == ItemService.GetItemWithComments(t, requesterId, itemId, now)
  {
    if !UserExists(t, requesterId) then Err(NotFound)
    else
      match ItemById(t, itemId)
      case None => Err(NotFound)
      case Some(item) =>
        var comments := CommentRepository.FindByItemId(t.comments, itemId);
        if item.ownerId.Some? && item.ownerId.value == requesterId then
          FirstOfLastApproved(t.bookings, itemId, now);
          FirstOfNextApproved(t.bookings, itemId, now);
          Ok(ItemService.ItemDetails(item,
            Head(LegacyBookingRepository.FindLastApproved(t.bookings, itemId, now)),
            Head(LegacyBookingRepository.FindNextApproved(t.bookings, itemId, now)),
            comments))
        else Ok(ItemService.ItemDetails(item, None, None, comments))
  }

  /** What the newer listing promises, and moreover the very last and next bookings of the single-item queries. */
  predicate EntryExact(t: Tables, e: ItemService.ItemDetails, now: int) {
    && ItemService.EntryAgrees(t, e, now)
    && e.last == BookingRepository.FindFirstLast(t.bookings, e.item.id, Status.Approved, now)
    && e.next == BookingRepository.FindFirstNext(t.bookings, e.item.id, Status.Approved, now)
  }

  /** One entry of the owner listing: per-item booking queries, comments from the grouped batch. */
  function OwnerEntry(t: Tables, byItem: map<int, seq<Comment>>, item: Item, now: int): ItemService.ItemDetails {
    ItemService.ItemDetails(item,
      Head(LegacyBookingRepository.FindLastApproved(t.bookings, item.id, now)),
      Head(LegacyBookingRepository.FindNextApproved(t.bookings, item.id, now)),
      GetOrEmpty(byItem, item.id))
  }

  /**
   * `getAllByOwnerWithComments`: one entry per owned item, in order; the
   * last and next bookings are exactly those of the single-item queries,
   * and the comments are the item's own, newest first.
   */
  function GetAllByOwnerWithComments(t: Tables, ownerId: int, now: int): (r: Result<seq<ItemService.ItemDetails>>)
    ensures r.Err? <==> !UserExists(t, ownerId)
    ensures r.Err? ==> r.error == NotFound
    ensures r.Ok? ==> |r.value| == |ItemRepository.FindAllByOwnerId(t.items, ownerId)|
    ensures r.Ok? ==> forall i :: 0 <= i < |r.value| ==> r.value[i].item == ItemRepository.FindAllByOwnerId(t.items, ownerId)[i]
    ensures r.Ok? ==> forall i :: 0 <= i < |r.value| ==> EntryExact(t, r.value[i], now)
  {
    if !UserExists(t, ownerId) then Err(NotFound)
    else
      var items := ItemRepository.FindAllByOwnerId(t.items, ownerId);
      if items == [] then Ok([])
      else
        Ok(OwnerEntries(t, items, now))
  }

  /** The entries for the listed items: comments fetched in one batch and grouped by item. */
  function OwnerEntries(t: Tables, items: seq<Item>, now: int): (r: seq<ItemService.ItemDetails>)
    ensures |r| == |items|
    ensures forall i :: 0 <= i < |r| ==> r[i].item == items[i] && EntryExact(t, r[i], now)
  {
    var itemIds := KeysOf(items, ItemKey);
    var byItem := GroupBy(CommentRepository.FindByItemIdIn(t.comments, itemIds), CommentRepository.CommentItem);
    OwnerEntriesAgree(t, itemIds, items, now);
    seq(|items|, i requires 0 <= i < |items| => OwnerEntry(t, byItem, items[i], now))
  }

  /** Every listed item's entry agrees with the single-item queries. */
  lemma OwnerEntriesAgree(t: Tables, itemIds: seq<int>, items: seq<Item>, now: int)
    requires |itemIds| == |items| && forall i :: 0 <= i < |items| ==> itemIds[i] == items[i].id
    ensures forall i :: 0 <= i < |items| ==>
      EntryExact(t, OwnerEntry(t, GroupBy(CommentRepository.FindByItemIdIn(t.comments, itemIds), CommentRepository.CommentItem), items[i], now), now)
  {
    forall i | 0 <= i < |items|
      ensures EntryExact(t, OwnerEntry(t, GroupBy(CommentRepository.FindByItemIdIn(t.comments, itemIds), CommentRepository.CommentItem), items[i], now), now)
    {
      assert items[i].id == itemIds[i];
      OwnerEntryAgrees(t, itemIds, items[i], now);
    }
  }

  /** A listed item's entry agrees with the single-item queries. */
  lemma OwnerEntryAgrees(t: Tables, itemIds: seq<int>, item: Item, now: int)
    requires item.id in itemIds
    ensures EntryExact(t, OwnerEntry(t, GroupBy(CommentRepository.FindByItemIdIn(t.comments, itemIds), CommentRepository.CommentItem), item, now), now)
  {
    FirstOfLastApproved(t.bookings, item.id, now);
    FirstOfNextApproved(t.bookings, item.id, now);
    CommentRepository.BatchGroupIsItemComments(t.comments, itemIds, item.id);
  }

  class LegacyItemService {
    const db: Db

    constructor (db: Db)
      ensures this.db == db
    {
      this.db := db;
    }

    /** `createItem`: the owner must exist; the item is stored under a fresh id, owned by `ownerId`. */
    method CreateItem(item: Item, ownerId: int) returns (r: Result<Item>)
      requires db.Valid()
      modifies db
      ensures db.Valid()
      ensures r.Err? <==> !UserExists(old(db.t), ownerId)
      ensures r.Err? ==> r.error == NotFound && db.t == old(db.t) && db.nextId == old(db.nextId)
      ensures r.Ok? ==> r.value == item.(id := old(db.nextId), ownerId := Some(ownerId))
      ensures r.Ok? ==> db.t == old(db.t).(items := old(db.t.items) + [r.value]) && db.nextId == old(db.nextId) + 1
      ensures r.Ok? ==> ItemById(db.t, r.value.id) == Some(r.value)
    {
      var owner := UserById(db.t, ownerId);
      if owner.None? {
        return Err(NotFound);
      }
      var saved := db.InsertItem(item.(id := 0, ownerId := Some(owner.value.id)));
      r := Ok(saved);
    }

    /** `updateItem`: unknown item, then ownership, then the patch, as in the newer service. */
    method UpdateItem(ownerId: int, itemId: int, patch: Item) returns (r: Result<Item>)
      requires db.Valid()
      modifies db
      ensures db.Valid()
      ensures r.Err? <==> ItemById(old(db.t), itemId).None? || !ItemService.IsOwner(ItemById(old(db.t), itemId).value, ownerId) || !ItemService.PatchValid(patch)
      ensures r.Err? ==> r.error == (if ItemById(old(db.t), itemId).None? || ItemById(old(db.t), itemId).value.ownerId.None? then NotFound
                                     else if !ItemService.IsOwner(ItemById(old(db.t), itemId).value, ownerId) then Forbidden
                                     else Validation)
      ensures r.Err? ==> db.t == old(db.t)
      ensures r.Ok? ==> r.value == ItemService.Patched(ItemById(old(db.t), itemId).value, patch)
      ensures r.Ok? ==> db.t == old(db.t).(items := Replace(old(db.t.items), ItemKey, r.value)) && ItemById(db.t, itemId) == Some(r.value)
      ensures db.nextId == old(db.nextId)
    {
      var existing := ItemById(db.t, itemId);
      if existing.None? {
        return Err(NotFound);
      }
      var owner := AssertOwner(existing.value, ownerId);
      if owner.Fail? {
        return Err(owner.error);
      }
      r := ItemService.ApplyPatch(existing.value, patch);
      if r.Ok? {
        db.UpdateItem(r.value);
      }
    }

    /** `deleteItem`: unknown item or missing owner is NotFound, another owner Forbidden. */
    method DeleteItem(ownerId: int, itemId: int) returns (r: Outcome)
      requires db.Valid()
      modifies db
      ensures db.Valid()
      ensures r == Pass <==> ItemById(old(db.t), itemId).Some? && ItemService.IsOwner(ItemById(old(db.t), itemId).value, ownerId)
      ensures r.Fail? ==> r.error == if ItemById(old(db.t), itemId).None? || ItemById(old(db.t), itemId).value.ownerId.None? then NotFound else Forbidden
      ensures r.Fail? ==> db.t == old(db.t)
      ensures r == Pass ==> db.t == old(db.t).(items := Remove(old(db.t.items), ItemKey, itemId)) && ItemById(db.t, itemId).None?
      ensures db.nextId == old(db.nextId)
    {
      var item := ItemById(db.t, itemId);
      if item.None? {
        return Fail(NotFound);
      }
      r := AssertOwner(item.value, ownerId);
      if r == Pass {
        db.DeleteItem(itemId);
      }
    }

    /** `addComment`: author, item, then a finished approved booking by the author. */
    method AddComment(authorId: int, itemId: int, text: Option<string>, now: int) returns (r: Result<Comment>)
      requires db.Valid()
      modifies db
      ensures db.Valid()
      ensures r.Err? <==>
        || !UserExists(old(db.t), authorId) || ItemById(old(db.t), itemId).None?
        || !LegacyBookingRepository.HasFinishedBooking(old(db.t).bookings, itemId, authorId, Status.Approved, now)
      ensures r.Err? ==> r.error == if !UserExists(old(db.t), authorId) || ItemById(old(db.t), itemId).None? then NotFound else Validation
      ensures r.Err? ==> db.t == old(db.t) && db.nextId == old(db.nextId)
      ensures r.Ok? ==> r.value == Comment(old(db.nextId), text, itemId, authorId, now)
      ensures r.Ok? ==> db.t == old(db.t).(comments := old(db.t.comments) + [r.value]) && db.nextId == old(db.nextId) + 1
    {
      var author := UserById(db.t, authorId);
      if author.None? {
        return Err(NotFound);
      }
      var item := ItemById(db.t, itemId);
      if item.None? {
        return Err(NotFound);
      }
      if !LegacyBookingRepository.HasFinishedBooking(db.t.bookings, itemId, authorId, Status.Approved, now) {
        return Err(Validation);
      }
      var saved := db.InsertComment(Comment(0, text, item.value.id, author.value.id, now));
      r := Ok(saved);
    }
  }
}
