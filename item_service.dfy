/**
 * The item service: creating, patching and deleting items, the item view
 * with comments and (for the owner) the last and next approved bookings,
 * the owner's listing built from batch queries, comments, and search.
 */
module ItemService {
  import opened Common
  import opened Rows
  import opened Entities
  import opened Store
  import BookingRepository
  import ItemRepository
  import CommentRepository
  import BookingStates

  /** `ItemDetailsDto`: an item with its last and next bookings (null when absent) and its comments. */
  datatype ItemDetails = ItemDetails(item: Item, last: Option<Booking>, next: Option<Booking>, comments: seq<Comment>)

  /** `isOwner`: the item has an owner and it is `userId`. */
  predicate IsOwner(item: Item, userId: int) {
    item.ownerId == Some(userId)
  }

  /** `assertOwner`: anyone but the owner is refused with Forbidden. */
  function AssertOwner(item: Item, userId: int): (r: Outcome)
    ensures r == Pass <==> IsOwner(item, userId)
    ensures r.Fail? ==> r.error == Forbidden
  {
    if !IsOwner(item, userId) then Fail(Forbidden) else Pass
  }

  // ---- partial update ----

  /** A patch is acceptable when every field it sets is not blank. */
  predicate PatchValid(patch: Item) {
    && (patch.name.Some? ==> !IsBlank(patch.name.value))
    && (patch.description.Some? ==> !IsBlank(patch.description.value))
  }

  /** The item after a patch: each field the patch sets is replaced, the others are kept. */
  function Patched(existing: Item, patch: Item): (r: Item)
    ensures r.id == existing.id && r.ownerId == existing.ownerId && r.requestId == existing.requestId
    ensures patch.name.None? ==> r.name == existing.name
    ensures patch.name.Some? ==> r.name == patch.name
    ensures patch.description.None? ==> r.description == existing.description
    ensures patch.description.Some? ==> r.description == patch.description
    ensures patch.available.None? ==> r.available == existing.available
    ensures patch.available.Some? ==> r.available == patch.available
  {
    existing.(
      name := if patch.name.Some? then patch.name else existing.name,
      description := if patch.description.Some? then patch.description else existing.description,
      available := if patch.available.Some? then patch.available else existing.available)
  }

  /** Applying the same patch twice changes nothing more. */
  lemma PatchIdempotent(existing: Item, patch: Item)
    ensures Patched(Patched(existing, patch), patch) == Patched(existing, patch)
  {
  }

  /** A patch that sets nothing leaves the item as it was. */
  lemma EmptyPatchIsIdentity(existing: Item, patch: Item)
    requires patch.name.None? && patch.description.None? && patch.available.None?
    ensures Patched(existing, patch) == existing
  {
  }

  /** An accepted patch never blanks out a name or description that was filled. */
  lemma ValidPatchKeepsFilled(existing: Item, patch: Item)
    requires PatchValid(patch) && IsFilled(existing.name) && IsFilled(existing.description)
    ensures IsFilled(Patched(existing, patch).name) && IsFilled(Patched(existing, patch).description)
  {
  }

  /**
   * `applyPatch`: field by field, a null patch value is skipped, a blank
   * name or description is refused with Validation, anything else is copied.
   */
  method ApplyPatch(existing: Item, patch: Item) returns (r: Result<Item>)
    ensures r.Err? <==> !PatchValid(patch)
    ensures r.Err? ==> r.error == Validation
    ensures r.Ok? ==> r.value == Patched(existing, patch)
  {
    var item := existing;
    if patch.name.Some? {
      if IsBlank(patch.name.value) {
        return Err(Validation);
      }
      item := item.(name := patch.name);
    }
    if patch.description.Some? {
      if IsBlank(patch.description.value) {
        return Err(Validation);
      }
      item := item.(description := patch.description);
    }
    if patch.available.Some? {
      item := item.(available := patch.available);
    }
    r := Ok(item);
  }

  // ---- last and next bookings per item ----

  function BookingItem(b: Booking): int { b.itemId }

  /** `b` is the first booking of item `k` in `s`. */
  predicate FirstOfItem(s: seq<Booking>, k: int, b: Booking) {
    exists i :: 0 <= i < |s| && s[i] == b && b.itemId == k && forall j :: 0 <= j < i ==> s[j].itemId != k
  }

  /**
   * `firstBookingPerItemId`: `putIfAbsent` over the candidates keeps, for
   * every item that occurs, its first candidate; later ones are ignored.
   */
  method FirstBookingPerItemId(candidates: seq<Booking>) returns (byItemId: map<int, Booking>)
    ensures forall k :: k in byItemId <==> exists b :: b in candidates && b.itemId == k
    ensures forall k :: k in byItemId ==> FirstOfItem(candidates, k, byItemId[k])
    ensures forall k :: Get(byItemId, k) == Find(candidates, BookingItem, k)
  {
    byItemId := map[];
    var i := 0;
    while i < |candidates|
      invariant 0 <= i <= |candidates|
      invariant forall k :: Get(byItemId, k) == Find(candidates[..i], BookingItem, k)
    {
      var b := candidates[i];
      var before := byItemId;
      if b.itemId !in byItemId {
        byItemId := byItemId[b.itemId := b];
      }
      assert candidates[..i + 1] == candidates[..i] + [b];
      forall k ensures Get(byItemId, k) == Find(candidates[..i + 1], BookingItem, k) {
        FindAppend(candidates[..i], BookingItem, k, b);
        assert Get(before, k) == Find(candidates[..i], BookingItem, k);
      }
      i := i + 1;
    }
    assert candidates[..|candidates|] == candidates;
    forall k | k in byItemId ensures FirstOfItem(candidates, k, byItemId[k]) {
      assert Get(byItemId, k) == Find(candidates, BookingItem, k);
      var j := FindFirst(candidates, BookingItem, k);
    }
    forall k ensures k in byItemId <==> exists b :: b in candidates && b.itemId == k {
      assert Get(byItemId, k) == Find(candidates, BookingItem, k);
    }
  }

  /** In a list ordered by item and then latest start, an item's first row has its latest start. */
  lemma GroupHeadIsLatest(r: seq<Booking>, id: int)
    requires SortedBy(r, BookingStates.ItemAscStartDesc)
    requires Find(r, BookingItem, id).Some?
    ensures forall b :: b in r && b.itemId == id ==> b.start <= Find(r, BookingItem, id).value.start
  {
    var i := FindFirst(r, BookingItem, id);
    forall b | b in r && b.itemId == id ensures b.start <= r[i].start {
      var j :| 0 <= j < |r| && r[j] == b;
      if j > i {
        assert KeyLe(BookingStates.ItemAscStartDesc(r[i]), BookingStates.ItemAscStartDesc(r[j]));
      }
    }
  }

  /** In a list ordered by item and then earliest start, an item's first row has its earliest start. */
  lemma GroupHeadIsEarliest(r: seq<Booking>, id: int)
    requires SortedBy(r, BookingStates.ItemAscStartAsc)
    requires Find(r, BookingItem, id).Some?
    ensures forall b :: b in r && b.itemId == id ==> Find(r, BookingItem, id).value.start <= b.start
  {
    var i := FindFirst(r, BookingItem, id);
    forall b | b in r && b.itemId == id ensures r[i].start <= b.start {
      var j :| 0 <= j < |r| && r[j] == b;
      if j > i {
        assert KeyLe(BookingStates.ItemAscStartAsc(r[i]), BookingStates.ItemAscStartAsc(r[j]));
      }
    }
  }

  /**
   * The first row of a listed item in the batch "last" list is a last
   * candidate with the greatest start, as the single-item query gives;
   * there is one exactly when that query finds one.
   */
  lemma BatchFirstIsLast(bookings: seq<Booking>, itemIds: seq<int>, now: int, id: int)
    requires id in itemIds
    ensures var first := Find(BookingRepository.FindLastForItems(bookings, itemIds, Status.Approved, now), BookingItem, id);
      var single := BookingRepository.FindFirstLast(bookings, id, Status.Approved, now);
      && (first.None? <==> single.None?)
      && (first.Some? ==> first.value in bookings && BookingRepository.LastCandidate(first.value, id, Status.Approved, now))
      && (first.Some? ==> first.value.start == single.value.start)
  {
    var r := BookingRepository.FindLastForItems(bookings, itemIds, Status.Approved, now);
    assert forall b :: b in r && b.itemId == id <==> b in bookings && BookingRepository.LastCandidate(b, id, Status.Approved, now);
    if Find(r, BookingItem, id).Some? {
      GroupHeadIsLatest(r, id);
    }
  }

  /** The same for the batch "next" list and the single-item next query. */
  lemma BatchFirstIsNext(bookings: seq<Booking>, itemIds: seq<int>, now: int, id: int)
    requires id in itemIds
    ensures var first := Find(BookingRepository.FindNextForItems(bookings, itemIds, Status.Approved, now), BookingItem, id);
      var single := BookingRepository.FindFirstNext(bookings, id, Status.Approved, now);
      && (first.None? <==> single.None?)
      && (first.Some? ==> first.value in bookings && BookingRepository.NextCandidate(first.value, id, Status.Approved, now))
      && (first.Some? ==> first.value.start == single.value.start)
  {
    var r := BookingRepository.FindNextForItems(bookings, itemIds, Status.Approved, now);
    assert forall b :: b in r && b.itemId == id <==> b in bookings && BookingRepository.NextCandidate(b, id, Status.Approved, now);
    if Find(r, BookingItem, id).Some? {
      GroupHeadIsEarliest(r, id);
    }
  }

  // ---- reads ----

  /**
   * `getItemWithComments`: the requester must exist, then the item; the
   * comments are the item's own, newest first; last and next are filled in
   * only for the owner.
   */
  function GetItemWithComments(t: Tables, requesterId: int, itemId: int, now: int): (r: Result<ItemDetails>)
    ensures r.Err? <==> !UserExists(t, requesterId) || ItemById(t, itemId).None?
    ensures r.Err? ==> r.error == NotFound
    ensures r.Ok? ==> r.value.item == ItemById(t, itemId).value
    ensures r.Ok? ==> r.value.comments == CommentRepository.FindByItemId(t.comments, itemId)
    ensures r.Ok? && !IsOwner(r.value.item, requesterId) ==> r.value.last.None? && r.value.next.None?
    ensures r.Ok? && IsOwner(r.value.item, requesterId) ==>
      && r.value.last == BookingRepository.FindFirstLast(t.bookings, itemId, Status.Approved, now)
      && r.value.next == BookingRepository.FindFirstNext(t.bookings, itemId, Status.Approved, now)
  {
    if !UserExists(t, requesterId) then Err(NotFound)
    else
      match ItemById(t, itemId)
      case None => Err(NotFound)
      case Some(item) =>
        var comments := CommentRepository.FindByItemId(t.comments, itemId);
        if IsOwner(item, requesterId) then
          Ok(ItemDetails(item,
            BookingRepository.FindFirstLast(t.bookings, itemId, Status.Approved, now),
            BookingRepository.FindFirstNext(t.bookings, itemId, Status.Approved, now),
            comments))
        else Ok(ItemDetails(item, None, None, comments))
  }

  /** What the owner listing promises about one entry, relative to the single-item queries. */
  predicate EntryAgrees(t: Tables, e: ItemDetails, now: int) {
    var last := BookingRepository.FindFirstLast(t.bookings, e.item.id, Status.Approved, now);
    var next := BookingRepository.FindFirstNext(t.bookings, e.item.id, Status.Approved, now);
    && (e.last.None? <==> last.None?)
    && (e.last.Some? ==> e.last.value in t.bookings && BookingRepository.LastCandidate(e.last.value, e.item.id, Status.Approved, now)
                         && e.last.value.start == last.value.start)
    && (e.next.None? <==> next.None?)
    && (e.next.Some? ==> e.next.value in t.bookings && BookingRepository.NextCandidate(e.next.value, e.item.id, Status.Approved, now)
                         && e.next.value.start == next.value.start)
    && multiset(e.comments) == multiset(CommentRepository.FindByItemId(t.comments, e.item.id))
    && CommentRepository.NewestFirst(e.comments)
  }

  /**
   * The entry the batch queries give one listed item is the entry the
   * single-item queries would give it.
   */
  lemma BatchEntryAgrees(t: Tables, itemIds: seq<int>, now: int, item: Item)
    requires item.id in itemIds
    ensures EntryAgrees(t, ItemDetails(item,
      Find(BookingRepository.FindLastForItems(t.bookings, itemIds, Status.Approved, now), BookingItem, item.id),
      Find(BookingRepository.FindNextForItems(t.bookings, itemIds, Status.Approved, now), BookingItem, item.id),
      GetOrEmpty(GroupBy(CommentRepository.FindByItemIdIn(t.comments, itemIds), CommentRepository.CommentItem), item.id)), now)
  {
    BatchFirstIsLast(t.bookings, itemIds, now, item.id);
    BatchFirstIsNext(t.bookings, itemIds, now, item.id);
    CommentRepository.BatchGroupIsItemComments(t.comments, itemIds, item.id);
  }

  /**
   * `getAllByOwnerWithComments`: one entry per owned item, in the order the
   * repository lists them; each entry's last and next booking are those of
   * the single-item queries (up to bookings with equal start) and its
   * comments are its own, newest first, or empty.
   */
  method GetAllByOwnerWithComments(t: Tables, ownerId: int, now: int) returns (r: Result<seq<ItemDetails>>)
    ensures r.Err? <==> !UserExists(t, ownerId)
    ensures r.Err? ==> r.error == NotFound
    ensures r.Ok? ==> |r.value| == |ItemRepository.FindAllByOwnerId(t.items, ownerId)|
    ensures r.Ok? ==> forall i :: 0 <= i < |r.value| ==> r.value[i].item == ItemRepository.FindAllByOwnerId(t.items, ownerId)[i]
    ensures r.Ok? ==> forall i :: 0 <= i < |r.value| ==> EntryAgrees(t, r.value[i], now)
  {
    if !UserExists(t, ownerId) {
      return Err(NotFound);
    }
    var items := ItemRepository.FindAllByOwnerId(t.items, ownerId);
    if items == [] {
      return Ok([]);
    }
    var itemIds := KeysOf(items, ItemKey);
    var commentsByItemId := GroupBy(CommentRepository.FindByItemIdIn(t.comments, itemIds), CommentRepository.CommentItem);
    var lastByItemId := FirstBookingPerItemId(BookingRepository.FindLastForItems(t.bookings, itemIds, Status.Approved, now));
    var nextByItemId := FirstBookingPerItemId(BookingRepository.FindNextForItems(t.bookings, itemIds, Status.Approved, now));
    var entries := seq(|items|, i requires 0 <= i < |items| =>
      ItemDetails(items[i], Get(lastByItemId, items[i].id), Get(nextByItemId, items[i].id), GetOrEmpty(commentsByItemId, items[i].id)));
    forall i | 0 <= i < |entries| ensures EntryAgrees(t, entries[i], now) {
      assert items[i].id == itemIds[i];
      BatchEntryAgrees(t, itemIds, now, items[i]);
    }
    r := Ok(entries);
  }

  /** `search`: nothing for a null or blank text, else the repository search. */
  function Search(t: Tables, text: Option<string>): (r: seq<Item>)
    ensures text.None? || IsBlank(text.value) ==> r == []
    ensures text.Some? && !IsBlank(text.value) ==> forall i :: i in r <==> i in t.items && ItemRepository.SearchMatches(i, text.value)
    ensures text.Some? && !IsBlank(text.value) ==>
      forall i :: multiset(r)[i] == if ItemRepository.SearchMatches(i, text.value) then multiset(t.items)[i] else 0
  {
    if text.None? || IsBlank(text.value) then [] else ItemRepository.SearchAvailableByText(t.items, text.value)
  }

  // ---- writes ----

  class ItemService {
    const db: Db

    constructor (db: Db)
      ensures this.db == db
    {
      this.db := db;
    }

    /**
     * `createItem`: the owner must exist, and a given request id must name a
     * stored request (NotFound otherwise, nothing saved); the item is stored
     * under a fresh id, owned by `ownerId`, answering the request if one is given.
     */
    method CreateItem(item: Item, ownerId: int, requestId: Option<int>) returns (r: Result<Item>)
      requires db.Valid()
      modifies db
      ensures db.Valid()
      ensures r.Err? <==> !UserExists(old(db.t), ownerId) || (requestId.Some? && RequestById(old(db.t), requestId.value).None?)
      ensures r.Err? ==> r.error == NotFound && db.t == old(db.t) && db.nextId == old(db.nextId)
      ensures r.Ok? ==> r.value == item.(id := old(db.nextId), ownerId := Some(ownerId), requestId := if requestId.Some? then requestId else item.requestId)
      ensures r.Ok? ==> db.t == old(db.t).(items := old(db.t.items) + [r.value]) && db.nextId == old(db.nextId) + 1
      ensures r.Ok? ==> ItemById(db.t, r.value.id) == Some(r.value)
    {
      var draft := item.(id := 0);
      var owner := UserById(db.t, ownerId);
      if owner.None? {
        return Err(NotFound);
      }
      draft := draft.(ownerId := Some(owner.value.id));
      if requestId.Some? {
        var request := RequestById(db.t, requestId.value);
        if request.None? {
          return Err(NotFound);
        }
        draft := draft.(requestId := Some(request.value.id));
      }
      var saved := db.InsertItem(draft);
      r := Ok(saved);
    }

    /**
     * `updateItem`: the item must exist (NotFound), the caller must own it
     * (Forbidden), the patch must be acceptable (Validation); only then is
     * the patched item saved.
     */
    method UpdateItem(ownerId: int, itemId: int, patch: Item) returns (r: Result<Item>)
      requires db.Valid()
      modifies db
      ensures db.Valid()
      ensures r.Err? <==> ItemById(old(db.t), itemId).None? || !IsOwner(ItemById(old(db.t), itemId).value, ownerId) || !PatchValid(patch)
      ensures r.Err? ==> r.error == (if ItemById(old(db.t), itemId).None? then NotFound
                                     else if !IsOwner(ItemById(old(db.t), itemId).value, ownerId) then Forbidden
                                     else Validation)
      ensures r.Err? ==> db.t == old(db.t)
      ensures r.Ok? ==> r.value == Patched(ItemById(old(db.t), itemId).value, patch)
      ensures r.Ok? ==> db.t == old(db.t).(items := Replace(old(db.t.items), ItemKey, r.value)) && ItemById(db.t, itemId) == Some(r.value)
      ensures db.nextId == old(db.nextId)
    {
      var existing := ItemById(db.t, itemId);
      if existing.None? {
        return Err(NotFound);
      }
      var owner := AssertOwner(existing.value, ownerId);
      if owner.Fail? {
        return Err(owner.error);
      }
      r := ApplyPatch(existing.value, patch);
      if r.Ok? {
        db.UpdateItem(r.value);
      }
    }

    /** `deleteItem`: NotFound for an unknown item, Forbidden for a non-owner, else the row is gone. */
    method DeleteItem(ownerId: int, itemId: int) returns (r: Outcome)
      requires db.Valid()
      modifies db
      ensures db.Valid()
      ensures r == Pass <==> ItemById(old(db.t), itemId).Some? && IsOwner(ItemById(old(db.t), itemId).value, ownerId)
      ensures r.Fail? ==> r.error == if ItemById(old(db.t), itemId).None? then NotFound else Forbidden
      ensures r.Fail? ==> db.t == old(db.t)
      ensures r == Pass ==> db.t == old(db.t).(items := Remove(old(db.t.items), ItemKey, itemId)) && ItemById(db.t, itemId).None?
      ensures db.nextId == old(db.nextId)
    {
      var item := ItemById(db.t, itemId);
      if item.None? {
        return Fail(NotFound);
      }
      r := AssertOwner(item.value, ownerId);
      if r == Pass {
        db.DeleteItem(itemId);
      }
    }

    /**
     * `addComment`: the author must exist, then the item (NotFound); the
     * author needs an approved booking of the item that ended before `now`
     * (Validation); the comment is stored with `now` as its creation time.
     */
    method AddComment(authorId: int, itemId: int, text: Option<string>, now: int) returns (r: Result<Comment>)
      requires db.Valid()
      modifies db
      ensures db.Valid()
      ensures r.Err? <==>
        || !UserExists(old(db.t), authorId) || ItemById(old(db.t), itemId).None?
        || !BookingRepository.ExistsFinished(old(db.t).bookings, itemId, authorId, Status.Approved, now)
      ensures r.Err? ==> r.error == if !UserExists(old(db.t), authorId) || ItemById(old(db.t), itemId).None? then NotFound else Validation
      ensures r.Err? ==> db.t == old(db.t) && db.nextId == old(db.nextId)
      ensures r.Ok? ==> r.value == Comment(old(db.nextId), text, itemId, authorId, now)
      ensures r.Ok? ==> db.t == old(db.t).(comments := old(db.t.comments) + [r.value]) && db.nextId == old(db.nextId) + 1
    {
      var author := UserById(db.t, authorId);
      if author.None? {
        return Err(NotFound);
      }
      var item := ItemById(db.t, itemId);
      if item.None? {
        return Err(NotFound);
      }
      if !BookingRepository.ExistsFinished(db.t.bookings, itemId, authorId, Status.Approved, now) {
        return Err(Validation);
      }
      var saved := db.InsertComment(Comment(0, text, item.value.id, author.value.id, now));
      r := Ok(saved);
    }
  }
}
