/**
 * The item service that validates its arguments first: null or non-positive
 * ids, a null item or patch and an incomplete new item are refused with
 * Validation before any lookup. Past those checks it behaves like the older
 * service, which is what the agreement clauses below state.
 */
module ValidatingItemService {
  import opened Common
  import opened Rows
  import opened Entities
  import opened Store
  import ItemRepository
  import ItemService
  import LegacyItemService

  /** A new item is complete: name and description filled in, availability given. */
  predicate Complete(item: Item) {
    IsFilled(item.name) && IsFilled(item.description) && item.available.Some?
  }

  /** `validateCreateItem`: the item is present and complete. */
  function ValidateCreateItem(item: Option<Item>): (r: Outcome)
    ensures r == Pass <==> item.Some? && Complete(item.value)
    ensures r.Fail? ==> r.error == Validation
  {
    if item.None? then Fail(Validation)
    else if item.value.name.None? || IsBlank(item.value.name.value) then Fail(Validation)
    else if item.value.description.None? || IsBlank(item.value.description.value) then Fail(Validation)
    else if item.value.available.None? then Fail(Validation)
    else Pass
  }

  /** Ids that pass `ValidateId`. */
  predicate ValidIds(a: Option<int>, b: Option<int>) {
    ValidId(a) && ValidId(b)
  }

  /** A complete item stays complete under any accepted patch. */
  lemma PatchKeepsComplete(existing: Item, patch: Item)
    requires Complete(existing) && ItemService.PatchValid(patch)
    ensures Complete(ItemService.Patched(existing, patch))
  {
    ItemService.ValidPatchKeepsFilled(existing, patch);
  }

  /** `findById`: both ids are validated, then the older service's lookups. */
  function FindById(t: Tables, ownerId: Option<int>, itemId: Option<int>): (r: Result<Item>)
    ensures !ValidIds(ownerId, itemId) <==> r == Err(Validation)
    ensures ValidIds(ownerId, itemId) ==> r == LegacyItemService.FindById(t, ownerId.value, itemId.value)
  {
    if ValidateId(ownerId).Fail? then Err(Validation)
    else if ValidateId(itemId).Fail? then Err(Validation)
    else if !UserExists(t, ownerId.value) then Err(NotFound)
    else
      match ItemById(t, itemId.value)
      case None => Err(NotFound)
      case Some(item) => Ok(item)
  }

  /** `getAllByOwner`: the id is validated, then the owner must exist. */
  function GetAllByOwner(t: Tables, ownerId: Option<int>): (r: Result<seq<Item>>)
    ensures ownerId.None? || ownerId.value <= 0 <==> r == Err(Validation)
    ensures ownerId.Some? && ownerId.value > 0 ==> r == LegacyItemService.GetAllByOwner(t, ownerId.value)
  {
    if ValidateId(ownerId).Fail? then Err(Validation)
    else if !UserExists(t, ownerId.value) then Err(NotFound)
    else Ok(ItemRepository.FindAllByOwnerId(t.items, ownerId.value))
  }

  /** `search`: the caller's id is validated (its existence is not), then the plain search. */
  function Search(t: Tables, userId: Option<int>, text: Option<string>): (r: Result<seq<Item>>)
    ensures userId.None? || userId.value <= 0 <==> r == Err(Validation)
    ensures userId.Some? && userId.value > 0 ==> r == Ok(ItemService.Search(t, text))
    ensures r.Ok? && (text.None? || IsBlank(text.value)) ==> r.value == []
  {
    if ValidateId(userId).Fail? then Err(Validation)
    else if text.None? || IsBlank(text.value) then Ok([])
    else Ok(ItemRepository.SearchAvailableByText(t.items, text.value))
  }

  class ValidatingItemService {
    const db: Db

    constructor (db: Db)
      ensures this.db == db
    {
      this.db := db;
    }

    /**
     * `createItem`: the item is checked before the owner id, both before the
     * owner lookup; a complete item of an existing owner is stored under a fresh id.
     */
    method CreateItem(item: Option<Item>, ownerId: Option<int>) returns (r: Result<Item>)
      requires db.Valid()
      modifies db
      ensures db.Valid()
      ensures r == Err(Validation) <==> !(item.Some? && Complete(item.value)) || ownerId.None? || ownerId.value <= 0
      ensures r == Err(NotFound) <==> item.Some? && Complete(item.value) && ownerId.Some? && ownerId.value > 0 && !UserExists(old(db.t), ownerId.value)
      ensures r.Err? ==> r == Err(Validation) || r == Err(NotFound)
      ensures r.Err? ==> db.t == old(db.t) && db.nextId == old(db.nextId)
      ensures r.Ok? ==> r.value == item.value.(id := old(db.nextId), ownerId := ownerId) && Complete(r.value)
      ensures r.Ok? ==> db.t == old(db.t).(items := old(db.t.items) + [r.value]) && db.nextId == old(db.nextId) + 1
      ensures r.Ok? ==> ItemById(db.t, r.value.id) == Some(r.value)
    {
      var check := ValidateCreateItem(item);
      if check.Fail? {
        return Err(check.error);
      }
      check := ValidateId(ownerId);
      if check.Fail? {
        return Err(check.error);
      }
      var owner := UserById(db.t, ownerId.value);
      if owner.None? {
        return Err(NotFound);
      }
      var saved := db.InsertItem(item.value.(id := 0, ownerId := Some(owner.value.id)));
      r := Ok(saved);
    }

    /**
     * `updateItem`: the two ids and the patch are validated first; after
     * that the outcome and the new state are those of the older service.
     */
    method UpdateItem(ownerId: Option<int>, itemId: Option<int>, patch: Option<Item>) returns (r: Result<Item>)
      requires db.Valid()
      modifies db
      ensures db.Valid()
      ensures !ValidIds(ownerId, itemId) || patch.None? ==> r == Err(Validation) && db.t == old(db.t)
      ensures (ValidIds(ownerId, itemId) && patch.Some? && ItemById(old(db.t), itemId.value).None?) ==> r == Err(NotFound)
      ensures (&& ValidIds(ownerId, itemId) && patch.Some? && ItemById(old(db.t), itemId.value).Some?
               && !ItemService.IsOwner(ItemById(old(db.t), itemId.value).value, ownerId.value))
        ==> r == Err(if ItemById(old(db.t), itemId.value).value.ownerId.None? then NotFound else Forbidden)
      ensures (&& ValidIds(ownerId, itemId) && patch.Some? && ItemById(old(db.t), itemId.value).Some?
               && ItemService.IsOwner(ItemById(old(db.t), itemId.value).value, ownerId.value))
        ==> r == (if ItemService.PatchValid(patch.value) then Ok(ItemService.Patched(ItemById(old(db.t), itemId.value).value, patch.value)) else Err(Validation))
      ensures r.Err? ==> db.t == old(db.t)
      ensures r.Ok? ==> db.t == old(db.t).(items := Replace(old(db.t.items), ItemKey, r.value)) && ItemById(db.t, r.value.id) == Some(r.value)
      ensures db.nextId == old(db.nextId)
    {
      var check := ValidateId(ownerId);
      if check.Fail? {
        return Err(check.error);
      }
      check := ValidateId(itemId);
      if check.Fail? {
        return Err(check.error);
      }
      check := ValidatePresent(patch);
      if check.Fail? {
        return Err(check.error);
      }
      var existing := ItemById(db.t, itemId.value);
      if existing.None? {
        return Err(NotFound);
      }
      check := LegacyItemService.AssertOwner(existing.value, ownerId.value);
      if check.Fail? {
        return Err(check.error);
      }
      r := ItemService.ApplyPatch(existing.value, patch.value);
      if r.Ok? {
        db.UpdateItem(r.value);
      }
    }

    /** `deleteItem`: the ids are validated, then the item is looked up and the owner checked. */
    method DeleteItem(ownerId: Option<int>, itemId: Option<int>) returns (r: Outcome)
      requires db.Valid()
      modifies db
      ensures db.Valid()
      ensures !ValidIds(ownerId, itemId) ==> r == Fail(Validation)
      ensures ValidIds(ownerId, itemId) && ItemById(old(db.t), itemId.value).None? ==> r == Fail(NotFound)
      ensures (ValidIds(ownerId, itemId) && ItemById(old(db.t), itemId.value).Some?)
        ==> r == LegacyItemService.AssertOwner(ItemById(old(db.t), itemId.value).value, ownerId.value)
      ensures r.Fail? ==> db.t == old(db.t)
      ensures r == Pass ==> db.t == old(db.t).(items := Remove(old(db.t.items), ItemKey, itemId.value)) && ItemById(db.t, itemId.value).None?
      ensures db.nextId == old(db.nextId)
    {
      r := ValidateId(ownerId);
      if r.Fail? {
        return;
      }
      r := ValidateId(itemId);
      if r.Fail? {
        return;
      }
      var item := ItemById(db.t, itemId.value);
      if item.None? {
        return Fail(NotFound);
      }
      r := LegacyItemService.AssertOwner(item.value, ownerId.value);
      if r == Pass {
        db.DeleteItem(itemId.value);
      }
    }
  }
}
