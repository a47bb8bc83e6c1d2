/**
 * The item repository: the owner listing, the text search over available
 * items, and the lookups of items by the request they answer.
 */
module ItemRepository {
  import opened Common
  import opened Rows
  import opened Entities

  /** `findAllByOwnerId`, in storage order. */
  function FindAllByOwnerId(items: seq<Item>, ownerId: int): (r: seq<Item>)
    ensures forall i :: i in r <==> i in items && i.ownerId == Some(ownerId)
    ensures forall i :: multiset(r)[i] == if i.ownerId == Some(ownerId) then multiset(items)[i] else 0
  {
    var r := Filter(items, (i: Item) => i.ownerId == Some(ownerId));
    assert forall i :: multiset(r)[i] == if i.ownerId == Some(ownerId) then multiset(items)[i] else 0 by {
      forall i ensures multiset(r)[i] == if i.ownerId == Some(ownerId) then multiset(items)[i] else 0 {
        FilterCount(items, (i: Item) => i.ownerId == Some(ownerId), i);
      }
    }
    r
  }

  /**
   * `lower(column) like lower(concat('%', :text, '%'))`. A null column makes
   * the comparison unknown, which the `where` clause treats as false.
   */
  predicate ColumnLike(column: Option<string>, text: string) {
    column.Some? && Like(Lower(column.value), Lower("%" + text + "%"))
  }

  /** The `where` clause of `searchAvailableByText`. */
  predicate SearchMatches(i: Item, text: string) {
    i.available == Some(true) && (ColumnLike(i.name, text) || ColumnLike(i.description, text))
  }

  /** `searchAvailableByText`, in storage order; it never returns an unavailable item. */
  function SearchAvailableByText(items: seq<Item>, text: string): (r: seq<Item>)
    ensures forall i :: i in r <==> i in items && SearchMatches(i, text)
    ensures forall i :: multiset(r)[i] == if SearchMatches(i, text) then multiset(items)[i] else 0
    ensures forall i :: i in r ==> i.available == Some(true)
  {
    var p := (i: Item) => SearchMatches(i, text);
    var r := Filter(items, p);
    assert forall i :: multiset(r)[i] == if p(i) then multiset(items)[i] else 0 by {
      forall i ensures multiset(r)[i] == if p(i) then multiset(items)[i] else 0 {
        FilterCount(items, p, i);
      }
    }
    r
  }

  /** Lower-casing never creates or removes a `LIKE` wildcard. */
  lemma LowerKeepsNoLikeMeta(s: string)
    requires NoLikeMeta(s)
    ensures NoLikeMeta(Lower(s))
  {
    forall k | 0 <= k < |s| ensures !IsLikeMeta(Lower(s)[k]) {
      assert !IsLikeMeta(s[k]);
    }
  }

  /** Lower-casing twice is lower-casing once. */
  lemma LowerIdempotent(s: string)
    ensures Lower(Lower(s)) == Lower(s)
  {
    assert forall k :: 0 <= k < |s| ==> Lower(Lower(s))[k] == Lower(s)[k];
  }

  /** The search pattern built from `text` is `text` lower-cased between two `%`. */
  lemma LowerPattern(text: string)
    ensures Lower("%" + text + "%") == "%" + Lower(text) + "%"
  {
    LowerAppend("%", text);
    LowerAppend("%" + text, "%");
    assert Lower("%") == "%";
  }

  /** A column matches exactly when its lower-cased value contains the lower-cased text. */
  lemma ColumnLikeIsContains(column: Option<string>, text: string)
    requires NoLikeMeta(text)
    ensures ColumnLike(column, text) <==> column.Some? && Contains(Lower(column.value), Lower(text))
  {
    if column.Some? {
      LowerPattern(text);
      LowerKeepsNoLikeMeta(text);
      SurroundedLikeIsContains(Lower(column.value), Lower(text));
    }
  }

  /**
   * For a text without wildcards the search finds exactly the available items
   * whose name or description contains the text, ignoring letter case.
   */
  lemma SearchIsCaseInsensitiveContains(i: Item, text: string)
    requires NoLikeMeta(text)
    ensures SearchMatches(i, text) <==>
      && i.available == Some(true)
      && ((i.name.Some? && Contains(Lower(i.name.value), Lower(text)))
          || (i.description.Some? && Contains(Lower(i.description.value), Lower(text))))
  {
    ColumnLikeIsContains(i.name, text);
    ColumnLikeIsContains(i.description, text);
  }

  /** The letter case of the text does not matter. */
  lemma SearchIgnoresTextCase(i: Item, text: string)
    ensures SearchMatches(i, text) <==> SearchMatches(i, Lower(text))
  {
    LowerPattern(text);
    LowerPattern(Lower(text));
    LowerIdempotent(text);
  }

  /** The condition "the item answers request `requestId`". */
  function AnswersRequest(requestId: int): Item -> bool {
    (i: Item) => i.requestId == Some(requestId)
  }

  /** `findAllByItemRequest_Id`. */
  function FindAllByItemRequestId(items: seq<Item>, requestId: int): (r: seq<Item>)
    ensures forall i :: i in r <==> i in items && i.requestId == Some(requestId)
    ensures forall i :: multiset(r)[i] == if i.requestId == Some(requestId) then multiset(items)[i] else 0
  {
    var p := AnswersRequest(requestId);
    var r := Filter(items, p);
    assert forall i :: multiset(r)[i] == if p(i) then multiset(items)[i] else 0 by {
      forall i ensures multiset(r)[i] == if p(i) then multiset(items)[i] else 0 {
        FilterCount(items, p, i);
      }
    }
    r
  }

  /** The condition "the item answers one of `requestIds`". */
  function AnswersAny(requestIds: seq<int>): Item -> bool {
    (i: Item) => i.requestId.Some? && i.requestId.value in requestIds
  }

  /** `findAllByItemRequest_IdIn`: the items answering any of the given requests, in storage order. */
  function FindAllByItemRequestIdIn(items: seq<Item>, requestIds: seq<int>): (r: seq<Item>)
    ensures forall i :: i in r <==> i in items && i.requestId.Some? && i.requestId.value in requestIds
    ensures forall i :: multiset(r)[i] == if i.requestId.Some? && i.requestId.value in requestIds then multiset(items)[i] else 0
  {
    var p := AnswersAny(requestIds);
    var r := Filter(items, p);
    assert forall i :: multiset(r)[i] == if p(i) then multiset(items)[i] else 0 by {
      forall i ensures multiset(r)[i] == if p(i) then multiset(items)[i] else 0 {
        FilterCount(items, p, i);
      }
    }
    r
  }

  /**
   * The request an item answers (`item.getItemRequest().getId()`); it is
   * only asked of items that answer one, so the default is never used.
   */
  function ItemRequestOf(i: Item): int {
    if i.requestId.Some? then i.requestId.value else 0
  }

  /**
   * Grouping the batch lookup by request gives each listed request exactly
   * the items the single-request lookup gives, in the same order.
   */
  lemma BatchGroupIsRequestItems(items: seq<Item>, requestIds: seq<int>, id: int)
    requires id in requestIds
    ensures Filter(FindAllByItemRequestIdIn(items, requestIds), HasKey(ItemRequestOf, id)) == FindAllByItemRequestId(items, id)
  {
    assert FindAllByItemRequestIdIn(items, requestIds) == Filter(items, AnswersAny(requestIds));
    FilterTwiceIs(items, AnswersAny(requestIds), HasKey(ItemRequestOf, id), AnswersRequest(id));
    assert FindAllByItemRequestId(items, id) == Filter(items, AnswersRequest(id));
  }
}
