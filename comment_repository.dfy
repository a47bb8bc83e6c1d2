/**
 * The comment queries the item services call: the comments of one item and
 * of a batch of items, newest first.
 */
module CommentRepository {
  import opened Common
  import opened Rows
  import opened Entities

  /** `order by created desc`. */
  function CreatedDesc(c: Comment): Key { (0, -c.created) }

  /** The item a comment is about (`c.item.id`). */
  function CommentItem(c: Comment): int { c.itemId }

  predicate NewestFirst(s: seq<Comment>) {
    forall i, j :: 0 <= i < j < |s| ==> s[i].created >= s[j].created
  }

  lemma CreatedDescKeyOrders(s: seq<Comment>)
    requires SortedBy(s, CreatedDesc)
    ensures NewestFirst(s)
  {
    forall i, j | 0 <= i < j < |s| ensures s[i].created >= s[j].created {
      assert KeyLe(CreatedDesc(s[i]), CreatedDesc(s[j]));
    }
  }

  /** `findByItemIdOrderByCreatedDesc` (and the older `findItemComments`). */
  function FindByItemId(comments: seq<Comment>, itemId: int): (r: seq<Comment>)
    ensures forall c :: multiset(r)[c] == if c.itemId == itemId then multiset(comments)[c] else 0
    ensures NewestFirst(r)
  {
    var r := Select(comments, HasKey(CommentItem, itemId), CreatedDesc);
    CreatedDescKeyOrders(r);
    r
  }

  /** `findByItemIdInOrderByCreatedDesc` (and the older `findCommentsForItems`). */
  function FindByItemIdIn(comments: seq<Comment>, itemIds: seq<int>): (r: seq<Comment>)
    ensures forall c :: multiset(r)[c] == if c.itemId in itemIds then multiset(comments)[c] else 0
    ensures SortedBy(r, CreatedDesc)
  {
    Select(comments, (c: Comment) => c.itemId in itemIds, CreatedDesc)
  }

  /** Selecting one listed item from the batch keeps exactly that item's comments. */
  lemma BatchSelectionCounts(comments: seq<Comment>, itemIds: seq<int>, id: int)
    requires id in itemIds
    ensures multiset(Filter(FindByItemIdIn(comments, itemIds), HasKey(CommentItem, id))) == multiset(FindByItemId(comments, id))
  {
    var batch := FindByItemIdIn(comments, itemIds);
    forall c ensures multiset(Filter(batch, HasKey(CommentItem, id)))[c] == multiset(FindByItemId(comments, id))[c] {
      FilterCount(batch, HasKey(CommentItem, id), c);
    }
  }

  /** An item has no comments in the listing exactly when no stored comment is about it. */
  lemma ItemCommentsEmpty(comments: seq<Comment>, id: int)
    ensures FindByItemId(comments, id) == [] <==> forall c :: c in comments ==> c.itemId != id
  {
    var r := FindByItemId(comments, id);
    if r != [] {
      assert multiset(r)[r[0]] > 0;
    }
    forall c | c in comments && c.itemId == id ensures r != [] {
      assert multiset(r)[c] > 0;
    }
  }

  /**
   * Grouping the batch by item (`groupingBy(c -> c.getItem().getId())` and
   * `getOrDefault(id, List.of())`) gives each listed item exactly its own
   * comments, newest first; an item without comments gets the empty list.
   */
  lemma BatchGroupIsItemComments(comments: seq<Comment>, itemIds: seq<int>, id: int)
    requires id in itemIds
    ensures var m := GroupBy(FindByItemIdIn(comments, itemIds), CommentItem);
      var g := if id in m then m[id] else [];
      && multiset(g) == multiset(FindByItemId(comments, id))
      && NewestFirst(g)
      && (g == [] <==> forall c :: c in comments ==> c.itemId != id)
  {
    var batch := FindByItemIdIn(comments, itemIds);
    GroupByGetOrDefault(batch, CommentItem, id);
    var g := Filter(batch, HasKey(CommentItem, id));
    FilterSorted(batch, HasKey(CommentItem, id), CreatedDesc);
    CreatedDescKeyOrders(g);
    BatchSelectionCounts(comments, itemIds, id);
    ItemCommentsEmpty(comments, id);
    assert g == [] <==> multiset(g) == multiset{};
    assert FindByItemId(comments, id) == [] <==> multiset(FindByItemId(comments, id)) == multiset{};
  }
}
