/**
 * The request queries the request services call, as their derived-query
 * method names define them: a user's own requests and, one page at a time,
 * everybody else's, newest first.
 */
module ItemRequestRepository {
  import opened Common
  import opened Rows
  import opened Entities
  import opened Paging

  /** `OrderByCreatedDesc`. */
  function CreatedDesc(r: ItemRequest): Key { (0, -r.created) }

  function Requestor(r: ItemRequest): int { r.requestorId }

  predicate NewestFirst(s: seq<ItemRequest>) {
    forall i, j :: 0 <= i < j < |s| ==> s[i].created >= s[j].created
  }

  lemma CreatedDescKeyOrders(s: seq<ItemRequest>)
    requires SortedBy(s, CreatedDesc)
    ensures NewestFirst(s)
  {
    forall i, j | 0 <= i < j < |s| ensures s[i].created >= s[j].created {
      assert KeyLe(CreatedDesc(s[i]), CreatedDesc(s[j]));
    }
  }

  /** `findAllByRequestor_IdOrderByCreatedDesc`. */
  function FindAllByRequestorId(requests: seq<ItemRequest>, userId: int): (r: seq<ItemRequest>)
    ensures forall x :: multiset(r)[x] == if x.requestorId == userId then multiset(requests)[x] else 0
    ensures NewestFirst(r)
  {
    var r := Select(requests, HasKey(Requestor, userId), CreatedDesc);
    CreatedDescKeyOrders(r);
    r
  }

  /** All requests made by anyone but `userId`, newest first: the rows the paged query pages through. */
  function OtherRequests(requests: seq<ItemRequest>, userId: int): (r: seq<ItemRequest>)
    ensures forall x :: multiset(r)[x] == if x.requestorId != userId then multiset(requests)[x] else 0
    ensures NewestFirst(r)
  {
    var r := Select(requests, LacksKey(Requestor, userId), CreatedDesc);
    CreatedDescKeyOrders(r);
    r
  }

  /** A row of the other requests is a stored request of somebody else. */
  lemma OtherRequestsMembers(requests: seq<ItemRequest>, userId: int)
    ensures forall x :: x in OtherRequests(requests, userId) ==> x in requests && x.requestorId != userId
  {
    var others := OtherRequests(requests, userId);
    forall x | x in others ensures x in requests && x.requestorId != userId {
      assert multiset(others)[x] > 0;
    }
  }

  /** A page of rows that are newest first is newest first. */
  lemma PageNewestFirst(s: seq<ItemRequest>, p: Pageable)
    requires p.page >= 0 && p.size >= 1
    requires NewestFirst(s)
    ensures NewestFirst(PageContent(s, p))
  {
    var r := PageContent(s, p);
    forall i, j | 0 <= i < j < |r| ensures r[i].created >= r[j].created {
      assert r[i] == s[Offset(p) + i] && r[j] == s[Offset(p) + j];
    }
  }

  /** `findAllByRequestor_IdNotOrderByCreatedDesc(userId, pageable).getContent()`. */
  function FindAllByRequestorIdNot(requests: seq<ItemRequest>, userId: int, p: Pageable): (r: seq<ItemRequest>)
    requires p.page >= 0 && p.size >= 1
    ensures |r| <= p.size
    ensures IsPage(r, OtherRequests(requests, userId), p)
    ensures forall x :: x in r ==> x in requests && x.requestorId != userId
    ensures NewestFirst(r)
  {
    var others := OtherRequests(requests, userId);
    OtherRequestsMembers(requests, userId);
    PageNewestFirst(others, p);
    PageContent(others, p)
  }

  /** The first page holds the newest other requests, from the first one on. */
  lemma FirstPageRows(requests: seq<ItemRequest>, userId: int, p: Pageable)
    requires p.page == 0 && p.size >= 1
    ensures FindAllByRequestorIdNot(requests, userId, p) <= OtherRequests(requests, userId)
  {
    var others := OtherRequests(requests, userId);
    var r := FindAllByRequestorIdNot(requests, userId, p);
    assert Offset(p) == 0;
    assert |r| == if |others| == 0 then 0 else Min(p.size, |others|);
    assert r == others[..|r|];
  }
}
