/**
 * Building the request views: every request together with the items that
 * answer it, fetched for all requests in one batch and grouped by request.
 */
module ItemRequestDtoAssembler {
  import opened Common
  import opened Rows
  import opened Entities
  import ItemRepository

  /** `ItemRequestDto`: a request and the items answering it. */
  datatype RequestView = RequestView(request: ItemRequest, items: seq<Item>)

  /**
   * `mapRequestsToDtos`: nothing for a null or empty list; otherwise one
   * view per request, in order, holding exactly the items that answer that
   * request, in storage order (an empty list when there are none).
   */
  function MapRequestsToDtos(t: Tables, requests: Option<seq<ItemRequest>>): (r: seq<RequestView>)
    ensures requests.None? ==> r == []
    ensures requests.Some? ==> |r| == |requests.value|
    ensures requests.Some? ==> forall i :: 0 <= i < |r| ==> r[i].request == requests.value[i]
    ensures requests.Some? ==> forall i :: 0 <= i < |r| ==> r[i].items == ItemRepository.FindAllByItemRequestId(t.items, requests.value[i].id)
  {
    if requests.None? || requests.value == [] then []
    else
      var rs := requests.value;
      var requestIds := KeysOf(rs, RequestKey);
      var fetched := ItemRepository.FindAllByItemRequestIdIn(t.items, requestIds);
      var itemsByRequestId := GroupBy(fetched, ItemRepository.ItemRequestOf);
      var views := seq(|rs|, i requires 0 <= i < |rs| => RequestView(rs[i], GetOrEmpty(itemsByRequestId, rs[i].id)));
      assert forall i :: 0 <= i < |views| ==> views[i].items == ItemRepository.FindAllByItemRequestId(t.items, rs[i].id) by {
        forall i | 0 <= i < |views| ensures views[i].items == ItemRepository.FindAllByItemRequestId(t.items, rs[i].id) {
          assert rs[i].id == requestIds[i];
          GroupByGetOrDefault(fetched, ItemRepository.ItemRequestOf, rs[i].id);
          ItemRepository.BatchGroupIsRequestItems(t.items, requestIds, rs[i].id);
        }
      }
      views
  }

  /** A request no item answers gets an empty list of items. */
  lemma UnansweredRequestIsEmpty(t: Tables, requests: seq<ItemRequest>, k: int)
    requires 0 <= k < |requests|
    requires forall i :: i in t.items ==> i.requestId != Some(requests[k].id)
    ensures MapRequestsToDtos(t, Some(requests))[k].items == []
  {
  }
}
