/**
 * The older item request service. Everything but paging is the newer
 * service's code; its `findAllOtherRequests` divides `from` by `size`
 * without checking either, so a zero size is an ArithmeticException, a
 * negative size fails in `PageRequest.of`, and a small negative offset is
 * silently read as the first page.
 */
module LegacyItemRequestService {
  import opened Common
  import opened Rows
  import opened Entities
  import opened Paging
  import ItemRequestRepository
  import ItemRequestService

  /** `PageRequest.of(from / size, size)` with nothing checked first. */
  function LegacyPageable(from: Int32, size: Int32): (r: Result<Pageable>)
    ensures size == 0 ==> r == Err(Arithmetic)
    ensures size < 0 ==> r == Err(IllegalArgument)
    ensures size > 0 ==> (r.Ok? <==> from as int > -(size as int))
    ensures size > 0 && r.Err? ==> r.error == IllegalArgument
    ensures r.Ok? ==> r.value.size == size as int
    ensures r.Ok? && from >= 0 ==> Offset(r.value) <= from as int < Offset(r.value) + r.value.size
    ensures r.Ok? && from < 0 ==> r.value.page == 0
  {
    match JavaDiv(from, size)
    case Err(e) => Err(e)
    case Ok(page) =>
      if size > 0 && from >= 0 then
        DivWindow(from, size);
        PageRequestOf(page as int, size as int)
      else if size > 0 then
        NegativeOffsetPage(from as int, size as int);
        PageRequestOf(page as int, size as int)
      else PageRequestOf(page as int, size as int)
  }

  /** A negative offset divided by a positive size truncates to page 0 exactly when it is above `-size`. */
  lemma NegativeOffsetPage(from: int, size: int)
    requires size > 0 && from < 0
    ensures TruncDiv(from, size) <= 0
    ensures TruncDiv(from, size) == 0 <==> from > -size
  {
    EuclidNonneg(-from, size);
    var q := (-from) / size;
    if q >= 1 {
      MulAtLeast(size, q);
    }
  }

  /** On the arguments the newer service accepts, both services ask for the same page. */
  lemma PagingAgreesOnSoundArguments(from: Int32, size: Int32)
    requires from >= 0 && size > 0
    ensures LegacyPageable(from, size) == ItemRequestService.ToPageable(from, size)
  {
  }

  /** `from = -5, size = 10`: the newer service refuses it, the older one returns the first page. */
  lemma NegativeOffsetReadsFirstPage()
    ensures ItemRequestService.ToPageable(-5, 10) == Err(IllegalArgument)
    ensures LegacyPageable(-5, 10) == Ok(Pageable(0, 10))
  {
    NegativeOffsetPage(-5, 10);
  }

  /**
   * `findAllOtherRequests`: the user must exist (NotFound); the paging
   * arguments then fail as `LegacyPageable` says, and the result is the
   * page of other users' requests it selects.
   */
  function FindAllOtherRequests(t: Tables, userId: int, from: Int32, size: Int32): (r: Result<seq<ItemRequest>>)
    ensures !UserExists(t, userId) ==> r == Err(NotFound)
    ensures UserExists(t, userId) && LegacyPageable(from, size).Err? ==> r == Err(LegacyPageable(from, size).error)
    ensures UserExists(t, userId) && LegacyPageable(from, size).Ok? ==> r.Ok?
    ensures from >= 0 && size > 0 ==> r == ItemRequestService.FindAllOtherRequests(t, userId, from, size)
    ensures r.Ok? ==> forall x :: x in r.value ==> x in t.requests && x.requestorId != userId
    ensures r.Ok? ==> ItemRequestRepository.NewestFirst(r.value)
    ensures r.Ok? && from < 0 ==> r.value <= ItemRequestRepository.OtherRequests(t.requests, userId)
    ensures r.Ok? && from < 0 ==> |r.value| == Min(size as int, |ItemRequestRepository.OtherRequests(t.requests, userId)|)
  {
    if !UserExists(t, userId) then Err(NotFound)
    else
      match LegacyPageable(from, size)
      case Err(e) => Err(e)
      case Ok(p) =>
        if from >= 0 && size > 0 then
          PagingAgreesOnSoundArguments(from, size);
          Ok(ItemRequestRepository.FindAllByRequestorIdNot(t.requests, userId, p))
        else
          ItemRequestRepository.FirstPageRows(t.requests, userId, p);
          Ok(ItemRequestRepository.FindAllByRequestorIdNot(t.requests, userId, p))
  }
}
