/**
 * The item request service: creating a request, looking one up, a user's
 * own requests, and everybody else's requests one page at a time, where the
 * page is chosen from a row offset `from` and a page `size`.
 */
module ItemRequestService {
  import opened Common
  import opened Rows
  import opened Entities
  import opened Store
  import opened Paging
  import ItemRequestRepository

  /**
   * `toPageable`: the size must be positive and the offset non-negative
   * (IllegalArgumentException otherwise, size checked first); the page is
   * the one whose window of `size` rows contains row `from`.
   */
  function ToPageable(from: Int32, size: Int32): (r: Result<Pageable>)
    ensures r.Err? <==> size <= 0 || from < 0
    ensures r.Err? ==> r.error == IllegalArgument
    ensures r.Ok? ==> r.value.size == size as int && r.value.page >= 0
    ensures r.Ok? ==> Offset(r.value) <= from as int < Offset(r.value) + r.value.size
  {
    if size <= 0 then Err(IllegalArgument)
    else if from < 0 then Err(IllegalArgument)
    else
      match JavaDiv(from, size)
      case Err(e) => Err(e)
      case Ok(page) =>
        DivWindow(from, size);
        PageRequestOf(page as int, size as int)
  }

  /** With `from = 15` and `size = 10` the second page (number 1) of ten rows is asked for. */
  lemma ToPageableExample()
    ensures ToPageable(15, 10) == Ok(Pageable(1, 10))
  {
    var r := ToPageable(15, 10);
    assert r.value.page * 10 <= 15 < r.value.page * 10 + 10;
  }

  /** `findById`: the user must exist, then the request (NotFound for either). */
  function FindById(t: Tables, userId: int, requestId: int): (r: Result<ItemRequest>)
    ensures r.Err? <==> !UserExists(t, userId) || RequestById(t, requestId).None?
    ensures r.Err? ==> r.error == NotFound
    ensures r.Ok? ==> r.value in t.requests && r.value.id == requestId
  {
    if !UserExists(t, userId) then Err(NotFound)
    else
      match RequestById(t, requestId)
      case None => Err(NotFound)
      case Some(request) => Ok(request)
  }

  /** `findAllByRequestor`: the user must exist; then their own requests, newest first. */
  function FindAllByRequestor(t: Tables, userId: int): (r: Result<seq<ItemRequest>>)
    ensures r.Err? <==> !UserExists(t, userId)
    ensures r.Err? ==> r.error == NotFound
    ensures r.Ok? ==> forall x :: multiset(r.value)[x] == if x.requestorId == userId then multiset(t.requests)[x] else 0
    ensures r.Ok? ==> ItemRequestRepository.NewestFirst(r.value)
  {
    if !UserExists(t, userId) then Err(NotFound)
    else Ok(ItemRequestRepository.FindAllByRequestorId(t.requests, userId))
  }

  /**
   * `findAllOtherRequests`: the user must exist (NotFound), then the paging
   * arguments must be sound (IllegalArgumentException); the result is the
   * page of other users' requests, newest first, that holds row `from`: the
   * rows from the start `off` of that page's window on, as many as remain,
   * at most `size`.
   */
  function FindAllOtherRequests(t: Tables, userId: int, from: Int32, size: Int32): (r: Result<seq<ItemRequest>>)
    ensures r.Err? <==> !UserExists(t, userId) || size <= 0 || from < 0
    ensures r.Err? ==> r.error == if !UserExists(t, userId) then NotFound else IllegalArgument
    ensures r.Ok? ==> |r.value| <= size as int
    ensures r.Ok? ==> forall x :: x in r.value ==> x in t.requests && x.requestorId != userId
    ensures r.Ok? ==> ItemRequestRepository.NewestFirst(r.value)
    ensures r.Ok? && from as int < |ItemRequestRepository.OtherRequests(t.requests, userId)| ==>
      && (from as int) % (size as int) < |r.value|
      && r.value[(from as int) % (size as int)] == ItemRequestRepository.OtherRequests(t.requests, userId)[from]
    ensures r.Ok? ==>
      && Offset(ToPageable(from, size).value) <= from as int < Offset(ToPageable(from, size).value) + size as int
      && IsPage(r.value, ItemRequestRepository.OtherRequests(t.requests, userId), ToPageable(from, size).value)
  {
    if !UserExists(t, userId) then Err(NotFound)
    else
      match ToPageable(from, size)
      case Err(e) => Err(e)
      case Ok(p) =>
        PageOfRow(ItemRequestRepository.OtherRequests(t.requests, userId), p, from as int);
        Ok(ItemRequestRepository.FindAllByRequestorIdNot(t.requests, userId, p))
  }

  class ItemRequestService {
    const db: Db

    constructor (db: Db)
      ensures this.db == db
    {
      this.db := db;
    }

    /** `create`: the user must exist; the request is stored under a fresh id, made by them at `now`. */
    method Create(request: ItemRequest, userId: int, now: int) returns (r: Result<ItemRequest>)
      requires db.Valid()
      modifies db
      ensures db.Valid()
      ensures r.Err? <==> !UserExists(old(db.t), userId)
      ensures r.Err? ==> r.error == NotFound && db.t == old(db.t) && db.nextId == old(db.nextId)
      ensures r.Ok? ==> r.value == request.(id := old(db.nextId), requestorId := userId, created := now)
      ensures r.Ok? ==> db.t == old(db.t).(requests := old(db.t.requests) + [r.value]) && db.nextId == old(db.nextId) + 1
      ensures r.Ok? ==> RequestById(db.t, r.value.id) == Some(r.value)
    {
      var requestor := UserById(db.t, userId);
      if requestor.None? {
        return Err(NotFound);
      }
      var saved := db.InsertRequest(request.(id := 0, requestorId := requestor.value.id, created := now));
      r := Ok(saved);
    }
  }
}
