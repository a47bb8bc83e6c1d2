# ShareIt core in Dafny

ShareIt is a service for lending things. Users list items. Other users
request to book them for an interval, and the owner approves or rejects each
booking once. An item's page shows its comments and, for its owner, the last
and the next approved booking. A user can post an item request; items
offered in answer to it are attached to it. The repository holds several
generations of the server side: a newer server and an older one with its own
booking, item, request and user services. The older one also has a variant
whose item and user services validate their arguments before touching the
store.

The model keeps each variant side by side, one module per service or
repository:

- **Data.** Every table is a sequence of row values in storage order
  (`Entities`). A nullable column is an `Option`. Java exceptions become
  the `Error` kinds of `Common`.
- **The database.** `Store.Db` is one mutable object holding the current
  rows and the identity counter. Its insert, update and delete methods keep
  every table keyed by distinct ids drawn from the counter.
- **Reads.** A query or a read-only service operation is a function of the
  tables. A derived Spring Data finder is a selection followed by a stable
  sort on the `order by` key (`Rows.Select`).
- **Writes.** An operation that writes is a method of a service class that
  shares the one `Db`. Its contract states the outcome and the whole new
  store: on every error path the store is unchanged.
- **Where variants should agree,** lemmas and contracts say so: the JPQL
  state table against the derived finders, the per-item booking queries
  against the batch ones, and the two paging schemes. Where variants
  differ, lemmas say how: a negative offset, a missing owner.
- **Time.** "Now" is an explicit integer parameter everywhere the source
  reads the clock.

## Model

| member | source | states |
|---|---|---|
| BookingStates.InState | src/main/java/ru/practicum/shareit/booking/BookingRepository.java:17-22 | what each listing state admits: CURRENT has started and not ended, PAST has ended, FUTURE has not started, WAITING and REJECTED test the status, ALL admits every booking |
| BookingStates.NameInjective | src/main/java/ru/practicum/shareit/booking/BookingService.java:96 | different states have different names, so the name passed to the query picks out one state |
| BookingStates.StartDescKeyOrders | shareit-server/src/main/java/ru/practicum/shareit/booking/BookingRepository.java:17 | rows sorted on the `order by start desc` key have non-increasing start times |
| BookingStates.StartAscKeyOrders | shareit-server/src/main/java/ru/practicum/shareit/booking/BookingRepository.java:58-59 | rows sorted on the `order by start asc` key have non-decreasing start times |
| BookingRepository.FindByBookerId | shareit-server/src/main/java/ru/practicum/shareit/booking/BookingRepository.java:17-29 | the booker finders: exactly the bookings of that booker meeting the condition, each as often as stored, latest start first |
| BookingRepository.FindByItemOwnerId | shareit-server/src/main/java/ru/practicum/shareit/booking/BookingRepository.java:34-46 | the owner finders: exactly the bookings whose item belongs to the owner and that meet the condition, latest start first |
| BookingRepository.CriterionFor | shareit-server/src/main/java/ru/practicum/shareit/booking/BookingService.java:64-77 | the finder chosen for each state admits exactly the bookings in that state at `now` |
| BookingRepository.ExistsFinished | shareit-server/src/main/java/ru/practicum/shareit/booking/BookingRepository.java:50-51 | true exactly when the booker has a booking of the item with the given status that ended before `now` |
| BookingRepository.FindFirstLast | shareit-server/src/main/java/ru/practicum/shareit/booking/BookingRepository.java:55-56 | none exactly when no booking of the item with the status has started; otherwise a started one whose start is the greatest |
| BookingRepository.FindFirstNext | shareit-server/src/main/java/ru/practicum/shareit/booking/BookingRepository.java:58-59 | none exactly when no booking of the item with the status is still to start; otherwise such a booking whose start is the smallest |
| BookingRepository.LastBeforeNext | shareit-server/src/main/java/ru/practicum/shareit/booking/BookingRepository.java:55-59 | the last booking has started, the next has not, so they are never the same booking |
| BookingRepository.FindLastForItems | shareit-server/src/main/java/ru/practicum/shareit/booking/BookingRepository.java:61-63 | exactly the started bookings of the listed items with the status, ordered by item id, then latest start first |
| BookingRepository.FindNextForItems | shareit-server/src/main/java/ru/practicum/shareit/booking/BookingRepository.java:65-67 | exactly the not-yet-started bookings of the listed items with the status, ordered by item id, then earliest start first |
| BookingService.ValidateBookingCreation | shareit-server/src/main/java/ru/practicum/shareit/booking/BookingService.java:126-139 | passes exactly for an owned item of someone else that is available, with both instants given and start before end; NotFound exactly when the owner books their own item, a NullPointerException exactly for a null owner or (for someone else) a null availability, every other refusal (an unavailable item, missing or inverted instants) Validation |
| BookingService.CreationCheck | shareit-server/src/main/java/ru/practicum/shareit/booking/BookingService.java:26-30 | the item is looked up before the booker; passes exactly when both exist and the creation rules hold; NotFound exactly for a missing item, a missing booker or the owner's own item; once both exist, the outcome is that of `validateBookingCreation` |
| BookingService.OwnerCheckPrecedesAvailability | shareit-server/src/main/java/ru/practicum/shareit/booking/BookingService.java:127-132 | the owner asking for their own unavailable item gets NotFound, not Validation |
| BookingService.MissingOrInvertedDatesAreValidation | shareit-server/src/main/java/ru/practicum/shareit/booking/BookingService.java:133-138 | once item and booker are acceptable, the request fails only on missing or non-increasing instants, and then with Validation |
| BookingService.AssertIsOwner | shareit-server/src/main/java/ru/practicum/shareit/booking/BookingService.java:141-145 | passes exactly for the owner of the booked item; anyone else is Forbidden, and an item without an owner is a NullPointerException |
| BookingService.AssertIsOwnerOrBooker | shareit-server/src/main/java/ru/practicum/shareit/booking/BookingService.java:147-153 | passes exactly for the booker or the owner of an owned item; anyone else is NotFound, and an item without an owner is a NullPointerException |
| BookingService.ValidateStatusIsWaiting | shareit-server/src/main/java/ru/practicum/shareit/booking/BookingService.java:155-159 | passes exactly for a WAITING booking, otherwise Validation |
| BookingService.Decided | shareit-server/src/main/java/ru/practicum/shareit/booking/BookingService.java:45 | the decision yields APPROVED exactly when approved, and never WAITING |
| BookingService.DecisionOf | shareit-server/src/main/java/ru/practicum/shareit/booking/BookingService.java:39-47 | missing booking NotFound; a caller who is not the owner of an owned item Forbidden, whatever the status; the owner on a decided booking Validation; a NullPointerException exactly for a booking whose item has no owner; otherwise that booking with the decided status |
| BookingService.SecondDecisionFails | shareit-server/src/main/java/ru/practicum/shareit/booking/BookingService.java:42-45 | once a decision is saved, every further decision fails: Validation for the owner, Forbidden for anyone else |
| BookingService.GetBooking | shareit-server/src/main/java/ru/practicum/shareit/booking/BookingService.java:49-57 | succeeds exactly for an existing requester and booking when the requester is the booker or the owner; the result is that stored booking; refusals are NotFound, except a NullPointerException, raised exactly for an existing requester and a booking whose item has no owner |
| BookingService.GetUserBookings | shareit-server/src/main/java/ru/practicum/shareit/booking/BookingService.java:59-78 | NotFound exactly for an unknown user; otherwise exactly the user's bookings in the state at `now`, each as often as stored, latest start first |
| BookingService.GetOwnerBookings | shareit-server/src/main/java/ru/practicum/shareit/booking/BookingService.java:81-100 | NotFound exactly for an unknown user; otherwise exactly the bookings of the user's items in the state at `now`, latest start first |
| BookingService.BookingService.CreateBooking | shareit-server/src/main/java/ru/practicum/shareit/booking/BookingService.java:25-36 | fails exactly when the creation check fails, with its error and nothing written; otherwise appends a WAITING booking with a fresh id, the item, the booker and the instants |
| BookingService.BookingService.SetApprovedOrRejected | shareit-server/src/main/java/ru/practicum/shareit/booking/BookingService.java:38-47 | the outcome is the decision; on success only that booking's status changes, on failure nothing does |
| LegacyBookingRepository.StateClause | src/main/java/ru/practicum/shareit/booking/BookingRepository.java:16-23 | the state disjunction of the listing queries, for a state given by name |
| LegacyBookingRepository.StateClauseByName | src/main/java/ru/practicum/shareit/booking/BookingRepository.java:16-23 | the clause selected by a state's own name holds exactly for the bookings in that state |
| LegacyBookingRepository.UnknownStateSelectsNothing | src/main/java/ru/practicum/shareit/booking/BookingRepository.java:16-23 | a name that is no state's name admits no booking |
| LegacyBookingRepository.FindAllForBooker | src/main/java/ru/practicum/shareit/booking/BookingRepository.java:12-28 | exactly the booker's bookings admitted by the state clause, each as often as stored, latest start first |
| LegacyBookingRepository.FindAllForOwner | src/main/java/ru/practicum/shareit/booking/BookingRepository.java:30-46 | exactly the bookings of the owner's items admitted by the state clause, latest start first |
| LegacyBookingRepository.HasFinishedBooking | src/main/java/ru/practicum/shareit/booking/BookingRepository.java:48-59 | `count > 0` holds exactly when such a finished booking exists |
| LegacyBookingRepository.FindLastApproved | src/main/java/ru/practicum/shareit/booking/BookingRepository.java:61-70 | exactly the approved, started bookings of the item, latest start first |
| LegacyBookingRepository.FindNextApproved | src/main/java/ru/practicum/shareit/booking/BookingRepository.java:72-81 | exactly the approved bookings of the item still to start, earliest start first |
| LegacyBookingRepository.LastAndNextDisjoint | src/main/java/ru/practicum/shareit/booking/BookingRepository.java:61-81 | every row of the last list starts before every row of the next list, so no booking is in both |
| LegacyBookingRepository.BookerListingsAgree | src/main/java/ru/practicum/shareit/booking/BookingRepository.java:12-28 | for every state, the JPQL booker listing is the same sequence as the derived finder of the newer repository |
| LegacyBookingRepository.OwnerListingsAgree | src/main/java/ru/practicum/shareit/booking/BookingRepository.java:30-46 | for every state, the JPQL owner listing is the same sequence as the newer owner finder |
| LegacyBookingService.GetBooking | src/main/java/ru/practicum/shareit/booking/BookingService.java:72-89 | the inline checks give the same outcome as the newer `getBooking` on every input |
| LegacyBookingService.GetUserBookings | src/main/java/ru/practicum/shareit/booking/BookingService.java:91-97 | same outcome as the newer booker listing for every state |
| LegacyBookingService.GetOwnerBookings | src/main/java/ru/practicum/shareit/booking/BookingService.java:99-105 | same outcome as the newer owner listing for every state |
| LegacyBookingService.LegacyBookingService.CreateBooking | src/main/java/ru/practicum/shareit/booking/BookingService.java:25-52 | the inline checks fail exactly when the newer creation check fails, with the same error and nothing written; otherwise the same WAITING row is appended |
| LegacyBookingService.LegacyBookingService.SetApprovedOrRejected | src/main/java/ru/practicum/shareit/booking/BookingService.java:54-70 | outcome and new store are those of the newer decision |
| CommentRepository.FindByItemId | src/main/java/ru/practicum/shareit/item/comment/CommentRepository.java:10-11 | exactly the item's comments, each as often as stored, newest first; the older repository's `findItemComments` (CommentRepository.java lines 12-18 of the item package) is the same query |
| CommentRepository.FindByItemIdIn | src/main/java/ru/practicum/shareit/item/CommentRepository.java:20-26 | exactly the comments on any listed item, each as often as stored, sorted newest first |
| CommentRepository.ItemCommentsEmpty | src/main/java/ru/practicum/shareit/item/CommentRepository.java:12-18 | an item's comment list is empty exactly when no stored comment is about it |
| CommentRepository.BatchGroupIsItemComments | server/src/main/java/ru/practicum/shareit/item/ItemService.java:190-194 | grouping the batch by item and taking `getOrDefault(id, [])` gives each listed item the same comments, counted with multiplicity, as the single-item query, newest first, and empty exactly when it has none |
| ItemRepository.FindAllByOwnerId | server/src/main/java/ru/practicum/shareit/item/ItemRepository.java:13 | exactly the items owned by the user, each as often as stored |
| ItemRepository.SearchAvailableByText | server/src/main/java/ru/practicum/shareit/item/ItemRepository.java:15-22 | exactly the stored items meeting the `where` clause, each as often as stored; never an unavailable item |
| ItemRepository.SearchIsCaseInsensitiveContains | server/src/main/java/ru/practicum/shareit/item/ItemRepository.java:18-20 | for a text without wildcards, an item matches exactly when it is available and its name or description contains the text, ignoring letter case |
| ItemRepository.SearchIgnoresTextCase | server/src/main/java/ru/practicum/shareit/item/ItemRepository.java:19-20 | searching for a text and for its lower-cased form match the same items |
| ItemRepository.ColumnLikeIsContains | server/src/main/java/ru/practicum/shareit/item/ItemRepository.java:19-20 | `lower(col) like lower('%' + text + '%')` holds exactly when the column is present and contains the text, ignoring case |
| ItemRepository.LowerPattern | server/src/main/java/ru/practicum/shareit/item/ItemRepository.java:19 | lower-casing the built pattern lower-cases only the text between the two `%` |
| Common.SurroundedLikeIsContains | server/src/main/java/ru/practicum/shareit/item/ItemRepository.java:19-20 | a string is LIKE `'%' + text + '%'` exactly when it contains the wildcard-free text |
| Common.LikePrefix | server/src/main/java/ru/practicum/shareit/item/ItemRepository.java:19-20 | LIKE `q + '%'` is a prefix test for a wildcard-free `q` |
| Common.LikeLeadingPercent | server/src/main/java/ru/practicum/shareit/item/ItemRepository.java:19-20 | LIKE `'%' + r` holds exactly when some suffix is LIKE `r` |
| ItemRepository.FindAllByItemRequestId | server/src/main/java/ru/practicum/shareit/item/ItemRepository.java:24 | exactly the items answering the request, each as often as stored; both request services' `findItemsByRequestId` (server lines 39-41, older lines 42-44) delegate to it |
| ItemRepository.FindAllByItemRequestIdIn | server/src/main/java/ru/practicum/shareit/item/ItemRepository.java:26 | exactly the items answering any listed request, each as often as stored; both request services' `findAllItemsByRequestsIds` (server lines 48-50, older lines 53-55) delegate to it |
| ItemRepository.BatchGroupIsRequestItems | server/src/main/java/ru/practicum/shareit/request/ItemRequestDtoAssembler.java:40-46 | the batch lookup grouped by request gives each listed request the same items, in the same order, as the single-request lookup |
| ItemService.AssertOwner | server/src/main/java/ru/practicum/shareit/item/ItemService.java:148-156 | passes exactly for the item's owner; anyone else, and everyone for an ownerless item, is Forbidden |
| ItemService.Patched | server/src/main/java/ru/practicum/shareit/item/ItemService.java:175-187 | each field the patch sets replaces the stored one; the others, and id, owner and request, are kept |
| ItemService.PatchIdempotent | server/src/main/java/ru/practicum/shareit/item/ItemService.java:175-187 | applying a patch twice is applying it once |
| ItemService.EmptyPatchIsIdentity | server/src/main/java/ru/practicum/shareit/item/ItemService.java:175-187 | a patch that sets nothing leaves the item unchanged |
| ItemService.ValidPatchKeepsFilled | server/src/main/java/ru/practicum/shareit/item/ItemService.java:175-187 | an accepted patch never blanks a filled name or description |
| ItemService.ApplyPatch | server/src/main/java/ru/practicum/shareit/item/ItemService.java:175-187 | fails with Validation exactly when a present name or description is blank; otherwise yields the patched item; the older and the validating `applyPatch` (lines 178-196 and 105-123 of their ItemService.java) are the same update |
| ItemService.FirstBookingPerItemId | server/src/main/java/ru/practicum/shareit/item/ItemService.java:212-218 | the `putIfAbsent` loop keeps, for each item that occurs, its first candidate: the map lookup equals the first match in the list |
| ItemService.BatchFirstIsLast | server/src/main/java/ru/practicum/shareit/item/ItemService.java:196-202 | the first batch candidate of a listed item exists exactly when the single-item last query finds one; it is a started approved booking of the item with the same, greatest start |
| ItemService.BatchFirstIsNext | server/src/main/java/ru/practicum/shareit/item/ItemService.java:204-210 | the same for the next booking and the smallest start |
| ItemService.BatchEntryAgrees | server/src/main/java/ru/practicum/shareit/item/ItemService.java:95-103 | the entry the batch queries give a listed item agrees with the single-item queries: bookings up to equal start, comments as a multiset, newest first |
| ItemService.GetItemWithComments | server/src/main/java/ru/practicum/shareit/item/ItemService.java:65-80 | NotFound exactly for an unknown requester or item; the item's own comments; last and next approved bookings for the owner only, none for others |
| ItemService.GetAllByOwnerWithComments | server/src/main/java/ru/practicum/shareit/item/ItemService.java:83-106 | NotFound exactly for an unknown owner; one entry per owned item, in order, each agreeing with the single-item queries |
| ItemService.Search | server/src/main/java/ru/practicum/shareit/item/ItemService.java:125-128 | nothing for a null or blank text, else exactly the available items the repository search matches, each as often as stored; the older `search` (lines 152-157 of its ItemService.java) is the same |
| ItemService.ItemService.CreateItem | server/src/main/java/ru/practicum/shareit/item/ItemService.java:38-47 | NotFound, writing nothing, exactly for an unknown owner or a given request that is missing; otherwise the item is appended under a fresh id with that owner and request |
| ItemService.ItemService.UpdateItem | server/src/main/java/ru/practicum/shareit/item/ItemService.java:50-55 | missing item NotFound, non-owner Forbidden, blank field Validation, each writing nothing; otherwise the patched item replaces the stored one |
| ItemService.ItemService.DeleteItem | server/src/main/java/ru/practicum/shareit/item/ItemService.java:58-62 | missing item NotFound, non-owner Forbidden; otherwise exactly that row is removed |
| ItemService.ItemService.AddComment | server/src/main/java/ru/practicum/shareit/item/ItemService.java:109-122 | unknown author or item NotFound; Validation unless the author has an approved booking of the item that ended before `now`; otherwise the comment is appended with author, item and `now` |
| LegacyItemService.AssertOwner | src/main/java/ru/practicum/shareit/item/ItemService.java:169-176 | an ownerless item is NotFound, another owner Forbidden; passes exactly for the owner |
| LegacyItemService.AssertOwnerAgreesWithServer | src/main/java/ru/practicum/shareit/item/ItemService.java:169-176 | both variants admit exactly the owner and refuse an owned item alike; they differ only on ownerless items |
| LegacyItemService.FindById | src/main/java/ru/practicum/shareit/item/ItemService.java:59-62 | NotFound exactly for an unknown user or item; otherwise the stored item with that id |
| LegacyItemService.GetAllByOwner | src/main/java/ru/practicum/shareit/item/ItemService.java:65-68 | NotFound exactly for an unknown owner; otherwise exactly the owner's items, each as often as stored |
| LegacyItemService.FirstOfLastApproved | src/main/java/ru/practicum/shareit/item/ItemService.java:86-89 | the first row of `findLastApproved` is the newer single-item last query's result |
| LegacyItemService.FirstOfNextApproved | src/main/java/ru/practicum/shareit/item/ItemService.java:91-94 | the first row of `findNextApproved` is the newer next query's result |
| LegacyItemService.GetItemWithComments | src/main/java/ru/practicum/shareit/item/ItemService.java:71-98 | same outcome as the newer `getItemWithComments` on every input |
| LegacyItemService.GetAllByOwnerWithComments | src/main/java/ru/practicum/shareit/item/ItemService.java:101-129 | NotFound exactly for an unknown owner; one entry per owned item, in order, whose last and next are exactly the single-item results and whose comments are the item's own, newest first |
| LegacyItemService.OwnerEntries | src/main/java/ru/practicum/shareit/item/ItemService.java:107-128 | the entries built from the comment batch and the per-item booking queries, one per item, in order, exact as above |
| LegacyItemService.LegacyItemService.CreateItem | src/main/java/ru/practicum/shareit/item/ItemService.java:32-40 | NotFound, writing nothing, for an unknown owner; otherwise appended under a fresh id with that owner |
| LegacyItemService.LegacyItemService.UpdateItem | src/main/java/ru/practicum/shareit/item/ItemService.java:42-49 | missing item NotFound, ownerless NotFound, non-owner Forbidden, blank field Validation, each writing nothing; otherwise the patched item replaces the stored one |
| LegacyItemService.LegacyItemService.DeleteItem | src/main/java/ru/practicum/shareit/item/ItemService.java:51-56 | missing or ownerless item NotFound, non-owner Forbidden; otherwise that row is removed |
| LegacyItemService.LegacyItemService.AddComment | src/main/java/ru/practicum/shareit/item/ItemService.java:131-149 | as the newer `addComment`, with `hasFinishedBooking` as the author check |
| Common.ValidateId | src/main/java/ru/practicum/shareit/item/service/ItemService.java:140-150 | passes exactly for a present, positive id, else Validation; the validating user service's `validateUserId` (lines 88-92 of its UserService.java) is the same check |
| ValidatingItemService.ValidateCreateItem | src/main/java/ru/practicum/shareit/item/service/ItemService.java:125-138 | passes exactly for a present item with filled name and description and a given availability, else Validation |
| Common.ValidatePresent | src/main/java/ru/practicum/shareit/item/service/ItemService.java:152-156 | `validatePatch`: passes exactly for a present patch, else Validation; the validating user service's `validatePatch` (lines 94-98 of its UserService.java) is the same check |
| ValidatingItemService.PatchKeepsComplete | src/main/java/ru/practicum/shareit/item/service/ItemService.java:105-138 | a complete item stays complete under every accepted patch |
| ValidatingItemService.FindById | src/main/java/ru/practicum/shareit/item/service/ItemService.java:63-69 | Validation exactly for an invalid id; otherwise the older `findById` |
| ValidatingItemService.GetAllByOwner | src/main/java/ru/practicum/shareit/item/service/ItemService.java:71-75 | Validation exactly for an invalid id; otherwise the older `getAllByOwner` |
| ValidatingItemService.Search | src/main/java/ru/practicum/shareit/item/service/ItemService.java:77-83 | Validation exactly for an invalid caller id, even for a blank text; otherwise the plain search |
| ValidatingItemService.ValidatingItemService.CreateItem | src/main/java/ru/practicum/shareit/item/service/ItemService.java:25-37 | Validation exactly for an incomplete item or a bad owner id; NotFound exactly for a valid but unknown owner; no other error; nothing written on error; otherwise appended with that owner |
| ValidatingItemService.ValidatingItemService.UpdateItem | src/main/java/ru/practicum/shareit/item/service/ItemService.java:39-50 | the ids and patch are validated first; after that NotFound, ownerless NotFound, Forbidden, Validation, or the patched item replacing the stored one |
| ValidatingItemService.ValidatingItemService.DeleteItem | src/main/java/ru/practicum/shareit/item/service/ItemService.java:52-61 | Validation for a bad id, then NotFound, then the older owner check; only on success is the row removed |
| Paging.TruncDivRemainder | src/main/java/ru/practicum/shareit/request/ItemRequestService.java:62 | Java's truncating division: the remainder has the dividend's sign and is smaller than the divisor, and the quotient is no larger than the dividend in absolute value |
| Paging.JavaDiv | src/main/java/ru/practicum/shareit/request/ItemRequestService.java:62 | `from / size` on `int`: division by zero is ArithmeticException, the quotient truncates toward zero, and `MIN_VALUE / -1` wraps to `MIN_VALUE` |
| Paging.DivWindow | server/src/main/java/ru/practicum/shareit/request/ItemRequestService.java:81-82 | for a non-negative offset and positive size the page number is non-negative and its window of `size` rows holds the offset |
| Paging.PageRequestOf | server/src/main/java/ru/practicum/shareit/request/ItemRequestService.java:82 | `PageRequest.of` refuses a negative page or a size below one with IllegalArgumentException |
| Paging.PageContent | server/src/main/java/ru/practicum/shareit/request/ItemRequestService.java:56-58 | at most `size` rows, as many as remain after the offset, each the row at offset plus its position |
| Paging.PageOfRow | server/src/main/java/ru/practicum/shareit/request/ItemRequestService.java:81-82 | the page whose window contains row `k` holds that row at position `k % size` |
| ItemRequestRepository.FindAllByRequestorId | server/src/main/java/ru/practicum/shareit/request/ItemRequestService.java:45 | exactly the user's own requests, each as often as stored, newest first |
| ItemRequestRepository.OtherRequests | server/src/main/java/ru/practicum/shareit/request/ItemRequestService.java:56-57 | exactly the requests of everybody else, newest first: the rows the paged query pages through |
| ItemRequestRepository.FindAllByRequestorIdNot | server/src/main/java/ru/practicum/shareit/request/ItemRequestService.java:56-58 | one page of the other users' requests, newest first: as many as remain after the page's offset, at most `size`, each the request at the offset plus its position |
| ItemRequestRepository.FirstPageRows | src/main/java/ru/practicum/shareit/request/ItemRequestService.java:62-65 | page 0 is a prefix of everybody else's requests |
| ItemRequestService.ToPageable | server/src/main/java/ru/practicum/shareit/request/ItemRequestService.java:74-83 | IllegalArgumentException exactly for a non-positive size or a negative offset; otherwise a page of that size whose window holds the offset |
| ItemRequestService.ToPageableExample | server/src/main/java/ru/practicum/shareit/request/ItemRequestService.java:81-82 | offset 15 and size 10 ask for page 1 of 10 rows |
| ItemRequestService.FindById | server/src/main/java/ru/practicum/shareit/request/ItemRequestService.java:33-37 | NotFound exactly for an unknown user or request; otherwise the stored request; the older `findById` (lines 33-40 of its ItemRequestService.java) is the same |
| ItemRequestService.FindAllByRequestor | server/src/main/java/ru/practicum/shareit/request/ItemRequestService.java:43-46 | NotFound exactly for an unknown user; otherwise the user's own requests, each as often as stored, newest first; the older `findAllByRequestor` (lines 46-51) is the same |
| ItemRequestService.FindAllOtherRequests | server/src/main/java/ru/practicum/shareit/request/ItemRequestService.java:52-59 | NotFound for an unknown user before the paging arguments are looked at; IllegalArgumentException exactly for bad arguments; otherwise exactly the page of other users' requests, newest first, whose window of `size` rows holds row `from`, with row `from` at position `from % size` |
| ItemRequestService.ItemRequestService.Create | server/src/main/java/ru/practicum/shareit/request/ItemRequestService.java:26-31 | NotFound, writing nothing, for an unknown user; otherwise appended under a fresh id, made by the user at `now`; the older `create` (lines 25-31 of its ItemRequestService.java) is the same |
| LegacyItemRequestService.LegacyPageable | src/main/java/ru/practicum/shareit/request/ItemRequestService.java:62-63 | unchecked `PageRequest.of(from / size, size)`: size 0 is ArithmeticException, a negative size IllegalArgumentException; for a positive size it succeeds exactly when `from > -size`, a negative offset giving page 0 |
| LegacyItemRequestService.NegativeOffsetPage | src/main/java/ru/practicum/shareit/request/ItemRequestService.java:62 | a negative offset divided by a positive size truncates to 0 exactly when it is above `-size` |
| LegacyItemRequestService.PagingAgreesOnSoundArguments | src/main/java/ru/practicum/shareit/request/ItemRequestService.java:62-63 | on the arguments the newer service accepts, both compute the same page |
| LegacyItemRequestService.NegativeOffsetReadsFirstPage | src/main/java/ru/practicum/shareit/request/ItemRequestService.java:62-63 | offset -5, size 10: the newer service refuses it, the older one reads the first page |
| LegacyItemRequestService.FindAllOtherRequests | src/main/java/ru/practicum/shareit/request/ItemRequestService.java:57-67 | NotFound for an unknown user; then the paging error; succeeds whenever the user exists and the paging is accepted; equal to the newer service on sound arguments; for a negative offset the first `size` of the other users' requests |
| ItemRequestDtoAssembler.MapRequestsToDtos | server/src/main/java/ru/practicum/shareit/request/ItemRequestDtoAssembler.java:21-38 | nothing for a null or empty list; otherwise one view per request, in order, each holding exactly the items of the single-request lookup |
| ItemRequestDtoAssembler.UnansweredRequestIsEmpty | server/src/main/java/ru/practicum/shareit/request/ItemRequestDtoAssembler.java:35 | a request no item answers gets an empty item list |
| Rows.GroupByGetOrDefault | server/src/main/java/ru/practicum/shareit/request/ItemRequestDtoAssembler.java:40-46 | `groupingBy` then `getOrDefault(k, [])` is the selection of the rows with key `k`, in encounter order |
| Entities.InsertKeepsEmailsUnique | src/main/java/ru/practicum/shareit/user/UserService.java:18-23 | adding a user whose email nobody holds keeps emails unique |
| Entities.ReplaceKeepsEmailsUnique | src/main/java/ru/practicum/shareit/user/UserService.java:39-49 | saving a user who keeps their email or takes one no other user holds keeps emails unique |
| Entities.RemoveKeepsEmailsUnique | src/main/java/ru/practicum/shareit/user/UserService.java:53-59 | deleting users keeps emails unique |
| LegacyUserService.FindById | src/main/java/ru/practicum/shareit/user/UserService.java:61-64 | NotFound exactly for an unknown id; otherwise the stored user with that id |
| LegacyUserService.Patched | src/main/java/ru/practicum/shareit/user/UserService.java:32-47 | each non-null patch field replaces the stored one; the id is kept |
| LegacyUserService.PatchIdempotent | src/main/java/ru/practicum/shareit/user/UserService.java:32-47 | applying a user patch twice is applying it once |
| LegacyUserService.EmptyPatchIsIdentity | src/main/java/ru/practicum/shareit/user/UserService.java:32-47 | a patch without fields leaves the user unchanged |
| LegacyUserService.ValidPatchKeepsFilled | src/main/java/ru/practicum/shareit/user/UserService.java:32-47 | an accepted patch never blanks a filled name or email |
| LegacyUserService.LegacyUserService.CreateUser | src/main/java/ru/practicum/shareit/user/UserService.java:16-24 | Conflict, writing nothing, exactly when some user holds the email; otherwise appended under a fresh id; emails stay unique |
| LegacyUserService.LegacyUserService.UpdateUser | src/main/java/ru/practicum/shareit/user/UserService.java:26-50 | NotFound for an unknown user before any field check; Validation for a blank present field; Conflict for an email another user holds; nothing written on error; otherwise the patched user replaces the stored one and emails stay unique |
| LegacyUserService.LegacyUserService.DeleteUser | src/main/java/ru/practicum/shareit/user/UserService.java:52-59 | NotFound exactly for an unknown user and success exactly for a known one, which removes that row; emails stay unique |
| ValidatingUserService.ValidateCommonUser | src/main/java/ru/practicum/shareit/user/service/UserService.java:76-86 | passes exactly for a present user with a filled name and email, else Validation |
| ValidatingUserService.FindById | src/main/java/ru/practicum/shareit/user/service/UserService.java:69-74 | Validation exactly for an invalid id; otherwise the older `findById` |
| ValidatingUserService.ValidatingUserService.CreateUser | src/main/java/ru/practicum/shareit/user/service/UserService.java:19-28 | Validation exactly for an incomplete user; Conflict exactly for a complete user whose email is taken; no other error; nothing written on error; otherwise appended under a fresh id; emails stay unique |
| ValidatingUserService.ValidatingUserService.UpdateUser | src/main/java/ru/practicum/shareit/user/service/UserService.java:31-56 | Validation for a bad id or a null patch first; then the older update's NotFound, Validation and Conflict rules; nothing written on error; emails stay unique |
| ValidatingUserService.ValidatingUserService.DeleteUser | src/main/java/ru/practicum/shareit/user/service/UserService.java:59-67 | Validation exactly for a bad id; NotFound exactly for a valid but unknown id; no other failure; on success that row is removed |

## Left out

- Transactions and concurrency: each operation runs alone on the store. An exception thrown after an entity was changed in memory rolls the change back; the model says this as "nothing written on error".
- The database's own constraints are not enforced by `Store.Db`: not-null columns, the unique email column, foreign keys. Email uniqueness is instead kept by every user-service write and stated in its contract.
- The identity counter is one counter shared by all tables. The source uses one sequence per table; only freshness matters.
- Ties in `order by`: rows with equal sort keys keep storage order, as a stable sort would. The database does not promise this.
- `ItemService.GetAllByOwnerWithComments`: last and next bookings are stated up to bookings of equal start. The batch queries and the single-item queries may break ties differently.
- SQL `LIKE` escape characters are not modelled. The wildcard-free lemmas are stated for texts without `%`, `_` and `\`.
- `lower()` is modelled on ASCII letters only. `String.isBlank` is modelled on the white space of the Basic Multilingual Plane; supplementary characters are left out.
- DTOs, mappers and JSON are not part of this model: `ItemShortDto`, `ItemRequestDto` fields, `BookingMapper`, the controllers and the gateway. Views hold the entities themselves.
- Null arguments to the older services and to repositories are left out: the controllers always pass path and header values. The older `createUser` with a null email is modelled and is matched by `existsByEmail(null)` against null emails only.
- JPA fetch plans (`join fetch`, `@EntityGraph`) and lazy loading are left out; they change no result.
- `LocalDateTime.now()` is the parameter `now`; timestamps are integers.
- The request repository, the older item repository and the user repositories are not part of the sources. Their derived query names define the modelled queries.
- The older item entity's request column is not part of the sources. The older services never set it.
- `Paging.Offset`: `page * size` is computed by Spring as a `long` and is modelled unbounded. It cannot overflow for a 32-bit page and size.

