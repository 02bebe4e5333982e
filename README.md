# ShareIt core, modelled in Dafny

ShareIt is a service where users lend things to each other. A user registers, lists items, and marks each item as available or not. Other users book an item for a period. The owner approves or rejects each booking, exactly once. Users who have finished a booking may comment on the item. Users may also post requests for items that do not exist yet, and items created in answer to a request are listed under it.

The repository has two generations of the service:

- an older single-module tree (`src/`). It has the booking engine, the item and user services with their own checks, and two in-memory stores (users, items) that predate the database.
- a newer `server/` tree behind a validating `gateway/`. It has the item, user and request services and the mappers between entities and transfer objects.

This project models both:

- The database behind the JPA repositories is a class `Persistence.Database`. It holds one sequence of rows per table and one IDENTITY counter per table. Its invariant is that every row carries a distinct generated id below the counter, and that bookings have a booker and comments an author.
- Each derived repository query is a function over a table: filter, stable sort by the ordering column, then the page `PageRequest.of(page, size)` selects.
- Each service operation is split in two:
  - a function gives its ordered chain of checks (each failure is an `Err` carrying the exception kind and its exact message) and the entity it lets through;
  - a method on the `Database` runs those checks and saves that entity.
- The two in-memory stores are classes over a `map<Option<nat>, _>` (the `HashMap<Long, _>`, whose key may be null) and an id counter. Their scans are loops over the map's keys.
- The server and older trees are tied together by `ensures` clauses. Both trees accept the same requests, produce the same entities and raise the same errors, except where the code differs; the differences are spelled out below.

Time is the parameter `now` (epoch-based `int`). One `now` is shared by every comparison inside one call.

## Model

| member | source | states |
|---|---|---|
| Common.NatToString | src/main/java/ru/practicum/shareit/booking/service/BookingServiceImpl.java:39 | the decimal rendering of an id inside messages (`%d`): digits only, no leading zero, and its decimal value is the id, so distinct ids give distinct messages |
| Common.NatToStringInjective | src/main/java/ru/practicum/shareit/booking/service/BookingServiceImpl.java:39 | distinct ids give distinct decimal renderings |
| Common.PageIndex | src/main/java/ru/practicum/shareit/booking/service/BookingServiceImpl.java:93-97 | Java's `fromElement % size`, then `PageRequest.of(fromElement / size, size)`: a zero size is the `/ by zero` 500; a non-zero truncated remainder is the mismatch error; then a negative page index, then a size below one, are the `PageRequest` 500s; a page index exactly when `size > 0`, `from >= 0` and `size` divides `from`, and then it is `from / size` |
| Common.NegativeOffsets | src/main/java/ru/practicum/shareit/booking/service/BookingServiceImpl.java:93-97 | Java's remainder keeps the dividend's sign (`-7 % 5` is -2), so `from = -10, size = 5` passes the modulo check and fails at `PageRequest.of`; `size = -5, from = 0` fails on the size |
| Common.PageOf | src/main/java/ru/practicum/shareit/booking/service/BookingServiceImpl.java:96-97 | page `page` of length `size` holds exactly `PageLength` rows (a full page while enough rows remain, the remainder on the last page, none past the end), taken in order from position `page * size`; page 0 of a short list is the whole list |
| Seqs.Filter | server/src/main/java/ru/practicum/shareit/item/service/ItemServiceImpl.java:113-115 | a stream filter: keeps exactly the elements that satisfy the predicate, in their original order (a subsequence) and each as often as it occurs in the input |
| Seqs.FindFirst | src/main/java/ru/practicum/shareit/booking/storage/BookingRepository.java:55-61 | a `findFirst` query: None exactly when no row qualifies; otherwise a qualifying row of the table |
| Seqs.SortBy | src/main/java/ru/practicum/shareit/booking/storage/BookingRepository.java:15-17 | the ORDER BY of a derived query: ordered by the key, same length as its input |
| Seqs.SortByPermutes | src/main/java/ru/practicum/shareit/booking/storage/BookingRepository.java:15-17 | ordering rows is a permutation: every row keeps its number of occurrences |
| Seqs.SortedPage | server/src/main/java/ru/practicum/shareit/request/service/ItemRequestServiceImpl.java:68-69 | a paged, sorted query: exactly `PageLength` of the qualifying rows of the table, ordered by the key; on page 0 of a short result, exactly the qualifying rows, as a multiset |
| Seqs.PagesCoverMatches | server/src/main/java/ru/practicum/shareit/request/service/ItemRequestServiceImpl.java:67-69 | pages 0 to n-1 of a sorted paged query, read one after another, hold the first `n * size` qualifying rows in order; once `n * size` reaches their number, every qualifying row exactly as often as in the table |
| Seqs.SortedPageIsSlice | server/src/main/java/ru/practicum/shareit/request/service/ItemRequestServiceImpl.java:67-69 | the page's contents exactly: the slice at `page * size` of the qualifying rows sorted by the key |
| Seqs.PagesArePrefix | server/src/main/java/ru/practicum/shareit/request/service/ItemRequestServiceImpl.java:67-69 | the first n pages of a sorted paged query are the first `n * size` rows of the sorted qualifying rows |
| Seqs.FilteredPage | src/main/java/ru/practicum/shareit/item/storage/ItemRepository.java:25-29 | a paged query without ORDER BY: exactly `PageLength` qualifying rows, element k being qualifying row `page * size + k` in table order |
| Seqs.FirstSorted | src/main/java/ru/practicum/shareit/booking/storage/BookingRepository.java:55-61 | `findFirst…OrderBy…`: None exactly when no row qualifies; otherwise a qualifying row whose key comes first in the order among all qualifying rows |
| Seqs.MaxBy | server/src/main/java/ru/practicum/shareit/item/service/ItemServiceImpl.java:105 | stream `max` by a key: None exactly for an empty stream; otherwise an element with the largest key |
| Seqs.MinBy | server/src/main/java/ru/practicum/shareit/item/service/ItemServiceImpl.java:111 | stream `min` by a key: None exactly for an empty stream; otherwise an element with the smallest key |
| Seqs.MaxByAgreesWithFirstSorted | server/src/main/java/ru/practicum/shareit/item/service/ItemServiceImpl.java:101-106 | filtering then taking the max gives a result exactly when a descending `findFirst` does, and with the same key |
| Seqs.MinByAgreesWithFirstSorted | server/src/main/java/ru/practicum/shareit/item/service/ItemServiceImpl.java:107-112 | filtering then taking the min gives a result exactly when an ascending `findFirst` does, and with the same key |
| Seqs.Map | server/src/main/java/ru/practicum/shareit/request/service/ItemRequestServiceImpl.java:45-47 | a stream `map`: same length, element k is the function applied to element k |
| Seqs.FilterMap | server/src/main/java/ru/practicum/shareit/request/service/ItemRequestServiceImpl.java:65-76 | filtering mapped elements by a condition on the image equals mapping the elements that satisfy the pulled-back condition |
| Text.Upper | src/main/java/ru/practicum/shareit/booking/service/BookingServiceImpl.java:98 | `toUpperCase`: length kept |
| Text.Lower | src/main/java/ru/practicum/shareit/item/storage/InMemoryItemStorage.java:51-52 | `toLowerCase`: length kept |
| Text.Contains | src/main/java/ru/practicum/shareit/item/storage/InMemoryItemStorage.java:51-52 | `String.contains`: true exactly when the substring occurs at some position |
| Text.ContainsIgnoringCase | src/main/java/ru/practicum/shareit/item/storage/ItemRepository.java:25-29 | searching in lower case and searching in upper case find the same matches |
| Text.TrimStart | gateway/src/main/java/ru/practicum/shareit/validator/NullableNotBlankValidator.java:9 | drops exactly the leading characters `<= ' '`; the result is a suffix that is empty or starts with a visible character |
| Text.TrimEnd | gateway/src/main/java/ru/practicum/shareit/validator/NullableNotBlankValidator.java:9 | drops exactly the trailing characters `<= ' '`; the result is a prefix that is empty or ends with a visible character |
| Text.Trim | gateway/src/main/java/ru/practicum/shareit/validator/NullableNotBlankValidator.java:9 | `String.trim()`: the slice of the string left after dropping a run of leading and a run of trailing characters `<= ' '`; empty or starting and ending with a character above `' '` |
| Text.TrimNonEmpty | server/src/main/java/ru/practicum/shareit/user/validator/NullableNotBlank.java:1-16 | a trimmed string is non-empty if and only if the string has a character above `' '` |
| Text.BlankIffTrimmedEmpty | src/main/java/ru/practicum/shareit/user/service/UserServiceImpl.java:24 | on printable ASCII text with ASCII whitespace, the older tree's `isBlank()` email check and the gateway's `trim()` check agree |
| Text.BlankAndTrimDiffer | src/main/java/ru/practicum/shareit/user/service/UserServiceImpl.java:24 | outside ASCII they disagree: U+0000 is trimmed away but not blank, U+2003 is blank but survives `trim()` |
| Entities.ApplyItemPatch | server/src/main/java/ru/practicum/shareit/item/service/ItemServiceImpl.java:60-68 | id, owner and request kept; each of name, description and availability replaced when given and kept when null |
| Entities.ItemPatchIdempotent | server/src/main/java/ru/practicum/shareit/item/service/ItemServiceImpl.java:60-68 | applying the same item patch twice equals applying it once |
| Entities.EmptyItemPatch | server/src/main/java/ru/practicum/shareit/item/service/ItemServiceImpl.java:60-68 | a patch with every field null leaves the item as it was |
| Entities.ApplyUserPatch | server/src/main/java/ru/practicum/shareit/user/service/UserServiceImpl.java:46-51 | id kept; name and email each replaced when given and kept when null |
| Entities.UserPatchIdempotent | server/src/main/java/ru/practicum/shareit/user/service/UserServiceImpl.java:46-51 | applying the same user patch twice equals applying it once |
| Entities.EmptyUserPatch | server/src/main/java/ru/practicum/shareit/user/service/UserServiceImpl.java:46-51 | a patch with every field null leaves the user as it was |
| Entities.FindUser | server/src/main/java/ru/practicum/shareit/user/service/UserServiceImpl.java:31 | `findById` on users: empty exactly when no row has the id; otherwise a row of the table with that id |
| Entities.FindItem | server/src/main/java/ru/practicum/shareit/item/service/ItemServiceImpl.java:55 | the same for items |
| Entities.FindBooking | src/main/java/ru/practicum/shareit/booking/service/BookingServiceImpl.java:59 | the same for bookings |
| Entities.FindRequest | server/src/main/java/ru/practicum/shareit/request/service/ItemRequestServiceImpl.java:87 | the same for item requests |
| Entities.UserExists | src/main/java/ru/practicum/shareit/booking/service/BookingServiceImpl.java:90 | `existsById`: true exactly when some row of the users table has the id |
| Persistence.KeyedFind | src/main/java/ru/practicum/shareit/booking/storage/BookingRepository.java:12 | `findById` on a table with distinct ids returns the unique row carrying that id |
| Persistence.ReplaceKeepsKeys | src/main/java/ru/practicum/shareit/booking/storage/BookingRepository.java:12 | `save` of an existing row keeps the table's ids distinct and below the counter |
| Persistence.AppendKeepsKeys | src/main/java/ru/practicum/shareit/booking/storage/BookingRepository.java:12 | inserting a row with the next id keeps the ids distinct and advances the counter |
| Persistence.RemoveKeepsKeys | server/src/main/java/ru/practicum/shareit/user/service/UserServiceImpl.java:58 | deleting the row at a position keeps the ids distinct and below the counter, leaves one row fewer, removes only rows with that row's id and keeps every other row |
| Persistence.Database.constructor | src/main/java/ru/practicum/shareit/booking/storage/BookingRepository.java:12 | empty tables, every IDENTITY counter at 1, invariant established |
| Persistence.Database.SaveBooking | src/main/java/ru/practicum/shareit/booking/service/BookingServiceImpl.java:54 | a booking without id is appended under the next id; one with an existing id overwrites that row; invariant kept |
| Persistence.Database.SaveItem | server/src/main/java/ru/practicum/shareit/item/service/ItemServiceImpl.java:50 | as SaveBooking, for items |
| Persistence.Database.SaveUser | server/src/main/java/ru/practicum/shareit/user/service/UserServiceImpl.java:24 | as SaveBooking, for users |
| Persistence.Database.SaveComment | server/src/main/java/ru/practicum/shareit/item/service/ItemServiceImpl.java:157 | a new comment is appended under the next id |
| Persistence.Database.SaveRequest | server/src/main/java/ru/practicum/shareit/request/service/ItemRequestServiceImpl.java:36 | a new request is appended under the next id |
| Persistence.Database.DeleteUser | server/src/main/java/ru/practicum/shareit/user/service/UserServiceImpl.java:58 | `deleteById`: an unknown id is an error (the framework's `EmptyResultDataAccessException`, answered 500) and changes nothing; otherwise exactly that row goes: one row fewer, every other row kept, nothing new |
| BookingRepository.FindAllByBookerIdOrderByStartDesc | src/main/java/ru/practicum/shareit/booking/storage/BookingRepository.java:13 | the booker's bookings, latest start first; the page holds exactly `PageLength` of all matching bookings |
| BookingRepository.FindAllByBookerIdAndEndBeforeOrderByStartDesc | src/main/java/ru/practicum/shareit/booking/storage/BookingRepository.java:15-17 | the booker's bookings that ended before the instant, latest start first; the page holds exactly `PageLength` of all matching bookings |
| BookingRepository.FindAllByBookerIdAndStartAfterOrderByStartDesc | src/main/java/ru/practicum/shareit/booking/storage/BookingRepository.java:19-21 | the booker's bookings that start after the instant, latest start first; the page holds exactly `PageLength` of all matching bookings |
| BookingRepository.FindAllByBookerIdAndStartBeforeAndEndAfterOrderByStartDesc | src/main/java/ru/practicum/shareit/booking/storage/BookingRepository.java:23-26 | the booker's bookings running at the instant, latest start first; the page holds exactly `PageLength` of all matching bookings |
| BookingRepository.FindAllByBookerIdAndStatusOrderByStartDesc | src/main/java/ru/practicum/shareit/booking/storage/BookingRepository.java:28-30 | the booker's bookings in the status, latest start first; the page holds exactly `PageLength` of all matching bookings |
| BookingRepository.FindAllByItemOwnerIdOrderByStartDesc | src/main/java/ru/practicum/shareit/booking/storage/BookingRepository.java:32 | bookings of the owner's items, latest start first; the page holds exactly `PageLength` of all matching bookings |
| BookingRepository.FindAllByItemOwnerIdAndEndBeforeOrderByStartDesc | src/main/java/ru/practicum/shareit/booking/storage/BookingRepository.java:34-36 | the owner's past bookings, paged, latest start first; the page holds exactly `PageLength` of all matching bookings |
| BookingRepository.FindAllByItemOwnerIdAndStartAfterOrderByStartDesc | src/main/java/ru/practicum/shareit/booking/storage/BookingRepository.java:38-40 | the owner's future bookings, paged, latest start first; the page holds exactly `PageLength` of all matching bookings |
| BookingRepository.FindAllByItemOwnerIdAndStartBeforeAndEndAfterOrderByStartDesc | src/main/java/ru/practicum/shareit/booking/storage/BookingRepository.java:42-45 | the owner's current bookings, paged, latest start first; the page holds exactly `PageLength` of all matching bookings |
| BookingRepository.FindAllByItemOwnerIdAndStatusOrderByStartDesc | src/main/java/ru/practicum/shareit/booking/storage/BookingRepository.java:51-53 | the owner's bookings in the status, paged, latest start first; the page holds exactly `PageLength` of all matching bookings |
| BookingRepository.FindAllByItemOwnerIdAndStatus | src/main/java/ru/practicum/shareit/booking/storage/BookingRepository.java:47 | exactly the owner's bookings in the status, in table order, each as often as in the table |
| BookingRepository.FindAllByStatus | src/main/java/ru/practicum/shareit/booking/storage/BookingRepository.java:49 | exactly the bookings in the status, in table order, each as often as in the table |
| BookingRepository.ByOwnerAndStatusIsByStatusThenOwner | src/main/java/ru/practicum/shareit/booking/storage/BookingRepository.java:47-49 | the owner-and-status query equals the status query filtered by owner |
| BookingRepository.FindFirstByItemIdAndStatusAndStartBeforeOrderByStartDesc | src/main/java/ru/practicum/shareit/booking/storage/BookingRepository.java:55-57 | None exactly when the item has no booking in the status starting before the instant; otherwise such a booking with the latest start |
| BookingRepository.FindFirstByItemIdAndStatusAndStartAfterOrderByStartAsc | src/main/java/ru/practicum/shareit/booking/storage/BookingRepository.java:59-61 | None exactly when the item has no booking in the status starting after the instant; otherwise such a booking with the earliest start |
| BookingRepository.ExistsByItemIdAndBookerIdAndStatusAndEndBefore | src/main/java/ru/practicum/shareit/booking/storage/BookingRepository.java:63-66 | true exactly when the booker has a booking of the item in the status that ended before the instant |
| ItemRepository.FindAllByOwnerId | src/main/java/ru/practicum/shareit/item/storage/ItemRepository.java:14-23 | the owner's items ordered by id ascending; the page holds exactly `PageLength` of them |
| ItemRepository.SearchAvailByText | src/main/java/ru/practicum/shareit/item/storage/ItemRepository.java:25-29 | available items whose name or description contains the text ignoring case, in table order: exactly `PageLength` of them, element k being hit `page * size + k`; page 0 of a short result holds all of them |
| ItemRepository.EmptyTextMatchesEveryAvailableItem | src/main/java/ru/practicum/shareit/item/storage/ItemRepository.java:25-29 | the empty search text matches every available item |
| ItemRepository.MatchesText | src/main/java/ru/practicum/shareit/item/storage/ItemRepository.java:26-27 | `upper(field) like upper('%' + text + '%')` holds exactly when the text occurs at some position of the field, letters compared without case |
| ItemRepository.UpperOccursAt | src/main/java/ru/practicum/shareit/item/storage/ItemRepository.java:26-27 | at each position, an occurrence of the upper-cased text in the upper-cased field is exactly a case-blind occurrence |
| ItemRepository.IsSearchHit | src/main/java/ru/practicum/shareit/item/storage/ItemRepository.java:25-29 | the search condition: available, and the text occurs ignoring case in the name or in the description |
| ItemRepository.FindAllByRequestId | src/main/java/ru/practicum/shareit/item/storage/ItemRepository.java:31 | exactly the items answering the request, in table order, each as often as in the table |
| ItemRepository.FindAllByRequestIdNotNull | src/main/java/ru/practicum/shareit/item/storage/ItemRepository.java:33 | exactly the items answering some request, in table order, each as often as in the table |
| ItemRepository.NotNullThenByRequest | src/main/java/ru/practicum/shareit/item/storage/ItemRepository.java:31-33 | items answering some request, filtered by one request id, are exactly that request's items |
| LegacyBookingMapper.ToBooking | src/main/java/ru/practicum/shareit/booking/dto/BookingMapper.java:10-16 | item, start and end copied, no id, booker or status; the same booking the server mapper builds |
| LegacyBookingMapper.ToBookingNearest | src/main/java/ru/practicum/shareit/booking/dto/BookingMapper.java:18-28 | null maps to null; otherwise id, booker id, start and end copied, as the server mapper does |
| ServerBookingMapper.ToBookingDto | server/src/main/java/ru/practicum/shareit/booking/dto/BookingMapper.java:18-24 | item id, start and end copied |
| ServerBookingMapper.ToBooking | server/src/main/java/ru/practicum/shareit/booking/dto/BookingMapper.java:10-16 | item, start and end copied, no id, booker or status; mapping back gives the dto with the item's id |
| ServerBookingMapper.ToBookingNearest | server/src/main/java/ru/practicum/shareit/booking/dto/BookingMapper.java:26-36 | null maps to null; otherwise id, booker id, start and end copied |
| ServerItemMapper.ToCommentResponseDto | server/src/main/java/ru/practicum/shareit/item/dto/CommentMapper.java:9-16 | id, text and created copied; the author shown by name |
| ServerItemMapper.ToItemRequestDto | server/src/main/java/ru/practicum/shareit/item/dto/ItemMapper.java:23-30 | the three editable fields present and copied; request id null exactly when the item answers no (saved) request |
| ServerItemMapper.ToItem | server/src/main/java/ru/practicum/shareit/item/dto/ItemMapper.java:15-21 | editable fields copied, no id, owner or request; mapping back gives the dto without its request id |
| ServerItemMapper.ItemRoundTrip | server/src/main/java/ru/practicum/shareit/item/dto/ItemMapper.java:15-30 | item to dto and back keeps exactly the editable fields |
| ServerItemMapper.ToItemResponseDto | server/src/main/java/ru/practicum/shareit/item/dto/ItemMapper.java:32-39 | id and editable fields copied, request id left null |
| ServerItemMapper.ToExtendedItemResponseDto | server/src/main/java/ru/practicum/shareit/item/dto/ItemMapper.java:41-55 | fields and request id copied, nearest bookings passed through, comments mapped one by one in order |
| ServerItemMapper.ToExtendedItemResponseDtoAlone | server/src/main/java/ru/practicum/shareit/item/dto/ItemMapper.java:57-68 | equal to the four-argument form with no bookings and no comments |
| ServerItemMapper.ToItemDtoForItemRequest | server/src/main/java/ru/practicum/shareit/item/dto/ItemMapper.java:70-78 | fields copied and the id of the request the item answers |
| LegacyItemMapper.ToCommentDto | src/main/java/ru/practicum/shareit/item/dto/ItemMapper.java:32-34 | id, text and created copied; the author shown by name |
| LegacyItemMapper.ToItem | src/main/java/ru/practicum/shareit/item/dto/ItemMapper.java:14-20 | editable fields copied, no id, owner or request; the same item the server mapper builds |
| LegacyItemMapper.ToItemDtoWithBooking | src/main/java/ru/practicum/shareit/item/dto/ItemMapper.java:22-36 | fields and request id copied, nearest bookings passed through, comments mapped one by one in order |
| LegacyItemMapper.ToItemDtoForItemRequest | src/main/java/ru/practicum/shareit/item/dto/ItemMapper.java:38-46 | fields copied and the request id; agrees with the server mapper |
| NullableNotBlankValidator.IsValid | gateway/src/main/java/ru/practicum/shareit/validator/NullableNotBlankValidator.java:8-10 | null is valid; a present string is valid if and only if it has a character above `' '`; the empty string is not |
| BookingService.ParseState | src/main/java/ru/practicum/shareit/booking/service/BookingServiceImpl.java:124-129 | the state whose name equals the upper-cased keyword; None exactly when no state's name does |
| BookingService.ParseStateIgnoresCase | src/main/java/ru/practicum/shareit/booking/service/BookingServiceImpl.java:138 | every state's name, written in capitals or in lower case, parses back to that state |
| BookingService.UpperOfCapitals | src/main/java/ru/practicum/shareit/booking/service/BookingServiceImpl.java:98 | upper-casing a string of capital letters leaves it as it is |
| BookingService.UpperOfLowerCapitals | src/main/java/ru/practicum/shareit/booking/service/BookingServiceImpl.java:98 | upper-casing undoes lower-casing on a string of capital letters |
| BookingService.TimeStatesExclusive | src/main/java/ru/practicum/shareit/booking/service/BookingServiceImpl.java:101-109 | for a booking that ends after it starts, PAST, CURRENT and FUTURE exclude one another, and it is in none of them exactly when it starts or ends at `now` |
| BookingService.BookerQuery | src/main/java/ru/practicum/shareit/booking/service/BookingServiceImpl.java:98-117 | the repository query each state selects for a booker is the sorted page of the booker's bookings in that state |
| BookingService.OwnerQuery | src/main/java/ru/practicum/shareit/booking/service/BookingServiceImpl.java:138-157 | the same for an owner's bookings |
| BookingService.GetAllByBookerIdAndState | src/main/java/ru/practicum/shareit/booking/service/BookingServiceImpl.java:89-119 | the checks in source order for any `int` `from` and `size`: unknown user, then the paging errors of `PageIndex` (zero size, unaligned `from`, negative page, size below one), then unknown state; otherwise exactly the sorted page of the booker's bookings in the state (`PageLength` of them, latest start first) |
| BookingService.GetAllByOwnerIdAndState | src/main/java/ru/practicum/shareit/booking/service/BookingServiceImpl.java:123-159 | the checks in source order for any `int` `from` and `size`: unknown state, then unknown user, then the paging errors of `PageIndex`; otherwise exactly the sorted page of the owner's bookings in the state (`PageLength` of them, latest start first) |
| BookingService.ListingsCheckInDifferentOrder | src/main/java/ru/practicum/shareit/booking/service/BookingServiceImpl.java:89-135 | for an unknown user and an unknown state, the booker listing fails with NotFound and the owner listing with a validation error |
| BookingService.GetBooking | src/main/java/ru/practicum/shareit/booking/service/BookingServiceImpl.java:77-85 | the booking exactly when it exists and the caller is its booker or its item's owner; otherwise the NotFound the source raises |
| BookingService.NewBooking | src/main/java/ru/practicum/shareit/booking/service/BookingServiceImpl.java:36-53 | for a non-null item id, the five checks in source order with their messages; succeeds exactly when all pass, giving a WAITING booking of the item by the caller for the requested period |
| BookingService.NewBookingIsSound | src/main/java/ru/practicum/shareit/booking/service/BookingServiceImpl.java:36-53 | every accepted booking is WAITING, of an available item, not by its owner, for a non-empty period that has not started |
| BookingService.ConfirmedBooking | src/main/java/ru/practicum/shareit/booking/service/BookingServiceImpl.java:58-71 | unknown booking, then wrong owner, then already decided; otherwise the same booking with status APPROVED or REJECTED |
| BookingService.ConfirmOnlyOnce | src/main/java/ru/practicum/shareit/booking/service/BookingServiceImpl.java:64-66 | once a decision is saved, every further confirmation of that booking fails |
| BookingService.AddNew | src/main/java/ru/practicum/shareit/booking/service/BookingServiceImpl.java:36-55 | a null item id is the repository's 500 error; on any failure nothing is stored; on success the checked booking is appended under the next id and returned |
| BookingService.ConfirmBooking | src/main/java/ru/practicum/shareit/booking/service/BookingServiceImpl.java:58-73 | returns the checked decision; on success the booking's row is overwritten, otherwise the table is unchanged |
| ServerItemService.LastBooking | server/src/main/java/ru/practicum/shareit/item/service/ItemServiceImpl.java:101-106 | None exactly when no approved booking of the item started before now; otherwise such a booking with the latest start |
| ServerItemService.NextBooking | server/src/main/java/ru/practicum/shareit/item/service/ItemServiceImpl.java:107-112 | None exactly when no approved booking of the item starts after now; otherwise such a booking with the earliest start |
| ServerItemService.StartingNowIsNeither | server/src/main/java/ru/practicum/shareit/item/service/ItemServiceImpl.java:101-112 | a booking that starts exactly at `now` is neither the last nor the next one |
| ServerItemService.CommentsOf | server/src/main/java/ru/practicum/shareit/item/service/ItemServiceImpl.java:113-115 | exactly the comments on the item, in table order, each as often as in the table |
| ServerItemService.ItemView | server/src/main/java/ru/practicum/shareit/item/service/ItemServiceImpl.java:100-115 | the item's id, name, description, availability and request id; its last and next bookings mapped from LastBooking and NextBooking; its comments mapped in order |
| ServerItemService.ApprovedOfItemIsOwners | server/src/main/java/ru/practicum/shareit/item/service/ItemServiceImpl.java:96-98 | an approved booking of an owner's item is among the owner's approved bookings |
| ServerItemService.LastAgreesWithRepository | server/src/main/java/ru/practicum/shareit/item/service/ItemServiceImpl.java:80-82 | the listing's last booking (stream max over the owner's approved bookings) and `getById`'s repository query exist together and have the same start |
| ServerItemService.NextAgreesWithRepository | server/src/main/java/ru/practicum/shareit/item/service/ItemServiceImpl.java:83-85 | the same for the next booking |
| ServerItemService.GetById | server/src/main/java/ru/practicum/shareit/item/service/ItemServiceImpl.java:74-89 | NotFound exactly for an unknown item; otherwise the item's id, name, description, availability and request id; bookings shown only to the owner, as the repository's nearest ones; the item's comments in order |
| ServerItemService.GetAllOwnerItems | server/src/main/java/ru/practicum/shareit/item/service/ItemServiceImpl.java:93-117 | one view per item of the owner's page `from / size`, in id order |
| ServerItemService.FindAvailableByText | server/src/main/java/ru/practicum/shareit/item/service/ItemServiceImpl.java:121-144 | one view per item of the search page `from / size` |
| ServerItemService.NewItem | server/src/main/java/ru/practicum/shareit/item/service/ItemServiceImpl.java:41-49 | unknown user, then unknown request; otherwise a new item owned by the caller answering the given request |
| ServerItemService.PatchedItem | server/src/main/java/ru/practicum/shareit/item/service/ItemServiceImpl.java:54-68 | unknown item, then a caller who is not the owner; otherwise the stored item with the patch applied |
| ServerItemService.NewComment | server/src/main/java/ru/practicum/shareit/item/service/ItemServiceImpl.java:147-156 | no finished approved booking by the caller, then unknown item, then unknown user; otherwise a comment on the item by the caller, created now |
| ServerItemService.AddNew | server/src/main/java/ru/practicum/shareit/item/service/ItemServiceImpl.java:41-51 | nothing stored on failure; otherwise the checked item appended under the next id |
| ServerItemService.PatchUpdate | server/src/main/java/ru/practicum/shareit/item/service/ItemServiceImpl.java:54-70 | nothing stored on failure; otherwise the item's row overwritten by the patched item |
| ServerItemService.AddNewComment | server/src/main/java/ru/practicum/shareit/item/service/ItemServiceImpl.java:147-158 | nothing stored on failure; otherwise the checked comment appended under the next id |
| LegacyItemService.ItemView | src/main/java/ru/practicum/shareit/item/service/ItemServiceImpl.java:102-117 | the item's fields and request id; its last and next bookings mapped from the same LastBooking and NextBooking as the server view, with the same id, booker, start and end; comments as the server view |
| LegacyItemService.NewItem | src/main/java/ru/practicum/shareit/item/service/ItemServiceImpl.java:38-46 | the same checks, errors and item as the server's `addNew` |
| LegacyItemService.PatchedItem | src/main/java/ru/practicum/shareit/item/service/ItemServiceImpl.java:52-69 | as the server's, plus a validation error when the body carries another item's id; agrees with the server otherwise |
| LegacyItemService.GetById | src/main/java/ru/practicum/shareit/item/service/ItemServiceImpl.java:75-88 | fails exactly when the server's `getById` does, with the same error; otherwise the item's fields and request id, the same bookings, and the item's comments mapped in order |
| LegacyItemService.GetAllOwnerItems | src/main/java/ru/practicum/shareit/item/service/ItemServiceImpl.java:92-119 | fails exactly for an unaligned `from`; otherwise as many views as the server lists |
| LegacyItemService.FindAvailableByText | src/main/java/ru/practicum/shareit/item/service/ItemServiceImpl.java:123-152 | fails exactly for an unaligned `from`; blank text gives an empty list; otherwise as many views as the server lists |
| LegacyItemService.NewComment | src/main/java/ru/practicum/shareit/item/service/ItemServiceImpl.java:156-164 | the same checks and errors as the server; the comment keeps the creation time it was sent with |
| LegacyItemService.AddNew | src/main/java/ru/practicum/shareit/item/service/ItemServiceImpl.java:38-48 | nothing stored on failure; otherwise the checked item appended and shown without bookings or comments |
| LegacyItemService.PatchUpdate | src/main/java/ru/practicum/shareit/item/service/ItemServiceImpl.java:52-71 | nothing stored on failure; otherwise the item's row overwritten by the patched item |
| LegacyItemService.AddNewComment | src/main/java/ru/practicum/shareit/item/service/ItemServiceImpl.java:156-166 | nothing stored on failure; otherwise the checked comment appended |
| ItemRequestService.FindAllByRequesterId | server/src/main/java/ru/practicum/shareit/request/service/ItemRequestServiceImpl.java:48 | exactly the user's requests, in table order, each as often as in the table |
| ItemRequestService.FindAllByRequesterIdNot | server/src/main/java/ru/practicum/shareit/request/service/ItemRequestServiceImpl.java:67-69 | other users' requests, newest first; the page holds exactly `PageLength` of them |
| ItemRequestService.AnsweringItems | server/src/main/java/ru/practicum/shareit/request/service/ItemRequestServiceImpl.java:45-47 | every item answering a request, mapped in order, each carrying its request id |
| ItemRequestService.ItemsFor | server/src/main/java/ru/practicum/shareit/request/service/ItemRequestServiceImpl.java:51-54 | exactly the answering items with the given request id, in order, each as often as in the input |
| ItemRequestService.WithItems | server/src/main/java/ru/practicum/shareit/request/dto/ItemRequestMapper.java:8 | a request's id, description and created with the given items |
| ItemRequestService.GroupingIsByRequest | server/src/main/java/ru/practicum/shareit/request/service/ItemRequestServiceImpl.java:45-54 | grouping all answering items by request id gives exactly what `findAllByRequestId` gives, in the same order |
| ItemRequestService.NewRequest | server/src/main/java/ru/practicum/shareit/request/service/ItemRequestServiceImpl.java:32-35 | NotFound exactly for an unknown user; otherwise a new request by that user |
| ItemRequestService.AddNew | server/src/main/java/ru/practicum/shareit/request/service/ItemRequestServiceImpl.java:32-37 | nothing stored on failure; otherwise the request appended under the next id |
| ItemRequestService.GetAllOwn | server/src/main/java/ru/practicum/shareit/request/service/ItemRequestServiceImpl.java:41-56 | NotFound exactly for an unknown user; otherwise each own request with exactly its answering items |
| ItemRequestService.GetAllByPages | server/src/main/java/ru/practicum/shareit/request/service/ItemRequestServiceImpl.java:60-78 | fails exactly for an unaligned `from`; otherwise at most `size` other users' requests, newest first, each with its answering items |
| ItemRequestService.GetById | server/src/main/java/ru/practicum/shareit/request/service/ItemRequestServiceImpl.java:82-94 | unknown user, then unknown request; otherwise the found request's id, description and creation time, with exactly its items in order |
| ItemRequestService.OwnListingAgreesWithGetById | server/src/main/java/ru/practicum/shareit/request/service/ItemRequestServiceImpl.java:41-94 | a request in the own listing carries the same items as `getById` returns for it |
| ItemStorage.TextHitIsSearchHit | src/main/java/ru/practicum/shareit/item/storage/InMemoryItemStorage.java:47-54 | the in-memory search condition (lower-case) selects the same items as the database search (upper-case) |
| ItemStorage.InMemoryItemStorage.constructor | src/main/java/ru/practicum/shareit/item/storage/InMemoryItemStorage.java:14-15 | an empty map with the counter at 1 |
| ItemStorage.InMemoryItemStorage.AddNew | src/main/java/ru/practicum/shareit/item/storage/InMemoryItemStorage.java:17-23 | the item stored under the counter's value, which advances; a fresh store stays fresh |
| ItemStorage.InMemoryItemStorage.Update | src/main/java/ru/practicum/shareit/item/storage/InMemoryItemStorage.java:25-29 | the item stored under its id, a null id being a key like any other; the counter unchanged |
| ItemStorage.InMemoryItemStorage.GetById | src/main/java/ru/practicum/shareit/item/storage/InMemoryItemStorage.java:31-38 | the stored item, or NotFound exactly when the id is absent |
| ItemStorage.InMemoryItemStorage.GetAllByOwnerId | src/main/java/ru/practicum/shareit/item/storage/InMemoryItemStorage.java:40-45 | exactly the owner's stored items, each once |
| ItemStorage.InMemoryItemStorage.FindAvailableByText | src/main/java/ru/practicum/shareit/item/storage/InMemoryItemStorage.java:47-54 | exactly the stored available items matching the text ignoring case, each once |
| UserStorage.ImMemoryUserStorage.constructor | src/main/java/ru/practicum/shareit/user/storage/ImMemoryUserStorage.java:13-14 | an empty map with the counter at 1 |
| UserStorage.ImMemoryUserStorage.AddNew | src/main/java/ru/practicum/shareit/user/storage/ImMemoryUserStorage.java:17-22 | the user stored under the counter's value, which advances; a fresh store stays fresh |
| UserStorage.ImMemoryUserStorage.GetById | src/main/java/ru/practicum/shareit/user/storage/ImMemoryUserStorage.java:25-31 | the stored user, or NotFound exactly when the id is absent |
| UserStorage.ImMemoryUserStorage.GetAll | src/main/java/ru/practicum/shareit/user/storage/ImMemoryUserStorage.java:34-36 | every element is a stored user under its own id, every stored user appears, and the length equals the map size (each user exactly once) |
| UserStorage.ImMemoryUserStorage.Update | src/main/java/ru/practicum/shareit/user/storage/ImMemoryUserStorage.java:39-42 | the user stored under its id, a null id being a key like any other; the counter unchanged |
| UserStorage.ImMemoryUserStorage.Remove | src/main/java/ru/practicum/shareit/user/storage/ImMemoryUserStorage.java:45-48 | NotFound exactly when the id is absent; otherwise only that entry removed |
| UserStorage.ImMemoryUserStorage.IsFreeEmail | src/main/java/ru/practicum/shareit/user/storage/ImMemoryUserStorage.java:51-54 | true if and only if no stored user has exactly this email |
| UserStorage.AddTwice | src/main/java/ru/practicum/shareit/user/storage/ImMemoryUserStorage.java:17-22 | two users added in a row to a fresh store get consecutive ids and are both kept |
| LegacyUserService.ToUserDto | src/main/java/ru/practicum/shareit/user/service/UserServiceImpl.java:34 | id, name and email copied |
| LegacyUserService.NewUser | src/main/java/ru/practicum/shareit/user/service/UserServiceImpl.java:23-27 | refused exactly when the email is null or blank; otherwise the user's name and email, with no id, so the save is an insert |
| LegacyUserService.GetById | src/main/java/ru/practicum/shareit/user/service/UserServiceImpl.java:33-36 | NotFound exactly for an unknown id; otherwise the stored user |
| LegacyUserService.PatchedUser | src/main/java/ru/practicum/shareit/user/service/UserServiceImpl.java:48-56 | NotFound exactly for an unknown id; otherwise the stored user with the patch applied |
| LegacyUserService.AddNew | src/main/java/ru/practicum/shareit/user/service/UserServiceImpl.java:23-29 | nothing stored on failure; otherwise the user appended under the next id |
| LegacyUserService.PatchUpdate | src/main/java/ru/practicum/shareit/user/service/UserServiceImpl.java:48-58 | the user's row overwritten, and a later `getById` returns the answer |
| LegacyUserService.Remove | src/main/java/ru/practicum/shareit/user/service/UserServiceImpl.java:62-64 | the repository's error exactly for an unknown id, nothing changed; otherwise exactly that user goes and every other user is kept |
| ServerUserService.ToUser | server/src/main/java/ru/practicum/shareit/user/dto/UserMapper.java:9-14 | name and email copied, no id |
| ServerUserService.ToUserResponseDto | server/src/main/java/ru/practicum/shareit/user/dto/UserMapper.java:16-22 | id, name and email copied |
| ServerUserService.AcceptsWhatLegacyAccepts | server/src/main/java/ru/practicum/shareit/user/service/UserServiceImpl.java:22-26 | whatever the older tree accepts, the server saves identically; a missing email is refused only by the older tree |
| ServerUserService.GetById | server/src/main/java/ru/practicum/shareit/user/service/UserServiceImpl.java:28-33 | NotFound exactly for an unknown id; the same answer as the older tree |
| ServerUserService.GetAll | server/src/main/java/ru/practicum/shareit/user/service/UserServiceImpl.java:35-41 | every user, in table order |
| ServerUserService.PatchedUser | server/src/main/java/ru/practicum/shareit/user/service/UserServiceImpl.java:43-52 | NotFound exactly for an unknown id; the same patched user as the older tree, whatever id its body carries |
| ServerUserService.AddNew | server/src/main/java/ru/practicum/shareit/user/service/UserServiceImpl.java:22-26 | the user appended under the next id, with no check |
| ServerUserService.PatchUpdate | server/src/main/java/ru/practicum/shareit/user/service/UserServiceImpl.java:43-54 | the user's row overwritten, and a later `getById` returns the answer |
| ServerUserService.Remove | server/src/main/java/ru/practicum/shareit/user/service/UserServiceImpl.java:56-59 | the repository's error exactly for an unknown id, nothing changed; otherwise exactly that user goes and every other user is kept |

## Left out

- Case mapping (`toUpperCase`, `toLowerCase`, SQL `upper`) is modelled for ASCII letters only. Java and the database also map other alphabets.
- The SQL `like` in `searchAvailByText` is modelled as plain substring search. A `%` or `_` inside the search text is not treated as a wildcard.
- `ItemRequestMapper.toItemRequestWithItemsDto` is generated by MapStruct. It is modelled as copying id, description and created.
- The older tree's `CommentMapper` and `UserMapper` are not part of this model. They are assumed to convert as the server mappers do. In particular, `toUser` is assumed to copy name and email only, not the id, as server/src/main/java/ru/practicum/shareit/user/dto/UserMapper.java:9-14 does.
- LegacyUserService.NewUser: it never carries the body's `id` into `save`, so a create is always an insert. If the older `toUser` did copy the id, a create carrying an existing id would overwrite that row instead; that case is not modelled.
- The older tree's `BookingState` enum is not part of this model. It is assumed to hold the six names ALL, PAST, FUTURE, CURRENT, WAITING and REJECTED that the switch statements use.
- Clocks: `LocalDateTime.now()` is the parameter `now`, one value per call. The source reads the clock afresh at every use: twice in the CURRENT listings (src/main/java/ru/practicum/shareit/booking/service/BookingServiceImpl.java:109 and :149), once per nearest-booking query in `getById` (src/main/java/ru/practicum/shareit/item/service/ItemServiceImpl.java:82 and :84, server/src/main/java/ru/practicum/shareit/item/service/ItemServiceImpl.java:82 and :85), and once per booking inside the stream filters of the item listings and searches (src/main/java/ru/practicum/shareit/item/service/ItemServiceImpl.java:105, 111, 138 and 144; server/src/main/java/ru/practicum/shareit/item/service/ItemServiceImpl.java:103, 109, 130 and 136). All these reads are taken to be equal, so a booking whose start falls between two reads is classified as at a single instant.
- Entities are values. Two references to one Java object are modelled as two equal copies, so an update through one reference is not seen through the other.
- Concurrency, transactions, and the HTTP layer are not modelled. This includes the controllers and the gateway clients; of the gateway, only the `@NullableNotBlank` validator is modelled.
- Java `NullPointerException` paths are not modelled; they become preconditions:
  - a stored booking has a booker and a stored comment has an author;
  - a create request passes the gateway with name, description and availability present.
- A booking request without an item id passes validation in the older tree (src/main/java/ru/practicum/shareit/booking/dto/BookingDto.java:10 has no `@NotNull`). `findById(null)` then throws `IllegalArgumentException`, which the repository proxy translates to `InvalidDataAccessApiUsageException` and the catch-all handler answers with 500 (src/main/java/ru/practicum/shareit/exception/handler/CommonHandler.java:49-53). BookingService.AddNew returns `Internal` for it. The message text is the one Spring Data JPA 2.x produces; that library is not part of this model.
- A stored user or item whose email or owner is null would make the in-memory scans throw. That case is not modelled.
- `size > 0` and `from >= 0` are required of the paged item and request listings, because their controllers validate them before the services run. The older tree's item listings are covered by `@Min` in src/main/java/ru/practicum/shareit/item/ItemController.java:42-43 and 49-50. The server's item listings are covered by gateway/src/main/java/ru/practicum/shareit/item/ItemController.java:44-45 and 51-52. The request page is covered by gateway/src/main/java/ru/practicum/shareit/request/ItemRequestController.java:33-34. The booking listings have no such caller in the older tree, so they are modelled for every `int` `from` and `size`. `from` and `size` are unbounded integers: Java's 32-bit overflow of `Integer.MIN_VALUE / -1` is not modelled.
- The no-message `ValidationException` of `addNewComment` is modelled as a validation error with the empty message.
- Database constraints (unique email, foreign keys, NOT NULL columns) are not modelled. A duplicate email or a dangling reference is saved like any other row.
- An id sent in the body of a comment, request or (older tree) user create call is ignored: such an entity is always inserted as new.
- Row order the database leaves open is a modelling choice. The model returns rows in table (insertion) order in two cases: a query without ORDER BY, and rows that tie on the ORDER BY key (`start` for bookings, `created` for requests). A database may return either in any order, and may even change it between two LIMIT/OFFSET queries. The members this affects are listed next.
- BookingRepository.FindAllByItemOwnerIdAndStatus, BookingRepository.FindAllByStatus, ItemRepository.FindAllByRequestId, ItemRepository.FindAllByRequestIdNotNull, ServerItemService.CommentsOf, ItemRequestService.FindAllByRequesterId, ItemRequestService.ItemsFor and ServerUserService.GetAll: their `Subsequence` clause (table order) is this choice. The source promises only the set of rows and their multiplicities.
- ItemRepository.SearchAvailByText and Seqs.FilteredPage: the query has no ORDER BY (src/main/java/ru/practicum/shareit/item/storage/ItemRepository.java:25-29), so "element k is match page * size + k" is this choice too.
- Seqs.SortedPage, Seqs.SortedPageIsSlice, Seqs.PagesArePrefix and Seqs.PagesCoverMatches: among rows with equal keys, the page contents rely on one fixed tie order shared by every page query. "No row skipped or repeated across pages" holds only under that assumption.
- BookingRepository.FindFirstByItemIdAndStatusAndStartBeforeOrderByStartDesc and BookingRepository.FindFirstByItemIdAndStatusAndStartAfterOrderByStartAsc: when bookings tie on `start`, which one is returned is this choice. Their contracts state only the extreme `start`.
- The iteration order of `HashMap` is unspecified. The in-memory scans promise the set of results and that each result appears once, not their order.
- Persistence.Database.DeleteUser: it states which rows remain, not that they keep their relative order.
- Ids are `nat`. A Java `Long` id may be negative; negative ids never come from the IDENTITY counters, and a request naming one finds no row, exactly like an unknown positive id, so they are not modelled separately.
- ServerItemService.NewComment: the comment's `created` is taken to be the `now` of the call. `CommentMapper.toComment` (server/src/main/java/ru/practicum/shareit/item/dto/CommentMapper.java:18-22) sets only the text, so `created` is set by the server's `Comment` entity, which is not part of this model.
- ServerItemService.LastAgreesWithRepository: it proves that the stream maximum and the repository's `findFirst` agree on existence and on the start time. When two approved bookings of the item share that start, they may be different bookings.
- ServerItemService.NextAgreesWithRepository: the same limitation for the earliest start.
- LegacyItemService.GetAllOwnerItems: the agreement with the server is stated on the length of the listing. Each element is given by ItemView, whose own contract ties it to the server view.
- LegacyItemService.FindAvailableByText: the same, for the search listing.
