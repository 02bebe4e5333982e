/** The request board (server tree): users post requests for items they
    need, and every listing of requests carries, for each request, the items
    that were created in answer to it. */
module ItemRequestService {
  import opened Common
  import opened Seqs
  import opened Entities
  import opened Persistence
  import opened ItemRepository
  import opened ServerItemMapper

  /** A request as listed, with the items that answer it. */
  datatype ItemRequestWithItemsDto = ItemRequestWithItemsDto(
    id: Option<nat>, description: string, created: int, items: seq<ItemWithIdResponseDto>)

  function CreatedOf(r: ItemRequest): int { r.created }

  /** `findAllByRequesterId`: the user's requests, in table order. */
  function FindAllByRequesterId(requests: seq<ItemRequest>, requesterId: nat): (r: seq<ItemRequest>)
    ensures forall k :: 0 <= k < |r| ==> r[k] in requests && RequesterId(r[k]) == Some(requesterId)
    ensures forall k :: 0 <= k < |requests| && RequesterId(requests[k]) == Some(requesterId) ==> requests[k] in r
    ensures Subsequence(r, requests)
    ensures forall q {:trigger multiset(r)[q]} :: q in requests ==>
      multiset(r)[q] == if RequesterId(q) == Some(requesterId) then multiset(requests)[q] else 0
  {
    Filter(requests, (q: ItemRequest) => RequesterId(q) == Some(requesterId))
  }

  /** `findAllByRequesterIdNot` with a page sorted by `created` descending:
      the requests of other users (SQL `<>` skips a null requester), newest first. */
  function FindAllByRequesterIdNot(requests: seq<ItemRequest>, userId: nat, page: nat, size: nat): (r: seq<ItemRequest>)
    requires size > 0
    ensures |r| <= size
    ensures forall k :: 0 <= k < |r| ==> r[k] in requests && RequesterId(r[k]).Some? && RequesterId(r[k]) != Some(userId)
    ensures Ordered(r, CreatedOf, true)
    ensures |r| == PageLength(|Filter(requests, (q: ItemRequest) => RequesterId(q).Some? && RequesterId(q) != Some(userId))|, page, size)
  {
    SortedPage(requests, (q: ItemRequest) => RequesterId(q).Some? && RequesterId(q) != Some(userId), CreatedOf, true, page, size)
  }

  /** `findAllByRequestIdNotNull()` mapped by `toItemDtoForItemRequest`:
      every item that answers some request, in table order. */
  function AnsweringItems(items: seq<Item>): (r: seq<ItemWithIdResponseDto>)
    ensures |r| == |FindAllByRequestIdNotNull(items)|
    ensures forall k :: 0 <= k < |r| ==> r[k].requestId.Some?
    ensures forall k :: 0 <= k < |r| ==> r[k] == ToItemDtoForItemRequest(FindAllByRequestIdNotNull(items)[k])
  {
    Map(FindAllByRequestIdNotNull(items), (i: Item) requires i.request.Some? => ToItemDtoForItemRequest(i))
  }

  /** The items of `answering` whose request id equals `requestId`, in order
      (`getRequestId().equals(id)`, false when `id` is null). */
  function ItemsFor(answering: seq<ItemWithIdResponseDto>, requestId: Option<nat>): (r: seq<ItemWithIdResponseDto>)
    ensures forall k :: 0 <= k < |r| ==> r[k] in answering && r[k].requestId == requestId
    ensures forall k :: 0 <= k < |answering| && answering[k].requestId == requestId ==> answering[k] in r
    ensures Subsequence(r, answering)
    ensures forall d {:trigger multiset(r)[d]} :: d in answering ==>
      multiset(r)[d] == if d.requestId == requestId then multiset(answering)[d] else 0
  {
    Filter(answering, (d: ItemWithIdResponseDto) => d.requestId == requestId)
  }

  /** A request with the items that answer it. */
  function WithItems(q: ItemRequest, items: seq<ItemWithIdResponseDto>): (r: ItemRequestWithItemsDto)
    ensures r.id == q.id && r.description == q.description && r.created == q.created && r.items == items
  {
    ItemRequestWithItemsDto(q.id, q.description, q.created, items)
  }

  /** Grouping the answering items by a request's id gives exactly that
      request's items as `findAllByRequestId` finds them, in the same order. */
  lemma GroupingIsByRequest(items: seq<Item>, requestId: nat)
    ensures ItemsFor(AnsweringItems(items), Some(requestId))
         == Map(FindAllByRequestId(items, requestId), (i: Item) requires i.request.Some? => ToItemDtoForItemRequest(i))
  {
    var f := (i: Item) requires i.request.Some? => ToItemDtoForItemRequest(i);
    var linked := FindAllByRequestIdNotNull(items);
    var byRequest := (i: Item) => ItemRequestId(i) == Some(requestId);
    FilterMap(linked, f, (d: ItemWithIdResponseDto) => d.requestId == Some(requestId), byRequest);
    NotNullThenByRequest(items, requestId);
    FilterCongruent(linked, byRequest, (i: Item) => ItemRequestId(i) == Some(requestId));
  }

  /** The checks of `addNew` and the request they let through: the user must
      exist and becomes the requester. */
  function NewRequest(users: seq<User>, description: string, created: int, userId: nat): (r: Result<ItemRequest>)
    ensures r.Err? <==> !UserExists(users, userId)
    ensures r.Err? ==> r.error == UserNotFound(userId)
    ensures r.Ok? ==> r.value.id.None? && r.value.description == description && r.value.created == created
    ensures r.Ok? ==> r.value.requester == FindUser(users, userId) && RequesterId(r.value) == Some(userId)
  {
    match FindUser(users, userId)
    case None => Err(UserNotFound(userId))
    case Some(user) => Ok(ItemRequest(None, description, Some(user), created))
  }

  /** `addNew`: saves the request with the caller as requester. */
  method AddNew(db: Database, description: string, created: int, userId: nat) returns (r: Result<ItemRequest>)
    requires db.Valid()
    modifies db`requests, db`nextRequestId
    ensures db.Valid()
    ensures var checked := NewRequest(old(db.users), description, created, userId);
      && (checked.Err? ==> r == Err(checked.error) && db.requests == old(db.requests) && db.nextRequestId == old(db.nextRequestId))
      && (checked.Ok? ==> r == Ok(checked.value.(id := Some(old(db.nextRequestId))))
                          && db.requests == old(db.requests) + [r.value] && db.nextRequestId == old(db.nextRequestId) + 1)
  {
    var checked := NewRequest(db.users, description, created, userId);
    if checked.Err? {
      return Err(checked.error);
    }
    var saved := db.SaveRequest(checked.value);
    r := Ok(saved);
  }

  /** `getAllOwn`: the caller must exist; then the caller's requests, in
      table order, each with exactly the items that answer it. */
  function GetAllOwn(users: seq<User>, requests: seq<ItemRequest>, items: seq<Item>, ownerId: nat)
    : (r: Result<seq<ItemRequestWithItemsDto>>)
    ensures r.Err? <==> !UserExists(users, ownerId)
    ensures r.Err? ==> r.error == UserNotFound(ownerId)
    ensures r.Ok? ==> var own := FindAllByRequesterId(requests, ownerId);
      |r.value| == |own|
      && forall k :: 0 <= k < |own| ==>
           (r.value[k].id == own[k].id && r.value[k].description == own[k].description && r.value[k].created == own[k].created
            && r.value[k].items == ItemsFor(AnsweringItems(items), own[k].id))
  {
    if !UserExists(users, ownerId) then Err(UserNotFound(ownerId))
    else
      var answering := AnsweringItems(items);
      var own := FindAllByRequesterId(requests, ownerId);
      Ok(seq(|own|, k requires 0 <= k < |own| => WithItems(own[k], ItemsFor(answering, own[k].id))))
  }

  /** `getAllByPages`: `from` must be a multiple of `size`; then page
      `from / size` of the other users' requests, newest first, each with
      exactly the items that answer it. The caller need not exist. */
  function GetAllByPages(requests: seq<ItemRequest>, items: seq<Item>, userId: nat, from: nat, size: nat)
    : (r: Result<seq<ItemRequestWithItemsDto>>)
    requires size > 0
    ensures r.Err? <==> from % size != 0
    ensures r.Err? ==> r.error == PageMismatch
    ensures r.Ok? ==> var listed := FindAllByRequesterIdNot(requests, userId, from / size, size);
      |r.value| == |listed| <= size
      && forall k :: 0 <= k < |listed| ==>
           (RequesterId(listed[k]) != Some(userId)
            && r.value[k] == WithItems(listed[k], ItemsFor(AnsweringItems(items), listed[k].id)))
    ensures r.Ok? ==> forall j, k :: 0 <= j < k < |r.value| ==> r.value[j].created >= r.value[k].created
  {
    if from % size != 0 then Err(PageMismatch)
    else
      var answering := AnsweringItems(items);
      var listed := FindAllByRequesterIdNot(requests, userId, from / size, size);
      var res := seq(|listed|, k requires 0 <= k < |listed| => WithItems(listed[k], ItemsFor(answering, listed[k].id)));
      assert forall j, k :: 0 <= j < k < |res| ==> res[j].created >= res[k].created by {
        forall j, k | 0 <= j < k < |res| ensures res[j].created >= res[k].created {
          assert InOrder(CreatedOf(listed[j]), CreatedOf(listed[k]), true);
        }
      }
      Ok(res)
  }

  /** `getById`: the caller must exist, then the request; the answer carries
      exactly the items that answer the request, in table order. */
  function GetById(users: seq<User>, requests: seq<ItemRequest>, items: seq<Item>, requestId: nat, userId: nat)
    : (r: Result<ItemRequestWithItemsDto>)
    ensures !UserExists(users, userId) ==> r == Err(UserNotFound(userId))
    ensures UserExists(users, userId) && FindRequest(requests, requestId).None?
      ==> r == Err(NotFound("Request ID = " + NatToString(requestId) + " not found!"))
    ensures r.Ok? <==> UserExists(users, userId) && FindRequest(requests, requestId).Some?
    ensures r.Ok? ==> r.value.id == Some(requestId)
    ensures r.Ok? ==> var q := FindRequest(requests, requestId).value;
      r.value.description == q.description && r.value.created == q.created
    ensures r.Ok? ==> var linked := FindAllByRequestId(items, requestId);
      |r.value.items| == |linked|
      && forall k :: 0 <= k < |linked| ==> r.value.items[k] == ToItemDtoForItemRequest(linked[k])
  {
    if !UserExists(users, userId) then Err(UserNotFound(userId))
    else match FindRequest(requests, requestId)
      case None => Err(NotFound("Request ID = " + NatToString(requestId) + " not found!"))
      case Some(q) =>
        Ok(WithItems(q, Map(FindAllByRequestId(items, requestId), (i: Item) requires i.request.Some? => ToItemDtoForItemRequest(i))))
  }

  /** A request listed by `getAllOwn` carries the same items as `getById`
      returns for it. */
  lemma {:induction false} OwnListingAgreesWithGetById(users: seq<User>, requests: seq<ItemRequest>, items: seq<Item>, ownerId: nat, k: nat)
    requires GetAllOwn(users, requests, items, ownerId).Ok?
    requires k < |FindAllByRequesterId(requests, ownerId)| && FindAllByRequesterId(requests, ownerId)[k].id.Some?
    ensures var q := FindAllByRequesterId(requests, ownerId)[k];
      var one := GetById(users, requests, items, q.id.value, ownerId);
      one.Ok? && one.value.items == GetAllOwn(users, requests, items, ownerId).value[k].items
  {
    var q := FindAllByRequesterId(requests, ownerId)[k];
    var j :| 0 <= j < |requests| && requests[j] == q;
    assert FindRequest(requests, q.id.value).Some?;
    GroupingIsByRequest(items, q.id.value);
  }
}
