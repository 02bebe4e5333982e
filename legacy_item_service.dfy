/** The item catalogue (older tree). It differs from the server tree in
    that patches carrying another item's id are refused, list offsets must
    be page-aligned, a blank search text finds nothing, and every answer is
    an `ItemDtoWithBooking`. The nearest-booking and comment selections are
    the same streams as in the server tree and are shared with it. */
module LegacyItemService {
  import opened Common
  import opened Text
  import opened Entities
  import opened Persistence
  import opened BookingRepository
  import opened ItemRepository
  import opened LegacyBookingMapper
  import opened LegacyItemMapper
  import ServerItemMapper
  import ServerItemService

  /** An item of a list view, with its nearest approved bookings and its comments. */
  function ItemView(item: Item, approved: seq<Booking>, comments: seq<Comment>, now: int): (r: ItemDtoWithBooking)
    requires Booked(approved) && Authored(comments)
    ensures r.id == item.id && r.name == Some(item.name) && r.description == Some(item.description)
    ensures r.available == Some(item.available) && r.requestId == ItemRequestId(item)
    ensures r.lastBooking == ToBookingNearest(ServerItemService.LastBooking(approved, item.id, now))
    ensures r.nextBooking == ToBookingNearest(ServerItemService.NextBooking(approved, item.id, now))
    ensures r.lastBooking.None? <==> ServerItemService.LastBooking(approved, item.id, now).None?
    ensures r.lastBooking.Some? ==> r.lastBooking.value.start < now
    ensures r.nextBooking.None? <==> ServerItemService.NextBooking(approved, item.id, now).None?
    ensures r.nextBooking.Some? ==> r.nextBooking.value.start > now
    ensures var own := ServerItemService.CommentsOf(comments, item.id);
      |r.comments| == |own| && forall k :: 0 <= k < |own| ==> r.comments[k] == ToCommentDto(own[k])
    ensures var s := ServerItemService.ItemView(item, approved, comments, now);
      && (r.lastBooking.Some? <==> s.lastBooking.Some?)
      && (r.lastBooking.Some? ==>
            && r.lastBooking.value.id == s.lastBooking.value.id && r.lastBooking.value.bookerId == s.lastBooking.value.bookerId
            && r.lastBooking.value.start == s.lastBooking.value.start && r.lastBooking.value.end == s.lastBooking.value.end)
      && (r.nextBooking.Some? <==> s.nextBooking.Some?)
      && (r.nextBooking.Some? ==>
            && r.nextBooking.value.id == s.nextBooking.value.id && r.nextBooking.value.bookerId == s.nextBooking.value.bookerId
            && r.nextBooking.value.start == s.nextBooking.value.start && r.nextBooking.value.end == s.nextBooking.value.end)
  {
    ToItemDtoWithBooking(item,
      ToBookingNearest(ServerItemService.LastBooking(approved, item.id, now)),
      ToBookingNearest(ServerItemService.NextBooking(approved, item.id, now)),
      ServerItemService.CommentsOf(comments, item.id))
  }

  /** The checks of `addNew` and the item they let through: the same as in
      the server tree. */
  function NewItem(users: seq<User>, requests: seq<ItemRequest>, d: CreateItemDto, userId: nat): (r: Result<Item>)
    ensures !UserExists(users, userId) ==> r == Err(UserNotFound(userId))
    ensures r.Ok? <==> UserExists(users, userId) && (d.requestId.Some? ==> FindRequest(requests, d.requestId.value).Some?)
    ensures r.Ok? ==> r.value.id.None? && r.value.ownerId == Some(userId) && r.value.name == d.name
    ensures r.Ok? ==> ItemRequestId(r.value) == d.requestId
    ensures r == ServerItemService.NewItem(users, requests,
      ServerItemMapper.ItemRequestDto(Some(d.name), Some(d.description), Some(d.available), d.requestId), userId)
  {
    var item := ToItem(d);
    if !UserExists(users, userId) then Err(UserNotFound(userId))
    else if d.requestId.None? then Ok(item.(ownerId := Some(userId)))
    else match FindRequest(requests, d.requestId.value)
      case None => Err(NotFound("ItemRequest ID = " + NatToString(d.requestId.value) + " not found!"))
      case Some(request) => Ok(item.(ownerId := Some(userId), request := Some(request)))
  }

  /** The checks of `patchUpdate` and the patched item: the item must exist
      and belong to the caller, and an id in the body must be the item's id. */
  function PatchedItem(items: seq<Item>, d: ItemDtoWithBooking, itemId: nat, userId: nat): (r: Result<Item>)
    ensures var found := FindItem(items, itemId);
      && (found.None? ==> r == Err(ItemNotFound(itemId)))
      && (found.Some? && found.value.ownerId != Some(userId) ==> r == Err(AccessDenied("User ID and owner ID mismatch")))
      && (found.Some? && found.value.ownerId == Some(userId) && d.id.Some? && d.id != Some(itemId) ==> r == Err(Validation("Item ID mismatch")))
    ensures r.Ok? <==> FindItem(items, itemId).Some? && FindItem(items, itemId).value.ownerId == Some(userId)
                        && (d.id.None? || d.id == Some(itemId))
    ensures r.Ok? ==> r.value == ApplyItemPatch(FindItem(items, itemId).value, d.name, d.description, d.available)
    ensures d.id.None? || d.id == Some(itemId) ==>
      r == ServerItemService.PatchedItem(items, ServerItemMapper.ItemRequestDto(d.name, d.description, d.available, None), itemId, userId)
  {
    match FindItem(items, itemId)
    case None => Err(ItemNotFound(itemId))
    case Some(item) =>
      if item.ownerId != Some(userId) then Err(AccessDenied("User ID and owner ID mismatch"))
      else if d.id.Some? && d.id != Some(itemId) then Err(Validation("Item ID mismatch"))
      else Ok(ApplyItemPatch(item, d.name, d.description, d.available))
  }

  /** `getById`: as in the server tree, answered as an `ItemDtoWithBooking`. */
  function GetById(items: seq<Item>, bookings: seq<Booking>, comments: seq<Comment>, itemId: nat, userId: nat, now: int)
    : (r: Result<ItemDtoWithBooking>)
    requires Booked(bookings) && Authored(comments)
    ensures FindItem(items, itemId).None? ==> r == Err(ItemNotFound(itemId))
    ensures r.Ok? <==> FindItem(items, itemId).Some?
    ensures r.Ok? ==> r.value.id == Some(itemId)
    ensures r.Ok? ==> var item := FindItem(items, itemId).value;
      && r.value.name == Some(item.name) && r.value.description == Some(item.description)
      && r.value.available == Some(item.available) && r.value.requestId == ItemRequestId(item)
    ensures r.Ok? && FindItem(items, itemId).value.ownerId != Some(userId) ==> r.value.lastBooking.None? && r.value.nextBooking.None?
    ensures r.Ok? && FindItem(items, itemId).value.ownerId == Some(userId) ==>
      && r.value.lastBooking == ToBookingNearest(FindFirstByItemIdAndStatusAndStartBeforeOrderByStartDesc(bookings, itemId, APPROVED, now))
      && r.value.nextBooking == ToBookingNearest(FindFirstByItemIdAndStatusAndStartAfterOrderByStartAsc(bookings, itemId, APPROVED, now))
    ensures r.Ok? ==> |r.value.comments| == |ServerItemService.CommentsOf(comments, Some(itemId))|
    ensures r.Ok? ==> forall k :: 0 <= k < |r.value.comments| ==>
      r.value.comments[k] == ToCommentDto(ServerItemService.CommentsOf(comments, Some(itemId))[k])
    ensures var s := ServerItemService.GetById(items, bookings, comments, itemId, userId, now);
      r.Ok? == s.Ok? && (r.Err? ==> r.error == s.error)
  {
    match FindItem(items, itemId)
    case None => Err(ItemNotFound(itemId))
    case Some(item) =>
      var isOwner := item.ownerId == Some(userId);
      var last := if isOwner then FindFirstByItemIdAndStatusAndStartBeforeOrderByStartDesc(bookings, itemId, APPROVED, now) else None;
      var next := if isOwner then FindFirstByItemIdAndStatusAndStartAfterOrderByStartAsc(bookings, itemId, APPROVED, now) else None;
      assert last.Some? ==> last.value.booker.Some?;
      assert next.Some? ==> next.value.booker.Some?;
      Ok(ToItemDtoWithBooking(item, ToBookingNearest(last), ToBookingNearest(next), ServerItemService.CommentsOf(comments, Some(itemId))))
  }

  /** `getAllOwnerItems`: the offset must be a multiple of the page size;
      then page `from / size` of the owner's items by id, each with its
      nearest approved bookings and comments. */
  function GetAllOwnerItems(items: seq<Item>, bookings: seq<Booking>, comments: seq<Comment>, userId: nat, from: nat, size: nat, now: int)
    : (r: Result<seq<ItemDtoWithBooking>>)
    requires size > 0 && Booked(bookings) && Authored(comments)
    ensures r.Err? <==> from % size != 0
    ensures r.Err? ==> r.error == PageMismatch
    ensures r.Ok? ==> var listed := FindAllByOwnerId(items, userId, from / size, size);
      |r.value| == |listed| <= size
      && forall k :: 0 <= k < |listed| ==>
           (listed[k].ownerId == Some(userId)
            && r.value[k] == ItemView(listed[k], FindAllByItemOwnerIdAndStatus(bookings, userId, APPROVED), comments, now))
    ensures r.Ok? ==> |r.value| == |ServerItemService.GetAllOwnerItems(items, bookings, comments, userId, from, size, now)|
  {
    if from % size != 0 then Err(PageMismatch)
    else
      var listed := FindAllByOwnerId(items, userId, from / size, size);
      var approved := FindAllByItemOwnerIdAndStatus(bookings, userId, APPROVED);
      Ok(seq(|listed|, k requires 0 <= k < |listed| => ItemView(listed[k], approved, comments, now)))
  }

  /** `findAvailableByText`: the offset must be a multiple of the page size;
      a blank text finds nothing; otherwise page `from / size` of the search
      hits, each with its nearest approved bookings and comments. */
  function FindAvailableByText(items: seq<Item>, bookings: seq<Booking>, comments: seq<Comment>, text: string, from: nat, size: nat, now: int)
    : (r: Result<seq<ItemDtoWithBooking>>)
    requires size > 0 && Booked(bookings) && Authored(comments)
    ensures r.Err? <==> from % size != 0
    ensures r.Err? ==> r.error == PageMismatch
    ensures r.Ok? && IsBlank(text) ==> r.value == []
    ensures r.Ok? && !IsBlank(text) ==> var listed := SearchAvailByText(items, text, from / size, size);
      |r.value| == |listed| <= size
      && forall k :: 0 <= k < |listed| ==>
           (listed[k].available && r.value[k].available == Some(true)
            && r.value[k] == ItemView(listed[k], FindAllByStatus(bookings, APPROVED), comments, now))
    ensures r.Ok? && !IsBlank(text) ==> |r.value| == |ServerItemService.FindAvailableByText(items, bookings, comments, text, from, size, now)|
  {
    if from % size != 0 then Err(PageMismatch)
    else if IsBlank(text) then Ok([])
    else
      var listed := SearchAvailByText(items, text, from / size, size);
      var approved := FindAllByStatus(bookings, APPROVED);
      Ok(seq(|listed|, k requires 0 <= k < |listed| => ItemView(listed[k], approved, comments, now)))
  }

  /** The checks of `addNewComment` and the comment they let through: the
      same checks and order as the server tree, but the refusal for a caller
      without a finished approved booking carries no message (modelled as
      the empty one), and the text and creation time come from the body. */
  function NewComment(bookings: seq<Booking>, items: seq<Item>, users: seq<User>, text: string, created: int, userId: nat, itemId: nat, now: int)
    : (r: Result<Comment>)
    ensures !ExistsByItemIdAndBookerIdAndStatusAndEndBefore(bookings, itemId, userId, APPROVED, now) ==> r == Err(Validation(""))
    ensures r.Ok? ==> r.value.id.None? && r.value.text == text && r.value.created == created
    ensures r.Ok? ==> CommentItemId(r.value) == Some(itemId) && r.value.author == FindUser(users, userId)
    ensures var s := ServerItemService.NewComment(bookings, items, users, text, userId, itemId, now);
      && (r.Ok? <==> s.Ok?)
      && (r.Err? ==> r.error == s.error)
      && (r.Ok? ==> r.value == s.value.(created := created))
  {
    if !ExistsByItemIdAndBookerIdAndStatusAndEndBefore(bookings, itemId, userId, APPROVED, now) then Err(Validation(""))
    else match FindItem(items, itemId)
      case None => Err(ItemNotFound(itemId))
      case Some(item) =>
        match FindUser(users, userId)
        case None => Err(UserNotFound(userId))
        case Some(author) => Ok(Comment(None, text, Some(item), Some(author), created))
  }

  /** `addNew`: saves the item when the checks pass and answers it without bookings or comments. */
  method AddNew(db: Database, d: CreateItemDto, userId: nat) returns (r: Result<ItemDtoWithBooking>)
    requires db.Valid()
    modifies db`items, db`nextItemId
    ensures db.Valid()
    ensures var checked := NewItem(old(db.users), old(db.requests), d, userId);
      && (checked.Err? ==> r == Err(checked.error) && db.items == old(db.items) && db.nextItemId == old(db.nextItemId))
      && (checked.Ok? ==> db.items == old(db.items) + [checked.value.(id := Some(old(db.nextItemId)))]
                          && db.nextItemId == old(db.nextItemId) + 1
                          && r == Ok(ToItemDtoWithBooking(checked.value.(id := Some(old(db.nextItemId))), None, None, [])))
  {
    var checked := NewItem(db.users, db.requests, d, userId);
    if checked.Err? {
      return Err(checked.error);
    }
    var saved := db.SaveItem(checked.value);
    r := Ok(ToItemDtoWithBooking(saved, None, None, []));
  }

  /** `patchUpdate`: overwrites the item's row with the patched item when the checks pass. */
  method PatchUpdate(db: Database, d: ItemDtoWithBooking, itemId: nat, userId: nat) returns (r: Result<ItemDtoWithBooking>)
    requires db.Valid()
    modifies db`items, db`nextItemId
    ensures db.Valid() && db.nextItemId == old(db.nextItemId)
    ensures var patched := PatchedItem(old(db.items), d, itemId, userId);
      && (patched.Err? ==> r == Err(patched.error) && db.items == old(db.items))
      && (patched.Ok? ==> db.items == Replace(old(db.items), ItemId, patched.value)
                          && r == Ok(ToItemDtoWithBooking(patched.value, None, None, [])))
  {
    var patched := PatchedItem(db.items, d, itemId, userId);
    if patched.Err? {
      return Err(patched.error);
    }
    var saved := db.SaveItem(patched.value);
    r := Ok(ToItemDtoWithBooking(saved, None, None, []));
  }

  /** `addNewComment`: saves the comment when the checks pass. */
  method AddNewComment(db: Database, text: string, created: int, userId: nat, itemId: nat, now: int) returns (r: Result<CommentDto>)
    requires db.Valid()
    modifies db`comments, db`nextCommentId
    ensures db.Valid()
    ensures var checked := NewComment(old(db.bookings), old(db.items), old(db.users), text, created, userId, itemId, now);
      && (checked.Err? ==> r == Err(checked.error) && db.comments == old(db.comments) && db.nextCommentId == old(db.nextCommentId))
      && (checked.Ok? ==> db.comments == old(db.comments) + [checked.value.(id := Some(old(db.nextCommentId)))]
                          && db.nextCommentId == old(db.nextCommentId) + 1
                          && r == Ok(ToCommentDto(checked.value.(id := Some(old(db.nextCommentId))))))
  {
    var checked := NewComment(db.bookings, db.items, db.users, text, created, userId, itemId, now);
    if checked.Err? {
      return Err(checked.error);
    }
    var saved := db.SaveComment(checked.value);
    r := Ok(ToCommentDto(saved));
  }
}
