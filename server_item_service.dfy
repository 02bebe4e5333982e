/** The item catalogue (server tree): creating and patching items, the item
    page with its nearest bookings and comments, the owner's list and the
    text search, and commenting after a finished booking. */
module ServerItemService {
  import opened Common
  import opened Seqs
  import opened Entities
  import opened Persistence
  import opened BookingRepository
  import opened ItemRepository
  import opened ServerBookingMapper
  import opened ServerItemMapper

  /** The last booking shown with an item: among the given (approved)
      bookings of the item that started before `now`, one with the latest start. */
  function LastBooking(approved: seq<Booking>, itemId: Option<nat>, now: int): (r: Option<Booking>)
    ensures r.None? <==> forall k :: 0 <= k < |approved| ==> !(approved[k].item.id == itemId && approved[k].start < now)
    ensures r.Some? ==> r.value in approved && r.value.item.id == itemId && r.value.start < now
    ensures r.Some? ==> forall k :: 0 <= k < |approved| && approved[k].item.id == itemId && approved[k].start < now
                          ==> approved[k].start <= r.value.start
  {
    var before := Filter(approved, (b: Booking) => b.item.id == itemId && b.start < now);
    var r := MaxBy(before, StartOf);
    assert forall k :: 0 <= k < |approved| && approved[k].item.id == itemId && approved[k].start < now ==> approved[k] in before;
    r
  }

  /** The next booking shown with an item: among the given (approved)
      bookings of the item that start after `now`, one with the earliest start. */
  function NextBooking(approved: seq<Booking>, itemId: Option<nat>, now: int): (r: Option<Booking>)
    ensures r.None? <==> forall k :: 0 <= k < |approved| ==> !(approved[k].item.id == itemId && approved[k].start > now)
    ensures r.Some? ==> r.value in approved && r.value.item.id == itemId && r.value.start > now
    ensures r.Some? ==> forall k :: 0 <= k < |approved| && approved[k].item.id == itemId && approved[k].start > now
                          ==> r.value.start <= approved[k].start
  {
    var after := Filter(approved, (b: Booking) => b.item.id == itemId && b.start > now);
    var r := MinBy(after, StartOf);
    assert forall k :: 0 <= k < |approved| && approved[k].item.id == itemId && approved[k].start > now ==> approved[k] in after;
    r
  }

  /** A booking that starts exactly now is neither the last nor the next one. */
  lemma StartingNowIsNeither(approved: seq<Booking>, itemId: Option<nat>, now: int)
    requires forall k :: 0 <= k < |approved| && approved[k].item.id == itemId ==> approved[k].start == now
    ensures LastBooking(approved, itemId, now).None? && NextBooking(approved, itemId, now).None?
  {
  }

  /** The item's comments (`findAllByItemId`, or the stream filter over all comments), in table order. */
  function CommentsOf(comments: seq<Comment>, itemId: Option<nat>): (r: seq<Comment>)
    ensures forall k :: 0 <= k < |r| ==> r[k] in comments && CommentItemId(r[k]) == itemId
    ensures forall k :: 0 <= k < |comments| && CommentItemId(comments[k]) == itemId ==> comments[k] in r
    ensures Subsequence(r, comments)
    ensures forall c {:trigger multiset(r)[c]} :: c in comments ==>
      multiset(r)[c] == if CommentItemId(c) == itemId then multiset(comments)[c] else 0
  {
    Filter(comments, (c: Comment) => CommentItemId(c) == itemId)
  }

  /** An item of a list view, with its nearest approved bookings and its comments. */
  function ItemView(item: Item, approved: seq<Booking>, comments: seq<Comment>, now: int): (r: ExtendedItemResponseDto)
    requires Booked(approved) && Authored(comments)
    ensures r.id == item.id && r.name == item.name && r.description == item.description && r.available == item.available
    ensures r.requestId == ItemRequestId(item)
    ensures r.lastBooking == ToBookingNearest(LastBooking(approved, item.id, now))
    ensures r.nextBooking == ToBookingNearest(NextBooking(approved, item.id, now))
    ensures r.lastBooking.None? <==> LastBooking(approved, item.id, now).None?
    ensures r.lastBooking.Some? ==>
      (r.lastBooking.value.start < now && r.lastBooking.value == ToBookingNearest(LastBooking(approved, item.id, now)).value)
    ensures r.nextBooking.None? <==> NextBooking(approved, item.id, now).None?
    ensures r.nextBooking.Some? ==>
      (r.nextBooking.value.start > now && r.nextBooking.value == ToBookingNearest(NextBooking(approved, item.id, now)).value)
    ensures |r.comments| == |CommentsOf(comments, item.id)|
    ensures forall k :: 0 <= k < |r.comments| ==> r.comments[k] == ToCommentResponseDto(CommentsOf(comments, item.id)[k])
  {
    var own := CommentsOf(comments, item.id);
    ToExtendedItemResponseDto(item,
      ToBookingNearest(LastBooking(approved, item.id, now)),
      ToBookingNearest(NextBooking(approved, item.id, now)),
      own)
  }

  /** Every approved booking of an item owned by `ownerId` is among the
      owner's approved bookings, when the bookings record the item's owner. */
  lemma ApprovedOfItemIsOwners(bookings: seq<Booking>, item: Item, ownerId: nat, j: nat)
    requires item.ownerId == Some(ownerId) && j < |bookings|
    requires forall i :: 0 <= i < |bookings| && bookings[i].item.id == item.id ==> bookings[i].item.ownerId == item.ownerId
    requires bookings[j].item.id == item.id && bookings[j].status == Some(APPROVED)
    ensures bookings[j] in FindAllByItemOwnerIdAndStatus(bookings, ownerId, APPROVED)
  {
  }

  /** The last booking of a list view (over the owner's approved bookings)
      starts when the one `getById` shows (the repository's latest approved
      booking of the item before `now`) starts, provided every booking of
      the item records the item's owner. */
  lemma {:induction false} LastAgreesWithRepository(bookings: seq<Booking>, item: Item, ownerId: nat, now: int)
    requires item.id.Some? && item.ownerId == Some(ownerId)
    requires forall j :: 0 <= j < |bookings| && bookings[j].item.id == item.id ==> bookings[j].item.ownerId == item.ownerId
    ensures var l := LastBooking(FindAllByItemOwnerIdAndStatus(bookings, ownerId, APPROVED), item.id, now);
      var f := FindFirstByItemIdAndStatusAndStartBeforeOrderByStartDesc(bookings, item.id.value, APPROVED, now);
      l.Some? == f.Some? && (l.Some? ==> l.value.start == f.value.start)
  {
    var approved := FindAllByItemOwnerIdAndStatus(bookings, ownerId, APPROVED);
    var l := LastBooking(approved, item.id, now);
    var f := FindFirstByItemIdAndStatusAndStartBeforeOrderByStartDesc(bookings, item.id.value, APPROVED, now);
    if f.Some? {
      var j :| 0 <= j < |bookings| && bookings[j] == f.value;
      ApprovedOfItemIsOwners(bookings, item, ownerId, j);
      var i :| 0 <= i < |approved| && approved[i] == f.value;
      assert l.Some? && f.value.start <= l.value.start;
    }
    if l.Some? {
      var j :| 0 <= j < |bookings| && bookings[j] == l.value;
      assert f.Some? && l.value.start <= f.value.start;
    }
  }

  /** The next booking of a list view starts when the one `getById` shows
      starts, under the same proviso as `LastAgreesWithRepository`. */
  lemma {:induction false} NextAgreesWithRepository(bookings: seq<Booking>, item: Item, ownerId: nat, now: int)
    requires item.id.Some? && item.ownerId == Some(ownerId)
    requires forall j :: 0 <= j < |bookings| && bookings[j].item.id == item.id ==> bookings[j].item.ownerId == item.ownerId
    ensures var n := NextBooking(FindAllByItemOwnerIdAndStatus(bookings, ownerId, APPROVED), item.id, now);
      var f := FindFirstByItemIdAndStatusAndStartAfterOrderByStartAsc(bookings, item.id.value, APPROVED, now);
      n.Some? == f.Some? && (n.Some? ==> n.value.start == f.value.start)
  {
    var approved := FindAllByItemOwnerIdAndStatus(bookings, ownerId, APPROVED);
    var n := NextBooking(approved, item.id, now);
    var f := FindFirstByItemIdAndStatusAndStartAfterOrderByStartAsc(bookings, item.id.value, APPROVED, now);
    if f.Some? {
      var j :| 0 <= j < |bookings| && bookings[j] == f.value;
      ApprovedOfItemIsOwners(bookings, item, ownerId, j);
      var i :| 0 <= i < |approved| && approved[i] == f.value;
      assert n.Some? && n.value.start <= f.value.start;
    }
    if n.Some? {
      var j :| 0 <= j < |bookings| && bookings[j] == n.value;
      assert f.Some? && f.value.start <= n.value.start;
    }
  }

  /** `getById`: the item must exist; its owner sees the nearest approved
      bookings, anyone else sees none; everyone sees all of its comments. */
  function GetById(items: seq<Item>, bookings: seq<Booking>, comments: seq<Comment>, itemId: nat, userId: nat, now: int)
    : (r: Result<ExtendedItemResponseDto>)
    requires Booked(bookings) && Authored(comments)
    ensures FindItem(items, itemId).None? ==> r == Err(ItemNotFound(itemId))
    ensures r.Ok? <==> FindItem(items, itemId).Some?
    ensures r.Ok? ==> r.value.id == Some(itemId)
    ensures r.Ok? ==> var item := FindItem(items, itemId).value;
      && r.value.name == item.name && r.value.description == item.description && r.value.available == item.available
      && r.value.requestId == ItemRequestId(item)
    ensures r.Ok? && FindItem(items, itemId).value.ownerId != Some(userId) ==> r.value.lastBooking.None? && r.value.nextBooking.None?
    ensures r.Ok? && FindItem(items, itemId).value.ownerId == Some(userId) ==>
      && r.value.lastBooking == ToBookingNearest(FindFirstByItemIdAndStatusAndStartBeforeOrderByStartDesc(bookings, itemId, APPROVED, now))
      && r.value.nextBooking == ToBookingNearest(FindFirstByItemIdAndStatusAndStartAfterOrderByStartAsc(bookings, itemId, APPROVED, now))
    ensures r.Ok? ==> |r.value.comments| == |CommentsOf(comments, Some(itemId))|
    ensures r.Ok? ==> forall k :: 0 <= k < |r.value.comments| ==> r.value.comments[k] == ToCommentResponseDto(CommentsOf(comments, Some(itemId))[k])
  {
    match FindItem(items, itemId)
    case None => Err(ItemNotFound(itemId))
    case Some(item) =>
      var isOwner := item.ownerId == Some(userId);
      var last := if isOwner then FindFirstByItemIdAndStatusAndStartBeforeOrderByStartDesc(bookings, itemId, APPROVED, now) else None;
      var next := if isOwner then FindFirstByItemIdAndStatusAndStartAfterOrderByStartAsc(bookings, itemId, APPROVED, now) else None;
      assert last.Some? ==> last.value.booker.Some?;
      assert next.Some? ==> next.value.booker.Some?;
      Ok(ToExtendedItemResponseDto(item, ToBookingNearest(last), ToBookingNearest(next), CommentsOf(comments, Some(itemId))))
  }

  /** `getAllOwnerItems`: page `from / size` of the owner's items by id (no
      alignment check), each with its nearest approved bookings and comments. */
  function GetAllOwnerItems(items: seq<Item>, bookings: seq<Booking>, comments: seq<Comment>, userId: nat, from: nat, size: nat, now: int)
    : (r: seq<ExtendedItemResponseDto>)
    requires size > 0 && Booked(bookings) && Authored(comments)
    ensures var listed := FindAllByOwnerId(items, userId, from / size, size);
      |r| == |listed| <= size
      && forall k :: 0 <= k < |r| ==>
           (listed[k] in items && listed[k].ownerId == Some(userId)
            && r[k] == ItemView(listed[k], FindAllByItemOwnerIdAndStatus(bookings, userId, APPROVED), comments, now))
  {
    var listed := FindAllByOwnerId(items, userId, from / size, size);
    var approved := FindAllByItemOwnerIdAndStatus(bookings, userId, APPROVED);
    seq(|listed|, k requires 0 <= k < |listed| => ItemView(listed[k], approved, comments, now))
  }

  /** `findAvailableByText`: page `from / size` of the search hits (no
      alignment check, no blank-text shortcut), each with its nearest
      approved bookings and comments. */
  function FindAvailableByText(items: seq<Item>, bookings: seq<Booking>, comments: seq<Comment>, text: string, from: nat, size: nat, now: int)
    : (r: seq<ExtendedItemResponseDto>)
    requires size > 0 && Booked(bookings) && Authored(comments)
    ensures var listed := SearchAvailByText(items, text, from / size, size);
      |r| == |listed| <= size
      && forall k :: 0 <= k < |r| ==>
           (listed[k] in items && listed[k].available && r[k].available
            && r[k] == ItemView(listed[k], FindAllByStatus(bookings, APPROVED), comments, now))
  {
    var listed := SearchAvailByText(items, text, from / size, size);
    var approved := FindAllByStatus(bookings, APPROVED);
    seq(|listed|, k requires 0 <= k < |listed| => ItemView(listed[k], approved, comments, now))
  }

  /** The checks of `addNew` and the item they let through, before it is
      saved: the owner must exist, and a request id, when given, must name
      an existing request, which the item then answers. */
  function NewItem(users: seq<User>, requests: seq<ItemRequest>, d: ItemRequestDto, userId: nat): (r: Result<Item>)
    requires IsComplete(d)
    ensures !UserExists(users, userId) ==> r == Err(UserNotFound(userId))
    ensures UserExists(users, userId) && d.requestId.Some? && FindRequest(requests, d.requestId.value).None?
      ==> r == Err(NotFound("ItemRequest ID = " + NatToString(d.requestId.value) + " not found!"))
    ensures r.Ok? <==> UserExists(users, userId) && (d.requestId.Some? ==> FindRequest(requests, d.requestId.value).Some?)
    ensures r.Ok? ==> r.value.id.None? && r.value.ownerId == Some(userId)
    ensures r.Ok? ==> r.value.name == d.name.value && r.value.description == d.description.value && r.value.available == d.available.value
    ensures r.Ok? ==> (r.value.request.None? <==> d.requestId.None?)
    ensures r.Ok? && d.requestId.Some? ==> r.value.request == FindRequest(requests, d.requestId.value)
    ensures r.Ok? ==> ItemRequestId(r.value) == d.requestId
  {
    var item := ToItem(d);
    if !UserExists(users, userId) then Err(UserNotFound(userId))
    else if d.requestId.None? then Ok(item.(ownerId := Some(userId)))
    else match FindRequest(requests, d.requestId.value)
      case None => Err(NotFound("ItemRequest ID = " + NatToString(d.requestId.value) + " not found!"))
      case Some(request) => Ok(item.(ownerId := Some(userId), request := Some(request)))
  }

  /** The checks of `patchUpdate` and the patched item: the item must exist
      and belong to the caller; present fields replace stored ones. */
  function PatchedItem(items: seq<Item>, d: ItemRequestDto, itemId: nat, userId: nat): (r: Result<Item>)
    ensures FindItem(items, itemId).None? ==> r == Err(ItemNotFound(itemId))
    ensures FindItem(items, itemId).Some? && FindItem(items, itemId).value.ownerId != Some(userId)
      ==> r == Err(AccessDenied("User ID and owner ID mismatch"))
    ensures r.Ok? <==> FindItem(items, itemId).Some? && FindItem(items, itemId).value.ownerId == Some(userId)
    ensures r.Ok? ==> r.value == ApplyItemPatch(FindItem(items, itemId).value, d.name, d.description, d.available)
    ensures r.Ok? ==> r.value.id == Some(itemId) && r.value.ownerId == Some(userId)
  {
    match FindItem(items, itemId)
    case None => Err(ItemNotFound(itemId))
    case Some(item) =>
      if item.ownerId != Some(userId) then Err(AccessDenied("User ID and owner ID mismatch"))
      else Ok(ApplyItemPatch(item, d.name, d.description, d.available))
  }

  /** The checks of `addNewComment` and the comment they let through, before
      it is saved: the caller must have an approved booking of the item that
      ended before `now` (checked first), then the item and the caller must exist. */
  function NewComment(bookings: seq<Booking>, items: seq<Item>, users: seq<User>, text: string, userId: nat, itemId: nat, now: int)
    : (r: Result<Comment>)
    ensures !ExistsByItemIdAndBookerIdAndStatusAndEndBefore(bookings, itemId, userId, APPROVED, now) ==> r == Err(Validation(""))
    ensures var booked := ExistsByItemIdAndBookerIdAndStatusAndEndBefore(bookings, itemId, userId, APPROVED, now);
      && (r.Ok? <==> booked && FindItem(items, itemId).Some? && UserExists(users, userId))
      && (booked && FindItem(items, itemId).None? ==> r == Err(ItemNotFound(itemId)))
      && (booked && FindItem(items, itemId).Some? && !UserExists(users, userId) ==> r == Err(UserNotFound(userId)))
    ensures r.Ok? ==>
      exists k :: 0 <= k < |bookings| && bookings[k].item.id == Some(itemId) && BookerId(bookings[k]) == Some(userId)
                  && bookings[k].status == Some(APPROVED) && bookings[k].end < now
    ensures r.Ok? ==> r.value.id.None? && r.value.text == text && r.value.created == now
    ensures r.Ok? ==> CommentItemId(r.value) == Some(itemId) && r.value.author == FindUser(users, userId)
  {
    if !ExistsByItemIdAndBookerIdAndStatusAndEndBefore(bookings, itemId, userId, APPROVED, now) then Err(Validation(""))
    else match FindItem(items, itemId)
      case None => Err(ItemNotFound(itemId))
      case Some(item) =>
        match FindUser(users, userId)
        case None => Err(UserNotFound(userId))
        case Some(author) => Ok(Comment(None, text, Some(item), Some(author), now))
  }

  /** `addNew`: saves the item when the checks pass; nothing is stored otherwise. */
  method AddNew(db: Database, d: ItemRequestDto, userId: nat) returns (r: Result<ItemResponseDto>)
    requires db.Valid() && IsComplete(d)
    modifies db`items, db`nextItemId
    ensures db.Valid()
    ensures var checked := NewItem(old(db.users), old(db.requests), d, userId);
      && (checked.Err? ==> r == Err(checked.error) && db.items == old(db.items) && db.nextItemId == old(db.nextItemId))
      && (checked.Ok? ==> db.items == old(db.items) + [checked.value.(id := Some(old(db.nextItemId)))]
                          && db.nextItemId == old(db.nextItemId) + 1
                          && r == Ok(ToItemResponseDto(checked.value.(id := Some(old(db.nextItemId))))))
  {
    var checked := NewItem(db.users, db.requests, d, userId);
    if checked.Err? {
      return Err(checked.error);
    }
    var saved := db.SaveItem(checked.value);
    r := Ok(ToItemResponseDto(saved));
  }

  /** `patchUpdate`: overwrites the item's row with the patched item when the checks pass. */
  method PatchUpdate(db: Database, d: ItemRequestDto, itemId: nat, userId: nat) returns (r: Result<ItemResponseDto>)
    requires db.Valid()
    modifies db`items, db`nextItemId
    ensures db.Valid() && db.nextItemId == old(db.nextItemId)
    ensures var patched := PatchedItem(old(db.items), d, itemId, userId);
      && (patched.Err? ==> r == Err(patched.error) && db.items == old(db.items))
      && (patched.Ok? ==> db.items == Replace(old(db.items), ItemId, patched.value) && r == Ok(ToItemResponseDto(patched.value)))
  {
    var patched := PatchedItem(db.items, d, itemId, userId);
    if patched.Err? {
      return Err(patched.error);
    }
    var saved := db.SaveItem(patched.value);
    r := Ok(ToItemResponseDto(saved));
  }

  /** `addNewComment`: saves the comment, stamped `now`, when the checks pass. */
  method AddNewComment(db: Database, text: string, userId: nat, itemId: nat, now: int) returns (r: Result<CommentResponseDto>)
    requires db.Valid()
    modifies db`comments, db`nextCommentId
    ensures db.Valid()
    ensures var checked := NewComment(old(db.bookings), old(db.items), old(db.users), text, userId, itemId, now);
      && (checked.Err? ==> r == Err(checked.error) && db.comments == old(db.comments) && db.nextCommentId == old(db.nextCommentId))
      && (checked.Ok? ==> db.comments == old(db.comments) + [checked.value.(id := Some(old(db.nextCommentId)))]
                          && db.nextCommentId == old(db.nextCommentId) + 1
                          && r == Ok(ToCommentResponseDto(checked.value.(id := Some(old(db.nextCommentId))))))
  {
    var checked := NewComment(db.bookings, db.items, db.users, text, userId, itemId, now);
    if checked.Err? {
      return Err(checked.error);
    }
    var saved := db.SaveComment(checked.value);
    r := Ok(ToCommentResponseDto(saved));
  }
}
