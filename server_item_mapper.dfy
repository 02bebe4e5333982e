/** Conversions between items (and their comments) and transfer objects (server tree). */
module ServerItemMapper {
  import opened Common
  import opened Seqs
  import opened Entities
  import opened ServerBookingMapper

  /** The body of a create or patch request; every field may be absent. */
  datatype ItemRequestDto = ItemRequestDto(
    name: Option<string>, description: Option<string>, available: Option<bool>, requestId: Option<nat>)

  datatype ItemResponseDto = ItemResponseDto(
    id: Option<nat>, name: string, description: string, available: bool, requestId: Option<nat>)

  datatype CommentResponseDto = CommentResponseDto(id: Option<nat>, text: string, authorName: Option<string>, created: int)

  /** An item with its nearest bookings and its comments. */
  datatype ExtendedItemResponseDto = ExtendedItemResponseDto(
    id: Option<nat>, name: string, description: string, available: bool, requestId: Option<nat>,
    lastBooking: Option<BookingNearestDto>, nextBooking: Option<BookingNearestDto>,
    comments: seq<CommentResponseDto>)

  /** An item listed under the request it answers. */
  datatype ItemWithIdResponseDto = ItemWithIdResponseDto(
    id: Option<nat>, name: string, description: string, available: bool, requestId: Option<nat>)

  /** A create request passes the gateway only with name, description and availability present. */
  predicate IsComplete(d: ItemRequestDto)
  {
    d.name.Some? && d.description.Some? && d.available.Some?
  }

  /** A comment as shown: its author's name instead of the author. */
  function ToCommentResponseDto(c: Comment): (r: CommentResponseDto)
    requires c.author.Some?
    ensures r.id == c.id && r.text == c.text && r.created == c.created
    ensures r.authorName == c.author.value.name
  {
    CommentResponseDto(c.id, c.text, c.author.value.name, c.created)
  }

  /** Reads the editable fields and the request id back from an item. */
  function ToItemRequestDto(item: Item): (r: ItemRequestDto)
    ensures IsComplete(r)
    ensures r.name == Some(item.name) && r.description == Some(item.description) && r.available == Some(item.available)
    ensures r.requestId.None? <==> item.request.None? || item.request.value.id.None?
    ensures r.requestId == ItemRequestId(item)
  {
    ItemRequestDto(Some(item.name), Some(item.description), Some(item.available),
      if item.request.Some? then item.request.value.id else None)
  }

  /** A new item from a create request: the three editable fields copied, no
      id, owner or request yet. Reading it back gives the request without its
      request id; turning an item into a request and back keeps exactly the
      editable fields. */
  function ToItem(d: ItemRequestDto): (r: Item)
    requires IsComplete(d)
    ensures r.name == d.name.value && r.description == d.description.value && r.available == d.available.value
    ensures r.id.None? && r.ownerId.None? && r.request.None?
    ensures ToItemRequestDto(r) == d.(requestId := None)
  {
    Item(None, d.name.value, d.description.value, d.available.value, None, None)
  }

  /** Turning an item into a request and back keeps exactly its editable fields. */
  lemma ItemRoundTrip(item: Item)
    ensures ToItem(ToItemRequestDto(item)) == item.(id := None, ownerId := None, request := None)
  {
  }

  /** The item as shown after create or patch; no request id is filled in. */
  function ToItemResponseDto(item: Item): (r: ItemResponseDto)
    ensures r.id == item.id && r.name == item.name && r.description == item.description
    ensures r.available == item.available && r.requestId.None?
  {
    ItemResponseDto(item.id, item.name, item.description, item.available, None)
  }

  /** The item with the given nearest bookings and its comments mapped one by one, in order. */
  function ToExtendedItemResponseDto(
    item: Item, lastBooking: Option<BookingNearestDto>, nextBooking: Option<BookingNearestDto>, comments: seq<Comment>): (r: ExtendedItemResponseDto)
    requires Authored(comments)
    ensures r.id == item.id && r.name == item.name && r.description == item.description && r.available == item.available
    ensures r.requestId == ItemRequestId(item)
    ensures r.lastBooking == lastBooking && r.nextBooking == nextBooking
    ensures |r.comments| == |comments|
    ensures forall k :: 0 <= k < |comments| ==> r.comments[k] == ToCommentResponseDto(comments[k])
  {
    ExtendedItemResponseDto(item.id, item.name, item.description, item.available, ItemRequestId(item),
      lastBooking, nextBooking, seq(|comments|, k requires 0 <= k < |comments| => ToCommentResponseDto(comments[k])))
  }

  /** The item with no bookings and no comments: the four-argument form with nulls and an empty list. */
  function ToExtendedItemResponseDtoAlone(item: Item): (r: ExtendedItemResponseDto)
    ensures r.lastBooking.None? && r.nextBooking.None? && r.comments == []
    ensures r == ToExtendedItemResponseDto(item, None, None, [])
  {
    ExtendedItemResponseDto(item.id, item.name, item.description, item.available,
      if item.request.Some? then item.request.value.id else None, None, None, [])
  }

  /** An item that answers a request, with that request's id. */
  function ToItemDtoForItemRequest(item: Item): (r: ItemWithIdResponseDto)
    requires item.request.Some?
    ensures r.id == item.id && r.name == item.name && r.description == item.description && r.available == item.available
    ensures r.requestId == item.request.value.id && r.requestId == ItemRequestId(item)
  {
    ItemWithIdResponseDto(item.id, item.name, item.description, item.available, item.request.value.id)
  }
}
