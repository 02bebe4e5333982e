/** Conversions between items and transfer objects (older tree). */
module LegacyItemMapper {
  import opened Common
  import opened Seqs
  import opened Entities
  import opened LegacyBookingMapper
  import ServerItemMapper

  /** A create request; the controller's validation guarantees name, description and availability. */
  datatype CreateItemDto = CreateItemDto(name: string, description: string, available: bool, requestId: Option<nat>)

  /** A comment as shown: its author's name instead of the author. */
  datatype CommentDto = CommentDto(id: Option<nat>, text: string, authorName: Option<string>, created: int)

  /** An item with its nearest bookings and comments; also the body of a patch
      request, where every field may be absent. */
  datatype ItemDtoWithBooking = ItemDtoWithBooking(
    id: Option<nat>, name: Option<string>, description: Option<string>, available: Option<bool>, requestId: Option<nat>,
    lastBooking: Option<BookingNearest>, nextBooking: Option<BookingNearest>, comments: seq<CommentDto>)

  datatype ItemDtoForItemRequest = ItemDtoForItemRequest(
    id: Option<nat>, name: string, description: string, available: bool, requestId: Option<nat>)

  function ToCommentDto(c: Comment): (r: CommentDto)
    requires c.author.Some?
    ensures r.id == c.id && r.text == c.text && r.created == c.created && r.authorName == c.author.value.name
  {
    CommentDto(c.id, c.text, c.author.value.name, c.created)
  }

  /** A new item from a create request: the three editable fields copied, no
      id, owner or request yet; the same item the server tree builds. */
  function ToItem(d: CreateItemDto): (r: Item)
    ensures r.name == d.name && r.description == d.description && r.available == d.available
    ensures r.id.None? && r.ownerId.None? && r.request.None?
    ensures r == ServerItemMapper.ToItem(ServerItemMapper.ItemRequestDto(Some(d.name), Some(d.description), Some(d.available), d.requestId))
  {
    Item(None, d.name, d.description, d.available, None, None)
  }

  /** The item with the given nearest bookings and its comments mapped one by one, in order. */
  function ToItemDtoWithBooking(
    item: Item, lastBooking: Option<BookingNearest>, nextBooking: Option<BookingNearest>, comments: seq<Comment>): (r: ItemDtoWithBooking)
    requires Authored(comments)
    ensures r.id == item.id && r.name == Some(item.name) && r.description == Some(item.description)
    ensures r.available == Some(item.available)
    ensures r.requestId.None? <==> item.request.None? || item.request.value.id.None?
    ensures r.requestId == ItemRequestId(item)
    ensures r.lastBooking == lastBooking && r.nextBooking == nextBooking
    ensures |r.comments| == |comments|
    ensures forall k :: 0 <= k < |comments| ==> r.comments[k] == ToCommentDto(comments[k])
  {
    ItemDtoWithBooking(item.id, Some(item.name), Some(item.description), Some(item.available),
      if item.request.Some? then item.request.value.id else None,
      lastBooking, nextBooking, seq(|comments|, k requires 0 <= k < |comments| => ToCommentDto(comments[k])))
  }

  /** An item that answers a request, with that request's id. */
  function ToItemDtoForItemRequest(item: Item): (r: ItemDtoForItemRequest)
    requires item.request.Some?
    ensures r.id == item.id && r.name == item.name && r.description == item.description && r.available == item.available
    ensures r.requestId == item.request.value.id
    ensures var s := ServerItemMapper.ToItemDtoForItemRequest(item);
      r.id == s.id && r.name == s.name && r.description == s.description && r.available == s.available && r.requestId == s.requestId
  {
    ItemDtoForItemRequest(item.id, item.name, item.description, item.available, item.request.value.id)
  }
}
