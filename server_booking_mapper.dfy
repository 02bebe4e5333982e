/** Conversions between bookings and their transfer objects (server tree). */
module ServerBookingMapper {
  import opened Common
  import opened Entities

  /** A booking request: which item, from when, until when. */
  datatype BookingDto = BookingDto(itemId: Option<nat>, start: int, end: int)

  /** The short form of a booking shown next to an item. */
  datatype BookingNearestDto = BookingNearestDto(id: Option<nat>, bookerId: Option<nat>, start: int, end: int)

  /** Reads a booking request back from a booking. */
  function ToBookingDto(b: Booking): (r: BookingDto)
    ensures r.itemId == b.item.id && r.start == b.start && r.end == b.end
  {
    BookingDto(b.item.id, b.start, b.end)
  }

  /** A new booking of `item` for the requested period; id, booker and status
      stay unset until the service fills them in. Reading it back gives the
      request, with the item id taken from the item. */
  function ToBooking(d: BookingDto, item: Item): (r: Booking)
    ensures r.item == item && r.start == d.start && r.end == d.end
    ensures r.id.None? && r.booker.None? && r.status.None?
    ensures ToBookingDto(r) == d.(itemId := item.id)
  {
    Booking(None, item, d.start, d.end, None, None)
  }

  /** Null maps to null; a booking (whose booker is set) to its id, booker id and period. */
  function ToBookingNearest(b: Option<Booking>): (r: Option<BookingNearestDto>)
    requires b.Some? ==> b.value.booker.Some?
    ensures r.None? <==> b.None?
    ensures r.Some? ==> r.value.id == b.value.id && r.value.bookerId == BookerId(b.value)
    ensures r.Some? ==> r.value.start == b.value.start && r.value.end == b.value.end
  {
    match b
    case None => None
    case Some(booking) => Some(BookingNearestDto(booking.id, booking.booker.value.id, booking.start, booking.end))
  }
}
