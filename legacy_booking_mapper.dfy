/** Conversions between bookings and their transfer objects (older tree). */
module LegacyBookingMapper {
  import opened Common
  import opened Entities
  import ServerBookingMapper

  datatype BookingDto = BookingDto(itemId: Option<nat>, start: int, end: int)

  datatype BookingNearest = BookingNearest(id: Option<nat>, bookerId: Option<nat>, start: int, end: int)

  /** A new booking of `item` for the requested period, with id, booker and
      status unset: the same booking the server tree builds. */
  function ToBooking(d: BookingDto, item: Item): (r: Booking)
    ensures r.item == item && r.start == d.start && r.end == d.end
    ensures r.id.None? && r.booker.None? && r.status.None?
    ensures r == ServerBookingMapper.ToBooking(ServerBookingMapper.BookingDto(d.itemId, d.start, d.end), item)
  {
    Booking(None, item, d.start, d.end, None, None)
  }

  /** Null maps to null; a booking (whose booker is set) to its id, booker id
      and period, field for field as in the server tree. */
  function ToBookingNearest(b: Option<Booking>): (r: Option<BookingNearest>)
    requires b.Some? ==> b.value.booker.Some?
    ensures r.None? <==> b.None?
    ensures r.Some? ==> r.value.id == b.value.id && r.value.bookerId == BookerId(b.value)
    ensures r.Some? ==> r.value.start == b.value.start && r.value.end == b.value.end
    ensures var s := ServerBookingMapper.ToBookingNearest(b);
      r.Some? ==> s.Some? && s.value.start == r.value.start && s.value.end == r.value.end && s.value.id == r.value.id
  {
    match b
    case None => None
    case Some(booking) => Some(BookingNearest(booking.id, booking.booker.value.id, booking.start, booking.end))
  }
}
