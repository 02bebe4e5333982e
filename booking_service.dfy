/** The booking engine: creating a booking behind an ordered chain of checks,
    the one-time WAITING -> APPROVED | REJECTED decision by the item's owner,
    who may see a booking, and the state-keyword listings for bookers and
    owners. Time is the parameter `now`, shared by every check of one call. */
module BookingService {
  import opened Common
  import opened Seqs
  import opened Text
  import opened Entities
  import opened Persistence
  import opened BookingRepository
  import opened LegacyBookingMapper

  /** The six listing states. */
  datatype BookingState = All | Past | Future | Current | Waiting | Rejected

  /** The state's name, as the keyword is written. */
  function Name(s: BookingState): string
  {
    match s
    case All => "ALL"
    case Past => "PAST"
    case Future => "FUTURE"
    case Current => "CURRENT"
    case Waiting => "WAITING"
    case Rejected => "REJECTED"
  }

  /** `state.toUpperCase()` matched against the six names. */
  function ParseState(state: string): (r: Option<BookingState>)
    ensures r.Some? ==> Name(r.value) == Upper(state)
    ensures r.None? <==> forall s: BookingState :: Name(s) != Upper(state)
  {
    var u := Upper(state);
    if u == "ALL" then Some(All)
    else if u == "PAST" then Some(Past)
    else if u == "FUTURE" then Some(Future)
    else if u == "CURRENT" then Some(Current)
    else if u == "WAITING" then Some(Waiting)
    else if u == "REJECTED" then Some(Rejected)
    else None
  }

  /** Upper-casing leaves a string of capital letters as it is. */
  lemma UpperOfCapitals(s: string)
    requires forall k :: 0 <= k < |s| ==> 'A' <= s[k] <= 'Z'
    ensures Upper(s) == s
  {
    assert forall k :: 0 <= k < |s| ==> Upper(s)[k] == s[k];
  }

  /** Upper-casing undoes lower-casing on a string of capital letters. */
  lemma UpperOfLowerCapitals(s: string)
    requires forall k :: 0 <= k < |s| ==> 'A' <= s[k] <= 'Z'
    ensures Upper(Lower(s)) == s
  {
    assert forall k :: 0 <= k < |s| ==> 'a' <= Lower(s)[k] <= 'z';
    assert forall k :: 0 <= k < |s| ==> Upper(Lower(s))[k] == s[k];
  }

  /** Every state's name, and its lower-case spelling, parses to that state. */
  lemma {:induction false} ParseStateIgnoresCase(s: BookingState)
    ensures ParseState(Name(s)) == Some(s)
    ensures ParseState(Lower(Name(s))) == Some(s)
  {
    var n := Name(s);
    assert forall k :: 0 <= k < |n| ==> 'A' <= n[k] <= 'Z';
    UpperOfCapitals(n);
    UpperOfLowerCapitals(n);
  }

  /** The reference meaning of each state, for a booking at time `now`. */
  predicate InState(b: Booking, s: BookingState, now: int)
  {
    match s
    case All => true
    case Past => b.end < now
    case Future => b.start > now
    case Current => b.start < now && b.end > now
    case Waiting => b.status == Some(WAITING)
    case Rejected => b.status == Some(REJECTED)
  }

  /** For a booking that ends after it starts, the three time states exclude
      one another; since every comparison is strict, the booking is in none
      of them exactly when it starts or ends at `now`. */
  lemma TimeStatesExclusive(b: Booking, now: int)
    requires b.start < b.end
    ensures !(InState(b, Past, now) && InState(b, Current, now))
    ensures !(InState(b, Past, now) && InState(b, Future, now))
    ensures !(InState(b, Current, now) && InState(b, Future, now))
    ensures (!InState(b, Past, now) && !InState(b, Current, now) && !InState(b, Future, now)) <==> (now == b.start || now == b.end)
  {
  }

  /** The repository query the booker listing runs for each state. */
  function BookerQuery(bookings: seq<Booking>, bookerId: nat, s: BookingState, now: int, page: nat, size: nat): (r: seq<Booking>)
    requires size > 0
    ensures r == SortedPage(bookings, (b: Booking) => BookerId(b) == Some(bookerId) && InState(b, s, now), StartOf, true, page, size)
  {
    var p := (b: Booking) => BookerId(b) == Some(bookerId) && InState(b, s, now);
    match s
    case All =>
      SortedPageCongruent(bookings, (b: Booking) => BookerId(b) == Some(bookerId), p, StartOf, true, page, size);
      FindAllByBookerIdOrderByStartDesc(bookings, bookerId, page, size)
    case Past =>
      SortedPageCongruent(bookings, (b: Booking) => BookerId(b) == Some(bookerId) && b.end < now, p, StartOf, true, page, size);
      FindAllByBookerIdAndEndBeforeOrderByStartDesc(bookings, bookerId, now, page, size)
    case Future =>
      SortedPageCongruent(bookings, (b: Booking) => BookerId(b) == Some(bookerId) && b.start > now, p, StartOf, true, page, size);
      FindAllByBookerIdAndStartAfterOrderByStartDesc(bookings, bookerId, now, page, size)
    case Current =>
      SortedPageCongruent(bookings, (b: Booking) => BookerId(b) == Some(bookerId) && b.start < now && b.end > now, p,
        StartOf, true, page, size);
      FindAllByBookerIdAndStartBeforeAndEndAfterOrderByStartDesc(bookings, bookerId, now, now, page, size)
    case Waiting =>
      SortedPageCongruent(bookings, (b: Booking) => BookerId(b) == Some(bookerId) && b.status == Some(WAITING), p,
        StartOf, true, page, size);
      FindAllByBookerIdAndStatusOrderByStartDesc(bookings, bookerId, WAITING, page, size)
    case Rejected =>
      SortedPageCongruent(bookings, (b: Booking) => BookerId(b) == Some(bookerId) && b.status == Some(REJECTED), p,
        StartOf, true, page, size);
      FindAllByBookerIdAndStatusOrderByStartDesc(bookings, bookerId, REJECTED, page, size)
  }

  /** The repository query the owner listing runs for each state. */
  function OwnerQuery(bookings: seq<Booking>, ownerId: nat, s: BookingState, now: int, page: nat, size: nat): (r: seq<Booking>)
    requires size > 0
    ensures r == SortedPage(bookings, (b: Booking) => b.item.ownerId == Some(ownerId) && InState(b, s, now), StartOf, true, page, size)
  {
    var p := (b: Booking) => b.item.ownerId == Some(ownerId) && InState(b, s, now);
    match s
    case All =>
      SortedPageCongruent(bookings, (b: Booking) => b.item.ownerId == Some(ownerId), p, StartOf, true, page, size);
      FindAllByItemOwnerIdOrderByStartDesc(bookings, ownerId, page, size)
    case Past =>
      SortedPageCongruent(bookings, (b: Booking) => b.item.ownerId == Some(ownerId) && b.end < now, p, StartOf, true, page, size);
      FindAllByItemOwnerIdAndEndBeforeOrderByStartDesc(bookings, ownerId, now, page, size)
    case Future =>
      SortedPageCongruent(bookings, (b: Booking) => b.item.ownerId == Some(ownerId) && b.start > now, p, StartOf, true, page, size);
      FindAllByItemOwnerIdAndStartAfterOrderByStartDesc(bookings, ownerId, now, page, size)
    case Current =>
      SortedPageCongruent(bookings, (b: Booking) => b.item.ownerId == Some(ownerId) && b.start < now && b.end > now, p,
        StartOf, true, page, size);
      FindAllByItemOwnerIdAndStartBeforeAndEndAfterOrderByStartDesc(bookings, ownerId, now, now, page, size)
    case Waiting =>
      SortedPageCongruent(bookings, (b: Booking) => b.item.ownerId == Some(ownerId) && b.status == Some(WAITING), p,
        StartOf, true, page, size);
      FindAllByItemOwnerIdAndStatusOrderByStartDesc(bookings, ownerId, WAITING, page, size)
    case Rejected =>
      SortedPageCongruent(bookings, (b: Booking) => b.item.ownerId == Some(ownerId) && b.status == Some(REJECTED), p,
        StartOf, true, page, size);
      FindAllByItemOwnerIdAndStatusOrderByStartDesc(bookings, ownerId, REJECTED, page, size)
  }

  function UnknownState(state: string): Error
  {
    Validation("Unknown state: " + Upper(state))
  }

  /** `getAllByBookerIdAndState`: the user must exist, then the paging
      prologue must pass (`from` starts a page, the page index and the size
      are in range), then the state must be known; the result is page
      `from / size` of the booker's bookings in that state, latest start first. */
  function GetAllByBookerIdAndState(
    users: seq<User>, bookings: seq<Booking>, bookerId: nat, state: string, from: int, size: int, now: int): (r: Result<seq<Booking>>)
    ensures !UserExists(users, bookerId) ==> r == Err(UserNotFound(bookerId))
    ensures UserExists(users, bookerId) && PageIndex(from, size).Err? ==> r == Err(PageIndex(from, size).error)
    ensures UserExists(users, bookerId) && PageIndex(from, size).Ok? && ParseState(state).None? ==> r == Err(UnknownState(state))
    ensures r.Ok? <==> UserExists(users, bookerId) && size > 0 && from >= 0 && from % size == 0 && ParseState(state).Some?
    ensures r.Ok? ==> forall k :: 0 <= k < |r.value| ==>
      r.value[k] in bookings && BookerId(r.value[k]) == Some(bookerId) && InState(r.value[k], ParseState(state).value, now)
    ensures r.Ok? ==> |r.value| <= size && Ordered(r.value, StartOf, true)
    ensures r.Ok? ==> r.value == SortedPage(bookings, (b: Booking) => BookerId(b) == Some(bookerId) && InState(b, ParseState(state).value, now),
      StartOf, true, from / size, size)
  {
    if !UserExists(users, bookerId) then Err(UserNotFound(bookerId))
    else match PageIndex(from, size)
      case Err(e) => Err(e)
      case Ok(page) =>
        match ParseState(state)
        case None => Err(UnknownState(state))
        case Some(s) => Ok(BookerQuery(bookings, bookerId, s, now, page, size))
  }

  /** `getAllByOwnerIdAndState`: the state must be known, the user must
      exist, then the paging prologue must pass (checked in that order); the
      result is page `from / size` of the bookings of the owner's items in that state. */
  function GetAllByOwnerIdAndState(
    users: seq<User>, bookings: seq<Booking>, ownerId: nat, state: string, from: int, size: int, now: int): (r: Result<seq<Booking>>)
    ensures ParseState(state).None? ==> r == Err(UnknownState(state))
    ensures ParseState(state).Some? && !UserExists(users, ownerId) ==> r == Err(UserNotFound(ownerId))
    ensures ParseState(state).Some? && UserExists(users, ownerId) && PageIndex(from, size).Err? ==> r == Err(PageIndex(from, size).error)
    ensures r.Ok? <==> UserExists(users, ownerId) && size > 0 && from >= 0 && from % size == 0 && ParseState(state).Some?
    ensures r.Ok? ==> forall k :: 0 <= k < |r.value| ==>
      r.value[k] in bookings && r.value[k].item.ownerId == Some(ownerId) && InState(r.value[k], ParseState(state).value, now)
    ensures r.Ok? ==> |r.value| <= size && Ordered(r.value, StartOf, true)
    ensures r.Ok? ==> r.value == SortedPage(bookings, (b: Booking) => b.item.ownerId == Some(ownerId) && InState(b, ParseState(state).value, now),
      StartOf, true, from / size, size)
  {
    match ParseState(state)
    case None => Err(UnknownState(state))
    case Some(s) =>
      if !UserExists(users, ownerId) then Err(UserNotFound(ownerId))
      else match PageIndex(from, size)
        case Err(e) => Err(e)
        case Ok(page) => Ok(OwnerQuery(bookings, ownerId, s, now, page, size))
  }

  /** The two listings disagree on which check comes first: for an unknown
      user and an unknown state the booker listing reports the user, the
      owner listing the state. */
  lemma ListingsCheckInDifferentOrder(users: seq<User>, bookings: seq<Booking>, id: nat, state: string, from: int, size: int, now: int)
    requires !UserExists(users, id) && ParseState(state).None?
    ensures GetAllByBookerIdAndState(users, bookings, id, state, from, size, now).error.NotFound?
    ensures GetAllByOwnerIdAndState(users, bookings, id, state, from, size, now).error.Validation?
  {
  }

  /** Who may see a booking: its booker and the owner of its item. */
  predicate MaySee(b: Booking, userId: nat)
  {
    BookerId(b) == Some(userId) || b.item.ownerId == Some(userId)
  }

  /** `getBooking`: the stored booking, if it exists and the caller may see it. */
  function GetBooking(bookings: seq<Booking>, bookingId: nat, userId: nat): (r: Result<Booking>)
    ensures FindBooking(bookings, bookingId).None? ==> r == Err(NotFound("Booking ID = " + NatToString(bookingId) + " not found!"))
    ensures r.Ok? <==> FindBooking(bookings, bookingId).Some? && MaySee(FindBooking(bookings, bookingId).value, userId)
    ensures r.Ok? ==> r.value in bookings && r.value.id == Some(bookingId) && MaySee(r.value, userId)
    ensures FindBooking(bookings, bookingId).Some? && !r.Ok? ==> r == Err(NotFound("Requester ID and creator(item owner) ID mismatch!"))
  {
    match FindBooking(bookings, bookingId)
    case None => Err(NotFound("Booking ID = " + NatToString(bookingId) + " not found!"))
    case Some(b) =>
      if !MaySee(b, userId) then Err(NotFound("Requester ID and creator(item owner) ID mismatch!"))
      else Ok(b)
  }

  /** The checks of `addNew` once the item id is known to be non-null, in order, and the
      booking they let through, before it is saved: the item must exist and
      be available, the period must be non-empty and not start in the past,
      the caller must not own the item and must exist. */
  function NewBooking(items: seq<Item>, users: seq<User>, itemId: nat, d: BookingDto, userId: nat, now: int): (r: Result<Booking>)
    ensures var item := FindItem(items, itemId);
      && (item.None? ==> r == Err(NotFound("Item ID = " + NatToString(itemId) + " not found!")))
      && (item.Some? && !item.value.available ==>
            r == Err(Validation("Item ID = " + NatToString(itemId) + " is not available for booking!")))
      && (item.Some? && item.value.available && (d.start >= d.end || d.start < now) ==>
            r == Err(Validation("Invalid booking datetime!")))
      && (item.Some? && item.value.available && d.start < d.end && d.start >= now && item.value.ownerId == Some(userId) ==>
            r == Err(NotFound("Cant book own item!")))
      && ((item.Some? && item.value.available && d.start < d.end && d.start >= now && item.value.ownerId != Some(userId)
           && !UserExists(users, userId)) ==> r == Err(UserNotFound(userId)))
      && (r.Ok? <==> (item.Some? && item.value.available && d.start < d.end && d.start >= now
                      && item.value.ownerId != Some(userId) && UserExists(users, userId)))
    ensures r.Ok? ==> (r.value.id.None? && r.value.item == FindItem(items, itemId).value
                       && r.value.start == d.start && r.value.end == d.end
                       && r.value.booker == FindUser(users, userId) && BookerId(r.value) == Some(userId)
                       && r.value.status == Some(WAITING))
  {
    match FindItem(items, itemId)
    case None => Err(NotFound("Item ID = " + NatToString(itemId) + " not found!"))
    case Some(item) =>
      if !item.available then Err(Validation("Item ID = " + NatToString(itemId) + " is not available for booking!"))
      else if !(d.start < d.end) || d.start < now then Err(Validation("Invalid booking datetime!"))
      else if item.ownerId == Some(userId) then Err(NotFound("Cant book own item!"))
      else match FindUser(users, userId)
        case None => Err(UserNotFound(userId))
        case Some(booker) =>
          var b := ToBooking(d, item);
          Ok(b.(booker := Some(booker), status := Some(WAITING)))
  }

  /** Every booking `addNew` lets through is a WAITING booking by someone
      other than the item's owner, of an available item, for a non-empty
      period that has not started. */
  lemma NewBookingIsSound(items: seq<Item>, users: seq<User>, itemId: nat, d: BookingDto, userId: nat, now: int)
    requires NewBooking(items, users, itemId, d, userId, now).Ok?
    ensures var b := NewBooking(items, users, itemId, d, userId, now).value;
      b.item in items && b.item.available && b.item.ownerId != BookerId(b)
      && now <= b.start < b.end && b.status == Some(WAITING)
  {
    var b := NewBooking(items, users, itemId, d, userId, now).value;
    assert FindUser(users, userId).value.id == Some(userId);
  }

  /** The checks of `confirmBooking`, in order, and the booking with its
      decision: the booking must exist, the caller must own its item, and it
      must still be WAITING. Nothing but the status changes. */
  function ConfirmedBooking(bookings: seq<Booking>, bookingId: nat, approved: bool, userId: nat): (r: Result<Booking>)
    ensures var found := FindBooking(bookings, bookingId);
      && (found.None? ==> r == Err(NotFound("Booking ID = " + NatToString(bookingId) + " not found!")))
      && (found.Some? && found.value.item.ownerId != Some(userId) ==> r == Err(NotFound("Owner ID and confirmer ID mismatch!")))
      && (found.Some? && found.value.item.ownerId == Some(userId) && found.value.status != Some(WAITING) ==>
            r == Err(Validation("Booking state is already confirmed")))
      && (r.Ok? <==> (found.Some? && found.value.item.ownerId == Some(userId) && found.value.status == Some(WAITING)))
      && (r.Ok? ==> r.value == found.value.(status := Some(if approved then APPROVED else REJECTED)))
    ensures r.Ok? ==> r.value.id == Some(bookingId)
  {
    match FindBooking(bookings, bookingId)
    case None => Err(NotFound("Booking ID = " + NatToString(bookingId) + " not found!"))
    case Some(b) =>
      if b.item.ownerId != Some(userId) then Err(NotFound("Owner ID and confirmer ID mismatch!"))
      else if b.status != Some(WAITING) then Err(Validation("Booking state is already confirmed"))
      else Ok(b.(status := Some(if approved then APPROVED else REJECTED)))
  }

  /** A decision is final: once a booking is confirmed or rejected and saved,
      any further confirmation of it fails. */
  lemma {:induction false} ConfirmOnlyOnce(bookings: seq<Booking>, next: nat, bookingId: nat, approved: bool, userId: nat, approved2: bool, userId2: nat)
    requires Keyed(bookings, BookingId, next)
    requires ConfirmedBooking(bookings, bookingId, approved, userId).Ok?
    ensures var after := Replace(bookings, BookingId, ConfirmedBooking(bookings, bookingId, approved, userId).value);
      ConfirmedBooking(after, bookingId, approved2, userId2).Err?
  {
    var c := ConfirmedBooking(bookings, bookingId, approved, userId).value;
    var after := Replace(bookings, BookingId, c);
    ReplaceKeepsKeys(bookings, BookingId, c, next);
    var k :| 0 <= k < |bookings| && bookings[k] == FindBooking(bookings, bookingId).value;
    assert after[k] == c;
    KeyedFind(after, BookingId, next, k, (b: Booking) => b.id == Some(bookingId));
  }

  /** `addNew`: a null item id is refused by the repository's `findById`;
      otherwise runs the checks and, when they pass, saves the booking as a
      new row. On any failure nothing is stored. */
  method AddNew(db: Database, d: BookingDto, userId: nat, now: int) returns (r: Result<Booking>)
    requires db.Valid()
    modifies db`bookings, db`nextBookingId
    ensures db.Valid()
    ensures d.itemId.None? ==> r == Err(NullIdError()) && db.bookings == old(db.bookings) && db.nextBookingId == old(db.nextBookingId)
    ensures d.itemId.Some? ==> var checked := NewBooking(old(db.items), old(db.users), d.itemId.value, d, userId, now);
      && (checked.Err? ==> r == checked && db.bookings == old(db.bookings) && db.nextBookingId == old(db.nextBookingId))
      && (checked.Ok? ==> r == Ok(checked.value.(id := Some(old(db.nextBookingId))))
                          && db.bookings == old(db.bookings) + [r.value]
                          && db.nextBookingId == old(db.nextBookingId) + 1)
  {
    if d.itemId.None? {
      return Err(NullIdError());
    }
    var checked := NewBooking(db.items, db.users, d.itemId.value, d, userId, now);
    if checked.Err? {
      return checked;
    }
    var saved := db.SaveBooking(checked.value);
    r := Ok(saved);
  }

  /** `confirmBooking`: runs the checks and, when they pass, overwrites the
      booking's row with its new status; otherwise nothing changes. */
  method ConfirmBooking(db: Database, bookingId: nat, approved: bool, userId: nat) returns (r: Result<Booking>)
    requires db.Valid()
    modifies db`bookings, db`nextBookingId
    ensures db.Valid() && db.nextBookingId == old(db.nextBookingId)
    ensures r == ConfirmedBooking(old(db.bookings), bookingId, approved, userId)
    ensures r.Ok? ==> db.bookings == Replace(old(db.bookings), BookingId, r.value)
    ensures r.Err? ==> db.bookings == old(db.bookings)
  {
    r := ConfirmedBooking(db.bookings, bookingId, approved, userId);
    if r.Ok? {
      var b := FindBooking(db.bookings, bookingId).value;
      assert b in db.bookings;
      var saved := db.SaveBooking(r.value);
    }
  }
}
