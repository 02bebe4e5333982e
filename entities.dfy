/** The persistent entities. Java references that stay null until a repository
    saves the entity (generated ids) or until a service sets them (an item's
    owner, a booking's booker and status) are `Option`s. A reference to another
    entity is held as a copy of it; only its id and, for an item, its owner id
    are ever read through it, and neither changes after creation. */
module Entities {
  import opened Common
  import opened Seqs

  datatype Status = WAITING | APPROVED | REJECTED

  datatype User = User(id: Option<nat>, name: Option<string>, email: Option<string>)

  datatype ItemRequest = ItemRequest(id: Option<nat>, description: string, requester: Option<User>, created: int)

  /** An item; its owner is held by the owner's id. */
  datatype Item = Item(
    id: Option<nat>,
    name: string,
    description: string,
    available: bool,
    ownerId: Option<nat>,
    request: Option<ItemRequest>)

  datatype Booking = Booking(
    id: Option<nat>,
    item: Item,
    start: int,
    end: int,
    booker: Option<User>,
    status: Option<Status>)

  datatype Comment = Comment(id: Option<nat>, text: string, item: Option<Item>, author: Option<User>, created: int)

  // Column accessors, as functions so that queries and sorts can name them.

  function UserId(u: User): Option<nat> { u.id }
  function ItemId(i: Item): Option<nat> { i.id }
  function BookingId(b: Booking): Option<nat> { b.id }
  function CommentId(c: Comment): Option<nat> { c.id }
  function RequestId(r: ItemRequest): Option<nat> { r.id }

  /** `booking.getBooker().getId()`. */
  function BookerId(b: Booking): Option<nat>
  {
    if b.booker.Some? then b.booker.value.id else None
  }

  /** `comment.getItem().getId()`. */
  function CommentItemId(c: Comment): Option<nat>
  {
    if c.item.Some? then c.item.value.id else None
  }

  /** `item.getRequest().getId()`, null when there is no request. */
  function ItemRequestId(i: Item): Option<nat>
  {
    if i.request.Some? then i.request.value.id else None
  }

  /** `request.getRequester().getId()`. */
  function RequesterId(r: ItemRequest): Option<nat>
  {
    if r.requester.Some? then r.requester.value.id else None
  }

  // `findById` on each table: the row whose generated id is `id`.

  function FindUser(users: seq<User>, id: nat): (found: Option<User>)
    ensures found.None? <==> forall k :: 0 <= k < |users| ==> users[k].id != Some(id)
    ensures found.Some? ==> found.value in users && found.value.id == Some(id)
  {
    FindFirst(users, (u: User) => u.id == Some(id))
  }

  function FindItem(items: seq<Item>, id: nat): (found: Option<Item>)
    ensures found.None? <==> forall k :: 0 <= k < |items| ==> items[k].id != Some(id)
    ensures found.Some? ==> found.value in items && found.value.id == Some(id)
  {
    FindFirst(items, (i: Item) => i.id == Some(id))
  }

  function FindBooking(bookings: seq<Booking>, id: nat): (found: Option<Booking>)
    ensures found.None? <==> forall k :: 0 <= k < |bookings| ==> bookings[k].id != Some(id)
    ensures found.Some? ==> found.value in bookings && found.value.id == Some(id)
  {
    FindFirst(bookings, (b: Booking) => b.id == Some(id))
  }

  function FindRequest(requests: seq<ItemRequest>, id: nat): (found: Option<ItemRequest>)
    ensures found.None? <==> forall k :: 0 <= k < |requests| ==> requests[k].id != Some(id)
    ensures found.Some? ==> found.value in requests && found.value.id == Some(id)
  {
    FindFirst(requests, (r: ItemRequest) => r.id == Some(id))
  }

  /** `existsById`. */
  predicate UserExists(users: seq<User>, id: nat)
    ensures UserExists(users, id) <==> exists k :: 0 <= k < |users| && users[k].id == Some(id)
  {
    FindUser(users, id).Some?
  }

  /** Every stored booking has its booker set (the service sets it before saving). */
  predicate Booked(bookings: seq<Booking>)
  {
    forall k :: 0 <= k < |bookings| ==> bookings[k].booker.Some?
  }

  /** Every stored comment has its item and author set (the service sets both before saving). */
  predicate Authored(comments: seq<Comment>)
  {
    forall k :: 0 <= k < |comments| ==> comments[k].item.Some? && comments[k].author.Some?
  }

  /** The partial update both item services perform: a present field replaces
      the stored one, an absent one leaves it; id, owner and request never change. */
  function ApplyItemPatch(item: Item, name: Option<string>, description: Option<string>, available: Option<bool>): (r: Item)
    ensures r.id == item.id && r.ownerId == item.ownerId && r.request == item.request
    ensures name.None? ==> r.name == item.name
    ensures description.None? ==> r.description == item.description
    ensures available.None? ==> r.available == item.available
    ensures name.Some? ==> r.name == name.value
    ensures description.Some? ==> r.description == description.value
    ensures available.Some? ==> r.available == available.value
  {
    item.(name := if name.Some? then name.value else item.name,
          description := if description.Some? then description.value else item.description,
          available := if available.Some? then available.value else item.available)
  }

  /** Applying the same patch twice is applying it once. */
  lemma ItemPatchIdempotent(item: Item, name: Option<string>, description: Option<string>, available: Option<bool>)
    ensures ApplyItemPatch(ApplyItemPatch(item, name, description, available), name, description, available)
         == ApplyItemPatch(item, name, description, available)
  {
  }

  /** An empty patch changes nothing. */
  lemma EmptyItemPatch(item: Item)
    ensures ApplyItemPatch(item, None, None, None) == item
  {
  }

  /** A user patch: the name and the email are replaced where given; the id stays. */
  function ApplyUserPatch(user: User, name: Option<string>, email: Option<string>): (r: User)
    ensures r.id == user.id
    ensures name.None? ==> r.name == user.name
    ensures email.None? ==> r.email == user.email
    ensures name.Some? ==> r.name == name
    ensures email.Some? ==> r.email == email
  {
    user.(name := if name.Some? then name else user.name,
          email := if email.Some? then email else user.email)
  }

  /** Applying the same user patch twice is applying it once. */
  lemma UserPatchIdempotent(user: User, name: Option<string>, email: Option<string>)
    ensures ApplyUserPatch(ApplyUserPatch(user, name, email), name, email) == ApplyUserPatch(user, name, email)
  {
  }

  /** An empty user patch changes nothing. */
  lemma EmptyUserPatch(user: User)
    ensures ApplyUserPatch(user, None, None) == user
  {
  }
}
