/** The relational store behind the JPA repositories: one list of rows per
    table, in insertion order, and one IDENTITY sequence per table. `Save*`
    is `JpaRepository.save` (insert when the entity has no id yet, otherwise
    overwrite the row with that id), `DeleteUser` is `deleteById`. */
module Persistence {
  import opened Common
  import opened Seqs
  import opened Entities

  /** The `EmptyResultDataAccessException` that `deleteById` throws for a missing row. */
  function NoUserEntity(id: nat): Error
  {
    Internal("No class ru.practicum.shareit.user.model.User entity with id " + NatToString(id) + " exists!")
  }

  /** The `IllegalArgumentException` that `findById(null)` throws, as the
      repository proxy translates it to `InvalidDataAccessApiUsageException`. */
  function NullIdError(): Error
  {
    Internal(Nested(IdMustNotBeNull, "java.lang.IllegalArgumentException"))
  }

  /** Spring Data's message for a null id argument. */
  const IdMustNotBeNull := "The given id must not be null!"

  /** The message of a Spring `NestedRuntimeException` wrapping `cause`. */
  function Nested(message: string, cause: string): string
  {
    message + "; nested exception is " + cause + ": " + message
  }

  /** Every row carries a generated id below the table's next id, and no two rows share one. */
  ghost predicate Keyed<T>(rows: seq<T>, idOf: T -> Option<nat>, next: nat)
  {
    && (forall k :: 0 <= k < |rows| ==> idOf(rows[k]).Some? && idOf(rows[k]).value < next)
    && (forall i, j :: 0 <= i < j < |rows| ==> idOf(rows[i]) != idOf(rows[j]))
  }

  /** The table after overwriting the row whose id is `x`'s id. */
  function Replace<T>(rows: seq<T>, idOf: T -> Option<nat>, x: T): seq<T>
  {
    seq(|rows|, k requires 0 <= k < |rows| => if idOf(rows[k]) == idOf(x) then x else rows[k])
  }

  /** Overwriting a row keeps the ids, hence the keys, as they were. */
  lemma ReplaceKeepsKeys<T>(rows: seq<T>, idOf: T -> Option<nat>, x: T, next: nat)
    requires Keyed(rows, idOf, next)
    ensures Keyed(Replace(rows, idOf, x), idOf, next)
  {
    var r := Replace(rows, idOf, x);
    assert forall k :: 0 <= k < |rows| ==> idOf(r[k]) == idOf(rows[k]);
  }

  /** Appending a row with the next id keeps the keys distinct. */
  lemma AppendKeepsKeys<T>(rows: seq<T>, idOf: T -> Option<nat>, x: T, next: nat)
    requires Keyed(rows, idOf, next) && idOf(x) == Some(next)
    ensures Keyed(rows + [x], idOf, next + 1)
  {
  }

  /** Removing the row at position `k` keeps the ids distinct and below the
      counter, drops exactly the rows carrying that row's id, and keeps every other row. */
  lemma RemoveKeepsKeys<T>(rows: seq<T>, idOf: T -> Option<nat>, next: nat, k: nat)
    requires Keyed(rows, idOf, next) && k < |rows|
    ensures Keyed(rows[..k] + rows[k + 1..], idOf, next)
    ensures |rows[..k] + rows[k + 1..]| == |rows| - 1
    ensures forall x :: x in rows[..k] + rows[k + 1..] ==> x in rows && idOf(x) != idOf(rows[k])
    ensures forall j :: 0 <= j < |rows| && idOf(rows[j]) != idOf(rows[k]) ==> rows[j] in rows[..k] + rows[k + 1..]
  {
    var r := rows[..k] + rows[k + 1..];
    assert forall j :: 0 <= j < |r| ==> r[j] == if j < k then rows[j] else rows[j + 1];
    forall j | 0 <= j < |rows| && idOf(rows[j]) != idOf(rows[k])
      ensures rows[j] in r
    {
      if j < k {
        assert r[j] == rows[j];
      } else {
        assert r[j - 1] == rows[j];
      }
    }
  }

  /** The unique row with a given id is the one FindFirst returns. */
  lemma KeyedFind<T>(rows: seq<T>, idOf: T -> Option<nat>, next: nat, k: nat, p: T -> bool)
    requires Keyed(rows, idOf, next) && k < |rows|
    requires forall x :: p(x) == (idOf(x) == idOf(rows[k]))
    ensures FindFirst(rows, p) == Some(rows[k])
  {
    FindFirstUnique(rows, p, k);
  }

  class Database {
    var users: seq<User>
    var items: seq<Item>
    var bookings: seq<Booking>
    var comments: seq<Comment>
    var requests: seq<ItemRequest>
    var nextUserId: nat
    var nextItemId: nat
    var nextBookingId: nat
    var nextCommentId: nat
    var nextRequestId: nat

    ghost predicate Valid()
      reads this
    {
      && Keyed(users, UserId, nextUserId)
      && Keyed(items, ItemId, nextItemId)
      && Keyed(bookings, BookingId, nextBookingId)
      && Keyed(comments, CommentId, nextCommentId)
      && Keyed(requests, RequestId, nextRequestId)
      && Booked(bookings)
      && Authored(comments)
    }

    /** Empty tables; IDENTITY columns start at 1. */
    constructor ()
      ensures Valid()
      ensures users == [] && items == [] && bookings == [] && comments == [] && requests == []
      ensures nextUserId == 1 && nextItemId == 1 && nextBookingId == 1 && nextCommentId == 1 && nextRequestId == 1
    {
      users, items, bookings, comments, requests := [], [], [], [], [];
      nextUserId, nextItemId, nextBookingId, nextCommentId, nextRequestId := 1, 1, 1, 1, 1;
    }

    method SaveBooking(b: Booking) returns (saved: Booking)
      requires Valid()
      requires b.booker.Some?
      requires b.id.Some? ==> FindBooking(bookings, b.id.value).Some?
      modifies this`bookings, this`nextBookingId
      ensures Valid()
      ensures b.id.None? ==> saved == b.(id := Some(old(nextBookingId)))
      ensures b.id.None? ==> bookings == old(bookings) + [saved] && nextBookingId == old(nextBookingId) + 1
      ensures b.id.Some? ==> saved == b && bookings == Replace(old(bookings), BookingId, b)
      ensures b.id.Some? ==> nextBookingId == old(nextBookingId)
    {
      if b.id.None? {
        saved := b.(id := Some(nextBookingId));
        AppendKeepsKeys(bookings, BookingId, saved, nextBookingId);
        bookings := bookings + [saved];
        nextBookingId := nextBookingId + 1;
      } else {
        saved := b;
        ReplaceKeepsKeys(bookings, BookingId, b, nextBookingId);
        bookings := Replace(bookings, BookingId, b);
      }
    }

    method SaveItem(i: Item) returns (saved: Item)
      requires Valid()
      requires i.id.Some? ==> FindItem(items, i.id.value).Some?
      modifies this`items, this`nextItemId
      ensures Valid()
      ensures i.id.None? ==> saved == i.(id := Some(old(nextItemId)))
      ensures i.id.None? ==> items == old(items) + [saved] && nextItemId == old(nextItemId) + 1
      ensures i.id.Some? ==> saved == i && items == Replace(old(items), ItemId, i)
      ensures i.id.Some? ==> nextItemId == old(nextItemId)
    {
      if i.id.None? {
        saved := i.(id := Some(nextItemId));
        AppendKeepsKeys(items, ItemId, saved, nextItemId);
        items := items + [saved];
        nextItemId := nextItemId + 1;
      } else {
        saved := i;
        ReplaceKeepsKeys(items, ItemId, i, nextItemId);
        items := Replace(items, ItemId, i);
      }
    }

    method SaveUser(u: User) returns (saved: User)
      requires Valid()
      requires u.id.Some? ==> FindUser(users, u.id.value).Some?
      modifies this`users, this`nextUserId
      ensures Valid()
      ensures u.id.None? ==> saved == u.(id := Some(old(nextUserId)))
      ensures u.id.None? ==> users == old(users) + [saved] && nextUserId == old(nextUserId) + 1
      ensures u.id.Some? ==> saved == u && users == Replace(old(users), UserId, u)
      ensures u.id.Some? ==> nextUserId == old(nextUserId)
    {
      if u.id.None? {
        saved := u.(id := Some(nextUserId));
        AppendKeepsKeys(users, UserId, saved, nextUserId);
        users := users + [saved];
        nextUserId := nextUserId + 1;
      } else {
        saved := u;
        ReplaceKeepsKeys(users, UserId, u, nextUserId);
        users := Replace(users, UserId, u);
      }
    }

    /** Inserts a new comment. */
    method SaveComment(c: Comment) returns (saved: Comment)
      requires Valid() && c.id.None? && c.item.Some? && c.author.Some?
      modifies this`comments, this`nextCommentId
      ensures Valid()
      ensures saved == c.(id := Some(old(nextCommentId)))
      ensures comments == old(comments) + [saved] && nextCommentId == old(nextCommentId) + 1
    {
      saved := c.(id := Some(nextCommentId));
      AppendKeepsKeys(comments, CommentId, saved, nextCommentId);
      comments := comments + [saved];
      nextCommentId := nextCommentId + 1;
    }

    /** Inserts a new item request. */
    method SaveRequest(r: ItemRequest) returns (saved: ItemRequest)
      requires Valid() && r.id.None?
      modifies this`requests, this`nextRequestId
      ensures Valid()
      ensures saved == r.(id := Some(old(nextRequestId)))
      ensures requests == old(requests) + [saved] && nextRequestId == old(nextRequestId) + 1
    {
      saved := r.(id := Some(nextRequestId));
      AppendKeepsKeys(requests, RequestId, saved, nextRequestId);
      requests := requests + [saved];
      nextRequestId := nextRequestId + 1;
    }

    /** `deleteById`: removes the row with that id; with no such row it throws
        `EmptyResultDataAccessException` and the table is left as it was. */
    method DeleteUser(id: nat) returns (r: Result<()>)
      requires Valid()
      modifies this`users
      ensures Valid()
      ensures r.Err? <==> FindUser(old(users), id).None?
      ensures r.Err? ==> r.error == NoUserEntity(id) && users == old(users)
      ensures forall k :: 0 <= k < |users| ==> users[k] in old(users) && users[k].id != Some(id)
      ensures forall k :: 0 <= k < |old(users)| && old(users)[k].id != Some(id) ==> old(users)[k] in users
      ensures r.Ok? ==> |users| == |old(users)| - 1
    {
      var k := 0;
      while k < |users| && users[k].id != Some(id)
        invariant k <= |users|
        invariant forall j :: 0 <= j < k ==> users[j].id != Some(id)
      {
        k := k + 1;
      }
      if k == |users| {
        return Err(NoUserEntity(id));
      }
      RemoveKeepsKeys(users, UserId, nextUserId, k);
      users := users[..k] + users[k + 1..];
      r := Ok(());
    }
  }
}
