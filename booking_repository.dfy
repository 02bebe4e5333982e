/** The derived queries of the booking repository, as functions over the
    bookings table. Each query name is a conjunction of column conditions,
    an optional ORDER BY start and an optional page; `findFirst..` takes the
    first row of the ordered result and `existsBy..` asks whether there is a
    matching row. Rows with equal start times keep their table order (the
    database leaves their order open). */
module BookingRepository {
  import opened Common
  import opened Seqs
  import opened Entities

  function StartOf(b: Booking): int { b.start }

  function FindAllByBookerIdOrderByStartDesc(bookings: seq<Booking>, bookerId: nat, page: nat, size: nat): (r: seq<Booking>)
    requires size > 0
    ensures |r| <= size
    ensures forall k :: 0 <= k < |r| ==> r[k] in bookings && BookerId(r[k]) == Some(bookerId)
    ensures Ordered(r, StartOf, true)
    ensures |r| == PageLength(|Filter(bookings, (b: Booking) => BookerId(b) == Some(bookerId))|, page, size)
  {
    SortedPage(bookings, (b: Booking) => BookerId(b) == Some(bookerId), StartOf, true, page, size)
  }

  function FindAllByBookerIdAndEndBeforeOrderByStartDesc(bookings: seq<Booking>, bookerId: nat, endBefore: int, page: nat, size: nat): (r: seq<Booking>)
    requires size > 0
    ensures |r| <= size
    ensures forall k :: 0 <= k < |r| ==> r[k] in bookings && BookerId(r[k]) == Some(bookerId) && r[k].end < endBefore
    ensures Ordered(r, StartOf, true)
    ensures |r| == PageLength(|Filter(bookings, (b: Booking) => BookerId(b) == Some(bookerId) && b.end < endBefore)|, page, size)
  {
    SortedPage(bookings, (b: Booking) => BookerId(b) == Some(bookerId) && b.end < endBefore, StartOf, true, page, size)
  }

  function FindAllByBookerIdAndStartAfterOrderByStartDesc(bookings: seq<Booking>, bookerId: nat, startAfter: int, page: nat, size: nat): (r: seq<Booking>)
    requires size > 0
    ensures |r| <= size
    ensures forall k :: 0 <= k < |r| ==> r[k] in bookings && BookerId(r[k]) == Some(bookerId) && r[k].start > startAfter
    ensures Ordered(r, StartOf, true)
    ensures |r| == PageLength(|Filter(bookings, (b: Booking) => BookerId(b) == Some(bookerId) && b.start > startAfter)|, page, size)
  {
    SortedPage(bookings, (b: Booking) => BookerId(b) == Some(bookerId) && b.start > startAfter, StartOf, true, page, size)
  }

  function FindAllByBookerIdAndStartBeforeAndEndAfterOrderByStartDesc(
    bookings: seq<Booking>, bookerId: nat, startBefore: int, endAfter: int, page: nat, size: nat): (r: seq<Booking>)
    requires size > 0
    ensures |r| <= size
    ensures forall k :: 0 <= k < |r| ==>
      r[k] in bookings && BookerId(r[k]) == Some(bookerId) && r[k].start < startBefore && r[k].end > endAfter
    ensures Ordered(r, StartOf, true)
    ensures |r| == PageLength(|Filter(bookings, (b: Booking) => BookerId(b) == Some(bookerId) && b.start < startBefore && b.end > endAfter)|, page, size)
  {
    SortedPage(bookings, (b: Booking) => BookerId(b) == Some(bookerId) && b.start < startBefore && b.end > endAfter,
      StartOf, true, page, size)
  }

  function FindAllByBookerIdAndStatusOrderByStartDesc(bookings: seq<Booking>, bookerId: nat, status: Status, page: nat, size: nat): (r: seq<Booking>)
    requires size > 0
    ensures |r| <= size
    ensures forall k :: 0 <= k < |r| ==> r[k] in bookings && BookerId(r[k]) == Some(bookerId) && r[k].status == Some(status)
    ensures Ordered(r, StartOf, true)
    ensures |r| == PageLength(|Filter(bookings, (b: Booking) => BookerId(b) == Some(bookerId) && b.status == Some(status))|, page, size)
  {
    SortedPage(bookings, (b: Booking) => BookerId(b) == Some(bookerId) && b.status == Some(status), StartOf, true, page, size)
  }

  function FindAllByItemOwnerIdOrderByStartDesc(bookings: seq<Booking>, ownerId: nat, page: nat, size: nat): (r: seq<Booking>)
    requires size > 0
    ensures |r| <= size
    ensures forall k :: 0 <= k < |r| ==> r[k] in bookings && r[k].item.ownerId == Some(ownerId)
    ensures Ordered(r, StartOf, true)
    ensures |r| == PageLength(|Filter(bookings, (b: Booking) => b.item.ownerId == Some(ownerId))|, page, size)
  {
    SortedPage(bookings, (b: Booking) => b.item.ownerId == Some(ownerId), StartOf, true, page, size)
  }

  function FindAllByItemOwnerIdAndEndBeforeOrderByStartDesc(bookings: seq<Booking>, ownerId: nat, endBefore: int, page: nat, size: nat): (r: seq<Booking>)
    requires size > 0
    ensures |r| <= size
    ensures forall k :: 0 <= k < |r| ==> r[k] in bookings && r[k].item.ownerId == Some(ownerId) && r[k].end < endBefore
    ensures Ordered(r, StartOf, true)
    ensures |r| == PageLength(|Filter(bookings, (b: Booking) => b.item.ownerId == Some(ownerId) && b.end < endBefore)|, page, size)
  {
    SortedPage(bookings, (b: Booking) => b.item.ownerId == Some(ownerId) && b.end < endBefore, StartOf, true, page, size)
  }

  function FindAllByItemOwnerIdAndStartAfterOrderByStartDesc(bookings: seq<Booking>, ownerId: nat, startAfter: int, page: nat, size: nat): (r: seq<Booking>)
    requires size > 0
    ensures |r| <= size
    ensures forall k :: 0 <= k < |r| ==> r[k] in bookings && r[k].item.ownerId == Some(ownerId) && r[k].start > startAfter
    ensures Ordered(r, StartOf, true)
    ensures |r| == PageLength(|Filter(bookings, (b: Booking) => b.item.ownerId == Some(ownerId) && b.start > startAfter)|, page, size)
  {
    SortedPage(bookings, (b: Booking) => b.item.ownerId == Some(ownerId) && b.start > startAfter, StartOf, true, page, size)
  }

  function FindAllByItemOwnerIdAndStartBeforeAndEndAfterOrderByStartDesc(
    bookings: seq<Booking>, ownerId: nat, startBefore: int, endAfter: int, page: nat, size: nat): (r: seq<Booking>)
    requires size > 0
    ensures |r| <= size
    ensures forall k :: 0 <= k < |r| ==>
      r[k] in bookings && r[k].item.ownerId == Some(ownerId) && r[k].start < startBefore && r[k].end > endAfter
    ensures Ordered(r, StartOf, true)
    ensures |r| == PageLength(|Filter(bookings, (b: Booking) => b.item.ownerId == Some(ownerId) && b.start < startBefore && b.end > endAfter)|, page, size)
  {
    SortedPage(bookings, (b: Booking) => b.item.ownerId == Some(ownerId) && b.start < startBefore && b.end > endAfter,
      StartOf, true, page, size)
  }

  function FindAllByItemOwnerIdAndStatusOrderByStartDesc(bookings: seq<Booking>, ownerId: nat, status: Status, page: nat, size: nat): (r: seq<Booking>)
    requires size > 0
    ensures |r| <= size
    ensures forall k :: 0 <= k < |r| ==> r[k] in bookings && r[k].item.ownerId == Some(ownerId) && r[k].status == Some(status)
    ensures Ordered(r, StartOf, true)
    ensures |r| == PageLength(|Filter(bookings, (b: Booking) => b.item.ownerId == Some(ownerId) && b.status == Some(status))|, page, size)
  {
    SortedPage(bookings, (b: Booking) => b.item.ownerId == Some(ownerId) && b.status == Some(status), StartOf, true, page, size)
  }

  /** Unpaged, in table order. */
  function FindAllByItemOwnerIdAndStatus(bookings: seq<Booking>, ownerId: nat, status: Status): (r: seq<Booking>)
    ensures forall k :: 0 <= k < |r| ==> r[k] in bookings && r[k].item.ownerId == Some(ownerId) && r[k].status == Some(status)
    ensures forall k ::
      0 <= k < |bookings| && bookings[k].item.ownerId == Some(ownerId) && bookings[k].status == Some(status) ==> bookings[k] in r
    ensures Subsequence(r, bookings)
    ensures forall b {:trigger multiset(r)[b]} :: b in bookings ==>
      multiset(r)[b] == if b.item.ownerId == Some(ownerId) && b.status == Some(status) then multiset(bookings)[b] else 0
  {
    Filter(bookings, (b: Booking) => b.item.ownerId == Some(ownerId) && b.status == Some(status))
  }

  /** Unpaged, in table order. */
  function FindAllByStatus(bookings: seq<Booking>, status: Status): (r: seq<Booking>)
    ensures forall k :: 0 <= k < |r| ==> r[k] in bookings && r[k].status == Some(status)
    ensures forall k :: 0 <= k < |bookings| && bookings[k].status == Some(status) ==> bookings[k] in r
    ensures Subsequence(r, bookings)
    ensures forall b {:trigger multiset(r)[b]} :: b in bookings ==>
      multiset(r)[b] == if b.status == Some(status) then multiset(bookings)[b] else 0
  {
    Filter(bookings, (b: Booking) => b.status == Some(status))
  }

  /** The owner's bookings in a status are the bookings in that status filtered by owner. */
  lemma ByOwnerAndStatusIsByStatusThenOwner(bookings: seq<Booking>, ownerId: nat, status: Status)
    ensures FindAllByItemOwnerIdAndStatus(bookings, ownerId, status)
      == Filter(FindAllByStatus(bookings, status), (b: Booking) => b.item.ownerId == Some(ownerId))
  {
    FilterFilter(bookings, (b: Booking) => b.status == Some(status), (b: Booking) => b.item.ownerId == Some(ownerId),
      (b: Booking) => b.item.ownerId == Some(ownerId) && b.status == Some(status));
  }

  /** The booking of the item in the status with the latest start before
      `startBefore`, or null when there is none. */
  function FindFirstByItemIdAndStatusAndStartBeforeOrderByStartDesc(
    bookings: seq<Booking>, itemId: nat, status: Status, startBefore: int): (r: Option<Booking>)
    ensures r.None? <==> forall k :: 0 <= k < |bookings| ==>
      !(bookings[k].item.id == Some(itemId) && bookings[k].status == Some(status) && bookings[k].start < startBefore)
    ensures r.Some? ==> r.value in bookings && r.value.item.id == Some(itemId) && r.value.status == Some(status) && r.value.start < startBefore
    ensures r.Some? ==> forall k :: 0 <= k < |bookings| && bookings[k].item.id == Some(itemId) && bookings[k].status == Some(status) && bookings[k].start < startBefore ==> bookings[k].start <= r.value.start
  {
    FirstSorted(bookings, (b: Booking) => b.item.id == Some(itemId) && b.status == Some(status) && b.start < startBefore,
      StartOf, true)
  }

  /** The booking of the item in the status with the earliest start after
      `startAfter`, or null when there is none. */
  function FindFirstByItemIdAndStatusAndStartAfterOrderByStartAsc(
    bookings: seq<Booking>, itemId: nat, status: Status, startAfter: int): (r: Option<Booking>)
    ensures r.None? <==> forall k :: 0 <= k < |bookings| ==>
      !(bookings[k].item.id == Some(itemId) && bookings[k].status == Some(status) && bookings[k].start > startAfter)
    ensures r.Some? ==> r.value in bookings && r.value.item.id == Some(itemId) && r.value.status == Some(status) && r.value.start > startAfter
    ensures r.Some? ==> forall k :: 0 <= k < |bookings| && bookings[k].item.id == Some(itemId) && bookings[k].status == Some(status) && bookings[k].start > startAfter ==> r.value.start <= bookings[k].start
  {
    FirstSorted(bookings, (b: Booking) => b.item.id == Some(itemId) && b.status == Some(status) && b.start > startAfter,
      StartOf, false)
  }

  function ExistsByItemIdAndBookerIdAndStatusAndEndBefore(
    bookings: seq<Booking>, itemId: nat, bookerId: nat, status: Status, endBefore: int): (r: bool)
    ensures r <==> exists k :: 0 <= k < |bookings| && bookings[k].item.id == Some(itemId)
                                && BookerId(bookings[k]) == Some(bookerId) && bookings[k].status == Some(status)
                                && bookings[k].end < endBefore
  {
    FindFirst(bookings, (b: Booking) => b.item.id == Some(itemId) && BookerId(b) == Some(bookerId)
      && b.status == Some(status) && b.end < endBefore).Some?
  }
}
