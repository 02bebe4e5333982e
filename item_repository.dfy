/** The item repository's queries, as functions over the items table. */
module ItemRepository {
  import opened Common
  import opened Seqs
  import opened Text
  import opened Entities

  /** The sort key of `ORDER BY it.id`; a saved item always has an id. */
  function IdKey(i: Item): int
  {
    if i.id.Some? then i.id.value else -1
  }

  /** The owner's items, by id ascending, one page of them. */
  function FindAllByOwnerId(items: seq<Item>, ownerId: nat, page: nat, size: nat): (r: seq<Item>)
    requires size > 0
    ensures |r| <= size
    ensures forall k :: 0 <= k < |r| ==> r[k] in items && r[k].ownerId == Some(ownerId)
    ensures Ordered(r, IdKey, false)
    ensures |r| == PageLength(|Filter(items, (i: Item) => i.ownerId == Some(ownerId))|, page, size)
  {
    SortedPage(items, (i: Item) => i.ownerId == Some(ownerId), IdKey, false, page, size)
  }

  /** `text` occurs in `field` at position `p`, letters compared without regard to case. */
  predicate MatchesAt(field: string, text: string, p: nat)
  {
    p + |text| <= |field| && forall k :: 0 <= k < |text| ==> UpperChar(field[p + k]) == UpperChar(text[k])
  }

  /** An occurrence of the upper-cased text in the upper-cased field is a
      case-blind occurrence of the text in the field, at the same position. */
  lemma UpperOccursAt(field: string, text: string, p: nat)
    ensures OccursAt(Upper(field), Upper(text), p) <==> MatchesAt(field, text, p)
  {
    if p + |text| <= |field| {
      var w := Upper(field)[p..p + |text|];
      assert forall k :: 0 <= k < |text| ==> w[k] == UpperChar(field[p + k]) && Upper(text)[k] == UpperChar(text[k]);
      if MatchesAt(field, text, p) {
        assert w == Upper(text);
      }
    }
  }

  /** `upper(field) like upper(concat('%', text, '%'))`, the text taken
      literally: the text occurs somewhere in the field, ignoring case. */
  predicate MatchesText(field: string, text: string)
    ensures MatchesText(field, text) <==> exists p: nat :: MatchesAt(field, text, p)
  {
    assert forall p: nat :: OccursAt(Upper(field), Upper(text), p) <==> MatchesAt(field, text, p) by {
      forall p: nat
        ensures OccursAt(Upper(field), Upper(text), p) <==> MatchesAt(field, text, p)
      {
        UpperOccursAt(field, text, p);
      }
    }
    Contains(Upper(field), Upper(text))
  }

  /** The search condition: an available item whose name or description contains the text. */
  predicate IsSearchHit(i: Item, text: string)
    ensures IsSearchHit(i, text) <==>
      i.available && ((exists p: nat :: MatchesAt(i.name, text, p)) || (exists p: nat :: MatchesAt(i.description, text, p)))
  {
    i.available && (MatchesText(i.name, text) || MatchesText(i.description, text))
  }

  /** Available items whose name or description contains the text, ignoring
      case; one page of them, in table order (the query has no ORDER BY). */
  function SearchAvailByText(items: seq<Item>, text: string, page: nat, size: nat): (r: seq<Item>)
    requires size > 0
    ensures |r| <= size
    ensures forall k :: 0 <= k < |r| ==> r[k] in items && r[k].available
    ensures forall k :: 0 <= k < |r| ==> MatchesText(r[k].name, text) || MatchesText(r[k].description, text)
    ensures page == 0 && |Filter(items, (i: Item) => IsSearchHit(i, text))| <= size
      ==> r == Filter(items, (i: Item) => IsSearchHit(i, text))
    ensures |r| == PageLength(|Filter(items, (i: Item) => IsSearchHit(i, text))|, page, size)
    ensures forall k :: 0 <= k < |r| ==> r[k] == Filter(items, (i: Item) => IsSearchHit(i, text))[page * size + k]
  {
    FilteredPage(items, (i: Item) => IsSearchHit(i, text), page, size)
  }

  /** Empty search text matches every available item. */
  lemma EmptyTextMatchesEveryAvailableItem(i: Item)
    requires i.available
    ensures IsSearchHit(i, "")
  {
    ContainsEmpty(Upper(i.name));
  }

  /** The items linked to the request, in table order. */
  function FindAllByRequestId(items: seq<Item>, requestId: nat): (r: seq<Item>)
    ensures forall k :: 0 <= k < |r| ==> r[k] in items && ItemRequestId(r[k]) == Some(requestId)
    ensures forall k :: 0 <= k < |items| && ItemRequestId(items[k]) == Some(requestId) ==> items[k] in r
    ensures Subsequence(r, items)
    ensures forall i {:trigger multiset(r)[i]} :: i in items ==>
      multiset(r)[i] == if ItemRequestId(i) == Some(requestId) then multiset(items)[i] else 0
  {
    Filter(items, (i: Item) => ItemRequestId(i) == Some(requestId))
  }

  /** The items linked to some request, in table order. */
  function FindAllByRequestIdNotNull(items: seq<Item>): (r: seq<Item>)
    ensures forall k :: 0 <= k < |r| ==> r[k] in items && ItemRequestId(r[k]).Some?
    ensures forall k :: 0 <= k < |items| && ItemRequestId(items[k]).Some? ==> items[k] in r
    ensures Subsequence(r, items)
    ensures forall i {:trigger multiset(r)[i]} :: i in items ==>
      multiset(r)[i] == if ItemRequestId(i).Some? then multiset(items)[i] else 0
  {
    Filter(items, (i: Item) => ItemRequestId(i).Some?)
  }

  /** Narrowing the linked items to one request gives that request's items. */
  lemma NotNullThenByRequest(items: seq<Item>, requestId: nat)
    ensures Filter(FindAllByRequestIdNotNull(items), (i: Item) => ItemRequestId(i) == Some(requestId))
         == FindAllByRequestId(items, requestId)
  {
    FilterFilter(items, (i: Item) => ItemRequestId(i).Some?, (i: Item) => ItemRequestId(i) == Some(requestId),
      (i: Item) => ItemRequestId(i) == Some(requestId));
  }
}
