/** The older tree's in-memory item store: a hash map from id to item and a
    counter that hands out ids, starting at 1, with the owner and text
    queries as scans over the stored items. */
module ItemStorage {
  import opened Common
  import opened Text
  import opened Entities
  import ItemRepository

  /** `field.toLowerCase().contains(text.toLowerCase())`. */
  predicate LowerContains(field: string, text: string)
  {
    Contains(Lower(field), Lower(text))
  }

  /** The in-memory search's condition: available, and the text occurs in
      the name or the description, ignoring case. */
  predicate IsTextHit(i: Item, text: string)
  {
    i.available && (LowerContains(i.name, text) || LowerContains(i.description, text))
  }

  /** The in-memory search finds the same items as the database search
      (`upper(..) like upper(..)`). */
  lemma TextHitIsSearchHit(i: Item, text: string)
    ensures IsTextHit(i, text) == ItemRepository.IsSearchHit(i, text)
  {
    ContainsIgnoringCase(i.name, text);
    ContainsIgnoringCase(i.description, text);
  }

  class InMemoryItemStorage {
    var storage: map<Option<nat>, Item>
    var idGenerator: nat

    /** Every item is stored under its own id (a null id is a key like any
        other), and ids start at 1. */
    predicate Valid()
      reads this
    {
      && idGenerator >= 1
      && forall key :: key in storage ==> storage[key].id == key
    }

    /** Every stored id was handed out by the counter, so the next one is unused. */
    predicate Fresh()
      reads this
    {
      forall key :: key in storage && key.Some? ==> key.value < idGenerator
    }

    constructor ()
      ensures Valid() && Fresh()
      ensures storage == map[] && idGenerator == 1
    {
      storage := map[];
      idGenerator := 1;
    }

    /** `addNew`: the item gets the next id and is stored under it. */
    method AddNew(item: Item) returns (saved: Item)
      requires Valid()
      modifies this
      ensures Valid()
      ensures saved == item.(id := Some(old(idGenerator)))
      ensures storage == old(storage)[Some(old(idGenerator)) := saved] && idGenerator == old(idGenerator) + 1
      ensures old(Fresh()) ==> Fresh() && Some(old(idGenerator)) !in old(storage)
    {
      var newId := idGenerator;
      idGenerator := idGenerator + 1;
      saved := item.(id := Some(newId));
      storage := storage[Some(newId) := saved];
    }

    /** `update`: stores the item under its id, replacing whatever was there;
        an item without an id goes under the null key. */
    method Update(item: Item) returns (saved: Item)
      requires Valid()
      modifies this
      ensures Valid() && saved == item
      ensures storage == old(storage)[item.id := item] && idGenerator == old(idGenerator)
    {
      storage := storage[item.id := item];
      saved := item;
    }

    /** `getById`: the stored item, or NotFound when the id is absent (the
        message speaks of a user id). */
    method GetById(itemId: nat) returns (r: Result<Item>)
      requires Valid()
      ensures r.Err? <==> Some(itemId) !in storage
      ensures r.Err? ==> r.error == UserNotFound(itemId)
      ensures r.Ok? ==> r.value == storage[Some(itemId)] && r.value.id == Some(itemId)
    {
      if Some(itemId) !in storage {
        return Err(UserNotFound(itemId));
      }
      r := Ok(storage[Some(itemId)]);
    }

    /** `getAllByOwnerId`: exactly the stored items of the owner, each once,
        in the map's (unspecified) iteration order. */
    method GetAllByOwnerId(userId: nat) returns (r: seq<Item>)
      requires Valid()
      ensures forall k :: 0 <= k < |r| ==> r[k].id in storage && r[k] == storage[r[k].id]
      ensures forall k :: 0 <= k < |r| ==> r[k].ownerId == Some(userId)
      ensures forall key :: key in storage && storage[key].ownerId == Some(userId) ==> storage[key] in r
      ensures forall i, j :: 0 <= i < j < |r| ==> r[i].id != r[j].id
    {
      r := [];
      var rest := storage.Keys;
      while rest != {}
        invariant rest <= storage.Keys
        invariant forall k :: 0 <= k < |r| ==>
          (r[k].id in storage && r[k].id !in rest && r[k] == storage[r[k].id])
        invariant forall k :: 0 <= k < |r| ==> r[k].ownerId == Some(userId)
        invariant forall key :: key in storage && key !in rest && storage[key].ownerId == Some(userId) ==> storage[key] in r
        invariant forall i, j :: 0 <= i < j < |r| ==> r[i].id != r[j].id
        decreases |rest|
      {
        var key :| key in rest;
        if storage[key].ownerId == Some(userId) {
          r := r + [storage[key]];
        }
        rest := rest - {key};
      }
    }

    /** `findAvailableByText`: exactly the stored available items whose name
        or description contains the text ignoring case, each once, in the
        map's (unspecified) iteration order. */
    method FindAvailableByText(text: string) returns (r: seq<Item>)
      requires Valid()
      ensures forall k :: 0 <= k < |r| ==> r[k].id in storage && r[k] == storage[r[k].id]
      ensures forall k :: 0 <= k < |r| ==> IsTextHit(r[k], text)
      ensures forall key :: key in storage && IsTextHit(storage[key], text) ==> storage[key] in r
      ensures forall i, j :: 0 <= i < j < |r| ==> r[i].id != r[j].id
    {
      r := [];
      var rest := storage.Keys;
      while rest != {}
        invariant rest <= storage.Keys
        invariant forall k :: 0 <= k < |r| ==>
          (r[k].id in storage && r[k].id !in rest && r[k] == storage[r[k].id])
        invariant forall k :: 0 <= k < |r| ==> IsTextHit(r[k], text)
        invariant forall key :: key in storage && key !in rest && IsTextHit(storage[key], text) ==> storage[key] in r
        invariant forall i, j :: 0 <= i < j < |r| ==> r[i].id != r[j].id
        decreases |rest|
      {
        var key :| key in rest;
        if IsTextHit(storage[key], text) {
          r := r + [storage[key]];
        }
        rest := rest - {key};
      }
    }
  }
}
