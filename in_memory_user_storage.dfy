/** The older tree's in-memory user store: a hash map from id to user and a
    counter that hands out ids, starting at 1. */
module UserStorage {
  import opened Common
  import opened Entities

  class ImMemoryUserStorage {
    var storage: map<Option<nat>, User>
    var idGenerator: nat

    /** Every user is stored under its own id (a null id is a key like any
        other), and ids start at 1. */
    predicate Valid()
      reads this
    {
      && idGenerator >= 1
      && forall key :: key in storage ==> storage[key].id == key
    }

    /** Every stored id was handed out by the counter, so the next one is unused. */
    predicate Fresh()
      reads this
    {
      forall key :: key in storage && key.Some? ==> key.value < idGenerator
    }

    constructor ()
      ensures Valid() && Fresh()
      ensures storage == map[] && idGenerator == 1
    {
      storage := map[];
      idGenerator := 1;
    }

    /** `addNew`: the user gets the next id and is stored under it. */
    method AddNew(user: User) returns (saved: User)
      requires Valid()
      modifies this
      ensures Valid()
      ensures saved == user.(id := Some(old(idGenerator)))
      ensures storage == old(storage)[Some(old(idGenerator)) := saved] && idGenerator == old(idGenerator) + 1
      ensures old(Fresh()) ==> Fresh() && Some(old(idGenerator)) !in old(storage)
    {
      var newId := idGenerator;
      idGenerator := idGenerator + 1;
      saved := user.(id := Some(newId));
      storage := storage[Some(newId) := saved];
    }

    /** `getById`: the stored user, or NotFound when the id is absent. */
    method GetById(id: nat) returns (r: Result<User>)
      requires Valid()
      ensures r.Err? <==> Some(id) !in storage
      ensures r.Err? ==> r.error == UserNotFound(id)
      ensures r.Ok? ==> r.value == storage[Some(id)] && r.value.id == Some(id)
    {
      if Some(id) !in storage {
        return Err(UserNotFound(id));
      }
      r := Ok(storage[Some(id)]);
    }

    /** `getAll`: every stored user exactly once, in the map's (unspecified)
        iteration order, given by the ids `order`. */
    method GetAll() returns (r: seq<User>, ghost order: seq<Option<nat>>)
      requires Valid()
      ensures |r| == |order| == |storage|
      ensures forall k :: 0 <= k < |r| ==> order[k] in storage && r[k] == storage[order[k]] && r[k].id == order[k]
      ensures forall i, j :: 0 <= i < j < |order| ==> order[i] != order[j]
      ensures forall key :: key in storage ==> key in order
      ensures forall u :: u in r ==> u.id in storage && storage[u.id] == u
      ensures forall key :: key in storage ==> storage[key] in r
    {
      r, order := [], [];
      var rest := storage.Keys;
      while rest != {}
        invariant rest <= storage.Keys
        invariant |r| == |order| && |order| + |rest| == |storage.Keys|
        invariant forall k :: 0 <= k < |r| ==> order[k] in storage && order[k] !in rest && r[k] == storage[order[k]]
        invariant forall i, j :: 0 <= i < j < |order| ==> order[i] != order[j]
        invariant forall key :: key in storage && key !in rest ==> key in order
        decreases |rest|
      {
        var key :| key in rest;
        r, order := r + [storage[key]], order + [key];
        rest := rest - {key};
      }
      assert |storage| == |storage.Keys|;
      forall key | key in storage
        ensures storage[key] in r
      {
        var k :| 0 <= k < |order| && order[k] == key;
        assert r[k] == storage[key];
      }
    }

    /** `update`: stores the user under its id, replacing whatever was there;
        a user without an id goes under the null key. */
    method Update(user: User) returns (saved: User)
      requires Valid()
      modifies this
      ensures Valid() && saved == user
      ensures storage == old(storage)[user.id := user] && idGenerator == old(idGenerator)
    {
      storage := storage[user.id := user];
      saved := user;
    }

    /** `remove`: NotFound when the id is absent; otherwise only that entry goes. */
    method Remove(id: nat) returns (r: Result<()>)
      requires Valid()
      modifies this
      ensures Valid() && idGenerator == old(idGenerator)
      ensures r.Err? <==> Some(id) !in old(storage)
      ensures r.Err? ==> r.error == UserNotFound(id) && storage == old(storage)
      ensures r.Ok? ==> storage == old(storage) - {Some(id)}
    {
      var found := GetById(id);
      if found.Err? {
        return Err(found.error);
      }
      storage := storage - {Some(id)};
      r := Ok(());
    }

    /** `isFreeEmail`: no stored user has exactly this email (case matters). */
    method IsFreeEmail(email: string) returns (free: bool)
      requires Valid()
      ensures free <==> forall key :: key in storage ==> storage[key].email != Some(email)
    {
      free := true;
      var rest := storage.Keys;
      while rest != {}
        invariant rest <= storage.Keys
        invariant free <==> forall key :: key in storage && key !in rest ==> storage[key].email != Some(email)
        decreases |rest|
      {
        var key :| key in rest;
        if storage[key].email == Some(email) {
          return false;
        }
        rest := rest - {key};
      }
    }
  }

  /** Ids come out in increasing order and never repeat: two users added one
      after the other to a fresh store get consecutive ids, and the second
      does not displace the first. */
  method AddTwice(s: ImMemoryUserStorage, a: User, b: User) returns (x: User, y: User)
    requires s.Valid() && s.Fresh()
    modifies s
    ensures s.Valid() && s.Fresh()
    ensures x.id.Some? && y.id == Some(x.id.value + 1)
    ensures x.id in s.storage && y.id in s.storage && s.storage[x.id] == x && s.storage[y.id] == y
    ensures |s.storage| == |old(s.storage)| + 2
  {
    x := s.AddNew(a);
    y := s.AddNew(b);
  }
}
