/** User accounts (server tree): registration saves the user as sent (the
    gateway validates it), lookups fail with NotFound, a patch replaces the
    given fields, and the full list keeps the table's order. */
module ServerUserService {
  import opened Common
  import opened Seqs
  import opened Entities
  import opened Persistence
  import LegacyUserService

  datatype UserRequestDto = UserRequestDto(name: Option<string>, email: Option<string>)

  datatype UserResponseDto = UserResponseDto(id: Option<nat>, name: Option<string>, email: Option<string>)

  /** `UserMapper.toUser`: name and email copied, id left to the database. */
  function ToUser(d: UserRequestDto): (r: User)
    ensures r.id.None? && r.name == d.name && r.email == d.email
  {
    User(None, d.name, d.email)
  }

  /** `UserMapper.toUserResponseDto`, field for field. */
  function ToUserResponseDto(u: User): (r: UserResponseDto)
    ensures r.id == u.id && r.name == u.name && r.email == u.email
  {
    UserResponseDto(u.id, u.name, u.email)
  }

  /** The server saves every user the older tree accepts, and the same one;
      it also saves users the older tree refuses for a missing or blank email. */
  lemma AcceptsWhatLegacyAccepts(d: UserRequestDto)
    ensures var legacy := LegacyUserService.NewUser(LegacyUserService.UserDto(None, d.name, d.email));
      legacy.Ok? ==> legacy.value == ToUser(d)
    ensures d.email.None? ==> LegacyUserService.NewUser(LegacyUserService.UserDto(None, d.name, d.email)).Err?
  {
  }

  /** `getById`: the user, or NotFound when the id is unknown. */
  function GetById(users: seq<User>, id: nat): (r: Result<UserResponseDto>)
    ensures r.Err? <==> !UserExists(users, id)
    ensures r.Err? ==> r.error == UserNotFound(id)
    ensures r.Ok? ==> r.value.id == Some(id)
    ensures var legacy := LegacyUserService.GetById(users, id);
      && (r.Err? ==> legacy == Err(r.error))
      && (r.Ok? ==> legacy.Ok? && legacy.value.name == r.value.name && legacy.value.email == r.value.email)
  {
    match FindUser(users, id)
    case None => Err(UserNotFound(id))
    case Some(u) => Ok(ToUserResponseDto(u))
  }

  /** `getAll`: every stored user, in table order. */
  function GetAll(users: seq<User>): (r: seq<UserResponseDto>)
    ensures |r| == |users|
    ensures forall k :: 0 <= k < |r| ==> r[k].id == users[k].id && r[k].name == users[k].name && r[k].email == users[k].email
  {
    Map(users, ToUserResponseDto)
  }

  /** The check of `patchUpdate` and the patched user: the same as in the
      older tree, whose body also carries an (ignored) id. */
  function PatchedUser(users: seq<User>, id: nat, d: UserRequestDto): (r: Result<User>)
    ensures r.Err? <==> !UserExists(users, id)
    ensures r.Err? ==> r.error == UserNotFound(id)
    ensures r.Ok? ==> r.value.id == Some(id) && r.value.email == (if d.email.Some? then d.email else FindUser(users, id).value.email)
    ensures forall legacyId: Option<nat> ::
      r == LegacyUserService.PatchedUser(users, id, LegacyUserService.UserDto(legacyId, d.name, d.email))
  {
    match FindUser(users, id)
    case None => Err(UserNotFound(id))
    case Some(u) => Ok(ApplyUserPatch(u, d.name, d.email))
  }

  /** `addNew`: saves the user as sent. */
  method AddNew(db: Database, d: UserRequestDto) returns (r: UserResponseDto)
    requires db.Valid()
    modifies db`users, db`nextUserId
    ensures db.Valid()
    ensures db.users == old(db.users) + [ToUser(d).(id := Some(old(db.nextUserId)))]
    ensures db.nextUserId == old(db.nextUserId) + 1
    ensures r == ToUserResponseDto(ToUser(d).(id := Some(old(db.nextUserId))))
  {
    var saved := db.SaveUser(ToUser(d));
    r := ToUserResponseDto(saved);
  }

  /** `patchUpdate`: overwrites the user's row with the patched user, which
      a later `getById` then returns. */
  method PatchUpdate(db: Database, id: nat, d: UserRequestDto) returns (r: Result<UserResponseDto>)
    requires db.Valid()
    modifies db`users, db`nextUserId
    ensures db.Valid() && db.nextUserId == old(db.nextUserId)
    ensures var patched := PatchedUser(old(db.users), id, d);
      && (patched.Err? ==> r == Err(patched.error) && db.users == old(db.users))
      && (patched.Ok? ==> db.users == Replace(old(db.users), UserId, patched.value) && r == Ok(ToUserResponseDto(patched.value)))
    ensures r.Ok? ==> GetById(db.users, id) == r
  {
    var patched := PatchedUser(db.users, id, d);
    if patched.Err? {
      return Err(patched.error);
    }
    var k :| 0 <= k < |db.users| && db.users[k] == FindUser(db.users, id).value;
    var saved := db.SaveUser(patched.value);
    r := Ok(ToUserResponseDto(saved));
    assert db.users[k] == saved;
    KeyedFind(db.users, UserId, db.nextUserId, k, (u: User) => u.id == Some(id));
  }

  /** `remove`: deletes the user's row; an unknown id is the repository's
      exception, answered with status 500, and changes nothing. */
  method Remove(db: Database, id: nat) returns (r: Result<()>)
    requires db.Valid()
    modifies db`users
    ensures db.Valid()
    ensures r.Err? <==> !UserExists(old(db.users), id)
    ensures r.Err? ==> r.error == NoUserEntity(id) && db.users == old(db.users)
    ensures !UserExists(db.users, id)
    ensures forall k :: 0 <= k < |old(db.users)| && old(db.users)[k].id != Some(id) ==> old(db.users)[k] in db.users
    ensures r.Ok? ==> |db.users| == |old(db.users)| - 1
  {
    r := db.DeleteUser(id);
  }
}
