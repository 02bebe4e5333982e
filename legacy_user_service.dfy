/** User accounts (older tree): registration refuses a missing or blank
    email, lookups fail with NotFound, a patch replaces the given fields. */
module LegacyUserService {
  import opened Common
  import opened Text
  import opened Entities
  import opened Persistence

  /** A user as sent and answered; on a patch every field may be absent. */
  datatype UserDto = UserDto(id: Option<nat>, name: Option<string>, email: Option<string>)

  function ToUserDto(u: User): (r: UserDto)
    ensures r.id == u.id && r.name == u.name && r.email == u.email
  {
    UserDto(u.id, u.name, u.email)
  }

  const EmailMissing: Error := Validation("Email field cannot be null or blank!")

  /** The check of `addNew` and the user it lets through: the email must be
      present and not blank; name and email are copied, the id is left to the database. */
  function NewUser(d: UserDto): (r: Result<User>)
    ensures r.Err? <==> d.email.None? || IsBlank(d.email.value)
    ensures r.Err? ==> r.error == EmailMissing
    ensures r.Ok? ==> r.value.id.None? && r.value.name == d.name && r.value.email == d.email
    ensures r.Ok? ==> exists k :: 0 <= k < |d.email.value| && !IsWhitespace(d.email.value[k])
  {
    if d.email.None? || IsBlank(d.email.value) then Err(EmailMissing)
    else Ok(User(None, d.name, d.email))
  }

  /** `getById`: the user, or NotFound when the id is unknown. */
  function GetById(users: seq<User>, id: nat): (r: Result<UserDto>)
    ensures r.Err? <==> !UserExists(users, id)
    ensures r.Err? ==> r.error == UserNotFound(id)
    ensures r.Ok? ==> r.value.id == Some(id) && r == Ok(ToUserDto(FindUser(users, id).value))
  {
    match FindUser(users, id)
    case None => Err(UserNotFound(id))
    case Some(u) => Ok(ToUserDto(u))
  }

  /** The check of `patchUpdate` and the patched user: the user must exist;
      the body's name and email replace the stored ones where present, and
      the body's id is ignored. */
  function PatchedUser(users: seq<User>, id: nat, d: UserDto): (r: Result<User>)
    ensures r.Err? <==> !UserExists(users, id)
    ensures r.Err? ==> r.error == UserNotFound(id)
    ensures r.Ok? ==> r.value == ApplyUserPatch(FindUser(users, id).value, d.name, d.email) && r.value.id == Some(id)
  {
    match FindUser(users, id)
    case None => Err(UserNotFound(id))
    case Some(u) => Ok(ApplyUserPatch(u, d.name, d.email))
  }

  /** `addNew`: saves the user when the email check passes; nothing is stored otherwise. */
  method AddNew(db: Database, d: UserDto) returns (r: Result<UserDto>)
    requires db.Valid()
    modifies db`users, db`nextUserId
    ensures db.Valid()
    ensures var checked := NewUser(d);
      && (checked.Err? ==> r == Err(checked.error) && db.users == old(db.users) && db.nextUserId == old(db.nextUserId))
      && (checked.Ok? ==> db.users == old(db.users) + [checked.value.(id := Some(old(db.nextUserId)))]
                          && db.nextUserId == old(db.nextUserId) + 1
                          && r == Ok(ToUserDto(checked.value.(id := Some(old(db.nextUserId))))))
  {
    var checked := NewUser(d);
    if checked.Err? {
      return Err(checked.error);
    }
    var saved := db.SaveUser(checked.value);
    r := Ok(ToUserDto(saved));
  }

  /** `patchUpdate`: overwrites the user's row with the patched user, which
      a later `getById` then returns. */
  method PatchUpdate(db: Database, id: nat, d: UserDto) returns (r: Result<UserDto>)
    requires db.Valid()
    modifies db`users, db`nextUserId
    ensures db.Valid() && db.nextUserId == old(db.nextUserId)
    ensures var patched := PatchedUser(old(db.users), id, d);
      && (patched.Err? ==> r == Err(patched.error) && db.users == old(db.users))
      && (patched.Ok? ==> db.users == Replace(old(db.users), UserId, patched.value) && r == Ok(ToUserDto(patched.value)))
    ensures r.Ok? ==> GetById(db.users, id) == r
  {
    var patched := PatchedUser(db.users, id, d);
    if patched.Err? {
      return Err(patched.error);
    }
    var k :| 0 <= k < |db.users| && db.users[k] == FindUser(db.users, id).value;
    var saved := db.SaveUser(patched.value);
    r := Ok(ToUserDto(saved));
    assert db.users[k] == saved;
    KeyedFind(db.users, UserId, db.nextUserId, k, (u: User) => u.id == Some(id));
  }

  /** `remove`: deletes the user's row; an unknown id is the repository's
      exception, answered with status 500, and changes nothing. */
  method Remove(db: Database, id: nat) returns (r: Result<()>)
    requires db.Valid()
    modifies db`users
    ensures db.Valid()
    ensures r.Err? <==> !UserExists(old(db.users), id)
    ensures r.Err? ==> r.error == NoUserEntity(id) && db.users == old(db.users)
    ensures !UserExists(db.users, id)
    ensures forall k :: 0 <= k < |old(db.users)| && old(db.users)[k].id != Some(id) ==> old(db.users)[k] in db.users
    ensures r.Ok? ==> |db.users| == |old(db.users)| - 1
  {
    r := db.DeleteUser(id);
  }
}
