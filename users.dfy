/** `app/routers/users.py`: public signup and admin-only user management.
    Every management endpoint first passes the `require_admin` dependency,
    so a non-admin caller gets 403 before any lookup. */
module Users {
  import opened Common
  import opened Passwords
  import opened Models
  import Schemas

  /** `require_admin`: 403 exactly for a non-admin caller, who is otherwise
      passed on unchanged. (`app/routers/colleges.py` holds an identical copy.) */
  function RequireAdmin(current: User): (r: Result<User>)
    reads current
    ensures r.Err? <==> !current.isAdmin
    ensures r.Err? ==> r.error == Forbidden
    ensures r.Ok? ==> r.value == current
  {
    if !current.isAdmin then Err(Forbidden) else Ok(current)
  }

  /** The request fields `create_user` reads. */
  datatype Signup = Signup(
    username: string, email: Option<string>, firstName: Option<string>,
    lastName: Option<string>, password: string)

  /** `create_user`: 422 for a password shorter than `UserCreate`'s
      six-character minimum, which the request schema refuses before the
      handler runs; 400 when the username is taken; otherwise one new user
      with the next id, the given fields, `is_admin` forced to false,
      `is_active` at its default (false), and a password hash that verifies
      against the given password. Usernames stay unique (`Db.Valid`). */
  method CreateUser(db: Db, data: Signup, c: Crypto, salt: seq<byte>, now: int) returns (r: Result<User>)
    requires db.Valid()
    modifies db
    ensures db.Valid()
    ensures r.Err? <==> |data.password| < Schemas.MinPasswordLength || old(HasUsername(db.users, data.username))
    ensures r.Err? && |data.password| < Schemas.MinPasswordLength ==> r.error == Unprocessable
    ensures r.Err? && |data.password| >= Schemas.MinPasswordLength ==> r.error == BadRequest(UsernameTaken)
    ensures r.Err? ==> db.users == old(db.users)
    ensures r.Ok? ==> fresh(r.value) && db.users == old(db.users) + [r.value]
    ensures r.Ok? ==> r.value.Row() == UserRow(old(db.nextUserId), data.username, data.email,
      data.firstName, data.lastName, StoredHash(c, data.password, salt), false, DefaultIsActive, now)
    ensures r.Ok? ==> r.value.VerifyPassword(c, data.password) && !r.value.isAdmin && !r.value.isActive
    ensures db.colleges == old(db.colleges) && db.students == old(db.students)
    ensures db.events == old(db.events) && db.registrations == old(db.registrations)
    ensures r.Err? ==> db.Counters() == old(db.Counters())
    ensures r.Ok? ==> db.Counters() == old(db.Counters()).(user := old(db.nextUserId) + 1)
  {
    if |data.password| < Schemas.MinPasswordLength {
      return Err(Unprocessable);
    }
    if HasUsername(db.users, data.username) {
      return Err(BadRequest(UsernameTaken));
    }
    var u := new User(data.username, data.email, data.firstName, data.lastName, false, DefaultIsActive, now);
    u.SetPassword(c, data.password, salt);
    db.InsertUser(u);
    r := Ok(u);
  }

  /** The users whose `is_active` is set, in table order. */
  function ActiveUsers(users: seq<User>): (r: seq<User>)
    reads users
    ensures forall i :: 0 <= i < |r| ==> r[i] in users && r[i].isActive
    ensures forall i :: 0 <= i < |users| && users[i].isActive ==> users[i] in r
  {
    if users == [] then []
    else if users[0].isActive then [users[0]] + ActiveUsers(users[1..])
    else ActiveUsers(users[1..])
  }

  /** The default of `list_users`'s `active_only` parameter. */
  const DefaultActiveOnly: bool := false

  /** `list_users`: admin only; at most `limit` users of the (optionally
      active-only) table, starting after the first `skip`. */
  function ListUsers(db: Db, current: User, skip: nat := DefaultSkip, limit: nat := DefaultLimit,
                     activeOnly: bool := DefaultActiveOnly): (r: Result<seq<User>>)
    reads db, db.users, current
    ensures r.Err? <==> !current.isAdmin
    ensures r.Err? ==> r.error == Forbidden
    ensures r.Ok? ==> |r.value| <= limit
    ensures r.Ok? ==> forall i :: 0 <= i < |r.value| ==> r.value[i] in db.users && (activeOnly ==> r.value[i].isActive)
    ensures r.Ok? && !activeOnly ==> r.value == Page(db.users, skip, limit)
    ensures r.Ok? && activeOnly ==> r.value == Page(ActiveUsers(db.users), skip, limit)
  {
    if !current.isAdmin then Err(Forbidden)
    else
      var base := if activeOnly then ActiveUsers(db.users) else db.users;
      var page := Page(base, skip, limit);
      Ok(page)
  }

  /** `get_user`: admin only; 404 for an unknown id. */
  function GetUser(db: Db, current: User, userId: int): (r: Result<User>)
    reads db, db.users, current
    ensures r.Err? <==> !current.isAdmin || userId !in UserIds(db.users)
    ensures r.Err? ==> r.error == if !current.isAdmin then Forbidden else NotFound(UserMissing)
    ensures r.Ok? ==> r.value in db.users && r.value.id == userId
  {
    if !current.isAdmin then Err(Forbidden)
    else match FindUser(db.users, userId)
      case None => Err(NotFound(UserMissing))
      case Some(k) => Ok(db.users[k])
  }

  /** `activate_user`: admin only; 404 for an unknown id; otherwise only that
      user's `is_active` becomes true. */
  method ActivateUser(db: Db, current: User, userId: int) returns (r: Result<User>)
    requires db.Valid() && current in db.users
    modifies db.users
    ensures db.Valid()
    ensures r.Err? <==> !old(current.isAdmin) || userId !in old(UserIds(db.users))
    ensures r.Err? ==> r.error == if !old(current.isAdmin) then Forbidden else NotFound(UserMissing)
    ensures r.Err? ==> forall v :: v in db.users ==> v.Row() == old(v.Row())
    ensures r.Ok? ==> r.value in db.users && r.value.id == userId
    ensures r.Ok? ==> r.value.Row() == old(r.value.Row()).(isActive := true)
    ensures r.Ok? ==> forall v :: v in db.users && v != r.value ==> v.Row() == old(v.Row())
  {
    if !current.isAdmin {
      return Err(Forbidden);
    }
    var found := FindUser(db.users, userId);
    if found.None? {
      return Err(NotFound(UserMissing));
    }
    var u := db.users[found.value];
    u.isActive := true;
    r := Ok(u);
  }

  /** Activating twice succeeds twice on the same user, and the second
      call changes nothing the first did not. */
  method ActivateTwice(db: Db, current: User, userId: int) returns (first: Result<User>, second: Result<User>)
    requires db.Valid() && current in db.users && current.isAdmin
    requires userId in UserIds(db.users)
    modifies db.users
    ensures first.Ok? && second.Ok? && first.value == second.value
    ensures first.value in db.users && first.value.id == userId
    ensures first.value.Row() == old(first.value.Row()).(isActive := true)
    ensures forall v :: v in db.users && v != first.value ==> v.Row() == old(v.Row())
  {
    first := ActivateUser(db, current, userId);
    assert current.isAdmin by {
      if current != first.value {
        assert current.Row() == old(current.Row());
      }
    }
    ghost var i :| 0 <= i < |db.users| && db.users[i] == first.value;
    assert userId in UserIds(db.users);
    second := ActivateUser(db, current, userId);
    ghost var j :| 0 <= j < |db.users| && db.users[j] == second.value;
    assert db.Keys();
    assert UsersUnique(db.users);
    assert i == j;
  }

  /** `deactivate_user`: admin only; 404 for an unknown id (checked first),
      400 when the target is the caller; otherwise only that user's
      `is_active` becomes false. */
  method DeactivateUser(db: Db, current: User, userId: int) returns (r: Result<User>)
    requires db.Valid() && current in db.users
    modifies db.users
    ensures db.Valid()
    ensures r.Err? <==> !current.isAdmin || userId !in UserIds(db.users) || userId == current.id
    ensures r.Err? && !current.isAdmin ==> r.error == Forbidden
    ensures r.Err? && current.isAdmin && userId !in UserIds(db.users) ==> r.error == NotFound(UserMissing)
    ensures r.Err? && current.isAdmin && userId in UserIds(db.users) ==> r.error == BadRequest(CannotDeactivateSelf)
    ensures r.Err? ==> forall v :: v in db.users ==> v.Row() == old(v.Row())
    ensures r.Ok? ==> r.value in db.users && r.value.id == userId
    ensures r.Ok? ==> r.value.Row() == old(r.value.Row()).(isActive := false)
    ensures r.Ok? ==> forall v :: v in db.users && v != r.value ==> v.Row() == old(v.Row())
  {
    if !current.isAdmin {
      return Err(Forbidden);
    }
    var found := FindUser(db.users, userId);
    if found.None? {
      return Err(NotFound(UserMissing));
    }
    var u := db.users[found.value];
    if u.id == current.id {
      return Err(BadRequest(CannotDeactivateSelf));
    }
    u.isActive := false;
    r := Ok(u);
  }

  /** `delete_user`: admin only; 404 for an unknown id, 400 on self-delete;
      otherwise the user and its cascaded dependents go (`Db.DeleteUser`). */
  method DeleteUser(db: Db, current: User, userId: int) returns (r: Result<()>)
    requires db.Valid() && current in db.users
    modifies db
    ensures db.Valid()
    ensures r.Err? <==> !current.isAdmin || userId !in old(UserIds(db.users)) || userId == current.id
    ensures r.Err? && !current.isAdmin ==> r.error == Forbidden
    ensures r.Err? && current.isAdmin && userId !in old(UserIds(db.users)) ==> r.error == NotFound(UserMissing)
    ensures r.Err? && current.isAdmin && userId in old(UserIds(db.users)) ==> r.error == BadRequest(CannotDeleteSelf)
    ensures r.Err? ==> db.users == old(db.users) && db.events == old(db.events)
    ensures r.Err? ==> db.registrations == old(db.registrations) && db.students == old(db.students)
    ensures r.Ok? ==> db.users == RemoveAt(old(db.users), old(FindUser(db.users, userId)).value)
    ensures r.Ok? ==> db.events == Filter(old(db.events), NotCreatedBy(userId))
    ensures r.Ok? ==> db.registrations == Filter(old(db.registrations), Outlives(userId, old(db.events)))
    ensures r.Ok? ==> db.students == Filter(old(db.students), NotProfileOf(userId))
    ensures r.Ok? ==> current in db.users && userId !in UserIds(db.users)
    ensures db.colleges == old(db.colleges) && db.Counters() == old(db.Counters())
  {
    if !current.isAdmin {
      return Err(Forbidden);
    }
    var found := FindUser(db.users, userId);
    if found.None? {
      return Err(NotFound(UserMissing));
    }
    var k := found.value;
    if db.users[k].id == current.id {
      return Err(BadRequest(CannotDeleteSelf));
    }
    RemoveUserKeys(db.users, k, db.nextUserId);
    assert current in RemoveAt(db.users, k) by {
      var i :| 0 <= i < |db.users| && db.users[i] == current;
      assert i != k;
      assert RemoveAt(db.users, k)[if i < k then i else i - 1] == current;
    }
    db.DeleteUser(k);
    r := Ok(());
  }
}
