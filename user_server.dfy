/**
 * The account mutations: registration, password change, and deletion re-confirmed with the
 * acting account's own password.
 */
module UserServer {
  import opened Wrappers
  import opened Store

  const RegisterFailed := "Failed to register user"
  const ChangeFailed := "Failed to change password"
  const WrongUser := "Wrong user, sorry"
  const IncorrectPassword := "Incorrect password."
  const DeleteFailed := "Failed to delete the user."

  /**
   * `register`: stores a new account whose password column holds a digest of `password` made
   * with `salt`. The database refuses the row when the username (or the id it generated) is
   * already in use; the account table is then unchanged.
   */
  method Register(db: Database, h: Hasher, salt: Salt, newId: UserId, now: Time,
                  username: string, password: string, role: string)
    returns (r: Status)
    requires db.Valid() && newId != ""
    modifies db
    ensures db.Valid()
    ensures r.Succeeded? <==> newId !in old(db.users) && !UsernameTaken(old(db.users), username)
    ensures r.Succeeded? ==>
      db.users == old(db.users)[newId := Account(newId, username, h.hash(password, salt), role, now, None)]
    ensures r.Failed? ==> r.error == RegisterFailed && db.users == old(db.users)
    ensures db.links == old(db.links) && db.nextLinkId == old(db.nextLinkId)
  {
    var passwordHash := h.hash(password, salt);
    var created := db.CreateUser(newId, username, passwordHash, role, now);
    if created {
      r := Succeeded;
    } else {
      r := Failed(RegisterFailed);
    }
  }

  /**
   * `changePassword`: replaces the password column of account `id` by a digest of the new
   * password, and nothing else. There is no old-password check here. An unknown or missing id is
   * refused by the database and changes nothing.
   */
  method ChangePassword(db: Database, h: Hasher, salt: Salt, id: Option<UserId>, password: string)
    returns (r: Status)
    requires db.Valid()
    modifies db
    ensures db.Valid()
    ensures r.Succeeded? <==> id.Some? && id.value in old(db.users)
    ensures r.Succeeded? ==>
      db.users == old(db.users)[id.value := old(db.users)[id.value].(password := h.hash(password, salt))]
    ensures r.Succeeded? && RoundTrips(h) ==> h.compare(password, db.users[id.value].password)
    ensures r.Failed? ==> r.error == ChangeFailed && db.users == old(db.users)
    ensures db.links == old(db.links) && db.nextLinkId == old(db.nextLinkId)
  {
    var passwordHash := h.hash(password, salt);
    if id.None? {
      // the ORM refuses an update whose unique key is undefined
      return Failed(ChangeFailed);
    }
    var updated := db.UpdatePassword(id.value, passwordHash);
    if updated {
      r := Succeeded;
    } else {
      r := Failed(ChangeFailed);
    }
  }

  /**
   * The result of `deleteUser`, check by check: the acting account must exist, the password must
   * match the acting account's digest (not the target's), and only then is the target deleted,
   * which fails when there is no such account.
   */
  function DeleteUserOutcome(users: map<UserId, Account>, h: Hasher, id: UserId,
                             currentUserPassword: string, idToDel: UserId): Status
  {
    if id !in users then Failed(WrongUser)
    else if !h.compare(currentUserPassword, users[id].password) then Failed(IncorrectPassword)
    else if idToDel !in users then Failed(DeleteFailed)
    else Succeeded
  }

  /** `deleteUser`. */
  method DeleteUser(db: Database, h: Hasher, id: UserId, currentUserPassword: string, idToDel: UserId)
    returns (r: Status)
    requires db.Valid()
    modifies db
    ensures db.Valid()
    ensures r == DeleteUserOutcome(old(db.users), h, id, currentUserPassword, idToDel)
    ensures db.users == if r.Succeeded? then old(db.users) - {idToDel} else old(db.users)
    ensures db.links == old(db.links) && db.nextLinkId == old(db.nextLinkId)
  {
    if id !in db.users {
      return Failed(WrongUser);
    }
    var actualUser := db.users[id];
    var isValid := h.compare(currentUserPassword, actualUser.password);
    if !isValid {
      return Failed(IncorrectPassword);
    }
    var deleted := db.DeleteUser(idToDel);
    if deleted {
      r := Succeeded;
    } else {
      r := Failed(DeleteFailed);
    }
  }

  /**
   * A successful deletion removes exactly the target account; a failed one removes nothing. The
   * acting account is the target only when the caller deletes itself.
   */
  lemma DeleteRemovesOnlyTarget(users: map<UserId, Account>, h: Hasher, id: UserId,
                                pw: string, idToDel: UserId)
    requires DeleteUserOutcome(users, h, id, pw, idToDel).Succeeded?
    ensures idToDel in users && (users - {idToDel}).Keys == users.Keys - {idToDel}
    ensures forall k :: k in users && k != idToDel ==> k in users - {idToDel} && (users - {idToDel})[k] == users[k]
    ensures |users - {idToDel}| == |users| - 1
  {
    assert users.Keys == (users - {idToDel}).Keys + {idToDel};
  }

  /**
   * The outcome of a deletion depends on which accounts exist and on their digests only: the
   * roles (and usernames) of the acting account and of the target play no part.
   */
  lemma DeleteIgnoresRoles(users: map<UserId, Account>, other: map<UserId, Account>,
                           h: Hasher, id: UserId, pw: string, idToDel: UserId)
    requires users.Keys == other.Keys
    requires forall k :: k in users ==> users[k].password == other[k].password
    ensures DeleteUserOutcome(users, h, id, pw, idToDel) == DeleteUserOutcome(other, h, id, pw, idToDel)
  {
  }

  /**
   * The checks run in a fixed order: a missing acting account hides a wrong password, and a
   * wrong password hides a missing target.
   */
  lemma DeleteErrorPrecedence(users: map<UserId, Account>, h: Hasher, id: UserId,
                              pw: string, idToDel: UserId)
    ensures id !in users ==> DeleteUserOutcome(users, h, id, pw, idToDel) == Failed(WrongUser)
    ensures id in users && !h.compare(pw, users[id].password) ==>
              DeleteUserOutcome(users, h, id, pw, idToDel) == Failed(IncorrectPassword)
    ensures DeleteUserOutcome(users, h, id, pw, idToDel) == Failed(DeleteFailed) ==>
              id in users && h.compare(pw, users[id].password) && idToDel !in users
  {
  }

  /**
   * Registering and then logging in with the same password finds the new account and accepts
   * the password, provided the hasher round-trips.
   */
  lemma RegisteredPasswordLogsIn(users: map<UserId, Account>, h: Hasher, salt: Salt,
                                 newId: UserId, now: Time,
                                 username: string, password: string, role: string)
    requires RoundTrips(h)
    requires WellFormedUsers(users) && newId !in users && !UsernameTaken(users, username)
    ensures var after := users[newId := Account(newId, username, h.hash(password, salt), role, now, None)];
      && UniqueUsernames(after)
      && FindByUsername(after, username) == Some(newId)
      && h.compare(password, after[newId].password)
  {
    var after := users[newId := Account(newId, username, h.hash(password, salt), role, now, None)];
    assert UniqueUsernames(after) by {
      forall a, b | a in after && b in after && after[a].username == after[b].username
        ensures a == b
      {
        if a != newId && b != newId {
          assert users[a].username == users[b].username;
        }
      }
    }
    FindByUsernameUnique(after, newId);
    assert h.compare(password, h.hash(password, salt));
  }
}
