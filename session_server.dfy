/**
 * Login and the session: `login` turns a username and password into the identity that the
 * session will carry, `createUserSession` binds the session to an account id, `getUser` resolves
 * the session back to an account, and `destroyUserSession` clears it. The session is the value
 * stored under "userId" (`None` when there is none).
 */
module SessionServer {
  import opened Wrappers
  import opened Store
  import opened Http

  /** What a successful login hands back: the identity, never the digest. */
  datatype SessionUser = SessionUser(id: UserId, username: string, role: string)

  /** The identity `login` reports for an account. */
  function Identity(a: Account): SessionUser
  {
    SessionUser(a.id, a.username, a.role)
  }

  /**
   * `login`: finds the account by username and checks the password against its digest; only
   * then does it record the login time on that account. An unknown username and a wrong
   * password give the same `None`.
   */
  method Login(db: Database, h: Hasher, username: string, password: string, now: Time)
    returns (user: Option<SessionUser>)
    requires db.Valid()
    modifies db
    ensures db.Valid()
    ensures var found := FindByUsername(old(db.users), username);
      user.Some? <==> found.Some? && h.compare(password, old(db.users)[found.value].password)
    ensures user.Some? ==>
      var id := FindByUsername(old(db.users), username).value;
      && user.value == Identity(old(db.users)[id])
      && user.value.id == id
      && db.users == old(db.users)[id := old(db.users)[id].(lastLogin := Some(now))]
    ensures user.None? ==> db.users == old(db.users)
    ensures db.links == old(db.links) && db.nextLinkId == old(db.nextLinkId)
  {
    var found := FindByUsername(db.users, username);
    if found.None? {
      return None;
    }
    var account := db.users[found.value];
    var isValid := h.compare(password, account.password);
    if !isValid {
      return None;
    }
    db.UpdateLastLogin(account.id, now);
    user := Some(Identity(account));
  }

  /** `createUserSession`: a redirect whose cookie carries exactly `userId`. */
  function CreateUserSession<T>(userId: UserId, redirectTo: string): (r: Response<T>)
    ensures r.Redirect? && r.location == redirectTo
    ensures forall session :: NextSession(session, r) == Some(userId)
  {
    Redirect(redirectTo, Commit(userId))
  }

  /**
   * `getUser`: no account when the session has no "userId" (an empty id counts as none, as
   * JavaScript's `!userId` does), otherwise the account stored under that id, if it still exists.
   */
  function GetUser(users: map<UserId, Account>, session: Option<UserId>): (r: Option<Account>)
    ensures r.Some? <==> session.Some? && session.value != "" && session.value in users
    ensures r.Some? ==> r.value == users[session.value]
  {
    if session.None? || session.value == "" then None
    else if session.value in users then Some(users[session.value])
    else None
  }

  /** `destroyUserSession`: a redirect to "/" whose cookie carries no "userId". */
  function DestroyUserSession<T>(): (r: Response<T>)
    ensures r.Redirect? && r.location == "/"
    ensures forall session :: NextSession(session, r).None?
  {
    Redirect("/", Destroy)
  }

  /**
   * The session is a two-state machine: once bound to an existing account it resolves to that
   * account, and once destroyed it resolves to nobody, whatever it held before.
   */
  lemma SessionRoundTrip<T>(users: map<UserId, Account>, session: Option<UserId>,
                             id: UserId, to: string)
    requires id in users && id != ""
    ensures GetUser(users, NextSession(session, CreateUserSession<T>(id, to))) == Some(users[id])
    ensures GetUser(users, NextSession(session, DestroyUserSession<T>())).None?
  {
    assert NextSession(session, CreateUserSession<T>(id, to)) == Some(id);
    assert NextSession(session, DestroyUserSession<T>()).None?;
  }

  /** A session bound to an account that has since been deleted resolves to nobody. */
  lemma DeletedAccountSession(users: map<UserId, Account>, id: UserId)
    ensures GetUser(users - {id}, Some(id)).None?
  {
    assert id !in users - {id};
  }
}
