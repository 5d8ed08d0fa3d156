// The account-administration pages under "/dashboard/users". Only their loaders check the role.

/** `app/routes/_dashboard.dashboard.users._index.tsx`: forwards an admin to the list. */
module UsersIndexRoute {
  import opened Wrappers
  import opened Store
  import opened Http
  import opened Access

  /** Never returns data: a non-admin goes to "/login", an admin to "/dashboard/users/list". */
  function Loader(user: Option<Account>): (r: Response<()>)
    ensures r.Redirect? && r.session.Unchanged?
    ensures r.location == "/login" <==> user.None? || user.value.role != "admin"
    ensures r.location == "/dashboard/users/list" <==> user.Some? && user.value.role == "admin"
  {
    if !IsAdmin(user) then RedirectTo("/login") else RedirectTo("/dashboard/users/list")
  }
}

/** `app/routes/_dashboard.dashboard.users.list.tsx`: the account table. */
module UsersListRoute {
  import opened Wrappers
  import opened Store
  import opened Http
  import opened Access

  /** The columns the loader selects; the password column is not among them. */
  datatype UserRow = UserRow(id: UserId, username: string, role: string, createdAt: Time)

  function Row(a: Account): UserRow
  {
    UserRow(a.id, a.username, a.role, a.createdAt)
  }

  /**
   * A non-admin is sent to "/login"; an admin gets one row per account and no other row. The
   * order of `findMany` is not modelled, so the rows are a set.
   */
  function Loader(user: Option<Account>, users: map<UserId, Account>): (r: Response<set<UserRow>>)
    ensures r.Redirect? <==> user.None? || user.value.role != "admin"
    ensures r.Redirect? ==> r == RedirectTo("/login")
    ensures r.Reply? ==> forall id :: id in users ==> Row(users[id]) in r.body
    ensures r.Reply? ==> forall row :: row in r.body ==> exists id :: id in users && Row(users[id]) == row
  {
    if !IsAdmin(user) then RedirectTo("/login")
    else Reply(set id | id in users :: Row(users[id]))
  }

  /** The Edit button of a row. */
  predicate EditVisible(row: UserRow)
  {
    row.role != "admin"
  }

  /** Among the rows an admin sees, the ones with an Edit button are exactly the non-admin accounts. */
  lemma EditOnlyForNonAdmins(user: Option<Account>, users: map<UserId, Account>)
    requires Loader(user, users).Reply?
    ensures var rows := Loader(user, users).body;
      forall row :: row in rows && EditVisible(row) <==>
        exists id :: id in users && users[id].role != "admin" && Row(users[id]) == row
  {
    var rows := Loader(user, users).body;
    forall row
      ensures row in rows && EditVisible(row) <==>
        exists id :: id in users && users[id].role != "admin" && Row(users[id]) == row
    {
      if row in rows && EditVisible(row) {
        var id :| id in users && Row(users[id]) == row;
        assert users[id].role == row.role;
      }
    }
  }

  /**
   * The reply reveals nothing about the stored digests: two account tables that differ only in
   * their password columns give the same response.
   */
  lemma LoaderHidesDigests(user: Option<Account>, users: map<UserId, Account>,
                           other: map<UserId, Account>)
    requires users.Keys == other.Keys
    requires forall id :: id in users ==> users[id].(password := "") == other[id].(password := "")
    ensures Loader(user, users) == Loader(user, other)
  {
    if IsAdmin(user) {
      forall id | id in users
        ensures Row(users[id]) == Row(other[id])
      {
        assert users[id].(password := "").role == other[id].(password := "").role;
      }
      assert Loader(user, users).body == Loader(user, other).body;
    }
  }
}

/** `app/routes/_dashboard.dashboard.users.create-user.tsx`: an admin creates an account of either role. */
module CreateUserRoute {
  import opened Wrappers
  import opened Store
  import opened Http
  import opened Access
  import opened Auth
  import UserServer

  const InvalidRole := "Invalid role selected"

  datatype Errors = Errors(username: Option<seq<string>>, password: Option<seq<string>>,
                           role: Option<string>, password2: Option<string>)
  {
    /** `Object.keys(errors).length > 0`. */
    predicate Any() { username.Some? || password.Some? || role.Some? || password2.Some? }
  }

  datatype ActionData = ActionData(errors: Errors)

  /** A non-admin is sent to "/login"; an admin gets the form. */
  function Loader(user: Option<Account>): (r: Response<()>)
    ensures r.Redirect? <==> user.None? || user.value.role != "admin"
    ensures r.Redirect? ==> r == RedirectTo("/login")
  {
    if !IsAdmin(user) then RedirectTo("/login") else Reply(())
  }

  /**
   * The creation form, with no session or role check of its own: every check runs and all
   * failures are reported together with the account table untouched. Otherwise `register` gets the
   * submitted username, password and role, and the response goes to "/dashboard/users" whether or
   * not the database took the row.
   */
  method Action(db: Database, h: Hasher, salt: Salt, newId: UserId, now: Time,
                username: string, password: string, password2: string, role: string)
    returns (r: Response<ActionData>)
    requires db.Valid() && newId != ""
    modifies db
    ensures db.Valid()
    ensures r.Reply? <==>
      !UsernameOk(username) || !PasswordOk(password) || password != password2 || (role != "admin" && role != "user")
    ensures r.Reply? ==>
      var e := r.body.errors;
      && ReportsCredentialFailures(e.username, e.password, e.password2, username, password, password2)
      && (e.role.Some? <==> role != "admin" && role != "user")
      && (e.role.Some? ==> e.role == Some(InvalidRole))
      && db.users == old(db.users)
    ensures r.Redirect? ==> r == RedirectTo("/dashboard/users")
    ensures r.Redirect? ==>
      db.users == if newId !in old(db.users) && !UsernameTaken(old(db.users), username)
                  then old(db.users)[newId := Account(newId, username, h.hash(password, salt), role, now, None)]
                  else old(db.users)
    ensures db.links == old(db.links) && db.nextLinkId == old(db.nextLinkId)
  {
    var errors := Errors(None, None, None, None);
    var usernameValidation := ValidateUsername(username);
    if usernameValidation.Invalid? {
      errors := errors.(username := Some(usernameValidation.errors));
    }
    var passwordValidation := ValidatePassword(password);
    if passwordValidation.Invalid? {
      errors := errors.(password := Some(passwordValidation.errors));
    }
    var passwordCompareResult := ComparePasswords(password, password2);
    if passwordCompareResult.Invalid? {
      errors := errors.(password2 := Some(passwordCompareResult.errors));
    }
    if role !in ["admin", "user"] {
      errors := errors.(role := Some(InvalidRole));
    }
    if errors.Any() {
      return Reply(ActionData(errors));
    }
    var registered := UserServer.Register(db, h, salt, newId, now, username, password, role);
    r := RedirectTo("/dashboard/users");
  }
}

/** `app/routes/_dashboard.dashboard.users.delete.tsx`: deletion confirmed with the acting account's password. */
module DeleteUserRoute {
  import opened Wrappers
  import opened Store
  import opened Http
  import opened Access
  import opened SessionServer
  import opened UserServer

  const Deleted := "Successfully deleted the user."

  datatype ActionData = Error(error: string) | Message(message: string)

  /** A non-admin is sent to "/login"; an admin gets the page. */
  function Loader(user: Option<Account>): (r: Response<()>)
    ensures r.Redirect? <==> user.None? || user.value.role != "admin"
    ensures r.Redirect? ==> r == RedirectTo("/login")
  {
    if !IsAdmin(user) then RedirectTo("/login") else Reply(())
  }

  /** `user?.id || ""`: the session's account id, or "" when nobody is logged in. */
  function ActingId(user: Option<Account>): (id: UserId)
    ensures user.None? ==> id == ""
    ensures user.Some? ==> id == user.value.id
  {
    if user.Some? && user.value.id != "" then user.value.id else ""
  }

  /**
   * The deletion form: the session's account id and the submitted password and target id go to
   * `deleteUser` unchanged; its error is returned verbatim, its success as a fixed message. The
   * session's role is never consulted.
   */
  method Action(db: Database, h: Hasher, session: Option<UserId>, idToDel: UserId, currentUserPassword: string)
    returns (r: Response<ActionData>)
    requires db.Valid()
    modifies db
    ensures db.Valid()
    ensures var outcome := DeleteUserOutcome(old(db.users), h, ActingId(GetUser(old(db.users), session)),
                                             currentUserPassword, idToDel);
      && r == Reply(if outcome.Failed? then Error(outcome.error) else Message(Deleted))
      && db.users == if outcome.Succeeded? then old(db.users) - {idToDel} else old(db.users)
    ensures db.links == old(db.links) && db.nextLinkId == old(db.nextLinkId)
  {
    var user := GetUser(db.users, session);
    var id := ActingId(user);
    var result := UserServer.DeleteUser(db, h, id, currentUserPassword, idToDel);
    if result.Failed? {
      return Reply(Error(result.error));
    }
    r := Reply(Message(Deleted));
  }

  /**
   * The action does not check the role: any logged-in account, admin or not, deletes any existing
   * account once it re-enters its own password.
   */
  lemma AnyAccountCanDelete(users: map<UserId, Account>, h: Hasher, session: Option<UserId>,
                            idToDel: UserId, currentUserPassword: string)
    requires WellFormedUsers(users)
    requires GetUser(users, session).Some?
    requires h.compare(currentUserPassword, GetUser(users, session).value.password)
    requires idToDel in users
    ensures DeleteUserOutcome(users, h, ActingId(GetUser(users, session)), currentUserPassword, idToDel).Succeeded?
  {
    var acting := GetUser(users, session).value;
    assert acting == users[session.value];
    assert acting.id == session.value;
  }

  /**
   * Without a session the acting id is "", which names no account (`Database.Valid` keeps "" out of
   * the table), so nothing is deleted.
   */
  lemma AnonymousCannotDelete(users: map<UserId, Account>, h: Hasher, session: Option<UserId>,
                              idToDel: UserId, currentUserPassword: string)
    requires "" !in users
    requires GetUser(users, session).None?
    ensures DeleteUserOutcome(users, h, ActingId(GetUser(users, session)), currentUserPassword, idToDel)
            == Failed(WrongUser)
  {
  }
}
