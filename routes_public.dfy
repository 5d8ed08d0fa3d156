// The routes a visitor reaches without a session: the root, the login page and the registration page.

/** `app/routes/_index.tsx`: the root page only forwards. */
module RootIndexRoute {
  import opened Wrappers
  import opened Store
  import opened Http

  /** Every visit is redirected: to "/login" without a session, to "/dashboard" with one, whatever the role. */
  function Loader(user: Option<Account>): (r: Response<()>)
    ensures r.Redirect? && r.session.Unchanged?
    ensures r.location == "/login" <==> user.None?
    ensures r.location == "/dashboard" <==> user.Some?
  {
    if user.None? then RedirectTo("/login") else RedirectTo("/dashboard")
  }
}

/** `app/routes/login.tsx`. */
module LoginRoute {
  import opened Wrappers
  import opened Store
  import opened Http
  import SessionServer

  datatype ActionData = ActionData(error: string)

  const InvalidForm := "Invalid form submission"
  const InvalidCredentials := "Invalid credentials"

  /** A visitor who already has a session is sent on to "/dashboard/"; anyone else gets the form. */
  function Loader(user: Option<Account>): (r: Response<()>)
    ensures r.Redirect? <==> user.Some?
    ensures r.Redirect? ==> r.location == "/dashboard/" && r.session.Unchanged?
  {
    if user.Some? then RedirectTo("/dashboard/") else Reply(())
  }

  /**
   * The login form. A field that is missing or not text (`None`) is refused before any lookup.
   * Otherwise a failed login, for whatever reason, gives the one message "Invalid credentials"
   * and no session; a successful one binds the session to the account and goes to "/dashboard".
   */
  method Action(db: Database, h: Hasher, username: Option<string>, password: Option<string>, now: Time)
    returns (r: Response<ActionData>)
    requires db.Valid()
    modifies db
    ensures db.Valid()
    ensures username.None? || password.None? ==>
      r == Reply(ActionData(InvalidForm)) && db.users == old(db.users)
    ensures username.Some? && password.Some? ==>
      var found := FindByUsername(old(db.users), username.value);
      if found.Some? && h.compare(password.value, old(db.users)[found.value].password) then
        && r == Redirect("/dashboard", Commit(found.value))
        && db.users == old(db.users)[found.value := old(db.users)[found.value].(lastLogin := Some(now))]
      else
        r == Reply(ActionData(InvalidCredentials)) && db.users == old(db.users)
    ensures db.links == old(db.links) && db.nextLinkId == old(db.nextLinkId)
  {
    if username.None? || password.None? {
      return Reply(ActionData(InvalidForm));
    }
    var user := SessionServer.Login(db, h, username.value, password.value, now);
    if user.None? {
      return Reply(ActionData(InvalidCredentials));
    }
    r := SessionServer.CreateUserSession(user.value.id, "/dashboard");
  }
}

/** `app/routes/register.tsx`: self-registration, always with the role "user". */
module RegisterRoute {
  import opened Wrappers
  import opened Store
  import opened Http
  import opened Auth
  import UserServer

  /** The error record of the form; a field is present only when its check failed. */
  datatype Errors = Errors(username: Option<seq<string>>, password: Option<seq<string>>,
                           password2: Option<string>)
  {
    /** `Object.keys(errors).length > 0`. */
    predicate Any() { username.Some? || password.Some? || password2.Some? }
  }

  datatype ActionData = ActionData(errors: Errors)

  /**
   * The registration form: every check runs and all failures are reported together, with the
   * account table untouched. With no failure, `register` is called with the role "user" and the
   * visitor is sent to "/" whether or not the database took the row.
   */
  method Action(db: Database, h: Hasher, salt: Salt, newId: UserId, now: Time,
                username: string, password: string, password2: string)
    returns (r: Response<ActionData>)
    requires db.Valid() && newId != ""
    modifies db
    ensures db.Valid()
    ensures r.Reply? <==> !UsernameOk(username) || !PasswordOk(password) || password != password2
    ensures r.Reply? ==>
      var e := r.body.errors;
      ReportsCredentialFailures(e.username, e.password, e.password2, username, password, password2)
    ensures r.Reply? ==> db.users == old(db.users)
    ensures r.Redirect? ==> r == RedirectTo("/")
    ensures r.Redirect? ==>
      db.users == if newId !in old(db.users) && !UsernameTaken(old(db.users), username)
                  then old(db.users)[newId := Account(newId, username, h.hash(password, salt), "user", now, None)]
                  else old(db.users)
    ensures forall id :: id in db.users && id !in old(db.users) ==> db.users[id].role == "user"
    ensures db.links == old(db.links) && db.nextLinkId == old(db.nextLinkId)
  {
    var errors := Errors(None, None, None);
    var usernameResult := ValidateUsername(username);
    if usernameResult.Invalid? {
      errors := errors.(username := Some(usernameResult.errors));
    }
    var passwordResult := ValidatePassword(password);
    if passwordResult.Invalid? {
      errors := errors.(password := Some(passwordResult.errors));
    }
    var passwordCompareResult := ComparePasswords(password, password2);
    if passwordCompareResult.Invalid? {
      errors := errors.(password2 := Some(passwordCompareResult.errors));
    }
    if errors.Any() {
      return Reply(ActionData(errors));
    }
    var role := "user";
    var registered := UserServer.Register(db, h, salt, newId, now, username, password, role);
    r := RedirectTo("/");
  }
}
