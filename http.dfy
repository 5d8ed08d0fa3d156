/**
 * What a loader or an action hands back to the framework: a redirect, which may also set or
 * clear the session cookie, or a value for the page. The session cookie's only payload is the
 * account id stored under "userId"; signing and the cookie attributes are the framework's.
 */
module Http {
  import opened Wrappers
  import opened Store

  /** What a response does to the session cookie. */
  datatype SessionChange = Unchanged | Commit(userId: UserId) | Destroy

  datatype Response<T> = Redirect(location: string, session: SessionChange) | Reply(body: T)

  /** A plain redirect that leaves the session alone. */
  function RedirectTo<T>(location: string): Response<T>
  {
    Redirect(location, Unchanged)
  }

  /** The "userId" the browser's session carries once it has received `r`. */
  function NextSession<T>(session: Option<UserId>, r: Response<T>): Option<UserId>
  {
    match r
    case Reply(_) => session
    case Redirect(_, Unchanged) => session
    case Redirect(_, Commit(id)) => Some(id)
    case Redirect(_, Destroy) => None
  }
}
