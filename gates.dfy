/**
 * The role gate across the whole dashboard. Every page under "/dashboard/users" and
 * "/dashboard/links" admits admins only, the other dashboard pages admit any logged-in account,
 * and the navigation offers exactly the sections the viewer may open. The gates sit in the
 * loaders alone; the actions behind them check nothing (see `DeleteUserRoute.AnyAccountCanDelete`).
 */
module Gates {
  import opened Wrappers
  import opened Store
  import opened Http
  import SessionServer
  import RootIndexRoute
  import LoginRoute
  import UsersIndexRoute
  import UsersListRoute
  import CreateUserRoute
  import DeleteUserRoute
  import LinksIndexRoute
  import LinksListRoute
  import AddLinkRoute
  import DashboardLayoutRoute
  import DashboardIndexRoute
  import DockerRoute

  /** Every admin-only loader sends exactly the anonymous visitors and the non-admins to "/login". */
  lemma AdminOnlyPages(user: Option<Account>, users: map<UserId, Account>, links: map<LinkId, Link>)
    ensures var turnedAway := user.None? || user.value.role != "admin";
      && (UsersIndexRoute.Loader(user) == RedirectTo("/login") <==> turnedAway)
      && (UsersListRoute.Loader(user, users) == RedirectTo("/login") <==> turnedAway)
      && (CreateUserRoute.Loader(user) == RedirectTo("/login") <==> turnedAway)
      && (DeleteUserRoute.Loader(user) == RedirectTo("/login") <==> turnedAway)
      && (LinksIndexRoute.Loader(user) == RedirectTo("/login") <==> turnedAway)
      && (LinksListRoute.Loader(user, links) == RedirectTo("/login") <==> turnedAway)
      && (AddLinkRoute.Loader(user) == RedirectTo("/login") <==> turnedAway)
  {
  }

  /** The other dashboard loaders turn away only the anonymous visitor, whatever the role. */
  lemma SignedInPages(user: Option<Account>, links: map<LinkId, Link>, containers: seq<string>)
    ensures DashboardLayoutRoute.Loader(user) == RedirectTo("/login") <==> user.None?
    ensures DashboardIndexRoute.Loader(user, links) == RedirectTo("/login") <==> user.None?
    ensures DockerRoute.Loader(user, containers) == RedirectTo("/login") <==> user.None?
    ensures RootIndexRoute.Loader(user) == RedirectTo("/login") <==> user.None?
    ensures LoginRoute.Loader(user).Reply? <==> user.None?
  {
  }

  /** A navigation entry is shown exactly when the page behind it lets the viewer in. */
  lemma NavigationMatchesGates(user: Account, links: map<LinkId, Link>, containers: seq<string>)
    ensures DashboardLayoutRoute.UsersEntry in DashboardLayoutRoute.NavEntries(user)
            <==> UsersIndexRoute.Loader(Some(user)) != RedirectTo("/login")
    ensures DashboardLayoutRoute.LinksEntry in DashboardLayoutRoute.NavEntries(user)
            <==> LinksIndexRoute.Loader(Some(user)) != RedirectTo("/login")
    ensures DashboardLayoutRoute.DashboardEntry in DashboardLayoutRoute.NavEntries(user)
            && DashboardIndexRoute.Loader(Some(user), links).Reply?
    ensures DashboardLayoutRoute.DockerEntry in DashboardLayoutRoute.NavEntries(user)
            && DockerRoute.Loader(Some(user), containers).Reply?
  {
    var nav := DashboardLayoutRoute.NavEntries(user);
    assert nav[0] == DashboardLayoutRoute.DashboardEntry && nav[1] == DashboardLayoutRoute.DockerEntry;
  }

  /**
   * After logging out from either dashboard page, the same browser is anonymous again: every
   * dashboard loader sends it to "/login".
   */
  lemma LogoutLocksDashboard(users: map<UserId, Account>, session: Option<UserId>,
                             links: map<LinkId, Link>, containers: seq<string>)
    ensures var after := NextSession(session, DashboardLayoutRoute.Action(session));
      && after == NextSession(session, DashboardIndexRoute.Action(session))
      && var user := SessionServer.GetUser(users, after);
      && DashboardLayoutRoute.Loader(user) == RedirectTo("/login")
      && DashboardIndexRoute.Loader(user, links) == RedirectTo("/login")
      && DockerRoute.Loader(user, containers) == RedirectTo("/login")
      && UsersIndexRoute.Loader(user) == RedirectTo("/login")
      && UsersListRoute.Loader(user, users) == RedirectTo("/login")
      && CreateUserRoute.Loader(user) == RedirectTo("/login")
      && DeleteUserRoute.Loader(user) == RedirectTo("/login")
      && LinksIndexRoute.Loader(user) == RedirectTo("/login")
      && LinksListRoute.Loader(user, links) == RedirectTo("/login")
      && AddLinkRoute.Loader(user) == RedirectTo("/login")
  {
  }
}
