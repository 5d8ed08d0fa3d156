// The pages every logged-in account may open, whatever its role.

/** `app/routes/_dashboard.tsx`: the layout around every dashboard page, with its navigation and logout. */
module DashboardLayoutRoute {
  import opened Wrappers
  import opened Store
  import opened Http
  import opened Access
  import SessionServer

  /** Anonymous visitors go to "/login"; any logged-in account gets its own account record back. */
  function Loader(user: Option<Account>): (r: Response<Account>)
    ensures r.Redirect? <==> user.None?
    ensures r.Redirect? ==> r == RedirectTo("/login")
    ensures r.Reply? ==> r.body == user.value
  {
    if !SignedIn(user) then RedirectTo("/login") else Reply(user.value)
  }

  /** Logout: the session is destroyed unconditionally. */
  function Action(session: Option<UserId>): (r: Response<()>)
    ensures r.Redirect? && r.location == "/"
    ensures NextSession(session, r).None?
  {
    SessionServer.DestroyUserSession()
  }

  /** A navigation link: its title and target path. */
  datatype NavEntry = NavEntry(title: string, path: string)

  const DashboardEntry := NavEntry("Dashboard", "/dashboard/")
  const DockerEntry := NavEntry("Docker", "/dashboard/docker")
  const UsersEntry := NavEntry("Users", "/dashboard/users")
  const LinksEntry := NavEntry("Links", "/dashboard/links")

  /** The side navigation for `user`: Dashboard and Docker always, then Users and Links for an admin only. */
  function NavEntries(user: Account): (r: seq<NavEntry>)
    ensures |r| >= 2 && r[..2] == [DashboardEntry, DockerEntry]
    ensures UsersEntry in r <==> user.role == "admin"
    ensures LinksEntry in r <==> user.role == "admin"
    ensures user.role == "admin" ==> r == [DashboardEntry, DockerEntry, UsersEntry, LinksEntry]
    ensures user.role != "admin" ==> |r| == 2
  {
    [DashboardEntry, DockerEntry] + (if user.role != "admin" then [] else [UsersEntry, LinksEntry])
  }
}

/** `app/routes/_dashboard.dashboard._index.tsx`: the link launcher. */
module DashboardIndexRoute {
  import opened Wrappers
  import opened Store
  import opened Http
  import opened Access
  import SessionServer

  /** Anonymous visitors go to "/login"; any logged-in account, of any role, gets every link. */
  function Loader(user: Option<Account>, links: map<LinkId, Link>): (r: Response<set<Link>>)
    ensures r.Redirect? <==> user.None?
    ensures r.Redirect? ==> r == RedirectTo("/login")
    ensures r.Reply? ==> forall id :: id in links ==> links[id] in r.body
    ensures r.Reply? ==> forall l :: l in r.body ==> exists id :: id in links && links[id] == l
  {
    if !SignedIn(user) then RedirectTo("/login")
    else Reply(set id | id in links :: links[id])
  }

  /** Logout: the session is destroyed unconditionally. */
  function Action(session: Option<UserId>): (r: Response<()>)
    ensures r.Redirect? && r.location == "/"
    ensures NextSession(session, r).None?
  {
    SessionServer.DestroyUserSession()
  }

  const HttpScheme := "http://"
  const HttpsScheme := "https://"

  /**
   * `normalizeUrl`: a link with an http or https scheme is kept, any other text is prefixed with
   * "http://". The stored link always survives as the tail of the result.
   */
  function NormalizeUrl(url: string): (r: string)
    ensures HttpScheme <= r || HttpsScheme <= r
    ensures r == url <==> HttpScheme <= url || HttpsScheme <= url
    ensures r != url ==> r == HttpScheme + url
    ensures |url| <= |r| && r[|r| - |url|..] == url
  {
    if HttpScheme <= url || HttpsScheme <= url then url else HttpScheme + url
  }

  /** Normalising twice is normalising once. */
  lemma NormalizeUrlIdempotent(url: string)
    ensures NormalizeUrl(NormalizeUrl(url)) == NormalizeUrl(url)
  {
  }
}

/** `app/routes/_dashboard.dashboard.docker.tsx`: the container status page. */
module DockerRoute {
  import opened Wrappers
  import opened Text
  import opened Store
  import opened Http
  import opened Access

  /** Anonymous visitors go to "/login"; any logged-in account gets the container lines as read from the host. */
  function Loader(user: Option<Account>, containers: seq<string>): (r: Response<seq<string>>)
    ensures r.Redirect? <==> user.None?
    ensures r.Redirect? ==> r == RedirectTo("/login")
    ensures r.Reply? ==> r.body == containers
  {
    if !SignedIn(user) then RedirectTo("/login") else Reply(containers)
  }

  /** One table row: the container's name, its status text, and whether it counts as running. */
  datatype ContainerRow = ContainerRow(name: string, status: string, isUp: bool)

  /** `isUp`: the status contains "Up", with that capitalisation. */
  function IsUp(status: string): (r: bool)
    ensures r <==> exists i: nat :: i + 1 < |status| && status[i] == 'U' && status[i + 1] == 'p'
  {
    IncludesPair(status, 'U', 'p');
    Includes(status, "Up")
  }

  /**
   * The row rendered for one line of `docker ps`-style output: the name is the text before the
   * first ":", the status the text up to the next ":". A line without ":" has no status, and the
   * page's `status.includes` call fails on it (`None`).
   */
  function ParseContainer(line: string): (r: Option<ContainerRow>)
    ensures r.None? <==> ':' !in line
    ensures r.Some? ==> ':' !in r.value.name && ':' !in r.value.status
    ensures r.Some? ==> exists rest :: line == r.value.name + ":" + r.value.status + rest
                                       && (rest == [] || rest[0] == ':')
    ensures r.Some? ==> r.value.isUp == IsUp(r.value.status)
  {
    match FirstTwoFields(line, ':')
    case None => None
    case Some((containerName, status)) => Some(ContainerRow(containerName, status, IsUp(status)))
  }

  /** Lines formatted as "name:status" give back exactly that name and status. */
  lemma ParseContainerFormatted(name: string, status: string)
    requires ':' !in name && ':' !in status
    ensures ParseContainer(name + ":" + status) == Some(ContainerRow(name, status, IsUp(status)))
  {
    var line := name + ":" + status;
    assert ':' in line by { assert line[|name|] == ':'; }
    var row := ParseContainer(line).value;
    var rest :| line == row.name + ":" + row.status + rest && (rest == [] || rest[0] == ':');
    SplitUnique(name, status, [], row.name, row.status, rest);
  }

  /** A "name:status" decomposition of a line, with colon-free name and status, is unique. */
  lemma SplitUnique(n1: string, s1: string, rest1: string, n2: string, s2: string, rest2: string)
    requires ':' !in n1 && ':' !in s1 && ':' !in n2 && ':' !in s2
    requires rest1 == [] || rest1[0] == ':'
    requires rest2 == [] || rest2[0] == ':'
    requires n1 + ":" + s1 + rest1 == n2 + ":" + s2 + rest2
    ensures n1 == n2 && s1 == s2 && rest1 == rest2
  {
    var line := n1 + ":" + s1 + rest1;
    // the first ':' of the line closes both names
    assert line[|n1|] == ':' && line[|n2|] == ':';
    assert forall j :: 0 <= j < |n1| ==> line[j] == n1[j];
    assert forall j :: 0 <= j < |n2| ==> line[j] == n2[j];
    assert |n1| == |n2|;
    assert n1 == line[..|n1|] == n2;
    var tail := line[|n1| + 1..];
    assert tail == s1 + rest1 && tail == s2 + rest2;
    // the next ':' (or the end of the line) closes both statuses
    assert |s1| == |tail| || tail[|s1|] == ':';
    assert |s2| == |tail| || tail[|s2|] == ':';
    assert forall j :: 0 <= j < |s1| ==> tail[j] == s1[j];
    assert forall j :: 0 <= j < |s2| ==> tail[j] == s2[j];
    assert |s1| == |s2|;
    assert s1 == tail[..|s1|] == s2;
    assert rest1 == tail[|s1|..] == rest2;
  }
}
