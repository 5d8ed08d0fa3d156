// The link-administration pages under "/dashboard/links". Only their loaders check the role.

/** `app/routes/_dashboard.dashboard.links._index.tsx`: forwards an admin to the list. */
module LinksIndexRoute {
  import opened Wrappers
  import opened Store
  import opened Http
  import opened Access

  /** Never returns data: a non-admin goes to "/login", an admin to "/dashboard/links/list". */
  function Loader(user: Option<Account>): (r: Response<()>)
    ensures r.Redirect? && r.session.Unchanged?
    ensures r.location == "/login" <==> user.None? || user.value.role != "admin"
    ensures r.location == "/dashboard/links/list" <==> user.Some? && user.value.role == "admin"
  {
    if !IsAdmin(user) then RedirectTo("/login") else RedirectTo("/dashboard/links/list")
  }
}

/** `app/routes/_dashboard.dashboard.links.list.tsx`: the link table with its Edit buttons. */
module LinksListRoute {
  import opened Wrappers
  import opened Store
  import opened Http
  import opened Access

  /** The page data: every link (id, link and name is the whole row) and the viewing account. */
  datatype ListData = ListData(links: set<Link>, user: Account)

  /**
   * A non-admin is sent to "/login"; an admin gets every link and nothing else, together with the
   * admin's own account record as the session resolved it.
   */
  function Loader(user: Option<Account>, links: map<LinkId, Link>): (r: Response<ListData>)
    ensures r.Redirect? <==> user.None? || user.value.role != "admin"
    ensures r.Redirect? ==> r == RedirectTo("/login")
    ensures r.Reply? ==> r.body.user == user.value
    ensures r.Reply? ==> forall id :: id in links ==> links[id] in r.body.links
    ensures r.Reply? ==> forall l :: l in r.body.links ==> exists id :: id in links && links[id] == l
  {
    if !IsAdmin(user) then RedirectTo("/login")
    else Reply(ListData(set id | id in links :: links[id], user.value))
  }

  /** The Edit button of every row depends on the viewer only. */
  predicate EditVisible(viewer: Account)
  {
    viewer.role == "admin"
  }

  /** Whoever gets the list past the gate sees the Edit button on every row. */
  lemma EditOnEveryRow(user: Option<Account>, links: map<LinkId, Link>)
    requires Loader(user, links).Reply?
    ensures EditVisible(Loader(user, links).body.user)
  {
  }

  /**
   * The reply carries the viewer's whole account record, so its password digest reaches the page
   * data: two sessions that differ only in the stored digest give different replies.
   */
  lemma ReplyCarriesDigest(user: Account, links: map<LinkId, Link>, digest: Digest)
    requires user.role == "admin" && digest != user.password
    ensures Loader(Some(user), links).Reply?
    ensures Loader(Some(user), links).body.user.password == user.password
    ensures Loader(Some(user), links) != Loader(Some(user.(password := digest)), links)
  {
    assert Loader(Some(user.(password := digest)), links).body.user.password == digest;
  }
}

/** `app/routes/_dashboard.dashboard.links.add-link.tsx`: the form that adds a link. */
module AddLinkRoute {
  import opened Wrappers
  import opened Text
  import opened Store
  import opened Http
  import opened Access

  const NotValidLink := "Not valid link to website"
  const BadNameLength := "Name length can be minimum 3 and maximum 24 characters"
  const SaveFailed := "An error occurred while saving the data."

  datatype Errors = Errors(linkError: Option<string>, nameError: Option<string>)
  {
    /** `Object.keys(errors).length > 0`. */
    predicate Any() { linkError.Some? || nameError.Some? }
  }

  datatype ActionData = ActionData(errors: Errors)

  /** A non-admin is sent to "/login"; an admin gets the form. */
  function Loader(user: Option<Account>): (r: Response<()>)
    ensures r.Redirect? <==> user.None? || user.value.role != "admin"
    ensures r.Redirect? ==> r == RedirectTo("/login")
  {
    if !IsAdmin(user) then RedirectTo("/login") else Reply(())
  }

  /**
   * The form, with no session or role check of its own. A link without a "." and a name whose
   * JavaScript length (UTF-16 code units) is outside 3..24 are both reported, and then nothing is
   * created. Otherwise exactly one link is inserted under the counter's id, the counter advances,
   * and the response goes to "/dashboard/links/list"; when the database refuses the insert
   * (`rejected`), the one error is a save failure reported as `linkError`.
   */
  method Action(db: Database, link: string, nameLink: string, rejected: bool) returns (r: Response<ActionData>)
    requires db.Valid()
    modifies db
    ensures db.Valid()
    ensures r.Reply? <==> '.' !in link || Utf16Length(nameLink) < 3 || 24 < Utf16Length(nameLink) || rejected
    ensures '.' !in link || Utf16Length(nameLink) < 3 || 24 < Utf16Length(nameLink) ==>
      && r.Reply?
      && (r.body.errors.linkError.Some? <==> '.' !in link)
      && (r.body.errors.linkError.Some? ==> r.body.errors.linkError.value == NotValidLink)
      && (r.body.errors.nameError.Some? <==> Utf16Length(nameLink) < 3 || 24 < Utf16Length(nameLink))
      && (r.body.errors.nameError.Some? ==> r.body.errors.nameError.value == BadNameLength)
    ensures r.Reply? ==> db.links == old(db.links) && db.nextLinkId == old(db.nextLinkId)
    ensures !('.' !in link || Utf16Length(nameLink) < 3 || 24 < Utf16Length(nameLink)) && rejected ==>
      r == Reply(ActionData(Errors(Some(SaveFailed), None)))
    ensures r.Redirect? ==>
      && r == RedirectTo("/dashboard/links/list")
      && old(db.nextLinkId) !in old(db.links)
      && db.links == old(db.links)[old(db.nextLinkId) := Link(old(db.nextLinkId), link, nameLink)]
      && db.nextLinkId == old(db.nextLinkId) + 1
    ensures db.users == old(db.users)
  {
    var errors := Errors(None, None);
    IncludesChar(link, '.');
    if !Includes(link, ".") {
      errors := errors.(linkError := Some(NotValidLink));
    }
    if Utf16Length(nameLink) > 24 || Utf16Length(nameLink) < 3 {
      errors := errors.(nameError := Some(BadNameLength));
    }
    if errors.Any() {
      return Reply(ActionData(errors));
    }
    var created := db.CreateLink(link, nameLink, rejected);
    if created {
      r := RedirectTo("/dashboard/links/list");
    } else {
      r := Reply(ActionData(Errors(Some(SaveFailed), None)));
    }
  }

  /**
   * Wherever it stands in a name, a character beyond U+FFFF adds two to the length the action
   * compares with 3 and 24, and any other character adds one.
   */
  lemma AstralCharacterCountsTwice(before: string, c: char, after: string)
    ensures Utf16Length(before + [c] + after)
            == Utf16Length(before) + (if IsAstral(c) then 2 else 1) + Utf16Length(after)
  {
    Utf16LengthAppend(before + [c], after);
    Utf16LengthAppend(before, [c]);
    Utf16LengthChar(c);
  }
}
