// The link mutations: add, edit, and deletion re-confirmed with the acting account's password.
// None of them writes the account table; deletion only reads it.
module LinksServer {
  import opened Wrappers
  import opened Text
  import opened Store

  const AddFailed := "Failed to add the link."
  const WrongUser := "Wrong user, sorry"
  const IncorrectPassword := "Incorrect password."
  const DeleteFailed := "Failed to delete the link."
  const EditFailed := "Failed to edit the link."

  /**
   * `AddLink`: inserts one row with exactly the given link and name, without checking either.
   * When the database refuses the insert, the link table is unchanged.
   */
  method AddLink(db: Database, link: string, nameLink: string, rejected: bool) returns (r: Status)
    requires db.Valid()
    modifies db
    ensures db.Valid()
    ensures r.Succeeded? <==> !rejected
    ensures r.Succeeded? ==>
      && old(db.nextLinkId) !in old(db.links)
      && db.links == old(db.links)[old(db.nextLinkId) := Link(old(db.nextLinkId), link, nameLink)]
    ensures r.Failed? ==> r.error == AddFailed && db.links == old(db.links)
    ensures db.nextLinkId == if r.Succeeded? then old(db.nextLinkId) + 1 else old(db.nextLinkId)
    ensures db.users == old(db.users)
  {
    var created := db.CreateLink(link, nameLink, rejected);
    if created {
      r := Succeeded;
    } else {
      r := Failed(AddFailed);
    }
  }

  /**
   * The result of `deleteLink`, check by check: the acting account must exist, the password must
   * match its digest, and only then is the link whose id is `Number(idToDel)` deleted, which fails
   * when that is not a number or names no link.
   */
  function DeleteLinkOutcome(users: map<UserId, Account>, links: map<LinkId, Link>, h: Hasher,
                             id: UserId, currentUserPassword: string, idToDel: string): Status
  {
    if id !in users then Failed(WrongUser)
    else if !h.compare(currentUserPassword, users[id].password) then Failed(IncorrectPassword)
    else if NumberOf(idToDel).None? || NumberOf(idToDel).value !in links then Failed(DeleteFailed)
    else Succeeded
  }

  /** `deleteLink`. */
  method DeleteLink(db: Database, h: Hasher, id: UserId, currentUserPassword: string, idToDel: string)
    returns (r: Status)
    requires db.Valid()
    modifies db
    ensures db.Valid()
    ensures r == DeleteLinkOutcome(old(db.users), old(db.links), h, id, currentUserPassword, idToDel)
    ensures db.links == if r.Succeeded? then old(db.links) - {NumberOf(idToDel).value} else old(db.links)
    ensures db.users == old(db.users) && db.nextLinkId == old(db.nextLinkId)
  {
    if id !in db.users {
      return Failed(WrongUser);
    }
    var actualUser := db.users[id];
    var isValid := h.compare(currentUserPassword, actualUser.password);
    if !isValid {
      return Failed(IncorrectPassword);
    }
    var target := NumberOf(idToDel);
    if target.None? {
      // `Number` gave NaN, which the ORM refuses as an id
      return Failed(DeleteFailed);
    }
    var deleted := db.DeleteLink(target.value);
    if deleted {
      r := Succeeded;
    } else {
      r := Failed(DeleteFailed);
    }
  }

  /**
   * `EditLink`: overwrites link and name of row `id`, keeping its id. An unknown id is refused
   * by the database and changes nothing.
   */
  method EditLink(db: Database, id: LinkId, link: string, nameLink: string) returns (r: Status)
    requires db.Valid()
    modifies db
    ensures db.Valid()
    ensures r.Succeeded? <==> id in old(db.links)
    ensures r.Succeeded? ==> db.links == old(db.links)[id := Link(id, link, nameLink)]
    ensures r.Failed? ==> r.error == EditFailed && db.links == old(db.links)
    ensures db.users == old(db.users) && db.nextLinkId == old(db.nextLinkId)
  {
    var updated := db.UpdateLink(id, link, nameLink);
    if updated {
      r := Succeeded;
    } else {
      r := Failed(EditFailed);
    }
  }

  /**
   * A successful link deletion removes exactly the row whose id is the numeric value of
   * `idToDel`; the two password checks come first and a failed one leaves every link in place.
   */
  lemma DeleteLinkRemovesOnlyTarget(users: map<UserId, Account>, links: map<LinkId, Link>,
                                    h: Hasher, id: UserId, pw: string, idToDel: string)
    requires DeleteLinkOutcome(users, links, h, id, pw, idToDel).Succeeded?
    ensures id in users && h.compare(pw, users[id].password)
    ensures NumberOf(idToDel).Some? && NumberOf(idToDel).value in links
    ensures forall k :: k in links ==> (k in links - {NumberOf(idToDel).value} <==> k != NumberOf(idToDel).value)
    ensures |links - {NumberOf(idToDel).value}| == |links| - 1
  {
    var n := NumberOf(idToDel).value;
    assert links.Keys == (links - {n}).Keys + {n};
  }

  /**
   * Under the digits-only reading of `Number` that `NumberOf` models, an id string with any other
   * character deletes nothing, even with the right password.
   */
  lemma NonNumericIdDeletesNothing(users: map<UserId, Account>, links: map<LinkId, Link>,
                                   h: Hasher, id: UserId, pw: string, idToDel: string)
    requires exists i :: 0 <= i < |idToDel| && !IsDigit(idToDel[i])
    ensures DeleteLinkOutcome(users, links, h, id, pw, idToDel).Failed?
  {
  }
}
