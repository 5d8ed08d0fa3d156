/**
 * The state the core works on: the account table and the link table of the database (the ORM's
 * `db.user` and `db.links`), the password hasher, and the result shapes the server utilities
 * return.
 */
module Store {
  import opened Wrappers

  /** Account ids are opaque strings generated by the database. */
  type UserId = string
  /** Link ids are the database's auto-incremented integers. */
  type LinkId = int
  /** A stored password digest. */
  type Digest = string
  /** The random salt a digest is made with; randomness is an input of the model. */
  type Salt = string
  /** A clock reading; the clock is an input of the model. */
  type Time = int

  /** A row of the account table. `lastLogin` is empty until the first successful login. */
  datatype Account = Account(
    id: UserId,
    username: string,
    password: Digest,
    role: string,
    createdAt: Time,
    lastLogin: Option<Time>)

  /** A row of the link table. */
  datatype Link = Link(id: LinkId, link: string, name: string)

  /** `{ success: true }` or `{ success: false, error }`, as the server utilities return them. */
  datatype Status = Succeeded | Failed(error: string)

  /**
   * The password hasher as the core uses it: `hash(password, salt)` makes a digest with a fresh
   * salt, `compare(password, digest)` checks a password against a stored digest.
   */
  datatype Hasher = Hasher(hash: (string, Salt) -> Digest, compare: (string, Digest) -> bool)

  /** The one thing the core relies on: a password matches every digest made from it. */
  ghost predicate RoundTrips(h: Hasher)
  {
    forall password, salt :: h.compare(password, h.hash(password, salt))
  }

  predicate UsernameTaken(users: map<UserId, Account>, username: string)
  {
    exists id :: id in users && users[id].username == username
  }

  /** The unique constraint on the username column. */
  predicate UniqueUsernames(users: map<UserId, Account>)
  {
    forall a, b :: a in users && b in users && users[a].username == users[b].username ==> a == b
  }

  /** Every account is stored under its own id, and no two accounts share a username. */
  predicate WellFormedUsers(users: map<UserId, Account>)
  {
    && (forall id :: id in users ==> users[id].id == id)
    && UniqueUsernames(users)
  }

  /** `db.user.findUnique({ where: { username } })`: the id of the account with that username. */
  function FindByUsername(users: map<UserId, Account>, username: string): (r: Option<UserId>)
    requires UniqueUsernames(users)
    ensures r.None? <==> !UsernameTaken(users, username)
    ensures r.Some? ==> r.value in users && users[r.value].username == username
  {
    if UsernameTaken(users, username) then
      var id :| id in users && users[id].username == username;
      Some(id)
    else
      None
  }

  /** The account with that username is the only one that `FindByUsername` can return. */
  lemma FindByUsernameUnique(users: map<UserId, Account>, id: UserId)
    requires UniqueUsernames(users) && id in users
    ensures FindByUsername(users, users[id].username) == Some(id)
  {
    var r := FindByUsername(users, users[id].username);
    assert UsernameTaken(users, users[id].username);
    assert r.Some? && users[r.value].username == users[id].username;
  }

  /**
   * The database: the account table, the link table and the link table's auto-increment
   * counter. Its methods are the table operations the core calls; each fails, as the ORM throws,
   * exactly when a constraint of the table is violated or the row does not exist.
   */
  class Database {
    var users: map<UserId, Account>
    var links: map<LinkId, Link>
    var nextLinkId: LinkId

    ghost predicate Valid()
      reads this
    {
      && WellFormedUsers(users)
      && "" !in users
      && 1 <= nextLinkId
      && (forall id :: id in links ==> links[id].id == id && 1 <= id < nextLinkId)
    }

    constructor ()
      ensures Valid()
      ensures users == map[] && links == map[] && nextLinkId == 1
    {
      users := map[];
      links := map[];
      nextLinkId := 1;
    }

    /**
     * `db.user.create`: refused when the id or the username is already in use. The id is the one
     * the ORM generates, which is never empty.
     */
    method CreateUser(id: UserId, username: string, password: Digest, role: string, now: Time)
      returns (ok: bool)
      requires Valid() && id != ""
      modifies this
      ensures Valid()
      ensures ok <==> id !in old(users) && !UsernameTaken(old(users), username)
      ensures users == if ok then old(users)[id := Account(id, username, password, role, now, None)]
                       else old(users)
      ensures links == old(links) && nextLinkId == old(nextLinkId)
    {
      ok := id !in users && !UsernameTaken(users, username);
      if ok {
        users := users[id := Account(id, username, password, role, now, None)];
      }
    }

    /** `db.user.update` of the password column: refused when there is no such account. */
    method UpdatePassword(id: UserId, password: Digest) returns (ok: bool)
      requires Valid()
      modifies this
      ensures Valid()
      ensures ok <==> id in old(users)
      ensures users == if ok then old(users)[id := old(users)[id].(password := password)]
                       else old(users)
      ensures links == old(links) && nextLinkId == old(nextLinkId)
    {
      ok := id in users;
      if ok {
        users := users[id := users[id].(password := password)];
      }
    }

    /** `db.user.update` of the last-login column, for an account just read. */
    method UpdateLastLogin(id: UserId, now: Time)
      requires Valid() && id in users
      modifies this
      ensures Valid()
      ensures users == old(users)[id := old(users)[id].(lastLogin := Some(now))]
      ensures links == old(links) && nextLinkId == old(nextLinkId)
    {
      users := users[id := users[id].(lastLogin := Some(now))];
    }

    /** `db.user.delete`: refused when there is no such account. */
    method DeleteUser(id: UserId) returns (ok: bool)
      requires Valid()
      modifies this
      ensures Valid()
      ensures ok <==> id in old(users)
      ensures users == old(users) - {id}
      ensures links == old(links) && nextLinkId == old(nextLinkId)
    {
      ok := id in users;
      users := users - {id};
    }

    /**
     * `db.links.create`: the row gets the next auto-increment id. `rejected` says that the
     * database refused the insert for a reason this model does not see (a lost connection, a
     * constraint of a schema that is not part of the model).
     */
    method CreateLink(link: string, name: string, rejected: bool) returns (ok: bool)
      requires Valid()
      modifies this
      ensures Valid()
      ensures ok <==> !rejected
      ensures links == if ok then old(links)[old(nextLinkId) := Link(old(nextLinkId), link, name)]
                       else old(links)
      ensures nextLinkId == if ok then old(nextLinkId) + 1 else old(nextLinkId)
      ensures old(nextLinkId) !in old(links)
      ensures users == old(users)
    {
      ok := !rejected;
      if ok {
        links := links[nextLinkId := Link(nextLinkId, link, name)];
        nextLinkId := nextLinkId + 1;
      }
    }

    /** `db.links.update` of link and name: refused when there is no such link. */
    method UpdateLink(id: LinkId, link: string, name: string) returns (ok: bool)
      requires Valid()
      modifies this
      ensures Valid()
      ensures ok <==> id in old(links)
      ensures links == if ok then old(links)[id := Link(id, link, name)] else old(links)
      ensures users == old(users) && nextLinkId == old(nextLinkId)
    {
      ok := id in links;
      if ok {
        links := links[id := Link(id, link, name)];
      }
    }

    /** `db.links.delete`: refused when there is no such link. */
    method DeleteLink(id: LinkId) returns (ok: bool)
      requires Valid()
      modifies this
      ensures Valid()
      ensures ok <==> id in old(links)
      ensures links == old(links) - {id}
      ensures users == old(users) && nextLinkId == old(nextLinkId)
    {
      ok := id in links;
      links := links - {id};
    }
  }
}
