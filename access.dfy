/** The two access rules the loaders apply to the account the session resolves to. */
module Access {
  import opened Wrappers
  import opened Store

  /** Somebody is logged in (`user` is truthy). */
  predicate SignedIn(user: Option<Account>) { user.Some? }

  /** The negation of the admin gate `!user || user.role !== "admin"`. */
  predicate IsAdmin(user: Option<Account>) { user.Some? && user.value.role == "admin" }
}
