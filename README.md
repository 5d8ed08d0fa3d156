# Datacore dashboard: credentials, sessions and the role gate

This project models the core of a small Remix admin dashboard. The model covers:

- the credential rules for usernames and passwords;
- registration, password change and account deletion;
- the link table operations;
- login and the session cookie's "userId";
- the loaders and actions of every page.

Each dashboard page either admits any logged-in account, or admits admins only. The two pages outside the dashboard differ: the login page shows its form only to anonymous visitors, and the root page admits nobody, since it always redirects.

The database is the `Store.Database` class. It holds:

- the account table, as a map from id to row;
- the link table, as a map from id to row;
- the link table's auto-increment counter.

The server utilities that change these tables are methods of the modules `UserServer`, `LinksServer` and `SessionServer`. Each method states the new tables in full. The pure parts are functions: the validators, `getUser`, every loader, `normalizeUrl` and the container-line split. Lemmas relate them to one another. For example:

- registering and then logging in finds the new account;
- logging out makes every dashboard loader redirect to "/login";
- every admin-only loader turns away exactly the non-admins;
- the navigation shows exactly the sections whose loaders admit the viewer.

The password hasher is abstract: `Store.Hasher` is a pair of functions. The one assumption about it is `Store.RoundTrips`: a password compares equal to every digest made from it. Salts, the clock, new account ids, the container list and the database's refusal of a link insert are all inputs.

Routes are modules named after their files: `LoginRoute`, `RegisterRoute`, `RootIndexRoute`, `UsersIndexRoute`, `UsersListRoute`, `CreateUserRoute`, `DeleteUserRoute`, `LinksIndexRoute`, `LinksListRoute`, `AddLinkRoute`, `DashboardLayoutRoute`, `DashboardIndexRoute` and `DockerRoute`. Each loader takes the account that `getUser` resolved the session to (`Option<Account>`). Each returns a `Http.Response`: a redirect, which may commit or destroy the session, or the page data.

Some behaviour of the code, as written, is stated and proved here rather than corrected:

- **Only the loaders check the role.** The actions of the admin pages have no session or role check of their own. `DeleteUserRoute.AnyAccountCanDelete` shows that any logged-in account deletes any account once it re-enters its own password. `UserServer.DeleteIgnoresRoles` shows that the outcome of `deleteUser` never depends on a role.
- **Two loaders return the whole account record, digest included.** These are the layout loader and the link-list loader (`LinksListRoute.ReplyCarriesDigest`). The user list, by contrast, projects the digest away (`UsersListRoute.LoaderHidesDigests`).
- **`changePassword` does not ask for the old password.**
- **Registration redirects to "/" whatever `register` reports**, including a username that is already taken. The create-user page does the same with "/dashboard/users".
- **An account with role "user" is the only kind self-registration can create** (`RegisterRoute.Action`). The create-user action accepts "admin" or "user".
- **Role is kept as a free string** (only "admin" is special), as the code compares it.

## Model

| member | source | states |
|---|---|---|
| Text.Exists | app/utils/auth.server.ts:24-25 | a regular-expression character test holds iff some character of the string satisfies the class |
| Text.Includes | app/routes/_dashboard.dashboard.docker.tsx:46 | `includes` holds iff the pattern occurs at some position of the string |
| Text.IncludesChar | app/routes/_dashboard.dashboard.links.add-link.tsx:31 | for a one-character pattern, `includes` is membership of that character |
| Text.IncludesPair | app/routes/_dashboard.dashboard.docker.tsx:46 | for a two-character pattern, `includes` asks for the two characters side by side |
| Text.IndexOf | app/routes/_dashboard.dashboard.docker.tsx:43 | the first position of a character: none iff it is absent, otherwise it holds the character and nothing before it does |
| Text.FirstTwoFields | app/routes/_dashboard.dashboard.docker.tsx:43 | the first two fields of `split`: missing iff there is no separator; neither field contains it; the line is field, separator, field, then the end or another separator |
| Text.NumberOf | app/utils/links.server.ts:57 | `Number` of an id string: the empty string gives 0, and there is a number iff every character is a decimal digit |
| Text.Decimal | app/utils/links.server.ts:57 | the decimal numeral of a number: non-empty and made of digits only |
| Text.NumberOfDecimal | app/utils/links.server.ts:57 | `Number` reads the decimal numeral of every n back as n |
| Text.NumberOfLeadingZero | app/utils/links.server.ts:57 | a leading "0" does not change the number an id string denotes |
| Text.Utf16Length | app/routes/_dashboard.dashboard.links.add-link.tsx:35 | JavaScript's `length`: at least the character count and at most twice it, and more than it when the first character lies beyond U+FFFF |
| Text.Utf16LengthChar | app/routes/_dashboard.dashboard.links.add-link.tsx:35 | one character is one code unit, or two when it lies beyond U+FFFF |
| Text.Utf16LengthAppend | app/routes/_dashboard.dashboard.links.add-link.tsx:35 | the length of a concatenation is the sum of the lengths of its parts |
| Text.Utf16LengthIsCount | app/routes/_dashboard.dashboard.links.add-link.tsx:35 | the JavaScript length equals the character count iff no character lies beyond U+FFFF |
| Text.SelectIsSubsequence | app/utils/auth.server.ts:20-27 | the messages of failed checks are a subsequence of the declared messages, in declaration order |
| Text.SelectMember | app/utils/auth.server.ts:20-27 | a message is reported iff some check carrying it failed |
| Text.SelectAt | app/utils/auth.server.ts:20-27 | with distinct messages, a check's message is reported iff that check failed |
| Text.SelectEmpty | app/utils/auth.server.ts:27-33 | no message is reported iff no check failed |
| Text.SelectShorter | app/utils/auth.server.ts:20-27 | when some check passes, fewer messages than checks are reported |
| Text.SelectAtMost | app/utils/auth.server.ts:20-27 | never more messages than checks |
| Store.FindByUsername | app/utils/session.server.ts:23 | the lookup by the unique username: none iff no account has it, otherwise an account that has it |
| Store.FindByUsernameUnique | app/utils/session.server.ts:23 | under the unique constraint, the lookup returns exactly the account holding the username |
| Store.Database.CreateUser | app/utils/user.server.ts:31-38 | for a generated (non-empty) id, the insert is refused iff the id or the username is already in use; otherwise exactly the new row is added |
| Store.Database.UpdatePassword | app/utils/user.server.ts:52-57 | only the password column of an existing row changes; an unknown id is refused |
| Store.Database.UpdateLastLogin | app/utils/session.server.ts:31-34 | only `lastLogin` of the given row changes |
| Store.Database.DeleteUser | app/utils/user.server.ts:82-84 | removes exactly the given row; an unknown id is refused |
| Store.Database.CreateLink | app/utils/links.server.ts:26-31 | adds one row under the next auto-increment id, which was unused, and advances the counter; a refused insert changes nothing |
| Store.Database.UpdateLink | app/utils/links.server.ts:72-78 | overwrites link and name of an existing row, keeping its id; an unknown id is refused |
| Store.Database.DeleteLink | app/utils/links.server.ts:56-58 | removes exactly the given row; an unknown id is refused |
| Auth.ValidateUsername | app/utils/auth.server.ts:19-34 | valid iff 6 to 16 UTF-16 code units long, an ASCII capital, no white space; each rule's message is reported iff that rule fails, in declaration order, 1 to 3 of them |
| Auth.ValidatePassword | app/utils/auth.server.ts:63-80 | valid iff 8 to 32 UTF-16 code units long, a capital, no white space, a digit and a listed symbol; each message iff its rule fails, in order, 1 to 5 of them |
| Auth.ComparePasswords | app/utils/auth.server.ts:87-93 | valid iff the two entries are equal, otherwise the one mismatch message |
| Auth.ValidateActualPassword | app/utils/auth.server.ts:40-57 | valid iff the account exists and the password matches its digest; "User not validated" for an unknown id, "Password incorrect" for a wrong password |
| Auth.OnlyListedSymbolsCount | app/utils/auth.server.ts:71 | a password with no character from the listed symbol class fails with the special-character message |
| Auth.OwnPasswordValidates | app/utils/auth.server.ts:48-56 | with a round-tripping hasher, the password a digest was made from passes the check |
| SessionServer.Login | app/utils/session.server.ts:22-37 | succeeds iff the username is found and the password matches its digest; it returns that account's id, username and role, records the login time on that account only, and changes nothing on failure |
| SessionServer.CreateUserSession | app/utils/session.server.ts:42-51 | redirects to the given path, and afterwards the session carries exactly the given id |
| SessionServer.GetUser | app/utils/session.server.ts:55-63 | an account iff the session holds a non-empty id that is in the table, and then the row under that id |
| SessionServer.DestroyUserSession | app/utils/session.server.ts:67-76 | redirects to "/", and afterwards the session carries no id |
| SessionServer.SessionRoundTrip | app/utils/session.server.ts:42-76 | a session bound to an existing account resolves to it; a destroyed one resolves to nobody |
| SessionServer.DeletedAccountSession | app/utils/session.server.ts:62 | a session whose account was deleted resolves to nobody |
| UserServer.Register | app/utils/user.server.ts:27-43 | succeeds iff the id and username are unused, adding exactly one row with the given username, role and a digest of the password; otherwise "Failed to register user" and no change |
| UserServer.ChangePassword | app/utils/user.server.ts:47-62 | succeeds iff the account exists; only its digest changes, and the new password then verifies; otherwise "Failed to change password" and no change |
| UserServer.DeleteUser | app/utils/user.server.ts:66-89 | the outcome follows the checks (acting account, its password, target) and the table loses the target only on success |
| UserServer.DeleteRemovesOnlyTarget | app/utils/user.server.ts:81-85 | a successful deletion removes exactly one row, the target, and keeps every other row |
| UserServer.DeleteIgnoresRoles | app/utils/user.server.ts:66-89 | the outcome depends only on which accounts exist and on their digests, never on a role |
| UserServer.DeleteErrorPrecedence | app/utils/user.server.ts:67-88 | a missing acting account is reported before a wrong password, and a wrong password before a missing target |
| UserServer.RegisteredPasswordLogsIn | app/utils/user.server.ts:27-39 | after a successful registration, the lookup by the new username finds the new account and its password verifies |
| LinksServer.AddLink | app/utils/links.server.ts:23-36 | succeeds iff the insert is taken, adding exactly one row with the given link and name under the counter's fresh id and advancing the counter by one; otherwise "Failed to add the link.", no new row and the counter unchanged |
| LinksServer.DeleteLink | app/utils/links.server.ts:42-63 | the outcome follows the checks (acting account, its password, the numeric link id) and the link table loses that id only on success |
| LinksServer.EditLink | app/utils/links.server.ts:69-83 | succeeds iff the id exists, overwriting only that row's link and name; otherwise "Failed to edit the link." and no change |
| LinksServer.DeleteLinkRemovesOnlyTarget | app/utils/links.server.ts:55-59 | a successful link deletion passed both password checks and removes exactly one existing row |
| LinksServer.NonNumericIdDeletesNothing | app/utils/links.server.ts:57 | under the model's digits-only reading of `Number`, an id string with any other character never deletes a link |
| RootIndexRoute.Loader | app/routes/_index.tsx:12-20 | always a redirect: "/login" iff nobody is logged in, "/dashboard" iff somebody is, whatever the role |
| LoginRoute.Loader | app/routes/login.tsx:14-18 | redirects a logged-in visitor to "/dashboard/" and gives the form to anyone else |
| LoginRoute.Action | app/routes/login.tsx:22-37 | a missing field gives "Invalid form submission" with no lookup; a failed login gives "Invalid credentials" and no session; success commits the account's id to the session and redirects to "/dashboard" |
| RegisterRoute.Action | app/routes/register.tsx:21-57 | errors are returned iff some check fails, each field present iff its check fails, with no change; otherwise `register` runs with role "user", the response redirects to "/" whatever it reports, and no new account is ever an admin |
| UsersIndexRoute.Loader | app/routes/_dashboard.dashboard.users._index.tsx:13-20 | always a redirect: "/login" iff not an admin, "/dashboard/users/list" iff an admin |
| UsersListRoute.Loader | app/routes/_dashboard.dashboard.users.list.tsx:13-27 | a non-admin is sent to "/login"; an admin gets one digest-free row per account and no other row |
| UsersListRoute.EditOnlyForNonAdmins | app/routes/_dashboard.dashboard.users.list.tsx:78-85 | the rows with an Edit button are exactly the rows of non-admin accounts |
| UsersListRoute.LoaderHidesDigests | app/routes/_dashboard.dashboard.users.list.tsx:18-26 | tables that differ only in digests give the same response |
| CreateUserRoute.Loader | app/routes/_dashboard.dashboard.users.create-user.tsx:22-28 | redirects to "/login" iff not an admin |
| CreateUserRoute.Action | app/routes/_dashboard.dashboard.users.create-user.tsx:33-78 | errors iff some check fails, each present iff its check fails, and the role error iff the role is neither "admin" nor "user", with no change; otherwise `register` runs with the submitted role and the response goes to "/dashboard/users" |
| DeleteUserRoute.Loader | app/routes/_dashboard.dashboard.users.delete.tsx:30-37 | redirects to "/login" iff not an admin |
| DeleteUserRoute.ActingId | app/routes/_dashboard.dashboard.users.delete.tsx:14 | the session account's id, or "" without one |
| DeleteUserRoute.Action | app/routes/_dashboard.dashboard.users.delete.tsx:8-25 | passes the acting id, password and target to `deleteUser` unchanged; its error is returned verbatim, success as "Successfully deleted the user.", and only a success removes the target |
| DeleteUserRoute.AnyAccountCanDelete | app/routes/_dashboard.dashboard.users.delete.tsx:8-25 | any logged-in account, of any role, deletes any existing account by re-entering its own password |
| DeleteUserRoute.AnonymousCannotDelete | app/routes/_dashboard.dashboard.users.delete.tsx:13-16 | without a session the acting id names no account and the outcome is "Wrong user, sorry" |
| LinksIndexRoute.Loader | app/routes/_dashboard.dashboard.links._index.tsx:7-14 | always a redirect: "/login" iff not an admin, "/dashboard/links/list" iff an admin |
| LinksListRoute.Loader | app/routes/_dashboard.dashboard.links.list.tsx:12-25 | a non-admin is sent to "/login"; an admin gets every link and no other, plus the admin's own record |
| LinksListRoute.EditOnEveryRow | app/routes/_dashboard.dashboard.links.list.tsx:58-65 | whoever passes the gate sees the Edit button on every row |
| LinksListRoute.ReplyCarriesDigest | app/routes/_dashboard.dashboard.links.list.tsx:24 | the reply carries the viewer's digest, so a different digest gives a different reply |
| AddLinkRoute.Loader | app/routes/_dashboard.dashboard.links.add-link.tsx:12-18 | redirects to "/login" iff not an admin |
| AddLinkRoute.Action | app/routes/_dashboard.dashboard.links.add-link.tsx:23-61 | the link error iff there is no "." and the name error iff its JavaScript length (UTF-16 code units) is outside 3..24, both reported and nothing created; otherwise exactly one link is created under the counter's id, the counter advances by one and the response goes to "/dashboard/links/list", or, if the insert is refused, the save error with the table and counter unchanged |
| AddLinkRoute.AstralCharacterCountsTwice | app/routes/_dashboard.dashboard.links.add-link.tsx:35 | wherever it stands in a name, a character beyond U+FFFF adds two to the checked length and any other character adds one |
| DashboardLayoutRoute.Loader | app/routes/_dashboard.tsx:5-11 | an anonymous visitor is sent to "/login"; any logged-in account gets its own record back |
| DashboardLayoutRoute.Action | app/routes/_dashboard.tsx:13-15 | logout: a redirect after which the session is empty |
| DashboardLayoutRoute.NavEntries | app/routes/_dashboard.tsx:32-70 | Dashboard and Docker always come first; Users and Links appear iff the viewer is an admin |
| DashboardIndexRoute.Loader | app/routes/_dashboard.dashboard._index.tsx:6-21 | an anonymous visitor is sent to "/login"; any logged-in account gets every link and no other |
| DashboardIndexRoute.Action | app/routes/_dashboard.dashboard._index.tsx:25-27 | logout: a redirect after which the session is empty |
| DashboardIndexRoute.NormalizeUrl | app/routes/_dashboard.dashboard._index.tsx:36-40 | the result has an http or https scheme; it is the input iff the input had one, otherwise "http://" before it; the input is always its tail |
| DashboardIndexRoute.NormalizeUrlIdempotent | app/routes/_dashboard.dashboard._index.tsx:36-40 | normalising twice equals normalising once |
| DockerRoute.Loader | app/routes/_dashboard.dashboard.docker.tsx:10-17 | an anonymous visitor is sent to "/login"; any logged-in account gets the container lines unchanged |
| DockerRoute.IsUp | app/routes/_dashboard.dashboard.docker.tsx:46 | holds iff the status has "U" directly followed by "p" |
| DockerRoute.ParseContainer | app/routes/_dashboard.dashboard.docker.tsx:43-46 | no row iff the line has no ":"; otherwise the name and status are the colon-free first two fields, and the up flag is `IsUp` of the status |
| DockerRoute.ParseContainerFormatted | app/routes/_dashboard.dashboard.docker.tsx:43 | a line "name:status" with colon-free parts gives back exactly that name and status |
| DockerRoute.SplitUnique | app/routes/_dashboard.dashboard.docker.tsx:43 | a line has only one decomposition into colon-free name and status |
| Gates.AdminOnlyPages | app/routes/_dashboard.dashboard.users.list.tsx:15-17 | each of the seven admin-only loaders redirects to "/login" iff the visitor is anonymous or not an admin |
| Gates.SignedInPages | app/routes/_dashboard.tsx:7-9 | the layout, launcher, Docker and root loaders turn away only anonymous visitors, and the login form is shown only to them |
| Gates.NavigationMatchesGates | app/routes/_dashboard.tsx:50-70 | a navigation entry is shown iff the page behind it admits the viewer |
| Gates.LogoutLocksDashboard | app/routes/_dashboard.tsx:13-15 | after logout from either dashboard page, each of the ten dashboard loaders redirects to "/login" |

## Left out

- Password hashing: bcrypt's algorithm, its cost factor 12 and its random salts are not modelled. The hasher is an abstract pair of functions; salts are inputs; `Store.RoundTrips` is the only assumption about them.
- Cookie signing, the cookie attributes and the fallback secret are not modelled. The session is the optional "userId" it carries.
- The ORM is modelled as two maps. This covers the unique constraint on usernames and the auto-increment link id. The generated account ids are inputs (`newId`); `createdAt` is the clock input.
- Store.Database.CreateLink: a link insert refused by the database is an input flag (`rejected`), since nothing in the code determines when that happens.
- The order of `findMany` is not modelled. Lists are sets of rows.
- `docker.server.ts` runs a shell command. The container lines are an input of `DockerRoute.Loader`.
- The seed script, the styling configuration, the page markup and the date formatting are not modelled.
- The register page's displayed list of requirements is display text. The validators are the rules.
- Form parsing is left out. A field of the login form that is missing or not text is `None`. The register form converts each field with `String(...)`, so a missing one arrives as the text "null", which is an ordinary input here.
- The create-user, add-link and user-deletion forms only cast their fields (`as string`), so a missing field stays `null`. In the deletion form these are `userId` and `password`. What the validators or `includes` then do with `null` is not modelled.
- Text.NumberOf: JavaScript's `Number` also accepts surrounding white space, signs, decimals, exponents and hexadecimal. Those forms are not modelled. They are taken as not a number, so they fail like `NaN`.
- LinksServer.NonNumericIdDeletesNothing: holds for the digits-only `NumberOf`, not for the code as written. In JavaScript, `Number(" 7")`, `Number("+7")`, `Number("7.0")`, `Number("7e0")` and `Number("0x7")` are all 7, so such an id string deletes link 7.
- Store.Database.CreateUser: the account id is the one the ORM generates, which is never empty. The model requires a non-empty id, and `Store.Database.Valid` keeps "" out of the account table.
- The character-class tests of the validators run per character, not per UTF-16 code unit. The two agree here: the halves of a surrogate pair are never a capital, a digit, white space or a listed symbol.
- RegisterRoute.Action / CreateUserRoute.Action: both route files import `register` and the validators from `session.server.ts`, which does not export them, so as written neither action can run. The model repairs the import and binds them to their definitions in `auth.server.ts` and `user.server.ts`.
- CreateUserRoute.Action: the `throw` of an HTTP 500 when `register` throws cannot happen, because `register` catches every database error and reports it as a result.
- The user-edit, link-edit and settings pages are not part of this model. These are `_dashboard.dashboard.users.edit.$id.tsx`, `_dashboard.dashboard.links.edit.$id.tsx` and `_dashboard.dashboard.user.settings.$id.tsx`. `ChangePassword`, `EditLink`, `DeleteLink` and `ValidateActualPassword` are their server utilities, and they are modelled.
- Concurrency between requests is not modelled. Each loader or action runs as one sequential step.
