# Accounts and sessions of Pidgeon, in Dafny

Pidgeon is a desktop application. It keeps its accounts in a SQLite
database. This project models the three files that manage those accounts:

- the user model, `database/models/user.cjs`: account rows and per-user recovery keys;
- the session model, `database/models/session.cjs`: login sessions with a deadline;
- the authentication service, `database/auth.cjs`: registration, login, session lookup and logout, built on the two models and bcrypt.

Modules:

| module | file | models |
|---|---|---|
| `Common` | `common.dfy` | results and error messages, time units |
| `Ordering` | `ordering.dfy` | `ORDER BY created_at DESC` and `LIMIT ? OFFSET ?` |
| `Db` | `db.dfy` | the three tables as fields of a `Database` class, with the schema's constraints as its invariant `Valid()` |
| `UserModel` | `users.dfy` | `user.cjs` |
| `SessionModel` | `sessions.dfy` | `session.cjs` |
| `Auth` | `auth.dfy` | `auth.cjs` |
| `Scenarios` | `scenarios.dfy` | sequences of calls, proved from the contracts alone |
| `Timestamps` | `timestamps.dfy` | how deadlines compare as text (see Findings) |
| `Driver` | `driver.dfy` | what the better-sqlite3 driver does with two statements as written (see Findings) |

How the model is set up:

- **Database.** The source reaches its connection through a module-level
  singleton. The model passes a `Database` handle instead.
  - Each table is a map-valued field: `users` keyed by id, `recoveryKeys` keyed by user id, `sessions` keyed by session id.
  - Each write is a `method` whose `modifies` clause names exactly the tables it may change.
  - Each read is a `function` that `reads` the handle.
- **Schema.** The schema lives in a migration file that is not part of this model. `Valid()` states the constraints the code relies on that hold in every state:
  - ids are primary keys, allocated from a counter that never reuses a value (so recovery-key ids are distinct too);
  - `users.email` is UNIQUE;
  - `recovery_keys.user_id` is unique;
  - sessions and recovery keys reference an existing user.

  `ON DELETE CASCADE` relates two states, so it is not part of `Valid()`: `UserModel.DeleteUser` removes the user's sessions and key in its body, and its contract says so.
- **Time, randomness, hashing.** These are parameters:
  - the clock is `now`, in whole seconds;
  - `randomUUID()` is `uuid`;
  - bcrypt is a `Hasher` value with `hash` and `compare` functions.

  `Hasher.Sound()` states bcrypt's one promise: every password matches its
  own digest. Properties that need it take it as a hypothesis.
- **Errors.** Every thrown error is a `Failure` carrying an `Error`. `Common.Message` gives the text the source throws.

## Model

| member | source | states |
|---|---|---|
| `Common.Message` | database/auth.cjs:23-68 | the text thrown for each failure: "Email already exists", "Invalid email or password", "Account is inactive", and the driver's primary-key and foreign-key messages |
| `Common.MessageIdentifiesError` | database/auth.cjs:50-68 | the thrown messages tell the failures apart: equal texts only for equal errors |
| `Db.Database.Valid` | database/db.cjs:78-80 | the one-state schema constraints: primary keys below their counters, unique emails, one recovery key per user with distinct ids, and foreign keys (enforced, as the pragma turns them on) from sessions and keys to users |
| `Db.Database.constructor` | database/db.cjs:71-90 | a freshly opened, migrated database: empty tables, counters at 1, and `Valid()` |
| `Db.FreshSessionIdExists` | database/models/session.cjs:17-20 | some session id is always unused, so a fresh random id can exist |
| `Ordering.OrderedDesc` | database/models/session.cjs:66-70 | the selected rows, each exactly once, none added, newest created_at first |
| `Ordering.Page` | database/models/user.cjs:153-159 | `LIMIT/OFFSET`: the window starting at `offset`, of length `min(limit, rest)` or empty |
| `Ordering.AdjacentPages` | database/models/user.cjs:153-159 | `OFFSET` skips exactly the rows before the window: the page of `a` rows at `offset` followed by the page of `b` rows at `offset + a` is the page of `a + b` rows at `offset` |
| `Ordering.PageKeepsOrder` | database/models/user.cjs:153-159 | a window of a sorted duplicate-free listing is sorted, duplicate-free and drawn from it |
| `UserModel.Public` | database/models/user.cjs:37-42 | the columns the public reads select: every column but `password_hash` |
| `UserModel.GetUserById` | database/models/user.cjs:37-42 | found iff the id is a user; the row without its hash; the row's id is the id asked for |
| `UserModel.EmailExists` | database/models/user.cjs:139-144 | true iff some user holds the email |
| `UserModel.GetUserByEmail` | database/models/user.cjs:49-54 | found iff the email is taken; the stored row, hash included, whose email is the one asked for |
| `UserModel.GetUserByEmailPublic` | database/models/user.cjs:61-68 | found iff the email is taken; the same row as the lookup by its id, without the hash |
| `UserModel.EmailExistsIffFound` | database/models/user.cjs:139-144 | the existence check and both email lookups agree |
| `UserModel.PublicReadsIgnoreHashes` | database/models/user.cjs:37-68 | changing password hashes changes no result of the public reads |
| `UserModel.GetAllUsers` | database/models/user.cjs:153-159 | at most `limit` public rows, all real, newest first, no duplicates; the whole table when unpaged |
| `UserModel.PublicRowsCount` | database/models/user.cjs:153-159 | there are as many public rows as users |
| `UserModel.AllUsersPageSize` | database/models/user.cjs:153-159 | a page holds exactly `min(limit, users - offset)` rows, or none past the end |
| `UserModel.ConsecutivePages` | database/models/user.cjs:153-159 | paging through the users misses and repeats nothing: two consecutive pages together are the one page spanning both |
| `UserModel.CreateUser` | database/models/user.cjs:15-30 | a taken email fails with "Email already exists" and changes nothing; otherwise one new active row with a fresh id and no last login, which the email lookup then returns |
| `UserModel.NothingWritableNoAssignment` | database/models/user.cjs:86-95 | the update collects nothing iff no entry has an allowed key with a defined value |
| `UserModel.CollectAssignments` | database/models/user.cjs:86-91 | the loop collects, in entry order, one assignment per allowed key with a defined value |
| `UserModel.ApplyAllWritesLastAssignments` | database/models/user.cjs:97-102 | the UPDATE gives each allowed column its rightmost assigned value and leaves every other column alone |
| `UserModel.TakenByOtherIffDuplicate` | database/models/user.cjs:101-108 | with unique emails, another user holds the new email iff writing the row would break the UNIQUE email, which is exactly when the UPDATE fails with "Email already exists" |
| `UserModel.UpdateUser` | database/models/user.cjs:80-110 | nothing to write or no such user: no change, and the current row or null; an email held by another user fails with "Email already exists" and changes nothing; otherwise only that row changes, as the assignments say |
| `UserModel.UpdateLastLogin` | database/models/user.cjs:116-120 | only the user's last_login changes, to `now`; an unknown id changes nothing |
| `UserModel.DeleteUser` | database/models/user.cjs:127-132 | true iff the user existed; the row, their recovery key and all their sessions are gone; nothing else changes |
| `UserModel.GetRecoveryKey` | database/models/user.cjs:195-199 | found iff the user has a key; the key names that user, who exists |
| `UserModel.SetRecoveryKey` | database/models/user.cjs:167-188 | upsert: an existing key keeps its id and last_used and gets the new hash and created_at; otherwise a fresh key, or "FOREIGN KEY constraint failed" for an unknown user; afterwards the user's one key has the new hash |
| `UserModel.MarkRecoveryKeyUsed` | database/models/user.cjs:206-213 | true iff the user has a key; only that key's last_used changes, to `now` |
| `UserModel.DeleteRecoveryKey` | database/models/user.cjs:220-225 | true iff the user had a key; only that key is gone |
| `SessionModel.IsActive` | database/models/session.cjs:52-59 | a session is active iff its deadline is after the clock (`expires_at > CURRENT_TIMESTAMP`), compared as instants |
| `SessionModel.GetSessionById` | database/models/session.cjs:40-45 | found iff the id is a session, active or not; its row, whose user exists |
| `SessionModel.GetActiveSessionById` | database/models/session.cjs:52-59 | found iff the session exists and its deadline is after `now`; then the same row as the plain lookup |
| `SessionModel.IsSessionValid` | database/models/session.cjs:167-170 | true iff the session exists and its deadline is after `now` |
| `SessionModel.ValidEarlier` | database/models/session.cjs:167-170 | a session valid at some time was valid at every earlier time |
| `SessionModel.GetSessionsByUserId` | database/models/session.cjs:66-70 | exactly the user's sessions, newest first, no duplicates |
| `SessionModel.GetActiveSessionsByUserId` | database/models/session.cjs:77-83 | exactly the user's sessions with a deadline after `now`, newest first, no duplicates |
| `SessionModel.ActiveListingFiltersFullListing` | database/models/session.cjs:77-83 | the active listing is the full listing filtered by the clock, and never longer |
| `SessionModel.ListingCountsOwnedSessions` | database/models/session.cjs:66-70 | the listing has one row per session id the user owns |
| `SessionModel.RowsCount` | database/models/session.cjs:66-70 | with ids as keys, a user's session rows are as many as their ids |
| `SessionModel.CreateSession` | database/models/session.cjs:17-33 | a taken id fails with the primary-key error and an unknown user with the foreign-key error, both changing nothing; otherwise exactly one new row, which the lookup then returns |
| `SessionModel.UpdateSessionExpiration` | database/models/session.cjs:91-106 | null and no change for an unknown id; otherwise only that session's deadline changes, and the new row is returned |
| `SessionModel.ExtendSession` | database/models/session.cjs:149-160 | null and no change for an unknown id; otherwise only that session's deadline changes: the stored deadline plus the minutes |
| `SessionModel.DeleteSession` | database/models/session.cjs:113-118 | true iff the session existed; only it is gone |
| `SessionModel.RemovedCount` | database/models/session.cjs:125-141 | deleting a set of present rows shrinks the table by that many |
| `SessionModel.DeleteAllUserSessions` | database/models/session.cjs:125-130 | exactly the user's sessions are gone; the count is their number and the table's shrinkage; other sessions are untouched |
| `SessionModel.ExpiredIffNotValid` | database/models/session.cjs:136-141 | the sweep's `expires_at <= CURRENT_TIMESTAMP` picks exactly the existing sessions that are not valid: it is the negation of the active check |
| `SessionModel.DeleteExpiredSessions` | database/models/session.cjs:136-141 | exactly the expired sessions are gone, the count is how many; every active session stays as it was and all that remain are active |
| `Auth.RegisterUser` | database/auth.cjs:23-41 | a taken email fails with "Email already exists" and changes nothing; otherwise a new active account storing the hasher's digest, returned without it; with a sound hasher, that email and password then authenticate |
| `Auth.Authenticate` | database/auth.cjs:50-68 | success iff the email names an active account whose hash matches; "Account is inactive" iff the account exists and is inactive; "Invalid email or password" iff the email is unknown or the password does not match |
| `Auth.InactiveAccountIgnoresPassword` | database/auth.cjs:58-68 | the activity check comes first: an inactive account is refused the same way for any password |
| `Auth.UnknownEmailLooksLikeWrongPassword` | database/auth.cjs:50-68 | an unknown email and a wrong password fail identically, with "Invalid email or password" |
| `Auth.RegisteredPasswordAuthenticates` | database/auth.cjs:29-33 | with a sound hasher, an active account authenticates with the password whose digest it stores |
| `Auth.LoginUser` | database/auth.cjs:50-94 | a failed check changes nothing and returns its error; on success last_login becomes `now`, and a session due seven days later is created; the result carries the user as read before the stamp; the new session is then the current one |
| `Auth.GetCurrentSession` | database/auth.cjs:101-129 | null iff the id is empty, names no active session, or its user is gone; otherwise the session's deadline and its owner as stored now |
| `Auth.CurrentSessionIffValid` | database/auth.cjs:101-129 | with the foreign key, the lookup succeeds iff the id is non-empty and the session is valid |
| `Auth.LogoutUser` | database/auth.cjs:136-142 | false and no change for an empty id; otherwise true iff the session existed, and it is gone |
| `Scenarios.RegisterTwice` | database/auth.cjs:23-41 | registering an email twice: the second call fails and the first account stays as stored |
| `Scenarios.RegisterThenLogin` | database/auth.cjs:23-94 | with a sound hasher, register then login succeeds, reports no earlier login, and the session is current for exactly seven days |
| `Scenarios.ExtendTwice` | database/models/session.cjs:149-160 | two extensions by m minutes move the deadline by 2m minutes |
| `Scenarios.LogoutTwice` | database/auth.cjs:136-142 | a second logout with the same id answers false |
| `Scenarios.DeleteUserEndsSessions` | database/models/user.cjs:127-132 | after deleting a user, their sessions are no longer current, none is listed as active, and no key remains |
| `Scenarios.DeactivateRefusesLogin` | database/models/user.cjs:70-110 | deactivating through the update with the documented boolean changes only `is_active` and returns the new public row; login with that email is then refused with "Account is inactive" for any password |
| `Scenarios.SetRecoveryKeyTwice` | database/models/user.cjs:167-188 | setting a key twice leaves one key, under the first key's id, with the second hash |
| `Timestamps.ActiveAsWritten` | database/models/session.cjs:52-59 | as written: the ISO deadline text compared byte-wise with the clock's "YYYY-MM-DD HH:MM:SS" text |
| `Timestamps.ActiveCorrected` | database/models/session.cjs:52-59 | as intended: the deadline and the clock compared as instants, date first, then time of day |
| `Timestamps.TextLessAfterCommonPrefix` | database/models/session.cjs:52-59 | text order resumes after a common prefix |
| `Timestamps.DecidedByFirstPiece` | database/models/session.cjs:52-59 | of two texts starting with different pieces of one length, those pieces alone decide the order |
| `Timestamps.TimeTextOrder` | database/models/session.cjs:52-59 | well-formed "HH:MM:SS" texts sort exactly as their times do |
| `Timestamps.ActiveUntilEndOfDeadlineDay` | database/models/session.cjs:52-59 | as written, an ISO deadline counts as active at every time of its own date |
| `Timestamps.OtherDaysAgree` | database/models/session.cjs:136-141 | on any other date, the as-written and corrected comparisons agree and the dates decide |
| `Timestamps.CorrectedSameDay` | database/models/session.cjs:52-59 | with the deadline in the clock's own format, a session is active on its date iff the clock's time of day is earlier |
| `Timestamps.ExpiredSessionStillActive` | database/auth.cjs:74-80 | a deadline of 10:00 is still active at 12:00 the same day as written, and not once corrected |
| `Driver.UpdateRunsAsWritten` | database/models/user.cjs:97-108 | as written, the UPDATE runs iff no collected assignment is to `is_active`, since the driver refuses to bind a boolean and the error is rethrown |
| `Driver.WhitelistedKeepsWritable` | database/models/user.cjs:86-91 | every entry with an allowed key and a defined value contributes its assignment |
| `Driver.ActiveFlagUpdateThrows` | database/models/user.cjs:77-108 | as written, every update that sets `is_active` to a boolean, its documented type, throws instead of writing |
| `Driver.DeactivationThrows` | database/models/user.cjs:102 | the update `{ is_active: false }` collects one assignment and does not run as written |
| `Driver.ReadDoubleQuoted` | database/models/session.cjs:151-153 | a double-quoted token names a column when one has that name; otherwise it is a string literal iff the build accepts double-quoted strings; otherwise the statement does not prepare |
| `Driver.ExtendNeverPrepares` | database/models/session.cjs:149-160 | as written, with double-quoted strings refused, the UPDATE of `extendSession` never prepares; where they are accepted, `" minutes"` reads as the intended literal |

## Left out

- The connection singleton, its "Database not initialized" error and the migration runner are left out. An explicit `Database` handle, valid from construction, stands for an open, migrated database.
- The schema is not part of this model. Its one-state constraints (primary keys, UNIQUE email, unique `recovery_keys.user_id`, foreign keys, AUTOINCREMENT ids) are assumed as `Db.Database.Valid()`. ON DELETE CASCADE is not part of `Valid()`: it is written into the body and contract of `UserModel.DeleteUser`. The foreign-key pragma is switched on at `database/db.cjs:80`.
- Timestamps are integers (seconds) in the main model. `CURRENT_TIMESTAMP`, ISO and `datetime()` texts, and millisecond precision are not modelled there. `Timestamps` models the text comparison separately.
- `SessionModel.ExtendSession` models the evidently intended statement. As written, the modifier is built with a double-quoted `" minutes"`, and the driver's SQLite refuses double-quoted string literals, so every call throws before any row is read (see Findings, `Driver.ExtendNeverPrepares`). It also takes a natural number of minutes: negative or fractional minutes and the text of the `datetime()` modifier are not modelled.
- `Auth.LoginUser`: the deadline is `now + 7 * 86400` seconds. JavaScript's `setDate(getDate() + 7)` adds seven calendar days in local time, which differs from this by an hour across a daylight-saving change.
- `Auth.LoginUser` and `Auth.GetCurrentSession` return deadlines as integers. The source returns them as the stored text.
- bcrypt's salt and cost factor are left out, and so is its asynchrony. `hash` is an arbitrary function and `compare` an arbitrary predicate; only `Sound()` is assumed, where a property needs it.
- Concurrency is left out. The `await` in `registerUser` lets another registration take the email between the check and the insert; the model runs calls one at a time.
- `UserModel.UpdateUser` models the evidently intended update, with values of the documented types: strings for the text columns, a boolean for `is_active`, any key possibly undefined. As written, the driver refuses to bind a boolean, so `stmt.run` throws a TypeError at `database/models/user.cjs:102`, rethrown at `:108`, for every update that sets `is_active` (see Findings, `Driver.ActiveFlagUpdateThrows`). `null` values and values of other types are not modelled. Other constraint errors than the unique email, rethrown by the source, are not modelled either.
- `null`/`undefined` ids are not modelled. The empty string stands for a missing session id in `getCurrentSession` and `logoutUser`, which both treat any falsy id alike.
- `getAllUsers` takes `limit` and `offset` as natural numbers. Its defaults (100 and 0) belong to the JavaScript call site. Negative `LIMIT` (no limit in SQLite) is not modelled.
- `ipAddress` and `userAgent` are carried as given. Login passes none.
- The order of rows with equal `created_at` is left open, as SQLite leaves it.

## Findings

| source | as written | input that shows it | evidently intended | confidence | as-written member | corrected member |
|---|---|---|---|---|---|---|
| database/models/session.cjs:55 | Login stores the deadline as `toISOString()` text, "YYYY-MM-DDTHH:MM:SS.sssZ" (database/auth.cjs:79). The active checks (`:55`, `:80`) and the sweep (`:138`) compare that text with `CURRENT_TIMESTAMP`, "YYYY-MM-DD HH:MM:SS". Byte-wise, 'T' sorts after ' ', so on its own date the deadline is later than every clock reading. | deadline "2026-10-24T10:00:00.000Z" against the clock "2026-10-24 12:00:00": still active, and the sweep keeps it | a session stops being active at its deadline: compare instants, or store the deadline in the clock's format | not executed | `Timestamps.ExpiredSessionStillActive` | `Timestamps.CorrectedSameDay` |
| database/models/user.cjs:102 | `updateUser` passes the collected values to `stmt.run`. For `is_active` that value is a JavaScript boolean, the type documented at `:77`; better-sqlite3 binds numbers, bigints, strings, buffers and null only, and throws a TypeError for a boolean, which `:108` rethrows. | `updateUser(id, { is_active: false })`: throws, the account stays active | the flag is written as SQLite's integer 0 or 1, and a deactivated account can no longer log in (`database/auth.cjs:59`) | not executed | `Driver.DeactivationThrows` | `Scenarios.DeactivateRefusesLogin` |
| database/models/session.cjs:152 | `extendSession` builds the `datetime()` modifier with `? \|\| " minutes"`. A double-quoted token that names no column is a string literal only where SQLite accepts double-quoted strings; the SQLite that better-sqlite3 bundles does not, so the statement fails to prepare. | `extendSession(id, 30)` for any id: throws, no deadline changes | the literal `' minutes'`, so the deadline moves by the given minutes | not executed | `Driver.ExtendNeverPrepares` | `SessionModel.ExtendSession` |

The as-written comparison is `Timestamps.ActiveAsWritten`, and
`Timestamps.ActiveUntilEndOfDeadlineDay` proves the defect for every time of
the deadline's date. `Timestamps.OtherDaysAgree` shows it is confined to that
date: on every other date the two comparisons agree. Under the intended
extension a session's deadline would be rewritten by `datetime()` in the
clock's format and escape this defect; as written, `extendSession` never runs
(the third finding). The rest of the model uses the intended comparison of
instants, `SessionModel.IsActive` and `SessionModel.IsSessionValid`.

The second and third findings concern the driver, which is not part of this
model beyond the two facts `Driver` states: which values it binds, and that
its SQLite refuses double-quoted string literals. `UserModel.UpdateUser` and
`SessionModel.ExtendSession` model the evidently intended statements; the
`Driver` members model them as written.
