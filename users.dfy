/** The user model: account rows and recovery keys. Reads are functions of
    the current tables; writes are methods on the database handle. Only
    GetUserByEmail returns the password hash; every other read returns the
    public projection. */
module UserModel {
  import opened Common
  import opened Db
  import Ordering
  import SessionModel

  /** A user as the public reads return it: every column but the hash. */
  datatype PublicUser = PublicUser(
    id: int,
    email: string,
    name: string,
    createdAt: int,
    updatedAt: int,
    isActive: bool,
    lastLogin: Option<int>)

  function Public(u: User): PublicUser {
    PublicUser(u.id, u.email, u.name, u.createdAt, u.updatedAt, u.isActive, u.lastLogin)
  }

  /** The emails that are taken. */
  ghost function Emails(users: map<int, User>): set<string> {
    set id | id in users :: users[id].email
  }

  // ---------------------------------------------------------------- reads

  /** `getUserById`: the row with that id, without its hash. */
  function GetUserById(db: Database, id: int): (r: Option<PublicUser>)
    reads db
    ensures r.Some? <==> id in db.users
    ensures r.Some? ==> r.value == Public(db.users[id])
    ensures db.Valid() && r.Some? ==> r.value.id == id
  {
    if id in db.users then Some(Public(db.users[id])) else None
  }

  /** `emailExists`: whether some user holds the email. */
  function EmailExists(db: Database, email: string): (exists_: bool)
    reads db
    ensures exists_ <==> email in Emails(db.users)
  {
    exists id :: id in db.users && db.users[id].email == email
  }

  /** `getUserByEmail`: the whole row, hash included, of the one user with
      that email; the unique email makes the row well defined. */
  function GetUserByEmail(db: Database, email: string): (r: Option<User>)
    reads db
    requires db.Valid()
    ensures r.Some? <==> EmailExists(db, email)
    ensures r.Some? ==> r.value.id in db.users && db.users[r.value.id] == r.value
    ensures r.Some? ==> r.value.email == email
  {
    if EmailExists(db, email) then
      var id :| id in db.users && db.users[id].email == email;
      Some(db.users[id])
    else
      None
  }

  /** `getUserByEmailPublic`: the same lookup, without the hash. */
  function GetUserByEmailPublic(db: Database, email: string): (r: Option<PublicUser>)
    reads db
    requires db.Valid()
    ensures r.Some? <==> EmailExists(db, email)
    ensures r.Some? ==> r.value.email == email && r.value.id in db.users
    ensures r.Some? ==> r == GetUserById(db, r.value.id)
  {
    match GetUserByEmail(db, email)
    case None => None
    case Some(u) => Some(Public(u))
  }

  /** Two emails lookups agree: the email is taken exactly when the lookup
      by email finds a row. */
  lemma EmailExistsIffFound(db: Database, email: string)
    requires db.Valid()
    ensures EmailExists(db, email) <==> GetUserByEmail(db, email).Some?
    ensures EmailExists(db, email) <==> GetUserByEmailPublic(db, email).Some?
  {
  }

  /** Two databases whose user rows agree on everything but password hashes. */
  ghost predicate SameButHashes(db1: Database, db2: Database)
    reads db1, db2
  {
    && db1.users.Keys == db2.users.Keys
    && forall id :: id in db1.users ==> Public(db1.users[id]) == Public(db2.users[id])
  }

  /** The public reads never reveal a password hash: changing any hash in
      the table changes none of their results. */
  lemma {:induction false} PublicReadsIgnoreHashes(db1: Database, db2: Database, id: int, email: string)
    requires db1.Valid() && db2.Valid()
    requires SameButHashes(db1, db2)
    ensures GetUserById(db1, id) == GetUserById(db2, id)
    ensures GetUserByEmailPublic(db1, email) == GetUserByEmailPublic(db2, email)
  {
    if EmailExists(db1, email) {
      var u1 := GetUserByEmail(db1, email).value;
      assert Public(db2.users[u1.id]).email == email;
      var u2 := GetUserByEmail(db2, email).value;
      assert u1.id == u2.id;
    } else {
      forall id' | id' in db2.users ensures db2.users[id'].email != email {
        assert Public(db1.users[id']) == Public(db2.users[id']);
      }
    }
  }

  /** The creation time by which listings order users. */
  function UserCreatedAt(u: PublicUser): int { u.createdAt }

  /** The public projections of all users. */
  ghost function PublicRows(users: map<int, User>): set<PublicUser> {
    set id | id in users :: Public(users[id])
  }

  /** `getAllUsers`: the public projections of all users, newest first,
      `offset` rows skipped and at most `limit` returned. */
  ghost function GetAllUsers(db: Database, limit: nat, offset: nat): (r: seq<PublicUser>)
    reads db
    ensures |r| <= limit
    ensures forall u :: u in r ==> u in PublicRows(db.users)
    ensures Ordering.SortedDesc(r, UserCreatedAt) && Ordering.Distinct(r)
    ensures offset == 0 && limit >= |PublicRows(db.users)| ==>
              forall u :: u in PublicRows(db.users) ==> u in r
  {
    var all := Ordering.OrderedDesc(PublicRows(db.users), UserCreatedAt);
    Ordering.PageKeepsOrder(all, UserCreatedAt, limit, offset);
    Ordering.Page(all, limit, offset)
  }

  /** Distinct ids give distinct projections, so there are as many public
      rows as users. */
  lemma {:induction false} PublicRowsCount(users: map<int, User>, ids: set<int>)
    requires forall id :: id in users ==> users[id].id == id
    requires ids == users.Keys
    ensures |PublicRows(users)| == |ids|
    decreases ids
  {
    if ids != {} {
      var id := Pick(ids);
      var rest := users - {id};
      PublicRowsCount(rest, ids - {id});
      forall p | p in PublicRows(users) ensures p in PublicRows(rest) + {Public(users[id])} {
        var k :| k in users && Public(users[k]) == p;
        if k != id {
          assert k in rest;
        }
      }
      assert PublicRows(users) == PublicRows(rest) + {Public(users[id])};
      assert Public(users[id]) !in PublicRows(rest);
    } else {
      assert PublicRows(users) == {};
    }
  }

  /** A page holds `limit` rows, or what is left of the table after
      `offset` rows when that is fewer: one row per user, none lost. */
  lemma AllUsersPageSize(db: Database, limit: nat, offset: nat)
    requires db.Valid()
    ensures |GetAllUsers(db, limit, offset)| == if offset >= |db.users| then 0 else Min(limit, |db.users| - offset)
  {
    PublicRowsCount(db.users, db.users.Keys);
  }

  /** Pages read one after another tile the listing: the page of `a` rows
      at `offset` followed by the page of `b` rows right after it is the page
      of `a + b` rows at `offset`. `OFFSET` skips exactly the listing's
      earlier rows. */
  lemma ConsecutivePages(db: Database, a: nat, b: nat, offset: nat)
    ensures GetAllUsers(db, a, offset) + GetAllUsers(db, b, offset + a) == GetAllUsers(db, a + b, offset)
  {
    Ordering.AdjacentPages(Ordering.OrderedDesc(PublicRows(db.users), UserCreatedAt), a, b, offset);
  }

  // --------------------------------------------------------------- writes

  /** `createUser`: insert a row with a fresh id, the given email, hash and
      name, both timestamps `now`, active, never logged in; return its
      public projection. A taken email makes the insert fail. */
  method CreateUser(db: Database, email: string, passwordHash: string, name: string, now: int)
    returns (r: Result<PublicUser>)
    requires db.Valid()
    modifies db`users, db`nextUserId
    ensures db.Valid()
    ensures old(EmailExists(db, email)) ==>
              r == Failure(EmailAlreadyExists) && db.users == old(db.users) && db.nextUserId == old(db.nextUserId)
    ensures !old(EmailExists(db, email)) ==>
              && var row := User(old(db.nextUserId), email, passwordHash, name, now, now, true, None);
              && old(db.nextUserId) !in old(db.users)
              && db.users == old(db.users)[row.id := row]
              && db.nextUserId == old(db.nextUserId) + 1
              && r == Success(Public(row))
    ensures r.Success? ==> GetUserByEmailPublic(db, email) == Some(r.value)
  {
    if EmailExists(db, email) {
      return Failure(EmailAlreadyExists);
    }
    var id := db.nextUserId;
    var row := User(id, email, passwordHash, name, now, now, true, None);
    db.users := db.users[id := row];
    db.nextUserId := id + 1;
    r := Success(GetUserById(db, id).value);
  }

  /** The value a key of the updates object holds. */
  datatype Value = Undefined | Text(text: string) | Flag(flag: bool)

  /** One `[key, value]` pair of `Object.entries(updates)`. */
  datatype Entry = Entry(key: string, value: Value)

  /** The columns an update may write. */
  const AllowedFields: seq<string> := ["email", "password_hash", "name", "is_active"]

  /** The documented types of the updates object: the three text columns
      take strings, is_active a boolean; any key may be undefined. */
  predicate WellTyped(e: Entry) {
    if e.key == "is_active" then !e.value.Text?
    else if e.key in AllowedFields then !e.value.Flag?
    else true
  }

  /** Every entry of the updates object has its documented type. */
  predicate AllWellTyped(entries: seq<Entry>) {
    forall i :: 0 <= i < |entries| ==> WellTyped(entries[i])
  }

  /** One `column = ?` of the UPDATE, with the value bound to it. */
  datatype Assignment =
    | SetEmail(email: string)
    | SetPasswordHash(hash: string)
    | SetName(name: string)
    | SetActive(active: bool)

  /** The whitelist test of the loop: an allowed key with a defined value. */
  predicate Writable(e: Entry) {
    e.key in AllowedFields && !e.value.Undefined?
  }

  function AsAssignment(e: Entry): Assignment
    requires Writable(e) && WellTyped(e)
  {
    if e.key == "email" then SetEmail(e.value.text)
    else if e.key == "password_hash" then SetPasswordHash(e.value.text)
    else if e.key == "name" then SetName(e.value.text)
    else SetActive(e.value.flag)
  }

  /** The assignments the loop collects, in the order of the entries. */
  function Whitelisted(entries: seq<Entry>): seq<Assignment>
    requires AllWellTyped(entries)
  {
    if entries == [] then []
    else
      var last := entries[|entries| - 1];
      Whitelisted(entries[..|entries| - 1]) + (if Writable(last) then [AsAssignment(last)] else [])
  }

  /** Keys outside the whitelist, and undefined values, contribute nothing:
      entries without a writable one produce no assignment at all. */
  lemma {:induction false} NothingWritableNoAssignment(entries: seq<Entry>)
    requires AllWellTyped(entries)
    ensures Whitelisted(entries) == [] <==> forall i :: 0 <= i < |entries| ==> !Writable(entries[i])
  {
    if entries != [] {
      var init := entries[..|entries| - 1];
      NothingWritableNoAssignment(init);
      assert forall i :: 0 <= i < |init| ==> init[i] == entries[i];
    }
  }

  /** The loop of `updateUser`: collect the assignments of the allowed keys
      whose values are defined. */
  method CollectAssignments(entries: seq<Entry>) returns (fields: seq<Assignment>)
    requires AllWellTyped(entries)
    ensures fields == Whitelisted(entries)
  {
    fields := [];
    var i := 0;
    while i < |entries|
      invariant 0 <= i <= |entries|
      invariant fields == Whitelisted(entries[..i])
    {
      var e := entries[i];
      if e.key in AllowedFields && e.value != Undefined {
        fields := fields + [AsAssignment(e)];
      }
      assert entries[..i + 1][..i] == entries[..i];
      i := i + 1;
    }
    assert entries[..i] == entries;
  }

  function Assign(u: User, a: Assignment): User {
    match a
    case SetEmail(e) => u.(email := e)
    case SetPasswordHash(h) => u.(passwordHash := h)
    case SetName(n) => u.(name := n)
    case SetActive(b) => u.(isActive := b)
  }

  /** The row after `UPDATE users SET ...`, applying the assignments in order. */
  function ApplyAll(u: User, fields: seq<Assignment>): User {
    if fields == [] then u else Assign(ApplyAll(u, fields[..|fields| - 1]), fields[|fields| - 1])
  }

  /** The rightmost assignment to each column, if any. */
  function LastEmail(fields: seq<Assignment>): Option<string> {
    if fields == [] then None
    else if fields[|fields| - 1].SetEmail? then Some(fields[|fields| - 1].email)
    else LastEmail(fields[..|fields| - 1])
  }

  function LastHash(fields: seq<Assignment>): Option<string> {
    if fields == [] then None
    else if fields[|fields| - 1].SetPasswordHash? then Some(fields[|fields| - 1].hash)
    else LastHash(fields[..|fields| - 1])
  }

  function LastName(fields: seq<Assignment>): Option<string> {
    if fields == [] then None
    else if fields[|fields| - 1].SetName? then Some(fields[|fields| - 1].name)
    else LastName(fields[..|fields| - 1])
  }

  function LastActive(fields: seq<Assignment>): Option<bool> {
    if fields == [] then None
    else if fields[|fields| - 1].SetActive? then Some(fields[|fields| - 1].active)
    else LastActive(fields[..|fields| - 1])
  }

  function OrElse<T>(o: Option<T>, d: T): T {
    if o.Some? then o.value else d
  }

  /** The update writes each of the four columns with its rightmost
      assignment, leaves it alone when it has none, and never touches id,
      created_at, updated_at or last_login. */
  lemma {:induction false} ApplyAllWritesLastAssignments(u: User, fields: seq<Assignment>)
    ensures ApplyAll(u, fields) == u.(
      email := OrElse(LastEmail(fields), u.email),
      passwordHash := OrElse(LastHash(fields), u.passwordHash),
      name := OrElse(LastName(fields), u.name),
      isActive := OrElse(LastActive(fields), u.isActive))
  {
    if fields != [] {
      ApplyAllWritesLastAssignments(u, fields[..|fields| - 1]);
    }
  }

  /** Whether another user than `id` holds the email. */
  function TakenByOther(users: map<int, User>, email: string, id: int): bool {
    exists other :: other in users && other != id && users[other].email == email
  }

  /** The check is the UNIQUE constraint on users.email: writing `row` over
      user `id` breaks it exactly when another user holds the row's email. */
  lemma TakenByOtherIffDuplicate(users: map<int, User>, id: int, row: User)
    requires UniqueEmails(users) && id in users
    ensures TakenByOther(users, row.email, id) <==> !UniqueEmails(users[id := row])
  {
    var updated := users[id := row];
    if TakenByOther(users, row.email, id) {
      var other :| other in users && other != id && users[other].email == row.email;
      assert updated[other].email == updated[id].email;
    } else {
      forall a, b | a in updated && b in updated && updated[a].email == updated[b].email
        ensures a == b
      {
        if a != id && b != id {
          assert users[a].email == users[b].email;
        }
      }
    }
  }

  /** `updateUser`: write the whitelisted columns of one user. With nothing
      to write, or no such user, nothing changes and the current row (or
      null) is returned. An email held by another user fails the update and
      leaves the table as it was. */
  method UpdateUser(db: Database, id: int, updates: seq<Entry>) returns (r: Result<Option<PublicUser>>)
    requires db.Valid()
    requires AllWellTyped(updates)
    modifies db`users
    ensures db.Valid()
    ensures var fields := Whitelisted(updates);
            if fields != [] && id in old(db.users) then
              var row := ApplyAll(old(db.users)[id], fields);
              if TakenByOther(old(db.users), row.email, id) then
                r == Failure(EmailAlreadyExists) && db.users == old(db.users)
              else
                db.users == old(db.users)[id := row] && r == Success(Some(Public(row)))
            else
              db.users == old(db.users) && r == Success(old(GetUserById(db, id)))
  {
    var fields := CollectAssignments(updates);
    if |fields| == 0 {
      return Success(GetUserById(db, id));
    }
    if id in db.users {
      var row := ApplyAll(db.users[id], fields);
      if TakenByOther(db.users, row.email, id) {
        return Failure(EmailAlreadyExists);
      }
      ApplyAllWritesLastAssignments(db.users[id], fields);
      db.users := db.users[id := row];
    }
    r := Success(GetUserById(db, id));
  }

  /** `updateLastLogin`: stamp the user's last_login with `now`; an unknown
      id changes nothing. */
  method UpdateLastLogin(db: Database, id: int, now: int)
    requires db.Valid()
    modifies db`users
    ensures db.Valid()
    ensures id in old(db.users) ==> db.users == old(db.users)[id := old(db.users)[id].(lastLogin := Some(now))]
    ensures id !in old(db.users) ==> db.users == old(db.users)
  {
    if id in db.users {
      db.users := db.users[id := db.users[id].(lastLogin := Some(now))];
    }
  }

  /** `deleteUser`: remove the row; true iff there was one. The schema's
      ON DELETE CASCADE removes the user's recovery key and sessions too. */
  method DeleteUser(db: Database, id: int) returns (deleted: bool)
    requires db.Valid()
    modifies db`users, db`recoveryKeys, db`sessions
    ensures db.Valid()
    ensures deleted <==> id in old(db.users)
    ensures db.users == old(db.users) - {id}
    ensures db.recoveryKeys == old(db.recoveryKeys) - {id}
    ensures db.sessions == old(db.sessions) - OwnedBy(old(db.sessions), id)
    ensures GetRecoveryKey(db, id) == None
    ensures SessionModel.GetSessionsByUserId(db, id) == []
  {
    deleted := id in db.users;
    db.users := db.users - {id};
    db.recoveryKeys := db.recoveryKeys - {id};
    db.sessions := db.sessions - OwnedBy(db.sessions, id);
    assert OwnedBy(db.sessions, id) == {};
  }

  // -------------------------------------------------------- recovery keys

  /** `getRecoveryKey`: the user's recovery key, if any. */
  function GetRecoveryKey(db: Database, userId: int): (r: Option<RecoveryKey>)
    reads db
    ensures r.Some? <==> userId in db.recoveryKeys
    ensures r.Some? ==> r.value == db.recoveryKeys[userId]
    ensures db.Valid() && r.Some? ==> r.value.userId == userId && userId in db.users
  {
    if userId in db.recoveryKeys then Some(db.recoveryKeys[userId]) else None
  }

  /** `setRecoveryKey`: an upsert. An existing key gets the new hash and a
      new created_at, keeping its id and last_used; otherwise a new key is
      inserted, which fails for an unknown user. Either way the user then has
      exactly one key, with the given hash. */
  method SetRecoveryKey(db: Database, userId: int, phraseHash: string, now: int)
    returns (r: Result<RecoveryKey>)
    requires db.Valid()
    modifies db`recoveryKeys, db`nextKeyId
    ensures db.Valid()
    ensures userId in old(db.recoveryKeys) ==>
              && r == Success(old(db.recoveryKeys)[userId].(phraseHash := phraseHash, createdAt := now))
              && db.nextKeyId == old(db.nextKeyId)
    ensures userId !in old(db.recoveryKeys) && userId in db.users ==>
              && r == Success(RecoveryKey(old(db.nextKeyId), userId, phraseHash, now, None))
              && db.nextKeyId == old(db.nextKeyId) + 1
    ensures userId !in old(db.recoveryKeys) && userId !in db.users ==>
              && r == Failure(UnknownUser)
              && db.recoveryKeys == old(db.recoveryKeys) && db.nextKeyId == old(db.nextKeyId)
    ensures r.Success? ==>
              && db.recoveryKeys == old(db.recoveryKeys)[userId := r.value]
              && GetRecoveryKey(db, userId) == Some(r.value)
              && r.value.phraseHash == phraseHash
  {
    if userId in db.recoveryKeys {
      var updated := db.recoveryKeys[userId].(phraseHash := phraseHash, createdAt := now);
      ReplaceKeyKeepsValid(db.recoveryKeys, db.users, db.nextKeyId, userId, updated);
      db.recoveryKeys := db.recoveryKeys[userId := updated];
    } else {
      if userId !in db.users {
        return Failure(UnknownUser);
      }
      var inserted := RecoveryKey(db.nextKeyId, userId, phraseHash, now, None);
      InsertKeyKeepsValid(db.recoveryKeys, db.users, db.nextKeyId, userId, inserted);
      db.recoveryKeys := db.recoveryKeys[userId := inserted];
      db.nextKeyId := db.nextKeyId + 1;
    }
    r := Success(GetRecoveryKey(db, userId).value);
  }

  /** `markRecoveryKeyUsed`: stamp last_used with `now`; true iff the user
      has a key. */
  method MarkRecoveryKeyUsed(db: Database, userId: int, now: int) returns (marked: bool)
    requires db.Valid()
    modifies db`recoveryKeys
    ensures db.Valid()
    ensures marked <==> userId in old(db.recoveryKeys)
    ensures marked ==> db.recoveryKeys == old(db.recoveryKeys)[userId := old(db.recoveryKeys)[userId].(lastUsed := Some(now))]
    ensures !marked ==> db.recoveryKeys == old(db.recoveryKeys)
  {
    marked := userId in db.recoveryKeys;
    if marked {
      db.recoveryKeys := db.recoveryKeys[userId := db.recoveryKeys[userId].(lastUsed := Some(now))];
    }
  }

  /** `deleteRecoveryKey`: remove the user's key; true iff there was one. */
  method DeleteRecoveryKey(db: Database, userId: int) returns (deleted: bool)
    requires db.Valid()
    modifies db`recoveryKeys
    ensures db.Valid()
    ensures deleted <==> userId in old(db.recoveryKeys)
    ensures db.recoveryKeys == old(db.recoveryKeys) - {userId}
  {
    deleted := userId in db.recoveryKeys;
    db.recoveryKeys := db.recoveryKeys - {userId};
  }
}
