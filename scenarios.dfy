/** Sequences of calls that the behaviour of the core is described by,
    each proved from the contracts of the operations alone. */
module Scenarios {
  import opened Common
  import opened Db
  import opened UserModel
  import opened SessionModel
  import opened Auth

  /** Registering one email twice: the first call succeeds, the second
      fails with "Email already exists" and leaves the first account as the
      first call stored it. */
  method RegisterTwice(db: Database, hasher: Hasher, email: string, p1: string, n1: string,
                       p2: string, n2: string, now1: int, now2: int)
    returns (first: Result<RegisteredUser>, second: Result<RegisteredUser>)
    requires db.Valid() && !EmailExists(db, email)
    modifies db`users, db`nextUserId
    ensures db.Valid()
    ensures first.Success? && second == Failure(EmailAlreadyExists)
    ensures db.users == old(db.users)[first.value.id := User(first.value.id, email, hasher.hash(p1), n1, now1, now1, true, None)]
  {
    first := RegisterUser(db, hasher, email, p1, n1, now1);
    assert EmailExists(db, email) by {
      assert db.users[first.value.id].email == email;
    }
    second := RegisterUser(db, hasher, email, p2, n2, now2);
  }

  /** Registration followed by login with the same password: the login
      succeeds, reports that the user never logged in before, and issues a
      session that the lookup finds until seven days later, and not after. */
  method RegisterThenLogin(db: Database, hasher: Hasher, email: string, password: string, name: string,
                           now: int, uuid: string)
    returns (registered: Result<RegisteredUser>, login: Result<SessionInfo>)
    requires db.Valid() && hasher.Sound()
    requires !EmailExists(db, email) && uuid !in db.sessions && uuid != ""
    modifies db`users, db`nextUserId, db`sessions
    ensures db.Valid()
    ensures registered.Success? && login.Success?
    ensures login.value.sessionId == uuid
    ensures login.value.user == SessionUser(registered.value.id, email, name, None)
    ensures login.value.expiresAt == now + SessionLifetime
    ensures forall t :: now <= t < now + SessionLifetime ==> GetCurrentSession(db, uuid, t).Some?
    ensures forall t :: t >= now + SessionLifetime ==> GetCurrentSession(db, uuid, t).None?
  {
    registered := RegisterUser(db, hasher, email, password, name, now);
    login := LoginUser(db, hasher, email, password, now, uuid);
  }

  /** Two extensions by the same number of minutes move the stored deadline
      by twice that much, whenever they are made. */
  method ExtendTwice(db: Database, id: string, minutes: nat) returns (first: Option<Session>, second: Option<Session>)
    requires db.Valid()
    modifies db`sessions
    ensures db.Valid()
    ensures id !in old(db.sessions) ==> first == None && second == None && db.sessions == old(db.sessions)
    ensures id in old(db.sessions) ==>
              && second.Some? && id in db.sessions
              && db.sessions[id].expiresAt == old(db.sessions)[id].expiresAt + 2 * minutes * SecondsPerMinute
  {
    first := ExtendSession(db, id, minutes);
    second := ExtendSession(db, id, minutes);
  }

  /** Logging out twice with one id: the second call always answers false. */
  method LogoutTwice(db: Database, sessionId: string) returns (first: bool, second: bool)
    requires db.Valid()
    modifies db`sessions
    ensures db.Valid()
    ensures first == (sessionId != "" && sessionId in old(db.sessions))
    ensures !second
  {
    first := LogoutUser(db, sessionId);
    second := LogoutUser(db, sessionId);
  }

  /** Deleting a user ends their sessions and removes their recovery key. */
  method DeleteUserEndsSessions(db: Database, userId: int, sessionId: string, now: int) returns (deleted: bool)
    requires db.Valid()
    requires sessionId in db.sessions && db.sessions[sessionId].userId == userId
    modifies db`users, db`recoveryKeys, db`sessions
    ensures db.Valid()
    ensures deleted
    ensures GetCurrentSession(db, sessionId, now) == None
    ensures GetActiveSessionsByUserId(db, userId, now) == []
    ensures GetRecoveryKey(db, userId) == None
  {
    deleted := DeleteUser(db, userId);
    ActiveListingFiltersFullListing(db, userId, now);
  }

  /** The update `{ is_active: false }` collects one assignment, which
      clears the flag and keeps the email, so it never clashes. */
  lemma DeactivationUpdate(users: map<int, User>, id: int)
    requires UniqueEmails(users) && id in users
    ensures var updates := [Entry("is_active", Flag(false))];
            && AllWellTyped(updates)
            && Whitelisted(updates) == [SetActive(false)]
            && ApplyAll(users[id], [SetActive(false)]) == users[id].(isActive := false)
            && !TakenByOther(users, users[id].email, id)
  {
    var updates := [Entry("is_active", Flag(false))];
    assert updates[..0] == [] && [SetActive(false)][..0] == [];
  }

  /** An inactive account is refused whatever the password. */
  lemma InactiveRowRefused(db: Database, hasher: Hasher, id: int, password: string)
    requires db.Valid() && id in db.users && !db.users[id].isActive
    ensures Authenticate(db, hasher, db.users[id].email, password) == Failure(AccountInactive)
  {
  }

  /** Deactivating an account through the update, as its documentation
      intends, changes only the flag, and login is then refused with
      "Account is inactive" whatever the password. */
  method DeactivateRefusesLogin(db: Database, hasher: Hasher, id: int, password: string)
    returns (r: Result<Option<PublicUser>>)
    requires db.Valid() && id in db.users
    modifies db`users
    ensures db.Valid()
    ensures db.users == old(db.users)[id := old(db.users)[id].(isActive := false)]
    ensures r == Success(Some(Public(db.users[id])))
    ensures Authenticate(db, hasher, db.users[id].email, password) == Failure(AccountInactive)
  {
    DeactivationUpdate(db.users, id);
    r := UpdateUser(db, id, [Entry("is_active", Flag(false))]);
    InactiveRowRefused(db, hasher, id, password);
  }

  /** Setting a recovery key twice leaves one key, with the second hash,
      under the id the first call gave it. */
  method SetRecoveryKeyTwice(db: Database, userId: int, h1: string, h2: string, now1: int, now2: int)
    returns (first: Result<RecoveryKey>, second: Result<RecoveryKey>)
    requires db.Valid() && userId in db.users
    modifies db`recoveryKeys, db`nextKeyId
    ensures db.Valid()
    ensures first.Success? && second.Success?
    ensures second.value.id == first.value.id && second.value.phraseHash == h2 && second.value.createdAt == now2
    ensures GetRecoveryKey(db, userId) == Some(second.value)
    ensures db.recoveryKeys == old(db.recoveryKeys)[userId := second.value]
  {
    first := SetRecoveryKey(db, userId, h1, now1);
    second := SetRecoveryKey(db, userId, h2, now2);
  }
}
