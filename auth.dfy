/** The authentication service: registration, login, session lookup and
    logout, composed from the two stores and the password hasher. */
module Auth {
  import opened Common
  import opened Db
  import opened UserModel
  import opened SessionModel

  /** The password hasher as the service uses it. `hash` is the digest the
      hashing call produces (bcrypt draws a salt, so the digest is an input
      of the model); `compare` checks a password against a stored digest. */
  datatype Hasher = Hasher(hash: string -> string, compare: (string, string) -> bool) {
    /** What bcrypt promises: every password matches its own digest. */
    ghost predicate Sound() {
      forall p :: compare(p, hash(p))
    }
  }

  /** A login session lasts seven days. */
  const SessionLifetime: int := 7 * SecondsPerDay

  /** What registration returns: id, email, name and creation time. */
  datatype RegisteredUser = RegisteredUser(id: int, email: string, name: string, createdAt: int)

  /** The user as login and session lookup return it. */
  datatype SessionUser = SessionUser(id: int, email: string, name: string, lastLogin: Option<int>)

  /** What login and session lookup return. */
  datatype SessionInfo = SessionInfo(sessionId: string, user: SessionUser, expiresAt: int)

  function SessionUserOf(u: User): SessionUser {
    SessionUser(u.id, u.email, u.name, u.lastLogin)
  }

  // --------------------------------------------------------- registration

  /** `registerUser`: refuse a taken email; otherwise store a new active
      user whose hash is the hasher's digest of the password, and return
      the user without the hash. */
  method RegisterUser(db: Database, hasher: Hasher, email: string, password: string, name: string, now: int)
    returns (r: Result<RegisteredUser>)
    requires db.Valid()
    modifies db`users, db`nextUserId
    ensures db.Valid()
    ensures old(EmailExists(db, email)) ==>
              r == Failure(EmailAlreadyExists) && db.users == old(db.users) && db.nextUserId == old(db.nextUserId)
    ensures !old(EmailExists(db, email)) ==>
              && var id := old(db.nextUserId);
              && id !in old(db.users)
              && r == Success(RegisteredUser(id, email, name, now))
              && db.users == old(db.users)[id := User(id, email, hasher.hash(password), name, now, now, true, None)]
              && db.nextUserId == id + 1
    ensures r.Success? && hasher.Sound() ==>
              Authenticate(db, hasher, email, password) == Success(db.users[r.value.id])
  {
    if EmailExists(db, email) {
      return Failure(EmailAlreadyExists);
    }
    var passwordHash := hasher.hash(password);
    var created := CreateUser(db, email, passwordHash, name, now);
    var user := created.value;
    r := Success(RegisteredUser(user.id, user.email, user.name, user.createdAt));
    if hasher.Sound() {
      RegisteredPasswordAuthenticates(db, hasher, email, password);
    }
  }

  // ---------------------------------------------------------------- login

  /** The checks of `loginUser`, in their order: the email must name an
      account, the account must be active, and the password must match the
      stored hash. An unknown email and a wrong password give one error. */
  function Authenticate(db: Database, hasher: Hasher, email: string, password: string): (r: Result<User>)
    reads db
    requires db.Valid()
    ensures r.Success? ==>
              && r.value.id in db.users && db.users[r.value.id] == r.value && r.value.email == email
              && r.value.isActive && hasher.compare(password, r.value.passwordHash)
    ensures r == Failure(AccountInactive) <==>
              exists id :: id in db.users && db.users[id].email == email && !db.users[id].isActive
    ensures r == Failure(InvalidEmailOrPassword) <==>
              || !EmailExists(db, email)
              || exists id :: && id in db.users && db.users[id].email == email && db.users[id].isActive
                              && !hasher.compare(password, db.users[id].passwordHash)
    ensures r.Success? || r == Failure(InvalidEmailOrPassword) || r == Failure(AccountInactive)
  {
    match GetUserByEmail(db, email)
    case None => Failure(InvalidEmailOrPassword)
    case Some(user) =>
      if !user.isActive then Failure(AccountInactive)
      else if !hasher.compare(password, user.passwordHash) then Failure(InvalidEmailOrPassword)
      else Success(user)
  }

  /** The activity check comes before the password check: an inactive
      account is refused the same way whatever password is given. */
  lemma InactiveAccountIgnoresPassword(db: Database, hasher: Hasher, email: string, p1: string, p2: string)
    requires db.Valid()
    requires EmailExists(db, email) && !GetUserByEmail(db, email).value.isActive
    ensures Authenticate(db, hasher, email, p1) == Authenticate(db, hasher, email, p2) == Failure(AccountInactive)
  {
  }

  /** Login does not reveal which emails have accounts: an unknown email and
      a known email with a wrong password fail with the same error. */
  lemma UnknownEmailLooksLikeWrongPassword(db: Database, hasher: Hasher, unknown: string, p1: string,
                                           known: string, p2: string)
    requires db.Valid()
    requires !EmailExists(db, unknown)
    requires EmailExists(db, known)
    requires var u := GetUserByEmail(db, known).value; u.isActive && !hasher.compare(p2, u.passwordHash)
    ensures Authenticate(db, hasher, unknown, p1) == Authenticate(db, hasher, known, p2)
    ensures Message(Authenticate(db, hasher, unknown, p1).error) == "Invalid email or password"
  {
  }

  /** With a sound hasher, an active account accepts the password whose
      digest it stores: registration followed by login succeeds. */
  lemma RegisteredPasswordAuthenticates(db: Database, hasher: Hasher, email: string, password: string)
    requires db.Valid() && hasher.Sound()
    ensures forall id :: id in db.users && db.users[id].email == email && db.users[id].isActive &&
                         db.users[id].passwordHash == hasher.hash(password) ==>
                           Authenticate(db, hasher, email, password) == Success(db.users[id])
  {
    forall id | id in db.users && db.users[id].email == email && db.users[id].isActive &&
                db.users[id].passwordHash == hasher.hash(password)
      ensures Authenticate(db, hasher, email, password) == Success(db.users[id])
    {
      assert hasher.compare(password, hasher.hash(password));
      assert GetUserByEmail(db, email).value.id == id;
    }
  }

  /** `loginUser`: run the checks; a failed check throws and changes
      nothing. On success stamp last_login with `now`, create a session for
      the user expiring seven days from now, and return its id, the user as
      read before the stamp, and the deadline. A clash of the random session
      id fails the insert after the stamp. */
  method LoginUser(db: Database, hasher: Hasher, email: string, password: string, now: int, uuid: string)
    returns (r: Result<SessionInfo>)
    requires db.Valid()
    modifies db`users, db`sessions
    ensures db.Valid()
    ensures var auth := old(Authenticate(db, hasher, email, password));
            auth.Failure? ==>
              r == Failure(auth.error) && db.users == old(db.users) && db.sessions == old(db.sessions)
    ensures var auth := old(Authenticate(db, hasher, email, password));
            auth.Success? ==>
              db.users == old(db.users)[auth.value.id := auth.value.(lastLogin := Some(now))]
    ensures var auth := old(Authenticate(db, hasher, email, password));
            auth.Success? && uuid in old(db.sessions) ==>
              r == Failure(SessionIdTaken) && db.sessions == old(db.sessions)
    ensures var auth := old(Authenticate(db, hasher, email, password));
            auth.Success? && uuid !in old(db.sessions) ==>
              && r == Success(SessionInfo(uuid, SessionUserOf(auth.value), now + SessionLifetime))
              && db.sessions == old(db.sessions)[uuid := Session(uuid, auth.value.id, now + SessionLifetime, None, None, now)]
    ensures r.Success? && uuid != "" ==>
              GetCurrentSession(db, r.value.sessionId, now) ==
                Some(r.value.(user := r.value.user.(lastLogin := Some(now))))
  {
    var found := GetUserByEmail(db, email);
    if found.None? {
      return Failure(InvalidEmailOrPassword);
    }
    var user := found.value;
    if !user.isActive {
      return Failure(AccountInactive);
    }
    var isValidPassword := hasher.compare(password, user.passwordHash);
    if !isValidPassword {
      return Failure(InvalidEmailOrPassword);
    }
    UpdateLastLogin(db, user.id, now);
    var expiresAt := now + SessionLifetime;
    var created := CreateSession(db, user.id, expiresAt, None, None, uuid, now);
    if created.Failure? {
      return Failure(created.error);
    }
    var session := created.value;
    r := Success(SessionInfo(session.id, SessionUserOf(user), session.expiresAt));
  }

  // ------------------------------------------------------ session lookup

  /** `getCurrentSession`: null for an empty id, for an id with no active
      session, and for a session whose user is gone; otherwise the session
      id, the owner as stored now, and the deadline. */
  function GetCurrentSession(db: Database, sessionId: string, now: int): (r: Option<SessionInfo>)
    reads db
    ensures r.None? <==>
              || sessionId == ""
              || !IsSessionValid(db, sessionId, now)
              || db.sessions[sessionId].userId !in db.users
    ensures r.Some? ==>
              && var s := db.sessions[sessionId];
              && r.value.expiresAt == s.expiresAt && now < r.value.expiresAt
              && r.value.user == SessionUserOf(db.users[s.userId])
    ensures db.Valid() && r.Some? ==>
              r.value.sessionId == sessionId && r.value.user.id == db.sessions[sessionId].userId
  {
    if sessionId == "" then None
    else
      match GetActiveSessionById(db, sessionId, now)
      case None => None
      case Some(session) =>
        match GetUserById(db, session.userId)
        case None => None
        case Some(user) =>
          Some(SessionInfo(session.id, SessionUser(user.id, user.email, user.name, user.lastLogin), session.expiresAt))
  }

  /** The schema's foreign key keeps every session's owner in the users
      table, so the lookup fails only for an empty id or a session that is
      not active. */
  lemma CurrentSessionIffValid(db: Database, sessionId: string, now: int)
    requires db.Valid()
    ensures GetCurrentSession(db, sessionId, now).Some? <==> sessionId != "" && IsSessionValid(db, sessionId, now)
  {
  }

  // --------------------------------------------------------------- logout

  /** `logoutUser`: false and no change for an empty id; otherwise delete
      the session and report whether it existed. */
  method LogoutUser(db: Database, sessionId: string) returns (loggedOut: bool)
    requires db.Valid()
    modifies db`sessions
    ensures db.Valid()
    ensures sessionId == "" ==> !loggedOut && db.sessions == old(db.sessions)
    ensures sessionId != "" ==>
              loggedOut == (sessionId in old(db.sessions)) && db.sessions == old(db.sessions) - {sessionId}
  {
    if sessionId == "" {
      return false;
    }
    loggedOut := DeleteSession(db, sessionId);
  }
}
