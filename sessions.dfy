/** The session model. A session is active while its deadline lies in the
    future; nothing stores that state, every read compares against the
    clock again. Reads are functions of the sessions table and `now`;
    writes are methods on the database handle that report what they did. */
module SessionModel {
  import opened Common
  import opened Db
  import Ordering

  /** The derived state of a session: `expires_at > now`. */
  predicate IsActive(s: Session, now: int) {
    now < s.expiresAt
  }

  // ---------------------------------------------------------------- reads

  /** `getSessionById`: the row with that id, active or not. */
  function GetSessionById(db: Database, id: string): (r: Option<Session>)
    reads db
    ensures r.Some? <==> id in db.sessions
    ensures r.Some? ==> r.value == db.sessions[id]
    ensures db.Valid() && r.Some? ==> r.value.id == id && r.value.userId in db.users
  {
    if id in db.sessions then Some(db.sessions[id]) else None
  }

  /** `getActiveSessionById`: the same row, only while it is active. */
  function GetActiveSessionById(db: Database, id: string, now: int): (r: Option<Session>)
    reads db
    ensures r.Some? <==> id in db.sessions && now < db.sessions[id].expiresAt
    ensures r.Some? ==> r == GetSessionById(db, id)
  {
    if id in db.sessions && IsActive(db.sessions[id], now) then Some(db.sessions[id]) else None
  }

  /** `isSessionValid`: whether the active lookup finds the session, that
      is, whether it exists and its deadline is after `now`. */
  function IsSessionValid(db: Database, id: string, now: int): (valid: bool)
    reads db
    ensures valid <==> id in db.sessions && now < db.sessions[id].expiresAt
  {
    GetActiveSessionById(db, id, now).Some?
  }

  /** Validity is monotone in time: a session valid at `later` was valid at
      every earlier instant. */
  lemma ValidEarlier(db: Database, id: string, earlier: int, later: int)
    requires earlier <= later
    requires IsSessionValid(db, id, later)
    ensures IsSessionValid(db, id, earlier)
  {
  }

  /** The creation time by which listings order sessions. */
  function SessionCreatedAt(s: Session): int { s.createdAt }

  /** The rows of one user's sessions. */
  ghost function RowsOf(sessions: map<string, Session>, userId: int): set<Session> {
    set id | id in sessions && sessions[id].userId == userId :: sessions[id]
  }

  /** `getSessionsByUserId`: exactly the user's sessions, newest first. */
  ghost function GetSessionsByUserId(db: Database, userId: int): (r: seq<Session>)
    reads db
    ensures forall s :: s in r <==> s in db.sessions.Values && s.userId == userId
    ensures Ordering.SortedDesc(r, SessionCreatedAt) && Ordering.Distinct(r)
  {
    Ordering.OrderedDesc(RowsOf(db.sessions, userId), SessionCreatedAt)
  }

  /** The rows of one user's active sessions. */
  ghost function ActiveRowsOf(sessions: map<string, Session>, userId: int, now: int): set<Session> {
    set id | id in sessions && sessions[id].userId == userId && IsActive(sessions[id], now) :: sessions[id]
  }

  /** `getActiveSessionsByUserId`: the user's active sessions, newest first. */
  ghost function GetActiveSessionsByUserId(db: Database, userId: int, now: int): (r: seq<Session>)
    reads db
    ensures forall s :: s in r <==> s in db.sessions.Values && s.userId == userId && now < s.expiresAt
    ensures Ordering.SortedDesc(r, SessionCreatedAt) && Ordering.Distinct(r)
  {
    Ordering.OrderedDesc(ActiveRowsOf(db.sessions, userId, now), SessionCreatedAt)
  }

  /** The active listing is the full listing filtered by the clock: it
      keeps exactly the rows whose deadline is after `now`, and never more. */
  lemma ActiveListingFiltersFullListing(db: Database, userId: int, now: int)
    ensures forall s :: s in GetActiveSessionsByUserId(db, userId, now) <==>
                        s in GetSessionsByUserId(db, userId) && IsActive(s, now)
    ensures |GetActiveSessionsByUserId(db, userId, now)| <= |GetSessionsByUserId(db, userId)|
  {
    var rows, activeRows := RowsOf(db.sessions, userId), ActiveRowsOf(db.sessions, userId, now);
    assert |GetSessionsByUserId(db, userId)| == |rows|;
    assert |GetActiveSessionsByUserId(db, userId, now)| == |activeRows|;
    assert activeRows <= rows;
    assert rows == activeRows + (rows - activeRows);
  }

  /** The listing has one row per session id the user owns. */
  lemma ListingCountsOwnedSessions(db: Database, userId: int)
    requires db.Valid()
    ensures |GetSessionsByUserId(db, userId)| == |OwnedBy(db.sessions, userId)|
  {
    RowsCount(db.sessions, userId, OwnedBy(db.sessions, userId));
  }

  /** With ids as primary keys, a user has as many session rows as ids. */
  lemma {:induction false} RowsCount(sessions: map<string, Session>, userId: int, ids: set<string>)
    requires forall id :: id in sessions ==> sessions[id].id == id
    requires ids == OwnedBy(sessions, userId)
    ensures |RowsOf(sessions, userId)| == |ids|
    decreases ids
  {
    assert forall k :: k in ids <==> k in sessions && sessions[k].userId == userId;
    if ids != {} {
      var id :| id in ids;
      var rest := sessions - {id};
      assert ids - {id} == OwnedBy(rest, userId);
      RowsCount(rest, userId, ids - {id});
      forall s | s in RowsOf(sessions, userId) ensures s in RowsOf(rest, userId) + {sessions[id]} {
        var k :| k in sessions && sessions[k].userId == userId && sessions[k] == s;
        if k != id {
          assert k in rest;
        }
      }
      assert RowsOf(sessions, userId) == RowsOf(rest, userId) + {sessions[id]};
      assert sessions[id] !in RowsOf(rest, userId);
    } else {
      assert RowsOf(sessions, userId) == {};
    }
  }

  // --------------------------------------------------------------- writes

  /** `createSession`: insert a session with the id drawn by randomUUID,
      which is `uuid` here. An id already present or an unknown user makes
      the insert fail and leaves the table as it was. */
  method CreateSession(db: Database, userId: int, expiresAt: int, ipAddress: Option<string>,
                       userAgent: Option<string>, uuid: string, now: int)
    returns (r: Result<Session>)
    requires db.Valid()
    modifies db`sessions
    ensures db.Valid()
    ensures uuid in old(db.sessions) ==> r == Failure(SessionIdTaken) && db.sessions == old(db.sessions)
    ensures uuid !in old(db.sessions) && userId !in db.users ==>
              r == Failure(UnknownUser) && db.sessions == old(db.sessions)
    ensures uuid !in old(db.sessions) && userId in db.users ==>
              && r == Success(Session(uuid, userId, expiresAt, ipAddress, userAgent, now))
              && db.sessions == old(db.sessions)[uuid := r.value]
    ensures r.Success? ==> GetSessionById(db, uuid) == Some(r.value)
  {
    if uuid in db.sessions {
      return Failure(SessionIdTaken);
    }
    if userId !in db.users {
      return Failure(UnknownUser);
    }
    db.sessions := db.sessions[uuid := Session(uuid, userId, expiresAt, ipAddress, userAgent, now)];
    r := Success(GetSessionById(db, uuid).value);
  }

  /** `updateSessionExpiration`: set the deadline of one session; null and
      no change when there is no such session. */
  method UpdateSessionExpiration(db: Database, id: string, expiresAt: int) returns (r: Option<Session>)
    requires db.Valid()
    modifies db`sessions
    ensures db.Valid()
    ensures id !in old(db.sessions) ==> r == None && db.sessions == old(db.sessions)
    ensures id in old(db.sessions) ==>
              && r == Some(old(db.sessions)[id].(expiresAt := expiresAt))
              && db.sessions == old(db.sessions)[id := r.value]
  {
    if id !in db.sessions {
      return None;
    }
    db.sessions := db.sessions[id := db.sessions[id].(expiresAt := expiresAt)];
    r := GetSessionById(db, id);
  }

  /** `extendSession`: move the stored deadline (not `now`) later by the
      given minutes; null and no change when there is no such session. */
  method ExtendSession(db: Database, id: string, additionalMinutes: nat) returns (r: Option<Session>)
    requires db.Valid()
    modifies db`sessions
    ensures db.Valid()
    ensures id !in old(db.sessions) ==> r == None && db.sessions == old(db.sessions)
    ensures id in old(db.sessions) ==>
              && r.Some?
              && r.value.expiresAt == old(db.sessions)[id].expiresAt + additionalMinutes * SecondsPerMinute
              && r.value == old(db.sessions)[id].(expiresAt := r.value.expiresAt)
              && db.sessions == old(db.sessions)[id := r.value]
  {
    if id !in db.sessions {
      return None;
    }
    var s := db.sessions[id];
    db.sessions := db.sessions[id := s.(expiresAt := s.expiresAt + additionalMinutes * SecondsPerMinute)];
    r := GetSessionById(db, id);
  }

  /** `deleteSession`: remove one session; true iff it existed. */
  method DeleteSession(db: Database, id: string) returns (deleted: bool)
    requires db.Valid()
    modifies db`sessions
    ensures db.Valid()
    ensures deleted <==> id in old(db.sessions)
    ensures db.sessions == old(db.sessions) - {id}
  {
    deleted := id in db.sessions;
    db.sessions := db.sessions - {id};
  }

  /** Removing a set of present keys shrinks a map by that many entries. */
  lemma {:induction false} RemovedCount(sessions: map<string, Session>, ids: set<string>)
    requires ids <= sessions.Keys
    ensures |(sessions - ids).Keys| == |sessions.Keys| - |ids|
  {
    assert (sessions - ids).Keys == sessions.Keys - ids;
    assert sessions.Keys == (sessions.Keys - ids) + ids;
  }

  /** `deleteAllUserSessions`: remove exactly the user's sessions and
      return how many rows went; other users' sessions stay as they were. */
  method DeleteAllUserSessions(db: Database, userId: int) returns (count: nat)
    requires db.Valid()
    modifies db`sessions
    ensures db.Valid()
    ensures db.sessions == old(db.sessions) - OwnedBy(old(db.sessions), userId)
    ensures count == |OwnedBy(old(db.sessions), userId)|
    ensures count == |old(db.sessions).Keys| - |db.sessions.Keys|
    ensures forall id :: id in old(db.sessions) && old(db.sessions)[id].userId != userId ==>
              id in db.sessions && db.sessions[id] == old(db.sessions)[id]
  {
    var owned := OwnedBy(db.sessions, userId);
    RemovedCount(db.sessions, owned);
    db.sessions := db.sessions - owned;
    count := |owned|;
  }

  /** The ids of the sessions whose deadline has passed at `now`. */
  function ExpiredAt(sessions: map<string, Session>, now: int): set<string> {
    set id | id in sessions && sessions[id].expiresAt <= now
  }

  /** The sweep's condition is the negation of the active lookup's: a
      session is expired exactly when it exists and is no longer valid. */
  lemma ExpiredIffNotValid(db: Database, now: int)
    ensures forall id :: id in ExpiredAt(db.sessions, now) <==>
                         GetSessionById(db, id).Some? && !IsSessionValid(db, id, now)
  {
  }

  /** `deleteExpiredSessions`: the sweep. It removes exactly the sessions
      with `expires_at <= now`, returns how many, and leaves every active
      session untouched. */
  method DeleteExpiredSessions(db: Database, now: int) returns (count: nat)
    requires db.Valid()
    modifies db`sessions
    ensures db.Valid()
    ensures db.sessions == old(db.sessions) - ExpiredAt(old(db.sessions), now)
    ensures count == |ExpiredAt(old(db.sessions), now)|
    ensures count == |old(db.sessions).Keys| - |db.sessions.Keys|
    ensures forall id :: id in old(db.sessions) && IsActive(old(db.sessions)[id], now) ==>
              id in db.sessions && db.sessions[id] == old(db.sessions)[id]
    ensures forall id :: id in db.sessions ==> IsActive(db.sessions[id], now)
  {
    var expired := ExpiredAt(db.sessions, now);
    RemovedCount(db.sessions, expired);
    db.sessions := db.sessions - expired;
    count := |expired|;
  }
}
