/** The relational store behind the models: the rows of the users,
    recovery_keys and sessions tables, held by one explicitly constructed
    database handle, and the constraints the schema makes the engine keep. */
module Db {
  import opened Common

  /** A row of the users table, password hash included. */
  datatype User = User(
    id: int,
    email: string,
    passwordHash: string,
    name: string,
    createdAt: int,
    updatedAt: int,
    isActive: bool,
    lastLogin: Option<int>)

  /** A row of the recovery_keys table. */
  datatype RecoveryKey = RecoveryKey(
    id: int,
    userId: int,
    phraseHash: string,
    createdAt: int,
    lastUsed: Option<int>)

  /** A row of the sessions table. */
  datatype Session = Session(
    id: string,
    userId: int,
    expiresAt: int,
    ipAddress: Option<string>,
    userAgent: Option<string>,
    createdAt: int)

  /** No two users share an email (the UNIQUE constraint on users.email). */
  ghost predicate UniqueEmails(users: map<int, User>) {
    forall a, b :: a in users && b in users && users[a].email == users[b].email ==> a == b
  }

  /** The recovery_keys table: each key names the user it is filed under,
      who exists (the foreign key), its id is below the counter, and no two
      keys share an id (the primary key). */
  ghost predicate ValidKeys(keys: map<int, RecoveryKey>, users: map<int, User>, nextKeyId: int) {
    && (forall u :: u in keys ==> keys[u].userId == u && u in users && 1 <= keys[u].id < nextKeyId)
    && (forall u, v :: u in keys && v in keys && u != v ==> keys[u].id != keys[v].id)
  }

  /** Rewriting a key's columns other than its id and user keeps the table valid. */
  lemma ReplaceKeyKeepsValid(keys: map<int, RecoveryKey>, users: map<int, User>, nextKeyId: int,
                             u: int, k: RecoveryKey)
    requires ValidKeys(keys, users, nextKeyId)
    requires u in keys && k.id == keys[u].id && k.userId == u
    ensures ValidKeys(keys[u := k], users, nextKeyId)
  {
  }

  /** Inserting a key for a user without one, with the counter's id, keeps
      the table valid once the counter moves on. */
  lemma InsertKeyKeepsValid(keys: map<int, RecoveryKey>, users: map<int, User>, nextKeyId: int,
                            u: int, k: RecoveryKey)
    requires ValidKeys(keys, users, nextKeyId)
    requires 1 <= nextKeyId && u !in keys && u in users && k.id == nextKeyId && k.userId == u
    ensures ValidKeys(keys[u := k], users, nextKeyId + 1)
  {
    var keys' := keys[u := k];
    forall a, b | a in keys' && b in keys' && a != b ensures keys'[a].id != keys'[b].id {
      if a == u { assert keys'[b] == keys[b]; }
      else if b == u { assert keys'[a] == keys[a]; }
    }
  }

  /** The ids of the sessions that belong to one user. */
  function OwnedBy(sessions: map<string, Session>, userId: int): set<string> {
    set id | id in sessions && sessions[id].userId == userId
  }

  /** An open connection, with the schema migrated. Users and recovery keys
      get ids from counters that never reuse a value; recovery keys are
      keyed by their user, since user_id is unique in that table. */
  class Database {
    var users: map<int, User>
    var nextUserId: int
    var recoveryKeys: map<int, RecoveryKey>
    var nextKeyId: int
    var sessions: map<string, Session>

    /** The constraints of the schema that hold in every state: primary
        keys, the unique email, the unique user of a recovery key, and the
        foreign keys from sessions and recovery keys to users. */
    ghost predicate Valid()
      reads this
    {
      && 1 <= nextUserId
      && 1 <= nextKeyId
      && (forall id :: id in users ==> users[id].id == id && 1 <= id < nextUserId)
      && UniqueEmails(users)
      && ValidKeys(recoveryKeys, users, nextKeyId)
      && (forall s :: s in sessions ==> sessions[s].id == s && sessions[s].userId in users)
    }

    /** A freshly migrated database: every table empty. */
    constructor ()
      ensures Valid()
      ensures users == map[] && recoveryKeys == map[] && sessions == map[]
      ensures nextUserId == 1 && nextKeyId == 1
    {
      users := map[];
      nextUserId := 1;
      recoveryKeys := map[];
      nextKeyId := 1;
      sessions := map[];
    }
  }

  /** A string longer than every string of a finite set. */
  ghost function LongerThanAll(keys: set<string>): (r: string)
    ensures forall k :: k in keys ==> |k| < |r|
    decreases keys
  {
    if keys == {} then "-"
    else
      var k :| k in keys;
      var rest := LongerThanAll(keys - {k});
      if |k| < |rest| then rest else k + "-"
  }

  /** However many sessions exist, some session id is still free, so the
      random identifier of a new session can always be fresh. */
  lemma FreshSessionIdExists(sessions: map<string, Session>)
    ensures exists id :: id !in sessions
  {
    var id := LongerThanAll(sessions.Keys);
    assert id !in sessions;
  }
}
