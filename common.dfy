/** Vocabulary shared by the user store, the session store and the
    authentication service: optional rows, results carrying the errors the
    stores raise, and the units in which timestamps are kept. */
module Common {

  /** A row that a query may not find (`null` in the stores). */
  datatype Option<+T> = None | Some(value: T)

  /** The failures of the core, one variant per thrown error. */
  datatype Error =
    | EmailAlreadyExists      // unique constraint on users.email
    | InvalidEmailOrPassword  // no such email, or the password does not match
    | AccountInactive         // the account's is_active flag is false
    | SessionIdTaken          // primary-key clash on sessions.id
    | UnknownUser             // foreign-key clash: the user id names no user

  /** The text of the error the source throws for each failure. */
  function Message(e: Error): string {
    match e
    case EmailAlreadyExists => "Email already exists"
    case InvalidEmailOrPassword => "Invalid email or password"
    case AccountInactive => "Account is inactive"
    case SessionIdTaken => "UNIQUE constraint failed: sessions.id"
    case UnknownUser => "FOREIGN KEY constraint failed"
  }

  /** Callers tell the errors apart by their text only, so no two errors
      may share one. */
  lemma MessageIdentifiesError(e1: Error, e2: Error)
    ensures Message(e1) == Message(e2) <==> e1 == e2
  {
  }

  /** What a throwing operation returns: its value, or the error it threw. */
  datatype Result<+T> = Success(value: T) | Failure(error: Error)

  /** Timestamps are whole seconds. */
  const SecondsPerMinute: int := 60
  const SecondsPerDay: int := 24 * 60 * 60

  /** Some element of a non-empty set. */
  lemma Pick<T>(s: set<T>) returns (x: T)
    requires s != {}
    ensures x in s
  {
    x :| x in s;
  }

  function Min(a: int, b: int): int {
    if a <= b then a else b
  }
}
