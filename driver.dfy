/** What the better-sqlite3 driver (`database/db.cjs:1`) does with two
    statements of the models as they are written. The rest of the model
    follows the documented, evidently intended meaning of these statements;
    this module records where the driver departs from it.

    - Binding: the driver binds numbers, bigints, strings, buffers and null
      to `?` parameters. It refuses a JavaScript boolean with a TypeError,
      before the statement runs.
    - Quoting: the SQLite the driver bundles is built without double-quoted
      string literals, so a double-quoted token can only name a column. */
module Driver {
  import opened Common
  import opened UserModel

  // ------------------------------------------------------------- binding

  /** A value handed to `stmt.run`. */
  datatype Param = TextParam(text: string) | BooleanParam(flag: bool)

  /** The value `updateUser` pushes for one assignment. */
  function ParamOf(a: Assignment): Param {
    match a
    case SetEmail(e) => TextParam(e)
    case SetPasswordHash(h) => TextParam(h)
    case SetName(n) => TextParam(n)
    case SetActive(b) => BooleanParam(b)
  }

  /** Whether the driver binds a value. */
  predicate Bindable(p: Param) {
    !p.BooleanParam?
  }

  /** As written: the UPDATE of `updateUser` runs only if the driver binds
      every collected value, that is, only if no assignment is to
      `is_active`. Otherwise `stmt.run` throws and the error is rethrown. */
  function UpdateRunsAsWritten(fields: seq<Assignment>): (runs: bool)
    ensures runs <==> forall i :: 0 <= i < |fields| ==> !fields[i].SetActive?
  {
    forall i :: 0 <= i < |fields| ==> Bindable(ParamOf(fields[i]))
  }

  /** Every writable entry contributes its assignment. */
  lemma {:induction false} WhitelistedKeepsWritable(entries: seq<Entry>, i: nat)
    requires AllWellTyped(entries)
    requires i < |entries| && Writable(entries[i])
    ensures AsAssignment(entries[i]) in Whitelisted(entries)
    decreases |entries|
  {
    var init := entries[..|entries| - 1];
    if i < |entries| - 1 {
      assert init[i] == entries[i];
      WhitelistedKeepsWritable(init, i);
    }
  }

  /** As written, any update that sets `is_active` to a boolean, the type
      its documentation gives, throws instead of writing. */
  lemma ActiveFlagUpdateThrows(updates: seq<Entry>, i: nat)
    requires AllWellTyped(updates)
    requires i < |updates| && updates[i].key == "is_active" && updates[i].value.Flag?
    ensures !UpdateRunsAsWritten(Whitelisted(updates))
  {
    WhitelistedKeepsWritable(updates, i);
  }

  /** The input that shows it: deactivating an account never reaches the
      UPDATE as written. */
  lemma DeactivationThrows()
    ensures var updates := [Entry("is_active", Flag(false))];
            && AllWellTyped(updates)
            && Whitelisted(updates) == [SetActive(false)]
            && !UpdateRunsAsWritten(Whitelisted(updates))
  {
    var updates := [Entry("is_active", Flag(false))];
    assert updates[..0] == [];
    ActiveFlagUpdateThrows(updates, 0);
  }

  // ------------------------------------------------------------- quoting

  /** How SQLite reads a double-quoted token. */
  datatype Term = Column(name: string) | Literal(text: string)

  /** A double-quoted token names the column of that name if there is one;
      otherwise it is a string literal only where the build accepts
      double-quoted strings; otherwise the statement does not prepare. */
  function ReadDoubleQuoted(token: string, columns: set<string>, dqsAccepted: bool): (r: Option<Term>)
    ensures token in columns ==> r == Some(Column(token))
    ensures r.None? <==> token !in columns && !dqsAccepted
    ensures r == Some(Literal(token)) <==> token !in columns && dqsAccepted
  {
    if token in columns then Some(Column(token))
    else if dqsAccepted then Some(Literal(token))
    else None
  }

  /** The columns of the sessions table. */
  const SessionColumns: set<string> := {"id", "user_id", "expires_at", "ip_address", "user_agent", "created_at"}

  /** As written: the UPDATE of `extendSession` prepares only if its
      `" minutes"` token reads as a term. Preparation comes before any row
      is looked at, so the outcome is the same for every session id and
      every number of minutes. */
  predicate ExtendPreparesAsWritten(dqsAccepted: bool) {
    ReadDoubleQuoted(" minutes", SessionColumns, dqsAccepted).Some?
  }

  /** The input that shows it: with the driver's build, which refuses
      double-quoted strings, `extendSession` throws on every call, where
      the evidently intended reading is the literal " minutes". */
  lemma ExtendNeverPrepares()
    ensures !ExtendPreparesAsWritten(false)
    ensures ReadDoubleQuoted(" minutes", SessionColumns, true) == Some(Literal(" minutes"))
  {
  }
}
