/** Deadlines as the session store actually compares them. The
    `sessions.expires_at` column holds text, and SQLite compares two texts
    byte by byte. Login stores the deadline as JavaScript's
    `toISOString()` writes it, "YYYY-MM-DDTHH:MM:SS.sssZ". The active
    lookups and the sweep compare it with `CURRENT_TIMESTAMP`, which is
    "YYYY-MM-DD HH:MM:SS". The two forms first differ in the eleventh
    character, and 'T' sorts after ' '. On the day of its deadline an ISO
    deadline therefore sorts after every clock reading of that day.

    The rest of the model keeps instants as integers and compares those
    (`SessionModel.IsActive`). This module models the texts, the comparison
    as written, and the comparison once both sides share one form. */
module Timestamps {

  /** SQLite's BINARY collation: byte-wise order, a proper prefix first. */
  predicate TextLess(a: string, b: string)
    decreases |a|
  {
    if a == [] then b != []
    else if b == [] then false
    else if a[0] != b[0] then a[0] < b[0]
    else TextLess(a[1..], b[1..])
  }

  /** A UTC instant to the second: its date "YYYY-MM-DD" and its time of
      day "HH:MM:SS". */
  datatype DateTime = DateTime(date: string, time: string)

  predicate IsDigit(c: char) {
    '0' <= c <= '9'
  }

  function Digit(c: char): int {
    c as int - '0' as int
  }

  /** "YYYY-MM-DD" */
  predicate WellFormedDate(d: string) {
    && |d| == 10 && d[4] == '-' && d[7] == '-'
    && IsDigit(d[0]) && IsDigit(d[1]) && IsDigit(d[2]) && IsDigit(d[3])
    && IsDigit(d[5]) && IsDigit(d[6]) && IsDigit(d[8]) && IsDigit(d[9])
  }

  /** "HH:MM:SS", with minutes and seconds below 60. */
  predicate WellFormedTime(t: string) {
    && |t| == 8 && t[2] == ':' && t[5] == ':'
    && IsDigit(t[0]) && IsDigit(t[1])
    && '0' <= t[3] <= '5' && IsDigit(t[4])
    && '0' <= t[6] <= '5' && IsDigit(t[7])
  }

  predicate WellFormed(t: DateTime) {
    WellFormedDate(t.date) && WellFormedTime(t.time)
  }

  /** The seconds elapsed since midnight at a time of day. */
  function SecondOfDay(t: string): int
    requires |t| == 8
  {
    (10 * Digit(t[0]) + Digit(t[1])) * 3600 + (10 * Digit(t[3]) + Digit(t[4])) * 60 + 10 * Digit(t[6]) + Digit(t[7])
  }

  /** `toISOString()`, the form in which login stores a deadline;
      `millis` are the three digits of milliseconds. */
  function IsoText(t: DateTime, millis: string): string {
    t.date + "T" + t.time + "." + millis + "Z"
  }

  /** `CURRENT_TIMESTAMP`, and the form in which `datetime()` writes a
      deadline back when a session is extended. */
  function SqlText(t: DateTime): string {
    t.date + " " + t.time
  }

  /** As written: `expires_at > CURRENT_TIMESTAMP` with an ISO deadline. The
      sweep's `expires_at <= CURRENT_TIMESTAMP` is its negation. */
  predicate ActiveAsWritten(expiresAt: DateTime, millis: string, now: DateTime) {
    TextLess(SqlText(now), IsoText(expiresAt, millis))
  }

  /** As intended: the deadline is kept in the clock's own form, so the text
      comparison is a comparison of instants. */
  predicate ActiveCorrected(expiresAt: DateTime, now: DateTime) {
    TextLess(SqlText(now), SqlText(expiresAt))
  }

  // ---------------------------------------------------- the text order

  /** A common prefix does not decide the order: comparison resumes after it. */
  lemma {:induction false} TextLessAfterCommonPrefix(a: string, b: string, k: nat)
    requires k <= |a| && k <= |b| && a[..k] == b[..k]
    ensures TextLess(a, b) == TextLess(a[k..], b[k..])
    decreases k
  {
    if k > 0 {
      assert a[0] == a[..k][0] == b[..k][0] == b[0];
      assert a[1..][..k - 1] == a[1..k] == b[1..k] == b[1..][..k - 1];
      TextLessAfterCommonPrefix(a[1..], b[1..], k - 1);
      assert a[1..][k - 1..] == a[k..] && b[1..][k - 1..] == b[k..];
    }
  }

  /** Prepending the same text to both sides keeps their order. */
  lemma SharedPrefix(p: string, x: string, y: string)
    ensures TextLess(p + x, p + y) == TextLess(x, y)
  {
    assert (p + x)[..|p|] == p == (p + y)[..|p|];
    TextLessAfterCommonPrefix(p + x, p + y, |p|);
    assert (p + x)[|p|..] == x && (p + y)[|p|..] == y;
  }

  /** The first position at which two different texts of one length differ. */
  lemma {:induction false} FirstDifference(a: string, b: string) returns (k: nat)
    requires |a| == |b| && a != b
    ensures k < |a| && a[..k] == b[..k] && a[k] != b[k]
    decreases |a|
  {
    if a[0] != b[0] {
      k := 0;
    } else {
      assert a == [a[0]] + a[1..] && b == [b[0]] + b[1..];
      var j := FirstDifference(a[1..], b[1..]);
      k := j + 1;
      assert a[..k] == [a[0]] + a[1..][..j] == [b[0]] + b[1..][..j] == b[..k];
    }
  }

  /** Of two texts that begin with different pieces of one length, those
      pieces alone decide the order; whatever follows is never looked at. */
  lemma DecidedByFirstPiece(a: string, b: string, x: string, y: string)
    requires |a| == |b| && a != b
    ensures TextLess(a + x, b + y) == TextLess(a, b)
  {
    var k := FirstDifference(a, b);
    assert (a + x)[..k] == a[..k] == b[..k] == (b + y)[..k];
    TextLessAfterCommonPrefix(a + x, b + y, k);
    TextLessAfterCommonPrefix(a, b, k);
    assert (a + x)[k..][0] == a[k] && (b + y)[k..][0] == b[k];
    assert a[k..][0] == a[k] && b[k..][0] == b[k];
  }

  /** Times of day in "HH:MM:SS" sort as text exactly as they sort in time. */
  lemma TimeTextOrder(a: string, b: string)
    requires WellFormedTime(a) && WellFormedTime(b)
    ensures TextLess(a, b) <==> SecondOfDay(a) < SecondOfDay(b)
  {
    if a == b {
      assert a[..8] == b[..8];
      TextLessAfterCommonPrefix(a, b, 8);
    } else {
      var k := FirstDifference(a, b);
      TextLessAfterCommonPrefix(a, b, k);
      assert a[k..][0] == a[k] && b[k..][0] == b[k];
      assert forall i :: 0 <= i < k ==> a[i] == a[..k][i] == b[..k][i] == b[i];
    }
  }

  // --------------------------------------------------------- the finding

  /** As written, a deadline never passes on its own day: on the date of
      the deadline, at any time of that day and whatever the deadline's time
      was, the session counts as active and the sweep keeps it. */
  lemma ActiveUntilEndOfDeadlineDay(expiresAt: DateTime, millis: string, now: DateTime)
    requires now.date == expiresAt.date
    ensures ActiveAsWritten(expiresAt, millis, now)
  {
    var rest := "T" + expiresAt.time + "." + millis + "Z";
    assert SqlText(now) == now.date + (" " + now.time);
    assert IsoText(expiresAt, millis) == now.date + rest;
    SharedPrefix(now.date, " " + now.time, rest);
    assert (" " + now.time)[0] == ' ' && rest[0] == 'T';
  }

  /** On any other date both comparisons agree: the dates decide. */
  lemma OtherDaysAgree(expiresAt: DateTime, millis: string, now: DateTime)
    requires WellFormed(expiresAt) && WellFormed(now) && now.date != expiresAt.date
    ensures ActiveAsWritten(expiresAt, millis, now) == ActiveCorrected(expiresAt, now) == TextLess(now.date, expiresAt.date)
  {
    DecidedByFirstPiece(now.date, expiresAt.date, " " + now.time, "T" + expiresAt.time + "." + millis + "Z");
    DecidedByFirstPiece(now.date, expiresAt.date, " " + now.time, " " + expiresAt.time);
    assert SqlText(now) == now.date + (" " + now.time);
    assert SqlText(expiresAt) == expiresAt.date + (" " + expiresAt.time);
    assert IsoText(expiresAt, millis) == expiresAt.date + ("T" + expiresAt.time + "." + millis + "Z");
  }

  /** The corrected comparison on the deadline's own day: the session is
      active exactly while the clock's time of day is before the deadline's. */
  lemma CorrectedSameDay(expiresAt: DateTime, now: DateTime)
    requires WellFormed(expiresAt) && WellFormed(now) && now.date == expiresAt.date
    ensures ActiveCorrected(expiresAt, now) <==> SecondOfDay(now.time) < SecondOfDay(expiresAt.time)
  {
    assert SqlText(now) == now.date + (" " + now.time);
    assert SqlText(expiresAt) == now.date + (" " + expiresAt.time);
    SharedPrefix(now.date, " " + now.time, " " + expiresAt.time);
    SharedPrefix(" ", now.time, expiresAt.time);
    TimeTextOrder(now.time, expiresAt.time);
  }

  /** The input that shows it: a session due at 10:00 UTC is still active at
      12:00 UTC the same day as written, and inactive once corrected. */
  lemma ExpiredSessionStillActive()
    ensures var expiresAt := DateTime("2026-10-24", "10:00:00");
            var now := DateTime("2026-10-24", "12:00:00");
            && WellFormed(expiresAt) && WellFormed(now)
            && SecondOfDay(expiresAt.time) < SecondOfDay(now.time)
            && ActiveAsWritten(expiresAt, "000", now)
            && !ActiveCorrected(expiresAt, now)
  {
    var expiresAt := DateTime("2026-10-24", "10:00:00");
    var now := DateTime("2026-10-24", "12:00:00");
    ActiveUntilEndOfDeadlineDay(expiresAt, "000", now);
    CorrectedSameDay(expiresAt, now);
  }
}
