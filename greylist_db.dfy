/**
 * The greylist table: one row per e-mail address whose SMTP probe was
 * deferred, with the exchanger last tried, the time of the last attempt, the
 * time the next attempt falls due and the number of attempts so far. The
 * SQLite file becomes a map held by a store object; every operation that reads
 * the clock receives the current time `now` (whole epoch seconds) instead.
 */
module GreylistDb {

  /** A row of the `greylist` table, without its key `email`. */
  datatype Record = Record(mxHost: string, lastTry: int, nextTry: int, tries: int)

  /** The table, keyed by its primary key `email`: one row per address. */
  type Table = map<string, Record>

  /** A row as `fetch_due` selects it: `email, mx_host, tries`. */
  datatype DueRow = DueRow(email: string, mxHost: string, tries: int)

  /** Every stored record has been attempted at least once. */
  ghost predicate TriesPositive(t: Table)
  {
    forall e :: e in t ==> t[e].tries >= 1
  }

  /** Every stored record falls due strictly after its last attempt. */
  ghost predicate Scheduled(t: Table)
  {
    forall e :: e in t ==> t[e].nextTry > t[e].lastTry
  }

  /**
   * The table after `INSERT ... VALUES (email, mx_host, now, now + delay, 1)
   * ON CONFLICT(email) DO UPDATE SET mx_host, last_try, next_try = excluded,
   * tries = greylist.tries + 1`.
   */
  function Upserted(t: Table, email: string, mxHost: string, now: int, retryDelay: int): Table
  {
    var tries := if email in t then t[email].tries + 1 else 1;
    t[email := Record(mxHost, now, now + retryDelay, tries)]
  }

  /** An absent address gets exactly one fresh record with one attempt. */
  lemma UpsertAbsent(t: Table, email: string, mxHost: string, now: int, retryDelay: int)
    requires email !in t
    ensures var u := Upserted(t, email, mxHost, now, retryDelay);
      && u.Keys == t.Keys + {email} && |u| == |t| + 1
      && u[email] == Record(mxHost, now, now + retryDelay, 1)
  {
  }

  /**
   * A present address keeps its single row: the attempt count goes up by one
   * and the exchanger and both timestamps are overwritten.
   */
  lemma UpsertPresent(t: Table, email: string, mxHost: string, now: int, retryDelay: int)
    requires email in t
    ensures var u := Upserted(t, email, mxHost, now, retryDelay);
      && u.Keys == t.Keys && |u| == |t|
      && u[email] == Record(mxHost, now, now + retryDelay, t[email].tries + 1)
  {
  }

  /** Other addresses' rows are not touched by an upsert. */
  lemma UpsertFramed(t: Table, email: string, mxHost: string, now: int, retryDelay: int, other: string)
    requires other != email
    ensures var u := Upserted(t, email, mxHost, now, retryDelay);
      (other in u <==> other in t) && (other in t ==> u[other] == t[other])
  {
  }

  /**
   * The written record is due exactly `retryDelay` seconds after its last
   * attempt, and an upsert keeps both table invariants (the second one for a
   * positive delay).
   */
  lemma UpsertInvariants(t: Table, email: string, mxHost: string, now: int, retryDelay: int)
    ensures var u := Upserted(t, email, mxHost, now, retryDelay);
      && u[email].nextTry - u[email].lastTry == retryDelay
      && (TriesPositive(t) ==> TriesPositive(u))
      && (Scheduled(t) && retryDelay > 0 ==> Scheduled(u))
  {
  }

  /** Two upserts of one address leave one row that has counted both. */
  lemma UpsertTwice(t: Table, email: string, mxHost: string, now1: int, now2: int, retryDelay: int)
    ensures var u := Upserted(Upserted(t, email, mxHost, now1, retryDelay), email, mxHost, now2, retryDelay);
      && u.Keys == t.Keys + {email}
      && u[email].tries == (if email in t then t[email].tries else 0) + 2
  {
  }

  /** The addresses `WHERE next_try <= now` selects. */
  function DueEmails(t: Table, now: int): set<string>
  {
    set e | e in t && t[e].nextTry <= now
  }

  /** The number of rows `LIMIT limit` lets through; SQLite reads a negative limit as none. */
  function LimitCount(available: nat, limit: int): (n: nat)
    ensures n <= available
    ensures limit >= 0 ==> n <= limit
    ensures n == available || n == limit
  {
    if 0 <= limit < available then limit else available
  }

  /** Each row shows its record's current values, and no address comes twice. */
  ghost predicate RowsMatch(t: Table, rows: seq<DueRow>)
  {
    && (forall i :: 0 <= i < |rows| ==>
          rows[i].email in t && rows[i] == DueRow(rows[i].email, t[rows[i].email].mxHost, t[rows[i].email].tries))
    && (forall i, j :: 0 <= i < j < |rows| ==> rows[i].email != rows[j].email)
  }

  class GreylistStore {
    var table: Table

    ghost predicate Valid()
      reads this
    {
      TriesPositive(table)
    }

    constructor ()
      ensures Valid() && table == map[]
    {
      table := map[];
    }

    /**
     * `upsert_greylist_sync`. The `tries` argument is accepted and ignored:
     * the stored count depends only on whether the row already existed.
     */
    method UpsertSync(email: string, mxHost: string, retryDelay: int, tries: int, now: int)
      requires Valid()
      modifies this
      ensures Valid()
      ensures table == Upserted(old(table), email, mxHost, now, retryDelay)
    {
      var nextTry := now + retryDelay;
      var count := if email in table then table[email].tries + 1 else 1;
      table := table[email := Record(mxHost, now, nextTry, count)];
    }

    /** `upsert_greylist`, the asynchronous twin: the same statement, so the same effect. */
    method Upsert(email: string, mxHost: string, retryDelay: int, tries: int, now: int)
      requires Valid()
      modifies this
      ensures Valid()
      ensures table == Upserted(old(table), email, mxHost, now, retryDelay)
    {
      var nextTry := now + retryDelay;
      var count := if email in table then table[email].tries + 1 else 1;
      table := table[email := Record(mxHost, now, nextTry, count)];
    }

    /**
     * `fetch_due(limit)`: up to `limit` due rows, in no particular order and
     * without saying which ones when more are due.
     */
    method FetchDue(limit: int, now: int) returns (rows: seq<DueRow>)
      requires Valid()
      ensures RowsMatch(table, rows)
      ensures forall i :: 0 <= i < |rows| ==> table[rows[i].email].nextTry <= now
      ensures |rows| == LimitCount(|DueEmails(table, now)|, limit)
    {
      var due := DueEmails(table, now);
      var pending := due;
      rows := [];
      while pending != {} && (limit < 0 || |rows| < limit)
        invariant pending <= due
        invariant RowsMatch(table, rows)
        invariant forall i :: 0 <= i < |rows| ==> rows[i].email in due && rows[i].email !in pending
        invariant |rows| + |pending| == |due|
        invariant limit >= 0 ==> |rows| <= limit
        decreases pending
      {
        var e :| e in pending;
        rows := rows + [DueRow(e, table[e].mxHost, table[e].tries)];
        pending := pending - {e};
      }
    }

    /** `delete_entry`: removes the address's row if there is one. */
    method Delete(email: string)
      requires Valid()
      modifies this
      ensures Valid()
      ensures table == old(table) - {email}
    {
      table := table - {email};
    }
  }

  /** Deleting removes exactly the given address; deleting an absent one changes nothing. */
  lemma DeleteEffect(t: Table, email: string)
    ensures (t - {email}).Keys == t.Keys - {email}
    ensures forall e :: e in t && e != email ==> (t - {email})[e] == t[e]
    ensures email !in t ==> t - {email} == t
  {
  }
}
