/**
 * The greylist retry worker: one pass of its loop fetches the due rows,
 * re-probes each address on its stored exchanger, and deletes the row (when
 * the mailbox was accepted or the attempts are used up) or reschedules it with
 * an exponentially growing delay. The SMTP session of `probe_email` is an
 * oracle: `probe(mxHost, email)` is what the session produced.
 */
module GreylistRetry {
  import opened GreylistDb

  const RETRY_DELAY_BASE: int := 600
  const MAX_TRIES: int := 3
  /** The default `limit` of `fetch_due`, which the worker uses. */
  const FETCH_LIMIT: int := 50
  /** `SMTPStatus.completed`. */
  const SMTP_COMPLETED: int := 250

  /** How the session of `probe_email` ended: an RCPT reply code, or an exception somewhere. */
  datatype ProbeSession = RcptReply(code: int) | SessionFailed

  type Prober = (string, string) -> ProbeSession

  /** `probe_email`: success exactly when RCPT was answered with 250. */
  function ProbeEmail(session: ProbeSession): (ok: bool)
    ensures ok <==> session == RcptReply(SMTP_COMPLETED)
  {
    match session
    case RcptReply(code) => code == SMTP_COMPLETED
    case SessionFailed => false
  }

  function Pow2(n: nat): (p: nat)
    ensures p >= 1
  {
    if n == 0 then 1 else 2 * Pow2(n - 1)
  }

  /** `RETRY_DELAY_BASE * (2 ** tries)`. */
  function BackoffDelay(tries: nat): int
  {
    RETRY_DELAY_BASE * Pow2(tries)
  }

  /** The delay doubles with every attempt, so it strictly increases. */
  lemma {:induction false} BackoffGrows(m: nat, n: nat)
    requires m < n
    ensures BackoffDelay(m) < BackoffDelay(n)
    ensures BackoffDelay(n) > 0
    decreases n
  {
    if m < n - 1 {
      BackoffGrows(m, n - 1);
    }
  }

  lemma BackoffValues()
    ensures BackoffDelay(1) == 1200 && BackoffDelay(2) == 2400
  {
  }

  /** Whether the pass deletes a fetched row (`success is True or tries >= MAX_TRIES`). */
  predicate Resolved(row: DueRow, probe: Prober)
  {
    ProbeEmail(probe(row.mxHost, row.email)) || row.tries >= MAX_TRIES
  }

  predicate FromStore(batch: seq<DueRow>)
  {
    forall i :: 0 <= i < |batch| ==> batch[i].tries >= 1
  }

  /** What handling one fetched row does to the table. */
  function Step(t: Table, row: DueRow, probe: Prober, now: int): Table
    requires row.tries >= 1
  {
    if Resolved(row, probe) then t - {row.email}
    else Upserted(t, row.email, row.mxHost, now, BackoffDelay(row.tries))
  }

  /** The table after handling `batch` in order. */
  function PassTable(t: Table, batch: seq<DueRow>, probe: Prober, now: int): Table
    requires FromStore(batch)
  {
    if batch == [] then t
    else Step(PassTable(t, batch[..|batch| - 1], probe, now), batch[|batch| - 1], probe, now)
  }

  predicate InBatch(email: string, batch: seq<DueRow>)
  {
    exists i :: 0 <= i < |batch| && batch[i].email == email
  }

  /** Records not in the fetched batch are untouched by a pass. */
  lemma {:induction false} PassFramed(t: Table, batch: seq<DueRow>, probe: Prober, now: int, e: string)
    requires FromStore(batch)
    requires !InBatch(e, batch)
    ensures var u := PassTable(t, batch, probe, now);
      (e in u <==> e in t) && (e in t ==> u[e] == t[e])
  {
    if batch != [] {
      var prefix := batch[..|batch| - 1];
      assert !InBatch(e, prefix) by {
        forall i | 0 <= i < |prefix| ensures prefix[i].email != e {
          assert prefix[i] == batch[i];
        }
      }
      PassFramed(t, prefix, probe, now, e);
    }
  }

  /**
   * How a pass leaves a fetched row: deleted when it resolved, otherwise one
   * more attempt, last tried now, due after `600 * 2^tries` for the fetched
   * `tries`.
   */
  lemma {:induction false} PassOutcome(t: Table, batch: seq<DueRow>, probe: Prober, now: int, k: nat)
    requires FromStore(batch) && RowsMatch(t, batch)
    requires k < |batch|
    ensures var row, u := batch[k], PassTable(t, batch, probe, now);
      if Resolved(row, probe) then row.email !in u
      else row.email in u && u[row.email] == Record(row.mxHost, now, now + BackoffDelay(row.tries), row.tries + 1)
  {
    var n := |batch| - 1;
    var prefix := batch[..n];
    assert FromStore(prefix);
    assert RowsMatch(t, prefix) by {
      forall i | 0 <= i < |prefix| ensures prefix[i] == batch[i] { }
    }
    var row := batch[k];
    if k == n {
      assert !InBatch(row.email, prefix) by {
        forall i | 0 <= i < |prefix| ensures prefix[i].email != row.email {
          assert prefix[i] == batch[i];
        }
      }
      PassFramed(t, prefix, probe, now, row.email);
    } else {
      assert prefix[k] == row;
      PassOutcome(t, prefix, probe, now, k);
      assert batch[n].email != row.email;
    }
  }

  /** Every resolved row of the batch is gone after the pass; the others remain. */
  lemma PassDeletesResolved(t: Table, batch: seq<DueRow>, probe: Prober, now: int)
    requires FromStore(batch) && RowsMatch(t, batch)
    ensures forall k :: 0 <= k < |batch| ==>
      (batch[k].email in PassTable(t, batch, probe, now) <==> !Resolved(batch[k], probe))
  {
    forall k | 0 <= k < |batch|
      ensures batch[k].email in PassTable(t, batch, probe, now) <==> !Resolved(batch[k], probe)
    {
      PassOutcome(t, batch, probe, now, k);
    }
  }

  /** A pass keeps both table invariants. */
  lemma {:induction false} PassInvariants(t: Table, batch: seq<DueRow>, probe: Prober, now: int)
    requires FromStore(batch)
    ensures TriesPositive(t) ==> TriesPositive(PassTable(t, batch, probe, now))
    ensures Scheduled(t) ==> Scheduled(PassTable(t, batch, probe, now))
  {
    if batch != [] {
      var n := |batch| - 1;
      var prefix := batch[..n];
      PassInvariants(t, prefix, probe, now);
      var mid := PassTable(t, prefix, probe, now);
      var row := batch[n];
      if !Resolved(row, probe) {
        BackoffGrows(0, row.tries);
        UpsertInvariants(mid, row.email, row.mxHost, now, BackoffDelay(row.tries));
      }
    }
  }

  /** A pass never brings back a deleted address. */
  lemma {:induction false} PassNoResurrection(t: Table, batch: seq<DueRow>, probe: Prober, now: int, e: string)
    requires FromStore(batch) && RowsMatch(t, batch)
    requires e !in t
    ensures e !in PassTable(t, batch, probe, now)
  {
    assert !InBatch(e, batch);
    PassFramed(t, batch, probe, now, e);
  }

  /**
   * The retry bound: a record with one attempt that is due in each pass
   * while it exists, with nothing else writing to it, is gone after the third
   * pass, whatever the probes answer.
   */
  lemma RemovedByThirdDuePass(
    t0: Table, e: string,
    b1: seq<DueRow>, p1: Prober, n1: int,
    b2: seq<DueRow>, p2: Prober, n2: int,
    b3: seq<DueRow>, p3: Prober, n3: int)
    requires e in t0 && t0[e].tries == 1
    requires FromStore(b1) && RowsMatch(t0, b1) && InBatch(e, b1)
    requires FromStore(b2) && FromStore(b3)
    requires var t1 := PassTable(t0, b1, p1, n1);
      RowsMatch(t1, b2) && (e in t1 ==> InBatch(e, b2))
    requires var t2 := PassTable(PassTable(t0, b1, p1, n1), b2, p2, n2);
      RowsMatch(t2, b3) && (e in t2 ==> InBatch(e, b3))
    ensures e !in PassTable(PassTable(PassTable(t0, b1, p1, n1), b2, p2, n2), b3, p3, n3)
  {
    var t1 := PassTable(t0, b1, p1, n1);
    var t2 := PassTable(t1, b2, p2, n2);
    var t3 := PassTable(t2, b3, p3, n3);
    var k1 :| 0 <= k1 < |b1| && b1[k1].email == e;
    PassOutcome(t0, b1, p1, n1, k1);
    if e !in t1 {
      PassNoResurrection(t1, b2, p2, n2, e);
      PassNoResurrection(t2, b3, p3, n3, e);
    } else {
      assert t1[e].tries == 2;
      var k2 :| 0 <= k2 < |b2| && b2[k2].email == e;
      PassOutcome(t1, b2, p2, n2, k2);
      if e !in t2 {
        PassNoResurrection(t2, b3, p3, n3, e);
      } else {
        assert t2[e].tries == 3;
        var k3 :| 0 <= k3 < |b3| && b3[k3].email == e;
        PassOutcome(t2, b3, p3, n3, k3);
      }
    }
  }

  /**
   * One pass of the `retry_worker` loop body: fetch up to 50 due rows, then
   * handle each one. Returns the fetched batch.
   */
  method RetryPass(store: GreylistStore, probe: Prober, now: int) returns (due: seq<DueRow>)
    requires store.Valid()
    modifies store
    ensures store.Valid()
    ensures RowsMatch(old(store.table), due) && FromStore(due)
    ensures forall i :: 0 <= i < |due| ==> old(store.table)[due[i].email].nextTry <= now
    ensures |due| == LimitCount(|DueEmails(old(store.table), now)|, FETCH_LIMIT)
    ensures store.table == PassTable(old(store.table), due, probe, now)
  {
    due := store.FetchDue(FETCH_LIMIT, now);
    assert FromStore(due);
    var i := 0;
    while i < |due|
      invariant 0 <= i <= |due|
      invariant store.Valid()
      invariant store.table == PassTable(old(store.table), due[..i], probe, now)
    {
      var row := due[i];
      assert due[..i + 1][..i] == due[..i];
      var success := ProbeEmail(probe(row.mxHost, row.email));
      if success || row.tries >= MAX_TRIES {
        store.Delete(row.email);
      } else {
        store.Upsert(row.email, row.mxHost, RETRY_DELAY_BASE * Pow2(row.tries), row.tries, now);
      }
      i := i + 1;
    }
    assert due[..i] == due;
  }
}
