// The pause before a retry.
module OutboxBackoff {
  import opened Common
  import opened Envelopes
  import opened Outbox
  import opened OutboxProtocol
  import opened SqliteBusObject
  import P = OutboxProgress

  // After any number of failures a retry is due 10 ms after the instant at which the last
  // one began to be recorded; so a pause of 10 ms for each attempt, as documented, is what
  // happens after the first failure and after no other.
  lemma BackoffIsConstant(maxRetries: int, t: Trace, s: Sys, id: EventId)
    requires Reachable(maxRetries, t, s)
    requires id in s.db.outbox && s.db.outbox[id].status == Retrying
    ensures
      var row, failedAt := s.db.outbox[id], HistoryOf(t, id).failedAt;
      && row.nextAttemptAt == failedAt + 10_000_000
      && (row.nextAttemptAt == failedAt + 10_000_000 * row.attempts <==> row.attempts == 1)
  {
    InvHolds(maxRetries, t, s);
    assert RowAt(maxRetries, HistoryOf(t, id), s.db, id);
  }

  // One worker, idle, and one event that is due at `at` after `n` failures.
  ghost predicate FailedSoFar(s: Sys, id: EventId, n: nat, at: Instant) {
    && s.workers == map[0 := Idle]
    && s.db.outbox.Keys == {id} && s.db.handled == map[]
    && s.db.outbox[id].attempts == n && s.db.outbox[id].nextAttemptAt == at
    && s.db.outbox[id].status == if n == 0 then Pending else Retrying
  }

  lemma FailOnceMore(maxRetries: int, t: Trace, s: Sys, id: EventId, n: nat, from: Instant, at: Instant,
                     message: string) returns (t': Trace, s': Sys)
    requires Reachable(maxRetries, t, s) && FailedSoFar(s, id, n, at) && n + 1 < maxRetries
    requires P.Rises(t, from) && P.EndsBy(t, at) && from <= at
    ensures Reachable(maxRetries, t', s') && FailedSoFar(s', id, n + 1, at + BACKOFF)
    ensures P.Rises(t', from) && P.EndsBy(t', at + BACKOFF)
  {
    assert id in s.db.outbox.Keys;
    var u := PassIsARun(maxRetries, s, 0, id, None, Err(message), at, at);
    Continue(maxRetries, t, s, u);
    P.OneInstantRises(u, at);
    P.JoinRises(t, from, u, at);
    t' := t + u;
    s' := Sys(Processed(maxRetries, s.db, id, Err(message), at, at), s.workers[0 := Idle]);
  }

  // Every number of failures below the limit is reached, so with max_retries of at least 3
  // the documented pause is indeed not the one that is made.
  lemma {:induction false} FailTimes(maxRetries: int, e: EventEnvelope, now: Instant, message: string, n: nat)
    returns (t: Trace, s: Sys)
    requires Valid(e) && (n == 0 || n < maxRetries)
    ensures Reachable(maxRetries, t, s) && FailedSoFar(s, e.id, n, now + n * BACKOFF)
    ensures P.Rises(t, now) && P.EndsBy(t, now + n * BACKOFF)
  {
    if n == 0 {
      t, s := Extend(maxRetries, [], INITIAL, DoPublish(e, now));
      t, s := Extend(maxRetries, t, s, Does(0, Subscribe));
      P.OneInstantRises(t, now);
    } else {
      var at := now + (n - 1) * BACKOFF;
      t, s := FailTimes(maxRetries, e, now, message, n - 1);
      t, s := FailOnceMore(maxRetries, t, s, e.id, n - 1, now, at, message);
    }
  }

  lemma DocumentedBackoffFails(maxRetries: int, e: EventEnvelope, now: Instant, n: nat)
    returns (t: Trace, s: Sys)
    requires Valid(e) && 2 <= n < maxRetries
    ensures Reachable(maxRetries, t, s) && e.id in s.db.outbox && P.Rises(t, now)
    ensures
      var row, failedAt := s.db.outbox[e.id], HistoryOf(t, e.id).failedAt;
      && row.status == Retrying && row.attempts == n
      && row.nextAttemptAt < failedAt + 10_000_000 * row.attempts
  {
    t, s := FailTimes(maxRetries, e, now, "", n);
    assert e.id in s.db.outbox.Keys;
    BackoffIsConstant(maxRetries, t, s, e.id);
  }
}
