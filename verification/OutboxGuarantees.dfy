// What the outbox protocol guarantees over every run, with any number of workers, any
// interleaving, aborts and SQL errors.
module OutboxGuarantees {
  import opened Common
  import opened Envelopes
  import opened Outbox
  import opened OutboxProtocol

  // ----- Exclusivity -----

  // No two workers hold the same event, and the row of a held event is in progress.
  lemma ClaimIsExclusive(maxRetries: int, t: Trace, s: Sys, v: WorkerId, w: WorkerId, id: EventId)
    requires Reachable(maxRetries, t, s)
    requires Held(At(s, v)) == Held(At(s, w)) == Some(id)
    ensures v == w && id in s.db.outbox && s.db.outbox[id].status == InProgress
  {
    InvHolds(maxRetries, t, s);
    assert Apart(s, v, w) && Fits(HistoryOf(t, id), s.db, At(s, v), id);
  }

  // While a worker holds an event nobody else changes its row: it goes on holding it,
  // row untouched, until it marks the event itself, is aborted or hits an error.
  lemma HoldIsStable(maxRetries: int, t: Trace, s: Sys, a: Action, w: WorkerId, id: EventId)
    requires Reachable(maxRetries, t, s) && Enabled(s, a)
    requires Held(At(s, w)) == Some(id)
    ensures
      var s' := Next(maxRetries, s, a);
      || (Held(At(s', w)) == Some(id) && id in s.db.outbox && id in s'.db.outbox
          && s'.db.outbox[id] == s.db.outbox[id])
      || (a.Does? && a.w == w
          && (a.op.Abort? || a.op.SqlError? || a.op.CommitHandled? || a.op.CommitFailure?))
  {
    InvHolds(maxRetries, t, s);
    assert Fits(HistoryOf(t, id), s.db, At(s, w), id);
    if a.Does? {
      assert Apart(s, a.w, w);
    }
  }

  // ----- The attempts counter -----

  // `mark_failed` reads `attempts` and writes it back in two separate statements, yet what
  // it writes is what one atomic increment at the moment of the write would have written.
  lemma SplitIncrementIsAtomic(maxRetries: int, t: Trace, s: Sys, w: WorkerId)
    requires Reachable(maxRetries, t, s)
    requires At(s, w).FailedRead?
    ensures
      var FailedRead(id, error, read, now) := At(s, w);
      && Effect(maxRetries, s.db, At(s, w), CommitFailure(id)) == MarkFailed(maxRetries, s.db, id, now, error)
      && id in s.db.outbox
      && read == s.db.outbox[id].attempts
  {
    InvHolds(maxRetries, t, s);
    assert Fits(HistoryOf(t, At(s, w).id), s.db, At(s, w), At(s, w).id);
  }

  // No failure is lost or counted twice: `attempts` is the number of failed handler runs,
  // except that one failure may still be unwritten while the row is in progress; and
  // `last_error` is the error of the failure counted last.
  lemma FailuresAreCounted(maxRetries: int, t: Trace, s: Sys, id: EventId)
    requires Reachable(maxRetries, t, s)
    requires id in s.db.outbox
    ensures
      var errors, row := HistoryOf(t, id).errors, s.db.outbox[id];
      && 0 <= row.attempts <= |errors| <= row.attempts + 1
      && (|errors| == row.attempts + 1 ==> row.status == InProgress)
      && row.lastError == if row.attempts == 0 then None else Some(errors[row.attempts - 1])
  {
    InvHolds(maxRetries, t, s);
    assert RowAt(maxRetries, HistoryOf(t, id), s.db, id);
  }

  // The status of a row fixes the range of its attempts, and over the whole run the
  // handler is started at most max(1, maxRetries) times per event, whatever maxRetries is.
  lemma RetryBudget(maxRetries: int, t: Trace, s: Sys, id: EventId)
    requires Reachable(maxRetries, t, s)
    ensures HistoryOf(t, id).invoked <= Budget(maxRetries)
    ensures id !in s.db.outbox ==> HistoryOf(t, id).invoked == 0
    ensures id in s.db.outbox ==>
      var row, h := s.db.outbox[id], HistoryOf(t, id);
      match row.status
      case Pending => row.attempts == 0 == h.invoked
      case Retrying => 1 <= row.attempts < maxRetries && h.invoked == |h.errors| == row.attempts
      case Dlq => row.attempts == Budget(maxRetries) == h.invoked == |h.errors|
      case InProgress => 0 <= row.attempts < Budget(maxRetries)
      case Acked => 0 <= row.attempts < Budget(maxRetries) && h.invoked == row.attempts + 1
  {
    InvHolds(maxRetries, t, s);
    assert RowAt(maxRetries, HistoryOf(t, id), s.db, id);
  }

  // A failed event is not tried again within 10 ms of the instant at which `mark_failed`
  // began to record its failure.
  lemma RetriesWait(maxRetries: int, t: Trace, s: Sys, w: WorkerId, id: EventId, now: Instant)
    requires Reachable(maxRetries, t, s) && CanDo(s.db, At(s, w), Select(id, now))
    ensures HistoryOf(t, id).errors != [] ==> HistoryOf(t, id).failedAt + 10_000_000 <= now
  {
    InvHolds(maxRetries, t, s);
    assert RowAt(maxRetries, HistoryOf(t, id), s.db, id);
  }

  // ----- Acknowledgement -----

  // A row is acked exactly when its id is in handled_events, and then its handler
  // succeeded exactly once; no handler ever succeeds twice for one event.
  lemma HandledExactlyWhenAcked(maxRetries: int, t: Trace, s: Sys, id: EventId)
    requires Reachable(maxRetries, t, s)
    ensures id in s.db.handled <==> id in s.db.outbox && s.db.outbox[id].status == Acked
    ensures id in s.db.handled ==> HistoryOf(t, id).oks == 1
    ensures HistoryOf(t, id).oks <= 1
    ensures HistoryOf(t, id).oks == 1 ==>
      id in s.db.outbox && s.db.outbox[id].status in {InProgress, Acked}
  {
    InvHolds(maxRetries, t, s);
    assert HandledAt(s.db, id) && RowAt(maxRetries, HistoryOf(t, id), s.db, id);
  }

  // Two branches of the worker are dead code as long as only the bus writes its tables:
  // the `already_handled` shortcut, and `mark_failed` finding no row.
  lemma DeadBranches(maxRetries: int, t: Trace, s: Sys, w: WorkerId)
    requires Reachable(maxRetries, t, s)
    ensures !At(s, w).AlreadyHandled?
    ensures At(s, w).Claimed? ==> At(s, w).id !in s.db.handled
    ensures At(s, w).Failed? ==> At(s, w).id in s.db.outbox
  {
    InvHolds(maxRetries, t, s);
    var pc := At(s, w);
    if Held(pc).Some? {
      assert Fits(HistoryOf(t, pc.id), s.db, pc, pc.id) && HandledAt(s.db, pc.id);
    }
  }

  // ----- Abandoned claims -----

  ghost predicate Orphaned(s: Sys, id: EventId) {
    && id in s.db.outbox
    && s.db.outbox[id].status == InProgress
    && !HeldBySomeone(s, id)
  }

  // A row is left in progress with no owner exactly when the trace aborted its holder or
  // made it fail.
  lemma OrphanedExactlyWhenAbandoned(maxRetries: int, t: Trace, s: Sys, id: EventId)
    requires Reachable(maxRetries, t, s)
    ensures Orphaned(s, id) <==> HistoryOf(t, id).abandoned
  {
    InvHolds(maxRetries, t, s);
    var h := HistoryOf(t, id);
    assert OrphanAt(h, s, id) && RowAt(maxRetries, h, s.db, id);
    forall w: WorkerId ensures h.abandoned ==> Held(At(s, w)) != Some(id) {
      assert Fits(h, s.db, At(s, w), id);
    }
  }

  ghost predicate Settled(s: Sys, id: EventId) {
    || (id in s.db.outbox && s.db.outbox[id].status in {Acked, Dlq})
    || Orphaned(s, id)
  }

  lemma SettledIsNotHeld(maxRetries: int, t: Trace, s: Sys, id: EventId, w: WorkerId)
    requires Reachable(maxRetries, t, s) && Settled(s, id)
    ensures Held(At(s, w)) != Some(id)
  {
    InvHolds(maxRetries, t, s);
    assert Fits(HistoryOf(t, id), s.db, At(s, w), id);
  }

  lemma SettledStep(maxRetries: int, t: Trace, s: Sys, a: Action, id: EventId)
    requires Reachable(maxRetries, t, s) && Enabled(s, a)
    requires Settled(s, id)
    ensures
      var s' := Next(maxRetries, s, a);
      Settled(s', id) && s'.db.outbox[id] == s.db.outbox[id]
  {
    forall w: WorkerId ensures Held(At(s, w)) != Some(id) {
      SettledIsNotHeld(maxRetries, t, s, id, w);
    }
    forall w: WorkerId ensures Held(At(Next(maxRetries, s, a), w)) != Some(id) {
      assert Held(At(s, w)) != Some(id);
    }
  }

  lemma SettledHistory(maxRetries: int, t: Trace, s: Sys, a: Action, id: EventId)
    requires Reachable(maxRetries, t, s) && Enabled(s, a)
    requires Settled(s, id)
    ensures HistoryOf(t + [a], id) == HistoryOf(t, id)
  {
    HistoryStep(t, a, id);
    if a.Does? {
      SettledIsNotHeld(maxRetries, t, s, id, a.w);
    }
  }

  // Acked, dead and abandoned events are done with, whatever happens after: their rows
  // never change and their handlers never run again. In particular no worker, and no
  // restart, takes up an abandoned claim.
  lemma {:induction false} SettledForever(maxRetries: int, t: Trace, s: Sys, u: Trace, s': Sys, id: EventId)
    requires Reachable(maxRetries, t, s) && Reachable(maxRetries, t + u, s')
    requires Settled(s, id)
    ensures Settled(s', id) && s'.db.outbox[id] == s.db.outbox[id]
    ensures HistoryOf(t + u, id) == HistoryOf(t, id)
    decreases |u|
  {
    if u == [] {
      assert t + u == t;
    } else {
      var u', v, a := LastStep(maxRetries, t, u, s');
      SettledForever(maxRetries, t, s, u', v, id);
      SettledStep(maxRetries, t + u', v, a, id);
      SettledHistory(maxRetries, t + u', v, a, id);
    }
  }
}
