// When an event reaches its handler at all: exactly when delivery is at least once.
module OutboxDelivery {
  import opened Common
  import opened Envelopes
  import opened Outbox
  import opened OutboxProtocol
  import opened OutboxGuarantees
  import P = OutboxProgress

  // This action aborts the event's holder or makes it fail.
  predicate CutsHolder(a: Action, id: EventId) {
    a.Does? && (a.op == Abort(Some(id)) || a.op == SqlError(Some(id)))
  }

  // The event's holder was cut off before the event's handler was called for the first time.
  predicate CutBeforeCall(t: Trace, id: EventId) {
    exists i :: 0 <= i < |t| && CutsHolder(t[i], id) && HistoryOf(t[..i], id).invoked == 0
  }

  // In no continuation is the event's handler ever called.
  ghost predicate LostForever(maxRetries: int, t: Trace, id: EventId) {
    forall u, s' :: Reachable(maxRetries, t + u, s') ==> HistoryOf(t + u, id).invoked == 0
  }

  // Nor in those by a clock that starts at `from` or later and never goes back.
  ghost predicate LostFrom(maxRetries: int, t: Trace, id: EventId, from: Instant) {
    forall u, s' :: Reachable(maxRetries, t + u, s') && P.Rises(u, from) ==> HistoryOf(t + u, id).invoked == 0
  }

  predicate Finished(s: Sys, id: EventId) {
    id in s.db.outbox && s.db.outbox[id].status in {Acked, Dlq}
  }

  // In no continuation is the event ever acked or dead.
  ghost predicate NeverFinishes(maxRetries: int, t: Trace, id: EventId) {
    forall u, s' :: Reachable(maxRetries, t + u, s') ==> !Finished(s', id)
  }

  ghost predicate NeverFinishesFrom(maxRetries: int, t: Trace, id: EventId, from: Instant) {
    forall u, s' :: Reachable(maxRetries, t + u, s') && P.Rises(u, from) ==> !Finished(s', id)
  }

  lemma CutStep(t: Trace, a: Action, id: EventId)
    ensures CutBeforeCall(t + [a], id) <==>
            CutBeforeCall(t, id) || (CutsHolder(a, id) && HistoryOf(t, id).invoked == 0)
  {
    var t' := t + [a];
    assert t'[..|t|] == t && t'[|t|] == a;
    forall i | 0 <= i < |t| ensures t'[..i] == t[..i] && t'[i] == t[i] {
    }
  }

  // A first cut before the first call is the last thing that happens to an event.
  lemma {:induction false} CutIsUncalledAndAbandoned(maxRetries: int, t: Trace, s: Sys, id: EventId)
    requires Reachable(maxRetries, t, s)
    ensures CutBeforeCall(t, id) <==> HistoryOf(t, id).abandoned && HistoryOf(t, id).invoked == 0
  {
    if t != [] {
      var t', a := t[..|t| - 1], t[|t| - 1];
      var u := Exec(maxRetries, INITIAL, t').value;
      assert t == t' + [a];
      CutIsUncalledAndAbandoned(maxRetries, t', u, id);
      CutStep(t', a, id);
      HistoryStep(t', a, id);
      if HistoryOf(t', id).abandoned {
        OrphanedExactlyWhenAbandoned(maxRetries, t', u, id);
        SettledHistory(maxRetries, t', u, a, id);
      }
    }
  }

  // At rest, every published event has had its handler called, except exactly those whose
  // holder was cut off before the first call.
  lemma DeliveredAtRestExactly(maxRetries: int, t: Trace, s: Sys, now: Instant, id: EventId)
    requires Reachable(maxRetries, t, s) && P.Quiet(s, now) && id in s.db.outbox
    ensures HistoryOf(t, id).invoked == 0 <==> CutBeforeCall(t, id)
  {
    CutIsUncalledAndAbandoned(maxRetries, t, s, id);
    P.QuietAccounting(maxRetries, t, s, now);
    RetryBudget(maxRetries, t, s, id);
  }

  lemma {:induction false} RowsStay(maxRetries: int, t: Trace, s: Sys, u: Trace, s': Sys)
    requires Reachable(maxRetries, t, s) && Reachable(maxRetries, t + u, s')
    ensures s.db.outbox.Keys <= s'.db.outbox.Keys
    decreases |u|
  {
    if u == [] {
      assert t + u == t;
    } else {
      var u', v, a := LastStep(maxRetries, t, u, s');
      RowsStay(maxRetries, t, s, u', v);
    }
  }

  // No publish, no abort and no error.
  predicate Undisturbed(u: Trace) {
    forall i :: 0 <= i < |u| ==> u[i].Does? && !u[i].op.Abort? && !u[i].op.SqlError?
  }

  lemma NoCutsAdded(t: Trace, u: Trace, id: EventId)
    requires Undisturbed(u) && CutBeforeCall(t + u, id)
    ensures CutBeforeCall(t, id)
  {
    var i :| 0 <= i < |t + u| && CutsHolder((t + u)[i], id) && HistoryOf((t + u)[..i], id).invoked == 0;
    assert (t + u)[..i] == t[..i];
  }

  lemma {:induction false} NothingAbandoned(t: Trace, u: Trace, id: EventId)
    requires Undisturbed(u)
    ensures HistoryOf(t + u, id).abandoned == HistoryOf(t, id).abandoned
    decreases |u|
  {
    if u == [] {
      assert t + u == t;
    } else {
      var u', a := u[..|u| - 1], u[|u| - 1];
      NothingAbandoned(t, u', id);
      HistoryStep(t + u', a, id);
      assert t + u == t + u' + [a];
    }
  }

  // Every run can be brought to rest: let a worker subscribe, if there is none, and all of
  // them drain the outbox.
  lemma BroughtToRest(maxRetries: int, t: Trace, s: Sys, from: Instant)
    returns (u: Trace, s': Sys, now: Instant)
    requires Reachable(maxRetries, t, s)
    ensures Reachable(maxRetries, t + u, s') && Undisturbed(u) && P.Rises(u, from)
    ensures P.Quiet(s', now) && s.db.outbox.Keys <= s'.db.outbox.Keys
  {
    if P.Staffed(s) {
      u, s', now := P.DrainToRest(maxRetries, t, s, from);
    } else {
      var a := Does(0, Subscribe);
      assert At(s, 0) == Absent;
      var t1, s1 := Extend(maxRetries, t, s, a);
      assert At(s1, 0) == Idle;
      var rest;
      rest, s', now := P.DrainToRest(maxRetries, t1, s1, from);
      u := [a] + rest;
      assert u[1..] == rest && t + u == t1 + rest;
    }
    RowsStay(maxRetries, t, s, u, s');
  }

  // A published event that was not cut off before its first call can still be delivered.
  lemma CanBeDelivered(maxRetries: int, t: Trace, s: Sys, id: EventId, from: Instant)
    returns (u: Trace, s': Sys)
    requires Reachable(maxRetries, t, s) && id in s.db.outbox
    requires !CutBeforeCall(t, id)
    ensures Reachable(maxRetries, t + u, s') && HistoryOf(t + u, id).invoked > 0
    ensures Undisturbed(u) && P.Rises(u, from)
  {
    var now;
    u, s', now := BroughtToRest(maxRetries, t, s, from);
    DeliveredAtRestExactly(maxRetries, t + u, s', now, id);
    if CutBeforeCall(t + u, id) {
      NoCutsAdded(t, u, id);
    }
  }

  // A published event that was never abandoned can still be finished.
  lemma CanBeFinished(maxRetries: int, t: Trace, s: Sys, id: EventId, from: Instant)
    returns (u: Trace, s': Sys)
    requires Reachable(maxRetries, t, s) && id in s.db.outbox
    requires !HistoryOf(t, id).abandoned
    ensures Reachable(maxRetries, t + u, s') && Finished(s', id)
    ensures Undisturbed(u) && P.Rises(u, from)
  {
    var now;
    u, s', now := BroughtToRest(maxRetries, t, s, from);
    NothingAbandoned(t, u, id);
    P.QuietAccounting(maxRetries, t + u, s', now);
  }

  // Delivery is at least once, exactly: a published event is lost in every continuation if
  // and only if its holder was cut off before the first call; and it makes no difference to
  // ask for a clock that never goes back.
  lemma LostExactlyWhenCutBeforeCall(maxRetries: int, t: Trace, s: Sys, id: EventId, from: Instant)
    requires Reachable(maxRetries, t, s) && id in s.db.outbox
    ensures LostForever(maxRetries, t, id) <==> CutBeforeCall(t, id)
    ensures LostFrom(maxRetries, t, id, from) <==> CutBeforeCall(t, id)
  {
    if CutBeforeCall(t, id) {
      CutIsUncalledAndAbandoned(maxRetries, t, s, id);
      OrphanedExactlyWhenAbandoned(maxRetries, t, s, id);
      forall u, s' | Reachable(maxRetries, t + u, s') ensures HistoryOf(t + u, id).invoked == 0 {
        SettledForever(maxRetries, t, s, u, s', id);
      }
    } else {
      var u, s' := CanBeDelivered(maxRetries, t, s, id, from);
    }
  }

  // Which events resume after a crash and a restart, exactly: a published event is acked or
  // dead in no continuation if and only if its claim was abandoned, at whatever point; and
  // again the clock makes no difference.
  lemma NeverFinishesExactlyWhenAbandoned(maxRetries: int, t: Trace, s: Sys, id: EventId, from: Instant)
    requires Reachable(maxRetries, t, s) && id in s.db.outbox
    ensures NeverFinishes(maxRetries, t, id) <==> HistoryOf(t, id).abandoned
    ensures NeverFinishesFrom(maxRetries, t, id, from) <==> HistoryOf(t, id).abandoned
  {
    OrphanedExactlyWhenAbandoned(maxRetries, t, s, id);
    if HistoryOf(t, id).abandoned {
      forall u, s' | Reachable(maxRetries, t + u, s') ensures !Finished(s', id) {
        SettledForever(maxRetries, t, s, u, s', id);
      }
    } else {
      var u, s' := CanBeFinished(maxRetries, t, s, id, from);
    }
  }

  // ----- It does happen -----

  lemma {:induction false} NoInvokeNoRun(t: Trace, id: EventId)
    requires forall a :: a in t && a.Does? ==> !a.op.Invoke?
    ensures HistoryOf(t, id).invoked == 0
  {
    if t != [] {
      assert t[|t| - 1] in t;
      NoInvokeNoRun(t[..|t| - 1], id);
    }
  }

  lemma PublishThenSubscribe(maxRetries: int, e: EventEnvelope, now: Instant) returns (t: Trace, s: Sys)
    requires Valid(e)
    ensures Reachable(maxRetries, t, s)
    ensures s == Sys(Publish(EMPTY, e, now), map[0 := Idle])
    ensures t == [DoPublish(e, now), Does(0, Subscribe)]
  {
    var published := Sys(Publish(EMPTY, e, now), map[]);
    assert Next(maxRetries, INITIAL, DoPublish(e, now)) == published;
    assert Next(maxRetries, published, Does(0, Subscribe)) == Sys(published.db, map[0 := Idle]);
    t, s := Extend(maxRetries, [], INITIAL, DoPublish(e, now));
    t, s := Extend(maxRetries, t, published, Does(0, Subscribe));
  }

  lemma SelectsTheOnlyRow(e: EventEnvelope, now: Instant)
    requires Valid(e)
    ensures SelectsNext(Publish(EMPTY, e, now), now, e.id)
  {
  }

  lemma PublishThenSelect(maxRetries: int, e: EventEnvelope, now: Instant) returns (t: Trace, s: Sys)
    requires Valid(e)
    ensures Reachable(maxRetries, t, s)
    ensures s == Sys(Publish(EMPTY, e, now), map[0 := Selected(e.id, now)])
    ensures t == [DoPublish(e, now), Does(0, Subscribe), Does(0, Select(e.id, now))]
  {
    t, s := PublishThenSubscribe(maxRetries, e, now);
    SelectsTheOnlyRow(e, now);
    var a := Does(0, Select(e.id, now));
    assert Enabled(s, a);
    t, s := Extend(maxRetries, t, s, a);
  }

  lemma PublishThenClaim(maxRetries: int, e: EventEnvelope, now: Instant) returns (t: Trace, s: Sys)
    requires Valid(e)
    ensures Reachable(maxRetries, t, s)
    ensures s == Sys(Claim(Publish(EMPTY, e, now), e.id, now), map[0 := Claimed(e.id)])
    ensures P.TakesOnly(t, {now})
    ensures forall a :: a in t && a.Does? ==> !a.op.Invoke?
  {
    t, s := PublishThenSelect(maxRetries, e, now);
    t, s := Extend(maxRetries, t, s, Does(0, CommitClaim(true)));
    assert s.workers == map[0 := Claimed(e.id)];
  }

  lemma ClaimThenAbort(maxRetries: int, e: EventEnvelope, now: Instant) returns (t: Trace, s: Sys)
    requires Valid(e)
    ensures Reachable(maxRetries, t, s) && Orphaned(s, e.id)
    ensures P.TakesOnly(t, {now})
    ensures forall a :: a in t && a.Does? ==> !a.op.Invoke?
  {
    t, s := PublishThenClaim(maxRetries, e, now);
    t, s := Extend(maxRetries, t, s, Does(0, Abort(Some(e.id))));
    assert s.workers == map[0 := Absent];
  }

  // Any event may be claimed by a worker that is aborted before it calls the handler, and
  // is then lost.
  lemma EventCanBeLost(maxRetries: int, e: EventEnvelope, now: Instant) returns (t: Trace, s: Sys)
    requires Valid(e)
    ensures Reachable(maxRetries, t, s) && e.id in s.db.outbox
    ensures CutBeforeCall(t, e.id) && LostForever(maxRetries, t, e.id)
    ensures P.Rises(t, now)
  {
    t, s := ClaimThenAbort(maxRetries, e, now);
    NoInvokeNoRun(t, e.id);
    OrphanedExactlyWhenAbandoned(maxRetries, t, s, e.id);
    CutIsUncalledAndAbandoned(maxRetries, t, s, e.id);
    LostExactlyWhenCutBeforeCall(maxRetries, t, s, e.id, now);
    P.OneInstantRises(t, now);
  }

  lemma ClaimThenReady(maxRetries: int, e: EventEnvelope, now: Instant) returns (t: Trace, s: Sys)
    requires Valid(e)
    ensures Reachable(maxRetries, t, s)
    ensures s.workers == map[0 := Ready(e.id, None)]
    ensures e.id in s.db.outbox && s.db.outbox[e.id].attempts == 0
    ensures P.TakesOnly(t, {now})
  {
    t, s := PublishThenClaim(maxRetries, e, now);
    t, s := Extend(maxRetries, t, s, Does(0, CheckHandled));
    assert s.workers == map[0 := Unhandled(e.id)];
    t, s := Extend(maxRetries, t, s, Does(0, ReadLastSeen(None)));
  }

  lemma ClaimThenInvoke(maxRetries: int, e: EventEnvelope, now: Instant) returns (t: Trace, s: Sys)
    requires Valid(e)
    ensures Reachable(maxRetries, t, s) && s.workers == map[0 := Running(e.id)]
    ensures e.id in s.db.outbox && HistoryOf(t, e.id).invoked == 1
    ensures P.TakesOnly(t, {now})
  {
    t, s := ClaimThenReady(maxRetries, e, now);
    t, s := Extend(maxRetries, t, s, Does(0, Invoke(e.id, None)));
    InvHolds(maxRetries, t, s);
    assert Fits(HistoryOf(t, e.id), s.db, At(s, 0), e.id);
  }

  // Any event may be cut off in the middle of its first call: it was delivered, so it is
  // not lost, but after a restart no worker takes it up again, ever.
  lemma CrashInCallNeverResumes(maxRetries: int, e: EventEnvelope, now: Instant) returns (t: Trace, s: Sys)
    requires Valid(e)
    ensures Reachable(maxRetries, t, s) && e.id in s.db.outbox && s.workers == map[0 := Idle]
    ensures HistoryOf(t, e.id).invoked == 1 && !CutBeforeCall(t, e.id)
    ensures NeverFinishes(maxRetries, t, e.id)
    ensures P.Rises(t, now)
  {
    t, s := ClaimThenInvoke(maxRetries, e, now);
    var a := Does(0, Abort(Some(e.id)));
    HistoryStep(t, a, e.id);
    t, s := Extend(maxRetries, t, s, a);
    assert s.workers == map[0 := Absent];
    HistoryStep(t, Does(0, Subscribe), e.id);
    t, s := Extend(maxRetries, t, s, Does(0, Subscribe));
    assert s.workers == map[0 := Idle];
    CutIsUncalledAndAbandoned(maxRetries, t, s, e.id);
    NeverFinishesExactlyWhenAbandoned(maxRetries, t, s, e.id, now);
    P.OneInstantRises(t, now);
  }
}
