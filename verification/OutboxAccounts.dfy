// What the counters and the instants in the tables mean, in every reachable state.
module OutboxAccounts {
  import opened Common
  import opened Envelopes
  import opened Outbox
  import opened OutboxProtocol
  import opened OutboxOrder
  import opened OutboxProgress
  import B = SqliteBusObject

  // ----- The counters -----

  // `pending_count` counts the published events that are neither handled nor out of
  // attempts.
  lemma CountedExactly(maxRetries: int, t: Trace, s: Sys, id: EventId)
    requires Reachable(maxRetries, t, s)
    ensures Contains(PublishLog(t), id) <==> id in s.db.outbox
    ensures id in Unfinished(s.db) <==>
      && Contains(PublishLog(t), id)
      && id !in s.db.handled
      && s.db.outbox[id].attempts < Budget(maxRetries)
  {
    OutboxIsLog(maxRetries, t, s);
    InvHolds(maxRetries, t, s);
    assert HandledAt(s.db, id) && RowAt(maxRetries, HistoryOf(t, id), s.db, id);
  }

  // Every row is pending by that count, dead or handled, and no row is two of these.
  lemma CountersAddUp(maxRetries: int, t: Trace, s: Sys)
    requires Reachable(maxRetries, t, s)
    ensures |Unfinished(s.db)| + |Dead(s.db)| + |s.db.handled| == |s.db.outbox|
  {
    InvHolds(maxRetries, t, s);
    var pending, dead, done := Unfinished(s.db), Dead(s.db), s.db.handled.Keys;
    forall id: EventId
      ensures id in pending + dead + done <==> id in s.db.outbox.Keys
      ensures id in done ==> id !in pending + dead
    {
      assert HandledAt(s.db, id);
    }
    assert pending + dead + done == s.db.outbox.Keys;
    assert pending !! dead && (pending + dead) !! done;
    assert |pending + dead + done| == |pending| + |dead| + |done|;
    assert |done| == |s.db.handled| && |s.db.outbox.Keys| == |s.db.outbox|;
  }

  // ----- handled_events -----

  // The acknowledgements of a trace, each with the instant of its commit.
  function Acknowledged(t: Trace): map<EventId, Instant> {
    if t == [] then map[]
    else
      var before := Acknowledged(t[..|t| - 1]);
      match t[|t| - 1]
      case Does(_, CommitHandled(id, at)) => before[id := at]
      case _ => before
  }

  lemma HandledStep(maxRetries: int, t: Trace, s: Sys, w: WorkerId, op: Op)
    requires Reachable(maxRetries, t, s) && CanDo(s.db, At(s, w), op)
    ensures Effect(maxRetries, s.db, At(s, w), op).handled ==
            if op.CommitHandled? then s.db.handled[op.id := op.now] else s.db.handled
  {
    InvHolds(maxRetries, t, s);
    var pc := At(s, w);
    if Held(pc).Some? {
      assert Fits(HistoryOf(t, pc.id), s.db, pc, pc.id) && HandledAt(s.db, pc.id);
    }
  }

  // In every run `handled_events` holds the acknowledged events with the instants of their
  // acknowledgement.
  lemma {:induction false} HandledIsAcknowledged(maxRetries: int, t: Trace, s: Sys)
    requires Reachable(maxRetries, t, s)
    ensures s.db.handled == Acknowledged(t)
  {
    if t != [] {
      var t', a := t[..|t| - 1], t[|t| - 1];
      var u := Exec(maxRetries, INITIAL, t').value;
      HandledIsAcknowledged(maxRetries, t', u);
      if a.Does? {
        HandledStep(maxRetries, t', u, a.w, a.op);
      }
    }
  }

  // So a handler is given the id acknowledged last before the read, none if there is none.
  lemma LastSeenIsLastAcknowledged(maxRetries: int, t: Trace, s: Sys, w: WorkerId, lastSeen: Option<EventId>)
    requires Reachable(maxRetries, t, s) && CanDo(s.db, At(s, w), ReadLastSeen(lastSeen))
    ensures lastSeen.None? <==> Acknowledged(t) == map[]
    ensures lastSeen.Some? ==>
      && lastSeen.value in Acknowledged(t)
      && forall id :: id in Acknowledged(t) ==> Acknowledged(t)[id] <= Acknowledged(t)[lastSeen.value]
  {
    HandledIsAcknowledged(maxRetries, t, s);
  }

  // Marking an event again keeps the instant at which it was first handled.
  lemma FirstMarkIsKept(db: Tables, id: EventId, at: Instant, again: Instant)
    requires id !in db.handled
    ensures id in MarkHandled(MarkHandled(db, id, at), id, again).handled
    ensures MarkHandled(MarkHandled(db, id, at), id, again).handled[id] == at
  {
  }

  // ----- next_attempt_at and updated_at -----

  // When an event is due: when it was first published, and 10 ms after the start of each
  // `mark_failed` that was committed.
  function DueAt(t: Trace, id: EventId): Instant {
    if t == [] then 0
    else
      var before := t[..|t| - 1];
      match t[|t| - 1]
      case DoPublish(e, now) =>
        if e.id == id && Valid(e) && !Contains(PublishLog(before), id) then now else DueAt(before, id)
      case Does(_, CommitFailure(i)) =>
        if i == id then HistoryOf(before, id).failedAt + 10_000_000 else DueAt(before, id)
      case _ => DueAt(before, id)
  }

  lemma DueStep(maxRetries: int, h: History, db: Tables, pc: Pc, op: Op, id: EventId)
    requires CanDo(db, pc, op) && id in db.outbox && Fits(h, db, pc, id)
    ensures id in Effect(maxRetries, db, pc, op).outbox
    ensures Effect(maxRetries, db, pc, op).outbox[id].nextAttemptAt ==
            if op == CommitFailure(id) then h.failedAt + 10_000_000 else db.outbox[id].nextAttemptAt
  {
  }

  lemma {:induction false} DueExactly(maxRetries: int, t: Trace, s: Sys, id: EventId)
    requires Reachable(maxRetries, t, s) && id in s.db.outbox
    ensures s.db.outbox[id].nextAttemptAt == DueAt(t, id)
  {
    var t', a := t[..|t| - 1], t[|t| - 1];
    var u := Exec(maxRetries, INITIAL, t').value;
    OutboxIsLog(maxRetries, t', u);
    match a
    case DoPublish(_, _) =>
      if id in u.db.outbox {
        DueExactly(maxRetries, t', u, id);
      }
    case Does(w, op) =>
      DueExactly(maxRetries, t', u, id);
      assert Fits(HistoryOf(t', id), u.db, At(u, w), id) by {
        InvHolds(maxRetries, t', u);
      }
      DueStep(maxRetries, HistoryOf(t', id), u.db, At(u, w), op, id);
  }

  // The instant at which an operation says it writes.
  function StampOf(pc: Pc, op: Op): Option<Instant> {
    match (op, pc)
    case (CommitClaim(_), Selected(_, now)) => Some(now)
    case (MarkDuplicate(now), _) => Some(now)
    case (CommitHandled(_, now), _) => Some(now)
    case (CommitFailure(_), FailedRead(_, _, _, now)) => Some(now)
    case _ => None
  }

  // A row that an operation writes to carries its instant, and keeps its envelope, its
  // instant of creation and its rowid; and no operation adds or removes a row.
  lemma WritesAreStamped(maxRetries: int, db: Tables, pc: Pc, op: Op, id: EventId)
    requires CanDo(db, pc, op)
    ensures
      var db' := Effect(maxRetries, db, pc, op);
      && db'.outbox.Keys == db.outbox.Keys
      && (id in db.outbox ==>
            var row, row' := db.outbox[id], db'.outbox[id];
            && row'.envelope == row.envelope && row'.createdAt == row.createdAt && row'.rowid == row.rowid
            && (row' == row || StampOf(pc, op) == Some(row'.updatedAt)))
  {
  }

  // ----- One pass -----

  // What a pass leaves of the event it claimed, by the handler's answer.
  lemma PassOutcome(maxRetries: int, db: Tables, id: EventId, answer: B.HandlerResult, claimedAt: Instant, markedAt: Instant)
    requires id in db.outbox && Waiting(db.outbox[id]) && id !in db.handled
    ensures
      var db' := B.Processed(maxRetries, db, id, answer, claimedAt, markedAt);
      && db'.outbox.Keys == db.outbox.Keys && db'.lastRowid == db.lastRowid
      && (forall i :: i in db.outbox && i != id ==> db'.outbox[i] == db.outbox[i])
      && var row, row' := db.outbox[id], db'.outbox[id];
         match answer
         case Ok(_) =>
           && db'.handled == db.handled[id := markedAt]
           && row' == row.(status := Acked, updatedAt := markedAt)
         case Err(message) =>
           && db'.handled == db.handled
           && row'.attempts == row.attempts + 1
           && row'.lastError == Some("handler nack: " + message)
           && row'.nextAttemptAt == markedAt + 10_000_000
           && row'.updatedAt == markedAt
           && row'.status == (if row.attempts + 1 < maxRetries then Retrying else Dlq)
  {
  }
}
