// The outbox as a log: rowids, publish order and delivery order.
module OutboxOrder {
  import opened Common
  import opened Envelopes
  import opened Outbox
  import opened OutboxProtocol

  // ----- The log of first publications -----

  datatype Entry = Entry(envelope: EventEnvelope, at: Instant)

  predicate Contains(log: seq<Entry>, id: EventId) {
    exists i :: 0 <= i < |log| && log[i].envelope.id == id
  }

  // The valid envelopes of a trace whose id was new, in order: read off the actions alone.
  function PublishLog(t: Trace): seq<Entry> {
    if t == [] then []
    else
      var log := PublishLog(t[..|t| - 1]);
      match t[|t| - 1]
      case DoPublish(e, now) => if Valid(e) && !Contains(log, e.id) then log + [Entry(e, now)] else log
      case Does(_, _) => log
  }

  predicate DistinctIds(log: seq<Entry>) {
    forall i, j :: 0 <= i < j < |log| ==> log[i].envelope.id != log[j].envelope.id
  }

  // The outbox is this log.
  ghost predicate Holds(db: Tables, log: seq<Entry>) {
    && db.lastRowid == |log|
    && (forall id :: id in db.outbox <==> Contains(log, id))
    && DistinctIds(log)
    && (forall i :: 0 <= i < |log| ==>
          var row := db.outbox[log[i].envelope.id];
          row.rowid == i + 1 && row.envelope == log[i].envelope && row.createdAt == log[i].at)
  }

  lemma PublishKeepsLog(db: Tables, log: seq<Entry>, e: EventEnvelope, now: Instant)
    requires Holds(db, log)
    ensures Holds(Publish(db, e, now),
                  if Valid(e) && !Contains(log, e.id) then log + [Entry(e, now)] else log)
  {
    var log' := log + [Entry(e, now)];
    if Valid(e) && !Contains(log, e.id) {
      forall id ensures Contains(log', id) <==> Contains(log, id) || id == e.id {
        assert log'[|log|].envelope.id == e.id;
        if Contains(log, id) {
          var i :| 0 <= i < |log| && log[i].envelope.id == id;
          assert log'[i].envelope.id == id;
        }
      }
      forall i | 0 <= i < |log| ensures log[i].envelope.id != e.id {
        assert !Contains(log, e.id);
      }
    }
  }

  lemma OpKeepsLog(maxRetries: int, db: Tables, log: seq<Entry>, pc: Pc, op: Op)
    requires Holds(db, log)
    ensures Holds(Effect(maxRetries, db, pc, op), log)
  {
  }

  // The outbox is the publish log: rowids are 1, 2, 3, ... with no gap, in publish order;
  // duplicates consume none, and each row keeps the first envelope published under its id.
  lemma {:induction false} OutboxIsLog(maxRetries: int, t: Trace, s: Sys)
    requires Reachable(maxRetries, t, s)
    ensures Holds(s.db, PublishLog(t))
  {
    if t != [] {
      var u := Exec(maxRetries, INITIAL, t[..|t| - 1]).value;
      OutboxIsLog(maxRetries, t[..|t| - 1], u);
      match t[|t| - 1]
      case DoPublish(e, now) => PublishKeepsLog(u.db, PublishLog(t[..|t| - 1]), e, now);
      case Does(w, op) => OpKeepsLog(maxRetries, u.db, PublishLog(t[..|t| - 1]), At(u, w), op);
    }
  }

  // ----- First in, first out -----

  datatype Handling = Handling(id: EventId, at: Instant)

  function HandledLog(t: Trace): seq<Handling> {
    if t == [] then []
    else
      var done := HandledLog(t[..|t| - 1]);
      match t[|t| - 1]
      case Does(_, CommitHandled(id, now)) => done + [Handling(id, now)]
      case _ => done
  }

  predicate Rising(log: seq<Entry>) {
    forall i, j :: 0 <= i < j < |log| ==> log[i].at < log[j].at
  }

  predicate RisingDone(done: seq<Handling>) {
    forall i, j :: 0 <= i < j < |done| ==> done[i].at < done[j].at
  }

  // One worker that is never aborted, meets no error and whose handler always succeeds;
  // no two publications and no two acknowledgements share an instant or go back in time.
  predicate Orderly(w: WorkerId, t: Trace) {
    var log, done := PublishLog(t), HandledLog(t);
    && Rising(log) && RisingDone(done)
    && (forall i :: 0 <= i < |t| && t[i].Does? ==>
          t[i].w == w && !t[i].op.Abort? && !t[i].op.SqlError? && !t[i].op.ReturnErr?)
  }

  function LastDone(done: seq<Handling>): Option<EventId> {
    if done == [] then None else Some(done[|done| - 1].id)
  }

  // The handled events are the first of the log ...
  ghost predicate DoneFirst(db: Tables, log: seq<Entry>, done: seq<Handling>) {
    && |done| <= |log|
    && (forall i :: 0 <= i < |done| ==>
          && done[i].id == log[i].envelope.id
          && done[i].id in db.handled && db.handled[done[i].id] == done[i].at)
    && (forall id :: id in db.handled ==> exists i :: 0 <= i < |done| && done[i].id == id)
  }

  // ... the rest of the log is pending, but for the next event while the worker holds it ...
  predicate RowInOrder(db: Tables, busy: bool, log: seq<Entry>, done: seq<Handling>, i: int)
    requires 0 <= i < |log|
  {
    && log[i].envelope.id in db.outbox
    && var row := db.outbox[log[i].envelope.id];
       if i < |done| then row.status == Acked
       else if i == |done| && busy then row.status == InProgress
       else row.status == Pending && row.nextAttemptAt == log[i].at
  }

  ghost predicate RowsInOrder(db: Tables, busy: bool, log: seq<Entry>, done: seq<Handling>) {
    forall i :: 0 <= i < |log| ==> RowInOrder(db, busy, log, done, i)
  }

  // ... and the worker can only be busy with that event.
  predicate PcInOrder(pc: Pc, log: seq<Entry>, done: seq<Handling>) {
    pc != Absent && pc != Idle ==>
      && |done| < |log| && pc.id == log[|done|].envelope.id
      && !pc.AlreadyHandled? && !pc.Failed? && !pc.FailedRead?
      && (pc.Ready? ==> pc.lastSeen == LastDone(done))
  }

  ghost predicate InOrder(db: Tables, pc: Pc, log: seq<Entry>, done: seq<Handling>) {
    && DoneFirst(db, log, done)
    && RowsInOrder(db, Held(pc).Some?, log, done)
    && PcInOrder(pc, log, done)
  }

  lemma OldestPendingIsNext(db: Tables, log: seq<Entry>, done: seq<Handling>, id: EventId, now: Instant)
    requires Holds(db, log) && RowsInOrder(db, false, log, done) && |done| <= |log|
    requires Rising(log) && SelectsNext(db, now, id)
    ensures |done| < |log| && log[|done|].envelope.id == id
  {
    assert Contains(log, id);
    var i :| 0 <= i < |log| && log[i].envelope.id == id;
    assert RowInOrder(db, false, log, done, i);
    if |done| < |log| {
      var next := log[|done|].envelope.id;
      assert RowInOrder(db, false, log, done, |done|);
      assert Claimable(db.outbox[next], now) ==> db.outbox[id].createdAt <= db.outbox[next].createdAt;
    }
  }

  lemma LastHandledIsLastDone(db: Tables, log: seq<Entry>, done: seq<Handling>, lastSeen: Option<EventId>)
    requires DoneFirst(db, log, done) && IsLastSeen(db, lastSeen) && RisingDone(done)
    ensures lastSeen == LastDone(done)
  {
  }

  lemma NextIsUnhandled(db: Tables, log: seq<Entry>, done: seq<Handling>)
    requires Holds(db, log) && DoneFirst(db, log, done) && |done| < |log|
    ensures log[|done|].envelope.id !in db.handled
  {
  }

  // Operations that leave the tables alone.
  lemma QuietOpKeepsOrder(db: Tables, pc: Pc, op: Op, log: seq<Entry>, done: seq<Handling>)
    requires CanDo(db, pc, op) && Holds(db, log) && InOrder(db, pc, log, done)
    requires Rising(log) && RisingDone(done)
    requires !op.Abort? && !op.SqlError? && !op.ReturnErr? && !op.CommitClaim? && !op.CommitHandled?
    ensures InOrder(db, Then(db, pc, op), log, done)
  {
    match op
    case Select(id, now) => OldestPendingIsNext(db, log, done, id, now);
    case ReadLastSeen(lastSeen) => LastHandledIsLastDone(db, log, done, lastSeen);
    case CheckHandled => NextIsUnhandled(db, log, done);
    case _ =>
  }

  lemma ClaimKeepsOrder(db: Tables, pc: Pc, won: bool, log: seq<Entry>, done: seq<Handling>)
    requires CanDo(db, pc, CommitClaim(won)) && Holds(db, log) && InOrder(db, pc, log, done)
    ensures InOrder(Claim(db, pc.id, pc.now), Then(db, pc, CommitClaim(won)), log, done)
  {
    assert RowInOrder(db, false, log, done, |done|);
    var db' := Claim(db, pc.id, pc.now);
    forall i | 0 <= i < |log| ensures RowInOrder(db', true, log, done, i) {
      assert RowInOrder(db, false, log, done, i);
    }
  }

  lemma MarkKeepsRow(db: Tables, id: EventId, now: Instant, log: seq<Entry>, done: seq<Handling>, i: int)
    requires 0 <= i < |log| && |done| < |log| && id == log[|done|].envelope.id
    requires i != |done| ==> log[i].envelope.id != id
    requires RowInOrder(db, true, log, done, i)
    ensures RowInOrder(MarkHandled(db, id, now), false, log, done + [Handling(id, now)], i)
  {
  }

  lemma MarkKeepsOrder(db: Tables, pc: Pc, now: Instant, log: seq<Entry>, done: seq<Handling>)
    requires pc.Succeeded? && DistinctIds(log) && InOrder(db, pc, log, done)
    requires pc.id !in db.handled
    ensures InOrder(MarkHandled(db, pc.id, now), Idle, log, done + [Handling(pc.id, now)])
  {
    var db', done' := MarkHandled(db, pc.id, now), done + [Handling(pc.id, now)];
    forall i | 0 <= i < |log| ensures RowInOrder(db', false, log, done', i) {
      assert RowInOrder(db, true, log, done, i);
      MarkKeepsRow(db, pc.id, now, log, done, i);
    }
    forall other | other in db'.handled ensures exists i :: 0 <= i < |done'| && done'[i].id == other {
      if other == pc.id {
        assert done'[|done|].id == other;
      } else {
        var i :| 0 <= i < |done| && done[i].id == other;
        assert done'[i].id == other;
      }
    }
  }

  lemma OpKeepsOrder(maxRetries: int, db: Tables, pc: Pc, op: Op, log: seq<Entry>, done: seq<Handling>)
    requires CanDo(db, pc, op) && Holds(db, log) && InOrder(db, pc, log, done)
    requires Rising(log) && RisingDone(done)
    requires !op.Abort? && !op.SqlError? && !op.ReturnErr?
    ensures
      var done' := if op.CommitHandled? then done + [Handling(op.id, op.now)] else done;
      InOrder(Effect(maxRetries, db, pc, op), Then(db, pc, op), log, done')
  {
    match op
    case CommitClaim(won) => ClaimKeepsOrder(db, pc, won, log, done);
    case CommitHandled(_, now) =>
      NextIsUnhandled(db, log, done);
      MarkKeepsOrder(db, pc, now, log, done);
    case _ => QuietOpKeepsOrder(db, pc, op, log, done);
  }

  lemma PublishKeepsOrder(db: Tables, pc: Pc, log: seq<Entry>, done: seq<Handling>, e: EventEnvelope, now: Instant)
    requires InOrder(db, pc, log, done)
    requires e.id in db.outbox <==> Contains(log, e.id)
    ensures InOrder(Publish(db, e, now), pc,
                    if Valid(e) && !Contains(log, e.id) then log + [Entry(e, now)] else log, done)
  {
    if Valid(e) && !Contains(log, e.id) {
      var log', busy := log + [Entry(e, now)], Held(pc).Some?;
      var db' := InsertOrIgnore(db, e, now);
      forall i | 0 <= i < |log'| ensures RowInOrder(db', busy, log', done, i) {
        if i < |log| {
          assert log'[i] == log[i] && log[i].envelope.id != e.id;
          assert RowInOrder(db, busy, log, done, i);
        }
      }
    }
  }

  lemma PrefixOrderly(w: WorkerId, t: Trace)
    requires t != [] && Orderly(w, t)
    ensures Orderly(w, t[..|t| - 1])
  {
    var t' := t[..|t| - 1];
    assert PublishLog(t') == PublishLog(t)[..|PublishLog(t')|];
    assert HandledLog(t') == HandledLog(t)[..|HandledLog(t')|];
    forall i | 0 <= i < |t'| ensures t'[i] == t[i] { }
  }

  lemma {:induction false} OrderHolds(maxRetries: int, w: WorkerId, t: Trace, s: Sys)
    requires Reachable(maxRetries, t, s) && Orderly(w, t)
    ensures InOrder(s.db, At(s, w), PublishLog(t), HandledLog(t))
  {
    if t != [] {
      var t' := t[..|t| - 1];
      var u := Exec(maxRetries, INITIAL, t').value;
      PrefixOrderly(w, t);
      OrderHolds(maxRetries, w, t', u);
      OutboxIsLog(maxRetries, t', u);
      match t[|t| - 1]
      case DoPublish(e, now) => PublishKeepsOrder(u.db, At(u, w), PublishLog(t'), HandledLog(t'), e, now);
      case Does(_, op) => OpKeepsOrder(maxRetries, u.db, At(u, w), op, PublishLog(t'), HandledLog(t'));
    }
  }

  // In an orderly run the handled events are at every moment a prefix of the published
  // ones, and each invocation gets the next event of the log together with the id handled
  // just before it.
  lemma FirstInFirstOut(maxRetries: int, w: WorkerId, t: Trace, s: Sys)
    requires Reachable(maxRetries, t, s) && Orderly(w, t)
    ensures
      var log, done := PublishLog(t), HandledLog(t);
      && |done| <= |log|
      && (forall i :: 0 <= i < |done| ==> done[i].id == log[i].envelope.id)
      && (t != [] && t[|t| - 1].Does? && t[|t| - 1].op.Invoke? ==>
            var Invoke(id, lastSeen) := t[|t| - 1].op;
            |done| < |log| && id == log[|done|].envelope.id && lastSeen == LastDone(done))
  {
    OrderHolds(maxRetries, w, t, s);
    if t != [] {
      var u := Exec(maxRetries, INITIAL, t[..|t| - 1]).value;
      PrefixOrderly(w, t);
      OrderHolds(maxRetries, w, t[..|t| - 1], u);
    }
  }
}
