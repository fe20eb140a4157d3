// Any number of workers and publishers sharing one outbox, as a transition system with
// one action per SQL statement or transaction. Every instant is chosen by the action, so
// what is proved holds for any behaviour of the clock.
module OutboxProtocol {
  import opened Common
  import opened Envelopes
  import opened Outbox

  type WorkerId = nat

  // Where a worker stands inside `process_once`. From Claimed on it holds its event.
  datatype Pc =
    | Absent
    | Idle
    | Selected(id: EventId, now: Instant)
    | Claimed(id: EventId)
    | AlreadyHandled(id: EventId)
    | Unhandled(id: EventId)
    | Ready(id: EventId, lastSeen: Option<EventId>)
    | Running(id: EventId)
    | Succeeded(id: EventId)
    | Failed(id: EventId, error: string)
    | FailedRead(id: EventId, error: string, attempts: int, now: Instant)

  function Held(pc: Pc): Option<EventId> {
    if pc.Absent? || pc.Idle? || pc.Selected? then None else Some(pc.id)
  }

  // What one worker may do next.
  datatype Op =
    | Subscribe
    | Abort(holding: Option<EventId>)    // the subscription is dropped
    | SqlError(holding: Option<EventId>) // any `?` inside `process_once`
    | Select(id: EventId, now: Instant)
    | CommitClaim(won: bool)             // whether rows_affected() is not 0
    | CheckHandled
    | MarkDuplicate(now: Instant)
    | ReadLastSeen(lastSeen: Option<EventId>)
    | Invoke(id: EventId, lastSeen: Option<EventId>)
    | ReturnOk(id: EventId)
    | ReturnErr(id: EventId, error: string)
    | CommitHandled(id: EventId, now: Instant)
    | ReadAttempts(id: EventId, now: Instant)
    | CommitFailure(id: EventId)

  ghost predicate CanDo(db: Tables, pc: Pc, op: Op) {
    match op
    case Subscribe => pc == Absent
    case Abort(holding) => pc != Absent && holding == Held(pc)
    case SqlError(holding) => pc != Absent && pc != Idle && holding == Held(pc)
    case Select(id, now) => pc == Idle && SelectsNext(db, now, id)
    case CommitClaim(won) =>
      pc.Selected? && won == (pc.id in db.outbox && Waiting(db.outbox[pc.id]))
    case CheckHandled => pc.Claimed?
    case MarkDuplicate(_) => pc.AlreadyHandled?
    case ReadLastSeen(lastSeen) => pc.Unhandled? && IsLastSeen(db, lastSeen)
    case Invoke(id, lastSeen) => pc == Ready(id, lastSeen)
    case ReturnOk(id) => pc == Running(id)
    case ReturnErr(id, _) => pc == Running(id)
    case CommitHandled(id, _) => pc == Succeeded(id)
    case ReadAttempts(id, _) => pc.Failed? && pc.id == id
    case CommitFailure(id) => pc.FailedRead? && pc.id == id
  }

  // The effect of an operation on the tables.
  function Effect(maxRetries: int, db: Tables, pc: Pc, op: Op): Tables {
    match (op, pc)
    case (CommitClaim(_), Selected(id, now)) => Claim(db, id, now)
    case (MarkDuplicate(now), AlreadyHandled(id)) => MarkHandled(db, id, now)
    case (CommitHandled(id, now), Succeeded(_)) => MarkHandled(db, id, now)
    case (CommitFailure(_), FailedRead(id, error, attempts, now)) =>
      WriteFailure(maxRetries, db, id, attempts, now, error)
    case _ => db
  }

  // Where the operation leaves its worker.
  function Then(db: Tables, pc: Pc, op: Op): Pc {
    match (op, pc)
    case (Abort(_), _) => Absent
    case (Select(id, now), _) => Selected(id, now)
    case (CommitClaim(won), Selected(id, _)) => if won then Claimed(id) else Idle
    case (CheckHandled, Claimed(id)) =>
      if id in db.handled then AlreadyHandled(id) else Unhandled(id)
    case (ReadLastSeen(lastSeen), Unhandled(id)) => Ready(id, lastSeen)
    case (Invoke(id, _), _) => Running(id)
    case (ReturnOk(id), _) => Succeeded(id)
    case (ReturnErr(id, error), _) => Failed(id, error)
    case (ReadAttempts(_, now), Failed(id, error)) =>
      if id in db.outbox then FailedRead(id, error, db.outbox[id].attempts, now) else Idle
    case _ => Idle
  }

  datatype Sys = Sys(db: Tables, workers: map<WorkerId, Pc>)

  const INITIAL := Sys(EMPTY, map[])

  datatype Action =
    | DoPublish(envelope: EventEnvelope, now: Instant)
    | Does(w: WorkerId, op: Op)

  function At(s: Sys, w: WorkerId): Pc {
    if w in s.workers then s.workers[w] else Absent
  }

  ghost predicate Enabled(s: Sys, a: Action) {
    a.Does? ==> CanDo(s.db, At(s, a.w), a.op)
  }

  function Next(maxRetries: int, s: Sys, a: Action): Sys {
    match a
    case DoPublish(e, now) => s.(db := Publish(s.db, e, now))
    case Does(w, op) =>
      Sys(Effect(maxRetries, s.db, At(s, w), op), s.workers[w := Then(s.db, At(s, w), op)])
  }

  type Trace = seq<Action>

  // The state a trace leads to, or None when some action in it was not enabled.
  ghost function Exec(maxRetries: int, s: Sys, t: Trace): Option<Sys> {
    if t == [] then Some(s)
    else
      match Exec(maxRetries, s, t[..|t| - 1])
      case None => None
      case Some(u) => if Enabled(u, t[|t| - 1]) then Some(Next(maxRetries, u, t[|t| - 1])) else None
  }

  lemma ExecExtend(maxRetries: int, s: Sys, t: Trace, u: Sys, a: Action)
    requires Exec(maxRetries, s, t) == Some(u) && Enabled(u, a)
    ensures Exec(maxRetries, s, t + [a]) == Some(Next(maxRetries, u, a))
  {
    assert (t + [a])[..|t + [a]| - 1] == t;
  }

  ghost predicate Reachable(maxRetries: int, t: Trace, s: Sys) {
    Exec(maxRetries, INITIAL, t) == Some(s)
  }

  lemma Extend(maxRetries: int, t: Trace, s: Sys, a: Action) returns (t': Trace, s': Sys)
    requires Reachable(maxRetries, t, s) && Enabled(s, a)
    ensures t' == t + [a] && s' == Next(maxRetries, s, a) && Reachable(maxRetries, t', s')
  {
    t', s' := t + [a], Next(maxRetries, s, a);
    ExecExtend(maxRetries, INITIAL, t, s, a);
  }

  // A run from a reachable state leads to a reachable state.
  lemma {:induction false} Continue(maxRetries: int, t: Trace, s: Sys, u: Trace)
    requires Reachable(maxRetries, t, s)
    ensures Exec(maxRetries, INITIAL, t + u) == Exec(maxRetries, s, u)
    decreases |u|
  {
    if u == [] {
      assert t + u == t;
    } else {
      Continue(maxRetries, t, s, u[..|u| - 1]);
      assert (t + u)[..|t + u| - 1] == t + u[..|u| - 1];
    }
  }

  // The last step of a continuation `u` of `t`.
  lemma LastStep(maxRetries: int, t: Trace, u: Trace, s: Sys) returns (u': Trace, v: Sys, a: Action)
    requires Reachable(maxRetries, t + u, s) && u != []
    ensures u == u' + [a] && t + u == t + u' + [a]
    ensures Reachable(maxRetries, t + u', v) && Enabled(v, a) && s == Next(maxRetries, v, a)
  {
    u', a := u[..|u| - 1], u[|u| - 1];
    assert (t + u)[..|t + u| - 1] == t + u';
    v := Exec(maxRetries, INITIAL, t + u').value;
  }

  // What the actions of a trace say happened to one event: how often its handler was
  // started and succeeded, the errors it returned, when `mark_failed` last began, and
  // whether its holder was aborted or hit an SQL error.
  datatype History = History(
    invoked: nat, oks: nat, errors: seq<string>, failedAt: Instant, abandoned: bool)

  const NOTHING := History(0, 0, [], 0, false)

  function Note(h: History, op: Op, id: EventId): History {
    match op
    case Invoke(i, _) => if i == id then h.(invoked := h.invoked + 1) else h
    case ReturnOk(i) => if i == id then h.(oks := h.oks + 1) else h
    case ReturnErr(i, error) => if i == id then h.(errors := h.errors + [error]) else h
    case ReadAttempts(i, now) => if i == id then h.(failedAt := now) else h
    case Abort(held) => if held == Some(id) then h.(abandoned := true) else h
    case SqlError(held) => if held == Some(id) then h.(abandoned := true) else h
    case _ => h
  }

  function HistoryOf(t: Trace, id: EventId): History {
    if t == [] then NOTHING
    else
      var h := HistoryOf(t[..|t| - 1], id);
      match t[|t| - 1]
      case DoPublish(_, _) => h
      case Does(_, op) => Note(h, op, id)
  }

  // The number of times a handler may fail before its event is dead.
  function Budget(maxRetries: int): int {
    Max(1, maxRetries)
  }

  // ----- The invariant, one row and one worker at a time -----

  // The handler ran `n` times and failed every time, which is what `attempts` says.
  predicate FailedTimes(h: History, n: int) {
    h.invoked == n == |h.errors| && h.oks == 0 && !h.abandoned
  }

  predicate LastErrorOk(h: History, row: Row)
    requires 0 <= row.attempts <= |h.errors|
  {
    row.lastError == if row.attempts == 0 then None else Some(h.errors[row.attempts - 1])
  }

  predicate RowOk(maxRetries: int, h: History, row: Row) {
    && 0 <= row.attempts <= |h.errors|
    && LastErrorOk(h, row)
    && match row.status
       case Pending => row.attempts == 0 && h == NOTHING
       case Retrying =>
         && 1 <= row.attempts < maxRetries && FailedTimes(h, row.attempts)
         && row.nextAttemptAt == h.failedAt + BACKOFF
       case Dlq => row.attempts == Budget(maxRetries) && FailedTimes(h, row.attempts)
       case Acked =>
         && row.attempts < Budget(maxRetries)
         && h.invoked == row.attempts + 1 && h.oks == 1 && |h.errors| == row.attempts && !h.abandoned
       case InProgress =>
         && row.attempts < Budget(maxRetries)
         && |h.errors| <= h.invoked <= row.attempts + 1
         && |h.errors| + h.oks <= h.invoked
  }

  predicate RowAt(maxRetries: int, h: History, db: Tables, id: EventId) {
    if id in db.outbox then RowOk(maxRetries, h, db.outbox[id]) else h == NOTHING
  }

  predicate HandledAt(db: Tables, id: EventId) {
    id in db.handled <==> id in db.outbox && db.outbox[id].status == Acked
  }

  predicate HolderOk(h: History, row: Row, pc: Pc)
    requires Held(pc).Some?
  {
    var n := row.attempts;
    && row.status == InProgress
    && !h.abandoned
    && match pc
       case AlreadyHandled(_) => false
       case Running(_) => n + 1 == h.invoked && n == |h.errors| && h.oks == 0
       case Succeeded(_) => n + 1 == h.invoked && n == |h.errors| && h.oks == 1
       case Failed(_, error) =>
         0 <= n && n + 1 == h.invoked == |h.errors| && h.oks == 0 && h.errors[n] == error
       case FailedRead(_, error, read, now) =>
         && 0 <= n && n + 1 == h.invoked == |h.errors| && h.oks == 0 && h.errors[n] == error
         && read == n && now == h.failedAt
       case _ => n == h.invoked == |h.errors| && h.oks == 0
  }

  predicate Fits(h: History, db: Tables, pc: Pc, id: EventId) {
    Held(pc) == Some(id) ==> id in db.outbox && HolderOk(h, db.outbox[id], pc)
  }

  predicate Apart(s: Sys, v: WorkerId, w: WorkerId) {
    v == w || Held(At(s, v)).None? || Held(At(s, v)) != Held(At(s, w))
  }

  ghost predicate HeldBySomeone(s: Sys, id: EventId) {
    exists w: WorkerId :: Held(At(s, w)) == Some(id)
  }

  ghost predicate OrphanAt(h: History, s: Sys, id: EventId) {
    id in s.db.outbox && s.db.outbox[id].status == InProgress ==> HeldBySomeone(s, id) || h.abandoned
  }

  ghost predicate Inv(maxRetries: int, t: Trace, s: Sys) {
    && (forall v: WorkerId, w: WorkerId :: Apart(s, v, w))
    && (forall w: WorkerId, id: EventId :: Fits(HistoryOf(t, id), s.db, At(s, w), id))
    && (forall id: EventId :: RowAt(maxRetries, HistoryOf(t, id), s.db, id))
    && (forall id: EventId :: HandledAt(s.db, id))
    && (forall id: EventId :: OrphanAt(HistoryOf(t, id), s, id))
  }

  // ----- Each part is kept by any one operation -----

  lemma OpKeepsRow(maxRetries: int, h: History, db: Tables, pc: Pc, op: Op, id: EventId)
    requires CanDo(db, pc, op)
    requires Fits(h, db, pc, id) && RowAt(maxRetries, h, db, id) && HandledAt(db, id)
    ensures RowAt(maxRetries, Note(h, op, id), Effect(maxRetries, db, pc, op), id)
    ensures HandledAt(Effect(maxRetries, db, pc, op), id)
  {
  }

  lemma OpKeepsActor(maxRetries: int, h: History, db: Tables, pc: Pc, op: Op, id: EventId)
    requires CanDo(db, pc, op)
    requires Fits(h, db, pc, id) && RowAt(maxRetries, h, db, id) && HandledAt(db, id)
    ensures Fits(Note(h, op, id), Effect(maxRetries, db, pc, op), Then(db, pc, op), id)
  {
  }

  lemma OpKeepsOther(maxRetries: int, h: History, db: Tables, pc: Pc, op: Op, other: Pc, id: EventId)
    requires CanDo(db, pc, op)
    requires Fits(h, db, other, id) && Held(other) == Some(id) && Held(pc) != Held(other)
    ensures Fits(Note(h, op, id), Effect(maxRetries, db, pc, op), other, id)
    ensures Held(Then(db, pc, op)) != Held(other)
  {
  }

  lemma OpKeepsOrphan(maxRetries: int, h: History, s: Sys, w: WorkerId, op: Op, id: EventId)
    requires CanDo(s.db, At(s, w), op)
    requires OrphanAt(h, s, id) && Fits(h, s.db, At(s, w), id)
    ensures OrphanAt(Note(h, op, id), Next(maxRetries, s, Does(w, op)), id)
  {
    var s' := Next(maxRetries, s, Does(w, op));
    if Held(At(s', w)) != Some(id) && Held(At(s, w)) != Some(id) && HeldBySomeone(s, id) {
      var v: WorkerId :| Held(At(s, v)) == Some(id);
      assert Held(At(s', v)) == Some(id);
    }
  }

  lemma PublishKeeps(maxRetries: int, h: History, db: Tables, e: EventEnvelope, now: Instant, id: EventId)
    requires RowAt(maxRetries, h, db, id) && HandledAt(db, id)
    ensures RowAt(maxRetries, h, Publish(db, e, now), id) && HandledAt(Publish(db, e, now), id)
  {
  }

  lemma PublishKeepsHolder(h: History, db: Tables, e: EventEnvelope, now: Instant, pc: Pc, id: EventId)
    requires Fits(h, db, pc, id)
    ensures Fits(h, Publish(db, e, now), pc, id)
  {
  }

  lemma HistoryStep(t: Trace, a: Action, id: EventId)
    ensures HistoryOf(t + [a], id) ==
            if a.Does? then Note(HistoryOf(t, id), a.op, id) else HistoryOf(t, id)
  {
    assert (t + [a])[..|t|] == t;
  }

  lemma InvStepOp(maxRetries: int, t: Trace, s: Sys, w: WorkerId, op: Op)
    requires Inv(maxRetries, t, s) && CanDo(s.db, At(s, w), op)
    ensures Inv(maxRetries, t + [Does(w, op)], Next(maxRetries, s, Does(w, op)))
  {
    var s' := Next(maxRetries, s, Does(w, op));
    forall id: EventId ensures HistoryOf(t + [Does(w, op)], id) == Note(HistoryOf(t, id), op, id) {
      HistoryStep(t, Does(w, op), id);
    }
    forall id: EventId
      ensures RowAt(maxRetries, Note(HistoryOf(t, id), op, id), s'.db, id) && HandledAt(s'.db, id)
      ensures Fits(Note(HistoryOf(t, id), op, id), s'.db, At(s', w), id)
      ensures OrphanAt(Note(HistoryOf(t, id), op, id), s', id)
    {
      OpKeepsRow(maxRetries, HistoryOf(t, id), s.db, At(s, w), op, id);
      OpKeepsActor(maxRetries, HistoryOf(t, id), s.db, At(s, w), op, id);
      OpKeepsOrphan(maxRetries, HistoryOf(t, id), s, w, op, id);
    }
    forall v: WorkerId, id: EventId | v != w && Held(At(s, v)) == Some(id)
      ensures Fits(Note(HistoryOf(t, id), op, id), s'.db, At(s', v), id)
      ensures Held(At(s', w)) != Held(At(s', v))
    {
      assert Apart(s, v, w);
      OpKeepsOther(maxRetries, HistoryOf(t, id), s.db, At(s, w), op, At(s, v), id);
    }
    forall u: WorkerId, v: WorkerId ensures Apart(s', u, v) {
      assert Apart(s, u, v);
    }
  }

  lemma InvStepPublish(maxRetries: int, t: Trace, s: Sys, e: EventEnvelope, now: Instant)
    requires Inv(maxRetries, t, s)
    ensures Inv(maxRetries, t + [DoPublish(e, now)], Next(maxRetries, s, DoPublish(e, now)))
  {
    forall id: EventId ensures HistoryOf(t + [DoPublish(e, now)], id) == HistoryOf(t, id) {
      HistoryStep(t, DoPublish(e, now), id);
    }
    var s' := Next(maxRetries, s, DoPublish(e, now));
    forall id: EventId ensures OrphanAt(HistoryOf(t, id), s', id) {
      if HeldBySomeone(s, id) {
        var v: WorkerId :| Held(At(s, v)) == Some(id);
        assert Held(At(s', v)) == Some(id);
      }
    }
    forall u: WorkerId, v: WorkerId ensures Apart(s', u, v) {
      assert Apart(s, u, v);
    }
    forall id: EventId
      ensures RowAt(maxRetries, HistoryOf(t, id), s'.db, id) && HandledAt(s'.db, id)
    {
      PublishKeeps(maxRetries, HistoryOf(t, id), s.db, e, now, id);
    }
    forall v: WorkerId, id: EventId ensures Fits(HistoryOf(t, id), s'.db, At(s', v), id) {
      PublishKeepsHolder(HistoryOf(t, id), s.db, e, now, At(s, v), id);
    }
  }

  // Every reachable state satisfies the invariant.
  lemma {:induction false} InvHolds(maxRetries: int, t: Trace, s: Sys)
    requires Reachable(maxRetries, t, s)
    ensures Inv(maxRetries, t, s)
  {
    if t != [] {
      var u := Exec(maxRetries, INITIAL, t[..|t| - 1]).value;
      InvHolds(maxRetries, t[..|t| - 1], u);
      assert t[..|t| - 1] + [t[|t| - 1]] == t;
      match t[|t| - 1]
      case DoPublish(e, now) => InvStepPublish(maxRetries, t[..|t| - 1], u, e, now);
      case Does(w, op) => InvStepOp(maxRetries, t[..|t| - 1], u, w, op);
    }
  }
}
