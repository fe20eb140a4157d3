// `SqliteBus` as an object over its two tables. Its methods are runs without SQL errors;
// errors and interleavings are the subject of OutboxProtocol, and `ProcessOnce` says which
// run of that protocol it takes.
module SqliteBusObject {
  import opened Common
  import opened Envelopes
  import opened Outbox
  import opened OutboxProtocol
  import P = OutboxProgress

  type HandlerResult = Result<Unit, string>
  type Handler = (EventEnvelope, Option<EventId>) -> HandlerResult

  const DEFAULT_MAX_RETRIES: int := 3

  // The text under which a handler's error is stored.
  function Nack(message: string): string {
    "handler nack: " + message
  }

  // The tables after a pass that claimed `id` and got this answer from its handler.
  function Processed(maxRetries: int, db: Tables, id: EventId, answer: HandlerResult,
                     claimedAt: Instant, markedAt: Instant): Tables {
    var claimed := Claim(db, id, claimedAt);
    match answer
    case Ok(_) => MarkHandled(claimed, id, markedAt)
    case Err(message) => MarkFailed(maxRetries, claimed, id, markedAt, Nack(message))
  }

  class SqliteBus {
    var outbox: map<EventId, Row>
    var handled: map<EventId, Instant>
    var lastRowid: nat
    var maxRetries: int

    function Db(): Tables
      reads this
    {
      Tables(outbox, handled, lastRowid)
    }

    // Opening a bus keeps the tables a database already has.
    constructor (existing: Tables)
      ensures Db() == existing && maxRetries == 3
    {
      outbox, handled, lastRowid := existing.outbox, existing.handled, existing.lastRowid;
      maxRetries := DEFAULT_MAX_RETRIES;
    }

    method WithMaxRetries(n: int)
      modifies this`maxRetries
      ensures maxRetries == n
    {
      maxRetries := n;
    }

    method PublishEnvelope(e: EventEnvelope, now: Instant) returns (answer: PublishResult)
      modifies this`outbox, this`lastRowid
      ensures Db() == Publish(old(Db()), e, now)
      ensures answer == PublishAnswer(old(Db()), e)
    {
      var check := Validate(e);
      if check.Err? {
        return Err(check.error);
      }
      var duplicate := e.id in outbox;
      if !duplicate {
        outbox := outbox[e.id := Row(e, Pending, 0, now, None, now, now, lastRowid + 1)];
        lastRowid := lastRowid + 1;
      }
      return Ok(Ack(e.id, duplicate));
    }

    method ClaimNext(now: Instant) returns (id: Option<EventId>)
      modifies this`outbox
      ensures id.None? ==> NothingClaimable(old(Db()), now) && Db() == old(Db())
      ensures id.Some? ==> SelectsNext(old(Db()), now, id.value) && Db() == Claim(old(Db()), id.value, now)
    {
      var due := set i | i in outbox && Claimable(outbox[i], now);
      if due == {} {
        assert forall i :: i in outbox ==> i !in due;
        return None;
      }
      ghost var first := P.EarliestExists(Db(), now, due);
      var next :| next in due && forall other :: other in due ==> outbox[next].createdAt <= outbox[other].createdAt;
      assert SelectsNext(Db(), now, next) by {
        assert forall other :: other in outbox && Claimable(outbox[other], now) ==> other in due;
      }
      outbox := outbox[next := outbox[next].(status := InProgress, updatedAt := now)];
      return Some(next);
    }

    method LastSeen() returns (id: Option<EventId>)
      ensures IsLastSeen(Db(), id)
    {
      if handled == map[] {
        return None;
      }
      ghost var some :| some in handled;
      assert some in handled.Keys;
      ghost var last := P.LatestExists(handled, handled.Keys);
      var newest :| newest in handled.Keys && forall other :: other in handled.Keys ==> handled[other] <= handled[newest];
      assert forall other :: other in handled ==> other in handled.Keys;
      return Some(newest);
    }

    method MarkEventHandled(id: EventId, now: Instant)
      modifies this`outbox, this`handled
      ensures Db() == MarkHandled(old(Db()), id, now)
    {
      if id !in handled {
        handled := handled[id := now];
      }
      if id in outbox {
        outbox := outbox[id := outbox[id].(status := Acked, updatedAt := now)];
      }
    }

    method MarkEventFailed(id: EventId, error: string, now: Instant)
      modifies this`outbox
      ensures Db() == MarkFailed(maxRetries, old(Db()), id, now, error)
    {
      if id !in outbox {
        return;
      }
      var nextAttempts := outbox[id].attempts + 1;
      var status := if nextAttempts >= maxRetries then Dlq else Retrying;
      outbox := outbox[id := outbox[id].(
        status := status,
        attempts := nextAttempts,
        nextAttemptAt := now + BACKOFF,
        lastError := Some(error),
        updatedAt := now)];
    }

    method IsAlreadyHandled(id: EventId) returns (yes: bool)
      ensures yes <==> id in handled
    {
      yes := id in handled;
    }

    // One pass of the worker loop. The result and the new tables are those of the event
    // chosen, and the pass is a run `t` of the protocol taken by worker `w` alone.
    method ProcessOnce(handler: Handler, claimAt: Instant, markAt: Instant,
                       ghost w: WorkerId, ghost others: map<WorkerId, Pc>)
      returns (worked: bool, ghost id: EventId, ghost lastSeen: Option<EventId>, ghost t: Trace)
      modifies this`outbox, this`handled
      ensures !worked ==> NothingClaimable(old(Db()), claimAt) && Db() == old(Db()) && t == []
      ensures worked ==> SelectsNext(old(Db()), claimAt, id)
      ensures worked && id in old(handled) ==> Db() == MarkHandled(Claim(old(Db()), id, claimAt), id, markAt)
      ensures worked && id !in old(handled) ==>
        && IsLastSeen(old(Db()), lastSeen)
        && Db() == Processed(maxRetries, old(Db()), id, handler(old(Db()).outbox[id].envelope, lastSeen),
                             claimAt, markAt)
      ensures Exec(maxRetries, Sys(old(Db()), others[w := Idle]), t) == Some(Sys(Db(), others[w := Idle]))
    {
      ghost var start := Sys(Db(), others[w := Idle]);
      id, lastSeen, t := 0, None, [];
      var claimed := ClaimNext(claimAt);
      if claimed.None? {
        return false, 0, None, [];
      }
      id, worked := claimed.value, true;
      var duplicate := IsAlreadyHandled(claimed.value);
      if duplicate {
        MarkEventHandled(claimed.value, markAt);
        t := DuplicatePassIsARun(maxRetries, start, w, id, claimAt, markAt);
      } else {
        var seen := LastSeen();
        lastSeen := seen;
        var answer := handler(outbox[claimed.value].envelope, seen);
        match answer {
          case Ok(_) => MarkEventHandled(claimed.value, markAt);
          case Err(message) => MarkEventFailed(claimed.value, Nack(message), markAt);
        }
        t := PassIsARun(maxRetries, start, w, id, lastSeen, answer, claimAt, markAt);
      }
      assert others[w := Idle][w := Idle] == others[w := Idle];
    }

    method Status(id: EventId) returns (status: Option<Outbox.Status>)
      ensures status == if id in outbox then Some(outbox[id].status) else None
    {
      status := if id in outbox then Some(outbox[id].status) else None;
    }

    method PendingCount() returns (n: nat)
      ensures n == |Unfinished(Db())|
    {
      n := |set id | id in outbox && (Waiting(outbox[id]) || outbox[id].status == InProgress)|;
      assert Unfinished(Db()) ==
             set id | id in outbox && (Waiting(outbox[id]) || outbox[id].status == InProgress);
    }

    method DlqCount() returns (n: nat)
      ensures n == |Dead(Db())|
    {
      n := |set id | id in outbox && outbox[id].status == Dlq|;
      assert Dead(Db()) == set id | id in outbox && outbox[id].status == Dlq;
    }
  }

  // One more operation of `w`, which has got to `pc` with the tables at `db`.
  lemma OneMore(maxRetries: int, s: Sys, w: WorkerId, t: Trace, db: Tables, pc: Pc, op: Op)
    returns (t': Trace, db': Tables, pc': Pc)
    requires Exec(maxRetries, s, t) == Some(Sys(db, s.workers[w := pc])) && CanDo(db, pc, op)
    ensures t' == t + [Does(w, op)]
    ensures db' == Effect(maxRetries, db, pc, op) && pc' == Then(db, pc, op)
    ensures Exec(maxRetries, s, t') == Some(Sys(db', s.workers[w := pc']))
  {
    var u := Sys(db, s.workers[w := pc]);
    assert At(u, w) == pc;
    t', db', pc' := t + [Does(w, op)], Effect(maxRetries, db, pc, op), Then(db, pc, op);
    ExecExtend(maxRetries, s, t, u, Does(w, op));
    assert s.workers[w := pc][w := pc'] == s.workers[w := pc'];
  }

  lemma ClaimIsARun(maxRetries: int, s: Sys, w: WorkerId, id: EventId, claimAt: Instant)
    returns (t: Trace, pc: Pc)
    requires At(s, w) == Idle && SelectsNext(s.db, claimAt, id)
    ensures Exec(maxRetries, s, t) == Some(Sys(Claim(s.db, id, claimAt), s.workers[w := pc]))
    ensures pc == if id in s.db.handled then AlreadyHandled(id) else Unhandled(id)
    ensures P.TakesOnly(t, {claimAt})
  {
    var db := s.db;
    assert s.workers[w := Idle] == s.workers;
    t, db, pc := OneMore(maxRetries, s, w, [], s.db, Idle, Select(id, claimAt));
    t, db, pc := OneMore(maxRetries, s, w, t, db, pc, CommitClaim(true));
    t, db, pc := OneMore(maxRetries, s, w, t, db, pc, CheckHandled);
  }

  lemma DuplicatePassIsARun(maxRetries: int, s: Sys, w: WorkerId, id: EventId, claimAt: Instant, markAt: Instant)
    returns (t: Trace)
    requires At(s, w) == Idle && SelectsNext(s.db, claimAt, id) && id in s.db.handled
    ensures Exec(maxRetries, s, t)
         == Some(Sys(MarkHandled(Claim(s.db, id, claimAt), id, markAt), s.workers[w := Idle]))
  {
    var db, pc := s.db, Idle;
    t, pc := ClaimIsARun(maxRetries, s, w, id, claimAt);
    t, db, pc := OneMore(maxRetries, s, w, t, Claim(s.db, id, claimAt), pc, MarkDuplicate(markAt));
  }

  lemma InvokeIsARun(maxRetries: int, s: Sys, w: WorkerId, id: EventId, lastSeen: Option<EventId>, claimAt: Instant)
    returns (t: Trace)
    requires At(s, w) == Idle && SelectsNext(s.db, claimAt, id) && id !in s.db.handled
    requires IsLastSeen(s.db, lastSeen)
    ensures Exec(maxRetries, s, t) == Some(Sys(Claim(s.db, id, claimAt), s.workers[w := Running(id)]))
    ensures P.TakesOnly(t, {claimAt})
  {
    var db, pc := s.db, Idle;
    t, pc := ClaimIsARun(maxRetries, s, w, id, claimAt);
    t, db, pc := OneMore(maxRetries, s, w, t, Claim(s.db, id, claimAt), pc, ReadLastSeen(lastSeen));
    t, db, pc := OneMore(maxRetries, s, w, t, db, pc, Invoke(id, lastSeen));
  }

  lemma SuccessIsARun(maxRetries: int, s: Sys, w: WorkerId, id: EventId, t: Trace, db: Tables, markAt: Instant)
    returns (t': Trace)
    requires Exec(maxRetries, s, t) == Some(Sys(db, s.workers[w := Running(id)]))
    ensures Exec(maxRetries, s, t') == Some(Sys(MarkHandled(db, id, markAt), s.workers[w := Idle]))
    ensures t' == t + [Does(w, ReturnOk(id))] + [Does(w, CommitHandled(id, markAt))]
  {
    var db', pc;
    t', db', pc := OneMore(maxRetries, s, w, t, db, Running(id), ReturnOk(id));
    t', db', pc := OneMore(maxRetries, s, w, t', db', pc, CommitHandled(id, markAt));
  }

  lemma FailureIsARun(maxRetries: int, s: Sys, w: WorkerId, id: EventId, t: Trace, db: Tables, error: string,
                      markAt: Instant) returns (t': Trace)
    requires Exec(maxRetries, s, t) == Some(Sys(db, s.workers[w := Running(id)])) && id in db.outbox
    ensures Exec(maxRetries, s, t') == Some(Sys(MarkFailed(maxRetries, db, id, markAt, error), s.workers[w := Idle]))
    ensures t' == t + [Does(w, ReturnErr(id, error))] + [Does(w, ReadAttempts(id, markAt))] + [Does(w, CommitFailure(id))]
  {
    var db', pc;
    t', db', pc := OneMore(maxRetries, s, w, t, db, Running(id), ReturnErr(id, error));
    t', db', pc := OneMore(maxRetries, s, w, t', db', pc, ReadAttempts(id, markAt));
    t', db', pc := OneMore(maxRetries, s, w, t', db', pc, CommitFailure(id));
  }

  lemma PassIsARun(maxRetries: int, s: Sys, w: WorkerId, id: EventId, lastSeen: Option<EventId>,
                   answer: HandlerResult, claimAt: Instant, markAt: Instant) returns (t: Trace)
    requires At(s, w) == Idle && SelectsNext(s.db, claimAt, id) && id !in s.db.handled
    requires IsLastSeen(s.db, lastSeen)
    ensures Exec(maxRetries, s, t)
         == Some(Sys(Processed(maxRetries, s.db, id, answer, claimAt, markAt), s.workers[w := Idle]))
    ensures P.TakesOnly(t, {claimAt, markAt})
  {
    t := InvokeIsARun(maxRetries, s, w, id, lastSeen, claimAt);
    var db := Claim(s.db, id, claimAt);
    match answer
    case Ok(_) => t := SuccessIsARun(maxRetries, s, w, id, t, db, markAt);
    case Err(message) => t := FailureIsARun(maxRetries, s, w, id, t, db, Nack(message), markAt);
  }
}
