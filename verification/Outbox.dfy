// The two tables behind `SqliteBus` and the effect of each SQL statement on them.
// A timestamp column is compared as an instant; module Timestamps shows that comparing
// its text, as SQLite does, gives the same answer.
module Outbox {
  import opened Common
  import opened Envelopes

  type Instant = int // nanoseconds

  const BACKOFF: int := 10_000_000 // 10 ms

  datatype Status = Pending | InProgress | Retrying | Acked | Dlq

  datatype Row = Row(
    envelope: EventEnvelope,
    status: Status,
    attempts: int,
    nextAttemptAt: Instant,
    lastError: Option<string>,
    createdAt: Instant,
    updatedAt: Instant,
    rowid: nat)

  // `lastRowid` is the largest rowid in the outbox, 0 when it is empty: SQLite gives an
  // inserted row the next one.
  datatype Tables = Tables(
    outbox: map<EventId, Row>,
    handled: map<EventId, Instant>,
    lastRowid: nat)

  const EMPTY := Tables(map[], map[], 0)

  predicate Waiting(row: Row) {
    row.status == Pending || row.status == Retrying
  }

  predicate Claimable(row: Row, now: Instant) {
    Waiting(row) && row.nextAttemptAt <= now
  }

  // A claim may pick `id`: a waiting row that is due, no due one being older. Of rows created
  // at the same instant it may pick any.
  ghost predicate SelectsNext(db: Tables, now: Instant, id: EventId) {
    && id in db.outbox
    && Claimable(db.outbox[id], now)
    && forall other :: other in db.outbox && Claimable(db.outbox[other], now)
                       ==> db.outbox[id].createdAt <= db.outbox[other].createdAt
  }

  ghost predicate NothingClaimable(db: Tables, now: Instant) {
    forall id :: id in db.outbox ==> !Claimable(db.outbox[id], now)
  }

  // Takes the row if it is still waiting; otherwise no row is affected.
  function Claim(db: Tables, id: EventId, now: Instant): Tables {
    if id in db.outbox && Waiting(db.outbox[id]) then
      db.(outbox := db.outbox[id := db.outbox[id].(status := InProgress, updatedAt := now)])
    else
      db
  }

  // A new pending row, due at once; an id that is already there is left as it is.
  function InsertOrIgnore(db: Tables, e: EventEnvelope, now: Instant): Tables {
    if e.id in db.outbox then db
    else
      var row := Row(e, Pending, 0, now, None, now, now, db.lastRowid + 1);
      db.(outbox := db.outbox[e.id := row], lastRowid := db.lastRowid + 1)
  }

  function Publish(db: Tables, e: EventEnvelope, now: Instant): Tables {
    if Valid(e) then InsertOrIgnore(db, e, now) else db
  }

  function PublishAnswer(db: Tables, e: EventEnvelope): PublishResult {
    match Validate(e)
    case Ok(_) => Ok(Ack(e.id, e.id in db.outbox))
    case Err(fault) => Err(fault)
  }

  // The transaction of `mark_handled`: record the id once, then ack the row.
  function MarkHandled(db: Tables, id: EventId, now: Instant): Tables {
    var handled := if id in db.handled then db.handled else db.handled[id := now];
    var outbox :=
      if id in db.outbox then db.outbox[id := db.outbox[id].(status := Acked, updatedAt := now)]
      else db.outbox;
    db.(handled := handled, outbox := outbox)
  }

  // The write that ends `mark_failed`, given the attempts read before it.
  function WriteFailure(maxRetries: int, db: Tables, id: EventId, attempts: int, now: Instant,
                        error: string): Tables {
    if id in db.outbox then
      db.(outbox := db.outbox[id := db.outbox[id].(
        status := if attempts + 1 >= maxRetries then Dlq else Retrying,
        attempts := attempts + 1,
        nextAttemptAt := now + BACKOFF,
        lastError := Some(error),
        updatedAt := now)])
    else
      db
  }

  // `mark_failed` as one indivisible increment.
  function MarkFailed(maxRetries: int, db: Tables, id: EventId, now: Instant, error: string): Tables {
    if id in db.outbox then
      WriteFailure(maxRetries, db, id, db.outbox[id].attempts, now, error)
    else
      db
  }

  // The id handled last, None if there is none; of ids handled at the same instant any.
  ghost predicate IsLastSeen(db: Tables, answer: Option<EventId>) {
    match answer
    case None => db.handled == map[]
    case Some(id) =>
      && id in db.handled
      && forall other :: other in db.handled ==> db.handled[other] <= db.handled[id]
  }

  // What `pending_count` and `dlq_count` count.
  function Unfinished(db: Tables): set<EventId> {
    set id | id in db.outbox && db.outbox[id].status in {Pending, Retrying, InProgress}
  }

  function Dead(db: Tables): set<EventId> {
    set id | id in db.outbox && db.outbox[id].status == Dlq
  }
}
