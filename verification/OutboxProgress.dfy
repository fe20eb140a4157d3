// How much work a run of the outbox can still do, and what is left once it is done.
module OutboxProgress {
  import opened Common
  import opened Envelopes
  import opened Outbox
  import opened OutboxProtocol
  import opened FiniteSums
  import G = OutboxGuarantees

  // ----- A measure that every claim and every mark lowers -----

  function Weight(maxRetries: int, row: Row): int {
    if Waiting(row) then 2 * (Budget(maxRetries) - row.attempts)
    else if row.status == InProgress then 2 * (Budget(maxRetries) - row.attempts) - 1
    else 0
  }

  function Weights(maxRetries: int, outbox: map<EventId, Row>): map<EventId, int> {
    map id | id in outbox :: Weight(maxRetries, outbox[id])
  }

  ghost function Measure(maxRetries: int, s: Sys): int {
    Sum(Weights(maxRetries, s.db.outbox))
  }

  // A won claim or a committed mark.
  function Worked(a: Action): nat {
    match a
    case Does(_, CommitClaim(won)) => if won then 1 else 0
    case Does(_, CommitHandled(_, _)) => 1
    case Does(_, CommitFailure(_)) => 1
    case Does(_, MarkDuplicate(_)) => 1
    case _ => 0
  }

  function Work(t: Trace): nat {
    if t == [] then 0 else Work(t[..|t| - 1]) + Worked(t[|t| - 1])
  }

  lemma PutSize(outbox: map<EventId, Row>, id: EventId, row: Row)
    ensures |outbox[id := row]| == |outbox| + (if id in outbox then 0 else 1)
  {
    assert outbox[id := row].Keys == outbox.Keys + {id};
  }

  lemma MeasurePut(maxRetries: int, outbox: map<EventId, Row>, id: EventId, row: Row)
    ensures Sum(Weights(maxRetries, outbox[id := row])) ==
            Sum(Weights(maxRetries, outbox)) + Weight(maxRetries, row)
            - (if id in outbox then Weight(maxRetries, outbox[id]) else 0)
    ensures |outbox[id := row]| == |outbox| + (if id in outbox then 0 else 1)
  {
    var w := Weights(maxRetries, outbox);
    assert w.Keys == outbox.Keys;
    SumPut(w, id, Weight(maxRetries, row));
    assert Weights(maxRetries, outbox[id := row]) == w[id := Weight(maxRetries, row)];
    PutSize(outbox, id, row);
  }

  // The row an operation may change, if any, and what that does to its weight.
  lemma OpWork(maxRetries: int, h: History, db: Tables, w: WorkerId, pc: Pc, op: Op, id: EventId)
    requires CanDo(db, pc, op)
    requires pc != Absent && pc != Idle ==> pc.id == id
    requires Fits(h, db, pc, id) && RowAt(maxRetries, h, db, id)
    ensures
      var db' := Effect(maxRetries, db, pc, op);
      || (db'.outbox == db.outbox && Worked(Does(w, op)) == 0)
      || (id in db.outbox && id in db'.outbox && db'.outbox == db.outbox[id := db'.outbox[id]]
          && Worked(Does(w, op)) + Weight(maxRetries, db'.outbox[id]) <= Weight(maxRetries, db.outbox[id]))
  {
  }

  // Every claim and every mark lowers the measure, and nothing but a publish raises it.
  lemma OpLowersMeasure(maxRetries: int, t: Trace, s: Sys, w: WorkerId, op: Op)
    requires Reachable(maxRetries, t, s) && CanDo(s.db, At(s, w), op)
    ensures
      var s' := Next(maxRetries, s, Does(w, op));
      && s'.db.outbox.Keys == s.db.outbox.Keys
      && Worked(Does(w, op)) + Measure(maxRetries, s') <= Measure(maxRetries, s)
  {
    var pc := At(s, w);
    var id := if pc.Absent? || pc.Idle? then 0 else pc.id;
    assert Fits(HistoryOf(t, id), s.db, pc, id) && RowAt(maxRetries, HistoryOf(t, id), s.db, id) by {
      InvHolds(maxRetries, t, s);
    }
    OpWork(maxRetries, HistoryOf(t, id), s.db, w, pc, op, id);
    var outbox' := Effect(maxRetries, s.db, pc, op).outbox;
    if outbox' != s.db.outbox {
      MeasurePut(maxRetries, s.db.outbox, id, outbox'[id]);
    }
  }

  // The work all published events allow, less the work still open.
  ghost function Spent(maxRetries: int, s: Sys): int {
    2 * Budget(maxRetries) * |s.db.outbox| - Measure(maxRetries, s)
  }

  lemma PublishCost(maxRetries: int, s: Sys, e: EventEnvelope, now: Instant)
    ensures
      var s' := Next(maxRetries, s, DoPublish(e, now));
      Spent(maxRetries, s) == Spent(maxRetries, s') && |s.db.outbox| <= |s'.db.outbox|
  {
    var outbox' := Publish(s.db, e, now).outbox;
    if outbox' != s.db.outbox {
      MeasurePut(maxRetries, s.db.outbox, e.id, outbox'[e.id]);
      Distribute(2 * Budget(maxRetries), |s.db.outbox|);
    }
  }

  lemma WorkStep(maxRetries: int, t: Trace, s: Sys, a: Action)
    requires Reachable(maxRetries, t, s) && Enabled(s, a)
    ensures |s.db.outbox| <= |Next(maxRetries, s, a).db.outbox|
    ensures Worked(a) <= Spent(maxRetries, Next(maxRetries, s, a)) - Spent(maxRetries, s)
  {
    match a
    case DoPublish(e, now) => PublishCost(maxRetries, s, e, now);
    case Does(w, op) =>
      OpLowersMeasure(maxRetries, t, s, w, op);
      assert |Next(maxRetries, s, a).db.outbox.Keys| == |s.db.outbox.Keys|;
  }

  lemma {:induction false} WorkIsSpent(maxRetries: int, t: Trace, s: Sys, u: Trace, s': Sys)
    requires Reachable(maxRetries, t, s) && Reachable(maxRetries, t + u, s')
    ensures |s.db.outbox| <= |s'.db.outbox|
    ensures Work(u) <= Spent(maxRetries, s') - Spent(maxRetries, s)
    decreases |u|
  {
    if u == [] {
      assert t + u == t;
    } else {
      var u', v, a := LastStep(maxRetries, t, u, s');
      WorkIsSpent(maxRetries, t, s, u', v);
      WorkStep(maxRetries, t + u', v, a);
      assert u[..|u| - 1] == u';
    }
  }

  lemma MeasureNotNegative(maxRetries: int, t: Trace, s: Sys)
    requires Reachable(maxRetries, t, s)
    ensures 0 <= Measure(maxRetries, s)
  {
    InvHolds(maxRetries, t, s);
    forall id | id in s.db.outbox ensures 0 <= Weight(maxRetries, s.db.outbox[id]) {
      assert RowAt(maxRetries, HistoryOf(t, id), s.db, id);
    }
    SumNotNegative(Weights(maxRetries, s.db.outbox));
  }

  // From any reachable state, a continuation that adds no event holds at most as many
  // claims and marks as the measure says, whatever aborts and errors it meets.
  lemma DrainWorkIsBounded(maxRetries: int, t: Trace, s: Sys, u: Trace, s': Sys)
    requires Reachable(maxRetries, t, s) && Reachable(maxRetries, t + u, s')
    requires |s'.db.outbox| == |s.db.outbox|
    ensures Work(u) <= Measure(maxRetries, s) - Measure(maxRetries, s')
    ensures 0 <= Measure(maxRetries, s')
  {
    WorkIsSpent(maxRetries, t, s, u, s');
    MeasureNotNegative(maxRetries, t + u, s');
  }

  // Over a whole run, at most 2 * max(1, maxRetries) claims and marks per published event.
  lemma TotalWork(maxRetries: int, t: Trace, s: Sys)
    requires Reachable(maxRetries, t, s)
    ensures Work(t) <= 2 * Budget(maxRetries) * |s.db.outbox|
  {
    assert [] + t == t;
    WorkIsSpent(maxRetries, [], INITIAL, t, s);
    MeasureNotNegative(maxRetries, t, s);
    assert Weights(maxRetries, INITIAL.db.outbox) == map[];
  }

  // ----- A worker is never stuck -----

  lemma {:induction false} EarliestExists(db: Tables, now: Instant, ids: set<EventId>) returns (first: EventId)
    requires ids != {} && forall id :: id in ids ==> id in db.outbox
    ensures first in ids
    ensures forall id :: id in ids ==> db.outbox[first].createdAt <= db.outbox[id].createdAt
  {
    var x :| x in ids;
    if ids == {x} {
      first := x;
    } else {
      var rest := EarliestExists(db, now, ids - {x});
      first := if db.outbox[x].createdAt <= db.outbox[rest].createdAt then x else rest;
    }
  }

  lemma {:induction false} LatestExists(handled: map<EventId, Instant>, ids: set<EventId>) returns (last: EventId)
    requires ids != {} && forall id :: id in ids ==> id in handled
    ensures last in ids
    ensures forall id :: id in ids ==> handled[id] <= handled[last]
  {
    var x :| x in ids;
    if ids == {x} {
      last := x;
    } else {
      var rest := LatestExists(handled, ids - {x});
      last := if handled[rest] <= handled[x] then x else rest;
    }
  }

  predicate OwnStep(op: Op) {
    !op.Subscribe? && !op.Abort? && !op.SqlError?
  }

  // The instant an action reads from the clock.
  function InstantOf(a: Action): Option<Instant> {
    match a
    case DoPublish(_, at) => Some(at)
    case Does(_, Select(_, at)) => Some(at)
    case Does(_, MarkDuplicate(at)) => Some(at)
    case Does(_, CommitHandled(_, at)) => Some(at)
    case Does(_, ReadAttempts(_, at)) => Some(at)
    case _ => None
  }

  predicate TakenAt(op: Op, now: Instant) {
    InstantOf(Does(0, op)) in {None, Some(now)}
  }

  // The instants of these actions start at `from` or later and never go back.
  predicate Rises(u: Trace, from: Instant) {
    u == [] ||
    match InstantOf(u[0])
    case None => Rises(u[1..], from)
    case Some(at) => from <= at && Rises(u[1..], at)
  }

  // The actions take no other instants than these.
  predicate TakesOnly(u: Trace, instants: set<Instant>) {
    forall a :: a in u && InstantOf(a).Some? ==> InstantOf(a).value in instants
  }

  predicate EndsBy(u: Trace, end: Instant) {
    forall a :: a in u && InstantOf(a).Some? ==> InstantOf(a).value <= end
  }

  lemma {:induction false} OneInstantRises(u: Trace, now: Instant)
    requires TakesOnly(u, {now})
    ensures Rises(u, now) && EndsBy(u, now)
  {
    if u != [] {
      assert u[0] in u && forall a :: a in u[1..] ==> a in u;
      OneInstantRises(u[1..], now);
    }
  }

  lemma {:induction false} JoinRises(t: Trace, from: Instant, u: Trace, at: Instant)
    requires Rises(t, from) && EndsBy(t, at) && from <= at && Rises(u, at)
    ensures Rises(t + u, from)
  {
    if t == [] {
      assert t + u == u;
      RisesFromEarlier(u, from, at);
    } else {
      assert (t + u)[1..] == t[1..] + u && t[0] in t && forall a :: a in t[1..] ==> a in t;
      JoinRises(t[1..], if InstantOf(t[0]).Some? then InstantOf(t[0]).value else from, u, at);
    }
  }

  lemma {:induction false} RisesFromEarlier(u: Trace, from: Instant, later: Instant)
    requires from <= later && Rises(u, later)
    ensures Rises(u, from)
  {
    if u != [] && InstantOf(u[0]).None? {
      RisesFromEarlier(u[1..], from, later);
    }
  }

  // A subscribed worker always has a next step of its own, unless it is idle and nothing
  // in the outbox is due.
  lemma NeverStuck(db: Tables, pc: Pc, now: Instant) returns (op: Op)
    requires pc != Absent
    requires pc == Idle ==> !NothingClaimable(db, now)
    ensures OwnStep(op) && TakenAt(op, now) && CanDo(db, pc, op)
  {
    match pc
    case Idle =>
      var due := set id | id in db.outbox && Claimable(db.outbox[id], now);
      var some :| some in db.outbox && Claimable(db.outbox[some], now);
      assert some in due;
      var first := EarliestExists(db, now, due);
      assert SelectsNext(db, now, first);
      op := Select(first, now);
    case Selected(id, _) => op := CommitClaim(id in db.outbox && Waiting(db.outbox[id]));
    case Claimed(_) => op := CheckHandled;
    case AlreadyHandled(_) => op := MarkDuplicate(now);
    case Unhandled(_) =>
      if db.handled == map[] {
        op := ReadLastSeen(None);
      } else {
        assert db.handled.Keys != {} by { var k :| k in db.handled; assert k in db.handled.Keys; }
        var last := LatestExists(db.handled, db.handled.Keys);
        op := ReadLastSeen(Some(last));
      }
    case Ready(id, lastSeen) => op := Invoke(id, lastSeen);
    case Running(id) => op := ReturnOk(id);
    case Succeeded(id) => op := CommitHandled(id, now);
    case Failed(id, _) => op := ReadAttempts(id, now);
    case FailedRead(id, _, _, _) => op := CommitFailure(id);
  }

  // ----- What is left when the work is done -----

  ghost predicate Quiet(s: Sys, now: Instant) {
    && NothingClaimable(s.db, now)
    && (forall id :: id in s.db.outbox ==> s.db.outbox[id].nextAttemptAt <= now)
    && (forall w: WorkerId :: Held(At(s, w)).None?)
  }

  // No worker has a step of its own at this instant.
  ghost predicate Stuck(s: Sys, now: Instant) {
    forall w: WorkerId, op :: OwnStep(op) && TakenAt(op, now) ==> !CanDo(s.db, At(s, w), op)
  }

  ghost predicate Staffed(s: Sys) {
    exists w: WorkerId :: At(s, w) != Absent
  }

  // A drain that cannot go on, with some worker subscribed and every retry due, is at rest;
  // and at rest only a lost claim could still go on.
  lemma StuckExactlyWhenQuiet(s: Sys, now: Instant)
    requires Staffed(s)
    requires forall id :: id in s.db.outbox ==> s.db.outbox[id].nextAttemptAt <= now
    ensures Stuck(s, now) <==> Quiet(s, now) && forall w: WorkerId :: At(s, w) in {Absent, Idle}
  {
    if Stuck(s, now) {
      forall w: WorkerId | At(s, w) != Absent ensures At(s, w) == Idle && NothingClaimable(s.db, now) {
        if At(s, w) != Idle || !NothingClaimable(s.db, now) {
          var op := NeverStuck(s.db, At(s, w), now);
        }
      }
    }
  }

  // ----- Every drain ends -----

  const MAX_RANK: int := 9

  // How many steps a worker is from its next won claim, or from idling again. One that
  // selected a row somebody else has claimed since must lose its claim first.
  function Rank(db: Tables, pc: Pc): int {
    match pc
    case Absent => 0
    case Idle => 2
    case Selected(id, _) => if id in db.outbox && Waiting(db.outbox[id]) then 1 else 3
    case FailedRead(_, _, _, _) => 4
    case Succeeded(_) => 4
    case Failed(_, _) => 5
    case Running(_) => 6
    case Ready(_, _) => 7
    case Unhandled(_) => 8
    case AlreadyHandled(_) => 8
    case Claimed(_) => MAX_RANK
  }

  function Ranks(s: Sys): map<WorkerId, int> {
    map w | w in s.workers :: Rank(s.db, s.workers[w])
  }

  function StepsPerClaim(s: Sys): int {
    MAX_RANK * |s.workers| + 1
  }

  ghost function Effort(maxRetries: int, s: Sys): int {
    StepsPerClaim(s) * Measure(maxRetries, s) + Sum(Ranks(s))
  }

  lemma Scale(c: int, m: int, n: int)
    requires 0 <= c
    ensures m <= n ==> c * m <= c * n
    ensures 0 <= m ==> 0 <= c * m
    ensures m < n ==> c * m + c <= c * n
  {
    if m < n {
      Distribute(c, m);
      ScaleUp(c, m + 1, n);
    }
  }

  lemma ScaleUp(c: int, m: int, n: int)
    requires 0 <= c && m <= n
    ensures c * m <= c * n
  {
  }

  // Unless it claims a row, an operation brings its own worker one step on and makes no
  // other worker's claim a lost one.
  lemma OpLowersRank(maxRetries: int, h: History, db: Tables, pc: Pc, op: Op, other: Pc)
    requires CanDo(db, pc, op) && OwnStep(op) && op != CommitClaim(true)
    requires pc != Idle ==> Fits(h, db, pc, pc.id)
    ensures Rank(Effect(maxRetries, db, pc, op), Then(db, pc, op)) < Rank(db, pc)
    ensures Rank(Effect(maxRetries, db, pc, op), other) <= Rank(db, other)
  {
  }

  lemma RanksFall(maxRetries: int, h: History, s: Sys, w: WorkerId, op: Op)
    requires CanDo(s.db, At(s, w), op) && OwnStep(op) && op != CommitClaim(true)
    requires At(s, w) != Idle ==> Fits(h, s.db, At(s, w), At(s, w).id)
    ensures Sum(Ranks(Next(maxRetries, s, Does(w, op)))) < Sum(Ranks(s))
  {
    var pc, s' := At(s, w), Next(maxRetries, s, Does(w, op));
    var before, after := Ranks(s), Ranks(s');
    assert after.Keys == before.Keys;
    forall v | v in s.workers ensures v != w ==> after[v] <= before[v]
      ensures v == w ==> after[v] < before[v]
    {
      OpLowersRank(maxRetries, h, s.db, pc, op, s.workers[v]);
    }
    SumLess(after, before, w);
  }

  lemma RanksInRange(s: Sys)
    ensures 0 <= Sum(Ranks(s)) <= MAX_RANK * |s.workers|
  {
    SumNotNegative(Ranks(s));
    SumBounded(Ranks(s), MAX_RANK);
    assert Ranks(s).Keys == s.workers.Keys;
    assert |Ranks(s).Keys| == |s.workers.Keys|;
  }

  lemma RanksStep(maxRetries: int, t: Trace, s: Sys, w: WorkerId, op: Op)
    requires Reachable(maxRetries, t, s) && CanDo(s.db, At(s, w), op) && OwnStep(op)
    ensures
      var s' := Next(maxRetries, s, Does(w, op));
      && 0 <= Sum(Ranks(s')) <= MAX_RANK * |s.workers| && 0 <= Sum(Ranks(s))
      && (op != CommitClaim(true) ==> Sum(Ranks(s')) < Sum(Ranks(s)))
  {
    var pc, s' := At(s, w), Next(maxRetries, s, Does(w, op));
    assert s'.workers.Keys == s.workers.Keys;
    assert |s'.workers.Keys| == |s.workers.Keys|;
    RanksInRange(s);
    RanksInRange(s');
    if op != CommitClaim(true) {
      var h := HistoryOf(t, if pc == Idle then 0 else pc.id);
      assert pc != Idle ==> Fits(h, s.db, pc, pc.id) by {
        InvHolds(maxRetries, t, s);
      }
      RanksFall(maxRetries, h, s, w, op);
    }
  }

  // Every step a worker takes of its own accord leaves less to do.
  lemma EffortStep(maxRetries: int, t: Trace, s: Sys, w: WorkerId, op: Op)
    requires Reachable(maxRetries, t, s) && CanDo(s.db, At(s, w), op) && OwnStep(op)
    ensures
      var s' := Next(maxRetries, s, Does(w, op));
      Effort(maxRetries, s') < Effort(maxRetries, s)
  {
    var s' := Next(maxRetries, s, Does(w, op));
    OpLowersMeasure(maxRetries, t, s, w, op);
    RanksStep(maxRetries, t, s, w, op);
    assert s'.workers.Keys == s.workers.Keys;
    assert |s'.workers.Keys| == |s.workers.Keys|;
    Scale(StepsPerClaim(s), Measure(maxRetries, s'), Measure(maxRetries, s));
  }

  lemma EffortNotNegative(maxRetries: int, t: Trace, s: Sys)
    requires Reachable(maxRetries, t, s)
    ensures 0 <= Effort(maxRetries, s)
  {
    MeasureNotNegative(maxRetries, t, s);
    RanksInRange(s);
    Scale(StepsPerClaim(s), Measure(maxRetries, s), 0);
  }

  predicate OwnStepsOnly(u: Trace) {
    forall i :: 0 <= i < |u| ==> u[i].Does? && OwnStep(u[i].op)
  }

  // Draining terminates: with nothing published and nobody coming, going or failing, all
  // workers together take a bounded number of steps from any reachable state, lost claims
  // included. (A poll that finds nothing due changes nothing and is no step.)
  lemma {:induction false} DrainTerminates(maxRetries: int, t: Trace, s: Sys, u: Trace, s': Sys)
    requires Reachable(maxRetries, t, s) && Reachable(maxRetries, t + u, s')
    requires OwnStepsOnly(u)
    ensures |u| <= Effort(maxRetries, s) - Effort(maxRetries, s')
    ensures 0 <= Effort(maxRetries, s')
    decreases |u|
  {
    EffortNotNegative(maxRetries, t + u, s');
    if u == [] {
      assert t + u == t;
    } else {
      var u', v, a := LastStep(maxRetries, t, u, s');
      assert u[|u'|] == a;
      forall i | 0 <= i < |u'| ensures u[i] == u'[i] {
      }
      DrainTerminates(maxRetries, t, s, u', v);
      EffortStep(maxRetries, t + u', v, a.w, a.op);
    }
  }

  lemma {:induction false} LateInstant(outbox: map<EventId, Row>, from: Instant) returns (now: Instant)
    ensures from <= now
    ensures forall id :: id in outbox ==> outbox[id].nextAttemptAt <= now
    decreases |outbox|
  {
    if outbox == map[] {
      now := from;
    } else {
      var id :| id in outbox;
      assert (outbox - {id}).Keys < outbox.Keys && |(outbox - {id}).Keys| < |outbox.Keys|;
      var rest := LateInstant(outbox - {id}, from);
      now := Max(rest, outbox[id].nextAttemptAt);
      assert forall i :: i in outbox ==> i == id || i in outbox - {id};
    }
  }

  lemma DrainStep(maxRetries: int, t: Trace, s: Sys, now: Instant) returns (a: Action, next: Sys)
    requires Reachable(maxRetries, t, s) && !Stuck(s, now)
    ensures Reachable(maxRetries, t + [a], next) && Staffed(next)
    ensures a.Does? && OwnStep(a.op) && InstantOf(a) in {None, Some(now)}
    ensures 0 <= Effort(maxRetries, next) < Effort(maxRetries, s)
  {
    var w: WorkerId, op :| OwnStep(op) && TakenAt(op, now) && CanDo(s.db, At(s, w), op);
    a := Does(w, op);
    var t';
    t', next := Extend(maxRetries, t, s, a);
    EffortStep(maxRetries, t, s, w, op);
    EffortNotNegative(maxRetries, t', next);
    assert At(next, w) != Absent;
  }

  lemma PutFirst(t: Trace, a: Action, u: Trace, from: Instant, now: Instant)
    requires from <= now && Rises(u, now)
    requires a.Does? && OwnStep(a.op) && InstantOf(a) in {None, Some(now)} && OwnStepsOnly(u)
    ensures Rises([a] + u, from) && OwnStepsOnly([a] + u)
    ensures t + ([a] + u) == t + [a] + u
  {
    assert ([a] + u)[1..] == u;
    RisesFromEarlier(u, from, now);
  }

  // And it ends at rest: with some worker subscribed, going on while anyone can is all it
  // takes, by a clock that may start anywhere and never goes back.
  lemma {:induction false} DrainToRest(maxRetries: int, t: Trace, s: Sys, from: Instant)
    returns (u: Trace, s': Sys, now: Instant)
    requires Reachable(maxRetries, t, s) && Staffed(s)
    ensures Reachable(maxRetries, t + u, s') && OwnStepsOnly(u) && Rises(u, from)
    ensures Quiet(s', now) && from <= now
    decreases Effort(maxRetries, s)
  {
    now := LateInstant(s.db.outbox, from);
    if Stuck(s, now) {
      StuckExactlyWhenQuiet(s, now);
      u, s' := [], s;
      assert t + u == t;
    } else {
      var a, next := DrainStep(maxRetries, t, s, now);
      var rest, end;
      rest, s', end := DrainToRest(maxRetries, t + [a], next, now);
      PutFirst(t, a, rest, from, now);
      u, now := [a] + rest, end;
    }
  }

  // ----- What became of the events -----

  function Abandoned(t: Trace, s: Sys): set<EventId> {
    set id | id in s.db.outbox && HistoryOf(t, id).abandoned
  }

  // What may have happened to an event whose claim was abandoned, over and above the
  // failures its row counts: nothing, a call without an answer, a success or a failure that
  // was not recorded.
  predicate CutShort(h: History, row: Row) {
    || (h.invoked == row.attempts && |h.errors| == row.attempts && h.oks == 0)
    || (h.invoked == row.attempts + 1 && |h.errors| == row.attempts && h.oks == 0)
    || (h.invoked == row.attempts + 1 && |h.errors| == row.attempts && h.oks == 1)
    || (h.invoked == row.attempts + 1 && |h.errors| == row.attempts + 1 && h.oks == 0)
  }

  // Once every retry is due, nothing can be claimed and no worker holds an event, each row
  // is in one of three states: acked, its handler having succeeded once; dead after
  // max(1, maxRetries) failures; or in progress for good because its claim was abandoned,
  // which may have been before, during or after a call. `pending_count` is then the number
  // of abandoned claims, so 0 in a run where no holder was aborted or failed.
  lemma QuietAccounting(maxRetries: int, t: Trace, s: Sys, now: Instant)
    requires Reachable(maxRetries, t, s) && Quiet(s, now)
    ensures Unfinished(s.db) == Abandoned(t, s)
    ensures forall id :: id in s.db.outbox && id !in Abandoned(t, s) ==>
      var h, row := HistoryOf(t, id), s.db.outbox[id];
      || (row.status == Acked && h.oks == 1 && |h.errors| < Budget(maxRetries))
      || (row.status == Dlq && h.oks == 0 && |h.errors| == Budget(maxRetries))
    ensures forall id :: id in Abandoned(t, s) ==>
      var h, row := HistoryOf(t, id), s.db.outbox[id];
      row.status == InProgress && row.attempts < Budget(maxRetries) && CutShort(h, row)
  {
    InvHolds(maxRetries, t, s);
    forall id | id in s.db.outbox
      ensures id in Unfinished(s.db) <==> HistoryOf(t, id).abandoned
      ensures RowAt(maxRetries, HistoryOf(t, id), s.db, id)
      ensures id in Unfinished(s.db) ==> s.db.outbox[id].status == InProgress
    {
      G.OrphanedExactlyWhenAbandoned(maxRetries, t, s, id);
      assert !Claimable(s.db.outbox[id], now);
      assert s.db.outbox[id].nextAttemptAt <= now;
    }
  }

  // What `dlq_count` counts: the events whose recorded failures used up the budget. At
  // rest these are the ones that were not abandoned and never succeeded.
  lemma DeadAreTheFailed(maxRetries: int, t: Trace, s: Sys, now: Instant)
    requires Reachable(maxRetries, t, s)
    ensures forall id :: id in Dead(s.db) <==> id in s.db.outbox && s.db.outbox[id].attempts == Budget(maxRetries)
    ensures Quiet(s, now) ==>
      forall id :: id in Dead(s.db) <==>
        id in s.db.outbox && id !in Abandoned(t, s) && HistoryOf(t, id).oks == 0
  {
    InvHolds(maxRetries, t, s);
    forall id | id in s.db.outbox ensures RowAt(maxRetries, HistoryOf(t, id), s.db, id) {
    }
    if Quiet(s, now) {
      QuietAccounting(maxRetries, t, s, now);
      forall id | id in Dead(s.db) ensures id !in Abandoned(t, s) {
        assert id in Unfinished(s.db) <==> id in Abandoned(t, s);
      }
    }
  }
}
