// `OrderProjection` as an object: the read model, its stored checkpoint and the offset it
// keeps in memory. Row i of the outbox, counted from 1, is `log[i - 1]`: OutboxOrder shows
// that the bus numbers its rows this way.
module OrderProjectionObject {
  import opened Common
  import opened Envelopes
  import opened FiniteSums
  import opened Orders

  type Outcome = Result<Unit, ProjectionError>

  datatype Projection = Projection(tables: ReadModel, stored: Option<int>, offset: int)

  // ----- What the methods do, on values -----

  // What one event does to the tables; module OrderPayloads says it key by key.
  ghost function EventApplied(t: ReadModel, e: EventEnvelope): (ReadModel, Outcome) {
    match Decode(e)
    case Err(error) => (t, Err(error))
    case Ok(change) => (Apply(t, change), Ok(Unit))
  }

  // Apply one event, then move the checkpoint; a bad event does neither.
  ghost function AppliedAt(p: Projection, e: EventEnvelope, offset: int): (Projection, Outcome) {
    var (tables, outcome) := EventApplied(p.tables, e);
    if outcome.Err? then (p, outcome) else (Projection(tables, Some(offset), offset), outcome)
  }

  // Rows from index i on, in order, up to the first bad one.
  ghost function Replayed(p: Projection, log: seq<EventEnvelope>, i: nat): (Projection, Outcome)
    decreases |log| - i
  {
    if i >= |log| then (p, Ok(Unit))
    else
      var (next, outcome) := AppliedAt(p, log[i], i + 1);
      if outcome.Err? then (next, outcome) else Replayed(next, log, i + 1)
  }

  // Live events one after the other, up to the first bad one.
  ghost function AppliedLive(p: Projection, events: seq<EventEnvelope>): (Projection, Outcome)
    decreases events
  {
    if events == [] then (p, Ok(Unit))
    else
      var (next, outcome) := AppliedAt(p, events[0], p.offset + 1);
      if outcome.Err? then (next, outcome) else AppliedLive(next, events[1..])
  }

  // The rows after the offset; an offset below 0 means all of them.
  function FirstIndexAfter(offset: int): nat {
    Max(0, offset)
  }

  class OrderProjection {
    var orders: map<OrderId, OrderRow>
    var items: map<ItemKey, ItemRow>
    var stored: Option<int> // projection_checkpoints, row "orders"
    var offset: int

    function Value(): Projection
      reads this
    {
      Projection(ReadModel(orders, items), stored, offset)
    }

    // Opening a projection resumes from the stored checkpoint, 0 if there is none.
    constructor (existing: ReadModel, checkpoint: Option<int>)
      ensures Value() == Projection(existing, checkpoint, if checkpoint.Some? then checkpoint.value else 0)
    {
      orders, items, stored := existing.orders, existing.items, checkpoint;
      offset := if checkpoint.Some? then checkpoint.value else 0;
    }

    method UpsertOrder(order: OrderId, customer: string, status: string)
      modifies this`orders
      ensures Value() == old(Value()).(tables := Apply(old(Value()).tables, CreateOrder(order, customer, status)))
    {
      if order in orders {
        orders := orders[order := orders[order].(customer := customer, status := status)];
      } else {
        orders := orders[order := OrderRow(customer, status, 0)];
      }
    }

    // The SUM of the items of one order, adding row after row.
    method SumItems(order: OrderId) returns (total: int)
      ensures total == Total(ItemsOf(items, order))
    {
      var mine := ItemsOf(items, order);
      var rest := mine;
      total := 0;
      while rest != map[]
        invariant total + Total(rest) == Total(mine)
        decreases |rest|
      {
        var k :| k in rest;
        SumTakeOut(Amounts(rest), k);
        assert Amounts(rest) - {k} == Amounts(rest - {k});
        total := total + rest[k].quantity * rest[k].unitPrice;
        assert (rest - {k}).Keys < rest.Keys && |(rest - {k}).Keys| < |rest.Keys|;
        rest := rest - {k};
      }
    }

    method UpsertItem(order: OrderId, sku: Sku, quantity: int, unitPrice: int)
      modifies this`orders, this`items
      ensures Value() == old(Value()).(tables := Apply(old(Value()).tables, SetItem(order, sku, quantity, unitPrice)))
    {
      items := items[(order, sku) := ItemRow(quantity, unitPrice)];
      var total := SumItems(order);
      if order in orders {
        orders := orders[order := orders[order].(total := total)];
      }
    }

    method SetOrderStatus(order: OrderId, status: string)
      modifies this`orders
      ensures Value() == old(Value()).(tables := WithStatus(old(Value()).tables, order, status))
    {
      if order in orders {
        orders := orders[order := orders[order].(status := status)];
      }
    }

    method ApplyOrderEvent(e: EventEnvelope) returns (outcome: Outcome)
      modifies this`orders, this`items
      ensures (Value().tables, outcome) == EventApplied(old(Value()).tables, e)
      ensures outcome.Err? ==> Value() == old(Value())
      ensures Value() == old(Value()).(tables := Value().tables)
    {
      outcome := Ok(Unit);
      match Decode(e) {
        case Err(error) => outcome := Err(error);
        case Ok(CreateOrder(order, customer, status)) => UpsertOrder(order, customer, status);
        case Ok(SetItem(order, sku, quantity, unitPrice)) => UpsertItem(order, sku, quantity, unitPrice);
        case Ok(CancelOrder(order)) => SetOrderStatus(order, CANCELLED);
        case Ok(NoChange) =>
      }
    }

    method Checkpoint(at: int)
      modifies this`stored, this`offset
      ensures stored == Some(at) && offset == at
    {
      stored := Some(at);
      offset := at;
    }

    method ApplyAtOffset(e: EventEnvelope, at: int) returns (outcome: Outcome)
      modifies this
      ensures (Value(), outcome) == AppliedAt(old(Value()), e, at)
    {
      outcome := ApplyOrderEvent(e);
      if outcome.Ok? {
        Checkpoint(at);
      }
    }

    method ApplyNext(e: EventEnvelope) returns (outcome: Outcome)
      modifies this
      ensures (Value(), outcome) == AppliedAt(old(Value()), e, old(offset) + 1)
    {
      outcome := ApplyAtOffset(e, offset + 1);
    }

    method RebuildFromOffset(log: seq<EventEnvelope>, from: int) returns (outcome: Outcome)
      modifies this
      ensures (Value(), outcome) == Replayed(old(Value()), log, FirstIndexAfter(from))
    {
      var i := FirstIndexAfter(from);
      while i < |log|
        invariant Replayed(Value(), log, i) == Replayed(old(Value()), log, FirstIndexAfter(from))
      {
        outcome := ApplyAtOffset(log[i], i + 1);
        if outcome.Err? {
          return;
        }
        i := i + 1;
      }
      outcome := Ok(Unit);
    }
  }

  // ----- The good prefix -----

  // The changes of a log up to its first malformed event.
  function Good(log: seq<EventEnvelope>): seq<Change> {
    if log == [] || Decode(log[0]).Err? then [] else [Decode(log[0]).value] + Good(log[1..])
  }

  lemma {:induction false} GoodIsPrefix(log: seq<EventEnvelope>)
    ensures |Good(log)| <= |log|
    ensures forall i :: 0 <= i < |Good(log)| ==> Decode(log[i]) == Ok(Good(log)[i])
    ensures |Good(log)| < |log| ==> Decode(log[|Good(log)|]).Err?
  {
    if log != [] && Decode(log[0]).Ok? {
      GoodIsPrefix(log[1..]);
      forall i | 0 <= i < |Good(log)| ensures Decode(log[i]) == Ok(Good(log)[i]) {
        if i > 0 { assert log[i] == log[1..][i - 1]; }
      }
    }
  }

  lemma {:induction false} GoodFrom(log: seq<EventEnvelope>, k: nat)
    requires k <= |Good(log)|
    ensures k <= |log| && Good(log[k..]) == Good(log)[k..]
  {
    GoodIsPrefix(log);
    if k == 0 {
      assert log[0..] == log;
    } else {
      GoodFrom(log[1..], k - 1);
      assert log[k..] == log[1..][k - 1..];
    }
  }

  // A rebuild applies and checkpoints exactly the good events from its offset on, and
  // fails if and only if it met a malformed one, with that event's error.
  lemma {:induction false} RebuildStopsAtFirstBadEvent(p: Projection, log: seq<EventEnvelope>, k: nat)
    requires k <= |log|
    ensures
      var good := Good(log[k..]);
      var (q, outcome) := Replayed(p, log, k);
      && q.tables == Fold(p.tables, good)
      && (if good == [] then q == p else q.stored == Some(k + |good|) && q.offset == k + |good|)
      && k + |good| <= |log|
      && (if k + |good| == |log| then outcome == Ok(Unit)
          else Decode(log[k + |good|]).Err? && outcome == Err(Decode(log[k + |good|]).error))
    decreases |log| - k
  {
    if k < |log| && Decode(log[k]).Ok? {
      var change := Decode(log[k]).value;
      assert log[k..][1..] == log[k + 1..];
      var good := Good(log[k..]);
      assert good[0] == change && good[1..] == Good(log[k + 1..]);
      var next := Projection(Apply(p.tables, change), Some(k + 1), k + 1);
      assert AppliedAt(p, log[k], k + 1) == (next, Ok(Unit));
      assert Replayed(p, log, k) == Replayed(next, log, k + 1);
      RebuildStopsAtFirstBadEvent(next, log, k + 1);
      assert Fold(p.tables, good) == Fold(next.tables, good[1..]);
    }
  }

  // Resuming where a rebuild stopped changes nothing and fails on the same event again.
  lemma ResumeStopsThereAgain(p: Projection, log: seq<EventEnvelope>, k: nat)
    requires k <= |log|
    requires p.offset == k
    ensures
      var (q, outcome) := Replayed(p, log, k);
      Replayed(q, log, FirstIndexAfter(q.offset)) == (q, outcome)
  {
    RebuildStopsAtFirstBadEvent(p, log, k);
    var (q, outcome) := Replayed(p, log, k);
    var stop := k + |Good(log[k..])|;
    if stop < |log| {
      RebuildStopsAtFirstBadEvent(q, log, stop);
      assert log[stop..][0] == log[stop];
    }
  }

  // Applying the events of the log live, from the row after the checkpoint on, ends in the
  // same tables, checkpoint and outcome as one rebuild from that checkpoint.
  lemma {:induction false} LiveEqualsRebuild(p: Projection, log: seq<EventEnvelope>, k: nat)
    requires k <= |log| && p.offset == k
    ensures AppliedLive(p, log[k..]) == Replayed(p, log, k)
    decreases |log| - k
  {
    if k < |log| {
      assert log[k..][0] == log[k] && log[k..][1..] == log[k + 1..];
      var (next, outcome) := AppliedAt(p, log[k], k + 1);
      if outcome.Ok? {
        LiveEqualsRebuild(next, log, k + 1);
      }
    }
  }
}
