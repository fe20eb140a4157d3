// What the events of the order stream do to the read model, key by key of their payloads,
// and which field a bad one is refused for.
module OrderPayloads {
  import opened Common
  import opened Envelopes
  import opened Orders
  import opened OrderProjectionObject
  import opened Json

  predicate IsI64(n: int) {
    -9_223_372_036_854_775_808 <= n <= 9_223_372_036_854_775_807
  }

  // An integer as it is held after parsing.
  function Number(n: int): Value
    requires IsI64(n)
  {
    if n < 0 then Negative(n) else Unsigned(n)
  }

  // An event of a type with these keys, whatever its others.
  function Event(base: EventEnvelope, eventType: string, keys: map<string, Value>, others: map<string, Value>): EventEnvelope {
    base.(eventType := eventType, payload := Obj(others + keys))
  }

  // ----- Good events -----

  lemma ItemAddedSetsItem(t: ReadModel, base: EventEnvelope, others: map<string, Value>,
                          order: OrderId, sku: Sku, quantity: int, price: int)
    requires IsI64(quantity) && IsI64(price)
    ensures
      var keys := map["order_id" := Str(order), "sku" := Str(sku), "quantity" := Number(quantity),
                      "unit_price_cents" := Number(price)];
      var (after, outcome) := EventApplied(t, Event(base, "order.item_added", keys, others));
      && outcome == Ok(Unit)
      && after.items == t.items[(order, sku) := ItemRow(quantity, price)]
      && after.orders.Keys == t.orders.Keys
      && forall o :: o in t.orders ==>
           after.orders[o] == if o == order then t.orders[o].(total := Total(ItemsOf(after.items, o))) else t.orders[o]
  {
  }

  // The status is "open" unless the payload has a string there.
  lemma OrderCreatedSetsOrder(t: ReadModel, base: EventEnvelope, others: map<string, Value>,
                              order: OrderId, customer: string)
    ensures
      var keys := map["order_id" := Str(order), "customer_id" := Str(customer)];
      var (after, outcome) := EventApplied(t, Event(base, "order.created", keys, others));
      && outcome == Ok(Unit) && after.items == t.items && order in after.orders
      && after.orders == t.orders[order := after.orders[order]]
      && after.orders[order].customer == customer
      && after.orders[order].total == (if order in t.orders then t.orders[order].total else 0)
      && (forall status :: "status" in others && others["status"] == Str(status) ==> after.orders[order].status == status)
      && ("status" !in others || !others["status"].Str? ==> after.orders[order].status == "open")
  {
  }

  // Cancelling an order that is not there is no error and does nothing.
  lemma OrderCancelledSetsStatus(t: ReadModel, base: EventEnvelope, others: map<string, Value>, order: OrderId)
    ensures
      var (after, outcome) := EventApplied(t, Event(base, "order.cancelled", map["order_id" := Str(order)], others));
      && outcome == Ok(Unit) && after.items == t.items && after.orders.Keys == t.orders.Keys
      && forall o :: o in t.orders ==>
           after.orders[o] == if o == order then t.orders[o].(status := "cancelled") else t.orders[o]
  {
  }

  lemma OtherEventsDoNothing(t: ReadModel, e: EventEnvelope)
    requires e.eventType !in {"order.created", "order.item_added", "order.cancelled"}
    ensures EventApplied(t, e) == (t, Ok(Unit))
  {
  }

  // ----- Bad events -----

  datatype Kind = Text | Integer

  datatype Field = Field(name: string, kind: Kind)

  // The fields each event type must have, in the order in which they are read.
  function Fields(eventType: string): seq<Field> {
    match eventType
    case "order.created" => [Field("order_id", Text), Field("customer_id", Text)]
    case "order.item_added" =>
      [Field("order_id", Text), Field("sku", Text), Field("quantity", Integer), Field("unit_price_cents", Integer)]
    case "order.cancelled" => [Field("order_id", Text)]
    case _ => []
  }

  predicate Missing(payload: Value, f: Field) {
    !payload.Obj? || f.name !in payload.fields
  }

  ghost predicate HasKind(v: Value, kind: Kind) {
    match kind
    case Text => v.Str?
    case Integer => exists n :: IsI64(n) && v == Number(n)
  }

  ghost predicate Fits(payload: Value, f: Field) {
    !Missing(payload, f) && HasKind(payload.fields[f.name], f.kind)
  }

  lemma IntegerKind(v: Value)
    ensures HasKind(v, Integer) <==>
            v.Negative? || (v.Unsigned? && v.u <= 9_223_372_036_854_775_807)
  {
    if v.Negative? {
      assert v == Number(v.i);
    } else if v.Unsigned? && v.u <= 9_223_372_036_854_775_807 {
      assert v == Number(v.u);
    }
  }

  // The first field that does not fit is reported, as missing or as invalid, and nothing is
  // written.
  lemma FirstBadFieldIsReported(t: ReadModel, e: EventEnvelope, i: nat)
    requires i < |Fields(e.eventType)|
    requires forall j :: 0 <= j < i ==> Fits(e.payload, Fields(e.eventType)[j])
    requires !Fits(e.payload, Fields(e.eventType)[i])
    ensures
      var bad := Fields(e.eventType)[i];
      EventApplied(t, e) ==
        (t, Err(if Missing(e.payload, bad) then MissingField(bad.name) else InvalidField(bad.name)))
  {
    forall v ensures HasKind(v, Integer) <==> v.AsI64().Some? {
      IntegerKind(v);
    }
    var fields := Fields(e.eventType);
    assert i > 0 ==> Fits(e.payload, fields[0]);
    assert i > 1 ==> Fits(e.payload, fields[1]);
    assert i > 2 ==> Fits(e.payload, fields[2]);
  }

  // An event is accepted exactly when all its fields fit.
  lemma AcceptedExactlyWhenAllFit(t: ReadModel, e: EventEnvelope)
    ensures EventApplied(t, e).1.Ok? <==> forall f :: f in Fields(e.eventType) ==> Fits(e.payload, f)
  {
    var fields := Fields(e.eventType);
    if f :| f in fields && !Fits(e.payload, f) {
      var n :| 0 <= n < |fields| && fields[n] == f;
      var i := FirstBad(e, n);
      FirstBadFieldIsReported(t, e, i);
    } else {
      forall v ensures HasKind(v, Integer) <==> v.AsI64().Some? {
        IntegerKind(v);
      }
      assert forall i :: 0 <= i < |fields| ==> Fits(e.payload, fields[i]);
      assert |fields| > 0 ==> Fits(e.payload, fields[0]);
      assert |fields| > 1 ==> Fits(e.payload, fields[1]);
      assert |fields| > 2 ==> Fits(e.payload, fields[2]);
      assert |fields| > 3 ==> Fits(e.payload, fields[3]);
    }
  }

  lemma {:induction false} FirstBad(e: EventEnvelope, n: nat) returns (i: nat)
    requires n < |Fields(e.eventType)| && !Fits(e.payload, Fields(e.eventType)[n])
    ensures i <= n && !Fits(e.payload, Fields(e.eventType)[i])
    ensures forall j :: 0 <= j < i ==> Fits(e.payload, Fields(e.eventType)[j])
  {
    if j :| 0 <= j < n && !Fits(e.payload, Fields(e.eventType)[j]) {
      i := FirstBad(e, j);
    } else {
      i := n;
    }
  }
}
