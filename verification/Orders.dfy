// The order read model: what one event does to the `orders` and `order_items` tables.
// `updated_at` columns are left out, and SQL sums are exact integers.
module Orders {
  import opened Common
  import opened Envelopes
  import opened FiniteSums
  import Json

  type OrderId = string
  type Sku = string
  type ItemKey = (OrderId, Sku) // an order has one row per sku

  datatype OrderRow = OrderRow(customer: string, status: string, total: int)
  datatype ItemRow = ItemRow(quantity: int, unitPrice: int)

  datatype ReadModel = ReadModel(orders: map<OrderId, OrderRow>, items: map<ItemKey, ItemRow>)

  const NO_ROWS := ReadModel(map[], map[])

  const OPEN := "open"
  const CANCELLED := "cancelled"

  datatype ProjectionError = MissingField(field: string) | InvalidField(field: string)

  // What an envelope asks of the read model.
  datatype Change =
    | CreateOrder(order: OrderId, customer: string, status: string)
    | SetItem(order: OrderId, sku: Sku, quantity: int, unitPrice: int)
    | CancelOrder(order: OrderId)
    | NoChange

  // ----- Reading the payload -----

  function RequiredStr(payload: Json.Value, field: string): Result<string, ProjectionError> {
    match payload.Get(field)
    case None => Err(MissingField(field))
    case Some(v) => if v.AsStr().Some? then Ok(v.AsStr().value) else Err(InvalidField(field))
  }

  function RequiredI64(payload: Json.Value, field: string): Result<int, ProjectionError> {
    match payload.Get(field)
    case None => Err(MissingField(field))
    case Some(v) => if v.AsI64().Some? then Ok(v.AsI64().value) else Err(InvalidField(field))
  }

  function OptionalStatus(payload: Json.Value): string {
    match payload.Get("status")
    case Some(v) => if v.AsStr().Some? then v.AsStr().value else OPEN
    case None => OPEN
  }

  // Fields are read in order and the first bad one is reported.
  function Decode(e: EventEnvelope): Result<Change, ProjectionError> {
    var order := RequiredStr(e.payload, "order_id");
    if e.eventType == "order.created" then
      var customer := RequiredStr(e.payload, "customer_id");
      if order.Err? then Err(order.error)
      else if customer.Err? then Err(customer.error)
      else Ok(CreateOrder(order.value, customer.value, OptionalStatus(e.payload)))
    else if e.eventType == "order.item_added" then
      var sku := RequiredStr(e.payload, "sku");
      var quantity := RequiredI64(e.payload, "quantity");
      var unitPrice := RequiredI64(e.payload, "unit_price_cents");
      if order.Err? then Err(order.error)
      else if sku.Err? then Err(sku.error)
      else if quantity.Err? then Err(quantity.error)
      else if unitPrice.Err? then Err(unitPrice.error)
      else Ok(SetItem(order.value, sku.value, quantity.value, unitPrice.value))
    else if e.eventType == "order.cancelled" then
      if order.Err? then Err(order.error) else Ok(CancelOrder(order.value))
    else
      Ok(NoChange)
  }

  // ----- Writing the tables -----

  function ItemsOf(items: map<ItemKey, ItemRow>, order: OrderId): map<ItemKey, ItemRow> {
    map k | k in items && k.0 == order :: items[k]
  }

  function Amounts(items: map<ItemKey, ItemRow>): map<ItemKey, int> {
    map k | k in items :: items[k].quantity * items[k].unitPrice
  }

  // Quantity times unit price, added up over the rows; 0 if there are none.
  ghost function Total(items: map<ItemKey, ItemRow>): int {
    Sum(Amounts(items))
  }

  lemma TotalEmpty()
    ensures Total(map[]) == 0
  {
    assert Amounts(map[]) == map[];
  }

  // Setting an item moves the total by its quantity times its unit price, less what the
  // item it replaces came to.
  lemma TotalPut(items: map<ItemKey, ItemRow>, k: ItemKey, quantity: int, unitPrice: int)
    ensures Total(items[k := ItemRow(quantity, unitPrice)]) ==
            Total(items) - (if k in items then items[k].quantity * items[k].unitPrice else 0) + quantity * unitPrice
  {
    assert Amounts(items[k := ItemRow(quantity, unitPrice)]) == Amounts(items)[k := quantity * unitPrice];
    SumPut(Amounts(items), k, quantity * unitPrice);
  }

  // Sets the status of an order, if there is such an order.
  function WithStatus(t: ReadModel, order: OrderId, status: string): ReadModel {
    if order in t.orders then t.(orders := t.orders[order := t.orders[order].(status := status)])
    else t
  }

  ghost function Apply(t: ReadModel, c: Change): ReadModel {
    match c
    case CreateOrder(order, customer, status) =>
      var total := if order in t.orders then t.orders[order].total else 0;
      t.(orders := t.orders[order := OrderRow(customer, status, total)])
    case SetItem(order, sku, quantity, unitPrice) =>
      var items := t.items[(order, sku) := ItemRow(quantity, unitPrice)];
      var orders :=
        if order in t.orders then
          t.orders[order := t.orders[order].(total := Total(ItemsOf(items, order)))]
        else t.orders;
      ReadModel(orders, items)
    case CancelOrder(order) => WithStatus(t, order, CANCELLED)
    case NoChange => t
  }

  // An item event on an order whose total is the sum of its items keeps it so, and moves it
  // by exactly the item's amount, less that of the item it replaces.
  lemma ItemMovesTotal(t: ReadModel, order: OrderId, sku: Sku, quantity: int, unitPrice: int)
    requires order in t.orders && t.orders[order].total == Total(ItemsOf(t.items, order))
    ensures
      var after, k := Apply(t, SetItem(order, sku, quantity, unitPrice)), (order, sku);
      && order in after.orders && after.orders[order].total == Total(ItemsOf(after.items, order))
      && after.orders[order].total ==
           t.orders[order].total + quantity * unitPrice
           - (if k in t.items then t.items[k].quantity * t.items[k].unitPrice else 0)
  {
    var k, row := (order, sku), ItemRow(quantity, unitPrice);
    assert ItemsOf(t.items[k := row], order) == ItemsOf(t.items, order)[k := row];
    TotalPut(ItemsOf(t.items, order), k, quantity, unitPrice);
  }

  ghost function Fold(t: ReadModel, log: seq<Change>): ReadModel
    decreases log
  {
    if log == [] then t else Fold(Apply(t, log[0]), log[1..])
  }

  // ----- One order at a time -----

  // All the rows of one order.
  datatype View = View(row: Option<OrderRow>, items: map<ItemKey, ItemRow>)

  const NO_VIEW := View(None, map[])

  function ViewOf(t: ReadModel, order: OrderId): View {
    View(if order in t.orders then Some(t.orders[order]) else None, ItemsOf(t.items, order))
  }

  predicate Mentions(c: Change, order: OrderId) {
    !c.NoChange? && c.order == order
  }

  ghost function ApplyView(v: View, c: Change, order: OrderId): View {
    if !Mentions(c, order) then v
    else
      match c
      case CreateOrder(_, customer, status) =>
        v.(row := Some(OrderRow(customer, status, if v.row.Some? then v.row.value.total else 0)))
      case SetItem(_, sku, quantity, unitPrice) =>
        var items := v.items[(order, sku) := ItemRow(quantity, unitPrice)];
        View(if v.row.Some? then Some(v.row.value.(total := Total(items))) else None, items)
      case CancelOrder(_) =>
        if v.row.Some? then v.(row := Some(v.row.value.(status := CANCELLED))) else v
      case NoChange => v
  }

  ghost function FoldView(v: View, log: seq<Change>, order: OrderId): View
    decreases log
  {
    if log == [] then v else FoldView(ApplyView(v, log[0], order), log[1..], order)
  }

  function SubLog(log: seq<Change>, order: OrderId): seq<Change> {
    if log == [] then []
    else (if Mentions(log[0], order) then [log[0]] else []) + SubLog(log[1..], order)
  }

  lemma ApplyIsLocal(t: ReadModel, c: Change, order: OrderId)
    ensures ViewOf(Apply(t, c), order) == ApplyView(ViewOf(t, order), c, order)
  {
    if c.SetItem? && c.order == order {
      assert ItemsOf(t.items[(order, c.sku) := ItemRow(c.quantity, c.unitPrice)], order)
          == ItemsOf(t.items, order)[(order, c.sku) := ItemRow(c.quantity, c.unitPrice)];
    }
  }

  // The rows of an order after a log are what the events of that order alone make of them.
  lemma {:induction false} FoldIsLocal(t: ReadModel, log: seq<Change>, order: OrderId)
    ensures ViewOf(Fold(t, log), order) == FoldView(ViewOf(t, order), log, order)
    ensures FoldView(ViewOf(t, order), log, order) == FoldView(ViewOf(t, order), SubLog(log, order), order)
    decreases log
  {
    if log != [] {
      ApplyIsLocal(t, log[0], order);
      FoldIsLocal(Apply(t, log[0]), log[1..], order);
      if Mentions(log[0], order) {
        assert SubLog(log, order)[1..] == SubLog(log[1..], order);
      } else {
        assert SubLog(log, order) == SubLog(log[1..], order);
      }
    }
  }

  lemma SameViewsSameTables(t: ReadModel, u: ReadModel)
    requires forall order :: ViewOf(t, order) == ViewOf(u, order)
    ensures t == u
  {
    forall order: OrderId ensures order in t.orders <==> order in u.orders
      ensures order in t.orders ==> t.orders[order] == u.orders[order]
    {
      assert ViewOf(t, order) == ViewOf(u, order);
    }
    forall k: ItemKey ensures k in t.items <==> k in u.items
      ensures k in t.items ==> t.items[k] == u.items[k]
    {
      assert ViewOf(t, k.0) == ViewOf(u, k.0);
      assert k in t.items <==> k in ItemsOf(t.items, k.0);
      assert k in u.items <==> k in ItemsOf(u.items, k.0);
    }
    assert t.orders == u.orders && t.items == u.items;
  }

  // Events of different orders commute: two logs that give every order the same events in
  // the same order build the same tables, however the orders are interleaved.
  lemma InterleavingIsIrrelevant(t: ReadModel, a: seq<Change>, b: seq<Change>)
    requires forall order :: SubLog(a, order) == SubLog(b, order)
    ensures Fold(t, a) == Fold(t, b)
  {
    forall order ensures ViewOf(Fold(t, a), order) == ViewOf(Fold(t, b), order) {
      FoldIsLocal(t, a, order);
      FoldIsLocal(t, b, order);
      assert SubLog(a, order) == SubLog(b, order);
    }
    SameViewsSameTables(Fold(t, a), Fold(t, b));
  }

  lemma {:induction false} FoldSplit(t: ReadModel, a: seq<Change>, b: seq<Change>)
    ensures Fold(t, a + b) == Fold(Fold(t, a), b)
    decreases a
  {
    if a == [] {
      assert a + b == b;
    } else {
      assert (a + b)[0] == a[0] && (a + b)[1..] == a[1..] + b;
      FoldSplit(Apply(t, a[0]), a[1..], b);
    }
  }

  lemma {:induction false} FoldViewSplit(v: View, a: seq<Change>, b: seq<Change>, order: OrderId)
    ensures FoldView(v, a + b, order) == FoldView(FoldView(v, a, order), b, order)
    decreases a
  {
    if a == [] {
      assert a + b == b;
    } else {
      assert (a + b)[0] == a[0] && (a + b)[1..] == a[1..] + b;
      FoldViewSplit(ApplyView(v, a[0], order), a[1..], b, order);
    }
  }
}
