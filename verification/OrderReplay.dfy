// Replaying a log over tables that already hold part of it.
module OrderReplay {
  import opened Common
  import opened FiniteSums
  import opened Orders

  // ----- Which parts of an order's rows a log writes -----

  predicate SetsKey(c: Change, k: ItemKey) {
    c.SetItem? && (c.order, c.sku) == k
  }

  predicate Writes(log: seq<Change>, k: ItemKey) {
    exists c :: c in log && SetsKey(c, k)
  }

  predicate SetsItem(log: seq<Change>, order: OrderId) {
    exists c :: c in log && c.SetItem? && c.order == order
  }

  predicate Creates(log: seq<Change>, order: OrderId) {
    exists c :: c in log && c.CreateOrder? && c.order == order
  }

  predicate Cancels(log: seq<Change>, order: OrderId) {
    exists c :: c in log && c.CancelOrder? && c.order == order
  }

  predicate SameAt(a: map<ItemKey, ItemRow>, b: map<ItemKey, ItemRow>, k: ItemKey) {
    (k in a <==> k in b) && (k in a ==> a[k] == b[k])
  }

  // Everything but `total_cents`.
  predicate SameCore(v: View, w: View) {
    && v.items == w.items
    && v.row.Some? == w.row.Some?
    && (v.row.Some? ==> v.row.value.customer == w.row.value.customer && v.row.value.status == w.row.value.status)
  }

  // At key `k` the views agree or the log overwrites both.
  predicate SettlesItem(v: View, w: View, log: seq<Change>, order: OrderId, k: ItemKey) {
    SameAt(v.items, w.items, k) || (k.0 == order && Writes(log, k))
  }

  predicate SettlesRow(v: View, w: View, log: seq<Change>, order: OrderId) {
    || Creates(log, order)
    || (&& v.row.Some? == w.row.Some?
        && (v.row.Some? ==>
              && v.row.value.customer == w.row.value.customer
              && (v.row.value.status == w.row.value.status || Cancels(log, order))))
  }

  // The log rewrites whatever the two views disagree on.
  ghost predicate Reconciles(v: View, w: View, log: seq<Change>, order: OrderId) {
    && (forall k: ItemKey :: SettlesItem(v, w, log, order, k))
    && SettlesRow(v, w, log, order)
  }

  lemma SettlesItemStep(v: View, w: View, log: seq<Change>, order: OrderId, k: ItemKey)
    requires log != []
    ensures SettlesItem(v, w, log, order, k) <==>
            SettlesItem(ApplyView(v, log[0], order), ApplyView(w, log[0], order), log[1..], order, k)
  {
    assert log == [log[0]] + log[1..];
    assert Writes(log, k) <==> SetsKey(log[0], k) || Writes(log[1..], k) by {
      assert log[0] in log;
    }
  }

  lemma SettlesRowStep(v: View, w: View, log: seq<Change>, order: OrderId)
    requires log != []
    ensures SettlesRow(v, w, log, order) <==>
            SettlesRow(ApplyView(v, log[0], order), ApplyView(w, log[0], order), log[1..], order)
  {
  }

  // Two states of an order end up the same after a log, but for the total, exactly when
  // the log rewrites everything they disagree on.
  lemma {:induction false} ConvergenceExact(v: View, w: View, log: seq<Change>, order: OrderId)
    ensures SameCore(FoldView(v, log, order), FoldView(w, log, order)) <==> Reconciles(v, w, log, order)
    decreases log
  {
    if log == [] {
      SameEverywhere(v.items, w.items);
      assert forall k: ItemKey :: SettlesItem(v, w, log, order, k) <==> SameAt(v.items, w.items, k);
    } else {
      var v', w' := ApplyView(v, log[0], order), ApplyView(w, log[0], order);
      forall k: ItemKey
        ensures SettlesItem(v, w, log, order, k) <==> SettlesItem(v', w', log[1..], order, k)
      {
        SettlesItemStep(v, w, log, order, k);
      }
      SettlesRowStep(v, w, log, order);
      ConvergenceExact(v', w', log[1..], order);
    }
  }

  lemma SameEverywhere(a: map<ItemKey, ItemRow>, b: map<ItemKey, ItemRow>)
    ensures a == b <==> forall k: ItemKey :: SameAt(a, b, k)
  {
    if forall k: ItemKey :: SameAt(a, b, k) {
      forall k: ItemKey ensures k in a <==> k in b { assert SameAt(a, b, k); }
      forall k: ItemKey | k in a ensures a[k] == b[k] { assert SameAt(a, b, k); }
      assert a == b;
    }
  }

  // ----- Rewinds -----

  // What a log does not write it leaves as it was.
  lemma {:induction false} LeavesTheRest(v: View, log: seq<Change>, order: OrderId)
    ensures forall k: ItemKey :: SettlesItem(v, FoldView(v, log, order), log, order, k)
    ensures SettlesRow(v, FoldView(v, log, order), log, order)
    decreases log
  {
    if log != [] {
      var v', w := ApplyView(v, log[0], order), FoldView(v, log, order);
      LeavesTheRest(v', log[1..], order);
      assert log == [log[0]] + log[1..] && log[0] in log;
      forall k: ItemKey ensures SettlesItem(v, w, log, order, k) {
        assert SettlesItem(v', w, log[1..], order, k);
        assert SetsKey(log[0], k) || Writes(log[1..], k) ==> Writes(log, k);
      }
      assert Creates(log[1..], order) ==> Creates(log, order);
      assert Cancels(log[1..], order) ==> Cancels(log, order);
    }
  }

  lemma LongerSettlesMore(v: View, w: View, log: seq<Change>, more: seq<Change>, order: OrderId)
    requires forall c :: c in log ==> c in more
    requires Reconciles(v, w, log, order)
    ensures Reconciles(v, w, more, order)
  {
    forall k: ItemKey ensures SettlesItem(v, w, more, order, k) {
      assert SettlesItem(v, w, log, order, k);
    }
  }

  // Rewind convergence: replaying rows k+1, ..., n over the tables left by the first m
  // rows, k <= m <= n, gives the same items, customer and status as one clean fold.
  lemma RewindConverges(start: View, log: seq<Change>, k: nat, m: nat, order: OrderId)
    requires k <= m <= |log|
    ensures SameCore(FoldView(FoldView(start, log[..m], order), log[k..], order), FoldView(start, log, order))
  {
    var w := FoldView(start, log[..k], order);
    var v := FoldView(w, log[k..m], order);
    assert log[..m] == log[..k] + log[k..m] && log == log[..k] + log[k..];
    FoldViewSplit(start, log[..k], log[k..m], order);
    FoldViewSplit(start, log[..k], log[k..], order);
    LeavesTheRest(w, log[k..m], order);
    forall c | c in log[k..m] ensures c in log[k..] {
      var i :| 0 <= i < m - k && log[k..m][i] == c;
      assert log[k..][i] == c;
    }
    LongerSettlesMore(w, v, log[k..m], log[k..], order);
    ConvergenceExact(w, v, log[k..], order);
  }

  // ----- Totals -----

  // Some item event follows an event that creates the order.
  predicate ItemAfterCreation(log: seq<Change>, order: OrderId) {
    exists i, j :: 0 <= i < j < |log| && log[i].CreateOrder? && log[i].order == order
                   && log[j].SetItem? && log[j].order == order
  }

  // The log sums the order's items at least once, starting with or without its row.
  predicate SumsItems(row: bool, log: seq<Change>, order: OrderId) {
    (row && SetsItem(log, order)) || ItemAfterCreation(log, order)
  }

  lemma SumsItemsStep(row: bool, log: seq<Change>, order: OrderId)
    requires log != []
    ensures
      var row' := row || (log[0].CreateOrder? && log[0].order == order);
      SumsItems(row, log, order) <==>
        SumsItems(row', log[1..], order) || (row && log[0].SetItem? && log[0].order == order)
  {
  }

  lemma {:induction false} ItemsWithoutWrites(v: View, log: seq<Change>, order: OrderId)
    requires !SetsItem(log, order)
    ensures FoldView(v, log, order).items == v.items
    decreases log
  {
    if log != [] {
      assert log == [log[0]] + log[1..] && log[0] in log;
      ItemsWithoutWrites(ApplyView(v, log[0], order), log[1..], order);
    }
  }

  // The total after any log, from any state: the sum of the final items if the log summed
  // them at all, otherwise the total there was, or 0 for a row made by the log.
  lemma {:induction false} TotalAfter(v: View, log: seq<Change>, order: OrderId)
    ensures
      var w := FoldView(v, log, order);
      w.row.Some? ==>
        w.row.value.total ==
          if SumsItems(v.row.Some?, log, order) then Total(w.items)
          else if v.row.Some? then v.row.value.total else 0
    decreases log
  {
    if log != [] {
      var v' := ApplyView(v, log[0], order);
      SumsItemsStep(v.row.Some?, log, order);
      TotalAfter(v', log[1..], order);
      if v.row.Some? && log[0].SetItem? && log[0].order == order && !SumsItems(true, log[1..], order) {
        ItemsWithoutWrites(v', log[1..], order);
      }
    }
  }

  // The order total invariant, for every log: an order's total is the sum of quantity
  // times unit price over its items if an item event followed its creation, and 0 if not.
  lemma OrderTotal(log: seq<Change>, order: OrderId)
    ensures
      var v := FoldView(NO_VIEW, log, order);
      v.row.Some? ==> v.row.value.total == if ItemAfterCreation(log, order) then Total(v.items) else 0
  {
    TotalAfter(NO_VIEW, log, order);
  }

  // Every item of the order comes after an event that creates it.
  predicate CreatedFirst(log: seq<Change>, order: OrderId) {
    forall j :: 0 <= j < |log| && log[j].SetItem? && log[j].order == order ==>
      exists i :: 0 <= i < j && log[i].CreateOrder? && log[i].order == order
  }

  lemma NoItemsNoAmounts(log: seq<Change>, order: OrderId)
    requires CreatedFirst(log, order) && !ItemAfterCreation(log, order)
    ensures FoldView(NO_VIEW, log, order).items == map[]
  {
    forall c | c in log ensures !(c.SetItem? && c.order == order) {
      var j :| 0 <= j < |log| && log[j] == c;
    }
    ItemsWithoutWrites(NO_VIEW, log, order);
  }

  // When an order is created before its items, its total is always the sum of its items.
  lemma OrderTotalWhenCreatedFirst(log: seq<Change>, order: OrderId)
    requires CreatedFirst(log, order)
    ensures
      var v := FoldView(NO_VIEW, log, order);
      v.row.Some? ==> v.row.value.total == Total(v.items)
  {
    OrderTotal(log, order);
    if !ItemAfterCreation(log, order) {
      NoItemsNoAmounts(log, order);
    }
  }

  lemma CreatesIsRow(log: seq<Change>, order: OrderId)
    ensures FoldView(NO_VIEW, log, order).row.Some? <==> Creates(log, order)
  {
    RowAfter(NO_VIEW, log, order);
  }

  lemma {:induction false} RowAfter(v: View, log: seq<Change>, order: OrderId)
    ensures FoldView(v, log, order).row.Some? <==> v.row.Some? || Creates(log, order)
    decreases log
  {
    if log != [] {
      assert log == [log[0]] + log[1..] && log[0] in log;
      RowAfter(ApplyView(v, log[0], order), log[1..], order);
    }
  }

  // The replayed log or the part before it has an item after the creation, if the whole
  // log has; and the other way round.
  lemma ItemAfterCreationSplit(log: seq<Change>, k: nat, m: nat, order: OrderId)
    requires k <= m <= |log|
    ensures ItemAfterCreation(log[k..], order) || ItemAfterCreation(log[..m], order) ==> ItemAfterCreation(log, order)
    ensures ItemAfterCreation(log, order) ==>
      || ItemAfterCreation(log[k..], order)
      || (Creates(log[..m], order) && (SetsItem(log[k..], order) || ItemAfterCreation(log[..m], order)))
  {
  }

  // The items a log sets for an order: the last setting of each sku.
  function LastItems(log: seq<Change>, order: OrderId): map<ItemKey, ItemRow> {
    if log == [] then map[]
    else
      var later := LastItems(log[1..], order);
      match log[0]
      case SetItem(o, sku, quantity, unitPrice) =>
        if o == order && (order, sku) !in later then later[(order, sku) := ItemRow(quantity, unitPrice)]
        else later
      case _ => later
  }

  lemma {:induction false} ItemsAfter(v: View, log: seq<Change>, order: OrderId)
    ensures FoldView(v, log, order).items == v.items + LastItems(log, order)
    decreases log
  {
    if log != [] {
      ItemsAfter(ApplyView(v, log[0], order), log[1..], order);
    }
  }

  // The total after a log, read off the state before it and the log.
  ghost function EndTotal(v: View, log: seq<Change>, order: OrderId): int {
    if SumsItems(v.row.Some?, log, order) then Total(v.items + LastItems(log, order))
    else if v.row.Some? then v.row.value.total else 0
  }

  lemma EndTotalIsTotal(v: View, log: seq<Change>, order: OrderId)
    ensures
      var w := FoldView(v, log, order);
      w.row.Some? ==> w.row.value.total == EndTotal(v, log, order)
  {
    TotalAfter(v, log, order);
    ItemsAfter(v, log, order);
  }

  // Two states of an order end up the same after a log, total included, exactly when the
  // log rewrites everything else they disagree on and the end totals are the same.
  lemma FullConvergenceExact(v: View, w: View, log: seq<Change>, order: OrderId)
    ensures FoldView(v, log, order) == FoldView(w, log, order) <==>
      && Reconciles(v, w, log, order)
      && (w.row.Some? || Creates(log, order) ==> EndTotal(v, log, order) == EndTotal(w, log, order))
  {
    ConvergenceExact(v, w, log, order);
    EndTotalIsTotal(v, log, order);
    EndTotalIsTotal(w, log, order);
    RowAfter(v, log, order);
    RowAfter(w, log, order);
  }

  // An event applied ahead of a log that contains it makes no difference after that log,
  // but for the total; and none to the total exactly when the two end totals are the same.
  lemma EarlyEventIsAbsorbed(v: View, c: Change, log: seq<Change>, order: OrderId)
    requires c in log
    ensures SameCore(FoldView(ApplyView(v, c, order), log, order), FoldView(v, log, order))
    ensures FoldView(ApplyView(v, c, order), log, order) == FoldView(v, log, order) <==>
            (v.row.Some? || Creates(log, order) ==>
               EndTotal(ApplyView(v, c, order), log, order) == EndTotal(v, log, order))
  {
    var w := ApplyView(v, c, order);
    forall k: ItemKey ensures SettlesItem(w, v, log, order, k) {
      assert SetsKey(c, k) ==> Writes(log, k);
    }
    FullConvergenceExact(w, v, log, order);
    ConvergenceExact(w, v, log, order);
  }

  // Whether a rewind to k after m rows changes the total: the order existed after m rows,
  // some item is replayed, no item ever followed the creation, and the items are not free.
  ghost predicate RewindChangesTotal(log: seq<Change>, k: nat, m: nat, order: OrderId)
    requires k <= m <= |log|
  {
    && Creates(log[..m], order)
    && SetsItem(log[k..], order)
    && !ItemAfterCreation(log, order)
    && Total(LastItems(log, order)) != 0
  }

  // A rewind reproduces the clean rows of an order, total and all, exactly when
  // RewindChangesTotal does not hold of the log.
  lemma RewindTotalExact(log: seq<Change>, k: nat, m: nat, order: OrderId)
    requires k <= m <= |log|
    ensures
      var clean := FoldView(NO_VIEW, log, order);
      var replayed := FoldView(FoldView(NO_VIEW, log[..m], order), log[k..], order);
      && (replayed.row.Some? <==> clean.row.Some?)
      && (replayed == clean <==> !RewindChangesTotal(log, k, m, order))
  {
    var before := FoldView(NO_VIEW, log[..m], order);
    var clean := FoldView(NO_VIEW, log, order);
    var replayed := FoldView(before, log[k..], order);
    RewindConverges(NO_VIEW, log, k, m, order);
    OrderTotal(log, order);
    OrderTotal(log[..m], order);
    TotalAfter(before, log[k..], order);
    CreatesIsRow(log[..m], order);
    CreatesIsRow(log, order);
    ItemAfterCreationSplit(log, k, m, order);
    ItemsAfter(NO_VIEW, log, order);
    assert map[] + LastItems(log, order) == LastItems(log, order);
    assert Creates(log[..m], order) ==> Creates(log, order) by {
      assert forall c :: c in log[..m] ==> c in log;
    }
    if !SetsItem(log[k..], order) {
      ItemsWithoutWrites(before, log[k..], order);
    }
  }

  // The smallest log on which a rewind does change the total: an item that comes before
  // its order. A clean fold leaves the total at 0, a second pass makes it the item's price.
  lemma RewindCanChangeTotal(order: OrderId, customer: string, sku: Sku)
    ensures
      var log := [SetItem(order, sku, 1, 500), CreateOrder(order, customer, OPEN)];
      var clean, again := Fold(NO_ROWS, log), Fold(Fold(NO_ROWS, log), log);
      && order in clean.orders && clean.orders[order].total == 0
      && order in again.orders && again.orders[order].total == 500
  {
    var log := [SetItem(order, sku, 1, 500), CreateOrder(order, customer, OPEN)];
    var key := (order, sku);
    var t := ReadModel(map[], map[key := ItemRow(1, 500)]);
    var u := ReadModel(map[order := OrderRow(customer, OPEN, 0)], t.items);
    assert log[1..] == [log[1]] && log[1..][1..] == [];
    assert Apply(NO_ROWS, log[0]) == t && Apply(t, log[1]) == u;
    assert Fold(NO_ROWS, log) == Fold(t, log[1..]) == Fold(u, []) == u;
    assert ItemsOf(t.items[key := ItemRow(1, 500)], order) == t.items;
    assert Amounts(t.items) == map[key := 500];
    SumPut(map[], key, 500);
    assert map[][key := 500] == map[key := 500];
    var v := Apply(u, log[0]);
    assert v.orders[order].total == 500;
    assert Fold(u, log) == Fold(v, log[1..]) == Fold(Apply(v, log[1]), []);
  }

  // ----- Whole tables -----

  ghost predicate SameTablesButTotals(t: ReadModel, u: ReadModel) {
    forall order: OrderId :: SameCore(ViewOf(t, order), ViewOf(u, order))
  }

  lemma NoRowsNoViews(order: OrderId)
    ensures ViewOf(NO_ROWS, order) == NO_VIEW
  {
    assert ItemsOf(NO_ROWS.items, order) == map[];
  }

  // On whole tables: a rewind over the tables of any prefix ends with the same items,
  // customers and statuses as a clean fold, and with identical tables when every order is
  // created before its items.
  lemma RewindOfTables(log: seq<Change>, k: nat, m: nat)
    requires k <= m <= |log|
    ensures SameTablesButTotals(Fold(Fold(NO_ROWS, log[..m]), log[k..]), Fold(NO_ROWS, log))
    ensures (forall order :: CreatedFirst(log, order)) ==>
      Fold(Fold(NO_ROWS, log[..m]), log[k..]) == Fold(NO_ROWS, log)
  {
    var before := Fold(NO_ROWS, log[..m]);
    var replayed, clean := Fold(before, log[k..]), Fold(NO_ROWS, log);
    forall order: OrderId
      ensures SameCore(ViewOf(replayed, order), ViewOf(clean, order))
      ensures CreatedFirst(log, order) ==> ViewOf(replayed, order) == ViewOf(clean, order)
    {
      NoRowsNoViews(order);
      FoldIsLocal(NO_ROWS, log[..m], order);
      FoldIsLocal(before, log[k..], order);
      FoldIsLocal(NO_ROWS, log, order);
      RewindConverges(NO_VIEW, log, k, m, order);
      if CreatedFirst(log, order) && ViewOf(clean, order).row.Some? {
        RewindTotalExact(log, k, m, order);
        if !ItemAfterCreation(log, order) {
          NoItemsNoAmounts(log, order);
        }
      }
    }
    if forall order :: CreatedFirst(log, order) {
      SameViewsSameTables(replayed, clean);
    }
  }
}
