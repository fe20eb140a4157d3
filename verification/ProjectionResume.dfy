// Resuming a replay of a log over tables that may hold anything: from which checkpoints the
// tables of a clean fold come out, with and without totals.
module ProjectionResume {
  import opened Common
  import opened Orders
  import opened OrderReplay

  // Folding the rows from checkpoint c over the tables `t` gives the clean fold of the
  // whole log, but for totals.
  ghost predicate ResumesFrom(t: ReadModel, good: seq<Change>, c: nat)
    requires c <= |good|
  {
    SameTablesButTotals(Fold(t, good[c..]), Fold(NO_ROWS, good))
  }

  ghost predicate ResumableUpTo(t: ReadModel, good: seq<Change>, bound: nat) {
    bound <= |good| && forall c: nat :: c <= bound ==> ResumesFrom(t, good, c)
  }

  // The same with totals: the tables come out identical.
  ghost predicate ResumesFully(t: ReadModel, good: seq<Change>, c: nat)
    requires c <= |good|
  {
    Fold(t, good[c..]) == Fold(NO_ROWS, good)
  }

  // ----- Tables that differ in totals only -----

  lemma SameTablesTransitive(t: ReadModel, u: ReadModel, v: ReadModel)
    requires SameTablesButTotals(t, u) && SameTablesButTotals(u, v)
    ensures SameTablesButTotals(t, v)
  {
  }

  lemma SameTablesSymmetric(t: ReadModel, u: ReadModel)
    ensures SameTablesButTotals(t, u) <==> SameTablesButTotals(u, t)
  {
    forall order: OrderId ensures SameCore(ViewOf(t, order), ViewOf(u, order)) <==> SameCore(ViewOf(u, order), ViewOf(t, order)) {
    }
  }

  lemma SameTablesApply(t: ReadModel, u: ReadModel, c: Change)
    requires SameTablesButTotals(t, u)
    ensures SameTablesButTotals(Apply(t, c), Apply(u, c))
  {
    forall order: OrderId ensures SameCore(ViewOf(Apply(t, c), order), ViewOf(Apply(u, c), order)) {
      assert SameCore(ViewOf(t, order), ViewOf(u, order));
      ApplyIsLocal(t, c, order);
      ApplyIsLocal(u, c, order);
    }
  }

  lemma SameTablesExactly(t: ReadModel, u: ReadModel)
    ensures t == u <==>
      && SameTablesButTotals(t, u)
      && forall order :: order in t.orders && order in u.orders ==> t.orders[order].total == u.orders[order].total
  {
    if SameTablesButTotals(t, u)
       && forall order :: order in t.orders && order in u.orders ==> t.orders[order].total == u.orders[order].total
    {
      forall order: OrderId ensures ViewOf(t, order) == ViewOf(u, order) {
        assert SameCore(ViewOf(t, order), ViewOf(u, order));
      }
      SameViewsSameTables(t, u);
    }
  }

  lemma FoldTotal(t: ReadModel, log: seq<Change>, order: OrderId)
    ensures order in Fold(t, log).orders <==> order in t.orders || Creates(log, order)
    ensures order in Fold(t, log).orders ==>
      Fold(t, log).orders[order].total == EndTotal(ViewOf(t, order), log, order)
  {
    FoldIsLocal(t, log, order);
    RowAfter(ViewOf(t, order), log, order);
    EndTotalIsTotal(ViewOf(t, order), log, order);
  }

  // ----- Resuming, exactly -----

  // For any tables and any checkpoint, exactly: a replay from c repairs the tables, but for
  // totals, if and only if the rows still to be replayed rewrite all in which the tables
  // differ from the clean ones at c.
  lemma ResumesFromExactly(t: ReadModel, good: seq<Change>, c: nat)
    requires c <= |good|
    ensures ResumesFrom(t, good, c) <==>
      forall order: OrderId :: Reconciles(ViewOf(t, order), ViewOf(Fold(NO_ROWS, good[..c]), order), good[c..], order)
  {
    var clean := Fold(NO_ROWS, good[..c]);
    assert good == good[..c] + good[c..];
    FoldSplit(NO_ROWS, good[..c], good[c..]);
    forall order: OrderId
      ensures SameCore(ViewOf(Fold(t, good[c..]), order), ViewOf(Fold(NO_ROWS, good), order)) <==>
              Reconciles(ViewOf(t, order), ViewOf(clean, order), good[c..], order)
    {
      FoldIsLocal(t, good[c..], order);
      FoldIsLocal(clean, good[c..], order);
      ConvergenceExact(ViewOf(t, order), ViewOf(clean, order), good[c..], order);
    }
  }

  // The totals a replay from c ends with are the clean ones. Both are read off the tables
  // and the log: the sum of the order's items at the end, if the log sums them, and
  // otherwise the total there was before.
  ghost predicate TotalsAgree(t: ReadModel, good: seq<Change>, c: nat)
    requires c <= |good|
  {
    forall order: OrderId :: Creates(good, order) ==>
      EndTotal(ViewOf(t, order), good[c..], order) == EndTotal(NO_VIEW, good, order)
  }

  // For any tables and any checkpoint, totals included.
  lemma ResumesFullyExactly(t: ReadModel, good: seq<Change>, c: nat)
    requires c <= |good|
    ensures ResumesFully(t, good, c) <==> ResumesFrom(t, good, c) && TotalsAgree(t, good, c)
  {
    var resumed, clean := Fold(t, good[c..]), Fold(NO_ROWS, good);
    SameTablesExactly(resumed, clean);
    forall order: OrderId
      ensures order in clean.orders <==> Creates(good, order)
      ensures order in resumed.orders ==> resumed.orders[order].total == EndTotal(ViewOf(t, order), good[c..], order)
      ensures order in clean.orders ==> clean.orders[order].total == EndTotal(NO_VIEW, good, order)
      ensures SameTablesButTotals(resumed, clean) ==> (order in resumed.orders <==> order in clean.orders)
    {
      FoldTotal(t, good[c..], order);
      FoldTotal(NO_ROWS, good, order);
      NoRowsNoViews(order);
      if SameTablesButTotals(resumed, clean) {
        assert SameCore(ViewOf(resumed, order), ViewOf(clean, order));
      }
    }
  }

  // ----- Events applied early -----

  // Applying `c` to the tables now does no harm to a resume that will only replay `log`.
  predicate Harmless(t: ReadModel, c: Change, log: seq<Change>) {
    match c
    case NoChange => true
    case SetItem(order, sku, quantity, unitPrice) =>
      var k := (order, sku);
      Writes(log, k) || (k in t.items && t.items[k] == ItemRow(quantity, unitPrice))
    case CancelOrder(order) =>
      || Creates(log, order) || Cancels(log, order)
      || order !in t.orders || t.orders[order].status == CANCELLED
    case CreateOrder(order, customer, status) =>
      || Creates(log, order)
      || (order in t.orders && t.orders[order].customer == customer
          && (t.orders[order].status == status || Cancels(log, order)))
  }

  lemma HarmlessIsReconciled(t: ReadModel, c: Change, log: seq<Change>)
    ensures Harmless(t, c, log) <==>
      forall order: OrderId :: Reconciles(ViewOf(Apply(t, c), order), ViewOf(t, order), log, order)
  {
    forall order: OrderId ensures ViewOf(Apply(t, c), order) == ApplyView(ViewOf(t, order), c, order) {
      ApplyIsLocal(t, c, order);
    }
    if !c.NoChange? {
      var v, w := ApplyView(ViewOf(t, c.order), c, c.order), ViewOf(t, c.order);
      if c.SetItem? {
        var k := (c.order, c.sku);
        assert SettlesItem(v, w, log, c.order, k) <==> Harmless(t, c, log);
      }
      assert Reconciles(v, w, log, c.order) <==> Harmless(t, c, log);
    }
  }

  // Exactly the harmless events leave the outcome of replaying `log` alone, but for totals.
  lemma HarmlessExact(t: ReadModel, c: Change, log: seq<Change>)
    ensures SameTablesButTotals(Fold(Apply(t, c), log), Fold(t, log)) <==> Harmless(t, c, log)
  {
    forall order: OrderId
      ensures SameCore(ViewOf(Fold(Apply(t, c), log), order), ViewOf(Fold(t, log), order)) <==>
              Reconciles(ViewOf(Apply(t, c), order), ViewOf(t, order), log, order)
    {
      FoldIsLocal(Apply(t, c), log, order);
      FoldIsLocal(t, log, order);
      ConvergenceExact(ViewOf(Apply(t, c), order), ViewOf(t, order), log, order);
    }
    HarmlessIsReconciled(t, c, log);
  }

  // The total of the event's order ends up the same, applied early or not.
  ghost predicate KeepsTotal(t: ReadModel, c: Change, log: seq<Change>) {
    !c.NoChange? && (c.order in t.orders || Creates(log, c.order)) ==>
      var v := ViewOf(t, c.order);
      EndTotal(ApplyView(v, c, c.order), log, c.order) == EndTotal(v, log, c.order)
  }

  // And with totals.
  lemma HarmlessFullyExact(t: ReadModel, c: Change, log: seq<Change>)
    ensures Fold(Apply(t, c), log) == Fold(t, log) <==> Harmless(t, c, log) && KeepsTotal(t, c, log)
  {
    var early, late := Fold(Apply(t, c), log), Fold(t, log);
    HarmlessExact(t, c, log);
    SameTablesExactly(early, late);
    forall order: OrderId | order in early.orders && order in late.orders
      ensures early.orders[order].total == EndTotal(ApplyView(ViewOf(t, order), c, order), log, order)
      ensures late.orders[order].total == EndTotal(ViewOf(t, order), log, order)
      ensures order in t.orders || Creates(log, order)
    {
      FoldTotal(Apply(t, c), log, order);
      FoldTotal(t, log, order);
      ApplyIsLocal(t, c, order);
    }
    if !c.NoChange? {
      FoldTotal(t, log, c.order);
      FoldTotal(Apply(t, c), log, c.order);
      ApplyIsLocal(t, c, c.order);
    }
  }

  // ----- What keeps a checkpoint resumable -----

  lemma AppendKeepsResumable(t: ReadModel, good: seq<Change>, c: Change, bound: nat)
    requires ResumableUpTo(t, good, bound)
    ensures ResumableUpTo(t, good + [c], bound)
  {
    FoldSplit(NO_ROWS, good, [c]);
    forall k: nat | k <= bound ensures ResumesFrom(t, good + [c], k) {
      assert ResumesFrom(t, good, k);
      assert (good + [c])[k..] == good[k..] + [c];
      FoldSplit(t, good[k..], [c]);
      SameTablesApply(Fold(t, good[k..]), Fold(NO_ROWS, good), c);
    }
  }

  // Writing row i keeps every checkpoint up to i resumable: a replay from there repeats it.
  lemma WriteIsAbsorbed(t: ReadModel, good: seq<Change>, i: nat, k: nat)
    requires k <= i < |good| && ResumesFrom(t, good, k)
    ensures ResumesFrom(Apply(t, good[i]), good, k)
  {
    var t' := Apply(t, good[i]);
    assert good[k..][i - k] == good[i];
    forall order: OrderId
      ensures SameCore(ViewOf(Fold(t', good[k..]), order), ViewOf(Fold(t, good[k..]), order))
    {
      FoldIsLocal(t', good[k..], order);
      FoldIsLocal(t, good[k..], order);
      ApplyIsLocal(t, good[i], order);
      EarlyEventIsAbsorbed(ViewOf(t, order), good[i], good[k..], order);
    }
    SameTablesTransitive(Fold(t', good[k..]), Fold(t, good[k..]), Fold(NO_ROWS, good));
  }

  // And it makes i + 1 resumable, if i was.
  lemma WriteKeepsResumable(t: ReadModel, good: seq<Change>, i: nat)
    requires i < |good| && ResumableUpTo(t, good, i)
    ensures ResumableUpTo(Apply(t, good[i]), good, i + 1)
  {
    forall k: nat | k <= i + 1 ensures ResumesFrom(Apply(t, good[i]), good, k) {
      if k == i + 1 {
        assert ResumesFrom(t, good, i);
        assert good[i..][0] == good[i] && good[i..][1..] == good[i + 1..];
      } else {
        assert ResumesFrom(t, good, k);
        WriteIsAbsorbed(t, good, i, k);
      }
    }
  }

  lemma HarmlessForMore(t: ReadModel, c: Change, log: seq<Change>, more: seq<Change>)
    requires Harmless(t, c, log)
    requires forall x :: x in log ==> x in more
    ensures Harmless(t, c, more)
  {
  }

  // ----- Totals of a rebuild from 0 -----

  // Whether a rebuild of the whole log changes the total of an order: the order is in the
  // tables already, it has items, none ever followed its creation, and they are not free.
  ghost predicate RebuildChangesTotal(t: ReadModel, good: seq<Change>, order: OrderId) {
    && order in t.orders && Creates(good, order)
    && SetsItem(good, order)
    && !ItemAfterCreation(good, order)
    && Total(LastItems(good, order)) != 0
  }

  lemma RebuildTotalExact(t: ReadModel, good: seq<Change>, order: OrderId)
    requires ResumesFrom(t, good, 0) && Creates(good, order)
    requires order in t.orders && !SetsItem(good, order) ==> t.orders[order].total == 0
    ensures EndTotal(ViewOf(t, order), good, order) == EndTotal(NO_VIEW, good, order)
            <==> !RebuildChangesTotal(t, good, order)
  {
    var v := ViewOf(t, order);
    assert good[0..] == good;
    assert SameCore(ViewOf(Fold(t, good), order), ViewOf(Fold(NO_ROWS, good), order));
    FoldIsLocal(t, good, order);
    FoldIsLocal(NO_ROWS, good, order);
    NoRowsNoViews(order);
    ItemsAfter(v, good, order);
    ItemsAfter(NO_VIEW, good, order);
    assert map[] + LastItems(good, order) == LastItems(good, order);
    SumsNeedItems(v.row.Some?, good, order);
  }

  lemma SumsNeedItems(row: bool, log: seq<Change>, order: OrderId)
    ensures SumsItems(row, log, order) ==> SetsItem(log, order)
  {
    if ItemAfterCreation(log, order) {
      var i, j :| 0 <= i < j < |log| && log[i].CreateOrder? && log[i].order == order
                  && log[j].SetItem? && log[j].order == order;
      assert log[j] in log;
    }
  }
}
