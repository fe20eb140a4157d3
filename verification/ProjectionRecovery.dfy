// One projection instance over a growing log, with crashes and SQL errors between any two
// statements, restarts, resumes and rewinds.
module ProjectionRecovery {
  import opened Common
  import opened Envelopes
  import opened Orders
  import opened OrderReplay
  import opened ProjectionResume
  import opened OrderProjectionObject
  import Json

  // Where the process stands. Rows are numbered from 0 here: a checkpoint of c means the
  // rows before index c. Written is the moment between the write of the read model and
  // that of the checkpoint; `before` remembers the tables before the write.
  datatype Proc =
    | Down
    | Waiting(offset: nat)
    | Replaying(next: nat, end: nat, offset: nat)
    | Written(at: nat, end: nat, offset: nat, before: ReadModel)

  datatype Machine = Machine(log: seq<EventEnvelope>, tables: ReadModel, stored: nat, proc: Proc)

  const START := Machine([], NO_ROWS, 0, Down)

  datatype Action =
    | Append(e: EventEnvelope)     // the bus inserts a row
    | Open                         // OrderProjection::new
    | Rebuild(from: nat)           // rebuild_from_offset: resume, or rewind
    | ApplyLive                    // apply, with the row after the offset
    | WriteModel
    | WriteCheckpoint
    | Finish
    | Crash
    | SqlFailure                   // the statement has no effect and the call returns Err

  predicate Enabled(m: Machine, a: Action) {
    match a
    case Append(_) => true
    case Open => m.proc.Down?
    case Rebuild(from) => m.proc.Waiting? && from <= m.stored
    case ApplyLive => m.proc.Waiting? && m.proc.offset < |m.log|
    case WriteModel => m.proc.Replaying? && m.proc.next < m.proc.end <= |m.log|
    case WriteCheckpoint => m.proc.Written?
    case Finish => m.proc.Replaying? && m.proc.end <= m.proc.next
    case Crash => !m.proc.Down?
    case SqlFailure => m.proc.Replaying? || m.proc.Written?
  }

  ghost function Next(m: Machine, a: Action): Machine
    requires Enabled(m, a)
  {
    match a
    case Append(e) => m.(log := m.log + [e])
    case Open => m.(proc := Waiting(m.stored))
    case Rebuild(from) => m.(proc := Replaying(from, |m.log|, m.proc.offset))
    case ApplyLive => m.(proc := Replaying(m.proc.offset, m.proc.offset + 1, m.proc.offset))
    case WriteModel =>
      var Replaying(i, end, offset) := m.proc;
      match Decode(m.log[i]) {
        case Ok(change) => m.(tables := Apply(m.tables, change), proc := Written(i, end, offset, m.tables))
        case Err(_) => m.(proc := Waiting(offset))
      }
    case WriteCheckpoint =>
      var Written(i, end, _, _) := m.proc;
      m.(stored := i + 1, proc := Replaying(i + 1, end, i + 1))
    case Finish => m.(proc := Waiting(m.proc.offset))
    case Crash => m.(proc := Down)
    case SqlFailure => m.(proc := Waiting(m.proc.offset))
  }

  type Trace = seq<Action>

  ghost function Exec(t: Trace): Option<Machine> {
    if t == [] then Some(START)
    else
      match Exec(t[..|t| - 1])
      case None => None
      case Some(m) => if Enabled(m, t[|t| - 1]) then Some(Next(m, t[|t| - 1])) else None
  }

  // ----- The window of a rewind -----

  // A crash or an SQL error between the two writes, while the stored checkpoint is still
  // ahead of the row just written: this happens at the first row of a rewind only.
  predicate CutsRewind(m: Machine, a: Action) {
    (a.Crash? || a.SqlFailure?) && m.proc.Written? && m.proc.at + 1 < m.stored
  }

  predicate HarmlessCut(m: Machine)
    requires m.proc.Written?
  {
    && m.proc.at < |Good(m.log)| && m.stored <= |Good(m.log)|
    && Harmless(m.proc.before, Good(m.log)[m.proc.at], Good(m.log)[m.stored..])
  }

  // No rewind is cut at its first row, unless that is harmless.
  ghost predicate Careful(t: Trace) {
    t == [] ||
    (Careful(t[..|t| - 1])
     && match Exec(t[..|t| - 1])
        case None => false
        case Some(m) => CutsRewind(m, t[|t| - 1]) ==> HarmlessCut(m))
  }

  // ----- The invariant -----

  function Bound(m: Machine): nat {
    if m.proc.Written? then m.proc.at + 1 else m.stored
  }

  predicate InPlace(m: Machine) {
    && m.stored <= |Good(m.log)|
    && match m.proc
       case Down => true
       case Waiting(offset) => offset == m.stored
       case Replaying(next, end, offset) => next <= m.stored == offset && end <= |m.log|
       case Written(at, end, offset, _) =>
         at <= m.stored == offset && end <= |m.log| && at < |Good(m.log)|
  }

  ghost predicate BeforeOk(m: Machine)
    requires InPlace(m)
  {
    m.proc.Written? ==>
      && m.tables == Apply(m.proc.before, Good(m.log)[m.proc.at])
      && ResumableUpTo(m.proc.before, Good(m.log), m.stored)
  }

  ghost predicate Recoverable(m: Machine) {
    InPlace(m) && BeforeOk(m) && ResumableUpTo(m.tables, Good(m.log), Bound(m))
  }

  lemma {:induction false} GoodAppend(log: seq<EventEnvelope>, e: EventEnvelope)
    ensures
      var good := Good(log + [e]);
      good == if |Good(log)| == |log| && Decode(e).Ok? then Good(log) + [Decode(e).value] else Good(log)
  {
    GoodIsPrefix(log);
    if log != [] {
      assert (log + [e])[1..] == log[1..] + [e];
      GoodIsPrefix(log[1..]);
      GoodAppend(log[1..], e);
    } else {
      assert (log + [e])[1..] == [];
    }
  }

  // In the middle of a row's two writes, a checkpoint c is resumable exactly when it is
  // not ahead of the row, or the row is harmless to a replay from c; and the tables come
  // out identical exactly when, moreover, the totals agree.
  lemma AheadExact(m: Machine, c: nat)
    requires m.proc.Written? && Recoverable(m) && c <= m.stored
    ensures ResumesFrom(m.tables, Good(m.log), c) <==>
            c <= m.proc.at + 1 || Harmless(m.proc.before, Good(m.log)[m.proc.at], Good(m.log)[c..])
    ensures ResumesFully(m.tables, Good(m.log), c) <==>
            ResumesFrom(m.tables, Good(m.log), c) && TotalsAgree(m.tables, Good(m.log), c)
  {
    ResumesFullyExactly(m.tables, Good(m.log), c);
    var good, before := Good(m.log), m.proc.before;
    var rest, clean := good[c..], Fold(NO_ROWS, good);
    HarmlessExact(before, good[m.proc.at], rest);
    assert ResumesFrom(before, good, c);
    SameTablesSymmetric(Fold(before, rest), clean);
    if ResumesFrom(m.tables, good, c) {
      SameTablesTransitive(Fold(m.tables, rest), clean, Fold(before, rest));
    } else if Harmless(before, good[m.proc.at], rest) {
      SameTablesTransitive(Fold(m.tables, rest), Fold(before, rest), clean);
    }
  }

  lemma CutKeepsResumable(m: Machine)
    requires m.proc.Written? && Recoverable(m)
    requires m.proc.at + 1 < m.stored ==> HarmlessCut(m)
    ensures ResumableUpTo(m.tables, Good(m.log), m.stored)
  {
    var good := Good(m.log);
    forall c: nat | c <= m.stored ensures ResumesFrom(m.tables, good, c) {
      if m.proc.at + 1 < c {
        forall x | x in good[m.stored..] ensures x in good[c..] {
          var i :| 0 <= i < |good| - m.stored && good[m.stored..][i] == x;
          assert good[c..][i + m.stored - c] == x;
        }
        HarmlessForMore(m.proc.before, good[m.proc.at], good[m.stored..], good[c..]);
      }
      AheadExact(m, c);
    }
  }

  lemma AppendKeepsRecoverable(m: Machine, e: EventEnvelope)
    requires Recoverable(m)
    ensures Recoverable(Next(m, Append(e)))
  {
    GoodAppend(m.log, e);
    var good := Good(m.log);
    if Good(m.log + [e]) != good {
      AppendKeepsResumable(m.tables, good, Decode(e).value, Bound(m));
      if m.proc.Written? {
        AppendKeepsResumable(m.proc.before, good, Decode(e).value, m.stored);
      }
    }
  }

  lemma RecoverableStep(m: Machine, a: Action)
    requires Recoverable(m) && Enabled(m, a)
    requires CutsRewind(m, a) ==> HarmlessCut(m)
    ensures Recoverable(Next(m, a))
  {
    match a
    case Append(e) => AppendKeepsRecoverable(m, e);
    case WriteModel =>
      GoodIsPrefix(m.log);
      if Decode(m.log[m.proc.next]).Ok? {
        WriteKeepsResumable(m.tables, Good(m.log), m.proc.next);
      }
    case Crash => if m.proc.Written? { CutKeepsResumable(m); }
    case SqlFailure => if m.proc.Written? { CutKeepsResumable(m); }
    case _ =>
  }

  // Crash safety over whole runs, rewinds included: at every moment of a careful run, any
  // restart that resumes from the stored checkpoint or any earlier one ends in the clean
  // fold of the whole log, but for totals. (In the middle of a row's two writes: from that row's own.)
  lemma {:induction false} EveryStateIsRecoverable(t: Trace, m: Machine)
    requires Exec(t) == Some(m) && Careful(t)
    ensures Recoverable(m)
  {
    if t == [] {
      assert ResumesFrom(NO_ROWS, [], 0);
    } else {
      var u := Exec(t[..|t| - 1]).value;
      EveryStateIsRecoverable(t[..|t| - 1], u);
      RecoverableStep(u, t[|t| - 1]);
    }
  }

  // Without rewinds every run is careful, wherever it crashes.
  ghost predicate ForwardOnly(t: Trace) {
    t == [] ||
    (ForwardOnly(t[..|t| - 1])
     && match Exec(t[..|t| - 1])
        case None => false
        case Some(m) => t[|t| - 1].Rebuild? ==> t[|t| - 1].from == m.stored)
  }

  lemma {:induction false} ForwardRunsAreCareful(t: Trace, m: Machine)
    requires Exec(t) == Some(m) && ForwardOnly(t)
    ensures Careful(t)
    ensures match m.proc { case Down => true
                           case Waiting(offset) => offset == m.stored
                           case Replaying(next, _, offset) => next == m.stored == offset
                           case Written(at, _, offset, _) => at == m.stored == offset }
  {
    if t != [] {
      ForwardRunsAreCareful(t[..|t| - 1], Exec(t[..|t| - 1]).value);
    }
  }

  // With totals: any such resume ends in identical tables exactly when the totals agree.
  lemma EveryStateResumesFullyExactly(t: Trace, m: Machine, c: nat)
    requires Exec(t) == Some(m) && Careful(t)
    requires c <= Bound(m)
    ensures c <= |Good(m.log)|
    ensures ResumesFully(m.tables, Good(m.log), c) <==> TotalsAgree(m.tables, Good(m.log), c)
  {
    EveryStateIsRecoverable(t, m);
    assert ResumesFrom(m.tables, Good(m.log), c);
    ResumesFullyExactly(m.tables, Good(m.log), c);
  }

  // ----- Runs without rewinds -----

  // The tables are those of the rows up to the checkpoint, or of one row more.
  ghost predicate UpToDate(m: Machine) {
    var good := Good(m.log);
    && m.stored <= |good|
    && (m.tables == Fold(NO_ROWS, good[..m.stored])
        || (m.stored < |good| && m.tables == Fold(NO_ROWS, good[..m.stored + 1])))
    && (m.proc.Written? ==> m.stored < |good| && m.tables == Fold(NO_ROWS, good[..m.stored + 1]))
  }

  lemma ApplyTwice(t: ReadModel, c: Change)
    ensures Apply(Apply(t, c), c) == Apply(t, c)
  {
    if c.SetItem? {
      var k, row := (c.order, c.sku), ItemRow(c.quantity, c.unitPrice);
      assert t.items[k := row][k := row] == t.items[k := row];
    }
  }

  lemma FoldOneMore(t: ReadModel, good: seq<Change>, i: nat)
    requires i < |good|
    ensures Fold(t, good[..i + 1]) == Apply(Fold(t, good[..i]), good[i])
  {
    assert good[..i + 1] == good[..i] + [good[i]];
    FoldSplit(t, good[..i], [good[i]]);
    assert [good[i]][1..] == [];
  }

  lemma WriteUpToDate(m: Machine)
    requires UpToDate(m) && m.stored < |Good(m.log)|
    ensures Apply(m.tables, Good(m.log)[m.stored]) == Fold(NO_ROWS, Good(m.log)[..m.stored + 1])
  {
    FoldOneMore(NO_ROWS, Good(m.log), m.stored);
    ApplyTwice(Fold(NO_ROWS, Good(m.log)[..m.stored]), Good(m.log)[m.stored]);
  }

  lemma AppendUpToDate(m: Machine, e: EventEnvelope)
    requires UpToDate(m)
    ensures UpToDate(Next(m, Append(e)))
  {
    GoodAppend(m.log, e);
    var good, good' := Good(m.log), Good(m.log + [e]);
    assert good'[..m.stored] == good[..m.stored];
    assert m.stored < |good| ==> good'[..m.stored + 1] == good[..m.stored + 1];
  }

  lemma UpToDateStep(m: Machine, a: Action)
    requires UpToDate(m) && Enabled(m, a)
    requires m.proc.Replaying? ==> m.proc.next == m.stored
    requires m.proc.Written? ==> m.proc.at == m.stored
    ensures UpToDate(Next(m, a))
  {
    match a
    case Append(e) => AppendUpToDate(m, e);
    case WriteModel =>
      GoodIsPrefix(m.log);
      if Decode(m.log[m.stored]).Ok? {
        WriteUpToDate(m);
      }
    case _ =>
  }

  lemma {:induction false} ForwardRunsAreUpToDate(t: Trace, m: Machine)
    requires Exec(t) == Some(m) && ForwardOnly(t)
    ensures UpToDate(m)
  {
    if t != [] {
      var t', u := t[..|t| - 1], Exec(t[..|t| - 1]).value;
      ForwardRunsAreUpToDate(t', u);
      ForwardRunsAreCareful(t', u);
      UpToDateStep(u, t[|t| - 1]);
    }
  }

  // Crash safety without rewinds needs no condition: in every reachable state, wherever it
  // crashed before, resuming from the stored checkpoint gives exactly the clean fold of the
  // whole log, totals included, whatever the order of its events.
  lemma ForwardRunsResumeFully(t: Trace, m: Machine)
    requires Exec(t) == Some(m) && ForwardOnly(t)
    ensures m.stored <= |Good(m.log)| && ResumesFully(m.tables, Good(m.log), m.stored)
  {
    ForwardRunsAreUpToDate(t, m);
    var good, c := Good(m.log), m.stored;
    if m.tables == Fold(NO_ROWS, good[..c]) {
      assert good == good[..c] + good[c..];
      FoldSplit(NO_ROWS, good[..c], good[c..]);
    } else {
      WriteUpToDate(m);
      assert good[c..][0] == good[c] && good[c..][1..] == good[c + 1..];
      assert good == good[..c + 1] + good[c + 1..];
      FoldSplit(NO_ROWS, good[..c + 1], good[c + 1..]);
    }
  }

  // ----- Rewinds -----

  // The one unsafe window, exactly: a crash or SQL error between the read-model write of
  // the first replayed row of a rewind and its checkpoint leaves the old checkpoint in
  // place. Resuming from it then gives the clean fold but for totals if and only if the row
  // was harmless, and identical tables if and only if the totals agree as well.
  lemma RewindWindowExact(t: Trace, m: Machine, a: Action)
    requires Exec(t) == Some(m) && Careful(t)
    requires CutsRewind(m, a)
    ensures
      var after := Next(m, a);
      && after.stored == m.stored <= |Good(m.log)|
      && (ResumesFrom(after.tables, Good(after.log), after.stored) <==> HarmlessCut(m))
      && (ResumesFully(after.tables, Good(after.log), after.stored) <==>
            HarmlessCut(m) && TotalsAgree(m.tables, Good(m.log), m.stored))
  {
    EveryStateIsRecoverable(t, m);
    AheadExact(m, m.stored);
  }

  // ----- Totals -----

  lemma InPlaceStep(m: Machine, a: Action)
    requires InPlace(m) && Enabled(m, a)
    ensures InPlace(Next(m, a))
  {
    if a.Append? {
      GoodAppend(m.log, a.e);
    } else if a.WriteModel? {
      GoodIsPrefix(m.log);
    }
  }

  // Over any run at all, careful or not: the process keeps its place, and the offset in
  // memory is the stored checkpoint.
  lemma {:induction false} AlwaysInPlace(t: Trace, m: Machine)
    requires Exec(t) == Some(m)
    ensures InPlace(m)
  {
    if t != [] {
      var u := Exec(t[..|t| - 1]).value;
      AlwaysInPlace(t[..|t| - 1], u);
      InPlaceStep(u, t[|t| - 1]);
    }
  }

  ghost predicate ViewOk(v: View) {
    match v.row
    case None => v.items == map[]
    case Some(row) => row.total == Total(v.items)
  }

  // The rows that have ever been written are at least those before this index.
  function Reach(m: Machine): nat {
    Max(m.stored, Bound(m))
  }

  ghost predicate TotalOk(m: Machine, order: OrderId)
    requires Reach(m) <= |Good(m.log)|
  {
    CreatedFirst(Good(m.log), order) ==>
      && ViewOk(ViewOf(m.tables, order))
      && (Creates(Good(m.log)[..Reach(m)], order) ==> order in m.tables.orders)
  }

  lemma CreatedFirstPrefix(log: seq<Change>, c: Change, order: OrderId)
    requires CreatedFirst(log + [c], order)
    ensures CreatedFirst(log, order)
  {
    forall j | 0 <= j < |log| && log[j].SetItem? && log[j].order == order
      ensures exists i :: 0 <= i < j && log[i].CreateOrder? && log[i].order == order
    {
      assert (log + [c])[j] == log[j];
      var i :| 0 <= i < j && (log + [c])[i].CreateOrder? && (log + [c])[i].order == order;
      assert log[i] == (log + [c])[i];
    }
  }

  lemma WriteKeepsTotal(t: ReadModel, good: seq<Change>, i: nat, reach: nat, order: OrderId)
    requires i < |good| && i <= reach <= |good| && CreatedFirst(good, order)
    requires ViewOk(ViewOf(t, order)) && (Creates(good[..reach], order) ==> order in t.orders)
    ensures ViewOk(ViewOf(Apply(t, good[i]), order))
    ensures Creates(good[..Max(reach, i + 1)], order) ==> order in Apply(t, good[i]).orders
  {
    ApplyIsLocal(t, good[i], order);
    if good[i].SetItem? && good[i].order == order {
      var c :| 0 <= c < i && good[c].CreateOrder? && good[c].order == order;
      assert good[..reach][c] == good[c];
    }
    if reach < i + 1 {
      assert good[..i + 1] == good[..i] + [good[i]];
    }
  }

  lemma TotalStep(m: Machine, a: Action, order: OrderId)
    requires InPlace(m) && TotalOk(m, order) && Enabled(m, a) && InPlace(Next(m, a))
    ensures TotalOk(Next(m, a), order)
  {
    var good := Good(m.log);
    match a
    case Append(e) =>
      GoodAppend(m.log, e);
      var good' := Good(m.log + [e]);
      assert good'[..Reach(m)] == good[..Reach(m)];
      if good' != good && CreatedFirst(good', order) {
        CreatedFirstPrefix(good, Decode(e).value, order);
      }
    case WriteModel =>
      GoodIsPrefix(m.log);
      if Decode(m.log[m.proc.next]).Ok? && CreatedFirst(good, order) {
        WriteKeepsTotal(m.tables, good, m.proc.next, m.stored, order);
      }
    case _ =>
      if Creates(good[..Reach(Next(m, a))], order) {
        var c :| c in good[..Reach(Next(m, a))] && c.CreateOrder? && c.order == order;
        assert c in good[..Reach(m)];
      }
  }

  lemma {:induction false} TotalsHold(t: Trace, m: Machine, order: OrderId)
    requires Exec(t) == Some(m)
    ensures InPlace(m) && TotalOk(m, order)
  {
    AlwaysInPlace(t, m);
    if t == [] {
      assert ViewOf(NO_ROWS, order) == NO_VIEW by { NoRowsNoViews(order); }
    } else {
      var u := Exec(t[..|t| - 1]).value;
      TotalsHold(t[..|t| - 1], u, order);
      TotalStep(u, t[|t| - 1], order);
    }
  }

  // In every reachable state, through crashes, errors and rewinds at any point, the total
  // of an order created before its items is the sum of the item rows it has at that moment.
  lemma TotalIsAlwaysTheSum(t: Trace, m: Machine, order: OrderId)
    requires Exec(t) == Some(m) && CreatedFirst(Good(m.log), order)
    requires order in m.tables.orders
    ensures m.tables.orders[order].total == Total(ItemsOf(m.tables.items, order))
  {
    TotalsHold(t, m, order);
  }

  lemma CreatedFirstSuffix(log: seq<Change>, c: nat, order: OrderId)
    requires c <= |log| && CreatedFirst(log, order) && !Creates(log[..c], order)
    ensures CreatedFirst(log[c..], order)
  {
  }

  lemma ViewOkStep(v: View, c: Change, order: OrderId)
    requires ViewOk(v)
    requires c.SetItem? && c.order == order ==> v.row.Some?
    ensures ViewOk(ApplyView(v, c, order))
  {
  }

  lemma {:induction false} FoldKeepsTotal(v: View, log: seq<Change>, order: OrderId)
    requires ViewOk(v) && (v.row.Some? || CreatedFirst(log, order))
    ensures ViewOk(FoldView(v, log, order))
    decreases log
  {
    if log != [] {
      var v' := ApplyView(v, log[0], order);
      ViewOkStep(v, log[0], order);
      if v'.row.None? {
        assert log[..1] == [log[0]];
        CreatedFirstSuffix(log, 1, order);
      }
      FoldKeepsTotal(v', log[1..], order);
    }
  }

  // From any checkpoint that is resumable and not ahead of the stored one, a rebuild ends
  // with the items, customers and statuses of a clean fold of the whole log up to its first
  // malformed event; and with identical tables exactly when the totals agree, as they do if
  // every order is created before its items.
  lemma ReplayConverges(t: Trace, m: Machine, checkpoint: Option<int>, k: nat)
    requires Exec(t) == Some(m)
    requires k <= m.stored <= |Good(m.log)| && ResumesFrom(m.tables, Good(m.log), k)
    ensures k <= |m.log|
    ensures
      var replayed := Replayed(Projection(m.tables, checkpoint, m.stored), m.log, k).0;
      var clean := Fold(NO_ROWS, Good(m.log));
      && SameTablesButTotals(replayed.tables, clean)
      && (replayed.tables == clean <==> TotalsAgree(m.tables, Good(m.log), k))
      && ((forall order :: CreatedFirst(Good(m.log), order)) ==> replayed.tables == clean)
  {
    var good := Good(m.log);
    GoodIsPrefix(m.log);
    GoodFrom(m.log, k);
    RebuildStopsAtFirstBadEvent(Projection(m.tables, checkpoint, m.stored), m.log, k);
    var replayed, clean := Fold(m.tables, good[k..]), Fold(NO_ROWS, good);
    ResumesFullyExactly(m.tables, good, k);
    if forall order :: CreatedFirst(good, order) {
      forall order: OrderId ensures ViewOf(replayed, order) == ViewOf(clean, order) {
        assert CreatedFirst(good, order) && SameCore(ViewOf(replayed, order), ViewOf(clean, order));
        TotalsHold(t, m, order);
        if Creates(good[..k], order) {
          var c :| c in good[..k] && c.CreateOrder? && c.order == order;
          assert c in good[..Reach(m)];
        } else {
          CreatedFirstSuffix(good, k, order);
        }
        FoldIsLocal(m.tables, good[k..], order);
        FoldKeepsTotal(ViewOf(m.tables, order), good[k..], order);
        NoRowsNoViews(order);
        FoldIsLocal(NO_ROWS, good, order);
        FoldKeepsTotal(NO_VIEW, good, order);
      }
      SameViewsSameTables(replayed, clean);
    }
  }

  // A restart of a careful run that resumes from the stored checkpoint converges likewise;
  // and without rewinds it always ends in identical tables.
  lemma RestartConverges(t: Trace, m: Machine, checkpoint: Option<int>)
    requires Exec(t) == Some(m) && Careful(t) && !m.proc.Written?
    ensures m.stored <= |m.log| && m.stored <= |Good(m.log)|
    ensures
      var resumed := Replayed(Projection(m.tables, checkpoint, m.stored), m.log, m.stored).0;
      var clean := Fold(NO_ROWS, Good(m.log));
      && SameTablesButTotals(resumed.tables, clean)
      && (resumed.tables == clean <==> TotalsAgree(m.tables, Good(m.log), m.stored))
      && ((forall order :: CreatedFirst(Good(m.log), order)) ==> resumed.tables == clean)
      && (ForwardOnly(t) ==> resumed.tables == clean)
  {
    EveryStateIsRecoverable(t, m);
    if ForwardOnly(t) {
      ForwardRunsResumeFully(t, m);
      ResumesFullyExactly(m.tables, Good(m.log), m.stored);
    }
    assert ResumesFrom(m.tables, Good(m.log), m.stored);
    ReplayConverges(t, m, checkpoint, m.stored);
  }

  // ----- Repairing any run -----

  // How far the rows were written one after the other, starting over at every rewind.
  ghost function SafePoint(t: Trace): nat {
    if t == [] then 0
    else
      var safe := SafePoint(t[..|t| - 1]);
      match Exec(t[..|t| - 1])
      case None => safe
      case Some(m) =>
        if t[|t| - 1].WriteModel? && m.proc.Replaying? && m.proc.next < |m.log|
           && Decode(m.log[m.proc.next]).Ok? && m.proc.next <= safe
        then m.proc.next + 1
        else safe
  }

  // Any run at all, with crashes and errors at any point of any rewind, can be repaired:
  // replaying from the safe point, or from anywhere before it, gives the clean fold but for
  // totals.
  lemma {:induction false} AnyRunIsRepairable(t: Trace, m: Machine)
    requires Exec(t) == Some(m)
    ensures ResumableUpTo(m.tables, Good(m.log), SafePoint(t))
  {
    if t == [] {
      assert ResumesFrom(NO_ROWS, [], 0);
    } else {
      var u, safe := Exec(t[..|t| - 1]).value, SafePoint(t[..|t| - 1]);
      AnyRunIsRepairable(t[..|t| - 1], u);
      var good := Good(u.log);
      match t[|t| - 1]
      case Append(e) =>
        GoodAppend(u.log, e);
        if Good(u.log + [e]) != good {
          AppendKeepsResumable(u.tables, good, Decode(e).value, safe);
        }
      case WriteModel => WriteKeepsSafe(t[..|t| - 1], u, safe);
      case _ =>
    }
  }

  // And with totals, exactly when they agree.
  lemma AnyRunIsFullyRepairableExactly(t: Trace, m: Machine, c: nat)
    requires Exec(t) == Some(m) && c <= SafePoint(t)
    ensures c <= |Good(m.log)|
    ensures ResumesFully(m.tables, Good(m.log), c) <==> TotalsAgree(m.tables, Good(m.log), c)
  {
    AnyRunIsRepairable(t, m);
    assert ResumesFrom(m.tables, Good(m.log), c);
    ResumesFullyExactly(m.tables, Good(m.log), c);
  }

  lemma WriteKeepsSafe(t: Trace, u: Machine, safe: nat)
    requires Exec(t) == Some(u) && Enabled(u, WriteModel)
    requires ResumableUpTo(u.tables, Good(u.log), safe)
    ensures ResumableUpTo(Next(u, WriteModel).tables, Good(u.log),
                          if Decode(u.log[u.proc.next]).Ok? && u.proc.next <= safe then u.proc.next + 1 else safe)
  {
    AlwaysInPlace(t, u);
    GoodIsPrefix(u.log);
    var good, i := Good(u.log), u.proc.next;
    if Decode(u.log[i]).Ok? {
      if i <= safe {
        WriteKeepsResumable(u.tables, good, i);
      } else {
        forall k: nat | k <= safe ensures ResumesFrom(Apply(u.tables, good[i]), good, k) {
          assert ResumesFrom(u.tables, good, k);
          WriteIsAbsorbed(u.tables, good, i, k);
        }
      }
    }
  }

  // Without rewinds the stored checkpoint is never beyond the safe point.
  lemma {:induction false} ForwardRunsAreSafe(t: Trace, m: Machine)
    requires Exec(t) == Some(m) && ForwardOnly(t)
    ensures m.stored <= SafePoint(t)
    ensures m.proc.Written? ==> m.proc.at < SafePoint(t)
  {
    ForwardRunsAreCareful(t, m);
    if t != [] {
      var u := Exec(t[..|t| - 1]).value;
      ForwardRunsAreSafe(t[..|t| - 1], u);
      ForwardRunsAreCareful(t[..|t| - 1], u);
      AlwaysInPlace(t[..|t| - 1], u);
    }
  }

  lemma ItemlessTotalStep(m: Machine, a: Action, order: OrderId)
    requires Enabled(m, a) && InPlace(m) && !SetsItem(Good(Next(m, a).log), order)
    requires !SetsItem(Good(m.log), order) && order in m.tables.orders ==> m.tables.orders[order].total == 0
    ensures order in Next(m, a).tables.orders ==> Next(m, a).tables.orders[order].total == 0
  {
    GoodIsPrefix(m.log);
    if a.Append? {
      GoodAppend(m.log, a.e);
      assert forall c :: c in Good(m.log) ==> c in Good(m.log + [a.e]);
    } else if a.WriteModel? && Decode(m.log[m.proc.next]).Ok? {
      assert Good(m.log)[m.proc.next] in Good(m.log);
    }
  }

  // An order without items never has a total.
  lemma {:induction false} ItemlessTotal(t: Trace, m: Machine, order: OrderId)
    requires Exec(t) == Some(m) && !SetsItem(Good(m.log), order)
    ensures order in m.tables.orders ==> m.tables.orders[order].total == 0
  {
    if t != [] {
      var u, a := Exec(t[..|t| - 1]).value, t[|t| - 1];
      AlwaysInPlace(t[..|t| - 1], u);
      if !SetsItem(Good(u.log), order) {
        ItemlessTotal(t[..|t| - 1], u, order);
      }
      ItemlessTotalStep(u, a, order);
    }
  }

  // In particular a rebuild from 0 repairs every reachable state, whatever went wrong, but
  // for totals; and those exactly unless it changes the total of some order that is there
  // already, all of whose items came before it.
  lemma RebuildFromZeroRepairs(t: Trace, m: Machine, checkpoint: Option<int>)
    requires Exec(t) == Some(m)
    ensures
      var rebuilt := Replayed(Projection(m.tables, checkpoint, m.stored), m.log, 0).0;
      var clean := Fold(NO_ROWS, Good(m.log));
      && SameTablesButTotals(rebuilt.tables, clean)
      && (rebuilt.tables == clean <==> forall order :: !RebuildChangesTotal(m.tables, Good(m.log), order))
      && ((forall order :: CreatedFirst(Good(m.log), order)) ==> rebuilt.tables == clean)
  {
    var good := Good(m.log);
    AnyRunIsRepairable(t, m);
    AlwaysInPlace(t, m);
    assert ResumesFrom(m.tables, good, 0);
    ReplayConverges(t, m, checkpoint, 0);
    assert good[0..] == good;
    forall order: OrderId | Creates(good, order)
      ensures EndTotal(ViewOf(m.tables, order), good[0..], order) == EndTotal(NO_VIEW, good, order)
              <==> !RebuildChangesTotal(m.tables, good, order)
    {
      if !SetsItem(good, order) {
        ItemlessTotal(t, m, order);
      }
      RebuildTotalExact(m.tables, good, order);
    }
  }

  // ----- `OrderProjection.RebuildFromOffset` is a run of this machine -----

  lemma Extend(t: Trace, m: Machine, a: Action) returns (t': Trace, m': Machine)
    requires Exec(t) == Some(m) && Enabled(m, a)
    ensures t' == t + [a] && m' == Next(m, a) && Exec(t') == Some(m')
  {
    t', m' := t + [a], Next(m, a);
    assert t'[..|t'| - 1] == t;
  }

  // What the method does on its own, the machine does when nothing crashes or fails.
  lemma UndisturbedRebuildIsARun(t: Trace, m: Machine, p: Projection, from: nat) returns (t': Trace)
    requires Exec(t) == Some(m) && m.proc.Waiting? && from <= m.stored
    requires p.tables == m.tables && p.offset == m.stored
    ensures
      var q := Replayed(p, m.log, from).0;
      q.offset >= 0 && Exec(t') == Some(Machine(m.log, q.tables, q.offset, Waiting(q.offset)))
  {
    AlwaysInPlace(t, m);
    var u;
    t', u := Extend(t, m, Rebuild(from));
    t' := ReplayIsARun(t', u, p, from);
  }

  lemma {:induction false} ReplayIsARun(t: Trace, m: Machine, p: Projection, i: nat) returns (t': Trace)
    requires Exec(t) == Some(m) && m.proc == Replaying(i, |m.log|, m.stored)
    requires p.tables == m.tables && p.offset == m.stored
    ensures
      var q := Replayed(p, m.log, i).0;
      q.offset >= 0 && Exec(t') == Some(Machine(m.log, q.tables, q.offset, Waiting(q.offset)))
    decreases |m.log| - i
  {
    var u;
    if i >= |m.log| {
      t', u := Extend(t, m, Finish);
    } else {
      t', u := Extend(t, m, WriteModel);
      if Decode(m.log[i]).Ok? {
        t', u := Extend(t', u, WriteCheckpoint);
        t' := ReplayIsARun(t', u, AppliedAt(p, m.log[i], i + 1).0, i + 1);
      }
    }
  }

  // ----- The window is real -----

  function OrderEvent(id: EventId, eventType: string, order: string): EventEnvelope {
    EventEnvelope(id, eventType, "orders", 1,
                  Json.Obj(map["order_id" := Json.Str(order), "customer_id" := Json.Str("cust_1")]))
  }

  const CREATED := OrderEvent(1, "order.created", "ord_1")
  const CANCELLATION := OrderEvent(2, "order.cancelled", "ord_1")
  const CREATION := CreateOrder("ord_1", "cust_1", OPEN)

  function OneOrder(status: string): ReadModel {
    ReadModel(map["ord_1" := OrderRow("cust_1", status, 0)], map[])
  }

  lemma TwoEvents()
    ensures Decode(CREATED) == Ok(CREATION) && Decode(CANCELLATION) == Ok(CancelOrder("ord_1"))
    ensures Good([CREATED, CANCELLATION]) == [CREATION, CancelOrder("ord_1")]
    ensures Apply(NO_ROWS, CREATION) == OneOrder(OPEN)
    ensures Apply(OneOrder(OPEN), CancelOrder("ord_1")) == OneOrder(CANCELLED)
    ensures Apply(OneOrder(CANCELLED), CREATION) == OneOrder(OPEN)
  {
    assert [CREATED, CANCELLATION][1..] == [CANCELLATION];
    assert Good([CANCELLATION]) == [CancelOrder("ord_1")] + Good([]);
  }

  lemma FoldTwoEvents()
    ensures Fold(NO_ROWS, [CREATION, CancelOrder("ord_1")]) == OneOrder(CANCELLED)
  {
    TwoEvents();
    assert [CREATION, CancelOrder("ord_1")][1..] == [CancelOrder("ord_1")];
    assert [CancelOrder("ord_1")][1..] == [];
  }

  lemma ProjectTwoEvents() returns (t: Trace)
    ensures Exec(t) == Some(Machine([CREATED, CANCELLATION], OneOrder(CANCELLED), 2, Waiting(2)))
  {
    TwoEvents();
    FoldTwoEvents();
    var log, p := [CREATED, CANCELLATION], Projection(NO_ROWS, None, 0);
    var m;
    t, m := Extend([], START, Append(CREATED));
    t, m := Extend(t, m, Append(CANCELLATION));
    assert m.log == log;
    t, m := Extend(t, m, Open);
    t := UndisturbedRebuildIsARun(t, m, p, 0);
    RebuildStopsAtFirstBadEvent(p, log, 0);
    assert log[0..] == log;
  }

  // An order is created, cancelled and projected; a rewind to 0 crashes right after its
  // first write. The checkpoint still says that both rows are in, so a restart has nothing
  // to replay, yet the cancelled order is open again.
  lemma CutRewindLosesCancellation() returns (t: Trace, m: Machine)
    ensures Exec(t) == Some(m)
    ensures m == Machine([CREATED, CANCELLATION], OneOrder(OPEN), 2, Down)
    ensures m.stored == |Good(m.log)| && !ResumesFrom(m.tables, Good(m.log), m.stored)
    ensures Fold(NO_ROWS, Good(m.log)) == OneOrder(CANCELLED)
  {
    TwoEvents();
    t := ProjectTwoEvents();
    m := Machine([CREATED, CANCELLATION], OneOrder(CANCELLED), 2, Waiting(2));
    t, m := Extend(t, m, Rebuild(0));
    t, m := Extend(t, m, WriteModel);
    t, m := Extend(t, m, Crash);
    var good := Good(m.log);
    assert good[2..] == [];
    FoldTwoEvents();
    assert !SameCore(ViewOf(OneOrder(OPEN), "ord_1"), ViewOf(OneOrder(CANCELLED), "ord_1"));
  }
}
