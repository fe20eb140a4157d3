// The projection reading the bus's own table: `rebuild_from_offset` selects outbox rows by
// rowid and checkpoints those rowids.
module ProjectedOutbox {
  import opened Common
  import opened Envelopes
  import opened Outbox
  import OP = OutboxProtocol
  import opened OutboxOrder
  import opened OrderProjectionObject

  // These are all the outbox rows beyond the offset, in rowid order.
  ghost predicate SelectsRows(db: Tables, offset: int, rows: seq<Row>) {
    && (forall i, j :: 0 <= i < j < |rows| ==> rows[i].rowid < rows[j].rowid)
    && (forall i :: 0 <= i < |rows| ==> rows[i].rowid > offset && IsRow(db, rows[i]))
    && (forall id :: id in db.outbox && db.outbox[id].rowid > offset ==> db.outbox[id] in rows)
  }

  ghost predicate IsRow(db: Tables, row: Row) {
    exists id :: id in db.outbox && db.outbox[id] == row
  }

  lemma RowIsLogged(db: Tables, log: seq<Entry>, row: Row)
    requires Holds(db, log) && IsRow(db, row)
    ensures 1 <= row.rowid <= |log| && row.envelope == log[row.rowid - 1].envelope
  {
  }

  lemma LoggedIsSelected(db: Tables, log: seq<Entry>, offset: int, rows: seq<Row>, i: nat) returns (j: nat)
    requires Holds(db, log) && SelectsRows(db, offset, rows)
    requires i < |log| && i >= offset
    ensures j < |rows| && rows[j].rowid == i + 1
  {
    var id := log[i].envelope.id;
    assert Contains(log, id);
    assert db.outbox[id].rowid == i + 1;
    j :| 0 <= j < |rows| && rows[j] == db.outbox[id];
  }

  // The selected rows have consecutive rowids.
  lemma {:induction false} RowidAt(db: Tables, log: seq<Entry>, offset: int, rows: seq<Row>, i: nat)
    requires Holds(db, log) && SelectsRows(db, offset, rows)
    requires i < |rows|
    ensures rows[i].rowid == FirstIndexAfter(offset) + i + 1
  {
    var k := FirstIndexAfter(offset);
    assert IsRow(db, rows[i]);
    RowIsLogged(db, log, rows[i]);
    if i > 0 {
      RowidAt(db, log, offset, rows, i - 1);
    }
    if rows[i].rowid > k + i + 1 {
      var j := LoggedIsSelected(db, log, offset, rows, k + i);
      if j < i {
        RowidAt(db, log, offset, rows, j);
      }
    }
  }

  lemma SelectedCount(db: Tables, log: seq<Entry>, offset: int, rows: seq<Row>)
    requires Holds(db, log) && SelectsRows(db, offset, rows)
    ensures |rows| == Max(0, |log| - FirstIndexAfter(offset))
  {
    var k := FirstIndexAfter(offset);
    if rows != [] {
      SelectedAt(db, log, offset, rows, |rows| - 1);
    }
    if k + |rows| < |log| {
      var j := LoggedIsSelected(db, log, offset, rows, k + |rows|);
      RowidAt(db, log, offset, rows, j);
    }
  }

  lemma SelectedAt(db: Tables, log: seq<Entry>, offset: int, rows: seq<Row>, i: nat)
    requires Holds(db, log) && SelectsRows(db, offset, rows) && i < |rows|
    ensures
      var at := FirstIndexAfter(offset) + i;
      at < |log| && rows[i].rowid == at + 1 && rows[i].envelope == log[at].envelope
  {
    RowidAt(db, log, offset, rows, i);
    assert IsRow(db, rows[i]);
    RowIsLogged(db, log, rows[i]);
  }

  // What a rebuild selects from a reachable outbox is the publish log after its offset,
  // with rowids that count on from the offset one by one.
  lemma SelectedRowsAreTheLog(maxRetries: int, t: OP.Trace, s: OP.Sys, offset: int, rows: seq<Row>)
    requires OP.Reachable(maxRetries, t, s) && SelectsRows(s.db, offset, rows)
    ensures
      var log, k := PublishLog(t), FirstIndexAfter(offset);
      && |rows| == Max(0, |log| - k)
      && forall i :: 0 <= i < |rows| ==>
           rows[i].rowid == k + i + 1 && rows[i].envelope == log[k + i].envelope
  {
    OutboxIsLog(maxRetries, t, s);
    SelectedCount(s.db, PublishLog(t), offset, rows);
    forall i | 0 <= i < |rows| { SelectedAt(s.db, PublishLog(t), offset, rows, i); }
  }

  // The loop of `rebuild_from_offset` over the selected rows.
  ghost function ReplayedRows(p: Projection, rows: seq<Row>): (Projection, Outcome)
    decreases rows
  {
    if rows == [] then (p, Ok(Unit))
    else
      var (next, outcome) := AppliedAt(p, rows[0].envelope, rows[0].rowid);
      if outcome.Err? then (next, outcome) else ReplayedRows(next, rows[1..])
  }

  lemma {:induction false} RowsAreIndices(p: Projection, rows: seq<Row>, log: seq<EventEnvelope>, k: nat)
    requires k <= |log| && |rows| == |log| - k
    requires forall i :: 0 <= i < |rows| ==> rows[i].rowid == k + i + 1 && rows[i].envelope == log[k + i]
    ensures ReplayedRows(p, rows) == Replayed(p, log, k)
    decreases rows
  {
    if rows != [] {
      assert rows[0].envelope == log[k] && rows[0].rowid == k + 1;
      var (next, outcome) := AppliedAt(p, log[k], k + 1);
      RowsAreIndices(next, rows[1..], log, k + 1);
    }
  }

  function EnvelopesOf(log: seq<Entry>): seq<EventEnvelope> {
    seq(|log|, i requires 0 <= i < |log| => log[i].envelope)
  }

  // Over any reachable outbox, a rebuild from the projection's own offset ends in the same
  // tables, checkpoint, offset and outcome as applying live, one after the other, the
  // events first published after it.
  lemma LiveApplyEqualsRebuildOfOutbox(maxRetries: int, t: OP.Trace, s: OP.Sys, p: Projection, rows: seq<Row>)
    requires OP.Reachable(maxRetries, t, s) && 0 <= p.offset <= |PublishLog(t)|
    requires SelectsRows(s.db, p.offset, rows)
    ensures ReplayedRows(p, rows) == AppliedLive(p, EnvelopesOf(PublishLog(t))[p.offset..])
  {
    SelectedRowsAreTheLog(maxRetries, t, s, p.offset, rows);
    var log := EnvelopesOf(PublishLog(t));
    RowsAreIndices(p, rows, log, p.offset);
    LiveEqualsRebuild(p, log, p.offset);
  }
}
