// The two buses give the same answers to the same publications.
module BusAgreement {
  import opened Common
  import opened Envelopes
  import S = Outbox
  import SP = OutboxProtocol
  import M = InMemoryProtocol

  // ----- The reference: answers from the list of publications alone -----

  predicate PublishedIn(offered: seq<EventEnvelope>, id: EventId) {
    exists e :: e in offered && e.id == id && Valid(e)
  }

  function AnswerAfter(offered: seq<EventEnvelope>, e: EventEnvelope): PublishResult {
    match Validate(e)
    case Ok(_) => Ok(Ack(e.id, PublishedIn(offered, e.id)))
    case Err(fault) => Err(fault)
  }

  function ReferenceAnswers(offered: seq<EventEnvelope>): seq<PublishResult> {
    if offered == [] then []
    else
      var before := offered[..|offered| - 1];
      ReferenceAnswers(before) + [AnswerAfter(before, offered[|offered| - 1])]
  }

  lemma {:induction false} ReferenceAt(offered: seq<EventEnvelope>, i: nat)
    requires i < |offered|
    ensures |ReferenceAnswers(offered)| == |offered|
    ensures ReferenceAnswers(offered)[i] == AnswerAfter(offered[..i], offered[i])
  {
    var n := |offered| - 1;
    if n > 0 {
      ReferenceAt(offered[..n], if i < n then i else 0);
    }
    if i < n {
      assert offered[..n][..i] == offered[..i];
    }
  }

  // Each id gets exactly one acknowledgement that is not marked as a duplicate: that of
  // its first valid publication.
  lemma OneFreshAnswer(offered: seq<EventEnvelope>, id: EventId)
    requires PublishedIn(offered, id)
    ensures |ReferenceAnswers(offered)| == |offered|
    ensures exists i :: 0 <= i < |offered| && ReferenceAnswers(offered)[i] == Ok(Ack(id, false))
    ensures forall i, j :: 0 <= i < j < |offered| ==>
      !(ReferenceAnswers(offered)[i] == ReferenceAnswers(offered)[j] == Ok(Ack(id, false)))
  {
    var e :| e in offered && e.id == id && Valid(e);
    var n :| 0 <= n < |offered| && offered[n] == e;
    var first := FirstPublication(offered, id, n);
    ReferenceAt(offered, first);
    forall i, j | 0 <= i < j < |offered|
      ensures !(ReferenceAnswers(offered)[i] == ReferenceAnswers(offered)[j] == Ok(Ack(id, false)))
    {
      ReferenceAt(offered, i);
      ReferenceAt(offered, j);
      assert offered[..j][i] == offered[i] && offered[i] in offered[..j];
    }
  }

  lemma {:induction false} FirstPublication(offered: seq<EventEnvelope>, id: EventId, n: nat) returns (first: nat)
    requires n < |offered| && offered[n].id == id && Valid(offered[n])
    ensures first <= n && offered[first].id == id && Valid(offered[first])
    ensures !PublishedIn(offered[..first], id)
  {
    if PublishedIn(offered[..n], id) {
      var e :| e in offered[..n] && e.id == id && Valid(e);
      var m :| 0 <= m < n && offered[..n][m] == e;
      first := FirstPublication(offered, id, m);
    } else {
      first := n;
    }
  }

  // ----- The SQLite bus -----

  function SqliteOffered(t: SP.Trace): seq<EventEnvelope> {
    if t == [] then []
    else
      var before := SqliteOffered(t[..|t| - 1]);
      match t[|t| - 1]
      case DoPublish(e, _) => before + [e]
      case Does(_, _) => before
  }

  // The answers the publishers of a run got, each from the tables at that moment.
  ghost function SqliteAnswers(maxRetries: int, t: SP.Trace): seq<PublishResult>
    requires SP.Exec(maxRetries, SP.INITIAL, t).Some?
  {
    if t == [] then []
    else
      var before := SqliteAnswers(maxRetries, t[..|t| - 1]);
      var s := SP.Exec(maxRetries, SP.INITIAL, t[..|t| - 1]).value;
      match t[|t| - 1]
      case DoPublish(e, _) => before + [S.PublishAnswer(s.db, e)]
      case Does(_, _) => before
  }

  lemma {:induction false} OutboxHoldsThePublished(maxRetries: int, t: SP.Trace, s: SP.Sys)
    requires SP.Reachable(maxRetries, t, s)
    ensures forall id :: id in s.db.outbox <==> PublishedIn(SqliteOffered(t), id)
  {
    if t != [] {
      var u := SP.Exec(maxRetries, SP.INITIAL, t[..|t| - 1]).value;
      OutboxHoldsThePublished(maxRetries, t[..|t| - 1], u);
      var before := SqliteOffered(t[..|t| - 1]);
      match t[|t| - 1]
      case DoPublish(e, now) =>
        forall id ensures PublishedIn(before + [e], id) <==> PublishedIn(before, id) || (e.id == id && Valid(e)) {
          AddedPublication(before, e, id);
        }
      case Does(w, op) =>
    }
  }

  lemma AddedPublication(before: seq<EventEnvelope>, e: EventEnvelope, id: EventId)
    ensures PublishedIn(before + [e], id) <==> PublishedIn(before, id) || (e.id == id && Valid(e))
  {
  }

  lemma {:induction false} SqliteFollowsReference(maxRetries: int, t: SP.Trace)
    requires SP.Exec(maxRetries, SP.INITIAL, t).Some?
    ensures SqliteAnswers(maxRetries, t) == ReferenceAnswers(SqliteOffered(t))
  {
    if t != [] {
      var t' := t[..|t| - 1];
      SqliteFollowsReference(maxRetries, t');
      OutboxHoldsThePublished(maxRetries, t', SP.Exec(maxRetries, SP.INITIAL, t').value);
      if t[|t| - 1].DoPublish? {
        assert SqliteOffered(t)[..|SqliteOffered(t)| - 1] == SqliteOffered(t');
      }
    }
  }

  // ----- The in-memory bus -----

  function MemoryOffered(t: M.Trace): seq<EventEnvelope> {
    if t == [] then []
    else
      var before := MemoryOffered(t[..|t| - 1]);
      match t[|t| - 1]
      case Lock(_, e) => before + [e]
      case Refuse(e) => before + [e]
      case _ => before
  }

  // The answers of a run in the order of the locks; a refused envelope is answered at once.
  function MemoryAnswers(t: M.Trace): seq<PublishResult>
    requires M.Exec(t).Some?
  {
    if t == [] then []
    else
      var before := MemoryAnswers(t[..|t| - 1]);
      match t[|t| - 1]
      case Lock(p, _) => before + [M.Exec(t).value.publishers[p].answer]
      case Refuse(e) => before + [Err(Validate(e).error)]
      case _ => before
  }

  lemma {:induction false} SeenHoldsThePublished(t: M.Trace, u: M.Sys)
    requires M.Exec(t) == Some(u)
    ensures forall id :: id in u.seen <==> PublishedIn(MemoryOffered(t), id)
  {
    if t != [] {
      SeenHoldsThePublished(t[..|t| - 1], M.Exec(t[..|t| - 1]).value);
      var before, a := MemoryOffered(t[..|t| - 1]), t[|t| - 1];
      if a.Lock? || a.Refuse? {
        forall id ensures PublishedIn(before + [a.e], id) <==> PublishedIn(before, id) || (a.e.id == id && Valid(a.e)) {
          AddedPublication(before, a.e, id);
        }
      }
    }
  }

  lemma {:induction false} MemoryFollowsReference(t: M.Trace)
    requires M.Exec(t).Some?
    ensures MemoryAnswers(t) == ReferenceAnswers(MemoryOffered(t))
  {
    if t != [] {
      var t', a := t[..|t| - 1], t[|t| - 1];
      MemoryFollowsReference(t');
      SeenHoldsThePublished(t', M.Exec(t').value);
      if a.Lock? || a.Refuse? {
        assert MemoryOffered(t)[..|MemoryOffered(t)| - 1] == MemoryOffered(t');
      }
    }
  }

  // ----- Agreement -----

  // For the same publications, valid and invalid, in the order in which they took effect,
  // both buses return the same stream of acknowledgements and faults, whatever their
  // workers, subscribers and other publishers do in between.
  lemma BusesAgree(maxRetries: int, t: SP.Trace, u: M.Trace)
    requires SP.Exec(maxRetries, SP.INITIAL, t).Some? && M.Exec(u).Some?
    requires SqliteOffered(t) == MemoryOffered(u)
    ensures SqliteAnswers(maxRetries, t) == MemoryAnswers(u)
  {
    SqliteFollowsReference(maxRetries, t);
    MemoryFollowsReference(u);
  }

  // And what they remember is the same: the ids of the outbox are the ids seen.
  lemma OutboxKeysAreSeen(maxRetries: int, t: SP.Trace, s: SP.Sys, u: M.Trace, v: M.Sys)
    requires SP.Reachable(maxRetries, t, s) && M.Exec(u) == Some(v)
    requires SqliteOffered(t) == MemoryOffered(u)
    ensures s.db.outbox.Keys == v.seen
  {
    OutboxHoldsThePublished(maxRetries, t, s);
    SeenHoldsThePublished(u, v);
    forall id ensures id in s.db.outbox.Keys <==> id in v.seen {
      assert id in s.db.outbox <==> PublishedIn(SqliteOffered(t), id);
    }
  }
}
