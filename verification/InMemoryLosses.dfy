// When a message is dropped on its way to a subscriber, read off the trace.
module InMemoryLosses {
  import opened Common
  import opened Envelopes
  import opened InMemoryBusObject
  import opened InMemoryProtocol

  // How many messages a subscriber has yet to receive.
  function Behind(t: Trace, s: SubscriberId): int {
    |Delivered(t, s)| - |Received(t, s)|
  }

  lemma {:induction false} ClosedExactly(t: Trace, u: Sys, s: SubscriberId)
    requires Exec(t) == Some(u)
    ensures Unsubscribe(s) in t <==> s in u.channels && u.channels[s].closed
  {
    if t != [] {
      var t', a := t[..|t| - 1], t[|t| - 1];
      assert t == t' + [a];
      ClosedExactly(t', Exec(t').value, s);
    }
  }

  // A message sent to a subscriber is taken exactly when the subscription has not been
  // dropped and fewer than 1024 messages are waiting there.
  lemma TakenExactly(t: Trace, u: Sys, p: PublisherId, s: SubscriberId, m: Message, taken: bool)
    requires Exec(t) == Some(u) && Enabled(u, Send(p, s, m, taken))
    ensures taken <==> Unsubscribe(s) !in t && Behind(t, s) < 1024
  {
    ClosedExactly(t, u, s);
    InvHolds(t, u);
    assert QueueOk(t, u, s);
  }

  // The message sent at this point of the trace finds no room.
  predicate DroppedAt(t: Trace, s: SubscriberId, i: int)
    requires 0 <= i < |t|
  {
    t[i].Send? && t[i].s == s && (Unsubscribe(s) in t[..i] || Behind(t[..i], s) >= 1024)
  }

  lemma {:induction false} LostExactly(t: Trace, u: Sys, s: SubscriberId)
    requires Exec(t) == Some(u)
    ensures Lost(t, s) <==> exists i :: 0 <= i < |t| && DroppedAt(t, s, i)
  {
    if t != [] {
      var n, a := |t| - 1, t[|t| - 1];
      var t', v := t[..n], Exec(t[..n]).value;
      assert t == t' + [a];
      LostExactly(t', v, s);
      TraceStep(t', a, s);
      forall i | 0 <= i < n ensures DroppedAt(t, s, i) <==> DroppedAt(t', s, i) {
        assert t[..i] == t'[..i];
      }
      if a.Send? && a.s == s {
        TakenExactly(t', v, a.p, s, a.message, a.taken);
        assert DroppedAt(t, s, n) <==> !a.taken;
      }
    }
  }

  // The subscriber stayed, and was never 1024 messages behind.
  predicate KeepsUp(t: Trace, s: SubscriberId) {
    Unsubscribe(s) !in t && forall i :: 0 <= i <= |t| ==> Behind(t[..i], s) < 1024
  }

  // Such a subscriber loses nothing.
  lemma KeepingUpLosesNothing(t: Trace, u: Sys, s: SubscriberId)
    requires Exec(t) == Some(u) && KeepsUp(t, s)
    ensures !Lost(t, s)
  {
    LostExactly(t, u, s);
  }

  // So, with distinct ids and nothing on its way, it got exactly the messages published
  // since it joined, each once, and can rebuild the publish order from them.
  lemma KeepingUpGetsAll(t: Trace, u: Sys, s: SubscriberId)
    requires Exec(t) == Some(u) && s in u.channels && KeepsUp(t, s)
    requires DistinctIds(LockOrder(t))
    requires forall p :: p in u.publishers ==> s !in u.publishers[p].left
    ensures NoRepeats(Delivered(t, s))
    ensures forall m :: m in Delivered(t, s) <==> IsLinkFrom(LockOrder(t), JoinedAt(t, s), m)
    ensures JoinedAt(t, s) <= |LockOrder(t)|
    ensures Rebuild(Delivered(t, s), Predecessor(LockOrder(t), JoinedAt(t, s))) == LockOrder(t)[JoinedAt(t, s)..]
  {
    KeepingUpLosesNothing(t, u, s);
    DeliveredExactlyOnce(t, u, s);
    PublishOrderIsRecoverable(t, u, s);
  }
}
