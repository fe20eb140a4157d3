// Any number of publishers of one `InMemoryBus`: each takes the lock once, then sends to
// the subscribers it found there one by one, while others do the same.
module InMemoryProtocol {
  import opened Common
  import opened Envelopes
  import opened InMemoryBusObject

  type PublisherId = nat

  // A publisher between its lock and its answer.
  datatype Sending = Sending(message: Message, left: set<SubscriberId>, answer: PublishResult)

  datatype Sys = Sys(
    channels: map<SubscriberId, Channel>,
    seen: set<EventId>,
    lastSeen: Option<EventId>,
    publishers: map<PublisherId, Sending>)

  const INITIAL := Sys(map[], {}, None, map[])

  datatype Action =
    | Subscribe(s: SubscriberId)
    | Unsubscribe(s: SubscriberId)
    | Refuse(e: EventEnvelope)
    | Lock(p: PublisherId, e: EventEnvelope)
    | Send(p: PublisherId, s: SubscriberId, message: Message, taken: bool)
    | Finish(p: PublisherId)
    | Receive(s: SubscriberId, message: Message)

  predicate Enabled(u: Sys, a: Action) {
    match a
    case Subscribe(s) => s !in u.channels
    case Unsubscribe(s) => s in u.channels
    case Refuse(e) => !Valid(e)
    case Lock(p, e) => Valid(e) && p !in u.publishers
    case Send(p, s, message, taken) =>
      && p in u.publishers && s in u.publishers[p].left && message == u.publishers[p].message
      && s in u.channels && taken == HasRoom(u.channels[s])
    case Finish(p) => p in u.publishers && u.publishers[p].left == {}
    case Receive(s, message) =>
      && s in u.channels && !u.channels[s].closed
      && u.channels[s].queue != [] && u.channels[s].queue[0] == message
  }

  function Next(u: Sys, a: Action): Sys
    requires Enabled(u, a)
  {
    match a
    case Subscribe(s) => u.(channels := u.channels[s := Channel([], false)])
    case Unsubscribe(s) => u.(channels := u.channels[s := u.channels[s].(closed := true)])
    case Refuse(_) => u
    case Lock(p, e) =>
      var sending := Sending(Message(e, u.lastSeen), u.channels.Keys, Ok(Ack(e.id, e.id in u.seen)));
      Sys(u.channels, u.seen + {e.id}, Some(e.id), u.publishers[p := sending])
    case Send(p, s, message, _) =>
      u.(channels := u.channels[s := TrySend(u.channels[s], message)],
         publishers := u.publishers[p := u.publishers[p].(left := u.publishers[p].left - {s})])
    case Finish(p) => u.(publishers := u.publishers - {p})
    case Receive(s, _) =>
      u.(channels := u.channels[s := u.channels[s].(queue := u.channels[s].queue[1..])])
  }

  type Trace = seq<Action>

  function Exec(t: Trace): Option<Sys> {
    if t == [] then Some(INITIAL)
    else
      match Exec(t[..|t| - 1])
      case None => None
      case Some(u) => if Enabled(u, t[|t| - 1]) then Some(Next(u, t[|t| - 1])) else None
  }

  // ----- What the actions of a trace say -----

  // The publish order: the order in which publishers took the lock.
  function LockOrder(t: Trace): seq<EventEnvelope> {
    if t == [] then []
    else
      var order := LockOrder(t[..|t| - 1]);
      match t[|t| - 1]
      case Lock(_, e) => order + [e]
      case _ => order
  }

  function Delivered(t: Trace, s: SubscriberId): seq<Message> {
    if t == [] then []
    else
      var got := Delivered(t[..|t| - 1], s);
      match t[|t| - 1]
      case Send(_, to, message, taken) => if to == s && taken then got + [message] else got
      case _ => got
  }

  function Received(t: Trace, s: SubscriberId): seq<Message> {
    if t == [] then []
    else
      var got := Received(t[..|t| - 1], s);
      match t[|t| - 1]
      case Receive(reader, message) => if reader == s then got + [message] else got
      case _ => got
  }

  // Some message for `s` was dropped.
  predicate Lost(t: Trace, s: SubscriberId) {
    exists a :: a in t && a.Send? && a.s == s && !a.taken
  }

  // How many messages had been published when `s` subscribed.
  function JoinedAt(t: Trace, s: SubscriberId): nat {
    if t == [] then 0
    else if t[|t| - 1] == Subscribe(s) then |LockOrder(t)|
    else JoinedAt(t[..|t| - 1], s)
  }

  // The id published just before position i.
  function Predecessor(order: seq<EventEnvelope>, i: nat): Option<EventId>
    requires i <= |order|
  {
    if i == 0 then None else Some(order[i - 1].id)
  }

  function Link(order: seq<EventEnvelope>, i: nat): Message
    requires i < |order|
  {
    Message(order[i], Predecessor(order, i))
  }

  predicate IsLink(order: seq<EventEnvelope>, m: Message) {
    exists i: nat :: i < |order| && m == Link(order, i)
  }

  // ----- The invariant -----

  predicate OnTheWay(u: Sys, s: SubscriberId, m: Message) {
    exists p :: p in u.publishers && u.publishers[p].message == m && s in u.publishers[p].left
  }

  predicate Accounted(t: Trace, u: Sys, s: SubscriberId, m: Message) {
    m in Delivered(t, s) || OnTheWay(u, s, m) || Lost(t, s)
  }

  // The bus remembers the lock order's last id and all its ids, and every message sent or
  // still to be sent is one of its links.
  ghost predicate LinksOk(t: Trace, u: Sys) {
    var order := LockOrder(t);
    && u.lastSeen == Predecessor(order, |order|)
    && (forall id :: id in u.seen <==> exists i :: 0 <= i < |order| && order[i].id == id)
    && (forall p :: p in u.publishers ==> IsLink(order, u.publishers[p].message))
    && (forall s: SubscriberId, m :: m in Delivered(t, s) ==> IsLink(order, m))
  }

  predicate QueueOk(t: Trace, u: Sys, s: SubscriberId) {
    if s in u.channels then Received(t, s) + u.channels[s].queue == Delivered(t, s)
    else Received(t, s) == Delivered(t, s) == []
  }

  ghost predicate Inv(t: Trace, u: Sys) {
    && LinksOk(t, u)
    && (forall s: SubscriberId, i: nat :: s in u.channels && JoinedAt(t, s) <= i < |LockOrder(t)| ==>
          Accounted(t, u, s, Link(LockOrder(t), i)))
    && (forall s: SubscriberId :: QueueOk(t, u, s))
    && (forall p :: p in u.publishers ==> u.publishers[p].left <= u.channels.Keys)
  }

  lemma LinksStay(order: seq<EventEnvelope>, e: EventEnvelope)
    ensures forall i: nat :: i < |order| ==> Link(order + [e], i) == Link(order, i)
    ensures forall m :: IsLink(order, m) ==> IsLink(order + [e], m)
  {
  }

  lemma TraceStep(t: Trace, a: Action, s: SubscriberId)
    ensures LockOrder(t + [a]) == if a.Lock? then LockOrder(t) + [a.e] else LockOrder(t)
    ensures Delivered(t + [a], s) ==
            if a.Send? && a.s == s && a.taken then Delivered(t, s) + [a.message] else Delivered(t, s)
    ensures Received(t + [a], s) ==
            if a.Receive? && a.s == s then Received(t, s) + [a.message] else Received(t, s)
    ensures JoinedAt(t + [a], s) == if a == Subscribe(s) then |LockOrder(t)| else JoinedAt(t, s)
    ensures Lost(t + [a], s) <==> Lost(t, s) || (a.Send? && a.s == s && !a.taken)
  {
    assert (t + [a])[..|t|] == t;
    if a.Send? && a.s == s && !a.taken {
      assert a in t + [a];
    }
  }

  // A message on its way stays so, is delivered or is lost.
  lemma AccountedStep(t: Trace, u: Sys, a: Action, s: SubscriberId, m: Message)
    requires Inv(t, u) && Enabled(u, a) && Accounted(t, u, s, m)
    ensures Accounted(t + [a], Next(u, a), s, m)
  {
    TraceStep(t, a, s);
    if OnTheWay(u, s, m) {
      var p :| p in u.publishers && u.publishers[p].message == m && s in u.publishers[p].left;
      if !(a.Send? && a.p == p && a.s == s) {
        assert p in Next(u, a).publishers && s in Next(u, a).publishers[p].left;
      }
    }
  }

  lemma AccountedHolds(t: Trace, u: Sys, a: Action, s: SubscriberId, i: nat)
    requires Inv(t, u) && Enabled(u, a)
    requires s in Next(u, a).channels && JoinedAt(t + [a], s) <= i < |LockOrder(t + [a])|
    ensures Accounted(t + [a], Next(u, a), s, Link(LockOrder(t + [a]), i))
  {
    TraceStep(t, a, s);
    var order, order' := LockOrder(t), LockOrder(t + [a]);
    if i < |order| {
      assert Link(order', i) == Link(order, i);
      AccountedStep(t, u, a, s, Link(order, i));
    } else {
      assert a.Lock? && Next(u, a).publishers[a.p].message == Link(order', i);
      assert OnTheWay(Next(u, a), s, Link(order', i));
    }
  }

  lemma LinksStep(t: Trace, u: Sys, a: Action)
    requires LinksOk(t, u) && Enabled(u, a)
    ensures LinksOk(t + [a], Next(u, a))
  {
    var u', order, order' := Next(u, a), LockOrder(t), LockOrder(t + [a]);
    TraceStep(t, a, 0);
    if a.Lock? {
      LinksStay(order, a.e);
      assert Link(order', |order|) == u'.publishers[a.p].message;
      forall id ensures id in u'.seen <==> exists i :: 0 <= i < |order'| && order'[i].id == id {
        assert order'[|order|].id == a.e.id;
        if id in u.seen {
          var i :| 0 <= i < |order| && order[i].id == id;
          assert order'[i].id == id;
        }
      }
    }
    forall s: SubscriberId, m | m in Delivered(t + [a], s) ensures IsLink(order', m) {
      TraceStep(t, a, s);
    }
  }

  lemma QueueStep(t: Trace, u: Sys, a: Action, s: SubscriberId)
    requires QueueOk(t, u, s) && Enabled(u, a)
    ensures QueueOk(t + [a], Next(u, a), s)
  {
  }

  lemma InvStep(t: Trace, u: Sys, a: Action)
    requires Inv(t, u) && Enabled(u, a)
    ensures Inv(t + [a], Next(u, a))
  {
    LinksStep(t, u, a);
    forall s: SubscriberId ensures QueueOk(t + [a], Next(u, a), s) {
      QueueStep(t, u, a, s);
    }
    forall s: SubscriberId, i: nat
      | s in Next(u, a).channels && JoinedAt(t + [a], s) <= i < |LockOrder(t + [a])|
      ensures Accounted(t + [a], Next(u, a), s, Link(LockOrder(t + [a]), i))
    {
      AccountedHolds(t, u, a, s, i);
    }
  }

  lemma {:induction false} InvHolds(t: Trace, u: Sys)
    requires Exec(t) == Some(u)
    ensures Inv(t, u)
  {
    if t != [] {
      var v := Exec(t[..|t| - 1]).value;
      InvHolds(t[..|t| - 1], v);
      InvStep(t[..|t| - 1], v, t[|t| - 1]);
      assert t[..|t| - 1] + [t[|t| - 1]] == t;
    }
  }

  // ----- Recovering the publish order -----

  predicate DistinctIds(order: seq<EventEnvelope>) {
    forall i, j :: 0 <= i < j < |order| ==> order[i].id != order[j].id
  }

  // The first message that says it came right after `previous`; |ms| if there is none.
  function Find(ms: seq<Message>, previous: Option<EventId>): (i: nat)
    ensures i <= |ms|
    ensures i < |ms| ==> ms[i].lastSeen == previous
    ensures i == |ms| ==> forall m :: m in ms ==> m.lastSeen != previous
  {
    if ms == [] || ms[0].lastSeen == previous then 0 else 1 + Find(ms[1..], previous)
  }

  // Follow the chain of predecessors, whatever the order of the messages.
  function Rebuild(ms: seq<Message>, previous: Option<EventId>): seq<EventEnvelope>
    decreases |ms|
  {
    var i := Find(ms, previous);
    if i == |ms| then []
    else [ms[i].envelope] + Rebuild(ms[..i] + ms[i + 1..], Some(ms[i].envelope.id))
  }

  lemma RestOf(ms: seq<Message>, f: nat)
    requires f < |ms|
    ensures forall m :: m in ms[..f] + ms[f + 1..] ==> m in ms
    ensures forall m :: m in ms && m != ms[f] ==> m in ms[..f] + ms[f + 1..]
  {
  }

  // With distinct ids the predecessor tells the link.
  lemma LinkByPredecessor(order: seq<EventEnvelope>, m: Message, j: nat)
    requires DistinctIds(order) && j <= |order|
    requires IsLink(order, m) && m.lastSeen == Predecessor(order, j)
    ensures j < |order| && m == Link(order, j)
  {
  }

  lemma {:induction false} RebuildFollowsChain(ms: seq<Message>, order: seq<EventEnvelope>, j: nat)
    requires DistinctIds(order) && j <= |order|
    requires forall m :: m in ms ==> IsLink(order, m)
    requires forall i: nat :: j <= i < |order| ==> Link(order, i) in ms
    ensures Rebuild(ms, Predecessor(order, j)) == order[j..]
    decreases |order| - j
  {
    var f := Find(ms, Predecessor(order, j));
    assert j < |order| ==> Link(order, j).lastSeen == Predecessor(order, j);
    if f < |ms| {
      LinkByPredecessor(order, ms[f], j);
      RestOf(ms, f);
      var rest := ms[..f] + ms[f + 1..];
      forall k: nat | j + 1 <= k < |order| ensures Link(order, k) in rest {
        assert Link(order, k) in ms && order[j].id != order[k].id;
      }
      RebuildFollowsChain(rest, order, j + 1);
      assert order[j..] == [order[j]] + order[j + 1..];
    }
  }

  // Each message that ever reaches a subscriber carries the id published just before it in
  // lock order, however publishers interleave.
  lemma MessagesAreLinks(t: Trace, u: Sys, s: SubscriberId, m: Message)
    requires Exec(t) == Some(u) && m in Delivered(t, s)
    ensures IsLink(LockOrder(t), m)
  {
    InvHolds(t, u);
  }

  // A subscriber's handler sees the delivered messages in delivery order, each once.
  lemma QueuesAreFifo(t: Trace, u: Sys, s: SubscriberId)
    requires Exec(t) == Some(u)
    ensures Received(t, s) <= Delivered(t, s)
    ensures s in u.channels ==> Received(t, s) + u.channels[s].queue == Delivered(t, s)
  {
    InvHolds(t, u);
    assert QueueOk(t, u, s);
  }

  // With distinct ids, a subscriber that lost nothing and has nothing on its way can
  // rebuild the publish order since it joined from what was delivered to it, in whatever
  // order that came; a subscriber present from the start rebuilds all of it.
  lemma PublishOrderIsRecoverable(t: Trace, u: Sys, s: SubscriberId)
    requires Exec(t) == Some(u) && s in u.channels
    requires DistinctIds(LockOrder(t)) && !Lost(t, s)
    requires forall p :: p in u.publishers ==> s !in u.publishers[p].left
    ensures JoinedAt(t, s) <= |LockOrder(t)|
    ensures Rebuild(Delivered(t, s), Predecessor(LockOrder(t), JoinedAt(t, s))) == LockOrder(t)[JoinedAt(t, s)..]
    ensures JoinedAt(t, s) == 0 ==> Rebuild(Delivered(t, s), None) == LockOrder(t)
  {
    InvHolds(t, u);
    JoinedInRange(t, s);
    var order, j := LockOrder(t), JoinedAt(t, s);
    forall i: nat | j <= i < |order| ensures Link(order, i) in Delivered(t, s) {
      assert Accounted(t, u, s, Link(order, i));
    }
    RebuildFollowsChain(Delivered(t, s), order, j);
  }

  lemma {:induction false} JoinedInRange(t: Trace, s: SubscriberId)
    ensures JoinedAt(t, s) <= |LockOrder(t)|
  {
    if t != [] {
      JoinedInRange(t[..|t| - 1], s);
    }
  }

  // ----- At most once, and exactly once -----

  // No message is in two hands at a time, and none on its way to a subscriber has reached it.
  ghost predicate Once(t: Trace, u: Sys) {
    && (forall p, q :: p in u.publishers && q in u.publishers && p != q ==>
          u.publishers[p].message != u.publishers[q].message)
    && (forall p, s :: p in u.publishers && s in u.publishers[p].left ==>
          u.publishers[p].message !in Delivered(t, s))
    && (forall s: SubscriberId :: NoRepeats(Delivered(t, s)))
  }

  predicate NoRepeats(ms: seq<Message>) {
    forall i, j :: 0 <= i < j < |ms| ==> ms[i] != ms[j]
  }

  // Published after `s` joined.
  predicate IsLinkFrom(order: seq<EventEnvelope>, j: nat, m: Message) {
    exists i: nat :: j <= i < |order| && m == Link(order, i)
  }

  // What reaches a subscriber was published after it joined.
  ghost predicate Since(t: Trace, u: Sys, s: SubscriberId) {
    && (forall m :: m in Delivered(t, s) ==> IsLinkFrom(LockOrder(t), JoinedAt(t, s), m))
    && (forall p :: p in u.publishers && s in u.publishers[p].left ==>
          IsLinkFrom(LockOrder(t), JoinedAt(t, s), u.publishers[p].message))
  }

  lemma NewLinkIsNew(order: seq<EventEnvelope>, e: EventEnvelope, m: Message)
    requires DistinctIds(order + [e]) && IsLink(order, m)
    ensures m.envelope != e
  {
    var i: nat :| i < |order| && m == Link(order, i);
    assert (order + [e])[i].id == order[i].id && (order + [e])[|order|].id == e.id;
  }

  lemma LinkFromStays(order: seq<EventEnvelope>, e: EventEnvelope, j: nat, m: Message)
    requires IsLinkFrom(order, j, m)
    ensures IsLinkFrom(order + [e], j, m)
  {
    var i: nat :| j <= i < |order| && m == Link(order, i);
    assert m == Link(order + [e], i);
  }

  lemma SinceStep(t: Trace, u: Sys, a: Action, s: SubscriberId)
    requires Inv(t, u) && Since(t, u, s) && Enabled(u, a)
    ensures Since(t + [a], Next(u, a), s)
  {
    TraceStep(t, a, s);
    var order := LockOrder(t);
    if a.Lock? {
      forall m | IsLinkFrom(order, JoinedAt(t, s), m) ensures IsLinkFrom(order + [a.e], JoinedAt(t, s), m) {
        LinkFromStays(order, a.e, JoinedAt(t, s), m);
      }
      JoinedInRange(t, s);
      assert Next(u, a).publishers[a.p].message == Link(order + [a.e], |order|);
    }
    assert QueueOk(t, u, s);
  }

  lemma OnceStep(t: Trace, u: Sys, a: Action)
    requires LinksOk(t, u) && Once(t, u) && Enabled(u, a)
    requires DistinctIds(LockOrder(t + [a]))
    ensures Once(t + [a], Next(u, a))
  {
    forall s: SubscriberId ensures Delivered(t + [a], s) ==
        if a.Send? && a.s == s && a.taken then Delivered(t, s) + [a.message] else Delivered(t, s)
    {
      TraceStep(t, a, s);
    }
    if a.Lock? {
      TraceStep(t, a, 0);
      forall m | IsLink(LockOrder(t), m) ensures m.envelope != a.e {
        NewLinkIsNew(LockOrder(t), a.e, m);
      }
    }
  }

  lemma {:induction false} OnceHolds(t: Trace, u: Sys)
    requires Exec(t) == Some(u) && DistinctIds(LockOrder(t))
    ensures Once(t, u)
  {
    if t != [] {
      var t', v := t[..|t| - 1], Exec(t[..|t| - 1]).value;
      assert t' + [t[|t| - 1]] == t;
      TraceStep(t', t[|t| - 1], 0);
      assert DistinctIds(LockOrder(t')) by {
        assert forall i :: 0 <= i < |LockOrder(t')| ==> LockOrder(t)[i] == LockOrder(t')[i];
      }
      OnceHolds(t', v);
      InvHolds(t', v);
      OnceStep(t', v, t[|t| - 1]);
    }
  }

  lemma {:induction false} SinceHolds(t: Trace, u: Sys, s: SubscriberId)
    requires Exec(t) == Some(u)
    ensures Since(t, u, s)
  {
    if t != [] {
      var t', v := t[..|t| - 1], Exec(t[..|t| - 1]).value;
      assert t' + [t[|t| - 1]] == t;
      SinceHolds(t', v, s);
      InvHolds(t', v);
      SinceStep(t', v, t[|t| - 1], s);
    }
  }

  // With distinct ids, no message reaches a subscriber twice, and none that was published
  // before it joined.
  lemma DeliveredAtMostOnce(t: Trace, u: Sys, s: SubscriberId)
    requires Exec(t) == Some(u) && DistinctIds(LockOrder(t))
    ensures NoRepeats(Delivered(t, s))
    ensures forall m :: m in Delivered(t, s) ==> IsLinkFrom(LockOrder(t), JoinedAt(t, s), m)
  {
    OnceHolds(t, u);
    SinceHolds(t, u, s);
  }

  // And a subscriber that lost nothing and has nothing on its way got exactly the messages
  // published since it joined, each of them once.
  lemma DeliveredExactlyOnce(t: Trace, u: Sys, s: SubscriberId)
    requires Exec(t) == Some(u) && s in u.channels
    requires DistinctIds(LockOrder(t)) && !Lost(t, s)
    requires forall p :: p in u.publishers ==> s !in u.publishers[p].left
    ensures NoRepeats(Delivered(t, s))
    ensures forall m :: m in Delivered(t, s) <==> IsLinkFrom(LockOrder(t), JoinedAt(t, s), m)
  {
    DeliveredAtMostOnce(t, u, s);
    InvHolds(t, u);
    forall m | IsLinkFrom(LockOrder(t), JoinedAt(t, s), m) ensures m in Delivered(t, s) {
      var i: nat :| JoinedAt(t, s) <= i < |LockOrder(t)| && m == Link(LockOrder(t), i);
      assert Accounted(t, u, s, Link(LockOrder(t), i));
    }
  }

  // ----- `InMemoryBus.Publish` is a run of this protocol -----

  lemma {:induction false} SendAll(t: Trace, u: Sys, p: PublisherId) returns (t': Trace, u': Sys)
    requires Exec(t) == Some(u) && p in u.publishers && u.publishers[p].left <= u.channels.Keys
    ensures Exec(t') == Some(u') && u' == u.(channels := u'.channels, publishers := u.publishers - {p})
    ensures u'.channels == map s | s in u.channels ::
              if s in u.publishers[p].left then TrySend(u.channels[s], u.publishers[p].message) else u.channels[s]
    decreases |u.publishers[p].left|
  {
    var left, message := u.publishers[p].left, u.publishers[p].message;
    if left == {} {
      t', u' := t + [Finish(p)], Next(u, Finish(p));
      assert t'[..|t'| - 1] == t;
    } else {
      var s :| s in left;
      var a := Send(p, s, message, HasRoom(u.channels[s]));
      assert (t + [a])[..|t + [a]| - 1] == t;
      t', u' := SendAll(t + [a], Next(u, a), p);
      assert Next(u, a).publishers - {p} == u.publishers - {p};
    }
  }

  // What the method does on its own, a publisher does when nobody interferes.
  lemma UndisturbedPublishIsARun(t: Trace, u: Sys, p: PublisherId, e: EventEnvelope) returns (t': Trace)
    requires Exec(t) == Some(u) && Valid(e) && p !in u.publishers
    ensures Exec(t') == Some(Sys(SentToAll(u.channels, Message(e, u.lastSeen)), u.seen + {e.id}, Some(e.id), u.publishers))
  {
    var a, v := Lock(p, e), Next(u, Lock(p, e));
    assert (t + [a])[..|t + [a]| - 1] == t;
    var u';
    t', u' := SendAll(t + [a], v, p);
    assert v.publishers - {p} == u.publishers;
    assert u'.channels == SentToAll(u.channels, Message(e, u.lastSeen));
  }
}
