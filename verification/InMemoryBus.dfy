// `InMemoryBus` as an object: one bounded queue per subscriber, a set of ids already
// published, and the id published last. Its methods run without interference;
// InMemoryProtocol interleaves publishers.
module InMemoryBusObject {
  import opened Common
  import opened Envelopes

  type SubscriberId = nat

  const SUBSCRIBER_QUEUE: nat := 1024

  datatype Message = Message(envelope: EventEnvelope, lastSeen: Option<EventId>)

  // A subscriber's queue. It is closed once the subscription is dropped; the bus keeps the
  // entry all the same.
  datatype Channel = Channel(queue: seq<Message>, closed: bool)

  predicate HasRoom(c: Channel) {
    !c.closed && |c.queue| < SUBSCRIBER_QUEUE
  }

  // `try_send`: a full or closed queue drops the message.
  function TrySend(c: Channel, m: Message): Channel {
    if HasRoom(c) then c.(queue := c.queue + [m]) else c
  }

  function SentToAll(channels: map<SubscriberId, Channel>, m: Message): map<SubscriberId, Channel> {
    map s | s in channels :: TrySend(channels[s], m)
  }

  class InMemoryBus {
    var channels: map<SubscriberId, Channel>
    var seen: set<EventId>
    var lastSeen: Option<EventId>

    constructor ()
      ensures channels == map[] && seen == {} && lastSeen == None
    {
      channels, seen, lastSeen := map[], {}, None;
    }

    method Subscribe(id: SubscriberId)
      requires id !in channels // a fresh UUID
      modifies this`channels
      ensures channels == old(channels)[id := Channel([], false)]
    {
      channels := channels[id := Channel([], false)];
    }

    method Unsubscribe(id: SubscriberId)
      requires id in channels
      modifies this`channels
      ensures channels == old(channels)[id := old(channels)[id].(closed := true)]
    {
      channels := channels[id := channels[id].(closed := true)];
    }

    method SubscriberCount() returns (n: nat)
      ensures n == |channels|
    {
      n := |channels|;
    }

    // An invalid envelope changes nothing. A duplicate is flagged, but delivered again and
    // taken as the last one seen.
    method Publish(e: EventEnvelope) returns (answer: PublishResult)
      modifies this
      ensures Validate(e).Err? ==>
        && answer == Err(Validate(e).error)
        && channels == old(channels) && seen == old(seen) && lastSeen == old(lastSeen)
      ensures Validate(e).Ok? ==>
        && answer == Ok(Ack(e.id, e.id in old(seen)))
        && channels == SentToAll(old(channels), Message(e, old(lastSeen)))
        && seen == old(seen) + {e.id} && lastSeen == Some(e.id)
    {
      var check := Validate(e);
      if check.Err? {
        return Err(check.error);
      }
      var senders := channels.Keys;
      var duplicate := e.id in seen;
      if !duplicate {
        seen := seen + {e.id};
      }
      var message := Message(e, lastSeen);
      lastSeen := Some(e.id);
      var queues := channels;
      while senders != {}
        invariant senders <= channels.Keys == queues.Keys
        invariant forall s :: s in channels ==>
          queues[s] == if s in senders then channels[s] else TrySend(channels[s], message)
        decreases |senders|
      {
        var s :| s in senders;
        queues := queues[s := TrySend(queues[s], message)];
        senders := senders - {s};
      }
      assert queues == SentToAll(channels, message);
      channels := queues;
      return Ok(Ack(e.id, duplicate));
    }

    // One turn of a subscriber's receive loop; its handler's verdict changes nothing.
    method Receive(id: SubscriberId) returns (m: Option<Message>)
      requires id in channels
      modifies this`channels
      ensures if old(channels)[id].closed || old(channels)[id].queue == [] then m == None && channels == old(channels)
              else m == Some(old(channels)[id].queue[0])
                   && channels == old(channels)[id := old(channels)[id].(queue := old(channels)[id].queue[1..])]
    {
      if channels[id].closed || channels[id].queue == [] {
        return None;
      }
      m := Some(channels[id].queue[0]);
      channels := channels[id := channels[id].(queue := channels[id].queue[1..])];
    }
  }
}
