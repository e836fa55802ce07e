/** The event hub's methods are the steps of the delivery system: publishing, taking a number,
    subscribing and unsubscribing move the hub exactly as they move the system. */
module HubSteps {
  import opened Journal
  import opened EventDelivery
  import Wire

  type Hub = EventHub<Wire.RareKind>

  /** The hub holds the system's journal, and under `id` the connection's channel while that is open. */
  ghost predicate At(hub: Hub, s: State, id: nat)
    reads hub
  {
    && hub.Valid() && hub.capacity == s.capacity
    && hub.next == s.next && hub.history == s.history && hub.published == s.published
    && (s.connection.Some? && !s.connection.value.ended ==> ChannelAt(hub.subscribers, s.connection.value, id))
  }

  predicate ChannelAt(subscribers: map<nat, seq<Entry>>, c: Connection, id: nat) {
    if c.cut then id !in subscribers else id in subscribers && subscribers[id] == c.queue
  }

  method PublishSteps(hub: Hub, payload: Wire.RareKind, ghost s: State, ghost id: nat)
    requires At(hub, s, id)
    modifies hub
    ensures At(hub, Next(s, Publish(payload)), id)
  {
    hub.Publish(payload);
    KeptNext(s.published, s.history, s.next, s.capacity, Event(s.next + 1, payload));
  }

  /** A number taken for another client, or written to this one. */
  method NumberSteps(hub: Hub, ghost s: State, ghost id: nat) returns (number: nat)
    requires At(hub, s, id)
    modifies hub
    ensures At(hub, Next(s, TakeNumber), id)
    ensures Enabled(s, WriteTelemetry) ==>
              && At(hub, Next(s, WriteTelemetry), id) && At(hub, Next(s, WriteResync), id)
              && var wire := Next(s, WriteTelemetry).connection.value.wire;
                 wire != [] && wire[|wire| - 1].Telemetry? && wire[|wire| - 1].id == number
  {
    number := hub.NextID();
  }

  lemma Answered(s: State, replay: seq<Entry>, resync: bool)
    requires s.connection.None? && (resync <==> MustResync(s.next, s.history, s.last))
    requires replay == if resync then [] else Beyond(s.history, s.last)
    ensures var n := Next(s, Connect);
            && n.capacity == s.capacity && n.next == s.next && n.history == s.history && n.published == s.published
            && n.connection.Some? && !n.connection.value.cut && n.connection.value.queue == []
            && n.connection.value.wire == [Zero] + if resync then [Resync] else Replayed(replay) + [Zero]
  {
  }

  /** What the hub answers is what the system puts on the wire. */
  method SubscribeSteps(hub: Hub, last: nat, ghost s: State, ghost previous: nat)
    returns (id: nat, replay: seq<Entry>, resync: bool)
    requires At(hub, s, previous) && s.connection.None? && last == s.last
    modifies hub
    ensures At(hub, Next(s, Connect), id)
    ensures Next(s, Connect).connection.value.wire
            == [Zero] + if resync then [Resync] else Replayed(replay) + [Zero]
  {
    id, replay, resync := hub.Subscribe(last);
    Answered(s, replay, resync);
  }

  method UnsubscribeSteps(hub: Hub, id: nat, ghost s: State)
    requires At(hub, s, id) && s.connection.Some?
    modifies hub
    ensures At(hub, Next(s, Lose), id) && id !in hub.subscribers
  {
    hub.Unsubscribe(id);
  }
}
